/** The user manager as the program has it: a `UserManager` object holding a
    dictionary from e-mail to `User` objects and a reference to the signed-in
    `User`. That reference is an alias of the stored object, so the profile
    operations edit the record in the table by editing the signed-in user.
    Every method is proved to follow the function of the same name in module
    `Accounts` on the abstract value `Model()`.
 */
module Manager {
  import opened Accounts

  /** One registered user; its fields are changed in place. */
  class User {
    var name: string
    var email: string
    var password: string

    constructor (name: string, email: string, password: string)
      ensures this.name == name && this.email == email && this.password == password
    {
      this.name := name;
      this.email := email;
      this.password := password;
    }

    ghost function Snapshot(): Account
      reads this
    {
      Account(name, email, password)
    }
  }

  class UserManager {
    /** Keyed by e-mail. */
    var users: map<string, User>
    /** The signed-in user, or null. */
    var current: User?

    /** Every user is filed under its own e-mail, and the signed-in user is
        the very object filed under its e-mail. */
    ghost predicate Valid()
      reads this, users.Values, current
    {
      && (forall k :: k in users ==> users[k].email == k)
      && (current != null ==> current.email in users && users[current.email] == current)
    }

    /** The manager as a value: each user's fields, and the signed-in key. */
    ghost function Model(): (s: State)
      reads this, users.Values
      requires Valid()
      ensures Consistent(s)
      ensures s.table.Keys == users.Keys
    {
      State(map k | k in users :: users[k].Snapshot(),
            if current == null then None else Some(current.email))
    }

    constructor ()
      ensures Valid()
      ensures users == map[] && current == null
      ensures Model() == Init()
    {
      users := map[];
      current := null;
    }

    method RegisterUser(name: string, email: string, password: string) returns (ok: bool)
      requires Valid()
      modifies this
      ensures Valid()
      ensures Step(ok, Model()) == Accounts.RegisterUser(old(Model()), name, email, password)
      ensures current == old(current)
      ensures !ok ==> users == old(users)
      ensures ok ==> fresh(users[email]) && users == old(users)[email := users[email]]
    {
      ghost var before := Model();
      if email in users {
        ok := false;
      } else {
        var u := new User(name, email, password);
        users := users[email := u];
        ok := true;
        assert current != null ==> users[current.email] == current;
        assert Valid();
        assert Model().table == before.table[email := u.Snapshot()];
      }
    }

    method LoginUser(email: string, password: string) returns (ok: bool)
      requires Valid()
      modifies this
      ensures Valid()
      ensures Step(ok, Model()) == Accounts.LoginUser(old(Model()), email, password)
      ensures users == old(users)
      ensures ok ==> current == users[email]
      ensures !ok ==> current == old(current)
    {
      if email in users && users[email].password == password {
        current := users[email];
        ok := true;
      } else {
        ok := false;
      }
    }

    method LogoutUser()
      requires Valid()
      modifies this
      ensures Valid()
      ensures Model() == Accounts.LogoutUser(old(Model()))
      ensures users == old(users) && current == null
    {
      current := null;
    }

    method DeleteAccount() returns (ok: bool)
      requires Valid()
      modifies this
      ensures Valid()
      ensures Step(ok, Model()) == Accounts.DeleteAccount(old(Model()))
      ensures current == null
      ensures ok ==> users == old(users) - {old(current.email)}
      ensures !ok ==> users == old(users)
    {
      if current != null {
        users := users - {current.email};
        current := null;
        ok := true;
      } else {
        ok := false;
      }
    }

    /** Edits the signed-in `User` object only; the table still holds that
        same object. */
    method UpdateUsername(newName: string) returns (ok: bool)
      requires Valid()
      modifies current
      ensures Valid()
      ensures Step(ok, Model()) == Accounts.UpdateUsername(old(Model()), newName)
      ensures users == old(users) && current == old(current)
    {
      if current != null {
        current.name := newName;
        ok := true;
      } else {
        ok := false;
      }
    }

    /** Moves the signed-in `User` object to the new key and edits its
        e-mail. */
    method UpdateEmail(newEmail: string) returns (ok: bool)
      requires Valid()
      modifies this, current
      ensures Valid()
      ensures Step(ok, Model()) == Accounts.UpdateEmail(old(Model()), newEmail)
      ensures current == old(current)
      ensures ok ==> users == (old(users) - {old(current.email)})[newEmail := current]
      ensures !ok ==> users == old(users)
    {
      if newEmail in users {
        ok := false;
      } else if current != null {
        ghost var before := Model();
        var u := users[current.email];
        var k := current.email;
        users := (users - {k})[newEmail := u];
        current.email := newEmail;
        ok := true;
        assert forall j :: j in users && j != newEmail ==> users[j] != current && users[j] == old(users[j]);
        assert users[newEmail] == current;
        assert Valid();
        assert Model().table == (before.table - {k})[newEmail := u.Snapshot()];
      } else {
        ok := false;
      }
    }

    /** Edits the signed-in `User` object only. */
    method ChangePassword(currentPassword: string, newPassword: string) returns (ok: bool)
      requires Valid()
      modifies current
      ensures Valid()
      ensures Step(ok, Model()) == Accounts.ChangePassword(old(Model()), currentPassword, newPassword)
      ensures users == old(users) && current == old(current)
    {
      if current != null && current.password == currentPassword {
        current.password := newPassword;
        ok := true;
      } else {
        ok := false;
      }
    }
  }
}
