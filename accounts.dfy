/** The in-memory account table of the user manager, as values.

    A `State` is what a `UserManager` holds at one moment: the dictionary
    from e-mail address to user record, and which of those users (if any)
    is signed in. Each operation of the manager is a function from a state
    (and its arguments) to a `Step`: the boolean the operation reports and
    the state it leaves behind. The class in module `Manager` is proved to
    follow these functions call by call.
 */
module Accounts {

  datatype Option<+T> = None | Some(value: T)

  /** The three fields of one user record. Passwords are opaque strings,
      compared by equality only. */
  datatype Account = Account(name: string, email: string, password: string)

  /** `table` maps each registered e-mail to its record; `session` is the
      key of the signed-in user, or `None` when nobody is signed in. */
  datatype State = State(table: map<string, Account>, session: Option<string>)

  /** What an operation reports (`ok`) and the state it leaves. */
  datatype Step = Step(ok: bool, next: State)

  /** The representation invariant: every record is filed under its own
      e-mail, and the signed-in user is one of the stored records. */
  predicate Consistent(s: State) {
    && (forall k :: k in s.table ==> s.table[k].email == k)
    && (s.session.Some? ==> s.session.value in s.table)
  }

  /** `t` agrees with `m` on every key other than `k`. */
  ghost predicate AgreeExcept(m: map<string, Account>, t: map<string, Account>, k: string) {
    forall j :: j != k ==> (j in m <==> j in t) && (j in m ==> m[j] == t[j])
  }

  /** A fresh manager: no users, nobody signed in. */
  function Init(): (s: State)
    ensures Consistent(s)
    ensures |s.table| == 0 && s.session.None?
  {
    State(map[], None)
  }

  /** register_user: fails on an e-mail already in use, otherwise files a
      new record under that e-mail. The session is never touched. */
  function RegisterUser(s: State, name: string, email: string, password: string): (r: Step)
    ensures r.ok <==> email !in s.table
    ensures !r.ok ==> r.next == s
    ensures r.ok ==> r.next.table.Keys == s.table.Keys + {email}
    ensures r.ok ==> r.next.table[email] == Account(name, email, password)
    ensures r.ok ==> |r.next.table| == |s.table| + 1
    ensures forall k :: k in s.table ==> k in r.next.table && r.next.table[k] == s.table[k]
    ensures r.next.session == s.session
    ensures Consistent(s) ==> Consistent(r.next)
  {
    if email in s.table then Step(false, s)
    else Step(true, s.(table := s.table[email := Account(name, email, password)]))
  }

  /** login_user: succeeds exactly when the e-mail is registered with that
      password; a failed attempt keeps whoever was signed in. */
  function LoginUser(s: State, email: string, password: string): (r: Step)
    ensures r.ok <==> email in s.table && s.table[email].password == password
    ensures r.next.table == s.table
    ensures r.ok ==> r.next.session == Some(email)
    ensures !r.ok ==> r.next == s
    ensures Consistent(s) ==> Consistent(r.next)
  {
    if email in s.table && s.table[email].password == password then
      Step(true, s.(session := Some(email)))
    else
      Step(false, s)
  }

  /** logout_user: nobody is signed in afterwards; the table is untouched. */
  function LogoutUser(s: State): (r: State)
    ensures r.session.None?
    ensures r.table == s.table
    ensures Consistent(s) ==> Consistent(r)
  {
    s.(session := None)
  }

  /** delete_account: removes the signed-in user's record and signs out;
      fails without change when nobody is signed in. */
  function DeleteAccount(s: State): (r: Step)
    requires Consistent(s)
    ensures r.ok <==> s.session.Some?
    ensures !r.ok ==> r.next == s
    ensures r.ok ==> r.next.table.Keys == s.table.Keys - {s.session.value}
    ensures r.ok ==> |r.next.table| == |s.table| - 1
    ensures r.ok ==> r.next.session.None?
    ensures forall k :: k in r.next.table ==> k in s.table && r.next.table[k] == s.table[k]
    ensures Consistent(r.next)
  {
    match s.session
    case None => Step(false, s)
    case Some(k) =>
      var t := s.table - {k};
      assert t.Keys == s.table.Keys - {k};
      Step(true, State(t, None))
  }

  /** update_username: renames the signed-in user; every key and every
      other record stays as it was. */
  function UpdateUsername(s: State, newName: string): (r: Step)
    requires Consistent(s)
    ensures r.ok <==> s.session.Some?
    ensures !r.ok ==> r.next == s
    ensures r.next.session == s.session
    ensures r.next.table.Keys == s.table.Keys
    ensures r.ok ==> var k := s.session.value;
      && r.next.table[k] == Account(newName, s.table[k].email, s.table[k].password)
      && AgreeExcept(s.table, r.next.table, k)
    ensures Consistent(r.next)
  {
    match s.session
    case None => Step(false, s)
    case Some(k) =>
      var a := s.table[k];
      Step(true, s.(table := s.table[k := a.(name := newName)]))
  }

  /** update_email: fails when the new e-mail is already a key (the signed-in
      user's own e-mail included) or nobody is signed in; otherwise the
      signed-in record moves from its old key to the new one and carries the
      new e-mail, the session follows it, and nothing else changes. */
  function UpdateEmail(s: State, newEmail: string): (r: Step)
    requires Consistent(s)
    ensures r.ok <==> newEmail !in s.table && s.session.Some?
    ensures s.session == Some(newEmail) ==> !r.ok
    ensures !r.ok ==> r.next == s
    ensures r.ok ==> var k := s.session.value;
      && r.next.table.Keys == s.table.Keys - {k} + {newEmail}
      && r.next.table[newEmail] == Account(s.table[k].name, newEmail, s.table[k].password)
      && r.next.session == Some(newEmail)
      && |r.next.table| == |s.table|
    ensures r.ok ==> forall j :: j in s.table && j != s.session.value ==> j in r.next.table && r.next.table[j] == s.table[j]
    ensures Consistent(r.next)
  {
    if newEmail in s.table then Step(false, s)
    else
      match s.session
      case None => Step(false, s)
      case Some(k) =>
        var a := s.table[k];
        var t := (s.table - {k})[newEmail := a.(email := newEmail)];
        assert |s.table - {k}| == |s.table| - 1 by {
          assert (s.table - {k}).Keys == s.table.Keys - {k};
        }
        Step(true, State(t, Some(newEmail)))
  }

  /** change_password: succeeds exactly when someone is signed in and the
      supplied current password matches theirs; only that record changes. */
  function ChangePassword(s: State, currentPassword: string, newPassword: string): (r: Step)
    requires Consistent(s)
    ensures r.ok <==> s.session.Some? && s.table[s.session.value].password == currentPassword
    ensures !r.ok ==> r.next == s
    ensures r.next.session == s.session
    ensures r.next.table.Keys == s.table.Keys
    ensures r.ok ==> var k := s.session.value;
      && r.next.table[k] == Account(s.table[k].name, s.table[k].email, newPassword)
      && AgreeExcept(s.table, r.next.table, k)
    ensures Consistent(r.next)
  {
    match s.session
    case None => Step(false, s)
    case Some(k) =>
      var a := s.table[k];
      if a.password == currentPassword then
        Step(true, s.(table := s.table[k := a.(password := newPassword)]))
      else
        Step(false, s)
  }

  /** One call on the manager, with its arguments. */
  datatype Call =
    | Register(name: string, email: string, password: string)
    | Login(email: string, password: string)
    | Logout
    | Delete
    | SetName(newName: string)
    | SetEmail(newEmail: string)
    | SetPassword(currentPassword: string, newPassword: string)

  /** The effect of one call; `logout_user` returns nothing and is reported
      here as succeeding. Every call keeps the invariant, adds at most one
      record, and a call that reports failure changes nothing. */
  function Apply(s: State, c: Call): (r: Step)
    requires Consistent(s)
    ensures Consistent(r.next)
    ensures |r.next.table| <= |s.table| + 1
    ensures !r.ok ==> r.next == s
  {
    match c
    case Register(n, e, p) => RegisterUser(s, n, e, p)
    case Login(e, p) => LoginUser(s, e, p)
    case Logout => Step(true, LogoutUser(s))
    case Delete => DeleteAccount(s)
    case SetName(n) => UpdateUsername(s, n)
    case SetEmail(e) => UpdateEmail(s, e)
    case SetPassword(p, q) => ChangePassword(s, p, q)
  }

  /** The state after a whole history of calls. From any consistent state
      (in particular from `Init()`) every history ends in a consistent state,
      and the table grows by at most one record per call. */
  function Run(s: State, calls: seq<Call>): (r: State)
    requires Consistent(s)
    ensures Consistent(r)
    ensures |r.table| <= |s.table| + |calls|
    decreases |calls|
  {
    if calls == [] then s else Run(Apply(s, calls[0]).next, calls[1..])
  }

  /** A user who has just registered can sign in with the same password. */
  lemma RegisterThenLogin(s: State, name: string, email: string, password: string)
    requires email !in s.table
    ensures var t := RegisterUser(s, name, email, password).next;
      LoginUser(t, email, password) == Step(true, t.(session := Some(email)))
  {
  }

  /** The signed-in record and the stored record are one and the same: after
      a successful password change the new password opens the account and
      the old one no longer does. */
  lemma PasswordChangeSeenAtLogin(s: State, currentPassword: string, newPassword: string)
    requires Consistent(s)
    requires ChangePassword(s, currentPassword, newPassword).ok
    ensures var t := ChangePassword(s, currentPassword, newPassword).next;
      var e := s.session.value;
      && LoginUser(t, e, newPassword).ok
      && (currentPassword != newPassword ==> !LoginUser(t, e, currentPassword).ok)
  {
  }

  /** Likewise for the e-mail: after a successful change the user signs in
      under the new e-mail with the unchanged password, and the old e-mail
      is no longer registered. */
  lemma EmailChangeSeenAtLogin(s: State, newEmail: string)
    requires Consistent(s)
    requires UpdateEmail(s, newEmail).ok
    ensures var t := UpdateEmail(s, newEmail).next;
      var k := s.session.value;
      && LoginUser(t, newEmail, s.table[k].password).ok
      && k !in t.table
  {
  }

  /** Changing the e-mail and then changing it back restores the state
      exactly. */
  lemma EmailChangeRoundTrip(s: State, newEmail: string)
    requires Consistent(s)
    requires UpdateEmail(s, newEmail).ok
    ensures var t := UpdateEmail(s, newEmail).next;
      UpdateEmail(t, s.session.value) == Step(true, s)
  {
  }

  /** Deleting an account frees its e-mail for a new registration. */
  lemma DeleteFreesEmail(s: State, name: string, password: string)
    requires Consistent(s)
    requires s.session.Some?
    ensures var t := DeleteAccount(s).next;
      RegisterUser(t, name, s.session.value, password).ok
  {
  }
}
