# User manager of the social-media post scheduler, in Dafny

This project models the account layer of the scheduler's desktop application
(`main.py`): the `UserManager` that keeps registered users in memory and
tracks who is signed in, and the `User` records it stores.

- `accounts.dfy`, module `Accounts`: the manager as a value. An `Account` holds
  the three fields of a user (name, e-mail, password). A `State` holds the
  table from e-mail to account and the key of the signed-in user, if any. One
  function per operation returns a `Step`: the boolean the operation reports
  and the state it leaves behind. `Consistent` is the representation
  invariant: every record is filed under its own e-mail, and the signed-in
  user is a stored record. `Call`, `Apply` and `Run` describe any history of
  calls on a manager, and the lemmas relate operations to each other (log in
  after registering, log in after a password or e-mail change, change an
  e-mail and back, re-register a deleted e-mail).
- `manager.dfy`, module `Manager`: the program's own shape. `User` is a class
  whose fields are changed in place. `UserManager` is a class with a field
  `users: map<string, User>` and a field `current: User?`. Its invariant
  `Valid()` says that `current` is the very object stored under its e-mail.
  So, as in the program, renaming the user or changing their password edits
  the object that the table holds. `update_email` moves that same object to
  its new key. Each method is proved to follow the `Accounts` function of the
  same name on the abstract value `Model()`. It also states which objects the
  table holds afterwards and which object is signed in.

Python's `if self.current_user:` is modelled as `current != null`: `User`
defines neither `__bool__` nor `__len__`, so every `User` object is truthy.

The application window is titled "Social Media Post Scheduler" (main.py:71),
but `main.py` contains no scheduling code: its scheduler entry point
(`ApplicationPage.open_social_media_scheduler`, main.py:171-173) is an empty
placeholder.

## Model

| member | source | states |
|---|---|---|
| `Accounts.Init` | main.py:13-15 | a new manager has no users and nobody signed in, which satisfies the invariant |
| `Accounts.RegisterUser` | main.py:17-22 | succeeds iff the e-mail is not yet a key; on success exactly one record `(name, email, password)` is added under that e-mail and the table grows by one; no existing record and not the session change; on failure nothing changes; the invariant is kept |
| `Accounts.LoginUser` | main.py:24-29 | succeeds iff the e-mail is registered and its stored password equals the given one; on success that e-mail is signed in; on failure the previous session is kept, not cleared; the table never changes |
| `Accounts.LogoutUser` | main.py:31-32 | nobody is signed in afterwards and the table is unchanged |
| `Accounts.DeleteAccount` | main.py:34-40 | succeeds iff someone is signed in; on success exactly that user's key is removed (the table shrinks by one), every other record is kept and nobody is signed in; otherwise nothing changes |
| `Accounts.UpdateUsername` | main.py:42-47 | succeeds iff someone is signed in; on success only the signed-in record's name changes; keys, session and all other records are unchanged; otherwise nothing changes |
| `Accounts.UpdateEmail` | main.py:49-58 | fails with no change when the new e-mail is already a key, including the signed-in user's own e-mail, or when nobody is signed in; otherwise the old key disappears and the new key holds the same name and password with the new e-mail. The session follows the new key, the table size is unchanged and other records are untouched |
| `Accounts.ChangePassword` | main.py:60-65 | succeeds iff someone is signed in and the supplied current password matches theirs; on success only that record's password changes; keys, session and other records are unchanged; otherwise nothing changes |
| `Accounts.Apply` | main.py:17-65 | every operation keeps the invariant, adds at most one record, and leaves the state unchanged when it reports failure |
| `Accounts.Run` | main.py:12-65 | after any sequence of calls from a consistent state (the new manager included) the invariant holds, and the table has grown by at most one record per call |
| `Accounts.RegisterThenLogin` | main.py:17-29 | a user who has just registered can log in with the same e-mail and password, and becomes the signed-in user |
| `Accounts.PasswordChangeSeenAtLogin` | main.py:24-29 | because the signed-in user is the stored record (main.py:61-62), after a successful password change a login with the new password succeeds and one with the old password fails when the two differ |
| `Accounts.EmailChangeSeenAtLogin` | main.py:49-58 | after a successful e-mail change the user logs in under the new e-mail with the unchanged password, and the old e-mail is no longer registered |
| `Accounts.EmailChangeRoundTrip` | main.py:49-58 | changing the e-mail and then changing it back succeeds and restores the original state exactly |
| `Accounts.DeleteFreesEmail` | main.py:34-40 | after the signed-in account is deleted, registering its e-mail again succeeds |
| `Manager.User.constructor` | main.py:5-9 | the new user holds the given name, e-mail and password |
| `Manager.UserManager.Model` | main.py:14-15 | the abstract value of a valid manager satisfies the invariant and has exactly the manager's keys |
| `Manager.UserManager.constructor` | main.py:13-15 | empty table, nobody signed in, invariant established |
| `Manager.UserManager.RegisterUser` | main.py:17-22 | follows `Accounts.RegisterUser`, keeps `Valid()`; on success the table holds one fresh `User` under the e-mail and the same objects as before elsewhere |
| `Manager.UserManager.LoginUser` | main.py:24-29 | follows `Accounts.LoginUser`, keeps `Valid()`; on success the signed-in user is the very object stored under the e-mail; the table is not modified |
| `Manager.UserManager.LogoutUser` | main.py:31-32 | follows `Accounts.LogoutUser`: the signed-in reference is cleared and the table is unchanged |
| `Manager.UserManager.DeleteAccount` | main.py:34-40 | follows `Accounts.DeleteAccount`, keeps `Valid()`; on success exactly the signed-in user's key is removed; afterwards nobody is signed in |
| `Manager.UserManager.UpdateUsername` | main.py:42-47 | follows `Accounts.UpdateUsername` and keeps `Valid()`; it writes only the signed-in `User` object, so the table and the signed-in reference are the same afterwards and the change shows in the table |
| `Manager.UserManager.UpdateEmail` | main.py:49-58 | follows `Accounts.UpdateEmail`, keeps `Valid()`; on success the same `User` object is re-keyed from its old e-mail to the new one and stays signed in |
| `Manager.UserManager.ChangePassword` | main.py:60-65 | follows `Accounts.ChangePassword` and keeps `Valid()`; it writes only the signed-in `User` object, which the table still holds |

## Left out

- The tkinter interface (`App`, its frame registry and `show_frame`, every page class, its widgets and message boxes, main.py:68-268): it only forwards user input to `UserManager` and shows the boolean result.
- The `__main__` entry point and the event loop (main.py:271-273).
- The social-media scheduler: `main.py` contains only an empty placeholder for it (main.py:171-173). So there is no recurrence, publishing, queue or background thread to model.
- Persistence of users to a JSON file and the drafts attached to a user: they exist only in a separate, larger variant of the application, which is not part of this model.
- Password security: passwords are plain strings compared by equality (main.py:25, main.py:61), and so they are here.
- `Accounts.DeleteAccount`, `Accounts.UpdateEmail`, `Accounts.UpdateUsername`, `Accounts.ChangePassword`: these require the invariant `Consistent`, because on a state that breaks it the program would raise `KeyError` or edit an object no longer in the table. `Run` shows that no sequence of calls from a new manager reaches such a state.
- `logout_user` returns nothing; in `Accounts.Apply` a logout is reported as succeeding.
