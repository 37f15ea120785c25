/**
  The registration screen (`RegisterView`): the ordered guards of `register`, the
  account it creates, and the keystroke limiters of its three fields. The user
  store is the set of usernames the `users` table holds; password hashes are not
  part of this model.
 */
module Register {
  import opened Options
  import opened Text
  import EventForm

  const UsernameMin := 4
  const UsernameMax := 20
  const PasswordMin := 8
  const PasswordMax := 30

  /** The reasons `register` refuses, one per error message it can show. */
  datatype Refusal =
    | SpecialCharacters
    | FieldsRequired
    | UsernameTooShort
    | PasswordTooShort
    | UsernameTooLong
    | PasswordTooLong
    | NeedsLetterAndDigit
    | PasswordsDiffer
    | UsernameTaken

  /** The text of the error box for each refusal. */
  function Message(why: Refusal): string {
    match why
    case SpecialCharacters => "No special characters or spaces allowed in username or password"
    case FieldsRequired => "All fields are required"
    case UsernameTooShort => "Username must be at least 4 characters long"
    case PasswordTooShort => "Password must be at least 8 characters long"
    case UsernameTooLong => "Username must be 20 characters or less"
    case PasswordTooLong => "Password must be 30 characters or less"
    case NeedsLetterAndDigit => "Password must contain both letters and numbers"
    case PasswordsDiffer => "Passwords do not match"
    case UsernameTaken => "Username already exists"
  }

  /** The position of each guard in `register`. */
  function Order(why: Refusal): (n: nat)
    ensures n < 9
  {
    match why
    case SpecialCharacters => 0
    case FieldsRequired => 1
    case UsernameTooShort => 2
    case PasswordTooShort => 3
    case UsernameTooLong => 4
    case PasswordTooLong => 5
    case NeedsLetterAndDigit => 6
    case PasswordsDiffer => 7
    case UsernameTaken => 8
  }

  /** The rule each guard enforces, stated on its own. */
  ghost predicate Rule(why: Refusal, users: set<string>, username: string, password: string, confirm: string) {
    match why
    case SpecialCharacters => IsAlnum(username) && IsAlnum(password)
    case FieldsRequired => username != "" && password != "" && confirm != ""
    case UsernameTooShort => |username| >= UsernameMin
    case PasswordTooShort => |password| >= PasswordMin
    case UsernameTooLong => |username| <= UsernameMax
    case PasswordTooLong => |password| <= PasswordMax
    case NeedsLetterAndDigit =>
      (exists i :: 0 <= i < |password| && IsAlpha(password[i])) &&
      (exists i :: 0 <= i < |password| && IsDigit(password[i]))
    case PasswordsDiffer => password == confirm
    case UsernameTaken => username !in users
  }

  /** Python's `any(f(ch) for ch in s)`. */
  function AnyChar(s: string, f: char -> bool): (b: bool)
    ensures b <==> exists i :: 0 <= i < |s| && f(s[i])
  {
    if s == [] then false
    else f(s[0]) || (assert forall i :: 0 < i < |s| ==> s[i] == s[1..][i - 1]; AnyChar(s[1..], f))
  }

  /** `user_exists(username)`. */
  predicate UserExists(users: set<string>, username: string) {
    username in users
  }

  /** `create_user`: the UNIQUE username column refuses a duplicate, which comes
      back as `False` and leaves the table as it was. */
  function CreateUser(users: set<string>, username: string): (r: (bool, set<string>))
    ensures r.0 <==> username !in users
    ensures r.1 == users + {username}
  {
    if username in users then (false, users) else (true, users + {username})
  }

  /** The guards of `register`, in order; `None` when every one passes. */
  function RegisterCheck(users: set<string>, username: string, password: string, confirm: string): Option<Refusal> {
    if !IsAlnum(username) || !IsAlnum(password) then Some(SpecialCharacters)
    else if username == "" || password == "" || confirm == "" then Some(FieldsRequired)
    else if |username| < UsernameMin then Some(UsernameTooShort)
    else if |password| < PasswordMin then Some(PasswordTooShort)
    else if |username| > UsernameMax then Some(UsernameTooLong)
    else if |password| > PasswordMax then Some(PasswordTooLong)
    else if !(AnyChar(password, IsAlpha) && AnyChar(password, IsDigit)) then Some(NeedsLetterAndDigit)
    else if password != confirm then Some(PasswordsDiffer)
    else if UserExists(users, username) then Some(UsernameTaken)
    else None
  }

  /** What `register` shows: an error, the success box, or the failure box. */
  datatype Outcome = Refused(why: Refusal) | Created | CreateFailed

  /** The outcome of `register` and the user store after it. */
  datatype Registration = Registration(outcome: Outcome, users: set<string>)

  /** `register`: `create_user` is called only when every guard has passed. */
  function RegisterUser(users: set<string>, username: string, password: string, confirm: string): Registration {
    match RegisterCheck(users, username, password, confirm)
    case Some(why) => Registration(Refused(why), users)
    case None =>
      var (ok, users') := CreateUser(users, username);
      Registration(if ok then Created else CreateFailed, users')
  }

  /** Every rule `register` enforces, written out. */
  ghost predicate Acceptable(users: set<string>, username: string, password: string, confirm: string) {
    && IsAlnum(username) && IsAlnum(password)
    && UsernameMin <= |username| <= UsernameMax
    && PasswordMin <= |password| <= PasswordMax
    && (exists i :: 0 <= i < |password| && IsAlpha(password[i]))
    && (exists i :: 0 <= i < |password| && IsDigit(password[i]))
    && confirm == password
    && username !in users
  }

  /** The guards pass exactly when every rule holds. */
  lemma CheckPassesIff(users: set<string>, username: string, password: string, confirm: string)
    ensures RegisterCheck(users, username, password, confirm) == None <==> Acceptable(users, username, password, confirm)
    ensures Acceptable(users, username, password, confirm) <==>
      forall w :: Rule(w, users, username, password, confirm)
  {
    if Acceptable(users, username, password, confirm) {
      forall w ensures Rule(w, users, username, password, confirm) {
      }
    }
    if forall w :: Rule(w, users, username, password, confirm) {
      assert Rule(SpecialCharacters, users, username, password, confirm);
      assert Rule(UsernameTooShort, users, username, password, confirm);
      assert Rule(PasswordTooShort, users, username, password, confirm);
      assert Rule(UsernameTooLong, users, username, password, confirm);
      assert Rule(PasswordTooLong, users, username, password, confirm);
      assert Rule(NeedsLetterAndDigit, users, username, password, confirm);
      assert Rule(PasswordsDiffer, users, username, password, confirm);
      assert Rule(UsernameTaken, users, username, password, confirm);
    }
  }

  /** A refusal names the first rule, in the order of the guards, that the input
      breaks. */
  lemma RefusalIsFirstBrokenRule(users: set<string>, username: string, password: string, confirm: string, why: Refusal)
    requires RegisterCheck(users, username, password, confirm) == Some(why)
    ensures !Rule(why, users, username, password, confirm)
    ensures forall w :: Order(w) < Order(why) ==> Rule(w, users, username, password, confirm)
  {
    forall w | Order(w) < Order(why) ensures Rule(w, users, username, password, confirm) {
    }
  }

  /** An empty username or password is reported as a special-character error, so
      "All fields are required" appears only for an empty confirmation. */
  lemma RequiredOnlyForEmptyConfirm(users: set<string>, username: string, password: string, confirm: string)
    ensures (username == "" || password == "") ==>
      RegisterCheck(users, username, password, confirm) == Some(SpecialCharacters)
    ensures RegisterCheck(users, username, password, confirm) == Some(FieldsRequired) <==>
      IsAlnum(username) && IsAlnum(password) && confirm == ""
  {
  }

  /** A new account is made exactly when every rule holds; it adds the username to
      the store, and "Failed to create account" cannot follow the guards. */
  lemma RegisterOutcome(users: set<string>, username: string, password: string, confirm: string)
    ensures var r := RegisterUser(users, username, password, confirm);
      && (r.outcome == Created <==> Acceptable(users, username, password, confirm))
      && r.outcome != CreateFailed
      && (r.outcome == Created ==> username !in users && r.users == users + {username})
      && (r.outcome != Created ==> r.users == users)
  {
    CheckPassesIff(users, username, password, confirm);
  }

  // ----- keystroke limiters -----

  const NavigationKeys: seq<string> := ["BackSpace", "Delete", "Left", "Right", "Home", "End", "Tab"]

  /** Whether a limiter blocks the key ("break"): a key that is not a navigation
      key, once the field holds `limit` characters. */
  function Blocks(limit: nat, current: string, keysym: string): bool {
    keysym !in NavigationKeys && |current| >= limit
  }

  /** `limit_username_input`. */
  function LimitUsernameInput(current: string, keysym: string): bool {
    Blocks(UsernameMax, current, keysym)
  }

  /** `limit_password_input`. */
  function LimitPasswordInput(current: string, keysym: string): bool {
    Blocks(PasswordMax, current, keysym)
  }

  /** `limit_confirm_input`. */
  function LimitConfirmInput(current: string, keysym: string): bool {
    Blocks(PasswordMax, current, keysym)
  }

  /** A field with limiter `limit` after the keys: each printable key that is not
      blocked adds its character and BackSpace removes the last one. */
  function TypeField(limit: nat, text: string, keys: seq<EventForm.Key>): string
    decreases |keys|
  {
    if keys == [] then text
    else TypeField(limit, TypeKey(limit, text, keys[0]), keys[1..])
  }

  /** One key press in a field with limiter `limit`. */
  function TypeKey(limit: nat, text: string, k: EventForm.Key): (t: string)
    ensures |t| <= |text| || (|t| == |text| + 1 && |text| < limit)
  {
    if Blocks(limit, text, k.keysym) then text
    else if k.keysym == "BackSpace" then (if text == "" then text else text[..|text| - 1])
    else if k.keysym in NavigationKeys then text
    else if k.ch.Some? then text + [k.ch.value]
    else text
  }

  /** The limiters block exactly the non-navigation keys at 20 characters for the
      username and at 30 for the password and its confirmation. */
  lemma LimitersBlockAtLimit(current: string, keysym: string)
    ensures LimitUsernameInput(current, keysym) <==> keysym !in NavigationKeys && |current| >= 20
    ensures LimitPasswordInput(current, keysym) <==> keysym !in NavigationKeys && |current| >= 30
    ensures LimitConfirmInput(current, keysym) <==> LimitPasswordInput(current, keysym)
    ensures LimitUsernameInput(current, "BackSpace") == false
  {
  }

  /** Typed one key at a time from within the limit, a field stays within it. */
  lemma {:induction false} TypeFieldBounded(limit: nat, text: string, keys: seq<EventForm.Key>)
    requires |text| <= limit
    ensures |TypeField(limit, text, keys)| <= limit
    decreases |keys|
  {
    if keys != [] {
      TypeFieldBounded(limit, TypeKey(limit, text, keys[0]), keys[1..]);
    }
  }

  /** With the fields typed key by key, the too-long guards never fire. */
  lemma TypedFieldsNeverTooLong(users: set<string>, userKeys: seq<EventForm.Key>, passwordKeys: seq<EventForm.Key>, confirm: string)
    ensures var r := RegisterCheck(users, TypeField(UsernameMax, "", userKeys), TypeField(PasswordMax, "", passwordKeys), confirm);
      r != Some(UsernameTooLong) && r != Some(PasswordTooLong)
  {
    TypeFieldBounded(UsernameMax, "", userKeys);
    TypeFieldBounded(PasswordMax, "", passwordKeys);
  }
}
