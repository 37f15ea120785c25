/**
  The registration screen of the earlier prototype (`register_view.py` at the top
  of the repository): the same form with fewer guards. It checks the characters,
  the required fields, the two maximum lengths, the confirmation and the existing
  username, in that order, and has no minimum lengths and no letter-and-digit rule.
 */
module LegacyRegister {
  import opened Options
  import opened Text
  import opened Register

  /** The guards this screen has, named by the refusal each one shows. */
  predicate Checked(why: Refusal) {
    why in {SpecialCharacters, FieldsRequired, UsernameTooLong, PasswordTooLong, PasswordsDiffer, UsernameTaken}
  }

  /** The guards of the older `register`, in order; `None` when every one passes. */
  function LegacyCheck(users: set<string>, username: string, password: string, confirm: string): Option<Refusal> {
    if !IsAlnum(username) || !IsAlnum(password) then Some(SpecialCharacters)
    else if username == "" || password == "" || confirm == "" then Some(FieldsRequired)
    else if |username| > UsernameMax then Some(UsernameTooLong)
    else if |password| > PasswordMax then Some(PasswordTooLong)
    else if password != confirm then Some(PasswordsDiffer)
    else if UserExists(users, username) then Some(UsernameTaken)
    else None
  }

  /** The older `register`: `create_user` is the last step. */
  function LegacyRegisterUser(users: set<string>, username: string, password: string, confirm: string): Registration {
    match LegacyCheck(users, username, password, confirm)
    case Some(why) => Registration(Refused(why), users)
    case None =>
      var (ok, users') := CreateUser(users, username);
      Registration(if ok then Created else CreateFailed, users')
  }

  /** Every rule this screen enforces, written out. */
  ghost predicate LegacyAcceptable(users: set<string>, username: string, password: string, confirm: string) {
    && IsAlnum(username) && IsAlnum(password)
    && |username| <= UsernameMax && |password| <= PasswordMax
    && confirm == password
    && username !in users
  }

  /** The guards pass exactly when every checked rule holds. */
  lemma LegacyPassesIff(users: set<string>, username: string, password: string, confirm: string)
    ensures LegacyCheck(users, username, password, confirm) == None <==> LegacyAcceptable(users, username, password, confirm)
    ensures LegacyAcceptable(users, username, password, confirm) <==>
      forall w :: Checked(w) ==> Rule(w, users, username, password, confirm)
  {
    if LegacyAcceptable(users, username, password, confirm) {
      forall w | Checked(w) ensures Rule(w, users, username, password, confirm) {
      }
    }
    if forall w :: Checked(w) ==> Rule(w, users, username, password, confirm) {
      assert Rule(SpecialCharacters, users, username, password, confirm);
      assert Rule(UsernameTooLong, users, username, password, confirm);
      assert Rule(PasswordTooLong, users, username, password, confirm);
      assert Rule(PasswordsDiffer, users, username, password, confirm);
      assert Rule(UsernameTaken, users, username, password, confirm);
    }
  }

  /** A refusal is one of this screen's guards and names the first of them, in
      order, that the input breaks. */
  lemma LegacyRefusalIsFirstBrokenRule(users: set<string>, username: string, password: string, confirm: string, why: Refusal)
    requires LegacyCheck(users, username, password, confirm) == Some(why)
    ensures Checked(why) && !Rule(why, users, username, password, confirm)
    ensures forall w :: Checked(w) && Order(w) < Order(why) ==> Rule(w, users, username, password, confirm)
  {
    forall w | Checked(w) && Order(w) < Order(why) ensures Rule(w, users, username, password, confirm) {
    }
  }

  /** An account is made exactly when every checked rule holds, and it adds the
      username to the store; "Failed to create account" cannot follow the guards. */
  lemma LegacyRegisterOutcome(users: set<string>, username: string, password: string, confirm: string)
    ensures var r := LegacyRegisterUser(users, username, password, confirm);
      && (r.outcome == Created <==> LegacyAcceptable(users, username, password, confirm))
      && r.outcome != CreateFailed
      && (r.outcome == Created ==> username !in users && r.users == users + {username})
      && (r.outcome != Created ==> r.users == users)
  {
    LegacyPassesIff(users, username, password, confirm);
  }

  /** Everything the current screen accepts, this one accepts too; the converse
      fails, for example for a three-character username and password. */
  lemma CurrentRulesAreStricter(users: set<string>, username: string, password: string, confirm: string)
    ensures Acceptable(users, username, password, confirm) ==> LegacyAcceptable(users, username, password, confirm)
    ensures LegacyCheck({}, "abc", "abc", "abc") == None
    ensures RegisterCheck({}, "abc", "abc", "abc") == Some(UsernameTooShort)
  {
    assert IsAlnum("abc") by {
      assert forall i :: 0 <= i < |"abc"| ==> IsAlpha("abc"[i]);
    }
  }

  /** The older `limit_username_input`. */
  function LegacyLimitUsernameInput(current: string, keysym: string): bool {
    Blocks(UsernameMax, current, keysym)
  }

  /** The older `limit_password_input`. */
  function LegacyLimitPasswordInput(current: string, keysym: string): bool {
    Blocks(PasswordMax, current, keysym)
  }

  /** The older `limit_confirm_input`. */
  function LegacyLimitConfirmInput(current: string, keysym: string): bool {
    Blocks(PasswordMax, current, keysym)
  }

  /** The older limiters block exactly the non-navigation keys at 20, 30 and 30
      characters, as the current screen's do. */
  lemma LegacyLimitersBlockAtLimit(current: string, keysym: string)
    ensures LegacyLimitUsernameInput(current, keysym) <==> keysym !in NavigationKeys && |current| >= 20
    ensures LegacyLimitPasswordInput(current, keysym) <==> keysym !in NavigationKeys && |current| >= 30
    ensures LegacyLimitConfirmInput(current, keysym) <==> keysym !in NavigationKeys && |current| >= 30
    ensures LegacyLimitUsernameInput(current, keysym) == LimitUsernameInput(current, keysym)
    ensures LegacyLimitPasswordInput(current, keysym) == LimitPasswordInput(current, keysym)
  {
  }
}
