/** Accounts on values: the account-list invariant, registerUser's checks, the login
    lookup, requestPasswordReset and the field-by-field effect of updateUserProfile. */
module Accounts {
  import opened Seqs
  import opened Text
  import opened Records

  /** What registration demands of an account and profile updates keep. */
  predicate WellFormed(u: User)
  {
    !IsBlank(u.username) && Utf16Length(u.password) >= 3 && IsValidEmail(u.email)
  }

  /** Every account well-formed; usernames and emails pairwise distinct ignoring case. */
  ghost predicate UsersValid(us: seq<User>)
  {
    && (forall i :: 0 <= i < |us| ==> WellFormed(us[i]))
    && (forall i, j :: 0 <= i < |us| && 0 <= j < |us| && i != j ==>
          !EqualsIgnoreCase(us[i].username, us[j].username) && !EqualsIgnoreCase(us[i].email, us[j].email))
  }

  /** Some account other than the one at `except` has this username, ignoring case;
      pass |us| or more as `except` to consider every account. */
  predicate UsernameTaken(us: seq<User>, name: string, except: int)
  {
    exists j :: 0 <= j < |us| && j != except && EqualsIgnoreCase(us[j].username, name)
  }

  /** Some account other than the one at `except` has this email, ignoring case. */
  predicate EmailTaken(us: seq<User>, email: string, except: int)
  {
    exists j :: 0 <= j < |us| && j != except && EqualsIgnoreCase(us[j].email, email)
  }

  /** registerUser's checks. */
  predicate RegisterAccepts(us: seq<User>, username: string, password: string, email: string)
  {
    && !IsBlank(username)
    && Utf16Length(password) >= 3
    && IsValidEmail(email)
    && !UsernameTaken(us, username, |us|)
    && !EmailTaken(us, email, |us|)
  }

  /** The account registerUser creates: the phone starts empty. */
  function NewAccount(username: string, password: string, email: string): User
  {
    User(username, password, email, "")
  }

  /** Registering an accepted account keeps the account invariant. */
  lemma RegisterKeepsValid(us: seq<User>, username: string, password: string, email: string)
    requires UsersValid(us) && RegisterAccepts(us, username, password, email)
    ensures UsersValid(us + [NewAccount(username, password, email)])
  {
    var r := us + [NewAccount(username, password, email)];
    forall i, j | 0 <= i < |r| && 0 <= j < |r| && i != j
      ensures !EqualsIgnoreCase(r[i].username, r[j].username) && !EqualsIgnoreCase(r[i].email, r[j].email)
    {
      if i == |us| {
        assert !EqualsIgnoreCase(us[j].username, username) && !EqualsIgnoreCase(us[j].email, email);
      } else if j == |us| {
        assert !EqualsIgnoreCase(us[i].username, username) && !EqualsIgnoreCase(us[i].email, email);
      }
    }
  }

  /** Once an account is registered, registering a username or an email that differs
      from it only in letter case fails. */
  lemma RegisterRejectsCaseVariant(us: seq<User>, username: string, password: string, email: string,
                                   username': string, password': string, email': string)
    requires RegisterAccepts(us, username, password, email)
    requires EqualsIgnoreCase(username, username') || EqualsIgnoreCase(email, email')
    ensures !RegisterAccepts(us + [NewAccount(username, password, email)], username', password', email')
  {
    var r := us + [NewAccount(username, password, email)];
    assert r[|us|] == NewAccount(username, password, email);
  }

  /** The filter of login: the username matches ignoring case and the password exactly. */
  function Credentials(username: string, password: string): User -> bool
  {
    (u: User) => EqualsIgnoreCase(u.username, username) && u.password == password
  }

  /** The filter of getUserByUsername. */
  function NamedUser(username: string): User -> bool
  {
    (u: User) => EqualsIgnoreCase(u.username, username)
  }

  /** After registering, logging in with the same password and the username in any
      letter case selects the new account and no other. */
  lemma LoginAfterRegister(us: seq<User>, username: string, password: string, email: string, username': string)
    requires RegisterAccepts(us, username, password, email)
    requires EqualsIgnoreCase(username, username')
    ensures FirstIndex(us + [NewAccount(username, password, email)], Credentials(username', password)) == Some(|us|)
  {
    var r := us + [NewAccount(username, password, email)];
    forall j | 0 <= j < |us| ensures !Credentials(username', password)(r[j]) {
      assert r[j] == us[j];
    }
    assert Credentials(username', password)(r[|us|]);
  }

  /** requestPasswordReset: the email is well-formed and some account has it,
      ignoring case. No state changes. */
  predicate PasswordResetKnown(us: seq<User>, email: string)
  {
    IsValidEmail(email) && EmailTaken(us, email, |us|)
  }

  /** A reset request for a registered email, in any letter case, is recognised. */
  lemma ResetKnowsRegistered(us: seq<User>, username: string, password: string, email: string, email': string)
    requires RegisterAccepts(us, username, password, email)
    requires EqualsIgnoreCase(email, email')
    ensures PasswordResetKnown(us + [NewAccount(username, password, email)], email')
  {
    var r := us + [NewAccount(username, password, email)];
    assert EqualsIgnoreCase(r[|us|].email, email');
    var k :| 0 < k < |email| - 1 && EmailSplitsAt(email, k);
    CaseVariantOfValidEmail(email, email', k);
    PatternSplitIsFirstAt(email', k);
  }

  /** A string equal ignoring case to a valid email is itself valid: folding changes
      only letters, which the pattern accepts in either case. */
  lemma CaseVariantOfValidEmail(e: string, e': string, k: int)
    requires EmailSplitsAt(e, k) && EqualsIgnoreCase(e, e')
    ensures EmailSplitsAt(e', k)
  {
    assert |e'| == |e|;
    forall j | 0 <= j < |e| ensures Lower(e'[j]) == Lower(e[j]) {
      assert LowerStr(e')[j] == LowerStr(e)[j];
    }
    assert Lower(e'[k]) == '@';
  }

  /** Write the username when one is given and not blank. */
  function WithUsername(us: seq<User>, i: nat, username: Option<string>): seq<User>
    requires i < |us|
  {
    if username.Some? && !IsBlank(username.value) then us[i := us[i].(username := username.value)] else us
  }

  /** Write the phone when one is given, even an empty one. */
  function WithPhone(us: seq<User>, i: nat, phone: Option<string>): seq<User>
    requires i < |us|
  {
    if phone.Some? then us[i := us[i].(phone := phone.value)] else us
  }

  /** Write the email when one is given and valid; an invalid one is skipped. */
  function WithEmail(us: seq<User>, i: nat, email: Option<string>): seq<User>
    requires i < |us|
  {
    if email.Some? && IsValidEmail(email.value) then us[i := us[i].(email := email.value)] else us
  }

  /** A new password is requested when one is given and not empty. */
  predicate ChangesPassword(newPassword: Option<string>)
  {
    newPassword.Some? && newPassword.value != []
  }

  /** Write the password when a new one is requested. */
  function WithPassword(us: seq<User>, i: nat, newPassword: Option<string>): seq<User>
    requires i < |us|
  {
    if ChangesPassword(newPassword) then us[i := us[i].(password := newPassword.value)] else us
  }

  /** updateUserProfile on values, for the current account at index `cur`: the result
      flag and the new account list. The password stage is checked first; then the
      username is written, then the phone, before the email collision check, so a
      refusal at that check leaves the earlier fields written. */
  function ProfileUpdate(us: seq<User>, cur: Option<nat>, username: Option<string>, phone: Option<string>,
                         email: Option<string>, oldPassword: Option<string>, newPassword: Option<string>)
    : (r: (bool, seq<User>))
    requires cur.Some? ==> cur.value < |us|
    ensures |r.1| == |us|
    ensures forall j :: 0 <= j < |us| && cur != Some(j) ==> r.1[j] == us[j]
    ensures cur.None? ==> r == (false, us)
    ensures (cur.Some? && ChangesPassword(newPassword)
             && (oldPassword != Some(us[cur.value].password) || Utf16Length(newPassword.value) < 3)) ==> r == (false, us)
  {
    if cur.None? then (false, us)
    else
      var i := cur.value;
      if ChangesPassword(newPassword) && (oldPassword.None? || us[i].password != oldPassword.value) then (false, us)
      else if ChangesPassword(newPassword) && Utf16Length(newPassword.value) < 3 then (false, us)
      else if username.Some? && !IsBlank(username.value) && UsernameTaken(us, username.value, i) then (false, us)
      else
        var us2 := WithPhone(WithUsername(us, i, username), i, phone);
        if email.Some? && IsValidEmail(email.value) && EmailTaken(us2, email.value, i) then (false, us2)
        else (true, WithPassword(WithEmail(us2, i, email), i, newPassword))
  }

  /** On success the signed-in account holds, field by field, the value given for it when
      that value is written, and its old value otherwise: a blank username, a missing
      phone, an invalid email and a missing or empty new password all leave the field as
      it was. An invalid email is never written, whatever the outcome. */
  lemma ProfileUpdateApplies(us: seq<User>, i: nat, username: Option<string>, phone: Option<string>,
                             email: Option<string>, oldPassword: Option<string>, newPassword: Option<string>)
    requires i < |us|
    ensures var r := ProfileUpdate(us, Some(i), username, phone, email, oldPassword, newPassword);
            r.0 ==> r.1[i] == User(
              if username.Some? && !IsBlank(username.value) then username.value else us[i].username,
              if ChangesPassword(newPassword) then newPassword.value else us[i].password,
              if email.Some? && IsValidEmail(email.value) then email.value else us[i].email,
              if phone.Some? then phone.value else us[i].phone)
    ensures var r := ProfileUpdate(us, Some(i), username, phone, email, oldPassword, newPassword);
            email.Some? && !IsValidEmail(email.value) ==> r.1[i].email == us[i].email
  {
  }

  /** The outcome of updateUserProfile for the account at `i`: it succeeds exactly when
      the password stage, the username collision check and the email collision check all
      pass. A refusal at the password stage or at the username check changes nothing; a
      refusal at the email check keeps the username and phone already written. */
  lemma ProfileUpdateRefusals(us: seq<User>, i: nat, username: Option<string>, phone: Option<string>,
                              email: Option<string>, oldPassword: Option<string>, newPassword: Option<string>)
    requires i < |us|
    ensures var r := ProfileUpdate(us, Some(i), username, phone, email, oldPassword, newPassword);
            var passwordRefused := ChangesPassword(newPassword)
                                   && (oldPassword != Some(us[i].password) || Utf16Length(newPassword.value) < 3);
            var nameClash := username.Some? && !IsBlank(username.value) && UsernameTaken(us, username.value, i);
            var emailClash := email.Some? && IsValidEmail(email.value) && EmailTaken(us, email.value, i);
            && (r.0 <==> !passwordRefused && !nameClash && !emailClash)
            && (passwordRefused || nameClash ==> r == (false, us))
            && (!passwordRefused && !nameClash && emailClash ==>
                  r == (false, us[i := us[i].(username := if username.Some? && !IsBlank(username.value) then username.value else us[i].username,
                                              phone := if phone.Some? then phone.value else us[i].phone)]))
  {
    var r := ProfileUpdate(us, Some(i), username, phone, email, oldPassword, newPassword);
    var passwordRefused := ChangesPassword(newPassword)
                           && (oldPassword != Some(us[i].password) || Utf16Length(newPassword.value) < 3);
    var nameClash := username.Some? && !IsBlank(username.value) && UsernameTaken(us, username.value, i);
    if passwordRefused || nameClash {
      assert r == (false, us);
    } else {
      var name' := if username.Some? && !IsBlank(username.value) then username.value else us[i].username;
      var phone' := if phone.Some? then phone.value else us[i].phone;
      var us2 := WithPhone(WithUsername(us, i, username), i, phone);
      assert us2 == us[i := us[i].(username := name', phone := phone')];
      if email.Some? {
        EmailTakenIgnoresOwn(us, i, us[i].(username := name', phone := phone'), email.value);
      }
    }
  }

  /** Whether another account has an email does not depend on the account at `i`. */
  lemma EmailTakenIgnoresOwn(us: seq<User>, i: nat, u: User, email: string)
    requires i < |us|
    ensures EmailTaken(us[i := u], email, i) <==> EmailTaken(us, email, i)
  {
    var us2 := us[i := u];
    if EmailTaken(us2, email, i) {
      var j :| 0 <= j < |us2| && j != i && EqualsIgnoreCase(us2[j].email, email);
      assert us[j] == us2[j];
    }
    if EmailTaken(us, email, i) {
      var j :| 0 <= j < |us| && j != i && EqualsIgnoreCase(us[j].email, email);
      assert us2[j] == us[j];
    }
  }

  /** Rewriting one account keeps the invariant when the new account is well-formed and
      collides with no other account. */
  lemma ReplaceKeepsValid(us: seq<User>, i: nat, u: User)
    requires UsersValid(us) && i < |us| && WellFormed(u)
    requires !UsernameTaken(us, u.username, i) && !EmailTaken(us, u.email, i)
    ensures UsersValid(us[i := u])
  {
    var r := us[i := u];
    forall a, b | 0 <= a < |r| && 0 <= b < |r| && a != b
      ensures !EqualsIgnoreCase(r[a].username, r[b].username) && !EqualsIgnoreCase(r[a].email, r[b].email)
    {
      if a == i {
        assert !EqualsIgnoreCase(us[b].username, u.username) && !EqualsIgnoreCase(us[b].email, u.email);
      } else if b == i {
        assert !EqualsIgnoreCase(us[a].username, u.username) && !EqualsIgnoreCase(us[a].email, u.email);
      }
    }
  }

  /** In a valid list, an account does not collide with the others on its own values. */
  lemma OwnValuesFree(us: seq<User>, i: nat)
    requires UsersValid(us) && i < |us|
    ensures !UsernameTaken(us, us[i].username, i) && !EmailTaken(us, us[i].email, i)
  {
  }

  lemma WithUsernameKeepsValid(us: seq<User>, i: nat, username: Option<string>)
    requires UsersValid(us) && i < |us|
    requires username.Some? && !IsBlank(username.value) ==> !UsernameTaken(us, username.value, i)
    ensures UsersValid(WithUsername(us, i, username))
  {
    if username.Some? && !IsBlank(username.value) {
      OwnValuesFree(us, i);
      ReplaceKeepsValid(us, i, us[i].(username := username.value));
    }
  }

  lemma WithPhoneKeepsValid(us: seq<User>, i: nat, phone: Option<string>)
    requires UsersValid(us) && i < |us|
    ensures UsersValid(WithPhone(us, i, phone))
  {
    if phone.Some? {
      OwnValuesFree(us, i);
      ReplaceKeepsValid(us, i, us[i].(phone := phone.value));
    }
  }

  lemma WithEmailKeepsValid(us: seq<User>, i: nat, email: Option<string>)
    requires UsersValid(us) && i < |us|
    requires email.Some? && IsValidEmail(email.value) ==> !EmailTaken(us, email.value, i)
    ensures UsersValid(WithEmail(us, i, email))
  {
    if email.Some? && IsValidEmail(email.value) {
      OwnValuesFree(us, i);
      ReplaceKeepsValid(us, i, us[i].(email := email.value));
    }
  }

  lemma WithPasswordKeepsValid(us: seq<User>, i: nat, newPassword: Option<string>)
    requires UsersValid(us) && i < |us|
    requires ChangesPassword(newPassword) ==> Utf16Length(newPassword.value) >= 3
    ensures UsersValid(WithPassword(us, i, newPassword))
  {
    if ChangesPassword(newPassword) {
      OwnValuesFree(us, i);
      ReplaceKeepsValid(us, i, us[i].(password := newPassword.value));
    }
  }

  /** Every outcome of updateUserProfile, a refusal part-way included, keeps usernames
      and emails distinct and every account well-formed. */
  lemma ProfileUpdateKeepsValid(us: seq<User>, cur: Option<nat>, username: Option<string>, phone: Option<string>,
                                email: Option<string>, oldPassword: Option<string>, newPassword: Option<string>)
    requires UsersValid(us) && (cur.Some? ==> cur.value < |us|)
    ensures UsersValid(ProfileUpdate(us, cur, username, phone, email, oldPassword, newPassword).1)
  {
    if cur.Some? {
      var i := cur.value;
      if !(ChangesPassword(newPassword) && (oldPassword.None? || us[i].password != oldPassword.value))
         && !(ChangesPassword(newPassword) && Utf16Length(newPassword.value) < 3)
         && !(username.Some? && !IsBlank(username.value) && UsernameTaken(us, username.value, i))
      {
        var us1 := WithUsername(us, i, username);
        WithUsernameKeepsValid(us, i, username);
        var us2 := WithPhone(us1, i, phone);
        WithPhoneKeepsValid(us1, i, phone);
        if !(email.Some? && IsValidEmail(email.value) && EmailTaken(us2, email.value, i)) {
          var us3 := WithEmail(us2, i, email);
          WithEmailKeepsValid(us2, i, email);
          WithPasswordKeepsValid(us3, i, newPassword);
        }
      }
    }
  }

  /** A refused update can still have changed the account: the new username is written
      before the email collision check refuses. */
  lemma ProfileUpdatePartlyApplied()
    ensures var ann := User("ann", "secret", "ann@shop.io", "");
            var bob := User("bob", "secret", "bob@shop.io", "");
            ProfileUpdate([ann, bob], Some(0), Some("carl"), None, Some("bob@shop.io"), None, None)
              == (false, [ann.(username := "carl"), bob])
  {
    var ann := User("ann", "secret", "ann@shop.io", "");
    var bob := User("bob", "secret", "bob@shop.io", "");
    var us := [ann, bob];
    assert LowerStr("bob") != LowerStr("carl") by {
      assert |LowerStr("bob")| == 3 && |LowerStr("carl")| == 4;
    }
    assert !UsernameTaken(us, "carl", 0);
    assert !IsBlank("carl") by { assert "carl"[0] > ' '; }
    assert EmailSplitsAt("bob@shop.io", 3);
    var us2 := WithPhone(WithUsername(us, 0, Some("carl")), 0, None);
    assert us2 == [ann.(username := "carl"), bob];
    assert EqualsIgnoreCase(us2[1].email, "bob@shop.io");
  }
}
