/**
 * The account forms: the field rules shared by the registration and the
 * account-edit forms, the registration username rule, the account-edit
 * save, and the mails sent by the password-reset form.
 *
 * Each `clean_*` method sees the values that already passed their field's
 * own validation (`cleaned_data`), in the form's field order.
 */
module Accounts {
  import opened Wrappers
  import opened Text
  import opened Matching
  import opened Profiles
  import opened Listeners

  /** The validation error a `clean_*` method raises. */
  datatype FieldError =
    | BadUsernameCharacters
    | PasswordMismatch
    | EmailRequired
    | EmailNotUnique
    | FirstNameRequired
    | LastNameRequired

  type Cleaned = Result<string, FieldError>

  // ---- The username rule -------------------------------------------------

  /** `USERNAME_RE.match(s)` for `^[a-z0-9\-]+$`: a greedy run of at least one character, then `$`. */
  predicate UsernameMatches(s: string) {
    var k := Span(s, 0, UsernameChars);
    k >= 1 && EndAt(s, k)
  }

  /**
   * The accepted usernames are exactly the non-empty strings over a-z, 0-9
   * and '-', and those followed by one final newline (Python's `$`).
   */
  lemma UsernameGrammar(s: string)
    ensures UsernameMatches(s) <==>
              (|s| >= 1 && AllIn(s, UsernameChars))
              || (|s| >= 2 && s[|s| - 1] == '\n' && AllIn(s[..|s| - 1], UsernameChars))
  {
    var k := Span(s, 0, UsernameChars);
    if UsernameMatches(s) && k < |s| {
      assert s[..|s| - 1] == s[..k];
    }
    if |s| >= 1 && AllIn(s, UsernameChars) {
      SpanIs(s, 0, UsernameChars, |s|);
    }
    if |s| >= 2 && s[|s| - 1] == '\n' && AllIn(s[..|s| - 1], UsernameChars) {
      SpanIs(s, 0, UsernameChars, |s| - 1);
    }
  }

  /** The examples that the registration tests reject. */
  lemma RejectedUsernameExamples()
    ensures !UsernameMatches("")
    ensures !UsernameMatches("my_username")
    ensures !UsernameMatches("my@username.com")
    ensures !UsernameMatches("!@#$%^username")
  {
    SpanIs("my_username", 0, UsernameChars, 2);
    SpanIs("my@username.com", 0, UsernameChars, 2);
    SpanIs("!@#$%^username", 0, UsernameChars, 0);
  }

  /** The examples that the registration tests accept. */
  lemma AcceptedUsernameExamples()
    ensures UsernameMatches("fakeuser") && UsernameMatches("fake-user") && UsernameMatches("fakeuser01")
  {
    SpanIs("fakeuser", 0, UsernameChars, 8);
    SpanIs("fake-user", 0, UsernameChars, 9);
    SpanIs("fakeuser01", 0, UsernameChars, 10);
  }

  /** Lower-casing leaves every accepted username as it is: none holds an upper-case letter. */
  lemma LowerKeepsUsername(s: string)
    requires UsernameMatches(s)
    ensures LowerAscii(s) == s
  {
    UsernameGrammar(s);
    forall i | 0 <= i < |s| ensures LowerChar(s[i]) == s[i] {
      if i < |s| - 1 || AllIn(s, UsernameChars) {
        assert InClass(s[i], UsernameChars);
      }
    }
  }

  /** `RegisterForm.clean_username`: the username rule, then `username.lower()`. */
  function CleanUsername(username: string): (r: Cleaned)
    ensures r.Ok? <==> UsernameMatches(username)
    ensures r.Ok? ==> r.value == username
    ensures r.Err? ==> r.error == BadUsernameCharacters
  {
    if !UsernameMatches(username) then Err(BadUsernameCharacters)
    else LowerKeepsUsername(username); Ok(LowerAscii(username))
  }

  // ---- The rules of MixinClean -------------------------------------------

  /** `clean_password2`: a missing `password1` counts as the empty string. */
  function CleanPassword2(password1: Option<string>, password2: string): (r: Cleaned)
    ensures r.Ok? <==> password1.GetOr("") == password2
    ensures r.Ok? ==> r.value == password2
    ensures r.Err? ==> r.error == PasswordMismatch
  {
    var p1 := password1.GetOr("");
    if p1 != password2 then Err(PasswordMismatch) else Ok(password2)
  }

  /** `clean_first_name`: the name is required. */
  function CleanFirstName(firstName: string): (r: Cleaned)
    ensures r.Ok? <==> firstName != ""
    ensures r.Ok? ==> r.value == firstName
    ensures r.Err? ==> r.error == FirstNameRequired
  {
    if firstName == "" then Err(FirstNameRequired) else Ok(firstName)
  }

  /** `clean_last_name`: the last names are required. */
  function CleanLastName(lastName: string): (r: Cleaned)
    ensures r.Ok? <==> lastName != ""
    ensures r.Ok? ==> r.value == lastName
    ensures r.Err? ==> r.error == LastNameRequired
  {
    if lastName == "" then Err(LastNameRequired) else Ok(lastName)
  }

  /**
   * `User.objects.filter(email=email).exclude(username=username)`: the
   * accounts with this email, except the one named `username`; excluding a
   * null username excludes nobody.
   */
  function EmailConflicts(users: seq<User>, email: string, username: Option<string>): (r: seq<User>)
    ensures forall u :: u in r <==> u in users && u.email == email && username != Some(u.username)
    ensures |r| <= |users|
  {
    if users == [] then []
    else
      var rest := EmailConflicts(users[1..], email, username);
      if users[0].email == email && username != Some(users[0].username) then [users[0]] + rest else rest
  }

  /** `MixinClean.clean_email`: `username` is the already cleaned username, absent when it did not validate. */
  function CleanEmail(users: seq<User>, email: string, username: Option<string>): (r: Cleaned)
    ensures r == Err(EmailRequired) <==> email == ""
    ensures r == Err(EmailNotUnique) <==>
              email != "" && exists u :: u in users && u.email == email && username != Some(u.username)
    ensures r.Ok? <==> email != "" && forall u :: u in users && u.email == email ==> username == Some(u.username)
    ensures r.Ok? ==> r.value == email
  {
    var conflicts := EmailConflicts(users, email, username);
    if email == "" then Err(EmailRequired)
    else if |conflicts| > 0 then assert conflicts[0] in conflicts; Err(EmailNotUnique)
    else Ok(email)
  }

  // ---- Registration ------------------------------------------------------

  /** The registration fields as they reach the `clean_*` methods. */
  datatype Registration = Registration(
    firstName: string,
    lastName: string,
    username: string,
    password1: string,
    password2: string,
    email: string)

  /** `cleaned_data.get('username')` when `clean_email` runs: set only when `clean_username` accepted it. */
  function CleanedUsername(d: Registration): Option<string> {
    match CleanUsername(d.username)
    case Ok(v) => Some(v)
    case Err(_) => None
  }

  /** The registration form passes every rule of this file, in its field order. */
  predicate RegistrationValid(users: seq<User>, d: Registration) {
    && CleanFirstName(d.firstName).Ok?
    && CleanLastName(d.lastName).Ok?
    && CleanUsername(d.username).Ok?
    && CleanPassword2(Some(d.password1), d.password2).Ok?
    && CleanEmail(users, d.email, CleanedUsername(d)).Ok?
  }

  /**
   * What a valid registration is, field by field: both names given, a
   * username over a-z, 0-9 and '-', matching passwords, and an email that
   * no account uses unless it is the account of that same username.
   */
  lemma RegistrationValidMeans(users: seq<User>, d: Registration)
    ensures RegistrationValid(users, d) <==>
              && d.firstName != "" && d.lastName != ""
              && ((|d.username| >= 1 && AllIn(d.username, UsernameChars))
                  || (|d.username| >= 2 && d.username[|d.username| - 1] == '\n'
                      && AllIn(d.username[..|d.username| - 1], UsernameChars)))
              && d.password1 == d.password2
              && d.email != ""
              && (forall u :: u in users && u.email == d.email ==> u.username == d.username)
  {
    UsernameGrammar(d.username);
  }

  /** Once the username is rejected, any account with the same email blocks the registration. */
  lemma RejectedUsernameExcludesNobody(users: seq<User>, d: Registration, u: User)
    requires !UsernameMatches(d.username)
    requires u in users && d.email != "" && u.email == d.email
    ensures CleanEmail(users, d.email, CleanedUsername(d)) == Err(EmailNotUnique)
  {
  }

  // ---- The account-edit form ---------------------------------------------

  /** `UserForm.clean_email`: the edited account itself is excluded by its username. */
  function CleanEmailOf(users: seq<User>, instance: User, email: string): (r: Cleaned)
    ensures r.Ok? <==> email != "" && forall u :: u in users && u.email == email ==> u.username == instance.username
    ensures r.Ok? ==> r.value == email
  {
    var conflicts := EmailConflicts(users, email, Some(instance.username));
    if email == "" then Err(EmailRequired)
    else if |conflicts| > 0 then assert conflicts[0] in conflicts; Err(EmailNotUnique)
    else Ok(email)
  }

  /** The account-edit rule is the shared rule with the instance's own username as the exclusion. */
  lemma CleanEmailOfIsShared(users: seq<User>, instance: User, email: string)
    ensures CleanEmailOf(users, instance, email) == CleanEmail(users, email, Some(instance.username))
  {
  }

  /** Emails are unique among the stored accounts. */
  predicate EmailsUnique(users: seq<User>) {
    forall i, j :: 0 <= i < |users| && 0 <= j < |users| && users[i].email == users[j].email ==> i == j
  }

  /** Under unique emails, an account that keeps its own non-empty email passes the edit form's rule. */
  lemma KeepingOwnEmailAccepted(users: seq<User>, instance: User)
    requires EmailsUnique(users)
    requires instance in users && instance.email != ""
    ensures CleanEmailOf(users, instance, instance.email) == Ok(instance.email)
  {
    forall u | u in users && u.email == instance.email ensures u.username == instance.username {
      var i :| 0 <= i < |users| && users[i] == u;
      var j :| 0 <= j < |users| && users[j] == instance;
    }
  }

  /** The account-edit fields as they reach `clean_*` and `save`. */
  datatype AccountEdit = AccountEdit(
    firstName: string,
    lastName: string,
    password1: string,
    password2: string,
    email: string)

  /** The account-edit form passes its rules, in its field order. */
  predicate AccountEditValid(users: seq<User>, instance: User, d: AccountEdit) {
    && CleanFirstName(d.firstName).Ok?
    && CleanLastName(d.lastName).Ok?
    && CleanPassword2(Some(d.password1), d.password2).Ok?
    && CleanEmailOf(users, instance, d.email).Ok?
  }

  /**
   * The account-edit form passes exactly when both names are non-empty, the
   * two passwords agree, and the email is non-empty and held by no account
   * with another username.
   */
  lemma AccountEditValidMeans(users: seq<User>, instance: User, d: AccountEdit)
    ensures AccountEditValid(users, instance, d) <==>
              && d.firstName != "" && d.lastName != ""
              && d.password1 == d.password2
              && d.email != ""
              && (forall u :: u in users && u.email == d.email ==> u.username == instance.username)
  {
  }

  /**
   * `UserForm.save` on the account: the three model fields are copied from
   * the form, and the password is set only when `password1` is non-empty.
   */
  function EditedAccount(u: User, d: AccountEdit): (r: User)
    ensures r.id == u.id && r.username == u.username
    ensures r.firstName == d.firstName && r.lastName == d.lastName && r.email == d.email
    ensures r.password == u.password <== d.password1 == ""
    ensures d.password1 != "" ==> forall raw :: ChecksPassword(r, raw) <==> raw == d.password1
  {
    var v := u.(firstName := d.firstName, lastName := d.lastName, email := d.email);
    if d.password1 != "" then v.(password := Hashed(d.password1)) else v
  }

  /** Submitting both password fields empty validates them and keeps the old password working. */
  lemma EmptyPasswordsKeepPassword(u: User, d: AccountEdit, raw: string)
    requires d.password1 == "" && d.password2 == ""
    ensures CleanPassword2(Some(d.password1), d.password2) == Ok("")
    ensures ChecksPassword(EditedAccount(u, d), raw) <==> ChecksPassword(u, raw)
  {
  }

  /**
   * `UserForm.save(commit)` for the account at row `k` of the store: with
   * `commit`, `user.save()` stores it, and the `created`-false save signal
   * leaves the profiles untouched.
   */
  method SaveAccountForm(db: Database, k: nat, d: AccountEdit, commit: bool, now: int) returns (user: User)
    requires k < |db.users|
    modifies db
    ensures user == EditedAccount(old(db.users[k]), d)
    ensures db.users == if commit then old(db.users)[k := user] else old(db.users)
    ensures db.profiles == old(db.profiles)
  {
    user := EditedAccount(db.users[k], d);
    if commit {
      db.UpdateUser(k, user, now);
    }
  }

  // ---- The password-reset form -------------------------------------------

  /** The current site: its name and domain. */
  datatype Site = Site(name: string, domain: string)

  /** One reset-instructions mail: recipient, sender and the template context. */
  datatype ResetMail = ResetMail(
    to: string,
    from: Option<string>,
    subject: string,
    email: string,
    domain: string,
    siteName: string,
    uid: string,
    token: string,
    protocol: string)

  /**
   * The mail for one user. `Base36` stands for `int_to_base36` and `MakeToken`
   * for the token generator, both outside this model.
   */
  function ResetMailFor(user: User, site: Site, useHttps: bool, from: Option<string>,
                        Base36: nat -> string, MakeToken: User -> string): (m: ResetMail)
    ensures m.to == user.email && m.email == user.email && m.from == from
    ensures m.protocol == (if useHttps then "https" else "http")
    ensures m.subject == "Password reset on " + site.name
    ensures m.domain == site.domain && m.siteName == site.name
    ensures m.uid == Base36(user.id) && m.token == MakeToken(user)
  {
    ResetMail(user.email, from, "Password reset on " + site.name, user.email, site.domain, site.name,
              Base36(user.id), MakeToken(user), if useHttps then "https" else "http")
  }

  /** `PasswordResetForm.save`: one mail per cached user, in order; the result is what was sent. */
  method SendResetMails(usersCache: seq<User>, site: Site, useHttps: bool, from: Option<string>,
                        Base36: nat -> string, MakeToken: User -> string) returns (sent: seq<ResetMail>)
    ensures |sent| == |usersCache|
    ensures forall i :: 0 <= i < |sent| ==>
              sent[i] == ResetMailFor(usersCache[i], site, useHttps, from, Base36, MakeToken)
  {
    sent := [];
    for i := 0 to |usersCache|
      invariant |sent| == i
      invariant forall j :: 0 <= j < i ==> sent[j] == ResetMailFor(usersCache[j], site, useHttps, from, Base36, MakeToken)
    {
      var user := usersCache[i];
      var mail := ResetMail(user.email, from, "Password reset on " + site.name, user.email,
                            site.domain, site.name, Base36(user.id), MakeToken(user),
                            if useHttps then "https" else "http");
      sent := sent + [mail];
    }
  }

  /** A reset request for one matching account sends exactly one mail, to that account's email. */
  method ResetForOneUser(user: User, site: Site, useHttps: bool, from: Option<string>,
                         Base36: nat -> string, MakeToken: User -> string) returns (sent: seq<ResetMail>)
    ensures |sent| == 1 && sent[0].to == user.email
    ensures sent[0].protocol == (if useHttps then "https" else "http")
  {
    sent := SendResetMails([user], site, useHttps, from, Base36, MakeToken);
  }
}
