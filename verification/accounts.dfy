/** Account creation: the sign-up form and the social sign-in lookup.

    Users are a sequence whose positions are their primary keys. Passwords are kept as the text the
    user chose: hashing is abstracted away, and checking a password is comparing it with the stored
    one. */
module Accounts {
  import opened Wrappers
  import opened Checks
  import opened Patterns

  /** A user row. `loginType` is the sign-in provider, `"DEFAULT"` for form accounts; `isStaff` is
      the administrator flag. */
  datatype User = User(
    email: string,
    password: string,
    nickname: string,
    loginType: string,
    categories: set<string>,
    tech: string,
    isMaker: bool,
    introduce: string,
    isActive: bool,
    isStaff: bool)

  /** Some user, active or not, has this email. */
  predicate EmailTaken(users: seq<User>, email: string) {
    exists i :: 0 <= i < |users| && users[i].email == email
  }

  /** Some user, active or not, has this nickname. */
  predicate NicknameTaken(users: seq<User>, nickname: string) {
    exists i :: 0 <= i < |users| && users[i].nickname == nickname
  }

  /** No two users share an email. */
  predicate UniqueEmails(users: seq<User>) {
    forall i, j :: 0 <= i < j < |users| ==> users[i].email != users[j].email
  }

  /** No two users share a nickname. */
  predicate UniqueNicknames(users: seq<User>) {
    forall i, j :: 0 <= i < j < |users| ==> users[i].nickname != users[j].nickname
  }

  // ---------------------------------------------------------------------------------------
  // SignUpAPIView.post

  datatype SignUpForm = SignUpForm(
    email: string,
    password: string,
    passwordCheck: string,
    nickname: string,
    categories: seq<string>,
    tech: string,
    isMaker: bool)

  datatype SignUpError =
    | InvalidEmail        // the email does not match EMAIL_PATTERN
    | EmailExists
    | InvalidPassword     // the password does not match PASSWORD_PATTERN
    | PasswordMismatch    // password and password_check differ
    | NicknameTooLong     // more than 30 characters
    | NicknameEmpty
    | NicknameExists

  /** The sign-up guards in the order the handler runs them, each given by whether it passes. */
  function Guards(emailOk: bool, emailFree: bool, passwordOk: bool, confirmed: bool,
                  shortEnough: bool, nonEmpty: bool, nicknameFree: bool): seq<Check<SignUpError>> {
    [ Check(emailOk, InvalidEmail),
      Check(emailFree, EmailExists),
      Check(passwordOk, InvalidPassword),
      Check(confirmed, PasswordMismatch),
      Check(shortEnough, NicknameTooLong),
      Check(nonEmpty, NicknameEmpty),
      Check(nicknameFree, NicknameExists) ]
  }

  /** The handler's chain of early returns, one `if` per guard. */
  function Rejection(emailOk: bool, emailFree: bool, passwordOk: bool, confirmed: bool,
                     shortEnough: bool, nonEmpty: bool, nicknameFree: bool): Option<SignUpError> {
    if !emailOk then Some(InvalidEmail)
    else if !emailFree then Some(EmailExists)
    else if !passwordOk then Some(InvalidPassword)
    else if !confirmed then Some(PasswordMismatch)
    else if !shortEnough then Some(NicknameTooLong)
    else if !nonEmpty then Some(NicknameEmpty)
    else if !nicknameFree then Some(NicknameExists)
    else None
  }

  /** The chain of early returns reports exactly the first failing guard of the list. */
  lemma RejectionIsFirstFailure(emailOk: bool, emailFree: bool, passwordOk: bool, confirmed: bool,
                                shortEnough: bool, nonEmpty: bool, nicknameFree: bool)
    ensures Rejection(emailOk, emailFree, passwordOk, confirmed, shortEnough, nonEmpty, nicknameFree)
         == FirstFailure(Guards(emailOk, emailFree, passwordOk, confirmed, shortEnough, nonEmpty, nicknameFree))
  {
    var checks := Guards(emailOk, emailFree, passwordOk, confirmed, shortEnough, nonEmpty, nicknameFree);
    if !emailOk { FirstFailureAt(checks, 0); }
    else if !emailFree { FirstFailureAt(checks, 1); }
    else if !passwordOk { FirstFailureAt(checks, 2); }
    else if !confirmed { FirstFailureAt(checks, 3); }
    else if !shortEnough { FirstFailureAt(checks, 4); }
    else if !nonEmpty { FirstFailureAt(checks, 5); }
    else if !nicknameFree { FirstFailureAt(checks, 6); }
  }

  /** The sign-up guards for this form against these users. */
  function SignUpChecks(users: seq<User>, form: SignUpForm): seq<Check<SignUpError>> {
    Guards(EmailOk(form.email), !EmailTaken(users, form.email), PasswordOk(form.password),
           form.password == form.passwordCheck, |form.nickname| <= 30, |form.nickname| != 0,
           !NicknameTaken(users, form.nickname))
  }

  /** The user the form creates; of the chosen categories only the existing ones are attached.
      The login type, empty introduction, active flag and cleared staff flag are taken to be the
      user model's defaults, which the handler does not pass. */
  function NewUser(form: SignUpForm, known: set<string>): User {
    User(form.email, form.password, form.nickname, "DEFAULT",
         (set c | c in form.categories && c in known), form.tech, form.isMaker, "", true, false)
  }

  /** Signing up: the guards run in order and the first that fails decides the error; a user is
      added only when every guard passes. `known` is the set of existing category names. */
  function SignUp(users: seq<User>, form: SignUpForm, known: set<string>): (r: Result<seq<User>, SignUpError>)
    ensures r.Success? ==> r.value == users + [NewUser(form, known)]
    ensures r.Failure? <==> FirstFailure(SignUpChecks(users, form)).Some?
    ensures r.Failure? ==> FirstFailure(SignUpChecks(users, form)) == Some(r.error)
  {
    var emailOk, emailFree := EmailOk(form.email), !EmailTaken(users, form.email);
    var passwordOk, confirmed := PasswordOk(form.password), form.password == form.passwordCheck;
    var shortEnough, nonEmpty := |form.nickname| <= 30, |form.nickname| != 0;
    var nicknameFree := !NicknameTaken(users, form.nickname);
    RejectionIsFirstFailure(emailOk, emailFree, passwordOk, confirmed, shortEnough, nonEmpty, nicknameFree);
    match Rejection(emailOk, emailFree, passwordOk, confirmed, shortEnough, nonEmpty, nicknameFree)
    case Some(e) => Failure(e)
    case None => Success(users + [NewUser(form, known)])
  }

  /** A sign-up that succeeds had a well-formed, unused email, a well-formed password typed twice
      alike, and an unused nickname of 1 to 30 characters. */
  lemma SignUpAccepts(users: seq<User>, form: SignUpForm, known: set<string>)
    ensures SignUp(users, form, known).Success? <==>
            && EmailOk(form.email) && !EmailTaken(users, form.email)
            && PasswordOk(form.password) && form.password == form.passwordCheck
            && 1 <= |form.nickname| <= 30 && !NicknameTaken(users, form.nickname)
  {
  }

  /** Sign-up never creates a second account with the same email or the same nickname. */
  lemma SignUpKeepsUnique(users: seq<User>, form: SignUpForm, known: set<string>)
    requires UniqueEmails(users) && UniqueNicknames(users)
    ensures var r := SignUp(users, form, known);
            r.Success? ==> UniqueEmails(r.value) && UniqueNicknames(r.value)
  {
    var r := SignUp(users, form, known);
    if r.Success? {
      SignUpAccepts(users, form, known);
      var us := r.value;
      forall i, j | 0 <= i < j < |us| ensures us[i].email != us[j].email && us[i].nickname != us[j].nickname {
        if j == |users| {
          assert us[i] == users[i];
        }
      }
    }
  }

  // ---------------------------------------------------------------------------------------
  // social_signinup

  /** The positions of the users with this email, in order. */
  function WithEmail(users: seq<User>, email: string): (ids: seq<nat>)
    ensures forall i: nat :: i in ids <==> i < |users| && users[i].email == email
    ensures forall a, b :: 0 <= a < b < |ids| ==> ids[a] < ids[b]
    ensures forall a :: 0 <= a < |ids| ==> ids[a] < |users| && users[ids[a]].email == email
  {
    if |users| == 0 then []
    else
      var n := |users| - 1;
      var init := users[..n];
      var prior := WithEmail(init, email);
      assert forall i :: 0 <= i < n ==> users[i] == init[i];
      if users[n].email == email then
        var ids := prior + [n];
        assert forall a :: 0 <= a < |prior| ==> ids[a] == prior[a];
        ids
      else prior
  }

  datatype SocialAnswer =
    | GoToSignUp(username: string, email: string)   // no account yet: no tokens issued
    | SignedIn(pk: nat)                             // tokens for that user
    | MultipleAccounts                              // `get` finds several users: an unhandled error

  /** After a provider has vouched for `email`: sign the matching user in, or send the caller to the
      sign-up page. */
  function SocialSignInUp(users: seq<User>, email: string, username: string): (a: SocialAnswer)
    ensures a.GoToSignUp? <==> !EmailTaken(users, email)
    ensures a.GoToSignUp? ==> a == GoToSignUp(username, email)
    ensures a.SignedIn? ==> a.pk < |users| && users[a.pk].email == email
                            && forall i :: 0 <= i < |users| && users[i].email == email ==> i == a.pk
  {
    var ids := WithEmail(users, email);
    assert EmailTaken(users, email) <==> |ids| > 0 by {
      if EmailTaken(users, email) {
        var i :| 0 <= i < |users| && users[i].email == email;
        assert i in ids;
      }
      if |ids| > 0 {
        assert ids[0] in ids;
      }
    }
    if |ids| == 0 then GoToSignUp(username, email)
    else if |ids| == 1 then
      assert forall i :: 0 <= i < |users| && users[i].email == email ==> i == ids[0] by {
        forall i | 0 <= i < |users| && users[i].email == email ensures i == ids[0] {
          assert i in ids;
        }
      }
      SignedIn(ids[0])
    else MultipleAccounts
  }

  /** While emails are unique, the lookup never finds several users. */
  lemma SocialSignInUnique(users: seq<User>, email: string, username: string)
    requires UniqueEmails(users)
    ensures !SocialSignInUp(users, email, username).MultipleAccounts?
  {
    AtMostOneWithEmail(users, email);
  }

  lemma {:induction false} AtMostOneWithEmail(users: seq<User>, email: string)
    requires UniqueEmails(users)
    ensures |WithEmail(users, email)| <= 1
  {
    if |users| > 0 {
      var init := users[..|users| - 1];
      assert UniqueEmails(init);
      AtMostOneWithEmail(init, email);
      var prior := WithEmail(init, email);
      if |prior| == 1 {
        var i := prior[0];
        assert i in prior && users[i] == init[i];
      }
    }
  }
}
