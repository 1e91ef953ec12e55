/** The user-page handlers that read and change an account: the profile, the nickname
    availability check, the password change and the password reset by emailed code.

    As in `Accounts`, users are a sequence indexed by primary key, and `requester` is the primary
    key of the signed-in caller (`None` for an anonymous one). */
module Profiles {
  import opened Wrappers
  import opened Checks
  import opened Text
  import opened Patterns
  import opened Accounts

  /** The user exists and has not left (`get_object_or_404(..., is_active=True)`). */
  predicate Found(users: seq<User>, pk: nat) {
    pk < |users| && users[pk].isActive
  }

  // ---------------------------------------------------------------------------------------
  // ProfileAPIView.get

  /** The fields of a profile page; `userPk` echoes the requested key. */
  datatype ProfileView = ProfileView(
    userPk: nat,
    email: string,
    nickname: string,
    loginType: string,
    isStaff: bool,
    isMaker: bool,
    introduce: string,
    categories: set<string>,
    tech: string)

  datatype ReadError = ProfileNotFound | TooManyCategories

  /** The profile of user `pk`; a user with more than three interest categories is refused. */
  function ProfileRead(users: seq<User>, pk: nat): (r: Result<ProfileView, ReadError>)
    ensures r == Failure(ProfileNotFound) <==> !Found(users, pk)
    ensures r == Failure(TooManyCategories) <==> Found(users, pk) && |users[pk].categories| > 3
    ensures r.Success? ==> var u := users[pk];
            && r.value == ProfileView(pk, u.email, u.nickname, u.loginType, u.isStaff, u.isMaker, u.introduce, u.categories, u.tech)
            && |r.value.categories| <= 3
  {
    if !Found(users, pk) then Failure(ProfileNotFound)
    else
      var u := users[pk];
      if |u.categories| > 3 then Failure(TooManyCategories)
      else Success(ProfileView(pk, u.email, u.nickname, u.loginType, u.isStaff, u.isMaker, u.introduce, u.categories, u.tech))
  }

  // ---------------------------------------------------------------------------------------
  // ProfileAPIView.put

  /** The fields a profile edit may carry; an absent field keeps the stored value. The image
      upload is not modelled. */
  datatype ProfileRequest = ProfileRequest(
    nickname: Option<string>,
    categories: Option<string>,
    tech: Option<string>,
    isMaker: Option<bool>,
    introduce: Option<string>)

  datatype ProfileError =
    | UserNotFound        // 404
    | Forbidden           // 403: the caller edits someone else's profile
    | InvalidNickname     // 400: a new nickname that fails NICKNAME_PATTERN
    | NicknameInUse      // 400: a new nickname some user already has
    | UnknownCategories   // 400: no item of the category field names an existing category

  /** A nickname the edit may store: the current one unchanged, or a well-formed one nobody has. */
  predicate NicknameAllowed(users: seq<User>, current: string, wanted: string) {
    wanted == current || (NicknameOk(wanted) && !NicknameTaken(users, wanted))
  }

  /** The existing categories named, exactly as written, by some comma-separated item of the
      field; an absent field is read as the empty text. */
  function ChosenCategories(field: Option<string>, known: set<string>): (chosen: set<string>)
    ensures chosen <= known
    ensures forall c :: c in chosen <==> c in known && c in Split(field.GetOr(""), ',')
  {
    set c | c in Split(field.GetOr(""), ',') && c in known
  }

  /** The user after the edit's plain fields and the given categories are applied. */
  function Edited(u: User, req: ProfileRequest, categories: set<string>): User {
    u.(nickname := req.nickname.GetOr(u.nickname),
       categories := categories,
       tech := req.tech.GetOr(u.tech),
       isMaker := req.isMaker.GetOr(u.isMaker),
       introduce := req.introduce.GetOr(u.introduce))
  }

  /** The nickname step shared by both versions of the edit: `None` when it passes. */
  function NicknameRejection(users: seq<User>, current: string, wanted: string): (e: Option<ProfileError>)
    ensures e.None? <==> NicknameAllowed(users, current, wanted)
    ensures e.Some? ==> e == Some(if NicknameOk(wanted) then NicknameInUse else InvalidNickname)
  {
    if wanted == current then None
    else if !NicknameOk(wanted) then Some(InvalidNickname)
    else if NicknameTaken(users, wanted) then Some(NicknameInUse)
    else None
  }

  /** The profile edit's guards in the order the handler runs them, each given by whether it
      passes. */
  function ProfileGuards(found: bool, owner: bool, wellFormed: bool, free: bool, named: bool)
    : seq<Check<ProfileError>> {
    [ Check(found, UserNotFound), Check(owner, Forbidden), Check(wellFormed, InvalidNickname),
      Check(free, NicknameInUse), Check(named, UnknownCategories) ]
  }

  /** The handler's early returns for a profile edit. */
  function ProfileRejection(found: bool, owner: bool, wellFormed: bool, free: bool, named: bool)
    : Option<ProfileError> {
    if !found then Some(UserNotFound)
    else if !owner then Some(Forbidden)
    else if !wellFormed then Some(InvalidNickname)
    else if !free then Some(NicknameInUse)
    else if !named then Some(UnknownCategories)
    else None
  }

  lemma ProfileRejectionIsFirstFailure(found: bool, owner: bool, wellFormed: bool, free: bool, named: bool)
    ensures ProfileRejection(found, owner, wellFormed, free, named)
         == FirstFailure(ProfileGuards(found, owner, wellFormed, free, named))
  {
    var checks := ProfileGuards(found, owner, wellFormed, free, named);
    if !found { FirstFailureAt(checks, 0); }
    else if !owner { FirstFailureAt(checks, 1); }
    else if !wellFormed { FirstFailureAt(checks, 2); }
    else if !free { FirstFailureAt(checks, 3); }
    else if !named { FirstFailureAt(checks, 4); }
  }

  /** The profile edit guards for this request. The nickname guards pass when the nickname is
      kept; the category guard asks that some item name an existing category. */
  function ProfileChecks(users: seq<User>, pk: nat, requester: Option<nat>, req: ProfileRequest,
                         known: set<string>): seq<Check<ProfileError>> {
    var found := Found(users, pk);
    var current := if found then users[pk].nickname else "";
    var wanted := req.nickname.GetOr(current);
    ProfileGuards(found, requester == Some(pk), wanted == current || NicknameOk(wanted),
                  wanted == current || !NicknameTaken(users, wanted), ChosenCategories(req.categories, known) != {})
  }

  /** The profile edit as the handler performs it. The category field is split on commas even
      when it is absent, so an absent field is the one item `""`, and the edit is refused unless
      some item names an existing category. Only user `pk` changes. */
  function ProfileUpdate(users: seq<User>, pk: nat, requester: Option<nat>, req: ProfileRequest,
                         known: set<string>): (r: Result<seq<User>, ProfileError>)
    ensures r == Failure(UserNotFound) <==> !Found(users, pk)
    ensures Found(users, pk) && requester != Some(pk) ==> r == Failure(Forbidden)
    ensures r.Success? <==>
            && Found(users, pk) && requester == Some(pk)
            && NicknameAllowed(users, users[pk].nickname, req.nickname.GetOr(users[pk].nickname))
            && ChosenCategories(req.categories, known) != {}
    ensures r.Failure? <==> FirstFailure(ProfileChecks(users, pk, requester, req, known)).Some?
    ensures r.Failure? ==> FirstFailure(ProfileChecks(users, pk, requester, req, known)) == Some(r.error)
    ensures r.Success? ==> |r.value| == |users|
                           && (forall i :: 0 <= i < |users| && i != pk ==> r.value[i] == users[i])
                           && r.value[pk] == Edited(users[pk], req, ChosenCategories(req.categories, known))
  {
    var found := Found(users, pk);
    var current := if found then users[pk].nickname else "";
    var wanted := req.nickname.GetOr(current);
    var wellFormed, free := wanted == current || NicknameOk(wanted), wanted == current || !NicknameTaken(users, wanted);
    var chosen := ChosenCategories(req.categories, known);
    ProfileRejectionIsFirstFailure(found, requester == Some(pk), wellFormed, free, chosen != {});
    match ProfileRejection(found, requester == Some(pk), wellFormed, free, chosen != {})
    case Some(e) => Failure(e)
    case None => Success(users[pk := Edited(users[pk], req, chosen)])
  }

  /** An owner's edit that leaves out the category field is refused whenever no category is
      named by the empty text, even though the handler has a branch meant to keep the current
      categories. */
  lemma ProfileUpdateWithoutCategoriesRefused(users: seq<User>, pk: nat, req: ProfileRequest, known: set<string>)
    requires Found(users, pk) && req.categories.None? && "" !in known
    requires NicknameAllowed(users, users[pk].nickname, req.nickname.GetOr(users[pk].nickname))
    ensures ProfileUpdate(users, pk, Some(pk), req, known) == Failure(UnknownCategories)
  {
    assert Split("", ',') == [""];
  }

  /** The edit as the category branch intends it: an absent or empty field keeps the user's
      categories, and a non-empty one must name at least one existing category. */
  function ProfileUpdateFixed(users: seq<User>, pk: nat, requester: Option<nat>, req: ProfileRequest,
                              known: set<string>): (r: Result<seq<User>, ProfileError>)
    ensures r == Failure(UserNotFound) <==> !Found(users, pk)
    ensures Found(users, pk) && requester != Some(pk) ==> r == Failure(Forbidden)
    ensures Found(users, pk) && requester == Some(pk) &&
            !NicknameAllowed(users, users[pk].nickname, req.nickname.GetOr(users[pk].nickname)) ==>
            r == Failure(NicknameRejection(users, users[pk].nickname, req.nickname.GetOr(users[pk].nickname)).value)
    ensures r == Failure(UnknownCategories) ==>
            NicknameAllowed(users, users[pk].nickname, req.nickname.GetOr(users[pk].nickname))
    ensures r.Success? ==> |r.value| == |users|
                           && forall i :: 0 <= i < |users| && i != pk ==> r.value[i] == users[i]
  {
    if !Found(users, pk) then Failure(UserNotFound)
    else if requester != Some(pk) then Failure(Forbidden)
    else
      var u := users[pk];
      match NicknameRejection(users, u.nickname, req.nickname.GetOr(u.nickname))
      case Some(e) => Failure(e)
      case None =>
        if req.categories.GetOr("") == "" then Success(users[pk := Edited(u, req, u.categories)])
        else
          var chosen := ChosenCategories(req.categories, known);
          if chosen == {} then Failure(UnknownCategories)
          else Success(users[pk := Edited(u, req, chosen)])
  }

  /** Under the intended reading, an edit without categories succeeds exactly when the caller owns
      the profile and the nickname is allowed, and it keeps the categories; an edit with a
      non-empty field agrees with the handler. */
  lemma ProfileUpdateFixedKeepsCategories(users: seq<User>, pk: nat, requester: Option<nat>,
                                          req: ProfileRequest, known: set<string>)
    ensures var r := ProfileUpdateFixed(users, pk, requester, req, known);
            req.categories.GetOr("") == "" ==>
              && (r.Success? <==> Found(users, pk) && requester == Some(pk)
                                  && NicknameAllowed(users, users[pk].nickname, req.nickname.GetOr(users[pk].nickname)))
              && (r.Success? ==> r.value[pk].categories == users[pk].categories)
    ensures req.categories.GetOr("") != "" ==>
              ProfileUpdateFixed(users, pk, requester, req, known) == ProfileUpdate(users, pk, requester, req, known)
  {
  }

  /** A profile edit never gives two users the same nickname. */
  lemma ProfileUpdateKeepsUniqueNicknames(users: seq<User>, pk: nat, requester: Option<nat>,
                                          req: ProfileRequest, known: set<string>)
    requires UniqueNicknames(users)
    ensures var r := ProfileUpdateFixed(users, pk, requester, req, known);
            r.Success? ==> UniqueNicknames(r.value)
  {
    var r := ProfileUpdateFixed(users, pk, requester, req, known);
    if r.Success? {
      var us := r.value;
      var wanted := us[pk].nickname;
      assert NicknameAllowed(users, users[pk].nickname, wanted);
      forall i, j | 0 <= i < j < |us| ensures us[i].nickname != us[j].nickname {
        if i == pk && wanted != users[pk].nickname {
          assert users[j].nickname == us[j].nickname;
        } else if j == pk && wanted != users[pk].nickname {
          assert users[i].nickname == us[i].nickname;
        }
      }
    }
  }

  /** A successful edit shows in the profile: the new nickname and the chosen categories, with the
      email and staff flag untouched, unless more than three categories were chosen, which the edit
      allows and the profile refuses. */
  lemma ProfileReadAfterUpdate(users: seq<User>, pk: nat, req: ProfileRequest, known: set<string>)
    requires ProfileUpdate(users, pk, Some(pk), req, known).Success?
    ensures var chosen := ChosenCategories(req.categories, known);
            var r := ProfileRead(ProfileUpdate(users, pk, Some(pk), req, known).value, pk);
            && (r.Success? <==> |chosen| <= 3)
            && (r.Success? ==> r.value.nickname == req.nickname.GetOr(users[pk].nickname)
                               && r.value.categories == chosen && r.value.email == users[pk].email
                               && r.value.isStaff == users[pk].isStaff)
  {
  }

  // ---------------------------------------------------------------------------------------
  // check_nickname

  datatype NicknameAnswer = Malformed | Taken | Available

  /** Whether a nickname could be chosen: well-formed first, then unused by any user. */
  function CheckNickname(users: seq<User>, nickname: string): (a: NicknameAnswer)
    ensures a == Available <==> NicknameOk(nickname) && !NicknameTaken(users, nickname)
    ensures a == Malformed <==> !NicknameOk(nickname)
  {
    if !NicknameOk(nickname) then Malformed
    else if NicknameTaken(users, nickname) then Taken
    else Available
  }

  /** A nickname reported available passes the nickname step of a profile edit, and a nickname
      that is neither the user's own nor available is refused by it. */
  lemma CheckNicknameAgreesWithEdit(users: seq<User>, pk: nat, req: ProfileRequest, known: set<string>)
    requires Found(users, pk) && req.nickname.Some?
    ensures CheckNickname(users, req.nickname.value) == Available ==>
            NicknameAllowed(users, users[pk].nickname, req.nickname.value)
    ensures CheckNickname(users, req.nickname.value) != Available && req.nickname.value != users[pk].nickname ==>
            ProfileUpdate(users, pk, Some(pk), req, known).Failure?
  {
  }

  // ---------------------------------------------------------------------------------------
  // change_password and reset_password

  datatype PasswordError =
    | AccountNotFound     // 404 from the lookup by primary key
    | NotOwner            // 403
    | WrongPassword       // 400: the current password does not match
    | NewPasswordInvalid     // 400: the new password fails PASSWORD_PATTERN
    | NewPasswordMismatch    // 400: new_password and new_password_check differ
    | NoAccount           // no user has the email: `objects.get` raises, an unhandled error
    | SeveralAccounts     // several users have the email: `objects.get` raises, an unhandled error
    | SocialAccount       // 400: the account signs in through a provider
    | NoVerification      // 400: no code was sent to the email
    | CodeExpired         // 400
    | WrongCode           // 400

  /** The guards of a password change in the order the handler runs them. */
  function ChangeGuards(found: bool, owner: bool, matches: bool, wellFormed: bool, confirmed: bool)
    : seq<Check<PasswordError>> {
    [ Check(found, AccountNotFound), Check(owner, NotOwner), Check(matches, WrongPassword),
      Check(wellFormed, NewPasswordInvalid), Check(confirmed, NewPasswordMismatch) ]
  }

  /** The handler's early returns for a password change. */
  function ChangeRejection(found: bool, owner: bool, matches: bool, wellFormed: bool, confirmed: bool)
    : Option<PasswordError> {
    if !found then Some(AccountNotFound)
    else if !owner then Some(NotOwner)
    else if !matches then Some(WrongPassword)
    else if !wellFormed then Some(NewPasswordInvalid)
    else if !confirmed then Some(NewPasswordMismatch)
    else None
  }

  lemma ChangeRejectionIsFirstFailure(found: bool, owner: bool, matches: bool, wellFormed: bool, confirmed: bool)
    ensures ChangeRejection(found, owner, matches, wellFormed, confirmed)
         == FirstFailure(ChangeGuards(found, owner, matches, wellFormed, confirmed))
  {
    var checks := ChangeGuards(found, owner, matches, wellFormed, confirmed);
    if !found { FirstFailureAt(checks, 0); }
    else if !owner { FirstFailureAt(checks, 1); }
    else if !matches { FirstFailureAt(checks, 2); }
    else if !wellFormed { FirstFailureAt(checks, 3); }
    else if !confirmed { FirstFailureAt(checks, 4); }
  }

  /** The password change guards for this request. */
  function ChangeChecks(users: seq<User>, pk: nat, requester: Option<nat>, password: string,
                        newPassword: string, newPasswordCheck: string): seq<Check<PasswordError>> {
    ChangeGuards(Found(users, pk), requester == Some(pk), Found(users, pk) && users[pk].password == password,
                 PasswordOk(newPassword), newPassword == newPasswordCheck)
  }

  /** Changing a password: lookup, ownership, the current password, then the new one's form and
      confirmation; the first failing guard decides, and only user `pk`'s password changes. */
  function ChangePassword(users: seq<User>, pk: nat, requester: Option<nat>, password: string,
                          newPassword: string, newPasswordCheck: string): (r: Result<seq<User>, PasswordError>)
    ensures r.Failure? <==> FirstFailure(ChangeChecks(users, pk, requester, password, newPassword, newPasswordCheck)).Some?
    ensures r.Failure? ==> FirstFailure(ChangeChecks(users, pk, requester, password, newPassword, newPasswordCheck)) == Some(r.error)
    ensures r.Success? ==> pk < |users| && r.value == users[pk := users[pk].(password := newPassword)]
  {
    var found := Found(users, pk);
    var owner := requester == Some(pk);
    var matches := found && users[pk].password == password;
    var wellFormed, confirmed := PasswordOk(newPassword), newPassword == newPasswordCheck;
    ChangeRejectionIsFirstFailure(found, owner, matches, wellFormed, confirmed);
    match ChangeRejection(found, owner, matches, wellFormed, confirmed)
    case Some(e) => Failure(e)
    case None => Success(users[pk := users[pk].(password := newPassword)])
  }

  /** A password change succeeds exactly when the owner gives the current password and a
      well-formed new one typed twice alike. */
  lemma ChangePasswordAccepts(users: seq<User>, pk: nat, requester: Option<nat>, password: string,
                              newPassword: string, newPasswordCheck: string)
    ensures ChangePassword(users, pk, requester, password, newPassword, newPasswordCheck).Success? <==>
            && Found(users, pk) && requester == Some(pk) && users[pk].password == password
            && PasswordOk(newPassword) && newPassword == newPasswordCheck
  {
  }

  /** An emailed code as stored; whether it has expired depends on the clock and is given. */
  datatype Verification = Verification(code: string, expired: bool)

  /** The state a reset touches: the users and the pending codes by email. */
  datatype ResetState = ResetState(users: seq<User>, verifications: map<string, Verification>)

  datatype CodeAnswer = CodeVerified | CodeRejected(reason: PasswordError)

  /** Checking an emailed code on its own: it must exist, be fresh and match. */
  function PasswordVerifyCode(verifications: map<string, Verification>, email: string, code: string): (a: CodeAnswer)
    ensures a == CodeVerified <==> email in verifications && !verifications[email].expired
                                   && verifications[email].code == code
    ensures a.CodeRejected? ==> a.reason in {NoVerification, CodeExpired, WrongCode}
    ensures a == CodeRejected(NoVerification) <==> email !in verifications
    ensures a == CodeRejected(CodeExpired) <==> email in verifications && verifications[email].expired
    ensures a == CodeRejected(WrongCode) <==>
            email in verifications && !verifications[email].expired && verifications[email].code != code
  {
    if email !in verifications then CodeRejected(NoVerification)
    else if verifications[email].expired then CodeRejected(CodeExpired)
    else if verifications[email].code != code then CodeRejected(WrongCode)
    else CodeVerified
  }

  /** The reset guards that follow the account lookup, in the order the handler runs them. */
  function ResetGuards(hasCode: bool, unexpired: bool, matches: bool, wellFormed: bool, confirmed: bool)
    : seq<Check<PasswordError>> {
    [ Check(hasCode, NoVerification), Check(unexpired, CodeExpired), Check(matches, WrongCode),
      Check(wellFormed, NewPasswordInvalid), Check(confirmed, NewPasswordMismatch) ]
  }

  /** The handler's early returns after the account lookup. */
  function ResetRejection(hasCode: bool, unexpired: bool, matches: bool, wellFormed: bool, confirmed: bool)
    : Option<PasswordError> {
    if !hasCode then Some(NoVerification)
    else if !unexpired then Some(CodeExpired)
    else if !matches then Some(WrongCode)
    else if !wellFormed then Some(NewPasswordInvalid)
    else if !confirmed then Some(NewPasswordMismatch)
    else None
  }

  lemma ResetRejectionIsFirstFailure(hasCode: bool, unexpired: bool, matches: bool, wellFormed: bool, confirmed: bool)
    ensures ResetRejection(hasCode, unexpired, matches, wellFormed, confirmed)
         == FirstFailure(ResetGuards(hasCode, unexpired, matches, wellFormed, confirmed))
  {
    var checks := ResetGuards(hasCode, unexpired, matches, wellFormed, confirmed);
    if !hasCode { FirstFailureAt(checks, 0); }
    else if !unexpired { FirstFailureAt(checks, 1); }
    else if !matches { FirstFailureAt(checks, 2); }
    else if !wellFormed { FirstFailureAt(checks, 3); }
    else if !confirmed { FirstFailureAt(checks, 4); }
  }

  /** The reset guards for this request: a code for the email, not expired and equal to the one
      given, then a well-formed new password typed twice alike. */
  function ResetChecks(verifications: map<string, Verification>, email: string, code: string,
                       newPassword: string, newPasswordCheck: string): seq<Check<PasswordError>> {
    var hasCode := email in verifications;
    ResetGuards(hasCode, !hasCode || !verifications[email].expired, !hasCode || verifications[email].code == code,
                PasswordOk(newPassword), newPassword == newPasswordCheck)
  }

  /** Resetting a forgotten password with an emailed code. The user is fetched by email before
      any guard, so a missing or shared email is an unhandled error; then a provider account is
      refused, the code must exist, be unexpired and match, and the new password must be well formed
      and confirmed. On success that user's password changes and the email's code is deleted. */
  function ResetPassword(st: ResetState, email: string, code: string, newPassword: string,
                         newPasswordCheck: string): (r: Result<ResetState, PasswordError>)
    ensures var ids := WithEmail(st.users, email);
            && (r == Failure(NoAccount) <==> |ids| == 0)
            && (r == Failure(SeveralAccounts) <==> |ids| > 1)
            && (|ids| == 1 && st.users[ids[0]].loginType != "DEFAULT" ==> r == Failure(SocialAccount))
    ensures var ids := WithEmail(st.users, email);
            var checks := ResetChecks(st.verifications, email, code, newPassword, newPasswordCheck);
            |ids| == 1 && st.users[ids[0]].loginType == "DEFAULT" ==>
              && (r.Failure? <==> FirstFailure(checks).Some?)
              && (r.Failure? ==> FirstFailure(checks) == Some(r.error))
    ensures r.Success? <==>
            && |WithEmail(st.users, email)| == 1
            && st.users[WithEmail(st.users, email)[0]].loginType == "DEFAULT"
            && PasswordVerifyCode(st.verifications, email, code) == CodeVerified
            && PasswordOk(newPassword) && newPassword == newPasswordCheck
    ensures r.Success? ==>
            var id := WithEmail(st.users, email)[0];
            && id < |st.users| && st.users[id].email == email
            && r.value.users == st.users[id := st.users[id].(password := newPassword)]
            && r.value.verifications == st.verifications - {email}
  {
    var ids := WithEmail(st.users, email);
    if |ids| == 0 then Failure(NoAccount)
    else if |ids| > 1 then Failure(SeveralAccounts)
    else
      var id := ids[0];
      assert id in ids;
      var u := st.users[id];
      if u.loginType != "DEFAULT" then Failure(SocialAccount)
      else
        var hasCode := email in st.verifications;
        var unexpired := !hasCode || !st.verifications[email].expired;
        var matches := !hasCode || st.verifications[email].code == code;
        var wellFormed, confirmed := PasswordOk(newPassword), newPassword == newPasswordCheck;
        ResetRejectionIsFirstFailure(hasCode, unexpired, matches, wellFormed, confirmed);
        match ResetRejection(hasCode, unexpired, matches, wellFormed, confirmed)
        case Some(e) => Failure(e)
        case None => Success(ResetState(st.users[id := u.(password := newPassword)], st.verifications - {email}))
  }

  /** A code that reset a password cannot reset it again: the code is gone. */
  lemma ResetConsumesCode(st: ResetState, email: string, code: string, newPassword: string,
                          newPasswordCheck: string, again: string, againCheck: string)
    requires ResetPassword(st, email, code, newPassword, newPasswordCheck).Success?
    ensures var st' := ResetPassword(st, email, code, newPassword, newPasswordCheck).value;
            ResetPassword(st', email, code, again, againCheck) == Failure(NoVerification)
  {
    var st' := ResetPassword(st, email, code, newPassword, newPasswordCheck).value;
    var id := WithEmail(st.users, email)[0];
    SameEmails(st.users, id, st.users[id].(password := newPassword), email);
  }

  /** Changing a user's fields other than the email keeps who has which email. */
  lemma SameEmails(users: seq<User>, id: nat, u: User, email: string)
    requires id < |users| && u.email == users[id].email
    ensures WithEmail(users[id := u], email) == WithEmail(users, email)
  {
    WithEmailByEmails(users[id := u], users, email);
  }

  /** The lookup by email sees only the emails. */
  lemma {:induction false} WithEmailByEmails(a: seq<User>, b: seq<User>, email: string)
    requires |a| == |b| && forall i :: 0 <= i < |a| ==> a[i].email == b[i].email
    ensures WithEmail(a, email) == WithEmail(b, email)
  {
    if |a| > 0 {
      WithEmailByEmails(a[..|a| - 1], b[..|b| - 1], email);
    }
  }
}
