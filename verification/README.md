# Game platform back end: review ratings, reactions, listings and accounts

This project models, in Dafny, the pure logic inside the Django handlers of a platform where
makers upload browser games and players rate them. It covers:

- **Review star arithmetic.** Posting, editing and deleting a review update the game's `star` and
  `review_cnt` in constant time, using running-mean formulas. `Ratings` models the three handlers
  with exact `real` stars. It proves that the invariant `star * review_cnt == sum of the visible
  reviews' stars` holds whenever the request names the review's own game and star. It also proves,
  with concrete stores, what goes wrong when the request does not.
- **The review like/dislike toggle.** `Reactions` models the three-state `is_like` code (0 none,
  1 like, 2 dislike), checked against a reference state machine.
- **Pinned listings.** `GameLists` models the review list, where the caller's own review is
  pinned first and moved to `my_review` on page 1. It also models game search, where liked games
  come first and the page-1 loop pops them into `favorite_games` and leaves `{}` placeholders.
  `Paging` models the page cut itself.
- **Category parsing.** `Categories` models the comma-separated category field of game upload
  (every item must exist) and of game edit (items are stripped, empties dropped, unknown names
  created).
- **Accounts.** These modules model:
  - the email, password and nickname regular expressions (`Patterns`), each proved equal to its
    regular-expression reading;
  - the sign-up guards and their order, and the social sign-in lookup (`Accounts`);
  - profile read and edit, the nickname check, password change and password reset
    (`Profiles`);
  - the user page's game pack and maker game list (`UserPages`).

Shared pieces:

- `Checks` defines "the first failing guard of an ordered list decides the error". The early-return
  chains of sign-up, profile edit, password change and password reset are each proved equal to it.
  The other handlers state their error cases directly in their contracts, without a guard list.
- `Seqs` holds `filter`/`exclude`/`distinct`. Order is stated against an independent
  `Subsequence` predicate.
- `Text` holds Python's `str.split` and `str.strip`.
- `Wrappers` holds `Option` and `Result`.

Each handler is a function from the rows it reads and the request fields to an error or to the
rows it writes. The database is a sequence or map of rows; a user's or review's primary key is its
position. Orders the database computes (`order_by`, annotations) are inputs. An error response is
a `Failure`; an unhandled exception that the code would raise is a `Failure` too, named so in the
error datatype.

Paging is an assumption: the paginator classes are not part of this model. A page is taken to be
the slice `s[(p-1)*n .. min(p*n, |s|)]` for `1 <= p <= max(1, ceil(|s|/n))`, and any other page
number is an error.

## Model

| member | source | states |
|---|---|---|
| Ratings.CreateReview | games/views.py:542-561 | Unknown game (404) and duplicate visible review are refused with the rows unchanged; a count of -1 makes `review_cnt+1` zero and is a division error with the rows unchanged; otherwise an invalid payload is refused as invalid, yet in every such case the count rises by one and the stored total (`star * cnt`) rises by exactly the new star, and this happens before the payload is validated; the review is added only when the payload is valid |
| Ratings.CreateKeepsConsistency | games/views.py:546-552 | A successful create keeps every game's stored mean equal to the mean of its visible reviews and keeps one visible review per author and game |
| Ratings.CreateRejectedStillCounts | games/views.py:549-561 | Concrete store: a payload the serializer rejects still leaves the game at star 4, count 1 with no review, so the stored mean no longer matches the reviews |
| Ratings.CreateReviewValidated | games/views.py:549-561 | Create with validation before the game is saved: an unknown game is a 404, an invalid payload for a new review is refused as invalid, a failure changes nothing, success iff game exists, no duplicate and valid, and consistency is preserved for every request |
| Ratings.UpdateReview | games/views.py:583-606 | Missing review and non-author non-staff caller are refused with nothing changed; then a `game_pk` naming no game is a 404 and a count of 0 is a division error, both with nothing changed; otherwise an invalid payload is refused as invalid, and the game named by `game_pk` keeps its count and its total moves by `star - pre_star`, saved before validation; the review's star changes only on success |
| Ratings.UpdateKeepsConsistency | games/views.py:593-597 | When `game_pk` and `pre_star` are the review's own game and stored star, a successful edit keeps every game consistent |
| Ratings.UpdateForeignGameBreaksMean | games/views.py:593-596 | Concrete store: an author's edit naming another game's id in `game_pk` succeeds and leaves both games inconsistent with their reviews |
| Ratings.UpdateReviewStored | games/views.py:583-606 | Edit that takes the game and old star from the stored review and validates first: an authorised invalid edit is refused as invalid, failures change nothing, an authorised valid edit of an existing game succeeds, and consistency is preserved for every request |
| Ratings.DeleteReview | games/views.py:608-632 | Missing review and non-author non-staff caller are refused with nothing changed; then a `game_pk` naming no game is a 404 with nothing changed; otherwise the review is hidden and the game named by `game_pk` loses one from its count and, with more than one review, exactly the review's star from its total, or is reset to star 0 |
| Ratings.DeleteKeepsConsistency | games/views.py:618-627 | When `game_pk` is the review's own game, deleting keeps every game consistent, and deleting the last review leaves star 0 and count 0 |
| Ratings.DeleteForeignGameBreaksMean | games/views.py:618-625 | Concrete store: deleting with another game's id in `game_pk` drives that game's count to -1 and leaves both games inconsistent |
| Ratings.DeleteReviewStored | games/views.py:608-632 | Delete that updates the review's own game: an authorised delete whose game is gone is a 404, failures change nothing, success hides the review, and consistency is preserved for every request |
| Ratings.ConsistentStarIsMean | games/views.py:549-551 | In a consistent store, a game's stored star is exactly the sum of its visible reviews' stars divided by their number |
| Reactions.Toggle | games/views.py:653-665 | An unknown action leaves the code unchanged; a known one yields a code in 0..2 that decodes to the reference state machine's next state (same reaction clears, other reaction switches) |
| Reactions.ToggleKeepsRange | games/views.py:653-665 | A code in 0..2 stays in 0..2 |
| Reactions.ToggleTwice | games/views.py:653-665 | The same known action twice restores a code that was 0 or that action's own code, and clears the other reaction |
| Reactions.ToggleTwiceFromNone | games/views.py:653-665 | The same action twice from no reaction leaves no reaction |
| Reactions.ToggleReviewLike | games/views.py:636-667 | A missing or hidden review is a 404 and nothing else is; otherwise the (user, review) row is created with code 0 if absent, toggled and stored, and every other row is unchanged |
| Reactions.ToggleReviewLikeKeepsCodes | games/views.py:649-667 | If every stored code is in 0..2, so is every code after a toggle |
| GameLists.MyReview | games/views.py:497-501 | The caller's review exists iff the caller is signed in and has a visible review of the game; it is the first such review |
| GameLists.ReviewOrder | games/views.py:516-519 | Without a pinned review the list is the ordered reviews; with one, it comes first and the rest are exactly the other reviews, in display order |
| GameLists.PinnedOrderIsPermutation | games/views.py:497-519 | Excluding the pinned review and prepending it is a permutation of the ordered reviews: length `1 + |rest|`, nothing lost or repeated |
| GameLists.ReviewListing | games/views.py:522-540 | The listing exists iff the page does; on page 1 with a pinned review, `my_review` is that review and the page keeps its length with `{}` in its place; otherwise the page is returned as is |
| GameLists.PinnedNotOnLaterPages | games/views.py:516-538 | The pinned review appears on no page after the first |
| GameLists.ExtractFavorites | games/views.py:266-273 | The pop/insert loop succeeds iff the favourite count is at most the page length (else `pop` fails); then the favourites are the first `cnt` entries in order and the page is `cnt` placeholders followed by the remaining entries |
| GameLists.SearchOrder | games/views.py:246-252 | The combined list starts with the caller's liked games and continues with exactly the games not liked; both parts keep the search result's newest-first order |
| GameLists.SearchOrderIsPermutation | games/views.py:246-252 | Moving liked games to the front is a permutation of the search result |
| GameLists.SearchListing | games/views.py:246-275 | An empty combined list is a 404, a missing page is a page error, and page 1 with favourites succeeds iff they fit on it, with them moved out and replaced by placeholders |
| Paging.Page | games/views.py:522-526 | A page exists iff its number is in `1..page count`; it holds at most `size` consecutive entries starting at `(p-1)*size`, and every page before the last is full |
| Paging.PageIsChunk | games/views.py:522-526 | Every page equals the matching chunk of the reference cut into consecutive blocks of `size` |
| Paging.PagesConserveEntries | games/views.py:522-526 | Reading every page in order gives back the whole list |
| Categories.MissingOf | games/views.py:153-161 | The missing fields are exactly the required fields that are absent or empty, each once, in the required order |
| Categories.PartitionCategories | games/views.py:163-173 | Each item goes to `valid` if it names a category and to `invalid` otherwise, both in input order, and together they are the items |
| Categories.UploadCategories | games/views.py:152-180 | Missing fields are reported first; then the upload's categories are accepted iff every comma-separated item names an existing category, and otherwise the error lists exactly the unknown items, in input order with repeats |
| Categories.Requested | games/views.py:381-382 | A name is requested iff it is non-empty and is some comma-separated item with surrounding whitespace removed |
| Categories.EditCategories | games/views.py:378-383 | An absent field keeps the categories; a present one replaces them with exactly the requested names, every one stripped and non-empty, and adds the new names to the known categories |
| Categories.StripIdempotent | games/views.py:381-382 | Stripping an already stripped item changes nothing |
| Text.JoinSplit | games/views.py:168 | Splitting on a separator and joining with it gives back the text |
| Text.SplitJoin | games/views.py:168 | Joining items that do not contain the separator and splitting again gives back the items, so the split neither loses nor invents an item |
| Patterns.NicknameOk | users/views.py:31 | Accepts iff the text, less one final newline, is 4 to 10 Hangul syllables, ASCII letters or ASCII digits, which is what the pattern matches |
| Patterns.PasswordOk | accounts/views.py:39 | Accepts iff the pattern matches: 8 to 32 characters, none a newline, with one final newline allowed, containing an ASCII digit, lower-case and upper-case letter |
| Patterns.EmailOk | accounts/views.py:38 | Accepts iff the pattern matches, including a local part drawn from the range U+002B..U+005F, which contains `@` |
| Accounts.SignUp | accounts/views.py:41-81 | Fails iff some guard fails, with the error of the first failing guard in handler order; on success exactly one user is added, with the chosen categories that exist |
| Accounts.RejectionIsFirstFailure | accounts/views.py:51-68 | The chain of early returns reports exactly the first failing guard of the ordered list |
| Accounts.SignUpAccepts | accounts/views.py:51-68 | Sign-up succeeds iff the email is well formed and unused, the password is well formed and typed twice alike, and the nickname has 1 to 30 characters and is unused |
| Accounts.SignUpKeepsUnique | accounts/views.py:51-77 | Sign-up never creates a second account with the same email or nickname |
| Accounts.SocialSignInUp | accounts/views.py:284-299 | An unknown email gets the sign-up response with the provider's username and email and no tokens; tokens go only to the one user with that email |
| Accounts.SocialSignInUnique | accounts/views.py:286-287 | While emails are unique, the lookup never finds several users |
| Profiles.ProfileRead | users/views.py:33-53 | A missing or inactive user is a 404; more than three interest categories is a 400; otherwise the profile shows exactly the requested key and the user's email, nickname, login type, staff flag, maker flag, introduction, categories and tech (the image aside, see Left out) |
| Profiles.ProfileReadAfterUpdate | users/views.py:33-99 | After a successful edit the profile shows the new nickname and the chosen categories with the email and staff flag unchanged, and it is refused iff the edit chose more than three categories, which the edit itself allows |
| Profiles.ProfileUpdate | users/views.py:55-142 | A 404 iff the user is missing; a 403 for anyone but the owner; success iff the nickname is kept or is well formed and unused and some comma-separated item names a category; a failure reports the first failing guard in the order lookup, ownership, nickname form, nickname free, categories; only the owner's row changes |
| Profiles.ProfileRejectionIsFirstFailure | users/views.py:57-95 | The chain of early returns reports exactly the first failing guard of the ordered list |
| Profiles.ProfileUpdateWithoutCategoriesRefused | users/views.py:88-99 | An owner's edit without the category field is refused when no category is named by the empty text |
| Profiles.ProfileUpdateFixed | users/views.py:88-99 | The edit with the empty-field branch reachable: the same 404 and 403, the nickname error before any category error, and only the owner's row changes |
| Profiles.ProfileUpdateFixedKeepsCategories | users/views.py:88-99 | Under the fix an edit without categories succeeds iff owner and nickname allow it and keeps the categories; with a non-empty field it agrees with the handler |
| Profiles.ProfileUpdateKeepsUniqueNicknames | users/views.py:71-85 | A profile edit (with the empty-category branch reachable) never gives two users the same nickname |
| Profiles.CheckNickname | users/views.py:176-199 | Available iff well formed and unused; malformed is reported first |
| Profiles.CheckNicknameAgreesWithEdit | users/views.py:176-199 | A nickname reported available passes the edit's nickname step, and a new nickname not reported available makes the edit fail |
| Profiles.ChangePassword | users/views.py:202-244 | Fails iff some guard fails, with the first in the order lookup, ownership, current password, new password's form, confirmation; on success only that user's password changes |
| Profiles.ChangeRejectionIsFirstFailure | users/views.py:213-234 | The chain of early returns reports exactly the first failing guard of the ordered list |
| Profiles.ChangePasswordAccepts | users/views.py:213-238 | A change succeeds iff the owner gives the current password and a well-formed new one typed twice alike |
| Profiles.PasswordVerifyCode | users/views.py:248-263 | Verified iff a code exists for the email, has not expired and matches; otherwise no code, expired and wrong code are reported in that order |
| Profiles.ResetPassword | users/views.py:267-314 | No user or several users with the email is an unhandled error; a provider account is refused; after that the first failing guard is reported, in the order code present, unexpired, matching, new password well formed, confirmed; then only that user's password changes and the email's code is deleted |
| Profiles.ResetRejectionIsFirstFailure | users/views.py:281-302 | The chain of early returns after the account lookup reports exactly the first failing guard of the ordered list |
| Profiles.ResetConsumesCode | users/views.py:304-307 | After a successful reset the same email has no code, so a second reset is refused |
| UserPages.Gamepacks | users/views.py:415-446 | A 404 for a missing user, a 401 for anyone but the owner, a 404 iff there is no liked and no suggested game; otherwise the pack holds 1 to 4 games |
| UserPages.Pack | users/views.py:423-440 | The pack has `min(4, liked + suggested)` games, starts with the first `min(4, liked)` liked games in order and continues with suggestions in order |
| UserPages.PackContents | users/views.py:423-440 | Every pack game is listed; the liked part is liked games and every later game is an unliked game of an interest category |
| UserPages.PackDistinct | users/views.py:423-440 | No game appears twice in a pack |
| UserPages.PackOfFourLiked | users/views.py:435-440 | Four liked games fill the pack on their own |
| UserPages.MyGames | users/views.py:318-339 | A 404 for a missing maker and iff the maker has no visible game; listed games are the maker's visible ones, and for anyone but the maker only approved ones; the maker sees the plain page of visible games and anyone else the page of the visible, approved games |
| UserPages.MyGamesVisitorSeesEmptyPage | users/views.py:320-329 | A visitor to a maker whose visible games all await approval gets an empty first page, because the emptiness test precedes the approval filter |

## Left out

- OAuth code and token exchange with the providers, and JWT issuance. These are network I/O and
  foreign libraries. `SocialSignInUp` stops at which user would get the tokens.
- The chatbot, file and screenshot uploads, playtime timing, and `assign_chip_based_on_difficulty`.
  These are external services, storage, the clock, and code that is not part of this model.
- Accounts.NewUser: a new account's login type `"DEFAULT"`, empty introduction, active flag and
  cleared staff flag are assumed defaults of the user model and its manager, which are not part
  of this model; the sign-up handler passes none of them.
- Password hashing. A password is stored and compared as the text itself.
- `is_expired()` reads the clock. It is the given flag `Verification.expired`.
- The profile image field. The game-edit fields other than the category list.
- Concurrency. Two simultaneous rating updates can lose one; the model runs one request at a time.
- The `('put' or 'delete')` permission quirk and other framework permission plumbing. The caller
  is a given `Actor` or primary key.
- Database ordering and annotations (newest first, by likes, by star) are inputs, not computed.
- Reactions.ToggleReviewLike: a row that `get_or_create` makes is taken to start at code 0. The
  reaction model's default is not part of this model. Only the answer to an unknown action
  depends on that default.
- The paginator classes. A page is the plain slice described above. The `paginated_reviews is
  None` 404 branch is not modelled separately: under this assumption a page that does not exist
  is the page error.
- Request fields that are missing where the code calls a method on them (a `None` passed to
  `re.match`, `len`, or `-`) raise a `TypeError`. The model takes these fields as present.
- Patterns.PasswordOk: `\d` in the password pattern matches every Unicode decimal digit. The model
  takes it as the ASCII digits.
- Several verification rows for one email would make `EmailVerification.objects.get` raise. The
  model keeps at most one code per email.
- The keyword filter of game search. The search result is an input.
- The password pattern appears three times (accounts/views.py:39, users/views.py:205 and 269);
  all three are the one predicate `Patterns.PasswordOk`.

## Findings

| source | as written | input that shows it | evidently intended | confidence | as-written member | corrected member |
|---|---|---|---|---|---|---|
| games/views.py:549-561 | The game's star and count are saved before the review serializer validates the payload | A first review with a valid star but a payload the serializer rejects: the game ends at star 4, count 1, with no review | Touch the game only after the review is accepted | high, not executed | Ratings.CreateRejectedStillCounts | Ratings.CreateReviewValidated |
| games/views.py:593-597 | Edit updates the game named by the request's `game_pk`, using the request's `pre_star` as the old star | Editing a review of game 0 while sending `game_pk` = 1 | Use the review's own game and its stored star | medium, not executed | Ratings.UpdateForeignGameBreaksMean | Ratings.UpdateReviewStored |
| games/views.py:618-625 | Delete updates the game named by the request's `game_pk` | Deleting the only review of game 0 while sending `game_pk` = 1, whose count is 0: game 1's count becomes -1 | Use the review's own game | medium, not executed | Ratings.DeleteForeignGameBreaksMean | Ratings.DeleteReviewStored |
| users/views.py:88-99 | `''.split(',')` is `['']`, so the `if categories:` test is always true and the else branch is dead | A profile edit by the owner that leaves out `game_category`: refused with 400 | An absent or empty field keeps the current categories | medium, not executed | Profiles.ProfileUpdateWithoutCategoriesRefused | Profiles.ProfileUpdateFixed |
