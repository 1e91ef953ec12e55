/** The running star average that the review handlers keep on each game.

    A game stores `star`, the mean of its visible reviews' stars, and `reviewCnt`, how many visible
    reviews it has. Creating, editing and deleting a review update both in constant time instead of
    recomputing the mean. Stars are exact reals here, so the invariant `star * reviewCnt == sum of
    the visible reviews' stars` can be stated without a floating-point tolerance.

    The handlers are modelled as written: the edit and delete handlers take the game to update
    from the request body (`game_pk`) and the edit handler takes the old star from it too
    (`pre_star`); the create and edit handlers save the game before the review payload is
    validated. Each of these breaks the invariant for some request, and each has a corrected
    counterpart below that keeps it for every request. */
module Ratings {

  type UserId = nat
  type GameId = nat

  /** The requesting user: its id and whether it has the staff flag. */
  datatype Actor = Actor(id: UserId, isStaff: bool)

  /** The rating fields of a game row. */
  datatype Game = Game(star: real, reviewCnt: int)

  /** A review row; deleting a review only hides it (`visible := false`). */
  datatype Review = Review(author: UserId, game: GameId, star: real, visible: bool)

  /** The rows the handlers touch. A review's id is its position in `reviews`. */
  datatype Store = Store(games: map<GameId, Game>, reviews: seq<Review>)

  datatype ReviewError =
    | GameNotFound     // 404 from the game lookup
    | ReviewNotFound   // 404: no visible review with that id
    | DuplicateReview  // 400: the author already has a visible review of the game
    | NotAuthor        // 400: neither the review's author nor staff
    | InvalidReview    // 400 raised by the review serializer's validation
    | DivisionByZero   // the running-mean formula divides by zero (an unhandled server error)

  datatype Outcome = Done | Failed(error: ReviewError)

  /** What a handler returns together with the rows as they are afterwards. */
  datatype Answer = Answer(outcome: Outcome, store: Store)

  // ---------------------------------------------------------------------------------------
  // The reference: sums and counts over the visible reviews

  /** `m` added up `n` times (subtracted for negative `n`): the star total of `n` reviews with
      mean `m`. Written as repeated addition so that facts about totals stay linear. */
  function Times(m: real, n: int): real
    decreases if n < 0 then -n else n
  {
    if n == 0 then 0.0 else if n > 0 then Times(m, n - 1) + m else Times(m, n + 1) - m
  }

  lemma {:induction false} TimesIsProduct(m: real, n: int)
    ensures Times(m, n) == m * n as real
    decreases if n < 0 then -n else n
  {
    if n > 0 {
      TimesIsProduct(m, n - 1);
    } else if n < 0 {
      TimesIsProduct(m, n + 1);
    }
  }

  /** The star total a game's stored mean and count stand for. */
  function Total(game: Game): real {
    Times(game.star, game.reviewCnt)
  }

  /** What review `r` adds to game `g`'s star sum. */
  function Contribution(r: Review, g: GameId): real {
    if r.visible && r.game == g then r.star else 0.0
  }

  /** The sum of the stars of the visible reviews of game `g`. */
  function StarSum(rs: seq<Review>, g: GameId): real {
    if |rs| == 0 then 0.0 else StarSum(rs[..|rs| - 1], g) + Contribution(rs[|rs| - 1], g)
  }

  /** How many visible reviews game `g` has. */
  function VisibleCount(rs: seq<Review>, g: GameId): nat {
    if |rs| == 0 then 0
    else VisibleCount(rs[..|rs| - 1], g) + (if rs[|rs| - 1].visible && rs[|rs| - 1].game == g then 1 else 0)
  }

  /** The game's stored fields agree with its visible reviews. */
  predicate MeanHolds(game: Game, rs: seq<Review>, g: GameId) {
    && game.reviewCnt == VisibleCount(rs, g)
    && Total(game) == StarSum(rs, g)
    && (game.reviewCnt == 0 ==> game.star == 0.0)
  }

  /** Every game's stored fields agree with its visible reviews. */
  predicate Consistent(st: Store) {
    forall g :: g in st.games ==> MeanHolds(st.games[g], st.reviews, g)
  }

  /** `u` has a visible review of game `g`. */
  predicate HasVisibleReview(rs: seq<Review>, g: GameId, u: UserId) {
    exists i :: 0 <= i < |rs| && rs[i].visible && rs[i].game == g && rs[i].author == u
  }

  /** No author has two visible reviews of the same game. */
  predicate OneReviewPerAuthor(rs: seq<Review>) {
    forall i, j :: 0 <= i < j < |rs| && rs[i].visible && rs[j].visible && rs[i].game == rs[j].game
      ==> rs[i].author != rs[j].author
  }

  /** The visible review `id` exists. */
  predicate VisibleReview(st: Store, id: nat) {
    id < |st.reviews| && st.reviews[id].visible
  }

  /** The author of a review, or staff, may edit or delete it. */
  predicate MayModify(actor: Actor, r: Review) {
    actor.id == r.author || actor.isStaff
  }

  // ---------------------------------------------------------------------------------------
  // Facts about the reference sums

  lemma {:induction false} SumsAppend(rs: seq<Review>, r: Review, g: GameId)
    ensures StarSum(rs + [r], g) == StarSum(rs, g) + Contribution(r, g)
    ensures VisibleCount(rs + [r], g) == VisibleCount(rs, g) + (if r.visible && r.game == g then 1 else 0)
  {
    assert (rs + [r])[..|rs|] == rs;
  }

  /** Replacing one review changes a game's sum and count by exactly that review's difference. */
  lemma {:induction false} SumsUpdate(rs: seq<Review>, i: nat, r: Review, g: GameId)
    requires i < |rs|
    ensures StarSum(rs[i := r], g) == StarSum(rs, g) - Contribution(rs[i], g) + Contribution(r, g)
    ensures VisibleCount(rs[i := r], g) as int
            == VisibleCount(rs, g) - (if rs[i].visible && rs[i].game == g then 1 else 0)
                                   + (if r.visible && r.game == g then 1 else 0)
  {
    var last := |rs| - 1;
    if i < last {
      SumsUpdate(rs[..last], i, r, g);
      assert rs[i := r][..last] == rs[..last][i := r];
    } else {
      assert rs[i := r][..last] == rs[..last];
    }
  }

  /** A game with a visible review has a positive visible count. */
  lemma VisibleCountPositive(rs: seq<Review>, i: nat)
    requires i < |rs| && rs[i].visible
    ensures VisibleCount(rs, rs[i].game) >= 1
  {
    SumsUpdate(rs, i, rs[i].(visible := false), rs[i].game);
  }

  /** A game with no visible reviews has a zero star sum. */
  lemma {:induction false} NoVisibleNoSum(rs: seq<Review>, g: GameId)
    requires VisibleCount(rs, g) == 0
    ensures StarSum(rs, g) == 0.0
  {
    if |rs| > 0 {
      NoVisibleNoSum(rs[..|rs| - 1], g);
    }
  }

  /** A game whose count and star total move by the same amounts as its visible reviews' count
      and star sum still agrees with them. */
  lemma MeanMoves(game: Game, game': Game, rs: seq<Review>, rs': seq<Review>, g: GameId,
                  dCount: int, dSum: real)
    requires MeanHolds(game, rs, g)
    requires game'.reviewCnt == game.reviewCnt + dCount
    requires VisibleCount(rs', g) == VisibleCount(rs, g) + dCount
    requires StarSum(rs', g) == StarSum(rs, g) + dSum
    requires Total(game') == Total(game) + dSum
    requires game'.reviewCnt == 0 ==> game'.star == 0.0
    ensures MeanHolds(game', rs', g)
  {
    assert game'.reviewCnt == VisibleCount(rs', g);
    assert Total(game') == StarSum(rs', g);
  }

  /** The incremental-mean step: adding `d / c` to a mean over `c` samples adds `d` to the total. */
  lemma MeanStep(m: real, d: real, c: int)
    requires c != 0
    ensures Times(m + d / c as real, c) == Times(m, c) + d
  {
    var r := c as real;
    var m' := m + d / r;
    TimesIsProduct(m', c);
    TimesIsProduct(m, c);
    RealMeanStep(m, d, r);
    assert Times(m', c) == m' * r;
  }

  lemma RealMeanStep(m: real, d: real, c: real)
    requires c != 0.0
    ensures (m + d / c) * c == m * c + d
  {
  }

  /** A change confined to game `g`'s row, with reviews whose sums only move for `g`, leaves every
      other game consistent; so the whole store is consistent once `g` is. */
  lemma OthersUnaffected(st: Store, st': Store, g: GameId)
    requires Consistent(st)
    requires st'.games.Keys == st.games.Keys
    requires forall h :: h in st.games && h != g ==> st'.games[h] == st.games[h]
    requires forall h :: h != g ==> StarSum(st'.reviews, h) == StarSum(st.reviews, h)
    requires forall h :: h != g ==> VisibleCount(st'.reviews, h) == VisibleCount(st.reviews, h)
    requires g in st.games ==> MeanHolds(st'.games[g], st'.reviews, g)
    ensures Consistent(st')
  {
    forall h | h in st'.games
      ensures MeanHolds(st'.games[h], st'.reviews, h)
    {
      if h != g {
        assert MeanHolds(st.games[h], st.reviews, h);
      }
    }
  }

  /** Appending a review leaves the sums of every other game alone. */
  lemma AppendOtherSums(rs: seq<Review>, r: Review)
    ensures forall h :: h != r.game ==> StarSum(rs + [r], h) == StarSum(rs, h)
    ensures forall h :: h != r.game ==> VisibleCount(rs + [r], h) == VisibleCount(rs, h)
  {
    forall h | h != r.game
      ensures StarSum(rs + [r], h) == StarSum(rs, h) && VisibleCount(rs + [r], h) == VisibleCount(rs, h)
    {
      SumsAppend(rs, r, h);
    }
  }

  /** Replacing a review by one of the same game leaves the sums of every other game alone. */
  lemma UpdateOtherSums(rs: seq<Review>, i: nat, r: Review)
    requires i < |rs| && rs[i].game == r.game
    ensures forall h :: h != r.game ==> StarSum(rs[i := r], h) == StarSum(rs, h)
    ensures forall h :: h != r.game ==> VisibleCount(rs[i := r], h) == VisibleCount(rs, h)
  {
    forall h | h != r.game
      ensures StarSum(rs[i := r], h) == StarSum(rs, h) && VisibleCount(rs[i := r], h) == VisibleCount(rs, h)
    {
      SumsUpdate(rs, i, r, h);
    }
  }

  // ---------------------------------------------------------------------------------------
  // ReviewAPIView.post, as written

  /** Posting a review of `gameId` with `star`; `valid` is the review serializer's verdict on the
      rest of the payload. The game's star and count are saved before that verdict. */
  function CreateReview(st: Store, gameId: GameId, actor: Actor, star: real, valid: bool): (a: Answer)
    ensures gameId !in st.games ==> a == Answer(Failed(GameNotFound), st)
    ensures gameId in st.games && HasVisibleReview(st.reviews, gameId, actor.id)
            ==> a == Answer(Failed(DuplicateReview), st)
    ensures gameId in st.games && !HasVisibleReview(st.reviews, gameId, actor.id)
            && st.games[gameId].reviewCnt == -1
            ==> a == Answer(Failed(DivisionByZero), st)
    ensures gameId in st.games && !HasVisibleReview(st.reviews, gameId, actor.id)
            && st.games[gameId].reviewCnt != -1 && !valid
            ==> a.outcome == Failed(InvalidReview)
    ensures a.outcome == Done <==>
            && gameId in st.games && !HasVisibleReview(st.reviews, gameId, actor.id)
            && st.games[gameId].reviewCnt != -1 && valid
    ensures a.outcome == Done ==> a.store.reviews == st.reviews + [Review(actor.id, gameId, star, true)]
    ensures a.outcome != Done ==> a.store.reviews == st.reviews
    ensures a.outcome.Failed? && a.outcome.error != InvalidReview ==> a.store == st
    ensures a.store.games.Keys == st.games.Keys
    ensures forall h :: h in st.games && h != gameId ==> a.store.games[h] == st.games[h]
    ensures a.outcome == Done || a.outcome == Failed(InvalidReview) ==>
            gameId in st.games &&
            var before, after := st.games[gameId], a.store.games[gameId];
            && after.reviewCnt == before.reviewCnt + 1
            && Total(after) == Total(before) + star
  {
    if gameId !in st.games then Answer(Failed(GameNotFound), st)
    else if HasVisibleReview(st.reviews, gameId, actor.id) then Answer(Failed(DuplicateReview), st)
    else
      var game := st.games[gameId];
      var cnt := game.reviewCnt + 1;
      if cnt == 0 then Answer(Failed(DivisionByZero), st)
      else
        var game' := Game(game.star + (star - game.star) / cnt as real, cnt);
        MeanStep(game.star, star - game.star, cnt);
        var saved := st.(games := st.games[gameId := game']);
        if valid then Answer(Done, saved.(reviews := st.reviews + [Review(actor.id, gameId, star, true)]))
        else Answer(Failed(InvalidReview), saved)
  }

  /** A successful create keeps every game consistent and keeps one review per author. */
  lemma CreateKeepsConsistency(st: Store, gameId: GameId, actor: Actor, star: real, valid: bool)
    requires Consistent(st) && OneReviewPerAuthor(st.reviews)
    requires CreateReview(st, gameId, actor, star, valid).outcome == Done
    ensures var a := CreateReview(st, gameId, actor, star, valid);
            Consistent(a.store) && OneReviewPerAuthor(a.store.reviews)
  {
    var a := CreateReview(st, gameId, actor, star, valid);
    var r := Review(actor.id, gameId, star, true);
    MeanAfterAppend(st.games[gameId], a.store.games[gameId], st.reviews, r);
    AppendOtherSums(st.reviews, r);
    OthersUnaffected(st, a.store, gameId);
    AppendKeepsOneReviewPerAuthor(st.reviews, r);
  }

  /** The game a new visible review belongs to, with its count up by one and its total up by the
      review's star, agrees with the longer review list. */
  lemma MeanAfterAppend(game: Game, game': Game, rs: seq<Review>, r: Review)
    requires MeanHolds(game, rs, r.game) && r.visible
    requires game'.reviewCnt == game.reviewCnt + 1
    requires Total(game') == Total(game) + r.star
    ensures MeanHolds(game', rs + [r], r.game)
  {
    SumsAppend(rs, r, r.game);
  }

  /** Appending a review by an author who has no visible review of that game keeps one review per
      author. */
  lemma AppendKeepsOneReviewPerAuthor(rs: seq<Review>, r: Review)
    requires OneReviewPerAuthor(rs) && !HasVisibleReview(rs, r.game, r.author)
    ensures OneReviewPerAuthor(rs + [r])
  {
    var rs' := rs + [r];
    forall i, j | 0 <= i < j < |rs'| && rs'[i].visible && rs'[j].visible && rs'[i].game == rs'[j].game
      ensures rs'[i].author != rs'[j].author
    {
      if j == |rs| {
        assert rs'[i] == rs[i];
      }
    }
  }

  /** Replacing a review by one with the same author and game that is visible only if the old one
      was keeps one review per author. */
  lemma UpdateKeepsOneReviewPerAuthor(rs: seq<Review>, i: nat, r: Review)
    requires i < |rs| && OneReviewPerAuthor(rs)
    requires r.author == rs[i].author && r.game == rs[i].game && (r.visible ==> rs[i].visible)
    ensures OneReviewPerAuthor(rs[i := r])
  {
    var rs' := rs[i := r];
    forall a, b | 0 <= a < b < |rs'| && rs'[a].visible && rs'[b].visible && rs'[a].game == rs'[b].game
      ensures rs'[a].author != rs'[b].author
    {
      assert rs[a].visible && rs[b].visible && rs[a].game == rs[b].game;
    }
  }

  /** Rows that differ from a consistent store only in review `i`'s star and in its game's star,
      moved so that the game's total changes by the same amount, are consistent. */
  lemma EditPreserves(st: Store, st': Store, i: nat, star: real)
    requires Consistent(st) && OneReviewPerAuthor(st.reviews) && VisibleReview(st, i)
    requires st'.reviews == st.reviews[i := st.reviews[i].(star := star)]
    requires st'.games.Keys == st.games.Keys
    requires forall h :: h in st.games && h != st.reviews[i].game ==> st'.games[h] == st.games[h]
    requires st.reviews[i].game in st.games ==>
             var before, after := st.games[st.reviews[i].game], st'.games[st.reviews[i].game];
             && after.reviewCnt == before.reviewCnt
             && Total(after) == Total(before) - st.reviews[i].star + star
    ensures Consistent(st') && OneReviewPerAuthor(st'.reviews)
  {
    var r := st.reviews[i].(star := star);
    var g := r.game;
    VisibleCountPositive(st.reviews, i);
    SumsUpdate(st.reviews, i, r, g);
    if g in st.games {
      MeanMoves(st.games[g], st'.games[g], st.reviews, st'.reviews, g, 0, star - st.reviews[i].star);
    }
    UpdateOtherSums(st.reviews, i, r);
    UpdateKeepsOneReviewPerAuthor(st.reviews, i, r);
    OthersUnaffected(st, st', g);
  }

  /** Rows that differ from a consistent store only in review `i` being hidden and in its game
      losing one review and that review's star are consistent. */
  lemma HidePreserves(st: Store, st': Store, i: nat)
    requires Consistent(st) && OneReviewPerAuthor(st.reviews) && VisibleReview(st, i)
    requires st'.reviews == st.reviews[i := st.reviews[i].(visible := false)]
    requires st'.games.Keys == st.games.Keys
    requires forall h :: h in st.games && h != st.reviews[i].game ==> st'.games[h] == st.games[h]
    requires st.reviews[i].game in st.games ==>
             var before, after, removed := st.games[st.reviews[i].game], st'.games[st.reviews[i].game], st.reviews[i].star;
             && after.reviewCnt == before.reviewCnt - 1
             && (before.reviewCnt > 1 ==>
                   Total(after) == Total(before) - removed)
             && (before.reviewCnt <= 1 ==> after.star == 0.0)
    ensures Consistent(st') && OneReviewPerAuthor(st'.reviews)
  {
    var r := st.reviews[i].(visible := false);
    var g := r.game;
    VisibleCountPositive(st.reviews, i);
    SumsUpdate(st.reviews, i, r, g);
    if g in st.games {
      if st.games[g].reviewCnt > 1 {
        MeanMoves(st.games[g], st'.games[g], st.reviews, st'.reviews, g, -1, -st.reviews[i].star);
      } else {
        NoVisibleNoSum(st'.reviews, g);
      }
    }
    UpdateOtherSums(st.reviews, i, r);
    UpdateKeepsOneReviewPerAuthor(st.reviews, i, r);
    OthersUnaffected(st, st', g);
  }

  /** The create handler as written: a review the serializer rejects still bumps the count and
      moves the mean, so the game no longer agrees with its reviews. */
  lemma CreateRejectedStillCounts()
    ensures var st := Store(map[0 := Game(0.0, 0)], []);
            var a := CreateReview(st, 0, Actor(1, false), 4.0, false);
            && Consistent(st) && a.outcome == Failed(InvalidReview)
            && a.store.games[0] == Game(4.0, 1) && !Consistent(a.store)
  {
    var st := Store(map[0 := Game(0.0, 0)], []);
    var a := CreateReview(st, 0, Actor(1, false), 4.0, false);
    assert !MeanHolds(a.store.games[0], a.store.reviews, 0);
  }

  /** The create handler with the payload validated before the game is touched. */
  function CreateReviewValidated(st: Store, gameId: GameId, actor: Actor, star: real, valid: bool): (a: Answer)
    ensures a.outcome.Failed? ==> a.store == st
    ensures gameId !in st.games ==> a.outcome == Failed(GameNotFound)
    ensures gameId in st.games && !HasVisibleReview(st.reviews, gameId, actor.id) && !valid
            ==> a.outcome == Failed(InvalidReview)
    ensures a.outcome == Done <==>
            && gameId in st.games && !HasVisibleReview(st.reviews, gameId, actor.id)
            && st.games[gameId].reviewCnt != -1 && valid
    ensures a.outcome == Done ==> a.store.reviews == st.reviews + [Review(actor.id, gameId, star, true)]
    ensures Consistent(st) && OneReviewPerAuthor(st.reviews) ==>
            Consistent(a.store) && OneReviewPerAuthor(a.store.reviews)
  {
    if gameId in st.games && !HasVisibleReview(st.reviews, gameId, actor.id) && !valid then
      Answer(Failed(InvalidReview), st)
    else
      var a := CreateReview(st, gameId, actor, star, valid);
      assert Consistent(st) && OneReviewPerAuthor(st.reviews) && a.outcome == Done
             ==> Consistent(a.store) && OneReviewPerAuthor(a.store.reviews) by {
        if Consistent(st) && OneReviewPerAuthor(st.reviews) && a.outcome == Done {
          CreateKeepsConsistency(st, gameId, actor, star, valid);
        }
      }
      a
  }

  // ---------------------------------------------------------------------------------------
  // ReviewDetailAPIView.put, as written

  /** Editing review `reviewId` to `star`. The game to update (`gamePk`) and the star being replaced
      (`preStar`) come from the request body; `valid` is the serializer's verdict, given after the
      game has been saved. */
  function UpdateReview(st: Store, reviewId: nat, actor: Actor, gamePk: GameId, star: real,
                        preStar: real, valid: bool): (a: Answer)
    ensures !VisibleReview(st, reviewId) ==> a == Answer(Failed(ReviewNotFound), st)
    ensures VisibleReview(st, reviewId) && !MayModify(actor, st.reviews[reviewId])
            ==> a == Answer(Failed(NotAuthor), st)
    ensures VisibleReview(st, reviewId) && MayModify(actor, st.reviews[reviewId]) && gamePk !in st.games
            ==> a == Answer(Failed(GameNotFound), st)
    ensures VisibleReview(st, reviewId) && MayModify(actor, st.reviews[reviewId])
            && gamePk in st.games && st.games[gamePk].reviewCnt == 0
            ==> a == Answer(Failed(DivisionByZero), st)
    ensures VisibleReview(st, reviewId) && MayModify(actor, st.reviews[reviewId])
            && gamePk in st.games && st.games[gamePk].reviewCnt != 0 && !valid
            ==> a.outcome == Failed(InvalidReview)
    ensures a.outcome == Done <==>
            && VisibleReview(st, reviewId) && MayModify(actor, st.reviews[reviewId])
            && gamePk in st.games && st.games[gamePk].reviewCnt != 0 && valid
    ensures a.outcome == Done ==>
            a.store.reviews == st.reviews[reviewId := st.reviews[reviewId].(star := star)]
    ensures a.outcome != Done ==> a.store.reviews == st.reviews
    ensures a.outcome.Failed? && a.outcome.error != InvalidReview ==> a.store == st
    ensures a.store.games.Keys == st.games.Keys
    ensures forall h :: h in st.games && h != gamePk ==> a.store.games[h] == st.games[h]
    ensures a.outcome == Done || a.outcome == Failed(InvalidReview) ==>
            gamePk in st.games &&
            var before, after := st.games[gamePk], a.store.games[gamePk];
            && after.reviewCnt == before.reviewCnt
            && Total(after)
               == Total(before) - preStar + star
  {
    if !VisibleReview(st, reviewId) then Answer(Failed(ReviewNotFound), st)
    else
      var review := st.reviews[reviewId];
      if !MayModify(actor, review) then Answer(Failed(NotAuthor), st)
      else if gamePk !in st.games then Answer(Failed(GameNotFound), st)
      else
        var game := st.games[gamePk];
        if game.reviewCnt == 0 then Answer(Failed(DivisionByZero), st)
        else
          var game' := game.(star := game.star + (star - preStar) / game.reviewCnt as real);
          MeanStep(game.star, star - preStar, game.reviewCnt);
          var saved := st.(games := st.games[gamePk := game']);
          if valid then Answer(Done, saved.(reviews := st.reviews[reviewId := review.(star := star)]))
          else Answer(Failed(InvalidReview), saved)
  }

  /** When the request names the review's own game and its current star, a successful edit keeps
      every game consistent. */
  lemma UpdateKeepsConsistency(st: Store, reviewId: nat, actor: Actor, gamePk: GameId, star: real,
                               preStar: real, valid: bool)
    requires Consistent(st) && OneReviewPerAuthor(st.reviews)
    requires VisibleReview(st, reviewId)
    requires gamePk == st.reviews[reviewId].game && preStar == st.reviews[reviewId].star
    requires UpdateReview(st, reviewId, actor, gamePk, star, preStar, valid).outcome == Done
    ensures var a := UpdateReview(st, reviewId, actor, gamePk, star, preStar, valid);
            Consistent(a.store) && OneReviewPerAuthor(a.store.reviews)
  {
    var a := UpdateReview(st, reviewId, actor, gamePk, star, preStar, valid);
    EditPreserves(st, a.store, reviewId, star);
  }

  /** The edit handler as written: naming another game in `game_pk` moves that game's mean and
      leaves the review's own game stale. */
  lemma UpdateForeignGameBreaksMean()
    ensures var st := Store(map[0 := Game(4.0, 1), 1 := Game(2.0, 1)],
                            [Review(7, 0, 4.0, true), Review(8, 1, 2.0, true)]);
            var a := UpdateReview(st, 0, Actor(7, false), 1, 5.0, 4.0, true);
            && Consistent(st) && a.outcome == Done && !Consistent(a.store)
  {
    var st := Store(map[0 := Game(4.0, 1), 1 := Game(2.0, 1)],
                    [Review(7, 0, 4.0, true), Review(8, 1, 2.0, true)]);
    var r0, r1 := Review(7, 0, 4.0, true), Review(8, 1, 2.0, true);
    SumsAppend([], r0, 0);
    SumsAppend([], r0, 1);
    assert [r0] + [r1] == st.reviews;
    SumsAppend([r0], r1, 0);
    SumsAppend([r0], r1, 1);
    assert MeanHolds(st.games[0], st.reviews, 0) && MeanHolds(st.games[1], st.reviews, 1);
    var a := UpdateReview(st, 0, Actor(7, false), 1, 5.0, 4.0, true);
    var r0' := r0.(star := 5.0);
    assert a.store.reviews == [r0'] + [r1];
    SumsAppend([], r0', 0);
    SumsAppend([r0'], r1, 0);
    assert a.store.games[0] == Game(4.0, 1);
    assert !MeanHolds(a.store.games[0], a.store.reviews, 0);
  }

  /** The edit handler updating the review's own game by the review's stored star, after the
      payload has been validated. */
  function UpdateReviewStored(st: Store, reviewId: nat, actor: Actor, star: real, valid: bool): (a: Answer)
    ensures a.outcome.Failed? ==> a.store == st
    ensures !VisibleReview(st, reviewId) ==> a.outcome == Failed(ReviewNotFound)
    ensures VisibleReview(st, reviewId) && !MayModify(actor, st.reviews[reviewId])
            ==> a.outcome == Failed(NotAuthor)
    ensures VisibleReview(st, reviewId) && MayModify(actor, st.reviews[reviewId]) && !valid
            ==> a.outcome == Failed(InvalidReview)
    ensures a.outcome == Done ==>
            a.store.reviews == st.reviews[reviewId := st.reviews[reviewId].(star := star)]
    ensures Consistent(st) && VisibleReview(st, reviewId) && MayModify(actor, st.reviews[reviewId])
            && st.reviews[reviewId].game in st.games && valid
            ==> a.outcome == Done
    ensures Consistent(st) && OneReviewPerAuthor(st.reviews) ==>
            Consistent(a.store) && OneReviewPerAuthor(a.store.reviews)
  {
    if !VisibleReview(st, reviewId) then Answer(Failed(ReviewNotFound), st)
    else
      var review := st.reviews[reviewId];
      if !MayModify(actor, review) then Answer(Failed(NotAuthor), st)
      else if !valid then Answer(Failed(InvalidReview), st)
      else
        var a := UpdateReview(st, reviewId, actor, review.game, star, review.star, true);
        assert Consistent(st) && review.game in st.games ==> a.outcome == Done by {
          if Consistent(st) && review.game in st.games {
            VisibleCountPositive(st.reviews, reviewId);
          }
        }
        assert Consistent(st) && OneReviewPerAuthor(st.reviews) && a.outcome == Done
               ==> Consistent(a.store) && OneReviewPerAuthor(a.store.reviews) by {
          if Consistent(st) && OneReviewPerAuthor(st.reviews) && a.outcome == Done {
            UpdateKeepsConsistency(st, reviewId, actor, review.game, star, review.star, true);
          }
        }
        a
  }

  // ---------------------------------------------------------------------------------------
  // ReviewDetailAPIView.delete, as written

  /** Deleting (hiding) review `reviewId`; the game to update (`gamePk`) comes from the request
      body, the star removed is the review's stored one. */
  function DeleteReview(st: Store, reviewId: nat, actor: Actor, gamePk: GameId): (a: Answer)
    ensures !VisibleReview(st, reviewId) ==> a == Answer(Failed(ReviewNotFound), st)
    ensures VisibleReview(st, reviewId) && !MayModify(actor, st.reviews[reviewId])
            ==> a == Answer(Failed(NotAuthor), st)
    ensures VisibleReview(st, reviewId) && MayModify(actor, st.reviews[reviewId]) && gamePk !in st.games
            ==> a == Answer(Failed(GameNotFound), st)
    ensures a.outcome == Done <==>
            VisibleReview(st, reviewId) && MayModify(actor, st.reviews[reviewId]) && gamePk in st.games
    ensures a.outcome.Failed? ==> a.store == st
    ensures a.outcome == Done ==>
            a.store.reviews == st.reviews[reviewId := st.reviews[reviewId].(visible := false)]
    ensures a.store.games.Keys == st.games.Keys
    ensures forall h :: h in st.games && h != gamePk ==> a.store.games[h] == st.games[h]
    ensures a.outcome == Done ==>
            gamePk in st.games &&
            var before, after, removed := st.games[gamePk], a.store.games[gamePk], st.reviews[reviewId].star;
            && after.reviewCnt == before.reviewCnt - 1
            && (before.reviewCnt > 1 ==>
                  Total(after) == Total(before) - removed)
            && (before.reviewCnt <= 1 ==> after.star == 0.0)
  {
    if !VisibleReview(st, reviewId) then Answer(Failed(ReviewNotFound), st)
    else
      var review := st.reviews[reviewId];
      if !MayModify(actor, review) then Answer(Failed(NotAuthor), st)
      else if gamePk !in st.games then Answer(Failed(GameNotFound), st)
      else
        var game := st.games[gamePk];
        var game' :=
          if game.reviewCnt > 1 then
            MeanStep(game.star, game.star - review.star, game.reviewCnt - 1);
            Game(game.star + (game.star - review.star) / (game.reviewCnt - 1) as real, game.reviewCnt - 1)
          else
            Game(0.0, game.reviewCnt - 1);
        Answer(Done, Store(st.games[gamePk := game'], st.reviews[reviewId := review.(visible := false)]))
  }

  /** When the request names the review's own game, a delete keeps every game consistent; deleting
      a game's last review resets it to no stars and no reviews. */
  lemma DeleteKeepsConsistency(st: Store, reviewId: nat, actor: Actor, gamePk: GameId)
    requires Consistent(st) && OneReviewPerAuthor(st.reviews)
    requires VisibleReview(st, reviewId) && gamePk == st.reviews[reviewId].game
    ensures var a := DeleteReview(st, reviewId, actor, gamePk);
            && Consistent(a.store) && OneReviewPerAuthor(a.store.reviews)
            && (a.outcome == Done && st.games[gamePk].reviewCnt == 1 ==> a.store.games[gamePk] == Game(0.0, 0))
  {
    var a := DeleteReview(st, reviewId, actor, gamePk);
    if a.outcome == Done {
      HidePreserves(st, a.store, reviewId);
    }
  }

  /** The delete handler as written: naming another game in `game_pk` removes the star from that
      game, drives its count below zero when it had no reviews, and leaves the review's own game
      counting a hidden review. */
  lemma DeleteForeignGameBreaksMean()
    ensures var st := Store(map[0 := Game(4.0, 1), 1 := Game(0.0, 0)], [Review(7, 0, 4.0, true)]);
            var a := DeleteReview(st, 0, Actor(7, false), 1);
            && Consistent(st) && a.outcome == Done
            && a.store.games[1].reviewCnt == -1 && !Consistent(a.store)
  {
    var st := Store(map[0 := Game(4.0, 1), 1 := Game(0.0, 0)], [Review(7, 0, 4.0, true)]);
    assert StarSum(st.reviews, 0) == 4.0 && VisibleCount(st.reviews, 0) == 1;
    assert StarSum(st.reviews, 1) == 0.0 && VisibleCount(st.reviews, 1) == 0;
    assert MeanHolds(st.games[0], st.reviews, 0) && MeanHolds(st.games[1], st.reviews, 1);
    var a := DeleteReview(st, 0, Actor(7, false), 1);
    assert VisibleCount(a.store.reviews, 1) == 0;
  }

  /** The delete handler updating the review's own game. */
  function DeleteReviewStored(st: Store, reviewId: nat, actor: Actor): (a: Answer)
    ensures a.outcome.Failed? ==> a.store == st
    ensures !VisibleReview(st, reviewId) ==> a.outcome == Failed(ReviewNotFound)
    ensures VisibleReview(st, reviewId) && !MayModify(actor, st.reviews[reviewId])
            ==> a.outcome == Failed(NotAuthor)
    ensures VisibleReview(st, reviewId) && MayModify(actor, st.reviews[reviewId])
            && st.reviews[reviewId].game !in st.games
            ==> a.outcome == Failed(GameNotFound)
    ensures a.outcome == Done ==>
            a.store.reviews == st.reviews[reviewId := st.reviews[reviewId].(visible := false)]
    ensures Consistent(st) && OneReviewPerAuthor(st.reviews) ==>
            Consistent(a.store) && OneReviewPerAuthor(a.store.reviews)
  {
    if !VisibleReview(st, reviewId) then Answer(Failed(ReviewNotFound), st)
    else
      var a := DeleteReview(st, reviewId, actor, st.reviews[reviewId].game);
      assert Consistent(st) && OneReviewPerAuthor(st.reviews)
             ==> Consistent(a.store) && OneReviewPerAuthor(a.store.reviews) by {
        if Consistent(st) && OneReviewPerAuthor(st.reviews) {
          DeleteKeepsConsistency(st, reviewId, actor, st.reviews[reviewId].game);
        }
      }
      a
  }

  /** In a consistent store a game's stored star is the exact mean of its visible reviews. */
  lemma ConsistentStarIsMean(st: Store, g: GameId)
    requires Consistent(st) && g in st.games && st.games[g].reviewCnt > 0
    ensures st.games[g].star == StarSum(st.reviews, g) / VisibleCount(st.reviews, g) as real
  {
    var game := st.games[g];
    assert MeanHolds(game, st.reviews, g);
    MeanFromTotal(game.star, game.reviewCnt, StarSum(st.reviews, g));
  }

  /** A mean whose total over `n > 0` samples is `s` is `s / n`. */
  lemma MeanFromTotal(m: real, n: int, s: real)
    requires n > 0 && Times(m, n) == s
    ensures m == s / n as real
  {
    TimesIsProduct(m, n);
    DivideProduct(m, n as real);
  }

  lemma DivideProduct(m: real, c: real)
    requires c != 0.0
    ensures (m * c) / c == m
  {
  }
}
