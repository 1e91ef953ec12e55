/** Listings that put the caller's own entries first.

    The review list of a game puts the caller's own review in front of all the others; on the
    first page that review is moved out into `my_review` and a `{}` filler takes its slot. The game
    search puts the caller's liked games in front of the others; on the first page a loop moves
    each of them into `favorite_games`, leaving a `{}` filler in front each time. Orderings computed
    by the database are inputs here. */
module GameLists {
  import opened Wrappers
  import opened Seqs
  import opened Paging

  type UserId = nat
  type GameId = nat

  // ---------------------------------------------------------------------------------------
  // ReviewAPIView.get

  /** A visible review of the listed game. */
  datatype ReviewRow = ReviewRow(id: nat, author: UserId)

  /** No review id occurs twice. */
  predicate DistinctIds(s: seq<ReviewRow>) {
    forall i, j :: 0 <= i < j < |s| ==> s[i].id != s[j].id
  }

  /** The caller's review, as `first()` finds it: the first of the game's visible reviews (in id
      order) written by the caller; none for an anonymous caller. */
  function MyReview(visible: seq<ReviewRow>, viewer: Option<UserId>): (r: Option<ReviewRow>)
    ensures r.Some? <==> viewer.Some? && exists i :: 0 <= i < |visible| && visible[i].author == viewer.value
    ensures r.Some? ==> exists i :: 0 <= i < |visible| && visible[i] == r.value
                                   && r.value.author == viewer.value
                                   && forall j :: 0 <= j < i ==> visible[j].author != viewer.value
  {
    if viewer.None? || |visible| == 0 then None
    else if visible[0].author == viewer.value then Some(visible[0])
    else
      var r := MyReview(visible[1..], viewer);
      assert r.Some? ==> exists i :: 0 <= i < |visible| && visible[i] == r.value by {
        if r.Some? {
          var i :| 0 <= i < |visible[1..]| && visible[1..][i] == r.value
                   && forall j :: 0 <= j < i ==> visible[1..][j].author != viewer.value;
          assert visible[i + 1] == r.value;
          assert forall j :: 0 <= j < i + 1 ==> visible[j].author != viewer.value by {
            forall j | 0 <= j < i + 1 ensures visible[j].author != viewer.value {
              if j > 0 {
                assert visible[j] == visible[1..][j - 1];
              }
            }
          }
        }
      }
      assert (exists i :: 0 <= i < |visible| && visible[i].author == viewer.value)
             ==> exists i :: 0 <= i < |visible[1..]| && visible[1..][i].author == viewer.value by {
        if exists i :: 0 <= i < |visible| && visible[i].author == viewer.value {
          var i :| 0 <= i < |visible| && visible[i].author == viewer.value;
          assert visible[1..][i - 1].author == viewer.value;
        }
      }
      r
  }

  /** The list handed to the paginator: the caller's review, then every other review in display
      order. */
  function ReviewOrder(ordered: seq<ReviewRow>, mine: Option<ReviewRow>): (all: seq<ReviewRow>)
    ensures mine.None? ==> all == ordered
    ensures mine.Some? ==> |all| >= 1 && all[0] == mine.value
    ensures mine.Some? ==> forall k :: 1 <= k < |all| ==> all[k].id != mine.value.id
    ensures mine.Some? ==> forall x :: x in all[1..] <==> x in ordered && x.id != mine.value.id
    ensures mine.Some? ==> Subsequence(all[1..], ordered)
  {
    match mine
    case None => ordered
    case Some(m) =>
      var rest := Filter(ordered, (x: ReviewRow) => x.id != m.id);
      assert forall k :: 1 <= k < |rest| + 1 ==> ([m] + rest)[k] == rest[k - 1] && rest[k - 1] in rest;
      assert ([m] + rest)[1..] == rest;
      [m] + rest
  }

  /** With distinct ids, keeping the entries with `x`'s id keeps `x` alone. */
  lemma {:induction false} OnlyOneWithId(s: seq<ReviewRow>, x: ReviewRow)
    requires DistinctIds(s) && x in s
    ensures Filter(s, (y: ReviewRow) => y.id == x.id) == [x]
  {
    var same := (y: ReviewRow) => y.id == x.id;
    var tail := s[1..];
    assert s == [s[0]] + tail;
    assert DistinctIds(tail);
    if s[0] == x {
      forall y | y in tail ensures !same(y) {
        var j :| 0 <= j < |tail| && tail[j] == y;
        assert s[j + 1] == y;
      }
      FilterNone(tail, same);
    } else {
      var j :| 0 <= j < |s| && s[j] == x;
      assert j != 0 && tail[j - 1] == x;
      assert !same(s[0]);
      OnlyOneWithId(tail, x);
    }
  }

  /** When the caller's review is one of the listed reviews and ids are distinct, pinning it
      reorders the list without losing or repeating any review. */
  lemma PinnedOrderIsPermutation(ordered: seq<ReviewRow>, m: ReviewRow)
    requires DistinctIds(ordered) && m in ordered
    ensures multiset(ReviewOrder(ordered, Some(m))) == multiset(ordered)
  {
    var keep := (y: ReviewRow) => y.id == m.id;
    var drop := (x: ReviewRow) => x.id != m.id;
    OnlyOneWithId(ordered, m);
    FilterSplit(ordered, keep, drop);
  }

  datatype ListError = PageNotFound | IndexOutOfRange | NoGames

  /** A response page: the filler-or-entry slots and the entries moved out of them. */
  datatype ReviewPage = ReviewPage(myReview: Option<ReviewRow>, slots: seq<Slot<ReviewRow>>)

  /** The review list for page `number`: `visible` is the game's visible reviews in id order,
      `ordered` the same reviews in the requested display order, `viewer` the caller if logged
      in. */
  function ReviewListing(visible: seq<ReviewRow>, ordered: seq<ReviewRow>, viewer: Option<UserId>,
                         number: nat, size: nat): (r: Result<ReviewPage, ListError>)
    requires size > 0
    ensures var all := ReviewOrder(ordered, MyReview(visible, viewer));
            r.Success? <==> Page(all, number, size).Success?
    ensures var mine := MyReview(visible, viewer);
            var all := ReviewOrder(ordered, mine);
            r.Success? && number == 1 && mine.Some? ==>
              && r.value.myReview == mine
              && |r.value.slots| == |Page(all, 1, size).value|
              && r.value.slots == [Placeholder] + Items(Page(all, 1, size).value[1..])
    ensures var mine := MyReview(visible, viewer);
            var all := ReviewOrder(ordered, mine);
            r.Success? && !(number == 1 && mine.Some?) ==>
              r.value == ReviewPage(None, Items(Page(all, number, size).value))
  {
    var mine := MyReview(visible, viewer);
    var all := ReviewOrder(ordered, mine);
    match Page(all, number, size)
    case Failure(_) => Failure(PageNotFound)
    case Success(page) =>
      if number == 1 && mine.Some? then
        assert |page| >= 1 && page[0] == all[0];
        var slots := Items(page);
        Success(ReviewPage(Some(slots[0].value), [Placeholder] + slots[1..]))
      else
        Success(ReviewPage(None, Items(page)))
  }

  /** The caller's review never shows up again past the first page. */
  lemma PinnedNotOnLaterPages(ordered: seq<ReviewRow>, m: ReviewRow, number: nat, size: nat)
    requires size > 0 && number >= 2
    ensures var page := Page(ReviewOrder(ordered, Some(m)), number, size);
            page.Success? ==> forall x :: x in page.value ==> x.id != m.id
  {
    var all := ReviewOrder(ordered, Some(m));
    var page := Page(all, number, size);
    if page.Success? {
      PageStartMonotonic(2, number, size);
      forall x | x in page.value ensures x.id != m.id {
        var k :| 0 <= k < |page.value| && page.value[k] == x;
        assert x == all[PageStart(number, size) + k];
      }
    }
  }

  // ---------------------------------------------------------------------------------------
  // game_list_search

  /** The result of moving the favourites out of the first page. */
  datatype Extraction<T> = Extraction(favorites: seq<T>, slots: seq<Slot<T>>)

  /** The first-page loop: for each `i` below `cnt`, pop the slot at `i` into the favourites and
      insert a filler at the front. Popping past the end of the page raises an index error. */
  method ExtractFavorites<T>(page: seq<T>, cnt: nat) returns (r: Result<Extraction<T>, ListError>)
    ensures r.Success? <==> cnt <= |page|
    ensures r.Failure? ==> r.error == IndexOutOfRange
    ensures r.Success? ==> r.value.favorites == page[..cnt]
    ensures r.Success? ==> r.value.slots == Placeholders(cnt) + Items(page[cnt..])
  {
    var slots := Items(page);
    var favorites: seq<T> := [];
    var i := 0;
    while i < cnt
      invariant 0 <= i <= cnt && i <= |page|
      invariant |slots| == |page|
      invariant favorites == page[..i]
      invariant forall k :: 0 <= k < i ==> slots[k] == Placeholder
      invariant forall k :: i <= k < |page| ==> slots[k] == Item(page[k])
    {
      if i >= |slots| {
        return Failure(IndexOutOfRange);
      }
      var popped := slots[i];
      slots := slots[..i] + slots[i + 1..];
      slots := [Placeholder] + slots;
      favorites := favorites + [popped.value];
      i := i + 1;
    }
    assert slots == Placeholders(cnt) + Items(page[cnt..]);
    return Success(Extraction(favorites, slots));
  }

  /** The caller's liked games among the search results, in result order; none when anonymous. */
  function Favorites(games: seq<GameId>, liked: set<GameId>, loggedIn: bool): (favs: seq<GameId>)
    ensures loggedIn ==> forall g :: g in favs <==> g in games && g in liked
    ensures !loggedIn ==> favs == []
    ensures Subsequence(favs, games)
  {
    if loggedIn then Filter(games, (g: GameId) => g in liked) else []
  }

  /** The list handed to the paginator: the favourites, then the results they were taken from. */
  function SearchOrder(games: seq<GameId>, liked: set<GameId>, loggedIn: bool): (all: seq<GameId>)
    ensures var favs := Favorites(games, liked, loggedIn);
            && |favs| <= |all| && all[..|favs|] == favs
            && (forall g :: g in all[|favs|..] <==> g in games && !(loggedIn && g in liked))
            && Subsequence(all[|favs|..], games)
  {
    var favs := Favorites(games, liked, loggedIn);
    if loggedIn && |favs| > 0 then
      var all := favs + Filter(games, (g: GameId) => g !in liked);
      assert all[|favs|..] == Filter(games, (g: GameId) => g !in liked);
      all
    else
      assert loggedIn ==> forall g :: g in games ==> g !in liked;
      assert favs + games == games;
      SubsequenceOfSelf(games);
      favs + games
  }

  /** Putting the favourites first only reorders the search results. */
  lemma SearchOrderIsPermutation(games: seq<GameId>, liked: set<GameId>, loggedIn: bool)
    ensures multiset(SearchOrder(games, liked, loggedIn)) == multiset(games)
  {
    var favs := Favorites(games, liked, loggedIn);
    if loggedIn && |favs| > 0 {
      var all := SearchOrder(games, liked, loggedIn);
      var rest := Filter(games, (g: GameId) => g !in liked);
      assert all == favs + rest;
      FilterSplit(games, (g: GameId) => g in liked, (g: GameId) => g !in liked);
    }
  }

  /** A search response page: the slots and, on the first page, the favourites moved out. */
  datatype SearchPage = SearchPage(favorites: Option<seq<GameId>>, slots: seq<Slot<GameId>>)

  /** The search listing for page `number`. `games` are the visible, approved games matching the
      keyword, newest first; `liked` the caller's liked games; `loggedIn` whether the caller is
      authenticated. */
  method SearchListing(games: seq<GameId>, liked: set<GameId>, loggedIn: bool, number: nat, size: nat)
    returns (r: Result<SearchPage, ListError>)
    requires size > 0
    ensures var all := SearchOrder(games, liked, loggedIn);
            && (r == Failure(NoGames) <==> all == [])
            && (all != [] && Page(all, number, size).Failure? ==> r == Failure(PageNotFound))
    ensures var all := SearchOrder(games, liked, loggedIn);
            var favs := Favorites(games, liked, loggedIn);
            all != [] && Page(all, number, size).Success? && !(number == 1 && |favs| > 0)
            ==> r == Success(SearchPage(None, Items(Page(all, number, size).value)))
    ensures var all := SearchOrder(games, liked, loggedIn);
            var favs := Favorites(games, liked, loggedIn);
            number == 1 && |favs| > 0 ==>
              && (r.Success? <==> |favs| <= size)
              && (r.Failure? ==> r.error == IndexOutOfRange)
              && (r.Success? ==>
                    && r.value.favorites == Some(favs)
                    && r.value.slots == Placeholders(|favs|) + Items(all[|favs|..Min(size, |all|)]))
  {
    var favs := Favorites(games, liked, loggedIn);
    var all := SearchOrder(games, liked, loggedIn);
    if all == [] {
      return Failure(NoGames);
    }
    var paged := Page(all, number, size);
    if paged.Failure? {
      return Failure(PageNotFound);
    }
    var page := paged.value;
    if number == 1 && |favs| > 0 {
      assert |page| == Min(size, |all|) && page == all[..Min(size, |all|)] by {
        PageIsWindow(all, 1, size);
      }
      var extracted := ExtractFavorites(page, |favs|);
      if extracted.Failure? {
        return Failure(extracted.error);
      }
      assert page[..|favs|] == favs;
      assert page[|favs|..] == all[|favs|..Min(size, |all|)];
      return Success(SearchPage(Some(extracted.value.favorites), extracted.value.slots));
    }
    return Success(SearchPage(None, Items(page)));
  }
}
