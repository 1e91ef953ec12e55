/** The game lists on a user's page: the "game pack" of up to four games and the list of games a
    maker has uploaded.

    The database orders rows before the handlers see them; those orders are inputs here: `byDate`
    is newest first and `byStar` is by star, then newest first. */
module UserPages {
  import opened Wrappers
  import opened Seqs
  import opened Paging
  import opened Accounts
  import opened Profiles

  /** The columns of a game row the lists look at. */
  datatype GameRow = GameRow(id: nat, visible: bool, registerState: int, categories: set<string>)

  /** A game anyone may see: not deleted and approved (`register_state == 1`). */
  predicate Listed(g: GameRow) {
    g.visible && g.registerState == 1
  }

  // ---------------------------------------------------------------------------------------
  // gamepacks

  /** The largest number of games in a pack. */
  const PackSize: nat := 4

  datatype PackError =
    | PackUserNotFound    // 404
    | NotYourPage         // 401: a pack is only shown to its owner
    | EmptyPack           // 404: no liked game and no game of an interest category

  /** The listed games the user liked, newest first. */
  function LikedListed(byDate: seq<GameRow>, likedIds: set<nat>): (r: seq<GameRow>)
    ensures forall g :: g in r <==> g in byDate && Listed(g) && g.id in likedIds
  {
    Filter(byDate, (g: GameRow) => Listed(g) && g.id in likedIds)
  }

  /** The listed games of an interest category that the user has not liked, once each, best
      rated first. */
  function Suggested(byStar: seq<GameRow>, likedIds: set<nat>, interests: set<string>): (r: seq<GameRow>)
    ensures forall g :: g in r <==> g in byStar && Listed(g) && g.categories * interests != {} && g.id !in likedIds
    ensures Distinct(r)
  {
    Dedup(Filter(byStar, (g: GameRow) => Listed(g) && g.categories * interests != {} && g.id !in likedIds))
  }

  /** The pack: the four newest liked games, topped up with suggestions while fewer than four. */
  function Pack(liked: seq<GameRow>, suggested: seq<GameRow>): (pack: seq<GameRow>)
    ensures |pack| == Min(PackSize, |liked| + |suggested|)
    ensures pack[..Min(PackSize, |liked|)] == liked[..Min(PackSize, |liked|)]
    ensures forall k :: Min(PackSize, |liked|) <= k < |pack| ==> pack[k] == suggested[k - Min(PackSize, |liked|)]
  {
    var top := liked[..Min(PackSize, |liked|)];
    if |top| < PackSize then top + suggested[..Min(PackSize - |top|, |suggested|)] else top
  }

  /** The game pack of user `pk` as its owner sees it. */
  function Gamepacks(users: seq<User>, pk: nat, requester: Option<nat>, byDate: seq<GameRow>,
                     byStar: seq<GameRow>, likedIds: set<nat>): (r: Result<seq<GameRow>, PackError>)
    ensures r == Failure(PackUserNotFound) <==> !Found(users, pk)
    ensures Found(users, pk) && requester != Some(pk) ==> r == Failure(NotYourPage)
    ensures Found(users, pk) && requester == Some(pk) ==>
            var liked := LikedListed(byDate, likedIds);
            var suggested := Suggested(byStar, likedIds, users[pk].categories);
            && (r == Failure(EmptyPack) <==> liked == [] && suggested == [])
            && (r.Success? ==> r.value == Pack(liked, suggested))
    ensures r.Success? ==> 1 <= |r.value| <= PackSize
  {
    if !Found(users, pk) then Failure(PackUserNotFound)
    else if requester != Some(pk) then Failure(NotYourPage)
    else
      var pack := Pack(LikedListed(byDate, likedIds), Suggested(byStar, likedIds, users[pk].categories));
      if pack == [] then Failure(EmptyPack) else Success(pack)
  }

  /** Every game in a pack is listed; the liked ones come first, and each game after them belongs
      to an interest category and is not liked. */
  lemma PackContents(liked: seq<GameRow>, suggested: seq<GameRow>, byDate: seq<GameRow>,
                     byStar: seq<GameRow>, likedIds: set<nat>, interests: set<string>)
    requires liked == LikedListed(byDate, likedIds) && suggested == Suggested(byStar, likedIds, interests)
    ensures var pack := Pack(liked, suggested);
            && (forall g :: g in pack ==> Listed(g))
            && (forall k :: 0 <= k < Min(PackSize, |liked|) ==> pack[k].id in likedIds)
            && (forall k :: Min(PackSize, |liked|) <= k < |pack| ==>
                  pack[k].id !in likedIds && pack[k].categories * interests != {})
  {
    var pack := Pack(liked, suggested);
    var n := Min(PackSize, |liked|);
    forall k | 0 <= k < |pack| ensures Listed(pack[k]) {
      if k < n {
        assert pack[k] == liked[k] && liked[k] in liked;
      } else {
        assert suggested[k - n] in suggested;
      }
    }
    forall k | 0 <= k < n ensures pack[k].id in likedIds {
      assert pack[k] == liked[k] && liked[k] in liked;
    }
    forall k | n <= k < |pack| ensures pack[k].id !in likedIds && pack[k].categories * interests != {} {
      assert suggested[k - n] in suggested;
    }
  }

  /** When the newest-first rows repeat no game, no game appears twice in a pack: the liked part
      repeats nothing, the suggestions repeat nothing, and no suggestion is liked. */
  lemma PackDistinct(byDate: seq<GameRow>, byStar: seq<GameRow>, likedIds: set<nat>, interests: set<string>)
    requires Distinct(byDate)
    ensures Distinct(Pack(LikedListed(byDate, likedIds), Suggested(byStar, likedIds, interests)))
  {
    var liked := LikedListed(byDate, likedIds);
    var suggested := Suggested(byStar, likedIds, interests);
    FilterDistinct(byDate, (g: GameRow) => Listed(g) && g.id in likedIds);
    var pack := Pack(liked, suggested);
    var n := Min(PackSize, |liked|);
    forall i, j | 0 <= i < j < |pack| ensures pack[i] != pack[j] {
      if j < n {
        assert pack[i] == liked[i] && pack[j] == liked[j];
      } else if i < n {
        assert pack[i] == liked[i] && liked[i] in liked;
        assert pack[j] == suggested[j - n] && suggested[j - n] in suggested;
      } else {
        assert pack[i] == suggested[i - n] && pack[j] == suggested[j - n];
      }
    }
  }

  /** Four liked games fill the pack on their own. */
  lemma PackOfFourLiked(liked: seq<GameRow>, suggested: seq<GameRow>)
    requires |liked| >= PackSize
    ensures Pack(liked, suggested) == liked[..PackSize]
  {
  }

  // ---------------------------------------------------------------------------------------
  // my_games

  datatype MyGamesError =
    | MakerNotFound       // 404
    | NoGames             // 404: the maker has no visible game at all
    | NoSuchPage          // 404 from the paginator

  /** The games of maker `pk` shown to `requester`, newest first: every visible one to the maker,
      only listed ones to anyone else. The emptiness test comes before the narrowing to listed
      games. `games` are the maker's own rows. */
  function MyGames(users: seq<User>, pk: nat, requester: Option<nat>, games: seq<GameRow>,
                   number: nat, size: nat): (r: Result<seq<GameRow>, MyGamesError>)
    requires size > 0
    ensures r == Failure(MakerNotFound) <==> !Found(users, pk)
    ensures r == Failure(NoGames) <==> Found(users, pk) && forall g :: g in games ==> !g.visible
    ensures r.Success? ==> forall g :: g in r.value ==> g in games && g.visible
    ensures r.Success? && requester != Some(pk) ==> forall g :: g in r.value ==> Listed(g)
    ensures requester == Some(pk) && Found(users, pk) && r != Failure(NoGames) ==>
            match Page(Filter(games, (g: GameRow) => g.visible), number, size)
            case Success(p) => r == Success(p)
            case Failure(_) => r == Failure(NoSuchPage)
    ensures requester != Some(pk) && Found(users, pk) && r != Failure(NoGames) ==>
            match Page(Filter(Filter(games, (g: GameRow) => g.visible), (g: GameRow) => g.registerState == 1), number, size)
            case Success(p) => r == Success(p)
            case Failure(_) => r == Failure(NoSuchPage)
  {
    if !Found(users, pk) then Failure(MakerNotFound)
    else
      var visible := Filter(games, (g: GameRow) => g.visible);
      if visible == [] then
        assert forall g :: g in games ==> !g.visible;
        Failure(NoGames)
      else
        assert visible[0] in visible;
        var shown := if requester != Some(pk) then Filter(visible, (g: GameRow) => g.registerState == 1) else visible;
        PageWithin(shown, number, size);
        match Page(shown, number, size)
        case Success(p) => Success(p)
        case Failure(_) => Failure(NoSuchPage)
  }

  /** A visitor to a maker whose visible games all await approval gets an empty first page, not
      the "no games" answer the owner would get for a maker without games. */
  lemma MyGamesVisitorSeesEmptyPage(users: seq<User>, pk: nat, visitor: Option<nat>, games: seq<GameRow>, size: nat)
    requires size > 0 && Found(users, pk) && visitor != Some(pk)
    requires exists g :: g in games && g.visible
    requires forall g :: g in games ==> !Listed(g)
    ensures MyGames(users, pk, visitor, games, 1, size) == Success([])
  {
    var visible := Filter(games, (g: GameRow) => g.visible);
    var shown := Filter(visible, (g: GameRow) => g.registerState == 1);
    FilterNone(visible, (g: GameRow) => g.registerState == 1);
    assert shown == [];
  }
}
