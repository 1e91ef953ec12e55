/** The like/dislike toggle on reviews.

    Each (user, review) pair has one `is_like` code: 0 for no reaction, 1 for a like and 2 for a
    dislike. Posting `like` or `dislike` switches to that reaction, or back to none when it is
    already the current one; any other action value leaves the code as it is. */
module Reactions {
  import opened Wrappers
  import Ratings

  datatype Reaction = NoReaction | Liked | Disliked

  /** The stored code of a reaction. */
  function Code(r: Reaction): int {
    match r
    case NoReaction => 0
    case Liked => 1
    case Disliked => 2
  }

  /** The reaction a stored code stands for; codes outside 0..2 stand for none. */
  function Decode(n: int): (r: Option<Reaction>)
    ensures r.Some? <==> 0 <= n <= 2
    ensures r.Some? ==> Code(r.value) == n
  {
    if n == 0 then Some(NoReaction) else if n == 1 then Some(Liked) else if n == 2 then Some(Disliked)
    else None
  }

  /** The reaction an action value asks for, if it is one of the two the handler knows. */
  function Requested(action: Option<string>): Option<Reaction> {
    if action == Some("like") then Some(Liked)
    else if action == Some("dislike") then Some(Disliked)
    else None
  }

  /** The reference state machine: asking for the current reaction clears it, asking for another
      one switches to it, and an unknown action changes nothing. */
  function Apply(state: Reaction, wanted: Option<Reaction>): Reaction {
    match wanted
    case None => state
    case Some(w) => if state == w then NoReaction else w
  }

  /** The handler's update of the stored code, compared against the literal codes 1 and 2. */
  function Toggle(isLike: int, action: Option<string>): (r: int)
    ensures Requested(action).None? ==> r == isLike
    ensures Requested(action).Some? ==> 0 <= r <= 2
    ensures Decode(isLike).Some? ==> Decode(r) == Some(Apply(Decode(isLike).value, Requested(action)))
  {
    if action == Some("like") then (if isLike != 1 then 1 else 0)
    else if action == Some("dislike") then (if isLike != 2 then 2 else 0)
    else isLike
  }

  /** A stored code in range stays in range. */
  lemma ToggleKeepsRange(isLike: int, action: Option<string>)
    requires 0 <= isLike <= 2
    ensures 0 <= Toggle(isLike, action) <= 2
  {
  }

  /** The same known action twice restores a code that was none or that action's reaction, and
      clears any other code. */
  lemma ToggleTwice(isLike: int, action: Option<string>)
    requires Requested(action).Some?
    ensures var target := Code(Requested(action).value);
            Toggle(Toggle(isLike, action), action) == if isLike == 0 || isLike == target then isLike else 0
  {
  }

  /** The same known action twice from no reaction leaves no reaction. */
  lemma ToggleTwiceFromNone(action: Option<string>)
    ensures Toggle(Toggle(0, action), action) == 0
  {
  }

  /** Reactions are stored per (user, review). */
  type LikeKey = (Ratings.UserId, nat)

  datatype LikeAnswer =
    | ReviewMissing                                        // 404: no visible review with that id
    | Recorded(isLike: int, likes: map<LikeKey, int>)      // 200 with the code now stored

  /** Posting `action` on review `reviewId`: the row is fetched or created with code 0, toggled and
      saved. */
  function ToggleReviewLike(likes: map<LikeKey, int>, reviews: seq<Ratings.Review>, user: Ratings.UserId,
                            reviewId: nat, action: Option<string>): (a: LikeAnswer)
    ensures !(reviewId < |reviews| && reviews[reviewId].visible) <==> a == ReviewMissing
    ensures a.Recorded? ==>
            && a.likes.Keys == likes.Keys + {(user, reviewId)}
            && a.likes[(user, reviewId)] == a.isLike
            && a.isLike == Toggle(if (user, reviewId) in likes then likes[(user, reviewId)] else 0, action)
            && forall k :: k in likes && k != (user, reviewId) ==> a.likes[k] == likes[k]
  {
    if !(reviewId < |reviews| && reviews[reviewId].visible) then ReviewMissing
    else
      var key := (user, reviewId);
      var current := if key in likes then likes[key] else 0;
      var next := Toggle(current, action);
      Recorded(next, likes[key := next])
  }

  /** Every stored code stays in 0..2 across a toggle. */
  lemma ToggleReviewLikeKeepsCodes(likes: map<LikeKey, int>, reviews: seq<Ratings.Review>,
                                   user: Ratings.UserId, reviewId: nat, action: Option<string>)
    requires forall k :: k in likes ==> 0 <= likes[k] <= 2
    ensures var a := ToggleReviewLike(likes, reviews, user, reviewId, action);
            a.Recorded? ==> forall k :: k in a.likes ==> 0 <= a.likes[k] <= 2
  {
    var a := ToggleReviewLike(likes, reviews, user, reviewId, action);
    if a.Recorded? {
      var key := (user, reviewId);
      ToggleKeepsRange(if key in likes then likes[key] else 0, action);
    }
  }
}
