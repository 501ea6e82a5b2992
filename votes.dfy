/**
  * The like/dislike toggle that the news card and the post page share: two
  * flags and two counters. Pressing a button that is on turns it off and
  * takes back its vote; pressing one that is off turns the other one off
  * first (taking back its vote) and then adds a vote of its own.
  */
module Votes {

  /** `isLiked`, `isDisliked`, `likeCount` and `dislikeCount`. */
  datatype VoteState = VoteState(liked: bool, disliked: bool, likeCount: int, dislikeCount: int)

  /** `Math.floor(likes * 0.1)`, the dislike count shown before any press,
      taken as whole-number division (the floor, for negative counts too). */
  function DislikeBase(likes: int): (d: int)
    ensures 10 * d <= likes < 10 * d + 10
  {
    likes / 10
  }

  /** Neither button pressed, counts from the post's likes. */
  function Neutral(likes: int): (v: VoteState)
    ensures !v.liked && !v.disliked
    ensures v.likeCount == likes && v.dislikeCount == DislikeBase(likes)
  {
    VoteState(false, false, likes, DislikeBase(likes))
  }

  /** The two buttons are never both on. */
  predicate Exclusive(v: VoteState)
  {
    !(v.liked && v.disliked)
  }

  /** Each count is its starting value plus one exactly when its button is on. */
  predicate CountsFrom(v: VoteState, likes0: int, dislikes0: int)
  {
    && v.likeCount == likes0 + (if v.liked then 1 else 0)
    && v.dislikeCount == dislikes0 + (if v.disliked then 1 else 0)
  }

  /** `handleLike`. */
  function Like(v: VoteState): (r: VoteState)
    ensures r.liked == !v.liked
    ensures v.liked ==> r.disliked == v.disliked
    ensures v.liked ==> r.likeCount == v.likeCount - 1 && r.dislikeCount == v.dislikeCount
    ensures !v.liked ==> !r.disliked && r.likeCount == v.likeCount + 1
    ensures !v.liked ==> r.dislikeCount == v.dislikeCount - (if v.disliked then 1 else 0)
  {
    if v.liked then
      v.(likeCount := v.likeCount - 1, liked := false)
    else
      var w := if v.disliked then v.(dislikeCount := v.dislikeCount - 1, disliked := false) else v;
      w.(likeCount := w.likeCount + 1, liked := true)
  }

  /** `handleDislike`, the mirror image of `handleLike`. */
  function Dislike(v: VoteState): (r: VoteState)
    ensures r.disliked == !v.disliked
    ensures v.disliked ==> r.liked == v.liked
    ensures v.disliked ==> r.dislikeCount == v.dislikeCount - 1 && r.likeCount == v.likeCount
    ensures !v.disliked ==> !r.liked && r.dislikeCount == v.dislikeCount + 1
    ensures !v.disliked ==> r.likeCount == v.likeCount - (if v.liked then 1 else 0)
  {
    if v.disliked then
      v.(dislikeCount := v.dislikeCount - 1, disliked := false)
    else
      var w := if v.liked then v.(likeCount := v.likeCount - 1, liked := false) else v;
      w.(dislikeCount := w.dislikeCount + 1, disliked := true)
  }

  /** The two buttons swap their roles when the flags and counts are swapped. */
  function Mirror(v: VoteState): VoteState
  {
    VoteState(v.disliked, v.liked, v.dislikeCount, v.likeCount)
  }

  /** Dislike is like seen in a mirror. */
  lemma DislikeMirrorsLike(v: VoteState)
    ensures Dislike(v) == Mirror(Like(Mirror(v)))
  {
  }

  /** A press keeps the buttons exclusive. */
  lemma PressesKeepExclusive(v: VoteState)
    requires Exclusive(v)
    ensures Exclusive(Like(v)) && Exclusive(Dislike(v))
  {
  }

  /** Both presses keep the counts tied to the flags, so no count ever drops
      below the value it started from. */
  lemma PressesKeepCounts(v: VoteState, likes0: int, dislikes0: int)
    requires Exclusive(v) && CountsFrom(v, likes0, dislikes0)
    ensures CountsFrom(Like(v), likes0, dislikes0) && CountsFrom(Dislike(v), likes0, dislikes0)
    ensures Like(v).likeCount >= likes0 && Like(v).dislikeCount >= dislikes0
    ensures Dislike(v).likeCount >= likes0 && Dislike(v).dislikeCount >= dislikes0
  {
  }

  /** A press on each button from a valid state, in any order and any
      number, keeps the counts tied to the flags. */
  lemma {:induction false} PressSequenceKeepsCounts(v: VoteState, presses: seq<bool>, likes0: int, dislikes0: int)
    requires Exclusive(v) && CountsFrom(v, likes0, dislikes0)
    ensures var r := Pressed(v, presses); Exclusive(r) && CountsFrom(r, likes0, dislikes0)
    decreases |presses|
  {
    if presses != [] {
      PressesKeepCounts(v, likes0, dislikes0);
      var next := if presses[0] then Like(v) else Dislike(v);
      PressSequenceKeepsCounts(next, presses[1..], likes0, dislikes0);
    }
  }

  /** The state after a sequence of presses: `true` is like, `false` dislike. */
  function Pressed(v: VoteState, presses: seq<bool>): VoteState
    decreases |presses|
  {
    if presses == [] then v
    else Pressed(if presses[0] then Like(v) else Dislike(v), presses[1..])
  }

  /** Pressing the same button twice from a neutral state restores it. */
  lemma PressTwiceRestores(v: VoteState)
    requires !v.liked && !v.disliked
    ensures Like(Like(v)) == v && Dislike(Dislike(v)) == v
  {
  }
}
