/**
  * The vote buttons of a news card (`NewsCard`): four pieces of component
  * state that the two click handlers update in place.
  */
module NewsCard {
  import opened Votes

  class Card {
    /** The `likes` the card was created with. */
    const initialLikes: int
    var isLiked: bool
    var isDisliked: bool
    var likeCount: int
    var dislikeCount: int

    function State(): VoteState
      reads this
    {
      VoteState(isLiked, isDisliked, likeCount, dislikeCount)
    }

    /** Never both buttons on, and each count is its starting value plus one
        exactly when its button is on. */
    predicate Valid()
      reads this
    {
      Exclusive(State()) && CountsFrom(State(), initialLikes, DislikeBase(initialLikes))
    }

    /** The initial `useState` values. */
    constructor(likes: int)
      ensures initialLikes == likes && State() == Neutral(likes)
      ensures Valid()
    {
      initialLikes := likes;
      isLiked := false;
      isDisliked := false;
      likeCount := likes;
      dislikeCount := DislikeBase(likes);
    }

    /** `handleLike`. */
    method HandleLike()
      requires Valid()
      modifies this
      ensures State() == Like(old(State()))
      ensures Valid()
    {
      if isLiked {
        likeCount := likeCount - 1;
        isLiked := false;
      } else {
        if isDisliked {
          dislikeCount := dislikeCount - 1;
          isDisliked := false;
        }
        likeCount := likeCount + 1;
        isLiked := true;
      }
    }

    /** `handleDislike`. */
    method HandleDislike()
      requires Valid()
      modifies this
      ensures State() == Dislike(old(State()))
      ensures Valid()
    {
      if isDisliked {
        dislikeCount := dislikeCount - 1;
        isDisliked := false;
      } else {
        if isLiked {
          likeCount := likeCount - 1;
          isLiked := false;
        }
        dislikeCount := dislikeCount + 1;
        isDisliked := true;
      }
    }
  }
}
