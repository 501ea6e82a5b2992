/**
  * The post page (`PostDetailPage`): the vote buttons, initialised from the
  * loaded post, and the comment box. Fetching the post is a parameter: the
  * post, or `None` when the request fails.
  */
module PostDetailPage {
  import opened Wrappers
  import opened JsStrings
  import opened Votes

  /** The part of a post the page's state depends on. */
  datatype Post = Post(id: string, title: string, likes: Option<int>)

  /** `data.likes || 0`: a missing like count (or zero) counts as zero. */
  function LikesOf(p: Post): (n: int)
    ensures p.likes.Some? ==> n == p.likes.value
    ensures p.likes.None? ==> n == 0
  {
    p.likes.GetOr(0)
  }

  class Page {
    var post: Option<Post>
    var isLoading: bool
    var isLiked: bool
    var isDisliked: bool
    var likeCount: int
    var dislikeCount: int
    var newComment: string

    function State(): VoteState
      reads this
    {
      VoteState(isLiked, isDisliked, likeCount, dislikeCount)
    }

    /** The initial `useState` values, before the first load. */
    constructor()
      ensures post == None && isLoading && newComment == []
      ensures State() == Neutral(0)
    {
      post := None;
      isLoading := true;
      isLiked := false;
      isDisliked := false;
      likeCount := 0;
      dislikeCount := 0;
      newComment := [];
    }

    /** `loadPost`: on success the post is stored and the counts are set from
        its likes; the flags are left as they are. Loading ends either way. */
    method LoadPost(fetched: Option<Post>)
      modifies this
      ensures !isLoading && newComment == old(newComment)
      ensures isLiked == old(isLiked) && isDisliked == old(isDisliked)
      ensures fetched.None? ==> post == old(post) && likeCount == old(likeCount) && dislikeCount == old(dislikeCount)
      ensures fetched.Some? ==> post == fetched
      ensures fetched.Some? ==> likeCount == LikesOf(fetched.value) && dislikeCount == DislikeBase(likeCount)
    {
      isLoading := true;
      if fetched.Some? {
        var data := fetched.value;
        post := Some(data);
        likeCount := LikesOf(data);
        dislikeCount := DislikeBase(LikesOf(data));
      }
      isLoading := false;
    }

    /** `handleLike`. */
    method HandleLike()
      modifies this
      ensures State() == Like(old(State()))
      ensures post == old(post) && isLoading == old(isLoading) && newComment == old(newComment)
    {
      if isLiked {
        likeCount := likeCount - 1;
        isLiked := false;
      } else {
        if isDisliked {
          dislikeCount := dislikeCount - 1;
          isDisliked := false;
        }
        likeCount := likeCount + 1;
        isLiked := true;
      }
    }

    /** `handleDislike`. */
    method HandleDislike()
      modifies this
      ensures State() == Dislike(old(State()))
      ensures post == old(post) && isLoading == old(isLoading) && newComment == old(newComment)
    {
      if isDisliked {
        dislikeCount := dislikeCount - 1;
        isDisliked := false;
      } else {
        if isLiked {
          likeCount := likeCount - 1;
          isLiked := false;
        }
        dislikeCount := dislikeCount + 1;
        isDisliked := true;
      }
    }

    /** Typing in the comment box. */
    method SetNewComment(text: string)
      modifies this
      ensures newComment == text && State() == old(State())
      ensures post == old(post) && isLoading == old(isLoading)
    {
      newComment := text;
    }

    /** `handleSubmitComment`: a blank comment is ignored, any other one is
        sent to moderation and the box is cleared. Returns whether it was
        accepted. */
    method HandleSubmitComment() returns (accepted: bool)
      modifies this
      ensures accepted <==> !AllWhitespace(old(newComment))
      ensures newComment == (if accepted then [] else old(newComment))
      ensures State() == old(State()) && post == old(post) && isLoading == old(isLoading)
    {
      TrimSpec(newComment);
      accepted := Trim(newComment) != [];
      if accepted {
        newComment := [];
      }
    }
  }

  /** A freshly mounted page that loads its post and then sees any presses
      keeps the counts tied to the flags, starting from the post's likes. */
  lemma LoadedPageKeepsCounts(p: Post, presses: seq<bool>)
    ensures var r := Pressed(Neutral(LikesOf(p)), presses);
      Exclusive(r) && CountsFrom(r, LikesOf(p), DislikeBase(LikesOf(p)))
  {
    PressSequenceKeepsCounts(Neutral(LikesOf(p)), presses, LikesOf(p), DislikeBase(LikesOf(p)));
  }
}
