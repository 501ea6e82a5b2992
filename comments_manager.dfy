/**
  * The comment moderation list of the admin console (`CommentsManager`):
  * the search box and the status dropdown narrow the loaded comments, a
  * counter shows how many wait for moderation, and each comment shows a
  * status badge and the moderation buttons its status allows.
  */
module CommentsManager {
  import opened JsStrings
  import opened Lists

  /** The fields of a comment the list filters on and displays. */
  datatype Comment = Comment(
    id: string, postId: string, postTitle: string, author: string, content: string, status: string)

  /** The status value that keeps every status. */
  const AllStatuses: string := "all"

  /** The lower-cased query occurs in the lower-cased content, author or
      post title. */
  predicate MatchesSearch(c: Comment, searchQuery: string)
  {
    var lowerQuery := Lower(searchQuery);
    || Contains(Lower(c.content), lowerQuery)
    || Contains(Lower(c.author), lowerQuery)
    || Contains(Lower(c.postTitle), lowerQuery)
  }

  /** The status filter is `"all"`, or is exactly the comment's status. */
  predicate MatchesStatus(c: Comment, filterStatus: string)
  {
    filterStatus == AllStatuses || c.status == filterStatus
  }

  /** `filteredComments`. */
  function FilteredComments(comments: seq<Comment>, searchQuery: string, filterStatus: string): (r: seq<Comment>)
    ensures IsSubsequence(r, comments)
    ensures forall c :: c in r <==> c in comments && MatchesSearch(c, searchQuery) && MatchesStatus(c, filterStatus)
    ensures forall c ::
      multiset(r)[c] == (if MatchesSearch(c, searchQuery) && MatchesStatus(c, filterStatus) then multiset(comments)[c] else 0)
  {
    Filter(comments, (c: Comment) => MatchesSearch(c, searchQuery) && MatchesStatus(c, filterStatus))
  }

  /** With an empty search and every status, nothing is filtered out. */
  lemma NoFilterKeepsAll(comments: seq<Comment>)
    ensures FilteredComments(comments, "", AllStatuses) == comments
  {
    forall i | 0 <= i < |comments|
      ensures MatchesSearch(comments[i], "")
    {
      ContainsEmpty(Lower(comments[i].content));
    }
    FilterKeepsAll(comments, (c: Comment) => MatchesSearch(c, "") && MatchesStatus(c, AllStatuses));
  }

  /** The search ignores the case of the query. */
  lemma SearchIgnoresQueryCase(c: Comment, searchQuery: string)
    ensures MatchesSearch(c, Lower(searchQuery)) == MatchesSearch(c, searchQuery)
  {
    LowerIdempotent(searchQuery);
  }

  predicate IsPending(c: Comment)
  {
    c.status == "pending"
  }

  /** The "under moderation" counter: the pending comments among all the
      loaded ones, whatever the filters. */
  function PendingCount(comments: seq<Comment>): (n: nat)
    ensures n == CountWhere(comments, IsPending)
    ensures n <= |comments|
  {
    FilterLength(comments, IsPending);
    CountWhereAtMost(comments, IsPending);
    |Filter(comments, IsPending)|
  }

  /** The counter equals the length of the list filtered on `"pending"`
      with an empty search. */
  lemma PendingCountIsPendingFilter(comments: seq<Comment>)
    ensures PendingCount(comments) == |FilteredComments(comments, "", "pending")|
  {
    forall i | 0 <= i < |comments|
      ensures IsPending(comments[i]) == (MatchesSearch(comments[i], "") && MatchesStatus(comments[i], "pending"))
    {
      ContainsEmpty(Lower(comments[i].content));
    }
    FilterAgreeing(comments, IsPending,
      (c: Comment) => MatchesSearch(c, "") && MatchesStatus(c, "pending"));
  }

  datatype StatusBadge = ApprovedBadge | RejectedBadge | UnderModerationBadge

  /** `getStatusBadge`. */
  function GetStatusBadge(status: string): (b: StatusBadge)
    ensures b == ApprovedBadge <==> status == "approved"
    ensures b == RejectedBadge <==> status == "rejected"
    ensures b == UnderModerationBadge <==> status != "approved" && status != "rejected"
  {
    match status
    case "approved" => ApprovedBadge
    case "rejected" => RejectedBadge
    case _ => UnderModerationBadge
  }

  /** The buttons shown under a comment. */
  datatype Actions = Actions(approve: bool, reject: bool, delete: bool)

  /** Approve and reject for a pending comment; delete for every comment. */
  function OfferedActions(c: Comment): (a: Actions)
    ensures a.approve <==> IsPending(c)
    ensures a.reject <==> IsPending(c)
    ensures a.delete
  {
    var pending := IsPending(c);
    Actions(pending, pending, true)
  }

  /** A comment that can still be approved or rejected is shown as under
      moderation; an approved or rejected one offers only delete. */
  lemma ModerationButtonsMatchBadge(c: Comment)
    ensures OfferedActions(c).approve ==> GetStatusBadge(c.status) == UnderModerationBadge
    ensures GetStatusBadge(c.status) != UnderModerationBadge ==> OfferedActions(c) == Actions(false, false, true)
  {
  }
}
