/**
  * The post list of the admin console (`PostsManager`): the search box and
  * the section dropdown narrow the loaded posts, and each post shows a
  * published or draft badge. Every post field the list reads may be absent
  * (`None`); the list reads an absent field and an empty one alike, as the
  * source's `||` does.
  */
module PostsManager {
  import opened Wrappers
  import opened JsStrings
  import opened Lists

  /** The fields of a post that the list filters on and displays. */
  datatype Post = Post(
    id: string, title: Option<string>, excerpt: Option<string>, description: Option<string>,
    section: Option<string>, chapter: Option<string>, status: Option<string>)

  /** The section value that keeps every section. */
  const AllSections: string := "all"

  function TitleOf(p: Post): string
  {
    Or(p.title, "")
  }

  /** The excerpt, falling back to the description. */
  function ExcerptOf(p: Post): string
  {
    Or(p.excerpt, Or(p.description, ""))
  }

  /** The section, falling back to the chapter, trimmed. */
  function SectionOf(p: Post): string
  {
    Trim(Or(p.section, Or(p.chapter, "")))
  }

  /** The lower-cased query occurs in the lower-cased title or excerpt. */
  predicate MatchesSearch(p: Post, searchQuery: string)
  {
    var lowerQuery := Lower(searchQuery);
    Contains(Lower(TitleOf(p)), lowerQuery) || Contains(Lower(ExcerptOf(p)), lowerQuery)
  }

  /** The section filter is `"all"`, or equals the post's section up to case. */
  predicate MatchesSection(p: Post, filterSection: string)
  {
    filterSection == AllSections || Lower(SectionOf(p)) == Lower(filterSection)
  }

  /** `filteredPosts`. */
  function FilteredPosts(posts: seq<Post>, searchQuery: string, filterSection: string): (r: seq<Post>)
    ensures IsSubsequence(r, posts)
    ensures forall p :: p in r <==> p in posts && MatchesSearch(p, searchQuery) && MatchesSection(p, filterSection)
    ensures forall p ::
      multiset(r)[p] == (if MatchesSearch(p, searchQuery) && MatchesSection(p, filterSection) then multiset(posts)[p] else 0)
  {
    Filter(posts, (p: Post) => MatchesSearch(p, searchQuery) && MatchesSection(p, filterSection))
  }

  /** With an empty search and every section, nothing is filtered out. */
  lemma NoFilterKeepsAll(posts: seq<Post>)
    ensures FilteredPosts(posts, "", AllSections) == posts
  {
    forall i | 0 <= i < |posts|
      ensures MatchesSearch(posts[i], "")
    {
      ContainsEmpty(Lower(TitleOf(posts[i])));
    }
    FilterKeepsAll(posts, (p: Post) => MatchesSearch(p, "") && MatchesSection(p, AllSections));
  }

  /** The list can be narrowed by search first and by section afterwards,
      with the same result. */
  lemma SearchThenSection(posts: seq<Post>, searchQuery: string, filterSection: string)
    ensures FilteredPosts(posts, searchQuery, filterSection)
      == Filter(Filter(posts, (p: Post) => MatchesSearch(p, searchQuery)),
                (p: Post) => MatchesSection(p, filterSection))
  {
    FilterConjunction(posts,
      (p: Post) => MatchesSearch(p, searchQuery) && MatchesSection(p, filterSection),
      (p: Post) => MatchesSearch(p, searchQuery),
      (p: Post) => MatchesSection(p, filterSection));
  }

  /** The search ignores the case of the query. */
  lemma SearchIgnoresQueryCase(p: Post, searchQuery: string)
    ensures MatchesSearch(p, Lower(searchQuery)) == MatchesSearch(p, searchQuery)
  {
    LowerIdempotent(searchQuery);
  }

  /** `post.status ?? "draft"`. */
  function DisplayedStatus(p: Post): (s: string)
    ensures p.status.None? ==> s == "draft"
    ensures p.status.Some? ==> s == p.status.value
  {
    p.status.GetOr("draft")
  }

  datatype Badge = PublishedBadge | DraftBadge

  /** The badge: "published" for the status `"published"` alone, draft for
      every other status and for a missing one. */
  function StatusBadge(p: Post): (b: Badge)
    ensures b == PublishedBadge <==> p.status == Some("published")
  {
    if DisplayedStatus(p) == "published" then PublishedBadge else DraftBadge
  }

  // ------------------------------------------------------------ the list

  /** The list's state: the loaded posts, the loading flag, whether the
      editor is shown and which post it edits (`None` creates a new one),
      and the two filter inputs. */
  class Manager {
    var posts: seq<Post>
    var isLoading: bool
    var showEditor: bool
    var editingPostId: Option<string>
    var searchQuery: string
    var filterSection: string

    /** The initial `useState` values, before the first load. */
    constructor()
      ensures posts == [] && isLoading && !showEditor && editingPostId == None
      ensures searchQuery == [] && filterSection == AllSections
    {
      posts := [];
      isLoading := true;
      showEditor := false;
      editingPostId := None;
      searchQuery := [];
      filterSection := AllSections;
    }

    /** `loadPosts`: `response` is the fetched list, or `None` when the
        request fails, which keeps the posts already shown. */
    method LoadPosts(response: Option<seq<Post>>)
      modifies this
      ensures posts == (if response.Some? then response.value else old(posts))
      ensures !isLoading
      ensures showEditor == old(showEditor) && editingPostId == old(editingPostId)
      ensures searchQuery == old(searchQuery) && filterSection == old(filterSection)
    {
      isLoading := true;
      if response.Some? {
        posts := response.value;
      }
      isLoading := false;
    }

    /** `handleEdit`: opens the editor on the post `id`. */
    method HandleEdit(id: string)
      modifies this
      ensures showEditor && editingPostId == Some(id)
      ensures posts == old(posts) && isLoading == old(isLoading)
      ensures searchQuery == old(searchQuery) && filterSection == old(filterSection)
    {
      editingPostId := Some(id);
      showEditor := true;
    }

    /** `handleCreate`: opens the editor on a new post. */
    method HandleCreate()
      modifies this
      ensures showEditor && editingPostId == None
      ensures posts == old(posts) && isLoading == old(isLoading)
      ensures searchQuery == old(searchQuery) && filterSection == old(filterSection)
    {
      editingPostId := None;
      showEditor := true;
    }

    /** The editor's `onCancel`: hides the editor and keeps the edited id. */
    method HandleCancel()
      modifies this
      ensures !showEditor
      ensures editingPostId == old(editingPostId) && posts == old(posts) && isLoading == old(isLoading)
      ensures searchQuery == old(searchQuery) && filterSection == old(filterSection)
    {
      showEditor := false;
    }

    /** `handleSave`, the editor's `onSave` after a successful save: closes
        the editor, forgets the edited id and reloads the posts. */
    method HandleSave(response: Option<seq<Post>>)
      modifies this
      ensures !showEditor && editingPostId == None
      ensures posts == (if response.Some? then response.value else old(posts)) && !isLoading
      ensures searchQuery == old(searchQuery) && filterSection == old(filterSection)
    {
      showEditor := false;
      editingPostId := None;
      LoadPosts(response);
    }
  }
}
