/**
  * The post editor of the admin console (`PostEditor`): the tags input, and
  * the save handler that checks the required fields, uploads a newly picked
  * cover image, builds the record and creates or updates the post. The
  * rich-text editor is reduced to the text it serialises to; the clock, the
  * upload and the save request are parameters.
  */
module PostEditor {
  import opened Wrappers
  import opened JsStrings

  /** The status a save button passes. */
  datatype PostStatus = Draft | Published

  /** `Partial<Post>` as the editor holds it; `None` is an absent field. */
  datatype PostData = PostData(
    title: Option<string>, excerpt: Option<string>, content: string, section: Option<string>,
    category: Option<string>, author: Option<string>, tags: seq<string>, status: Option<PostStatus>,
    imageUrl: Option<string>, publishedAt: Option<string>, readTime: Option<string>)

  /** The post a new editor starts with. */
  const InitialPost: PostData :=
    PostData(Some(""), Some(""), "", Some("Бизнес и стартапы"), Some(""), Some("YoungWings"), [],
             Some(Draft), None, None, None)

  /** The read time used when the post has none. */
  const DefaultReadTime: string := "5 мин"

  /** A present, non-empty text: what `!field` rejects is absent or empty. */
  predicate Filled(field: Option<string>)
  {
    field.Some? && field.value != []
  }

  /** The required-field check of `handleSave`. */
  predicate CanSave(p: PostData)
  {
    Filled(p.title) && Filled(p.excerpt) && Filled(p.category)
  }

  // --------------------------------------------------------------- tags

  /** The tags input: split on commas and each piece trimmed, empty pieces
      kept. */
  function TagsFromInput(value: string): (tags: seq<string>)
    ensures |tags| == CountChar(value, ',') + 1
  {
    SplitCommaTrim(value)
  }

  /** The tags shown in the input (joined with ", ") read back as the same
      tags, when each is trimmed and comma-free. */
  lemma TagsRoundTrip(tags: seq<string>)
    requires |tags| >= 1
    requires forall i :: 0 <= i < |tags| ==> IsPlainItem(tags[i])
    ensures TagsFromInput(Join(tags, ", ")) == tags
  {
    SplitCommaTrimCommaSpaceJoin(tags);
  }

  /** Every tag is trimmed and comma-free, empty ones included. */
  lemma {:induction false} TagsArePlain(value: string, i: nat)
    requires i < |TagsFromInput(value)|
    ensures IsPlainItem(TagsFromInput(value)[i])
  {
    var piece := Split(value, ',')[i];
    SplitCommaTrimItem(value, i);
    TrimSpec(piece);
    if ',' in Trim(piece) {
      TrimKeepsOnlyItsChars(piece, ',');
    }
  }

  /** An emptied input gives one empty tag, not an empty list. */
  lemma EmptyInputGivesOneEmptyTag()
    ensures TagsFromInput("") == [""]
  {
    TrimSpec("");
  }

  // ------------------------------------------------------------- saving

  /** The record sent on save: the post with the image URL, the serialised
      content and the chosen status, a fresh publication time when
      publishing, and a default read time. */
  function SavePayload(p: PostData, imageUrl: Option<string>, contentString: string,
                       status: PostStatus, now: string): (r: PostData)
    ensures r.status == Some(status) && r.imageUrl == imageUrl && r.content == contentString
    ensures status == Published ==> r.publishedAt == Some(now)
    ensures status == Draft ==> r.publishedAt == p.publishedAt
    ensures Filled(r.readTime)
    ensures Filled(p.readTime) ==> r.readTime == p.readTime
    ensures !Filled(p.readTime) ==> r.readTime == Some(DefaultReadTime)
    ensures r.(imageUrl := p.imageUrl, content := p.content, status := p.status,
               publishedAt := p.publishedAt, readTime := p.readTime) == p
  {
    p.(imageUrl := imageUrl, content := contentString, status := Some(status),
       publishedAt := if status == Published then Some(now) else p.publishedAt,
       readTime := Some(Or(p.readTime, DefaultReadTime)))
  }

  /** Saving a saved record again with the same choices changes nothing. */
  lemma SavePayloadIdempotent(p: PostData, imageUrl: Option<string>, contentString: string,
                              status: PostStatus, now: string)
    ensures var r := SavePayload(p, imageUrl, contentString, status, now);
      SavePayload(r, imageUrl, contentString, status, now) == r
  {
  }

  /** The request `handleSave` sends. */
  datatype Request = Create(payload: PostData) | Update(id: string, payload: PostData)

  datatype SaveOutcome =
    | MissingRequired
    | UploadFailed
    | Sent(request: Request, succeeded: bool)

  // ---------------------------------------------------------- the editor

  class Editor {
    /** The `postId` prop: the post being edited, if any. */
    const postId: Option<string>
    var post: PostData
    var isLoading: bool
    /** Whether a new cover image has been picked (`imageFile`). */
    var imagePicked: bool
    /** The cover image shown (`imagePreview`). */
    var imagePreview: string

    constructor(postId: Option<string>)
      ensures this.postId == postId && post == InitialPost && !isLoading && !imagePicked
      ensures imagePreview == []
    {
      this.postId := postId;
      post := InitialPost;
      isLoading := false;
      imagePicked := false;
      imagePreview := [];
    }

    /** `loadPost`, run on mount when `postId` is a non-empty id: `response`
        is the fetched post, or `None` when the request fails, which keeps
        the state. A fetched post replaces the edited one, and its image URL,
        when non-empty, becomes the preview. */
    method LoadPost(response: Option<PostData>)
      modifies this
      ensures Filled(postId) && response.Some? ==> post == response.value
      ensures Filled(postId) && response.Some? && Filled(response.value.imageUrl) ==>
        imagePreview == response.value.imageUrl.value
      ensures !(Filled(postId) && response.Some? && Filled(response.value.imageUrl)) ==>
        imagePreview == old(imagePreview)
      ensures !(Filled(postId) && response.Some?) ==> post == old(post)
      ensures isLoading == old(isLoading) && imagePicked == old(imagePicked)
    {
      if Filled(postId) && response.Some? {
        var data := response.value;
        post := data;
        if Filled(data.imageUrl) {
          imagePreview := data.imageUrl.value;
        }
      }
    }

    /** The tags input's `onChange`. */
    method HandleTagsChange(value: string)
      modifies this
      ensures post == old(post).(tags := TagsFromInput(value))
      ensures isLoading == old(isLoading) && imagePicked == old(imagePicked)
      ensures imagePreview == old(imagePreview)
    {
      post := post.(tags := TagsFromInput(value));
    }

    /** `handleSave`. Nothing happens unless the title, excerpt and category
        are filled. Otherwise a picked image is uploaded first (`upload` is
        its URL, or `None` when the upload fails, which ends the save), then
        the record is built from `editorContent` (the serialised editor
        content, `None` without an editor) and the clock reading `now`, and
        the post is updated when a non-empty `postId` is given and created
        otherwise (an empty id is falsy, as for `if (postId)`). */
    method HandleSave(status: PostStatus, upload: Option<string>, editorContent: Option<string>,
                      now: string, saveSucceeds: bool) returns (outcome: SaveOutcome)
      modifies this
      ensures !CanSave(old(post)) ==> outcome == MissingRequired && isLoading == old(isLoading)
      ensures CanSave(old(post)) && imagePicked && upload.None? ==> outcome == UploadFailed
      ensures CanSave(old(post)) && !(imagePicked && upload.None?) ==>
        var imageUrl := if imagePicked then upload else old(post).imageUrl;
        var payload := SavePayload(old(post), imageUrl, editorContent.GetOr(""), status, now);
        outcome == Sent(if Filled(postId) then Update(postId.value, payload) else Create(payload), saveSucceeds)
      ensures CanSave(old(post)) ==> !isLoading
      ensures post == old(post) && imagePicked == old(imagePicked) && imagePreview == old(imagePreview)
    {
      if !CanSave(post) {
        return MissingRequired;
      }
      isLoading := true;
      var imageUrl := post.imageUrl;
      if imagePicked {
        if upload.None? {
          isLoading := false;
          return UploadFailed;
        }
        imageUrl := upload;
      }
      var contentString := editorContent.GetOr("");
      var payload := SavePayload(post, imageUrl, contentString, status, now);
      var request := if Filled(postId) then Update(postId.value, payload) else Create(payload);
      outcome := Sent(request, saveSucceeds);
      isLoading := false;
    }
  }
}
