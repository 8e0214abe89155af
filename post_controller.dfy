/** The input rules of the post API (backend/src/post.controller.ts): paging of the post
    list, the list filter, the checks and the `published` normalisation of post creation,
    the checks of post update, the "visible post" predicate and the soft delete. The
    database behind `PostService` is a map from post id to stored post. */
module PostController {
  import opened JsValues
  import opened SlugChars

  /** `POSTS_AMOUNT`: posts per page. */
  const PostsAmount: nat := 20

  /** A stored post. `slug` is `Null` when the post has no custom link. */
  datatype PostRecord = PostRecord(
    id: int, title: Value, content: Value, slug: Value,
    published: bool, archive: bool, authorId: int)

  /** A post counts as existing only when it was found, is published and is not archived. */
  predicate Visible(found: Option<PostRecord>) {
    found.Some? && found.value.published && !found.value.archive
  }

  /** The answer of a handler: a post, `{ ok: true }`, or the exception it throws. */
  datatype Response =
    | Found(post: PostRecord)
    | Done
    | BadRequest(message: string)
    | NotFound(message: string)

  // ---------------------------------------------------------------- getPosts

  /** `currentPage && !isNaN(+currentPage) ? +currentPage : 1`. */
  function PageOf(host: Host, currentPage: Value): (page: int)
    ensures Truthy(currentPage) && ToNumber(host, currentPage).Some? ==>
      page == ToNumber(host, currentPage).value
    ensures page != 1 ==> ToNumber(host, currentPage) == Some(page)
    ensures !Truthy(currentPage) || ToNumber(host, currentPage).None? ==> page == 1
  {
    if Truthy(currentPage) && ToNumber(host, currentPage).Some? then ToNumber(host, currentPage).value else 1
  }

  /** `(page - 1) * POSTS_AMOUNT`: how many posts come before the page. */
  function Offset(page: int): (skip: int)
    ensures skip % PostsAmount == 0
    ensures skip >= 0 <==> page >= 1
    ensures page == 1 ==> skip == 0
  {
    (page - 1) * PostsAmount
  }

  /** `Math.ceil(amount / POSTS_AMOUNT)`: the fewest pages that hold `amount` posts. */
  function PageCount(amount: nat): (pages: nat)
    ensures amount == 0 ==> pages == 0
    ensures amount > 0 ==> (pages - 1) * PostsAmount < amount <= pages * PostsAmount
  {
    (amount + PostsAmount - 1) / PostsAmount
  }

  lemma PageCountExamples()
    ensures PageCount(0) == 0 && PageCount(20) == 1 && PageCount(21) == 2
  {
  }

  /** A missing, empty or non-numeric `page` query gives the first page. */
  lemma MissingPageIsFirst(host: Host, currentPage: Value)
    requires currentPage == Undef || currentPage == Str("") || ToNumber(host, currentPage).None?
    ensures PageOf(host, currentPage) == 1 && Offset(PageOf(host, currentPage)) == 0
  {
  }

  /** The pages 1..PageCount(amount) split the `amount` matching posts into windows of
      `POSTS_AMOUNT`: every post position lies in the window of exactly one such page, and
      a page past the last one starts after every post. */
  lemma PagesCoverPositions(amount: nat, i: nat)
    requires i < amount
    ensures var page := i / PostsAmount + 1;
      1 <= page <= PageCount(amount)
      && Offset(page) <= i < Offset(page) + PostsAmount
      && forall q :: Offset(q) <= i < Offset(q) + PostsAmount ==> q == page
  {
    var page := i / PostsAmount + 1;
    var pages := PageCount(amount);
    assert page <= pages by {
      assert Offset(page) <= i < amount <= pages * PostsAmount;
    }
    forall q | Offset(q) <= i < Offset(q) + PostsAmount ensures q == page {
      assert (q - 1) * PostsAmount <= i < q * PostsAmount;
    }
  }

  lemma PastLastPageIsEmpty(amount: nat, page: int)
    requires page > PageCount(amount)
    ensures Offset(page) >= amount
  {
    var pages := PageCount(amount);
    assert page - 1 >= pages;
    assert Offset(page) >= pages * PostsAmount;
  }

  /** The `where` clause of the post list. */
  datatype PostFilter = PostFilter(authorId: Option<int>, published: bool, archive: bool)

  /** The list filter always asks for published, non-archived posts, and adds the author
      only when `+author` is a number. */
  function ListFilter(host: Host, author: Value): (f: PostFilter)
    ensures f.published && !f.archive
    ensures f.authorId.Some? <==> ToNumber(host, author).Some?
    ensures f.authorId.Some? ==> f.authorId.value == ToNumber(host, author).value
  {
    var n := ToNumber(host, author);
    if n.Some? then PostFilter(Some(n.value), true, false) else PostFilter(None, true, false)
  }

  predicate Matches(f: PostFilter, p: PostRecord) {
    p.published == f.published && p.archive == f.archive
    && (f.authorId.Some? ==> p.authorId == f.authorId.value)
  }

  /** The list shows only posts that the single-post handlers treat as existing. */
  lemma ListedPostsAreVisible(host: Host, author: Value, p: PostRecord)
    requires Matches(ListFilter(host, author), p)
    ensures Visible(Some(p))
  {
  }

  /** Conversely, every visible post is one the list without an author query selects:
      the list and the single-post handlers agree on which posts exist. */
  lemma VisiblePostsAreListed(host: Host, p: PostRecord)
    ensures Visible(Some(p)) <==> Matches(ListFilter(host, Undef), p)
  {
  }

  // ---------------------------------------------------------------- createPost

  /** The request body of `createPost`; `published` is normalised in place. */
  class CreatePostBody {
    var title: Value
    var content: Value
    var published: Value

    constructor (title: Value, content: Value, published: Value)
      ensures this.title == title && this.content == content && this.published == published
    {
      this.title := title;
      this.content := content;
      this.published := published;
    }
  }

  /** The first check of `createPost`: a title, a content, and a `published` that is a
      boolean or a non-empty string. */
  function CreateAccepts(title: Value, content: Value, published: Value): (ok: bool)
    ensures ok <==> (title !in {Undef, Null, Bool(false), Num(0), Str("")}
                     && content !in {Undef, Null, Bool(false), Num(0), Str("")}
                     && (published.Bool? || (published.Str? && published.s != "")))
  {
    !(!Truthy(title) || !Truthy(content)
      || !(published.Bool? || (published.Str? && Truthy(published))))
  }

  /** The rewrite of `published`: a boolean is kept, a string becomes `=== 'true'`, and
      anything else its truthiness. The result is always a boolean. */
  function NormalisedPublished(p: Value): (r: Value)
    ensures r.Bool?
    ensures p.Bool? ==> r == p
  {
    if p.Bool? then p
    else if p.Str? then Bool(p.s == "true")
    else Bool(Truthy(p))
  }

  /** After the check, `published` is true exactly for `true` and the string "true", so
      "false", "yes" and "TRUE" all store an unpublished post. */
  lemma NormalisedPublishedMeaning(title: Value, content: Value, p: Value)
    requires CreateAccepts(title, content, p)
    ensures NormalisedPublished(p) == Bool(p == Bool(true) || p == Str("true"))
  {
  }

  lemma NormalisationIdempotent(p: Value)
    ensures NormalisedPublished(NormalisedPublished(p)) == NormalisedPublished(p)
  {
  }

  /** What `createPost` hands to the post service, or the request it rejects. */
  datatype CreateResult =
    | CreateRejected(message: string)
    | CreateWith(title: Value, content: Value, published: bool, authorId: int)

  const CreateRequiredMessage := "Fields \"title\", \"content\" & \"published\" are required"

  /** `createPost` up to the service call: reject, or normalise `data.published` in place
      and build the post with the author's id. */
  method CreatePost(data: CreatePostBody, authorId: int) returns (r: CreateResult)
    modifies data
    ensures data.title == old(data.title) && data.content == old(data.content)
    ensures !CreateAccepts(old(data.title), old(data.content), old(data.published)) ==>
      r == CreateRejected(CreateRequiredMessage) && data.published == old(data.published)
    ensures CreateAccepts(old(data.title), old(data.content), old(data.published)) ==>
      data.published == NormalisedPublished(old(data.published))
      && r == CreateWith(data.title, data.content, data.published.b, authorId)
  {
    if !CreateAccepts(data.title, data.content, data.published) {
      return CreateRejected(CreateRequiredMessage);
    }
    if !data.published.Bool? {
      data.published := NormalisedPublished(data.published);
    }
    r := CreateWith(data.title, data.content, data.published.b, authorId);
  }

  // ---------------------------------------------------------------- getPost, getPostBySlug

  const InvalidIdMessage := "Invalid post id"

  /** `getPost` given what the service found for `id`: a zero id is a bad request. */
  function GetPost(id: int, found: Option<PostRecord>): (r: Response)
    ensures r.Found? <==> id != 0 && Visible(found)
    ensures r.Found? ==> r.post == found.value
    ensures id == 0 ==> r == BadRequest(InvalidIdMessage)
    ensures id != 0 && !Visible(found) ==> r == NotFound("Post with id " + IntToDecimal(id) + " not found")
  {
    if id != 0 then
      if !Visible(found) then NotFound("Post with id " + IntToDecimal(id) + " not found")
      else Found(found.value)
    else BadRequest(InvalidIdMessage)
  }

  /** `getPostBySlug` given what the service found for `slug`. */
  function GetPostBySlug(slug: string, found: Option<PostRecord>): (r: Response)
    ensures r.Found? <==> slug != "" && Visible(found)
    ensures r.Found? ==> r.post == found.value
    ensures slug == "" ==> r == BadRequest("Invalid slug")
    ensures slug != "" && !Visible(found) ==> r == NotFound("Post with slug " + slug + " not found")
  {
    if slug != "" then
      if !Visible(found) then NotFound("Post with slug " + slug + " not found")
      else Found(found.value)
    else BadRequest("Invalid slug")
  }

  // ---------------------------------------------------------------- updatePost

  const SlugCharsMessage :=
    "Custom link should only contain alpha-numeric characters or symbols \"-\" and \"_\""

  /** The checks of `updatePost`, in order: the id, then title and content, then the
      custom link's characters. `None` means the request passes them. */
  function UpdateCheck(id: int, title: Value, content: Value, slug: Value): (err: Option<string>)
    ensures err.None? <==>
      id > 0 && Truthy(title) && Truthy(content) && (!Truthy(slug) || MatchesSlugClass(Stringify(slug)))
    ensures id <= 0 ==> err == Some(InvalidIdMessage)
    ensures slug.Str? && slug.s != "" && id > 0 && Truthy(title) && Truthy(content) ==>
      (err.None? <==> forall i :: 0 <= i < |slug.s| ==> IsSlugChar(slug.s[i]))
  {
    if id == 0 || id < 0 then Some(InvalidIdMessage)
    else if !Truthy(title) || !Truthy(content) then Some("Fields \"title\" & \"content\" are required")
    else if Truthy(slug) && !MatchesSlugClass(Stringify(slug)) then Some(SlugCharsMessage)
    else None
  }

  /** The body of `updatePost` as the database sees it: a field the body leaves undefined
      (`None`, or `Undef` for the link) is not written. */
  datatype PostPatch = PostPatch(
    title: Value, content: Value, slug: Value,
    published: Option<bool>, archive: Option<bool>, authorId: Option<int>)

  /** `post.update({ where: { id }, data })` on the stored post `p`. */
  function Patched(p: PostRecord, d: PostPatch): (q: PostRecord)
    ensures q.id == p.id && q.title == d.title && q.content == d.content
    ensures q.slug == (if d.slug == Undef then p.slug else d.slug)
    ensures q.published == (if d.published.Some? then d.published.value else p.published)
    ensures q.archive == (if d.archive.Some? then d.archive.value else p.archive)
    ensures q.authorId == (if d.authorId.Some? then d.authorId.value else p.authorId)
  {
    PostRecord(p.id, d.title, d.content,
      if d.slug == Undef then p.slug else d.slug,
      if d.published.Some? then d.published.value else p.published,
      if d.archive.Some? then d.archive.value else p.archive,
      if d.authorId.Some? then d.authorId.value else p.authorId)
  }

  /** Sending the same update twice stores the same post as sending it once. */
  lemma PatchIdempotent(p: PostRecord, d: PostPatch)
    ensures Patched(Patched(p, d), d) == Patched(p, d)
  {
  }

  /** An update that writes back the stored post's own values leaves the post unchanged,
      and an update never changes the post's id. */
  lemma PatchWithStoredValues(p: PostRecord, d: PostPatch)
    requires d.title == p.title && d.content == p.content
    requires d.slug == Undef || d.slug == p.slug
    requires d.published.None? || d.published.value == p.published
    requires d.archive.None? || d.archive.value == p.archive
    requires d.authorId.None? || d.authorId.value == p.authorId
    ensures Patched(p, d) == p
  {
  }

  /** An update that sends neither `published` nor `archive` leaves a visible post
      visible; one that sends `archive: true` hides it like a delete. */
  lemma PatchVisibility(p: PostRecord, d: PostPatch)
    requires Visible(Some(p))
    ensures d.published.None? && d.archive.None? ==> Visible(Some(Patched(p, d)))
    ensures d.archive == Some(true) ==> !Visible(Some(Patched(p, d)))
  {
  }

  // ---------------------------------------------------------------- stored posts

  /** The posts table as the handlers see it through `PostService`. */
  class PostTable {
    var posts: map<int, PostRecord>

    /** Every stored post sits under its own id. */
    ghost predicate Valid()
      reads this
    {
      forall id :: id in posts ==> posts[id].id == id
    }

    constructor ()
      ensures Valid() && posts == map[]
    {
      posts := map[];
    }

    /** `postService.get({ id })`. */
    function Find(id: int): Option<PostRecord>
      reads this
    {
      if id in posts then Some(posts[id]) else None
    }

    /** `updatePost`: the checks, then the existence test, then the write of the body's
        fields into the stored post. */
    method UpdatePost(id: int, data: PostPatch) returns (r: Response)
      requires Valid()
      modifies this
      ensures Valid()
      ensures r.Found? ==> r.post.id == id && id in posts && posts[id] == r.post
      ensures UpdateCheck(id, data.title, data.content, data.slug).Some? ==>
        r == BadRequest(UpdateCheck(id, data.title, data.content, data.slug).value) && posts == old(posts)
      ensures UpdateCheck(id, data.title, data.content, data.slug).None? && !Visible(old(Find(id))) ==>
        r.NotFound? && posts == old(posts)
      ensures UpdateCheck(id, data.title, data.content, data.slug).None? && Visible(old(Find(id))) ==>
        r == Found(Patched(old(posts[id]), data)) && posts == old(posts)[id := Patched(old(posts[id]), data)]
    {
      var err := UpdateCheck(id, data.title, data.content, data.slug);
      if err.Some? {
        return BadRequest(err.value);
      }
      var found := Find(id);
      if !Visible(found) {
        return NotFound("Post with id " + IntToDecimal(id) + " does not exist");
      }
      var q := Patched(found.value, data);
      posts := posts[id := q];
      r := Found(q);
    }

    /** `deletePost`: a soft delete that only sets `archive` on an existing post. */
    method DeletePost(id: int) returns (r: Response)
      requires Valid()
      modifies this
      ensures Valid()
      ensures id <= 0 ==> r == BadRequest(InvalidIdMessage) && posts == old(posts)
      ensures id > 0 && !Visible(old(Find(id))) ==> r.NotFound? && posts == old(posts)
      ensures id > 0 && Visible(old(Find(id))) ==>
        r == Done && posts == old(posts)[id := old(posts[id]).(archive := true)]
      ensures posts.Keys == old(posts.Keys)
      ensures r == Done ==> !Visible(Find(id))
    {
      if id == 0 || id < 0 {
        return BadRequest(InvalidIdMessage);
      }
      var found := Find(id);
      if !Visible(found) {
        return NotFound("Post with id " + IntToDecimal(id) + " does not exist");
      }
      posts := posts[id := found.value.(archive := true)];
      r := Done;
    }
  }

  /** After a soft delete the post is still stored, but every handler treats it as
      missing and no list filter selects it. */
  lemma DeletedPostIsHidden(host: Host, author: Value, p: PostRecord)
    ensures !Visible(Some(p.(archive := true)))
    ensures GetPost(p.id, Some(p.(archive := true))).NotFound? || p.id == 0
    ensures !Matches(ListFilter(host, author), p.(archive := true))
  {
  }
}
