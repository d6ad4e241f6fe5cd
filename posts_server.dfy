/** The post routes of server/routes/posts.js over a store of post
    documents (server/models/Post.js): create with its input checks, the
    like toggle that edits a document's `likes` in place, and delete with
    its authorisation rule. Whether a string is a well-formed ObjectId is the
    parameter `validId`; the members collection is a map from id to name. */
module PostsServer {
  import opened Js
  import opened Seqs
  import opened Schema

  // ---------------------------------------------------------------------
  // The like toggle on values
  // ---------------------------------------------------------------------

  /** `likes.users` after a toggle by `member`: every occurrence removed,
      the others kept in order, when present; appended once at the end
      when absent. */
  function ToggledUsers(users: seq<string>, member: string): (r: seq<string>)
    ensures member in r <==> member !in users
    ensures forall u :: u != member ==> (u in r <==> u in users)
    ensures member !in users ==> r == users + [member]
    ensures member in users ==> r == RemoveAll(users, member)
  {
    if member in users then RemoveAll(users, member) else users + [member]
  }

  /** `likes.count` after a toggle: `Math.max(0, count - 1)` on an unlike,
      `(count || 0) + 1` on a like. */
  function ToggledCount(users: seq<string>, count: int, member: string): (r: int)
    ensures member in users ==> r >= 0 && r == (if count > 0 then count - 1 else 0)
    ensures member !in users ==> r == count + 1
  {
    if member in users then (if count - 1 > 0 then count - 1 else 0) else count + 1
  }

  /** A like followed by an unlike restores the list exactly, and the count
      whenever it was not negative. */
  lemma ToggleTwiceRestores(users: seq<string>, count: int, member: string)
    requires member !in users
    ensures ToggledUsers(ToggledUsers(users, member), member) == users
    ensures count >= 0 ==> ToggledCount(ToggledUsers(users, member), ToggledCount(users, count, member), member) == count
  {
    RemoveAllAppended(users, member);
  }

  /** A count that matches a duplicate-free list keeps matching it. */
  lemma ToggleKeepsCountConsistent(users: seq<string>, count: int, member: string)
    requires count == |users| && NoDuplicates(users)
    ensures ToggledCount(users, count, member) == |ToggledUsers(users, member)|
    ensures NoDuplicates(ToggledUsers(users, member))
  {
    if member in users {
      RemoveAllOnce(users, member);
    } else {
      AppendFresh(users, member);
    }
  }

  // ---------------------------------------------------------------------
  // Documents and the store
  // ---------------------------------------------------------------------

  /** A post document. `author` is `None` on a document saved without one. */
  class PostDocument {
    const content: string
    const author: Option<string>
    const authorName: string
    var likeUsers: seq<string>
    var likeCount: int

    constructor(content: string, author: Option<string>, authorName: string)
      ensures this.content == content && this.author == author && this.authorName == authorName
      ensures likeUsers == [] && likeCount == 0
    {
      this.content := content;
      this.author := author;
      this.authorName := authorName;
      likeUsers := [];
      likeCount := 0;
    }

    /** The body of `PUT /:id/like` once the post is found. */
    method ToggleLike(member: string)
      modifies this
      ensures likeUsers == ToggledUsers(old(likeUsers), member)
      ensures likeCount == ToggledCount(old(likeUsers), old(likeCount), member)
    {
      var already := member in likeUsers;
      if already {
        likeUsers := RemoveAll(likeUsers, member);
        likeCount := if likeCount - 1 > 0 then likeCount - 1 else 0;
      } else {
        likeUsers := likeUsers + [member];
        likeCount := likeCount + 1;
      }
    }
  }

  const ContentRequired: string := "Content is required"
  const AuthorRequired: string := "Author is required"
  const InvalidAuthorId: string := "Invalid author id"
  const AuthorNotFound: string := "Author not found"

  /** The input checks of `POST /` in order: the first failing one's
      message, or `None` when the post can be created. `None` for
      `content` or `author` is a missing field. */
  function CreateError(content: Option<string>, author: Option<string>, validId: string -> bool,
                       members: map<string, string>): (r: Option<string>)
    ensures r.None? <==>
      content.Some? && Trim(content.value) != "" && author.Some? && author.value != ""
      && validId(author.value) && author.value in members
    ensures r == Some(ContentRequired) <==> content.None? || Trim(content.value) == ""
    ensures r == Some(AuthorRequired) <==>
      content.Some? && Trim(content.value) != "" && (author.None? || author.value == "")
    ensures r == Some(InvalidAuthorId) <==>
      content.Some? && Trim(content.value) != "" && author.Some? && author.value != "" && !validId(author.value)
    ensures r == Some(AuthorNotFound) <==>
      content.Some? && Trim(content.value) != "" && author.Some? && author.value != ""
      && validId(author.value) && author.value !in members
  {
    if content.None? || Trim(content.value) == "" then Some(ContentRequired)
    else if author.None? || author.value == "" then Some(AuthorRequired)
    else if !validId(author.value) then Some(InvalidAuthorId)
    else if author.value !in members then Some(AuthorNotFound)
    else None
  }

  /** `DELETE /:id` refuses a request only when the post has an author, a
      non-empty `memberId` is given, and the two differ. */
  predicate MayDelete(author: Option<string>, memberId: Option<string>) {
    !(author.Some? && memberId.Some? && memberId.value != "" && author.value != memberId.value)
  }

  /** The author may always delete, and so may a request naming no one. */
  lemma MayDeleteCases(author: Option<string>, memberId: Option<string>)
    ensures memberId.None? || memberId == Some("") ==> MayDelete(author, memberId)
    ensures author.None? ==> MayDelete(author, memberId)
    ensures memberId.Some? && author == memberId ==> MayDelete(author, memberId)
    ensures author.Some? && memberId.Some? && memberId.value != "" && memberId != author ==> !MayDelete(author, memberId)
  {
  }

  /** The posts collection: id to document, each document under one id. */
  class PostStore {
    var posts: map<string, PostDocument>
    const members: map<string, string>
    const validId: string -> bool

    ghost predicate Valid()
      reads this
    {
      forall k1, k2 :: k1 in posts && k2 in posts && k1 != k2 ==> posts[k1] != posts[k2]
    }

    constructor(members: map<string, string>, validId: string -> bool)
      ensures posts == map[] && this.members == members && this.validId == validId && Valid()
    {
      posts := map[];
      this.members := members;
      this.validId := validId;
    }

    /** `POST /`: the checks of `CreateError`, then a new document with
        the trimmed content and the member's name, stored under `newId`
        (the id the database assigns). */
    method Create(content: Option<string>, author: Option<string>, newId: string) returns (r: Response<PostDocument>)
      requires Valid() && newId !in posts
      modifies this
      ensures Valid()
      ensures CreateError(content, author, validId, members).Some? ==>
        r == Fail(400, CreateError(content, author, validId, members).value) && posts == old(posts)
      ensures CreateError(content, author, validId, members).None? ==>
        r.Ok? && r.status == 201 && fresh(r.body) && posts == old(posts)[newId := r.body]
        && r.body.content == Trim(content.value) && r.body.author == author
        && r.body.authorName == members[author.value]
        && r.body.likeUsers == [] && r.body.likeCount == 0
    {
      var error := CreateError(content, author, validId, members);
      if error.Some? {
        return Fail(400, error.value);
      }
      var doc := new PostDocument(Trim(content.value), author, members[author.value]);
      posts := posts[newId := doc];
      r := Ok(201, doc);
    }

    /** `PUT /:id/like`: 400 on a malformed post or member id before any
        lookup, 404 on a missing post, else that post's likes toggled and
        every other post left as it was. */
    method ToggleLike(id: string, memberId: Option<string>) returns (r: Response<PostDocument>)
      requires Valid()
      modifies posts.Values
      ensures posts == old(posts)
      ensures !validId(id) ==> r == Fail(400, "Invalid post id")
      ensures validId(id) && (memberId.None? || !validId(memberId.value)) ==> r == Fail(400, "Invalid member id")
      ensures validId(id) && memberId.Some? && validId(memberId.value) && id !in posts ==> r == Fail(404, "Post not found")
      ensures r.Fail? ==> forall k :: k in posts ==> unchanged(posts[k])
      ensures r.Ok? <==> validId(id) && memberId.Some? && validId(memberId.value) && id in posts
      ensures r.Ok? ==>
        r.status == 200 && r.body == posts[id]
        && r.body.likeUsers == ToggledUsers(old(posts[id].likeUsers), memberId.value)
        && r.body.likeCount == ToggledCount(old(posts[id].likeUsers), old(posts[id].likeCount), memberId.value)
        && forall k :: k in posts && k != id ==> unchanged(posts[k])
    {
      if !validId(id) {
        return Fail(400, "Invalid post id");
      }
      if memberId.None? || !validId(memberId.value) {
        return Fail(400, "Invalid member id");
      }
      if id !in posts {
        return Fail(404, "Post not found");
      }
      var post := posts[id];
      post.ToggleLike(memberId.value);
      r := Ok(200, post);
    }

    /** `DELETE /:id`: 400 on a malformed id, 404 on a missing post, 403
        when `MayDelete` refuses, else the post is removed. */
    method Delete(id: string, memberId: Option<string>) returns (r: Response<()>)
      requires Valid()
      modifies this
      ensures Valid()
      ensures !validId(id) ==> r == Fail(400, "Invalid post id")
      ensures validId(id) && id !in old(posts) ==> r == Fail(404, "Post not found")
      ensures validId(id) && id in old(posts) && !MayDelete(old(posts)[id].author, memberId) ==>
        r == Fail(403, "Not authorized to delete")
      ensures r.Fail? ==> posts == old(posts)
      ensures r.Ok? <==> validId(id) && id in old(posts) && MayDelete(old(posts)[id].author, memberId)
      ensures r.Ok? ==> r.status == 200 && posts == old(posts) - {id}
    {
      if !validId(id) {
        return Fail(400, "Invalid post id");
      }
      if id !in posts {
        return Fail(404, "Post not found");
      }
      var post := posts[id];
      if post.author.Some? && memberId.Some? && memberId.value != "" {
        if post.author.value != memberId.value {
          return Fail(403, "Not authorized to delete");
        }
      }
      posts := posts - {id};
      r := Ok(200, ());
    }
  }
}
