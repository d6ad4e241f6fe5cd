/** The client-side post list of client/src/context/PostsContext.jsx:
    `createPost`, `toggleLike` and `deletePost` each build a new list from
    the old one. `Date.now()` and `new Date()` are the parameters `now` and
    `createdAt`. */
module PostsClient {
  import opened Seqs

  /** A post as the context keeps it; `likes` is a plain counter. */
  datatype Post = Post(
    id: int,
    content: string,
    authorName: string,
    createdAt: int,
    likes: int,
    likedBy: seq<string>)

  /** `createPost`: the new post, and the list with it on top. */
  function CreatePost(posts: seq<Post>, content: string, authorName: string, now: int, createdAt: int): (r: (Post, seq<Post>))
    ensures r.0.id == now && r.0.content == content && r.0.authorName == authorName
    ensures r.0.likes == 0 && r.0.likedBy == []
    ensures |r.1| == |posts| + 1 && r.1[0] == r.0 && r.1[1..] == posts
  {
    var newPost := Post(now, content, authorName, createdAt, 0, []);
    (newPost, [newPost] + posts)
  }

  /** The post a toggle by `user` makes: unliked (count down, every
      occurrence removed) when `user` is in `likedBy`, liked otherwise. The
      count is not clamped. */
  function Toggled(post: Post, user: string): (r: Post)
    ensures r.id == post.id && r.content == post.content && r.authorName == post.authorName
    ensures r.createdAt == post.createdAt
    ensures user in r.likedBy <==> user !in post.likedBy
    ensures forall u :: u != user ==> (u in r.likedBy <==> u in post.likedBy)
    ensures user in post.likedBy ==> r.likes == post.likes - 1
    ensures user !in post.likedBy ==> r.likes == post.likes + 1 && r.likedBy == post.likedBy + [user]
  {
    var already := user in post.likedBy;
    post.(likes := if already then post.likes - 1 else post.likes + 1,
          likedBy := if already then RemoveAll(post.likedBy, user) else post.likedBy + [user])
  }

  /** `toggleLike`: the posts with id `postId` toggled, the others kept,
      length and order unchanged. */
  function ToggleLike(posts: seq<Post>, postId: int, user: string): (r: seq<Post>)
    ensures |r| == |posts|
    ensures forall i :: 0 <= i < |posts| && posts[i].id != postId ==> r[i] == posts[i]
    ensures forall i :: 0 <= i < |posts| && posts[i].id == postId ==> r[i] == Toggled(posts[i], user)
  {
    if posts == [] then []
    else [if posts[0].id == postId then Toggled(posts[0], user) else posts[0]] + ToggleLike(posts[1..], postId, user)
  }

  /** A like followed by an unlike restores the post exactly. */
  lemma ToggleTwice(post: Post, user: string)
    requires user !in post.likedBy
    ensures Toggled(Toggled(post, user), user) == post
  {
    RemoveAllAppended(post.likedBy, user);
  }

  /** A count that matches a duplicate-free `likedBy` keeps matching it. */
  lemma ToggleKeepsCountConsistent(post: Post, user: string)
    requires post.likes == |post.likedBy| && NoDuplicates(post.likedBy)
    ensures Toggled(post, user).likes == |Toggled(post, user).likedBy|
    ensures NoDuplicates(Toggled(post, user).likedBy)
  {
    if user in post.likedBy {
      RemoveAllOnce(post.likedBy, user);
    } else {
      AppendFresh(post.likedBy, user);
    }
  }

  /** Toggling twice restores the whole list when `user` had liked none of
      the posts with that id. */
  lemma ToggleLikeTwice(posts: seq<Post>, postId: int, user: string)
    requires forall i :: 0 <= i < |posts| && posts[i].id == postId ==> user !in posts[i].likedBy
    ensures ToggleLike(ToggleLike(posts, postId, user), postId, user) == posts
  {
    var once := ToggleLike(posts, postId, user);
    var twice := ToggleLike(once, postId, user);
    forall i | 0 <= i < |posts|
      ensures twice[i] == posts[i]
    {
      if posts[i].id == postId {
        ToggleTwice(posts[i], user);
      }
    }
  }

  /** `deletePost`: the posts whose id differs from `postId`, in order. */
  function DeletePost(posts: seq<Post>, postId: int): (r: seq<Post>)
    ensures forall p :: p in r <==> p in posts && p.id != postId
    ensures |r| <= |posts|
  {
    if posts == [] then []
    else if posts[0].id == postId then DeletePost(posts[1..], postId)
    else [posts[0]] + DeletePost(posts[1..], postId)
  }

  /** Deleting works on each part of a list separately, so the kept posts
      stay in their order. */
  lemma {:induction false} DeletePostAppend(a: seq<Post>, b: seq<Post>, postId: int)
    ensures DeletePost(a + b, postId) == DeletePost(a, postId) + DeletePost(b, postId)
  {
    if a == [] {
      assert a + b == b;
    } else {
      assert (a + b)[1..] == a[1..] + b;
      DeletePostAppend(a[1..], b, postId);
    }
  }

  /** Deleting an id no post has changes nothing. */
  lemma {:induction false} DeletePostAbsent(posts: seq<Post>, postId: int)
    requires forall i :: 0 <= i < |posts| ==> posts[i].id != postId
    ensures DeletePost(posts, postId) == posts
  {
    if posts != [] {
      DeletePostAbsent(posts[1..], postId);
    }
  }

  /** Deleting a post just created restores the list, when its id was new. */
  lemma DeleteUndoesCreate(posts: seq<Post>, content: string, authorName: string, now: int, createdAt: int)
    requires forall i :: 0 <= i < |posts| ==> posts[i].id != now
    ensures DeletePost(CreatePost(posts, content, authorName, now, createdAt).1, now) == posts
  {
    var created := CreatePost(posts, content, authorName, now, createdAt).1;
    assert created == [created[0]] + posts;
    DeletePostAppend([created[0]], posts, now);
    DeletePostAbsent(posts, now);
  }
}
