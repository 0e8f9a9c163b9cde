/** The post router: create, getAll and getById (src/server/routers/post.ts). */
module PostRouter {
  import opened Types
  import opened PostSchema
  import opened Store
  import Rows
  import LikeRouter

  const DataImagePrefix: string := "data:image/"

  predicate StartsWith(s: string, prefix: string) {
    |prefix| <= |s| && s[..|prefix|] == prefix
  }

  /** The image column of a new post: the given image if it is a truthy data URI, else none. */
  function StoredImage(image: Option<string>): (r: Option<string>)
    ensures r.Some? <==> image.Some? && StartsWith(image.value, DataImagePrefix)
    ensures r.Some? ==> r == image && |r.value| >= |DataImagePrefix|
  {
    if Truthy(image) && StartsWith(image.value, DataImagePrefix) then image else None
  }

  /** The empty string is falsy, but it is not a data URI either: both guards agree on it. */
  lemma EmptyImageNotStored()
    ensures StoredImage(Some("")) == None && StoredImage(None) == None
  {
  }

  /**
   * create: the input is parsed first; a valid one becomes a new post by the
   * caller with the given text and the filtered image.
   */
  method Create(db: Db, caller: UserId, input: CreatePost) returns (r: Result<Post>)
    requires db.Valid()
    modifies db
    ensures db.Valid()
    ensures r.Err? <==> !HasTextOrImage(input)
    ensures r.Err? ==> r == Err(BadInput([Custom("content", EmptyPostMessage)])) && unchanged(db)
    ensures r.Ok? ==>
      && r.value == Post(old(db.nextPostId), caller, input.content, StoredImage(input.image), old(db.clock))
      && r.value.id !in old(db.posts)
      && db.posts == old(db.posts)[r.value.id := r.value]
    ensures unchanged(db`users, db`comments, db`likes, db`follows, db`notifications)
  {
    var parsed := Parse(input);
    if parsed.Err? {
      return Err(parsed.error);
    }
    var p := db.InsertPost(caller, input.content, StoredImage(input.image));
    r := Ok(p);
  }

  function Everything(p: Post): bool { true }

  /** getAll: every post, newest first. */
  function GetAll(posts: map<PostId, Post>, next: nat): (r: seq<Post>)
    ensures forall p :: p in r ==> p in posts.Values
  {
    Rows.NewestFirstRows(posts, next, Everything);
    Rows.NewestFirst(posts, next, Everything)
  }

  /** getAll lists each post once, and nothing else. */
  lemma GetAllExactly(posts: map<PostId, Post>, next: nat)
    requires PostsKeyed(posts, next)
    ensures forall p :: p in GetAll(posts, next) <==> p in posts.Values
    ensures |GetAll(posts, next)| == |posts|
  {
    Rows.NewestFirstRows(posts, next, Everything);
    forall p | p in posts.Values
      ensures p in GetAll(posts, next)
    {
      var k :| k in posts && posts[k] == p;
      assert Everything(posts[k]);
    }
    Rows.NewestFirstCount(posts, next, Everything);
    Rows.KeysBelowAll(posts, next, Everything);
    assert Rows.KeysBelow(posts, next, Everything) == posts.Keys;
  }

  /** getAll is strictly newest first. */
  lemma GetAllNewestFirst(posts: map<PostId, Post>, next: nat)
    requires PostsKeyed(posts, next)
    ensures var r := GetAll(posts, next);
      forall i, j :: 0 <= i < j < |r| ==> r[i].createdAt > r[j].createdAt
  {
    Rows.NewestFirstDescending(posts, next, Everything, PostStamp);
  }

  /** The author columns getById selects. */
  datatype UserSummary = UserSummary(id: UserId, name: string, image: Option<string>, email: string)

  function Summary(u: User): UserSummary {
    UserSummary(u.id, u.name, u.image, u.email)
  }

  /** The record getById answers; `user` is None only if the author row is missing. */
  datatype PostView = PostView(
    id: PostId,
    content: string,
    image: Option<string>,
    createdAt: nat,
    user: Option<UserSummary>,
    likes: nat,
    comments: nat,
    isLiked: bool,
    isFollowing: bool)

  /** `post.likes.some(like => like.userId === caller)`. */
  predicate IsLiked(likes: set<(UserId, PostId)>, caller: UserId, postId: PostId) {
    exists l :: l in LikeRouter.LikesOf(likes, postId) && l.0 == caller
  }

  /** `!!follow.findFirst({ followerId: caller, followingId: author })`. */
  predicate IsFollowing(follows: set<(UserId, UserId)>, caller: UserId, author: UserId) {
    exists e :: e in follows && e.0 == caller && e.1 == author
  }

  /** The number of comment rows of the post, replies included. */
  function CommentCount(comments: map<CommentId, Comment>, postId: PostId): nat {
    |set k | k in comments && comments[k].post == postId|
  }

  /** getById: the post with its author, counts and the caller's like and follow flags. */
  function GetById(db: Db, caller: UserId, postId: PostId): (r: Result<PostView>)
    reads db
    ensures r.Err? <==> postId !in db.posts
    ensures r.Err? ==> r.error == Thrown(PostNotFound)
    ensures r.Ok? ==>
      var p := db.posts[postId];
      && r.value.id == postId && r.value.content == p.content
      && r.value.image == p.image && r.value.createdAt == p.createdAt
      && (r.value.user.Some? <==> p.author in db.users)
      && (p.author in db.users ==> r.value.user == Some(Summary(db.users[p.author])))
      && r.value.likes == LikeRouter.LikesCount(db.likes, postId)
      && r.value.comments == CommentCount(db.comments, postId)
      && (r.value.isLiked <==> (caller, postId) in db.likes)
      && (r.value.isFollowing <==> (caller, p.author) in db.follows)
  {
    if postId !in db.posts then Err(Thrown(PostNotFound))
    else
      var p := db.posts[postId];
      IsLikedIff(db.likes, caller, postId);
      IsFollowingIff(db.follows, caller, p.author);
      Ok(PostView(
        postId, p.content, p.image, p.createdAt,
        if p.author in db.users then Some(Summary(db.users[p.author])) else None,
        LikeRouter.LikesCount(db.likes, postId),
        CommentCount(db.comments, postId),
        IsLiked(db.likes, caller, postId),
        IsFollowing(db.follows, caller, p.author)))
  }

  /** isLiked holds exactly when the caller's like row of that post exists. */
  lemma IsLikedIff(likes: set<(UserId, PostId)>, caller: UserId, postId: PostId)
    ensures IsLiked(likes, caller, postId) <==> (caller, postId) in likes
  {
    if (caller, postId) in likes {
      assert (caller, postId) in LikeRouter.LikesOf(likes, postId);
    }
  }

  /** isFollowing holds exactly when the edge caller -> author exists. */
  lemma IsFollowingIff(follows: set<(UserId, UserId)>, caller: UserId, author: UserId)
    ensures IsFollowing(follows, caller, author) <==> (caller, author) in follows
  {
    if (caller, author) in follows {
      assert (caller, author).0 == caller;
    }
  }

  /**
   * After a toggleLike that answered `liked`, getById's isLiked equals that
   * answer and its count moved by one in the same direction.
   */
  lemma GetByIdAfterToggle(likes: set<(UserId, PostId)>, caller: UserId, postId: PostId, liked: bool)
    requires liked <==> (caller, postId) !in likes
    ensures var after := if liked then likes + {(caller, postId)} else likes - {(caller, postId)};
      && (IsLiked(after, caller, postId) <==> liked)
      && LikeRouter.LikesCount(after, postId) == LikeRouter.LikesCount(likes, postId) + (if liked then 1 else -1)
  {
    var after := if liked then likes + {(caller, postId)} else likes - {(caller, postId)};
    IsLikedIff(after, caller, postId);
    if liked {
      LikeRouter.LikesCountAfterLike(likes, caller, postId, postId);
    } else {
      LikeRouter.LikesCountAfterUnlike(likes, caller, postId, postId);
    }
  }
}
