/** The member-profile router: searchGlobal, getById, updateProfile, getAllPostsByMember (src/server/routers/members.ts). */
module MemberRouter {
  import opened Types
  import opened Store
  import opened Text
  import Rows
  import PostRouter

  /** zod's string bounds, counted as JavaScript's `length` counts: in UTF-16 code units. */
  const MinQueryLength: nat := 2
  /** searchGlobal's `take`. */
  const SearchLimit: nat := 10
  const MinNameLength: nat := 2
  const MaxBioLength: nat := 300

  /** The user-search filter: name or email contains the query, ignoring case. */
  predicate MatchesQuery(u: User, query: string) {
    ContainsIgnoringCase(u.name, query) || ContainsIgnoringCase(u.email, query)
  }

  /** The ids of every user the filter accepts. */
  function MatchingIds(users: map<UserId, User>, query: string): set<UserId> {
    set id | id in users && MatchesQuery(users[id], query)
  }

  /**
   * searchGlobal: a query shorter than two characters is rejected; otherwise up
   * to ten matching users, each once. The store promises no order, so which ten
   * are returned when more match is left open.
   */
  method SearchGlobal(db: Db, query: string) returns (r: Result<seq<PostRouter.UserSummary>>)
    requires db.Valid()
    ensures r.Err? <==> Utf16Length(query) < MinQueryLength
    ensures r.Err? ==> r.error == BadInput([TooSmall("query", MinQueryLength)])
    ensures r.Ok? ==>
      && |r.value| <= SearchLimit
      && (forall i :: 0 <= i < |r.value| ==> Listed(db.users, query, r.value[i]))
      && (forall i, j :: 0 <= i < j < |r.value| ==> r.value[i].id != r.value[j].id)
      && |r.value| == if |MatchingIds(db.users, query)| < SearchLimit then |MatchingIds(db.users, query)| else SearchLimit
  {
    if Utf16Length(query) < MinQueryLength {
      return Err(BadInput([TooSmall("query", MinQueryLength)]));
    }
    var users := db.users;
    var ids := TakeAny(MatchingIds(users, query), SearchLimit);
    var found := seq(|ids|, i requires 0 <= i < |ids| && ids[i] in users => PostRouter.Summary(users[ids[i]]));
    forall i | 0 <= i < |ids|
      ensures found[i].id == ids[i] && Listed(users, query, found[i])
    {
      assert users[ids[i]].id == ids[i];
    }
    r := Ok(found);
  }

  /**
   * `take`: up to `limit` distinct keys of the set, in an order the store
   * chooses; as many as the limit allows.
   */
  method TakeAny<K>(from: set<K>, limit: nat) returns (picked: seq<K>)
    ensures |picked| == if |from| < limit then |from| else limit
    ensures forall i :: 0 <= i < |picked| ==> picked[i] in from
    ensures forall i, j :: 0 <= i < j < |picked| ==> picked[i] != picked[j]
  {
    picked := [];
    var taken: set<K> := {};
    while |picked| < limit && taken != from
      invariant taken <= from
      invariant |picked| == |taken| <= limit
      invariant forall i :: 0 <= i < |picked| ==> picked[i] in taken
      invariant forall i, j :: 0 <= i < j < |picked| ==> picked[i] != picked[j]
      decreases |from| - |taken|
    {
      StrictSubsetSize(taken, from);
      assert from - taken != {};
      var k :| k in from - taken;
      picked := picked + [k];
      taken := taken + {k};
    }
    SubsetSize(taken, from);
    if taken != from {
      StrictSubsetSize(taken, from);
    }
  }

  /** A search row: the summary of a user the filter accepts. */
  predicate Listed(users: map<UserId, User>, query: string, s: PostRouter.UserSummary) {
    s.id in users && MatchesQuery(users[s.id], query) && s == PostRouter.Summary(users[s.id])
  }

  lemma {:induction false} SubsetSize<T>(a: set<T>, b: set<T>)
    requires a <= b
    ensures |a| <= |b|
    decreases a
  {
    if a != {} {
      var x :| x in a;
      SubsetSize(a - {x}, b - {x});
    }
  }

  lemma StrictSubsetSize<T>(a: set<T>, b: set<T>)
    requires a <= b && a != b
    ensures |a| < |b|
  {
    assert b - a != {};
    var x :| x in b - a;
    SubsetSize(a, b - {x});
  }

  /** The counters of a profile; only posts and comments are computed. */
  datatype Stats = Stats(posts: nat, comments: nat, likes: nat, following: nat, followers: nat)

  datatype Profile = Profile(
    id: UserId,
    name: string,
    avatar: Option<string>,
    bio: Option<string>,
    location: Option<string>,
    stats: Stats,
    isOwnProfile: bool)

  function PostCount(posts: map<PostId, Post>, id: UserId): nat {
    |set k | k in posts && posts[k].author == id|
  }

  function CommentCountBy(comments: map<CommentId, Comment>, id: UserId): nat {
    |set k | k in comments && comments[k].author == id|
  }

  /** getById: null for an unknown id, otherwise the profile with its counters. */
  function GetById(db: Db, caller: UserId, id: UserId): (r: Option<Profile>)
    reads db
    ensures r.None? <==> id !in db.users
    ensures r.Some? ==>
      && r.value.id == id && r.value.name == db.users[id].name && r.value.avatar == db.users[id].image
      && r.value.bio == db.users[id].bio && r.value.location == db.users[id].location
      && (r.value.isOwnProfile <==> caller == id)
      && r.value.stats.posts == PostCount(db.posts, id)
      && r.value.stats.comments == CommentCountBy(db.comments, id)
      && r.value.stats.likes == 0 && r.value.stats.following == 0 && r.value.stats.followers == 0
  {
    if id !in db.users then None
    else
      var u := db.users[id];
      Some(Profile(id, u.name, u.image, u.bio, u.location,
        Stats(PostCount(db.posts, id), CommentCountBy(db.comments, id), 0, 0, 0),
        caller == id))
  }

  /** The input of updateProfile; an absent optional key is None. */
  datatype ProfileInput = ProfileInput(
    id: UserId,
    name: string,
    location: Option<string>,
    bio: Option<string>,
    image: Option<string>)

  /** The issues the input schema reports, in the order of its keys. */
  function ProfileIssues(input: ProfileInput): (issues: seq<Issue>)
    ensures issues == [] <==> Utf16Length(input.name) >= MinNameLength && (input.bio.None? || Utf16Length(input.bio.value) <= MaxBioLength)
    ensures |issues| <= 2
    ensures TooSmall("name", MinNameLength) in issues <==> Utf16Length(input.name) < MinNameLength
    ensures TooBig("bio", MaxBioLength) in issues <==> input.bio.Some? && Utf16Length(input.bio.value) > MaxBioLength
  {
    (if Utf16Length(input.name) < MinNameLength then [TooSmall("name", MinNameLength)] else [])
    + (if input.bio.Some? && Utf16Length(input.bio.value) > MaxBioLength then [TooBig("bio", MaxBioLength)] else [])
  }

  /**
   * A bio made only of characters outside the Basic Multilingual Plane (emoji,
   * say) is refused once it holds more than 150 of them, since each takes two
   * code units.
   */
  lemma WideBioLimit(input: ProfileInput)
    requires input.bio.Some? && forall i :: 0 <= i < |input.bio.value| ==> !InBasicPlane(input.bio.value[i])
    ensures TooBig("bio", MaxBioLength) in ProfileIssues(input) <==> |input.bio.value| > MaxBioLength / 2
  {
    assert Utf16Length(input.bio.value) == 2 * |input.bio.value|;
  }

  /**
   * updateProfile: the schema first, then the ownership check, then the update
   * of an existing row; only name and the given optional fields change.
   */
  method UpdateProfile(db: Db, caller: UserId, input: ProfileInput) returns (r: Result<User>)
    requires db.Valid()
    modifies db`users
    ensures db.Valid()
    ensures ProfileIssues(input) != [] ==> r == Err(BadInput(ProfileIssues(input)))
    ensures ProfileIssues(input) == [] && caller != input.id ==> r == Err(Thrown(NotAuthorized))
    ensures ProfileIssues(input) == [] && caller == input.id && input.id !in old(db.users) ==> r == Err(RecordNotFound)
    ensures r.Err? ==> db.users == old(db.users)
    ensures r.Ok? <==> ProfileIssues(input) == [] && caller == input.id && input.id in old(db.users)
    ensures r.Ok? ==>
      var before := old(db.users)[input.id];
      && db.users == old(db.users)[input.id := r.value]
      && r.value.id == before.id && r.value.email == before.email && r.value.name == input.name
      && r.value.location == (if input.location.Some? then input.location else before.location)
      && r.value.bio == (if input.bio.Some? then input.bio else before.bio)
      && r.value.image == (if input.image.Some? then input.image else before.image)
  {
    var issues := ProfileIssues(input);
    if issues != [] {
      return Err(BadInput(issues));
    }
    if caller != input.id {
      return Err(Thrown(NotAuthorized));
    }
    if input.id !in db.users {
      return Err(RecordNotFound);
    }
    db.UpdateUser(input.id, input.name, input.location, input.bio, input.image);
    r := Ok(db.users[input.id]);
  }

  function ByAuthor(id: UserId): Post -> bool {
    (p: Post) => p.author == id
  }

  /** getAllPostsByMember: the member's posts, newest first. */
  function GetAllPostsByMember(posts: map<PostId, Post>, next: nat, id: UserId): (r: seq<Post>)
    ensures forall p :: p in r ==> p in posts.Values && p.author == id
  {
    Rows.NewestFirstRows(posts, next, ByAuthor(id));
    Rows.NewestFirst(posts, next, ByAuthor(id))
  }

  /** The list holds exactly the member's posts, newest first, and as many as the profile counts. */
  lemma GetAllPostsByMemberExactly(posts: map<PostId, Post>, next: nat, id: UserId)
    requires PostsKeyed(posts, next)
    ensures var r := GetAllPostsByMember(posts, next, id);
      && (forall p :: p in r <==> p in posts.Values && p.author == id)
      && (forall i, j :: 0 <= i < j < |r| ==> r[i].createdAt > r[j].createdAt)
      && |r| == PostCount(posts, id)
  {
    Rows.NewestFirstRows(posts, next, ByAuthor(id));
    forall p | p in posts.Values && p.author == id
      ensures p in GetAllPostsByMember(posts, next, id)
    {
      var k :| k in posts && posts[k] == p;
      assert ByAuthor(id)(posts[k]);
    }
    Rows.NewestFirstDescending(posts, next, ByAuthor(id), PostStamp);
    Rows.NewestFirstCount(posts, next, ByAuthor(id));
    Rows.KeysBelowAll(posts, next, ByAuthor(id));
    assert Rows.KeysBelow(posts, next, ByAuthor(id)) == set k | k in posts && posts[k].author == id;
  }
}
