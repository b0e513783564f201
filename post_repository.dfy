/** The post queries: the JPQL and derived queries of the post repository,
    written as functions over the post table (a map from id to post). */
module PostRepository {
  import opened Entities

  /** Every row is stored under its own id. */
  predicate KeyedById(posts: map<nat, Post>)
  {
    forall id :: id in posts ==> posts[id].id == id
  }

  /** `approved = true AND expiresAt > :now` */
  predicate IsVisible(p: Post, now: int)
  {
    p.approved && p.expiresAt > now
  }

  /** findVisiblePosts(now): the approved posts that have not expired. */
  function FindVisiblePosts(posts: map<nat, Post>, now: int): (r: set<Post>)
    ensures forall p :: p in r ==> p in posts.Values && p.approved && p.expiresAt > now
    ensures forall id :: id in posts && posts[id].approved && posts[id].expiresAt > now ==> posts[id] in r
  {
    set id | id in posts && IsVisible(posts[id], now) :: posts[id]
  }

  /** findByApprovedFalse(): the moderation queue. */
  function FindByApprovedFalse(posts: map<nat, Post>): (r: set<Post>)
    ensures forall p :: p in r ==> p in posts.Values && !p.approved
    ensures forall id :: id in posts && !posts[id].approved ==> posts[id] in r
  {
    set id | id in posts && !posts[id].approved :: posts[id]
  }

  /** findByExpiresAtBefore(before): the posts whose expiry is strictly earlier. */
  function FindByExpiresAtBefore(posts: map<nat, Post>, before: int): (r: set<Post>)
    ensures forall p :: p in r ==> p in posts.Values && p.expiresAt < before
    ensures forall id :: id in posts && posts[id].expiresAt < before ==> posts[id] in r
  {
    set id | id in posts && posts[id].expiresAt < before :: posts[id]
  }

  /** The comparison is strict: a post expiring exactly now is already hidden. */
  lemma ExpiringNowIsNotVisible(posts: map<nat, Post>, id: nat, now: int)
    requires id in posts && posts[id].expiresAt == now
    ensures posts[id] !in FindVisiblePosts(posts, now)
  {
  }

  /** The moderation queue and the public feed never share a post. */
  lemma PendingIsNotVisible(posts: map<nat, Post>, now: int)
    ensures FindByApprovedFalse(posts) !! FindVisiblePosts(posts, now)
  {
  }

  /** Nothing sweeps expired posts: the feed only shrinks as time passes. */
  lemma VisibleShrinksOverTime(posts: map<nat, Post>, earlier: int, later: int)
    requires earlier <= later
    ensures FindVisiblePosts(posts, later) <= FindVisiblePosts(posts, earlier)
  {
  }

  /** Every post is in the feed, in the moderation queue, or expired by now
      (expiresAt < now + 1, i.e. expiresAt <= now). */
  lemma EveryPostVisiblePendingOrExpired(posts: map<nat, Post>, id: nat, now: int)
    requires id in posts
    ensures posts[id] in FindVisiblePosts(posts, now)
         || posts[id] in FindByApprovedFalse(posts)
         || posts[id] in FindByExpiresAtBefore(posts, now + 1)
  {
  }

  /** `ORDER BY createdAt DESC`; rows with equal createdAt come out by ascending id. */
  predicate Precedes(a: Post, b: Post)
  {
    a.createdAt > b.createdAt || (a.createdAt == b.createdAt && a.id < b.id)
  }

  /** Non-increasing createdAt from head to tail. */
  predicate SortedByCreatedAtDesc(s: seq<Post>)
  {
    forall i, j :: 0 <= i < j < |s| ==> s[i].createdAt >= s[j].createdAt
  }

  /** m is the row among ids that the ordering puts first. */
  predicate IsFirst(posts: map<nat, Post>, ids: set<nat>, m: nat)
    requires ids <= posts.Keys
  {
    m in ids && forall x :: x in ids && x != m ==> Precedes(posts[m], posts[x])
  }

  lemma {:induction false} FirstExists(posts: map<nat, Post>, ids: set<nat>)
    requires KeyedById(posts) && ids <= posts.Keys && ids != {}
    ensures exists m :: IsFirst(posts, ids, m)
    decreases |ids|
  {
    var x :| x in ids;
    if ids == {x} {
      assert IsFirst(posts, ids, x);
    } else {
      FirstExists(posts, ids - {x});
      var m :| IsFirst(posts, ids - {x}, m);
      if Precedes(posts[x], posts[m]) {
        assert IsFirst(posts, ids, x);
      } else {
        assert IsFirst(posts, ids, m);
      }
    }
  }

  /** The rows with the given ids, in query order. */
  function OrderByCreatedAtDesc(posts: map<nat, Post>, ids: set<nat>): (r: seq<Post>)
    requires KeyedById(posts) && ids <= posts.Keys
    ensures |r| == |ids|
    ensures forall i :: 0 <= i < |r| ==> r[i].id in ids && posts[r[i].id] == r[i]
    ensures forall id :: id in ids ==> posts[id] in r
    ensures forall i, j :: 0 <= i < j < |r| ==> Precedes(r[i], r[j])
    decreases |ids|
  {
    if ids == {} then []
    else
      FirstExists(posts, ids);
      var m :| IsFirst(posts, ids, m);
      [posts[m]] + OrderByCreatedAtDesc(posts, ids - {m})
  }

  /** findByUserIdAndApprovedOrderByCreatedAtDesc(userId, approved) */
  function FindByUserIdAndApprovedOrderByCreatedAtDesc(posts: map<nat, Post>, userId: nat, approved: bool): (r: seq<Post>)
    requires KeyedById(posts)
    ensures forall p :: p in r <==> p in posts.Values && p.userId == userId && p.approved == approved
    ensures SortedByCreatedAtDesc(r)
    ensures forall i, j :: 0 <= i < j < |r| ==> r[i] != r[j]
  {
    OrderByCreatedAtDesc(posts, set id | id in posts && posts[id].userId == userId && posts[id].approved == approved)
  }

  /** findByUserOrderByCreatedAtDesc(userId): all of one user's posts, newest first. */
  function FindByUserOrderByCreatedAtDesc(posts: map<nat, Post>, userId: nat): (r: seq<Post>)
    requires KeyedById(posts)
    ensures forall p :: p in r <==> p in posts.Values && p.userId == userId
    ensures SortedByCreatedAtDesc(r)
    ensures forall i, j :: 0 <= i < j < |r| ==> r[i] != r[j]
  {
    OrderByCreatedAtDesc(posts, set id | id in posts && posts[id].userId == userId)
  }
}
