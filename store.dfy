/** The in-memory database behind the repositories: one table per entity,
    the id counters of the IDENTITY columns, the derived lookups the
    services use, and the reaction table's derived queries. */
module Store {
  import opened Common
  import opened Entities
  import PostRepository

  /** A snapshot of every table. Reactions and comments keep insertion order,
      which is the order an unsorted query returns them in. */
  datatype Tables = Tables(
    posts: map<nat, Post>,
    users: map<nat, User>,
    admins: map<nat, Admin>,
    reactions: seq<Reaction>,
    comments: seq<Comment>,
    nextPostId: nat,
    nextUserId: nat,
    nextAdminId: nat,
    nextReactionId: nat,
    nextCommentId: nat)

  /** users.email is a UNIQUE column. */
  predicate DistinctUserEmails(users: map<nat, User>)
  {
    forall a, b :: a in users && b in users && users[a].email == users[b].email ==> a == b
  }

  /** No two admins share an email: createAdmin refuses a duplicate. */
  predicate DistinctAdminEmails(admins: map<nat, Admin>)
  {
    forall a, b :: a in admins && b in admins && admins[a].email == admins[b].email ==> a == b
  }

  /** The integrity the database keeps: rows stored under their own ids,
      ids below the next generated one, foreign keys that resolve, and
      the unique emails. */
  predicate ValidTables(t: Tables)
  {
    PostRepository.KeyedById(t.posts)
    && (forall id :: id in t.users ==> t.users[id].id == id)
    && (forall id :: id in t.admins ==> t.admins[id].id == id)
    && (forall id :: id in t.posts ==> id < t.nextPostId)
    && (forall id :: id in t.users ==> id < t.nextUserId)
    && (forall id :: id in t.admins ==> id < t.nextAdminId)
    && (forall id :: id in t.posts ==> t.posts[id].userId in t.users)
    && (forall i :: 0 <= i < |t.reactions| ==> t.reactions[i].postId in t.posts && t.reactions[i].userId in t.users)
    && (forall i :: 0 <= i < |t.comments| ==> t.comments[i].postId in t.posts && t.comments[i].userId in t.users)
    && DistinctUserEmails(t.users)
    && DistinctAdminEmails(t.admins)
  }

  /** The repositories, as one mutable object. */
  class Db {
    var posts: map<nat, Post>
    var users: map<nat, User>
    var admins: map<nat, Admin>
    var reactions: seq<Reaction>
    var comments: seq<Comment>
    var nextPostId: nat
    var nextUserId: nat
    var nextAdminId: nat
    var nextReactionId: nat
    var nextCommentId: nat

    function State(): Tables
      reads this
    {
      Tables(posts, users, admins, reactions, comments, nextPostId, nextUserId, nextAdminId, nextReactionId, nextCommentId)
    }

    ghost predicate Valid()
      reads this
    {
      ValidTables(State())
    }

    /** An empty database. */
    constructor()
      ensures Valid()
      ensures State() == Tables(map[], map[], map[], [], [], 0, 0, 0, 0, 0)
    {
      posts, users, admins := map[], map[], map[];
      reactions, comments := [], [];
      nextPostId, nextUserId, nextAdminId, nextReactionId, nextCommentId := 0, 0, 0, 0, 0;
    }
  }

  // ---------------------------------------------------------------------
  // Single-result lookups (Optional<T> findByX): none, one, or the
  // IncorrectResultSizeDataAccessException Spring Data throws for more.
  // ---------------------------------------------------------------------

  datatype Lookup = NotFound | Found(id: nat) | Ambiguous

  lemma SingletonSet(s: set<nat>)
    requires |s| == 1
    ensures exists x :: s == {x}
  {
    var x :| x in s;
    assert |s - {x}| == 0;
  }

  /** The single-result rule applied to the set of matching ids. */
  function Unique(s: set<nat>): (r: Lookup)
    ensures r == NotFound <==> s == {}
    ensures r.Found? ==> s == {r.id}
    ensures r == Ambiguous <==> exists x, y :: x in s && y in s && x != y
  {
    if |s| == 0 then NotFound
    else if |s| == 1 then
      SingletonSet(s);
      var x :| x in s;
      Found(x)
    else
      var x :| x in s;
      assert |s - {x}| > 0;
      var y :| y in s - {x};
      Ambiguous
  }

  /** Two different users hold the username: users.username is not UNIQUE. */
  predicate UsernameShared(users: map<nat, User>, username: string)
  {
    exists a, b :: a in users && b in users && a != b && users[a].username == username && users[b].username == username
  }

  /** userRepository.findByUsername */
  function ByUsername(users: map<nat, User>, username: string): (r: Lookup)
    ensures r.Found? ==> r.id in users && users[r.id].username == username
    ensures r.Found? ==> forall id :: id in users && users[id].username == username ==> id == r.id
    ensures r == NotFound <==> forall id :: id in users ==> users[id].username != username
    ensures r == Ambiguous <==> UsernameShared(users, username)
  {
    var s := set id | id in users && users[id].username == username;
    assert forall id :: id in s <==> id in users && users[id].username == username;
    Unique(s)
  }

  /** userRepository.findByEmail */
  function ByEmail(users: map<nat, User>, email: string): (r: Lookup)
    ensures r.Found? ==> r.id in users && users[r.id].email == email
    ensures r == NotFound <==> forall id :: id in users ==> users[id].email != email
    ensures DistinctUserEmails(users) ==> r != Ambiguous
  {
    var s := set id | id in users && users[id].email == email;
    assert forall id :: id in s <==> id in users && users[id].email == email;
    Unique(s)
  }

  /** adminRepository.findByEmail */
  function AdminByEmail(admins: map<nat, Admin>, email: string): (r: Lookup)
    ensures r.Found? ==> r.id in admins && admins[r.id].email == email
    ensures r == NotFound <==> forall id :: id in admins ==> admins[id].email != email
    ensures DistinctAdminEmails(admins) ==> r != Ambiguous
  {
    var s := set id | id in admins && admins[id].email == email;
    assert forall id :: id in s <==> id in admins && admins[id].email == email;
    Unique(s)
  }

  /** findByUsername(name).or(() -> findByEmail(name)): the email lookup
      only runs when no user has that username. */
  function Resolve(users: map<nat, User>, name: string): (r: Lookup)
    ensures r.Found? ==> r.id in users && (users[r.id].username == name || users[r.id].email == name)
    ensures r.Found? && users[r.id].username != name ==> ByUsername(users, name) == NotFound
    ensures r == NotFound <==> forall id :: id in users ==> users[id].username != name && users[id].email != name
    ensures UsernameShared(users, name) ==> r == Ambiguous
    ensures DistinctUserEmails(users) ==> (r == Ambiguous <==> UsernameShared(users, name))
  {
    match ByUsername(users, name)
    case Found(id) => Found(id)
    case Ambiguous => Ambiguous
    case NotFound => ByEmail(users, name)
  }

  /** A name that is some user's username resolves to that user when
      the username is held once, whatever the emails say. */
  lemma UsernameWins(users: map<nat, User>, name: string, id: nat)
    requires id in users && users[id].username == name
    requires forall other :: other in users && users[other].username == name ==> other == id
    ensures Resolve(users, name) == Found(id)
  {
    assert (set x | x in users && users[x].username == name) == {id};
  }

  /** A name no user holds as username resolves to the one user holding
      it as email, when emails are unique. */
  lemma EmailWins(users: map<nat, User>, name: string, id: nat)
    requires DistinctUserEmails(users)
    requires id in users && users[id].email == name
    requires forall other :: other in users ==> users[other].username != name
    ensures Resolve(users, name) == Found(id)
  {
    assert ByUsername(users, name) == NotFound;
    assert ByEmail(users, name) == Found(id);
  }

  // ---------------------------------------------------------------------
  // The reaction table
  // ---------------------------------------------------------------------

  /** The reactions of one post, in table order. */
  function ByPost(rs: seq<Reaction>, postId: nat): (r: seq<Reaction>)
    ensures |r| <= |rs|
    ensures forall x :: x in r <==> x in rs && x.postId == postId
  {
    if rs == [] then []
    else (if rs[0].postId == postId then [rs[0]] else []) + ByPost(rs[1..], postId)
  }

  /** The reactions one user left on one post. */
  function ByPair(rs: seq<Reaction>, postId: nat, userId: nat): (r: seq<Reaction>)
    ensures forall x :: x in r <==> x in rs && x.postId == postId && x.userId == userId
  {
    if rs == [] then []
    else (if rs[0].postId == postId && rs[0].userId == userId then [rs[0]] else []) + ByPair(rs[1..], postId, userId)
  }

  /** deleteByPostAndUser: the table without that user's reactions to that post. */
  function WithoutPair(rs: seq<Reaction>, postId: nat, userId: nat): (r: seq<Reaction>)
    ensures |r| <= |rs|
    ensures forall x :: x in r <==> x in rs && !(x.postId == postId && x.userId == userId)
  {
    if rs == [] then []
    else (if rs[0].postId == postId && rs[0].userId == userId then [] else [rs[0]]) + WithoutPair(rs[1..], postId, userId)
  }

  /** Deleting the cascade of a post: its reactions go with it. */
  function WithoutPost(rs: seq<Reaction>, postId: nat): (r: seq<Reaction>)
    ensures |r| <= |rs|
    ensures forall x :: x in r <==> x in rs && x.postId != postId
  {
    if rs == [] then []
    else (if rs[0].postId == postId then [] else [rs[0]]) + WithoutPost(rs[1..], postId)
  }

  /** ... and so do its comments. Kept apart from WithoutPost because the
      two tables hold different record types, and a generic filter would
      need the post id passed in as a function. */
  function CommentsWithoutPost(cs: seq<Comment>, postId: nat): (r: seq<Comment>)
    ensures |r| <= |cs|
    ensures forall x :: x in r <==> x in cs && x.postId != postId
  {
    if cs == [] then []
    else (if cs[0].postId == postId then [] else [cs[0]]) + CommentsWithoutPost(cs[1..], postId)
  }

  /** ByPost keeps each of the post's reactions as often as the table holds
      it, and no other reaction. */
  lemma {:induction false} ByPostMultiplicity(rs: seq<Reaction>, postId: nat)
    ensures forall x :: multiset(ByPost(rs, postId))[x] == if x.postId == postId then multiset(rs)[x] else 0
  {
    if rs != [] {
      assert rs == [rs[0]] + rs[1..];
      ByPostMultiplicity(rs[1..], postId);
    }
  }

  /** WithoutPost keeps every other post's reaction as often as the table
      holds it, and none of the deleted post's. */
  lemma {:induction false} WithoutPostMultiplicity(rs: seq<Reaction>, postId: nat)
    ensures forall x :: multiset(WithoutPost(rs, postId))[x] == if x.postId != postId then multiset(rs)[x] else 0
  {
    if rs != [] {
      assert rs == [rs[0]] + rs[1..];
      WithoutPostMultiplicity(rs[1..], postId);
    }
  }

  /** The same for the comment table. */
  lemma {:induction false} CommentsWithoutPostMultiplicity(cs: seq<Comment>, postId: nat)
    ensures forall c :: multiset(CommentsWithoutPost(cs, postId))[c] == if c.postId != postId then multiset(cs)[c] else 0
  {
    if cs != [] {
      assert cs == [cs[0]] + cs[1..];
      CommentsWithoutPostMultiplicity(cs[1..], postId);
    }
  }

  /** The table after addReaction: the pair's old reactions deleted, the new one appended. */
  function ReplaceReaction(rs: seq<Reaction>, r: Reaction): (res: seq<Reaction>)
    ensures |res| > 0 && res[|res| - 1] == r
    ensures forall x :: x in res[..|res| - 1] <==> x in rs && !(x.postId == r.postId && x.userId == r.userId)
  {
    WithoutPair(rs, r.postId, r.userId) + [r]
  }

  lemma {:induction false} ByPairAppend(rs: seq<Reaction>, more: seq<Reaction>, postId: nat, userId: nat)
    ensures ByPair(rs + more, postId, userId) == ByPair(rs, postId, userId) + ByPair(more, postId, userId)
  {
    if rs == [] {
      assert rs + more == more;
    } else {
      assert (rs + more)[1..] == rs[1..] + more;
      ByPairAppend(rs[1..], more, postId, userId);
    }
  }

  lemma {:induction false} ByPairOfWithout(rs: seq<Reaction>, postId: nat, userId: nat, p: nat, u: nat)
    ensures ByPair(WithoutPair(rs, postId, userId), p, u)
         == if p == postId && u == userId then [] else ByPair(rs, p, u)
  {
    if rs != [] {
      ByPairOfWithout(rs[1..], postId, userId, p, u);
      var head := if rs[0].postId == postId && rs[0].userId == userId then [] else [rs[0]];
      ByPairAppend(head, WithoutPair(rs[1..], postId, userId), p, u);
    }
  }

  /** After the replacement the pair holds exactly the new reaction. */
  lemma ReplaceKeepsOne(rs: seq<Reaction>, r: Reaction)
    ensures ByPair(ReplaceReaction(rs, r), r.postId, r.userId) == [r]
  {
    ByPairAppend(WithoutPair(rs, r.postId, r.userId), [r], r.postId, r.userId);
    ByPairOfWithout(rs, r.postId, r.userId, r.postId, r.userId);
    assert [r][1..] == [];
  }

  /** Every other (post, user) pair keeps its reactions, in order. */
  lemma ReplaceKeepsOthers(rs: seq<Reaction>, r: Reaction, p: nat, u: nat)
    requires p != r.postId || u != r.userId
    ensures ByPair(ReplaceReaction(rs, r), p, u) == ByPair(rs, p, u)
  {
    ByPairAppend(WithoutPair(rs, r.postId, r.userId), [r], p, u);
    ByPairOfWithout(rs, r.postId, r.userId, p, u);
  }

  /** Both halves at once: the pair holds the new reaction alone, and every
      other pair is untouched. */
  lemma ReplaceReactionPairs(rs: seq<Reaction>, r: Reaction)
    ensures ByPair(ReplaceReaction(rs, r), r.postId, r.userId) == [r]
    ensures forall p, u :: p != r.postId || u != r.userId ==> ByPair(ReplaceReaction(rs, r), p, u) == ByPair(rs, p, u)
  {
    ReplaceKeepsOne(rs, r);
    forall p, u | p != r.postId || u != r.userId
      ensures ByPair(ReplaceReaction(rs, r), p, u) == ByPair(rs, p, u)
    {
      ReplaceKeepsOthers(rs, r, p, u);
    }
  }

  /** Replacing twice for the same pair leaves only the second reaction. */
  lemma SecondReactionWins(rs: seq<Reaction>, r1: Reaction, r2: Reaction)
    requires r1.postId == r2.postId && r1.userId == r2.userId
    ensures ByPair(ReplaceReaction(ReplaceReaction(rs, r1), r2), r2.postId, r2.userId) == [r2]
  {
    ReplaceKeepsOne(ReplaceReaction(rs, r1), r2);
  }
}
