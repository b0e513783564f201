/** The post service: creation, moderation, reactions, comments and the
    owner-or-admin rule, over the tables of the store. The clock is a
    parameter (`now`, in seconds), and so is whatever the remote media
    store answers. */
module Posts {
  import opened Common
  import opened Entities
  import opened Store
  import PostRepository
  import Cloudinary

  const STORY_LIFETIME := 24 * 3600
  const POST_LIFETIME := 7 * 24 * 3600
  const SUMMARY_PAGE_SIZE := 1000

  const POST_NOT_FOUND := "Post not found"
  const USER_NOT_FOUND := "User not found"
  const CURRENT_USER_NOT_FOUND := "Current user not found"
  const MEDIA_REQUIRED := "Media file is required for a post."
  const UPLOAD_IO_FAILED := "File upload failed."
  const UPLOAD_FAILED := "Could not upload content to Cloudinary."
  const DELETE_DENIED := "You can only delete your own posts"
  const EDIT_DENIED := "You can only edit your own posts"
  /** Spring Data's answer when a single-result finder matches several rows. */
  const NOT_UNIQUE := "IncorrectResultSizeDataAccessException"
  /** getRole() was null where the code dereferences it. */
  const NULL_ROLE := "NullPointerException"
  /** users.username is NOT NULL. */
  const NULL_USERNAME := "DataIntegrityViolationException"

  /** The uploaded part of the request: its declared content type and its size. */
  datatype MediaFile = MediaFile(contentType: Option<string>, size: nat)

  /** PostRequest */
  datatype PostRequest = PostRequest(userId: nat, file: Option<MediaFile>, caption: Option<string>, story: bool)

  /** What uploadAndProcessFile got back from the media store: an I/O error,
      another error, or the response's secure_url (which may be absent). */
  datatype UploadOutcome = IoError | StoreError | Uploaded(secureUrl: Option<string>)

  /** `file == null || file.isEmpty()` is false */
  predicate HasMedia(file: Option<MediaFile>)
  {
    file.Some? && file.value.size > 0
  }

  /** The author counts as an admin by role, or by having a row in the admin table. */
  function IsAdminAuthor(admins: map<nat, Admin>, u: User): (r: bool)
    ensures u.role == Some(ADMIN) || u.role == Some(MAIN_ADMIN) ==> r
    ensures AdminByEmail(admins, u.email).Found? ==> r
    ensures u.role.None? && AdminByEmail(admins, u.email).NotFound? ==> !r
    ensures u.role.Some? && IsAdminRole(u.role.value) ==> r
    ensures (u.role.None? || !IsAdminRole(u.role.value)) && AdminByEmail(admins, u.email).NotFound? ==> !r
  {
    (u.role.Some? && IsAdminRole(u.role.value)) || AdminByEmail(admins, u.email).Found?
  }

  // ---------------------------------------------------------------------
  // Moderation and deletion as functions of the tables
  // ---------------------------------------------------------------------

  /** setApproved(b) then save */
  function SetApproved(posts: map<nat, Post>, id: nat, b: bool): (r: map<nat, Post>)
    requires id in posts
    ensures r.Keys == posts.Keys
    ensures r[id] == posts[id].(approved := b)
    ensures forall other :: other in posts && other != id ==> r[other] == posts[other]
  {
    posts[id := posts[id].(approved := b)]
  }

  /** Approving or rejecting twice is the same as doing it once. */
  lemma SetApprovedIdempotent(posts: map<nat, Post>, id: nat, b: bool)
    requires id in posts
    ensures SetApproved(SetApproved(posts, id, b), id, b) == SetApproved(posts, id, b)
  {
  }

  /** An approved post joins the feed until it expires and leaves the moderation queue. */
  lemma ApprovedJoinsFeed(posts: map<nat, Post>, id: nat, now: int)
    requires id in posts
    ensures var p := SetApproved(posts, id, true);
      (p[id] in PostRepository.FindVisiblePosts(p, now) <==> posts[id].expiresAt > now)
      && p[id] !in PostRepository.FindByApprovedFalse(p)
  {
  }

  /** A rejected post leaves the feed and is back in the moderation queue. */
  lemma RejectedLeavesFeed(posts: map<nat, Post>, id: nat, now: int)
    requires id in posts
    ensures var p := SetApproved(posts, id, false);
      p[id] !in PostRepository.FindVisiblePosts(p, now)
      && p[id] in PostRepository.FindByApprovedFalse(p)
  {
  }

  /** postRepository.delete(post): the cascade on comments and reactions removes them with it. */
  function CascadeDelete(t: Tables, id: nat): (r: Tables)
    ensures r.posts == t.posts - {id}
    ensures forall x :: x in r.reactions <==> x in t.reactions && x.postId != id
    ensures forall c :: c in r.comments <==> c in t.comments && c.postId != id
    ensures r.users == t.users && r.admins == t.admins
    ensures r.nextPostId == t.nextPostId && r.nextUserId == t.nextUserId && r.nextAdminId == t.nextAdminId
      && r.nextReactionId == t.nextReactionId && r.nextCommentId == t.nextCommentId
  {
    t.(posts := t.posts - {id},
       reactions := WithoutPost(t.reactions, id),
       comments := CommentsWithoutPost(t.comments, id))
  }

  /** The cascade removes exactly the post's rows: every other reaction and
      comment survives as often as it was stored. */
  lemma CascadeDeleteMultiplicity(t: Tables, id: nat)
    ensures forall x :: multiset(CascadeDelete(t, id).reactions)[x] == if x.postId != id then multiset(t.reactions)[x] else 0
    ensures forall c :: multiset(CascadeDelete(t, id).comments)[c] == if c.postId != id then multiset(t.comments)[c] else 0
  {
    WithoutPostMultiplicity(t.reactions, id);
    CommentsWithoutPostMultiplicity(t.comments, id);
  }

  /** Deleting keeps the database consistent: no reaction or comment is left
      pointing at the deleted post. */
  lemma CascadeDeleteKeepsValid(t: Tables, id: nat)
    requires ValidTables(t)
    ensures ValidTables(CascadeDelete(t, id))
  {
    var r := CascadeDelete(t, id);
    forall i | 0 <= i < |r.reactions|
      ensures r.reactions[i].postId in r.posts && r.reactions[i].userId in r.users
    {
      assert r.reactions[i] in t.reactions;
    }
    forall i | 0 <= i < |r.comments|
      ensures r.comments[i].postId in r.posts && r.comments[i].userId in r.users
    {
      assert r.comments[i] in t.comments;
    }
  }

  /** Storing a new post of a stored user under the next id keeps the tables valid. */
  lemma NewPostKeepsValid(t: Tables, post: Post)
    requires ValidTables(t)
    requires post.id == t.nextPostId && post.userId in t.users
    ensures ValidTables(t.(posts := t.posts[post.id := post], nextPostId := t.nextPostId + 1))
  {
  }

  /** Rewriting a stored post in place, same id and author, keeps the tables valid. */
  lemma RewritePostKeepsValid(t: Tables, post: Post)
    requires ValidTables(t)
    requires post.id in t.posts && post.userId == t.posts[post.id].userId
    ensures ValidTables(t.(posts := t.posts[post.id := post]))
  {
  }

  /** Replacing a reaction that refers to a stored post and user keeps the
      tables valid. */
  lemma ReplaceReactionKeepsValid(t: Tables, reaction: Reaction)
    requires ValidTables(t)
    requires reaction.postId in t.posts && reaction.userId in t.users
    ensures ValidTables(t.(reactions := ReplaceReaction(t.reactions, reaction), nextReactionId := t.nextReactionId + 1))
  {
    var rs := ReplaceReaction(t.reactions, reaction);
    forall i | 0 <= i < |rs|
      ensures rs[i].postId in t.posts && rs[i].userId in t.users
    {
      if i < |rs| - 1 {
        assert rs[i] in WithoutPair(t.reactions, reaction.postId, reaction.userId);
      }
    }
  }

  // ---------------------------------------------------------------------
  // The owner-or-admin rule of deleteUserPost and updatePost
  // ---------------------------------------------------------------------

  datatype Access = Granted | Denied | NullRole

  /** `!owner && !role.equalsIgnoreCase("ADMIN") && !role.equalsIgnoreCase("MAIN_ADMIN")`
      denies; a non-owner without a role makes the role test throw. */
  function CheckOwnerOrAdmin(post: Post, caller: User): (r: Access)
    ensures r == Granted <==> post.userId == caller.id || (caller.role.Some? && IsAdminRole(caller.role.value))
    ensures r == NullRole <==> post.userId != caller.id && caller.role.None?
  {
    if post.userId == caller.id then Granted
    else if caller.role.None? then NullRole
    else if IsAdminRole(caller.role.value) then Granted
    else Denied
  }

  /** The role test ignores case: "admin" and "Main_Admin" pass, "SUPER_ADMIN" does not. */
  lemma RoleTestIgnoresCase(post: Post, caller: User)
    requires post.userId != caller.id
    ensures CheckOwnerOrAdmin(post, caller.(role := Some("admin"))) == Granted
    ensures CheckOwnerOrAdmin(post, caller.(role := Some("Main_Admin"))) == Granted
    ensures CheckOwnerOrAdmin(post, caller.(role := Some("SUPER_ADMIN"))) == Denied
  {
    assert !EqualsIgnoreCase("SUPER_ADMIN", ADMIN);
    assert !EqualsIgnoreCase("SUPER_ADMIN", MAIN_ADMIN) by {
      assert ToLowerChar("SUPER_ADMIN"[0]) != ToLowerChar(MAIN_ADMIN[0]);
    }
  }

  /** The caller named in the security context, and what the rule says. */
  function Authorize(t: Tables, post: Post, name: string, denied: string): (r: Result<nat, string>)
    ensures r.Success? <==> Resolve(t.users, name).Found? && CheckOwnerOrAdmin(post, t.users[Resolve(t.users, name).id]) == Granted
    ensures r.Success? ==> r.value == Resolve(t.users, name).id
    ensures Resolve(t.users, name) == NotFound ==> r == Failure(CURRENT_USER_NOT_FOUND)
    ensures Resolve(t.users, name).Found? && CheckOwnerOrAdmin(post, t.users[Resolve(t.users, name).id]) == Denied ==> r == Failure(denied)
    ensures Resolve(t.users, name) == Ambiguous ==> r == Failure(NOT_UNIQUE)
    ensures Resolve(t.users, name).Found? && CheckOwnerOrAdmin(post, t.users[Resolve(t.users, name).id]) == NullRole ==> r == Failure(NULL_ROLE)
  {
    match Resolve(t.users, name)
    case NotFound => Failure(CURRENT_USER_NOT_FOUND)
    case Ambiguous => Failure(NOT_UNIQUE)
    case Found(id) =>
      match CheckOwnerOrAdmin(post, t.users[id])
      case Granted => Success(id)
      case Denied => Failure(denied)
      case NullRole => Failure(NULL_ROLE)
  }

  // ---------------------------------------------------------------------
  // findUserForReactionOrComment as a function of the tables
  // ---------------------------------------------------------------------

  /** The user row created for an admin who has none. */
  function BridgeUser(admin: Admin, id: nat): (u: User)
    requires admin.name.Some?
    ensures u.id == id && u.email == admin.email && u.username == admin.name.value
    ensures u.approvalStatus == Some(APPROVED) && u.active
    ensures u.role == admin.role && u.passwordHash == admin.passwordHash
  {
    User(id, admin.name.value, admin.name, admin.email, admin.passwordHash, admin.mobileNumber, admin.role,
         Some(APPROVED), true, None, None, admin.imageUrl, admin.imagePublicId, admin.createdAt, admin.updatedAt,
         EmptyProfile)
  }

  /** The user a reaction or comment is recorded for, and the tables after the lookup. */
  function ResolveOrBridge(t: Tables, name: string): (res: (Result<nat, string>, Tables))
    ensures res.0.Failure? ==> res.1 == t
  {
    match Resolve(t.users, name)
    case Found(id) => (Success(id), t)
    case Ambiguous => (Failure(NOT_UNIQUE), t)
    case NotFound =>
      match AdminByEmail(t.admins, name)
      case NotFound => (Failure(USER_NOT_FOUND + ": " + name), t)
      case Ambiguous => (Failure(NOT_UNIQUE), t)
      case Found(aid) =>
        var admin := t.admins[aid];
        match ByEmail(t.users, admin.email)
        case Found(id) => (Success(id), t)
        case Ambiguous => (Failure(NOT_UNIQUE), t)
        case NotFound =>
          if admin.name.None? then (Failure(NULL_USERNAME), t)
          else
            var u := BridgeUser(admin, t.nextUserId);
            (Success(u.id), t.(users := t.users[u.id := u], nextUserId := t.nextUserId + 1))
  }

  /** The lookup of the admin's email among the users never finds anyone:
      the admin's email is the name, which the email lookup has already
      missed. */
  lemma EmailBranchIsDead(t: Tables, name: string)
    requires Resolve(t.users, name) == NotFound && AdminByEmail(t.admins, name).Found?
    ensures ByEmail(t.users, t.admins[AdminByEmail(t.admins, name).id].email) == NotFound
  {
  }

  /** What the lookup does: an existing user is returned untouched; otherwise
      an admin with that email gets a new APPROVED, active user row carrying
      the admin's email; anyone else is refused. Nothing changes on failure. */
  lemma ResolveOrBridgeSpec(t: Tables, name: string)
    requires ValidTables(t)
    ensures var (r, t') := ResolveOrBridge(t, name);
      && (Resolve(t.users, name).Found? ==> r == Success(Resolve(t.users, name).id) && t' == t)
      && (r.Failure? ==> t' == t)
      && (Resolve(t.users, name) == NotFound && AdminByEmail(t.admins, name) == NotFound ==> r.Failure?)
      && (r.Success? && t' != t ==>
            && Resolve(t.users, name) == NotFound
            && AdminByEmail(t.admins, name).Found?
            && r.value == t.nextUserId
            && t' == t.(users := t.users[r.value := t'.users[r.value]], nextUserId := t.nextUserId + 1)
            && t'.users[r.value].email == name
            && t'.users[r.value].approvalStatus == Some(APPROVED)
            && t'.users[r.value].active)
      && (Resolve(t.users, name) == Ambiguous ==> r == Failure(NOT_UNIQUE))
      && (Resolve(t.users, name) == NotFound && AdminByEmail(t.admins, name) == NotFound ==> r == Failure(USER_NOT_FOUND + ": " + name))
      && (Resolve(t.users, name) == NotFound && AdminByEmail(t.admins, name).Found? ==>
            var admin := t.admins[AdminByEmail(t.admins, name).id];
            && (admin.name.None? ==> r == Failure(NULL_USERNAME) && t' == t)
            && (admin.name.Some? ==>
                  && r == Success(t.nextUserId)
                  && t' == t.(users := t.users[t.nextUserId := BridgeUser(admin, t.nextUserId)], nextUserId := t.nextUserId + 1)))
      && ValidTables(t')
      && (r.Success? ==> r.value in t'.users)
  {
    if Resolve(t.users, name) == NotFound && AdminByEmail(t.admins, name).Found? {
      var admin := t.admins[AdminByEmail(t.admins, name).id];
      EmailBranchIsDead(t, name);
      if admin.name.Some? {
        var u := BridgeUser(admin, t.nextUserId);
        var t' := t.(users := t.users[t.nextUserId := u], nextUserId := t.nextUserId + 1);
        assert ResolveOrBridge(t, name) == (Success(t.nextUserId), t');
        assert forall id :: id in t.users ==> t.users[id].email != u.email;
        assert DistinctUserEmails(t'.users);
      }
    }
  }

  /** The user the lookup returns is stored, and the posts are untouched. */
  lemma ResolveOrBridgeStores(t: Tables, name: string)
    requires ValidTables(t)
    ensures var (r, t') := ResolveOrBridge(t, name);
      ValidTables(t') && t'.posts == t.posts && (r.Success? ==> r.value in t'.users)
  {
    ResolveOrBridgeSpec(t, name);
  }

  /** A second lookup with the same name finds the row the first one created:
      it returns the same user and creates nothing. */
  lemma {:induction false} ResolveOrBridgeIdempotent(t: Tables, name: string)
    requires ValidTables(t)
    requires ResolveOrBridge(t, name).0.Success?
    ensures var (r, t') := ResolveOrBridge(t, name); ResolveOrBridge(t', name) == (r, t')
  {
    ResolveOrBridgeSpec(t, name);
    var (r, t') := ResolveOrBridge(t, name);
    if t' != t {
      var nid := r.value;
      var u := t'.users[nid];
      assert forall id :: id in t.users ==> t.users[id].username != name && t.users[id].email != name;
      if u.username == name {
        UsernameWins(t'.users, name, nid);
      } else {
        var s := set id | id in t'.users && t'.users[id].username == name;
        assert s == {};
        assert ByUsername(t'.users, name) == NotFound;
        assert (set id | id in t'.users && t'.users[id].email == name) == {nid};
      }
    }
  }

  /** Appending a comment that refers to a stored post and user keeps the
      tables valid. */
  lemma AppendCommentKeepsValid(t: Tables, comment: Comment)
    requires ValidTables(t)
    requires comment.postId in t.posts && comment.userId in t.users
    ensures ValidTables(t.(comments := t.comments + [comment], nextCommentId := t.nextCommentId + 1))
  {
    var cs := t.comments + [comment];
    forall i | 0 <= i < |cs|
      ensures cs[i].postId in t.posts && cs[i].userId in t.users
    {
      if i < |t.comments| {
        assert cs[i] == t.comments[i];
      }
    }
  }

  /** The second half of addComment: given the lookup's outcome, save one
      comment by that user with the next id. */
  function AppendComment(lookup: (Result<nat, string>, Tables), postId: nat, text: string, now: int): (Result<(), string>, Tables)
  {
    var (u, t1) := lookup;
    if u.Failure? then (Failure(u.error), t1)
    else (Success(()), t1.(comments := t1.comments + [Comment(t1.nextCommentId, text, now, postId, u.value)], nextCommentId := t1.nextCommentId + 1))
  }

  /** addComment on the tables: the post first, then the lookup-or-bridge
      rule for the caller, then one comment saved with the next id. */
  function AddCommentTo(t: Tables, postId: nat, username: string, text: string, now: int): (res: (Result<(), string>, Tables))
    ensures res.0.Failure? ==> res.1 == t
  {
    if postId !in t.posts then (Failure(POST_NOT_FOUND), t)
    else AppendComment(ResolveOrBridge(t, username), postId, text, now)
  }

  /** Once the caller is looked up, addComment is the append on the lookup's outcome. */
  lemma AddCommentThrough(t0: Tables, t1: Tables, user: Result<nat, string>, postId: nat, username: string, text: string, now: int)
    requires postId in t0.posts && (user, t1) == ResolveOrBridge(t0, username)
    ensures AddCommentTo(t0, postId, username, text, now) == AppendComment((user, t1), postId, text, now)
  {
  }

  /** addComment keeps the tables valid. */
  lemma AddCommentKeepsValid(t: Tables, postId: nat, username: string, text: string, now: int)
    requires ValidTables(t)
    ensures ValidTables(AddCommentTo(t, postId, username, text, now).1)
  {
    if postId in t.posts {
      ResolveOrBridgeStores(t, username);
      var (u, t1) := ResolveOrBridge(t, username);
      if u.Success? {
        AppendCommentKeepsValid(t1, Comment(t1.nextCommentId, text, now, postId, u.value));
      }
    }
  }

  /** What addComment promises: it fails, changing nothing, on an unknown
      post or when the lookup-or-bridge rule fails; otherwise exactly one
      comment by the resolved (or newly bridged) user is appended, with the
      next id, and nothing but that user row and the comment table changes. */
  lemma AddCommentSpec(t: Tables, postId: nat, username: string, text: string, now: int)
    requires ValidTables(t)
    ensures var (r, t') := AddCommentTo(t, postId, username, text, now);
      var (u, tb) := ResolveOrBridge(t, username);
      && (postId !in t.posts ==> r == Failure(POST_NOT_FOUND))
      && (r.Failure? ==> t' == t)
      && (postId in t.posts ==> (r.Success? <==> u.Success?))
      && (r.Success? ==>
            && u.value in t'.users
            && t'.comments == t.comments + [Comment(t.nextCommentId, text, now, postId, u.value)]
            && t' == tb.(comments := t'.comments, nextCommentId := t.nextCommentId + 1))
  {
    ResolveOrBridgeSpec(t, username);
  }

  // ---------------------------------------------------------------------
  // addReaction
  // ---------------------------------------------------------------------

  /** addReaction on the tables: the post first, then the caller by username
      or email; the caller's reactions to the post are deleted and the new
      one saved with the next id. */
  function AddReactionTo(t: Tables, postId: nat, username: string, reactionType: string, now: int): (res: (Result<(), string>, Tables))
    ensures res.0.Failure? ==> res.1 == t
  {
    if postId !in t.posts then (Failure(POST_NOT_FOUND), t)
    else match Resolve(t.users, username)
      case NotFound => (Failure(USER_NOT_FOUND), t)
      case Ambiguous => (Failure(NOT_UNIQUE), t)
      case Found(uid) =>
        var reaction := Reaction(t.nextReactionId, reactionType, now, postId, uid);
        (Success(()), t.(reactions := ReplaceReaction(t.reactions, reaction), nextReactionId := t.nextReactionId + 1))
  }

  /** addReaction keeps the tables valid. */
  lemma AddReactionKeepsValid(t: Tables, postId: nat, username: string, reactionType: string, now: int)
    requires ValidTables(t)
    ensures ValidTables(AddReactionTo(t, postId, username, reactionType, now).1)
  {
    if postId in t.posts && Resolve(t.users, username).Found? {
      ReplaceReactionKeepsValid(t, Reaction(t.nextReactionId, reactionType, now, postId, Resolve(t.users, username).id));
    }
  }

  /** What addReaction promises: it fails, changing nothing, on an unknown
      post or a caller who does not resolve; otherwise the caller's
      reactions to the post are exactly the new one, every other
      (post, user) pair keeps its reactions, and the tables stay valid. */
  lemma AddReactionSpec(t: Tables, postId: nat, username: string, reactionType: string, now: int)
    requires ValidTables(t)
    ensures var (r, t') := AddReactionTo(t, postId, username, reactionType, now);
      && ValidTables(t')
      && (postId !in t.posts ==> r == Failure(POST_NOT_FOUND))
      && (postId in t.posts && Resolve(t.users, username) == NotFound ==> r == Failure(USER_NOT_FOUND))
      && (r.Success? <==> postId in t.posts && Resolve(t.users, username).Found?)
      && (r.Success? ==>
            var uid := Resolve(t.users, username).id;
            var reaction := Reaction(t.nextReactionId, reactionType, now, postId, uid);
            && t'.nextReactionId == t.nextReactionId + 1
            && t' == t.(reactions := t'.reactions, nextReactionId := t'.nextReactionId)
            && ByPair(t'.reactions, postId, uid) == [reaction]
            && forall p, u :: p != postId || u != uid ==> ByPair(t'.reactions, p, u) == ByPair(t.reactions, p, u))
  {
    if postId in t.posts && Resolve(t.users, username).Found? {
      var reaction := Reaction(t.nextReactionId, reactionType, now, postId, Resolve(t.users, username).id);
      ReplaceReactionPairs(t.reactions, reaction);
      ReplaceReactionKeepsValid(t, reaction);
    }
  }

  // ---------------------------------------------------------------------
  // The reaction summary
  // ---------------------------------------------------------------------

  /** The distinct reaction types of a page. */
  function Types(page: seq<Reaction>): (r: seq<string>)
    ensures forall t :: t in r <==> exists i :: 0 <= i < |page| && page[i].reactionType == t
    ensures forall i, j :: 0 <= i < j < |r| ==> r[i] != r[j]
  {
    if page == [] then []
    else
      var rest := Types(page[1..]);
      assert forall i :: 1 <= i < |page| ==> page[i] == page[1..][i - 1];
      if page[0].reactionType in rest then rest else [page[0].reactionType] + rest
  }

  /** How many reactions of a page have type t. */
  function Count(page: seq<Reaction>, t: string): (n: nat)
    ensures n <= |page|
    ensures n > 0 <==> exists i :: 0 <= i < |page| && page[i].reactionType == t
  {
    if page == [] then 0
    else
      assert forall i :: 1 <= i < |page| ==> page[i] == page[1..][i - 1];
      (if page[0].reactionType == t then 1 else 0) + Count(page[1..], t)
  }

  /** Counting distributes over concatenation. */
  lemma {:induction false} CountAppend(a: seq<Reaction>, b: seq<Reaction>, t: string)
    ensures Count(a + b, t) == Count(a, t) + Count(b, t)
  {
    if a == [] {
      assert a + b == b;
    } else {
      assert (a + b)[0] == a[0];
      assert (a + b)[1..] == a[1..] + b;
      CountAppend(a[1..], b, t);
    }
  }

  /** A single reaction counts once for its own type and not at all for any other. */
  lemma CountSingle(x: Reaction, t: string)
    ensures Count([x], t) == if x.reactionType == t then 1 else 0
  {
    assert [x][1..] == [];
  }

  /** groupingBy(Reaction::getType, counting()) */
  function Counts(page: seq<Reaction>): (m: map<string, nat>)
    ensures forall t :: t in m <==> exists i :: 0 <= i < |page| && page[i].reactionType == t
    ensures forall t :: t in m ==> m[t] == Count(page, t) && m[t] > 0
  {
    map t | t in Types(page) :: Count(page, t)
  }

  /** The sum of the counts of the listed types. */
  function SumCounts(page: seq<Reaction>, types: seq<string>): nat
  {
    if types == [] then 0 else Count(page, types[0]) + SumCounts(page, types[1..])
  }

  lemma {:induction false} SumCountsStep(r: Reaction, rest: seq<Reaction>, types: seq<string>)
    requires forall i, j :: 0 <= i < j < |types| ==> types[i] != types[j]
    ensures SumCounts([r] + rest, types) == SumCounts(rest, types) + (if r.reactionType in types then 1 else 0)
  {
    if types != [] {
      assert ([r] + rest)[1..] == rest;
      SumCountsStep(r, rest, types[1..]);
      assert r.reactionType in types <==> r.reactionType == types[0] || r.reactionType in types[1..];
      if r.reactionType == types[0] {
        assert r.reactionType !in types[1..] by {
          forall k | 0 <= k < |types[1..]| ensures types[1..][k] != types[0] { assert types[1..][k] == types[k + 1]; }
        }
      }
    }
  }

  /** The per-type counts add up to the number of reactions counted. */
  lemma {:induction false} CountsSumToTotal(page: seq<Reaction>)
    ensures SumCounts(page, Types(page)) == |page|
  {
    if page != [] {
      var r, rest := page[0], page[1..];
      assert page == [r] + rest;
      CountsSumToTotal(rest);
      SumCountsStep(r, rest, Types(rest));
      if r.reactionType !in Types(rest) {
        assert Count(rest, r.reactionType) == 0;
        assert Types(page) == [r.reactionType] + Types(rest);
        assert ([r.reactionType] + Types(rest))[1..] == Types(rest);
      }
    }
  }

  /** The first page of a query: at most size rows, from the start. */
  function FirstPage(rows: seq<Reaction>, size: nat): (r: seq<Reaction>)
    ensures |r| <= size && |r| <= |rows|
    ensures r == rows[..|r|]
    ensures |rows| <= size ==> r == rows
    ensures |r| == if |rows| <= size then |rows| else size
  {
    if |rows| <= size then rows else rows[..size]
  }

  /** filter(user is the caller).map(getType).findFirst() */
  function FirstTypeBy(page: seq<Reaction>, userId: nat): (r: Option<string>)
    ensures r.None? <==> forall i :: 0 <= i < |page| ==> page[i].userId != userId
    ensures r.Some? ==> exists i :: 0 <= i < |page| && page[i].userId == userId && page[i].reactionType == r.value
                                  && forall j :: 0 <= j < i ==> page[j].userId != userId
  {
    if page == [] then None
    else if page[0].userId == userId then Some(page[0].reactionType)
    else
      var r := FirstTypeBy(page[1..], userId);
      assert forall i :: 1 <= i < |page| ==> page[i] == page[1..][i - 1];
      r
  }

  /** The summary map: counts, the caller's reaction type, total. */
  datatype Summary = Summary(counts: map<string, nat>, userReaction: Option<string>, total: nat)

  /** The caller behind the optional username; a lookup that finds no one or
      fails leaves the caller unknown. */
  function Caller(users: map<nat, User>, username: Option<string>): (r: Option<nat>)
    ensures username.None? ==> r.None?
    ensures r.Some? ==> r.value in users
    ensures username.Some? && Resolve(users, username.value).Found? ==> r == Some(Resolve(users, username.value).id)
    ensures username.Some? && !Resolve(users, username.value).Found? ==> r.None?
  {
    if username.None? then None
    else match Resolve(users, username.value)
      case Found(id) => Some(id)
      case _ => None
  }

  function Summarize(page: seq<Reaction>, caller: Option<nat>): (r: Summary)
    ensures forall t :: t in r.counts <==> t in Types(page)
    ensures r.total == SumCounts(page, Types(page))
    ensures caller.None? ==> r.userReaction.None?
    ensures r.counts == Counts(page)
    ensures r.total == |page|
    ensures caller.Some? ==> r.userReaction == FirstTypeBy(page, caller.value)
  {
    CountsSumToTotal(page);
    Summary(Counts(page), if caller.None? then None else FirstTypeBy(page, caller.value), |page|)
  }

  /** What getReactionSummary promises: the counts are keyed by the types on
      the page and sum to the total, the total is at most one page, and the
      caller's reaction is the first one of theirs on the page, or null. */
  lemma SummaryFacts(rows: seq<Reaction>, caller: Option<nat>)
    ensures var page := FirstPage(rows, SUMMARY_PAGE_SIZE); var s := Summarize(page, caller);
      && s.total <= SUMMARY_PAGE_SIZE
      && s.total == SumCounts(page, Types(page))
      && (forall t :: t in s.counts <==> t in Types(page))
      && (forall t :: t in s.counts ==> s.counts[t] == Count(page, t))
      && (caller.None? ==> s.userReaction.None?)
      && (caller.Some? ==> s.userReaction == FirstTypeBy(page, caller.value))
  {
    CountsSumToTotal(FirstPage(rows, SUMMARY_PAGE_SIZE));
  }

  // ---------------------------------------------------------------------
  // The service
  // ---------------------------------------------------------------------

  class PostService {
    const db: Db

    constructor(db: Db)
      ensures this.db == db
    {
      this.db := db;
    }

    /** getPendingPosts */
    function GetPendingPosts(): (r: set<Post>)
      reads db
      ensures forall p :: p in r <==> p in db.posts.Values && !p.approved
    {
      PostRepository.FindByApprovedFalse(db.posts)
    }

    /** getUserPendingPosts */
    function GetUserPendingPosts(userId: nat): (r: seq<Post>)
      requires db.Valid()
      reads db
      ensures forall p :: p in r <==> p in db.posts.Values && p.userId == userId && !p.approved
      ensures PostRepository.SortedByCreatedAtDesc(r)
    {
      PostRepository.FindByUserIdAndApprovedOrderByCreatedAtDesc(db.posts, userId, false)
    }

    /** getAllVisiblePosts, at the given time */
    function GetAllVisiblePosts(now: int): (r: set<Post>)
      reads db
      ensures forall p :: p in r <==> p in db.posts.Values && p.approved && p.expiresAt > now
    {
      PostRepository.FindVisiblePosts(db.posts, now)
    }

    /** getUserPosts */
    function GetUserPosts(userId: nat): (r: seq<Post>)
      requires db.Valid()
      reads db
      ensures forall p :: p in r <==> p in db.posts.Values && p.userId == userId
      ensures PostRepository.SortedByCreatedAtDesc(r)
    {
      PostRepository.FindByUserOrderByCreatedAtDesc(db.posts, userId)
    }

    /** createPost */
    method CreatePost(request: PostRequest, upload: UploadOutcome, now: int) returns (r: Result<Post, string>)
      requires db.Valid()
      modifies db
      ensures db.Valid()
      ensures request.userId !in old(db.users) ==> r == Failure(USER_NOT_FOUND)
      ensures request.userId in old(db.users) && !HasMedia(request.file) ==> r == Failure(MEDIA_REQUIRED)
      ensures request.userId in old(db.users) && HasMedia(request.file) && upload == IoError ==> r == Failure(UPLOAD_IO_FAILED)
      ensures request.userId in old(db.users) && HasMedia(request.file) && upload == StoreError ==> r == Failure(UPLOAD_FAILED)
      ensures r.Failure? ==> db.State() == old(db.State())
      ensures r.Success? <==> request.userId in old(db.users) && HasMedia(request.file) && upload.Uploaded?
      ensures r.Success? ==>
        var p := r.value;
        && p.id == old(db.nextPostId) && p.userId == request.userId
        && p.contentUrl == upload.secureUrl && p.caption == request.caption && p.createdAt == now
        && (request.story ==> p.postType == STORY && p.approved && p.expiresAt == now + STORY_LIFETIME)
        && (!request.story ==>
              && p.postType == POST && p.expiresAt == now + POST_LIFETIME
              && (p.approved <==> IsAdminAuthor(old(db.admins), old(db.users)[request.userId])))
        && db.State() == old(db.State()).(posts := old(db.posts)[p.id := p], nextPostId := old(db.nextPostId) + 1)
    {
      if request.userId !in db.users {
        return Failure(USER_NOT_FOUND);
      }
      var user := db.users[request.userId];
      if request.file.None? || request.file.value.size == 0 {
        return Failure(MEDIA_REQUIRED);
      }
      var contentUrl;
      match upload {
        case IoError => return Failure(UPLOAD_IO_FAILED);
        case StoreError => return Failure(UPLOAD_FAILED);
        case Uploaded(url) => contentUrl := url;
      }
      var post := Post(db.nextPostId, contentUrl, request.caption, "", false, now, now, user.id);
      if request.story {
        post := post.(expiresAt := now + STORY_LIFETIME, postType := STORY, approved := true);
      } else {
        post := post.(expiresAt := now + POST_LIFETIME, postType := POST);
        var isAdmin := DetectAdmin(user);
        post := post.(approved := isAdmin);
      }
      ghost var t0 := db.State();
      NewPostKeepsValid(t0, post);
      db.posts := db.posts[post.id := post];
      db.nextPostId := db.nextPostId + 1;
      assert db.State() == t0.(posts := t0.posts[post.id := post], nextPostId := t0.nextPostId + 1);
      r := Success(post);
    }

    /** createPost's admin test as the source performs it: the role test
        first, then the admin-table lookup. IsAdminAuthor is the function
        that specifies it, and CreatePost's contract is stated through that. */
    method DetectAdmin(user: User) returns (isAdmin: bool)
      ensures isAdmin == IsAdminAuthor(db.admins, user)
    {
      isAdmin := false;
      if user.role.Some? && (EqualsIgnoreCase(user.role.value, ADMIN) || EqualsIgnoreCase(user.role.value, MAIN_ADMIN)) {
        isAdmin := true;
      } else {
        var adminOpt := AdminByEmail(db.admins, user.email);
        if adminOpt.Found? {
          isAdmin := true;
        }
      }
    }

    /** approvePost */
    method ApprovePost(postId: nat) returns (r: Result<Post, string>)
      requires db.Valid()
      modifies db
      ensures db.Valid()
      ensures postId !in old(db.posts) ==> r == Failure(POST_NOT_FOUND) && db.State() == old(db.State())
      ensures postId in old(db.posts) ==>
        && r == Success(old(db.posts)[postId].(approved := true))
        && db.State() == old(db.State()).(posts := SetApproved(old(db.posts), postId, true))
    {
      if postId !in db.posts {
        return Failure(POST_NOT_FOUND);
      }
      var post := db.posts[postId];
      post := post.(approved := true);
      db.posts := db.posts[postId := post];
      r := Success(post);
    }

    /** rejectPost */
    method RejectPost(postId: nat) returns (r: Result<Post, string>)
      requires db.Valid()
      modifies db
      ensures db.Valid()
      ensures postId !in old(db.posts) ==> r == Failure(POST_NOT_FOUND) && db.State() == old(db.State())
      ensures postId in old(db.posts) ==>
        && r == Success(old(db.posts)[postId].(approved := false))
        && db.State() == old(db.State()).(posts := SetApproved(old(db.posts), postId, false))
    {
      if postId !in db.posts {
        return Failure(POST_NOT_FOUND);
      }
      var post := db.posts[postId];
      post := post.(approved := false);
      db.posts := db.posts[postId := post];
      r := Success(post);
    }

    /** getReactionSummary: the first 1000 reactions of the post in table order */
    function GetReactionSummary(postId: nat, currentUsername: Option<string>): (r: Result<Summary, string>)
      reads db
      ensures r.Failure? <==> postId !in db.posts
      ensures r.Success? ==> r.value == Summarize(FirstPage(ByPost(db.reactions, postId), SUMMARY_PAGE_SIZE), Caller(db.users, currentUsername))
    {
      if postId !in db.posts then Failure(POST_NOT_FOUND)
      else
        var reactions := FirstPage(ByPost(db.reactions, postId), SUMMARY_PAGE_SIZE);
        Success(Summarize(reactions, Caller(db.users, currentUsername)))
    }

    /** deletePost: the destroy request for the media and the cascade delete */
    method DeletePost(postId: nat) returns (r: Result<Option<Cloudinary.DestroyCall>, string>)
      requires db.Valid()
      modifies db
      ensures db.Valid()
      ensures postId !in old(db.posts) ==> r == Failure(POST_NOT_FOUND) && db.State() == old(db.State())
      ensures postId in old(db.posts) ==>
        && r == Success(Cloudinary.DeleteFile(old(db.posts)[postId].contentUrl))
        && db.State() == CascadeDelete(old(db.State()), postId)
    {
      if postId !in db.posts {
        return Failure(POST_NOT_FOUND);
      }
      var post := db.posts[postId];
      var destroy := Cloudinary.DeleteFile(post.contentUrl);
      ghost var t0 := db.State();
      CascadeDeleteKeepsValid(t0, postId);
      db.posts := db.posts - {postId};
      db.reactions := WithoutPost(db.reactions, postId);
      db.comments := CommentsWithoutPost(db.comments, postId);
      assert db.State() == CascadeDelete(t0, postId);
      r := Success(destroy);
    }

    /** addReaction: delete the caller's reactions to the post, then save the new one */
    method AddReaction(postId: nat, username: string, reactionType: string, now: int) returns (r: Result<(), string>)
      requires db.Valid()
      modifies db
      ensures db.Valid()
      ensures (r, db.State()) == AddReactionTo(old(db.State()), postId, username, reactionType, now)
    {
      ghost var t0 := db.State();
      AddReactionKeepsValid(t0, postId, username, reactionType, now);
      if postId !in db.posts {
        return Failure(POST_NOT_FOUND);
      }
      var user := Resolve(db.users, username);
      if user == NotFound {
        return Failure(USER_NOT_FOUND);
      } else if user == Ambiguous {
        return Failure(NOT_UNIQUE);
      }
      var reaction := Reaction(db.nextReactionId, reactionType, now, postId, user.id);
      db.reactions := ReplaceReaction(db.reactions, reaction);
      db.nextReactionId := db.nextReactionId + 1;
      assert db.State() == AddReactionTo(t0, postId, username, reactionType, now).1;
      r := Success(());
    }

    /** findUserForReactionOrComment */
    method FindUserForReactionOrComment(username: string) returns (r: Result<nat, string>)
      requires db.Valid()
      modifies db
      ensures db.Valid()
      ensures (r, db.State()) == ResolveOrBridge(old(db.State()), username)
    {
      ResolveOrBridgeStores(db.State(), username);
      var userOpt := Resolve(db.users, username);
      if userOpt.Found? {
        return Success(userOpt.id);
      } else if userOpt == Ambiguous {
        return Failure(NOT_UNIQUE);
      }
      var adminOpt := AdminByEmail(db.admins, username);
      if adminOpt.Found? {
        var admin := db.admins[adminOpt.id];
        var existingUser := ByEmail(db.users, admin.email);
        if existingUser.Found? {
          return Success(existingUser.id);
        } else if existingUser == Ambiguous {
          return Failure(NOT_UNIQUE);
        }
        if admin.name.None? {
          return Failure(NULL_USERNAME);
        }
        var adminUser := BridgeUser(admin, db.nextUserId);
        db.users := db.users[adminUser.id := adminUser];
        db.nextUserId := db.nextUserId + 1;
        return Success(adminUser.id);
      } else if adminOpt == Ambiguous {
        return Failure(NOT_UNIQUE);
      }
      r := Failure(USER_NOT_FOUND + ": " + username);
    }

    /** addComment */
    method AddComment(postId: nat, username: string, text: string, now: int) returns (r: Result<(), string>)
      requires db.Valid()
      modifies db
      ensures db.Valid()
      ensures (r, db.State()) == AddCommentTo(old(db.State()), postId, username, text, now)
    {
      ghost var t0 := db.State();
      if postId !in db.posts {
        assert AddCommentTo(t0, postId, username, text, now) == (Failure(POST_NOT_FOUND), t0);
        return Failure(POST_NOT_FOUND);
      }
      ResolveOrBridgeStores(t0, username);
      var user := FindUserForReactionOrComment(username);
      ghost var t1 := db.State();
      AddCommentThrough(t0, t1, user, postId, username, text, now);
      if user.Failure? {
        return Failure(user.error);
      }
      SaveComment(Comment(db.nextCommentId, text, now, postId, user.value));
      r := Success(());
    }

    /** commentRepository.save: the comment is appended under the next id. */
    method SaveComment(comment: Comment)
      requires db.Valid()
      requires comment.postId in db.posts && comment.userId in db.users
      modifies db
      ensures db.Valid()
      ensures db.State() == old(db.State()).(comments := old(db.comments) + [comment], nextCommentId := old(db.nextCommentId) + 1)
    {
      AppendCommentKeepsValid(db.State(), comment);
      db.comments := db.comments + [comment];
      db.nextCommentId := db.nextCommentId + 1;
    }

    /** deleteUserPost: the owner-or-admin rule, then the same delete as deletePost */
    method DeleteUserPost(postId: nat, currentUsername: string) returns (r: Result<Option<Cloudinary.DestroyCall>, string>)
      requires db.Valid()
      modifies db
      ensures db.Valid()
      ensures postId !in old(db.posts) ==> r == Failure(POST_NOT_FOUND)
      ensures postId in old(db.posts) && Authorize(old(db.State()), old(db.posts)[postId], currentUsername, DELETE_DENIED).Failure? ==>
        r == Failure(Authorize(old(db.State()), old(db.posts)[postId], currentUsername, DELETE_DENIED).error)
      ensures r.Failure? ==> db.State() == old(db.State())
      ensures r.Success? <==> postId in old(db.posts) && Authorize(old(db.State()), old(db.posts)[postId], currentUsername, DELETE_DENIED).Success?
      ensures r.Success? ==>
        && r.value == Cloudinary.DeleteFile(old(db.posts)[postId].contentUrl)
        && db.State() == CascadeDelete(old(db.State()), postId)
    {
      if postId !in db.posts {
        return Failure(POST_NOT_FOUND);
      }
      var post := db.posts[postId];
      var access := Authorize(db.State(), post, currentUsername, DELETE_DENIED);
      if access.Failure? {
        return Failure(access.error);
      }
      var destroy := Cloudinary.DeleteFile(post.contentUrl);
      ghost var t0 := db.State();
      CascadeDeleteKeepsValid(t0, postId);
      db.posts := db.posts - {postId};
      db.reactions := WithoutPost(db.reactions, postId);
      db.comments := CommentsWithoutPost(db.comments, postId);
      assert db.State() == CascadeDelete(t0, postId);
      r := Success(destroy);
    }

    /** updatePost: the owner-or-admin rule, then the caption when one is given */
    method UpdatePost(postId: nat, request: PostRequest, currentUsername: string) returns (r: Result<Post, string>)
      requires db.Valid()
      modifies db
      ensures db.Valid()
      ensures postId !in old(db.posts) ==> r == Failure(POST_NOT_FOUND)
      ensures postId in old(db.posts) && Authorize(old(db.State()), old(db.posts)[postId], currentUsername, EDIT_DENIED).Failure? ==>
        r == Failure(Authorize(old(db.State()), old(db.posts)[postId], currentUsername, EDIT_DENIED).error)
      ensures r.Failure? ==> db.State() == old(db.State())
      ensures r.Success? <==> postId in old(db.posts) && Authorize(old(db.State()), old(db.posts)[postId], currentUsername, EDIT_DENIED).Success?
      ensures r.Success? ==>
        && r.value == (if request.caption.Some? then old(db.posts)[postId].(caption := request.caption) else old(db.posts)[postId])
        && db.State() == old(db.State()).(posts := old(db.posts)[postId := r.value])
    {
      if postId !in db.posts {
        return Failure(POST_NOT_FOUND);
      }
      var post := db.posts[postId];
      var access := Authorize(db.State(), post, currentUsername, EDIT_DENIED);
      if access.Failure? {
        return Failure(access.error);
      }
      if request.caption.Some? {
        post := post.(caption := request.caption);
      }
      ghost var t0 := db.State();
      RewritePostKeepsValid(t0, post);
      db.posts := db.posts[postId := post];
      assert db.State() == t0.(posts := t0.posts[postId := post]);
      r := Success(post);
    }
  }
}
