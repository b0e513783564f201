/** The account-moderation endpoints of the admin controller: admin
    creation, admin lookup, the pending-user queue, approval and rejection
    of users, and the rule for who may replace an admin's image. The date
    (`today`, a day number), the instant and the password encoder are
    parameters; the image store's answer is too. */
module Admins {
  import opened Common
  import opened Entities
  import Store

  const ROLE_ADMIN := "ROLE_ADMIN"
  const ROLE_MAIN_ADMIN := "ROLE_MAIN_ADMIN"
  /** The membership window: expiryDate = dateOfJoiningOrRenewal + 364 days. */
  const MEMBERSHIP_DAYS := 364

  const EMAIL_REQUIRED := "Email is required"
  const EMAIL_EXISTS := "Admin email already exists"
  const OWN_IMAGE_ONLY := "Admin can only upload their own image"
  const USER_REJECTED := "User rejected"
  const UPLOADED := "Uploaded"
  /** BCrypt refuses to encode a null password. */
  const NULL_PASSWORD := "IllegalArgumentException"
  /** An unhandled exception inside a handler becomes a 500. */
  const NULL_AUTHENTICATION := "NullPointerException"

  /** The HTTP answer of a handler. */
  datatype Response<+T> = Ok(body: T) | BadRequest(message: string) | NotFound | Forbidden(message: string) | ServerError(message: string)

  /** AccountCreateRequest, with its optional personal details grouped. */
  datatype AccountCreateRequest = AccountCreateRequest(
    name: Option<string>,
    email: Option<string>,
    mobileNumber: Option<string>,
    password: Option<string>,
    profile: Profile)

  /** The caller's Authentication: its name and granted authorities. */
  datatype Authentication = Authentication(name: Option<string>, authorities: seq<string>)

  /** What the image service answered. */
  datatype ImageUpload = UploadFailed(message: string) | Uploaded(url: Option<string>, publicId: Option<string>)

  datatype ImageUploadResponse = ImageUploadResponse(url: Option<string>, publicId: Option<string>, message: string)

  // ---------------------------------------------------------------------
  // The rules, as functions
  // ---------------------------------------------------------------------

  /** adminRepository.existsByEmail(email.toLowerCase()) */
  function EmailTaken(admins: map<nat, Admin>, email: string): (r: bool)
    ensures r <==> Store.AdminByEmail(admins, ToLower(email)) != Store.NotFound
  {
    exists id :: id in admins && admins[id].email == ToLower(email)
  }

  /** Once an admin is stored, any spelling of the email that differs only
      in case is taken. */
  lemma CaseVariantIsTaken(admins: map<nat, Admin>, id: nat, a: Admin, e1: string, e2: string)
    requires a.email == ToLower(e1) && EqualsIgnoreCase(e1, e2)
    ensures EmailTaken(admins[id := a], e2)
  {
    LowerCaseEquality(e1, e2);
    assert admins[id := a][id].email == ToLower(e2);
  }

  /** The admin createAdmin stores: the email in lower case, the encoded
      password, and the three flags off. */
  function NewAdmin(req: AccountCreateRequest, id: nat, passwordHash: string): (a: Admin)
    requires req.email.Some?
    ensures a.id == id && a.email == ToLower(req.email.value) && a.passwordHash == Some(passwordHash)
    ensures !a.mainAdmin && !a.emailVerified && !a.mobileVerified
    ensures a.name == req.name && a.mobileNumber == req.mobileNumber && a.profile == req.profile
  {
    Admin(id, req.name, ToLower(req.email.value), req.mobileNumber, Some(passwordHash), None,
          false, false, false, None, None, None, None, req.profile)
  }

  /** Storing the new admin under the next id keeps the tables valid when
      its email is not taken. */
  lemma NewAdminKeepsValid(t: Store.Tables, req: AccountCreateRequest, passwordHash: string)
    requires Store.ValidTables(t)
    requires req.email.Some? && !EmailTaken(t.admins, req.email.value)
    ensures var a := NewAdmin(req, t.nextAdminId, passwordHash);
      Store.ValidTables(t.(admins := t.admins[a.id := a], nextAdminId := t.nextAdminId + 1))
  {
  }

  /** The users whose approvalStatus is the given one, among ids below n, by ascending id. */
  function WithStatus(users: map<nat, User>, status: string, n: nat): (r: seq<User>)
    requires forall id :: id in users ==> users[id].id == id
    ensures forall u :: u in r <==> exists id :: 0 <= id < n && id in users && users[id].approvalStatus == Some(status) && u == users[id]
    ensures forall i :: 0 <= i < |r| ==> r[i].id < n
    ensures forall i, j :: 0 <= i < j < |r| ==> r[i].id < r[j].id
  {
    if n == 0 then []
    else
      var prefix := WithStatus(users, status, n - 1);
      if n - 1 in users && users[n - 1].approvalStatus == Some(status) then prefix + [users[n - 1]] else prefix
  }

  /** userRepository.findByApprovalStatus(status) */
  function FindByApprovalStatus(t: Store.Tables, status: string): (r: seq<User>)
    requires Store.ValidTables(t)
    ensures forall u :: u in r <==> exists id :: id in t.users && t.users[id].approvalStatus == Some(status) && u == t.users[id]
    ensures forall i, j :: 0 <= i < j < |r| ==> r[i].id < r[j].id
  {
    WithStatus(t.users, status, t.nextUserId)
  }

  /** The records as returned, each with its password hash cleared. */
  function WithoutHashes(us: seq<User>): (r: seq<User>)
    ensures |r| == |us|
    ensures forall i :: 0 <= i < |r| ==> r[i] == us[i].(passwordHash := None)
  {
    if us == [] then [] else [us[0].(passwordHash := None)] + WithoutHashes(us[1..])
  }

  /** What getPendingUsers returns: exactly the PENDING users, each once and
      by ascending id, none of them with a password hash. */
  lemma PendingUsersSpec(t: Store.Tables)
    requires Store.ValidTables(t)
    ensures var r := WithoutHashes(FindByApprovalStatus(t, PENDING));
      && (forall u :: u in r <==>
            exists id :: id in t.users && t.users[id].approvalStatus == Some(PENDING) && u == t.users[id].(passwordHash := None))
      && (forall i :: 0 <= i < |r| ==> r[i].passwordHash.None?)
      && (forall i, j :: 0 <= i < j < |r| ==> r[i].id < r[j].id)
  {
    var pending := FindByApprovalStatus(t, PENDING);
    var r := WithoutHashes(pending);
    forall u | u in r
      ensures exists id :: id in t.users && t.users[id].approvalStatus == Some(PENDING) && u == t.users[id].(passwordHash := None)
    {
      var k :| 0 <= k < |r| && r[k] == u;
      assert pending[k] in pending;
    }
    forall id | id in t.users && t.users[id].approvalStatus == Some(PENDING)
      ensures t.users[id].(passwordHash := None) in r
    {
      assert t.users[id] in pending;
      var k :| 0 <= k < |pending| && pending[k] == t.users[id];
      assert r[k] == t.users[id].(passwordHash := None);
    }
  }

  /** The user after approveUser: approved and active, a fresh 364-day window from today,
      and both timestamps at the approval instant. */
  function Approve(u: User, today: int, instant: int): (r: User)
    ensures r.approvalStatus == Some(APPROVED) && r.active
    ensures r.dateOfJoiningOrRenewal == Some(today) && r.expiryDate == Some(today + MEMBERSHIP_DAYS)
    ensures r.createdAt == Some(instant) && r.updatedAt == Some(instant)
    ensures r.id == u.id && r.username == u.username && r.email == u.email && r.passwordHash == u.passwordHash
    ensures r.role == u.role && r.profile == u.profile && r.mobileNumber == u.mobileNumber
  {
    u.(approvalStatus := Some(APPROVED), dateOfJoiningOrRenewal := Some(today), expiryDate := Some(today + MEMBERSHIP_DAYS),
       active := true, createdAt := Some(instant), updatedAt := Some(instant))
  }

  /** The user after rejectUser: rejected and inactive; the membership window stays as it was. */
  function Reject(u: User, instant: int): (r: User)
    ensures r.approvalStatus == Some(REJECTED) && !r.active
    ensures r.dateOfJoiningOrRenewal == u.dateOfJoiningOrRenewal && r.expiryDate == u.expiryDate
    ensures r.updatedAt == Some(instant) && r.createdAt == u.createdAt
    ensures r.id == u.id && r.username == u.username && r.email == u.email && r.passwordHash == u.passwordHash
    ensures r.role == u.role && r.profile == u.profile && r.mobileNumber == u.mobileNumber
  {
    u.(approvalStatus := Some(REJECTED), active := false, updatedAt := Some(instant))
  }

  /** Approving renews: whatever happened before, the last approval alone
      decides the window and the state. */
  lemma LastApprovalDecides(u: User, t1: int, i1: int, t2: int, i2: int)
    ensures Approve(Approve(u, t1, i1), t2, i2) == Approve(u, t2, i2)
    ensures Approve(Reject(u, i1), t2, i2) == Approve(u, t2, i2)
  {
  }

  /** Rejecting an approved user keeps the window that approval set. */
  lemma RejectKeepsWindow(u: User, today: int, i1: int, i2: int)
    ensures var r := Reject(Approve(u, today, i1), i2);
      r.dateOfJoiningOrRenewal == Some(today) && r.expiryDate == Some(today + MEMBERSHIP_DAYS) && !r.active
  {
  }

  /** The check before an image upload: an ADMIN who is not also MAIN_ADMIN
      may only touch the admin whose email is their principal name, ignoring case. */
  function MayUploadFor(auth: Authentication, admin: Admin): (r: bool)
    ensures ROLE_MAIN_ADMIN in auth.authorities ==> r
    ensures ROLE_ADMIN !in auth.authorities ==> r
    ensures auth.name == Some(admin.email) ==> r
    ensures ROLE_ADMIN in auth.authorities && ROLE_MAIN_ADMIN !in auth.authorities && auth.name.None? ==> !r
  {
    var adminOnly := ROLE_ADMIN in auth.authorities;
    var mainAdmin := ROLE_MAIN_ADMIN in auth.authorities;
    !(adminOnly && !mainAdmin) || (auth.name.Some? && EqualsIgnoreCase(auth.name.value, admin.email))
  }

  /** A plain ADMIN may upload only for themselves; a MAIN_ADMIN may upload for anyone. */
  lemma UploadRule(auth: Authentication, admin: Admin)
    ensures ROLE_MAIN_ADMIN in auth.authorities ==> MayUploadFor(auth, admin)
    ensures ROLE_ADMIN in auth.authorities && ROLE_MAIN_ADMIN !in auth.authorities ==>
      (MayUploadFor(auth, admin) <==> auth.name.Some? && EqualsIgnoreCase(auth.name.value, admin.email))
  {
  }

  /** The authority names are compared exactly: "role_admin" is not ROLE_ADMIN,
      so it does not restrict the caller. */
  lemma AuthorityNamesAreExact(admin: Admin)
    ensures MayUploadFor(Authentication(None, ["role_admin"]), admin)
    ensures !MayUploadFor(Authentication(None, [ROLE_ADMIN]), admin)
  {
    assert "role_admin" != ROLE_ADMIN by { assert "role_admin"[0] != ROLE_ADMIN[0]; }
  }

  // ---------------------------------------------------------------------
  // The controller
  // ---------------------------------------------------------------------

  class AdminController {
    const db: Store.Db

    constructor(db: Store.Db)
      ensures this.db == db
    {
      this.db := db;
    }

    /** getAdminById: the stored admin with its password hash cleared on the returned copy */
    function GetAdminById(id: nat): (r: Response<Admin>)
      reads db
      ensures r.Ok? <==> id in db.admins
      ensures !r.Ok? ==> r == NotFound
      ensures r.Ok? ==> r.body.passwordHash.None? && r.body == db.admins[id].(passwordHash := None)
    {
      if id in db.admins then Ok(db.admins[id].(passwordHash := None)) else NotFound
    }

    /** createAdmin; `encode` is the password encoder */
    method CreateAdmin(req: AccountCreateRequest, encode: string -> string) returns (r: Response<Admin>)
      requires db.Valid()
      modifies db
      ensures db.Valid()
      ensures req.email.None? || IsBlank(req.email.value) ==> r == BadRequest(EMAIL_REQUIRED)
      ensures req.email.Some? && !IsBlank(req.email.value) && EmailTaken(old(db.admins), req.email.value) ==> r == BadRequest(EMAIL_EXISTS)
      ensures !r.Ok? ==> db.State() == old(db.State())
      ensures r.Ok? <==> req.email.Some? && !IsBlank(req.email.value) && !EmailTaken(old(db.admins), req.email.value) && req.password.Some?
      ensures r.Ok? ==>
        var a := NewAdmin(req, old(db.nextAdminId), encode(req.password.value));
        && r.body == a.(passwordHash := None)
        && db.State() == old(db.State()).(admins := old(db.admins)[a.id := a], nextAdminId := old(db.nextAdminId) + 1)
    {
      if req.email.None? || IsBlank(req.email.value) {
        return BadRequest(EMAIL_REQUIRED);
      }
      var email := ToLower(req.email.value);
      if EmailTaken(db.admins, req.email.value) {
        return BadRequest(EMAIL_EXISTS);
      }
      if req.password.None? {
        return ServerError(NULL_PASSWORD);
      }
      ghost var t0 := db.State();
      NewAdminKeepsValid(t0, req, encode(req.password.value));
      var a := Admin(db.nextAdminId, None, "", None, None, None, false, false, false, None, None, None, None, EmptyProfile);
      a := a.(name := req.name);
      a := a.(email := email);
      a := a.(mobileNumber := req.mobileNumber);
      a := a.(passwordHash := Some(encode(req.password.value)));
      a := a.(mainAdmin := false, emailVerified := false, mobileVerified := false);
      a := a.(profile := req.profile);
      assert a == NewAdmin(req, t0.nextAdminId, encode(req.password.value));
      db.admins := db.admins[a.id := a];
      db.nextAdminId := db.nextAdminId + 1;
      assert db.State() == t0.(admins := t0.admins[a.id := a], nextAdminId := t0.nextAdminId + 1);
      a := a.(passwordHash := None);
      r := Ok(a);
    }

    /** getPendingUsers: the query, then a pass clearing each returned record's password hash */
    method GetPendingUsers() returns (r: Response<seq<User>>)
      requires db.Valid()
      ensures r == Ok(WithoutHashes(FindByApprovalStatus(db.State(), PENDING)))
    {
      var pending := FindByApprovalStatus(db.State(), PENDING);
      var list := new User[|pending|](i requires 0 <= i < |pending| => pending[i]);
      var i := 0;
      while i < list.Length
        invariant 0 <= i <= list.Length
        invariant forall k :: 0 <= k < i ==> list[k] == pending[k].(passwordHash := None)
        invariant forall k :: i <= k < list.Length ==> list[k] == pending[k]
      {
        list[i] := list[i].(passwordHash := None);
        i := i + 1;
      }
      assert list[..] == WithoutHashes(pending);
      r := Ok(list[..]);
    }

    /** approveUser */
    method ApproveUser(id: nat, today: int, instant: int) returns (r: Response<User>)
      requires db.Valid()
      modifies db
      ensures db.Valid()
      ensures id !in old(db.users) ==> r == NotFound && db.State() == old(db.State())
      ensures id in old(db.users) ==>
        var u := Approve(old(db.users)[id], today, instant);
        && r == Ok(u.(passwordHash := None))
        && db.State() == old(db.State()).(users := old(db.users)[id := u])
    {
      if id !in db.users {
        return NotFound;
      }
      var u := db.users[id];
      var doj := today;
      u := u.(approvalStatus := Some(APPROVED));
      u := u.(dateOfJoiningOrRenewal := Some(doj));
      u := u.(expiryDate := Some(doj + MEMBERSHIP_DAYS));
      u := u.(active := true);
      u := u.(createdAt := Some(instant));
      u := u.(updatedAt := Some(instant));
      db.users := db.users[id := u];
      u := u.(passwordHash := None);
      r := Ok(u);
    }

    /** rejectUser; the optional reason in the body is not used */
    method RejectUser(id: nat, instant: int) returns (r: Response<string>)
      requires db.Valid()
      modifies db
      ensures db.Valid()
      ensures id !in old(db.users) ==> r == NotFound && db.State() == old(db.State())
      ensures id in old(db.users) ==>
        && r == Ok(USER_REJECTED)
        && db.State() == old(db.State()).(users := old(db.users)[id := Reject(old(db.users)[id], instant)])
    {
      if id !in db.users {
        return NotFound;
      }
      var u := db.users[id];
      u := u.(approvalStatus := Some(REJECTED));
      u := u.(active := false);
      u := u.(updatedAt := Some(instant));
      db.users := db.users[id := u];
      r := Ok(USER_REJECTED);
    }

    /** uploadAdminImage: the image goes to the "ardu_admins" folder of the image service */
    method UploadAdminImage(id: nat, auth: Option<Authentication>, upload: ImageUpload, instant: int)
      returns (r: Response<ImageUploadResponse>)
      requires db.Valid()
      modifies db
      ensures db.Valid()
      ensures id !in old(db.admins) ==> r == NotFound
      ensures id in old(db.admins) && auth.None? ==> r == ServerError(NULL_AUTHENTICATION)
      ensures id in old(db.admins) && auth.Some? && !MayUploadFor(auth.value, old(db.admins)[id]) ==> r == Forbidden(OWN_IMAGE_ONLY)
      ensures id in old(db.admins) && auth.Some? && MayUploadFor(auth.value, old(db.admins)[id]) && upload.UploadFailed? ==>
        r == ServerError("Upload failed: " + upload.message)
      ensures !r.Ok? ==> db.State() == old(db.State())
      ensures r.Ok? <==> id in old(db.admins) && auth.Some? && MayUploadFor(auth.value, old(db.admins)[id]) && upload.Uploaded?
      ensures r.Ok? ==>
        && r.body == ImageUploadResponse(upload.url, upload.publicId, UPLOADED)
        && db.State() == old(db.State()).(admins := old(db.admins)[id :=
             old(db.admins)[id].(imageUrl := upload.url, imagePublicId := upload.publicId, updatedAt := Some(instant))])
    {
      if id !in db.admins {
        return NotFound;
      }
      var a := db.admins[id];
      if auth.None? {
        return ServerError(NULL_AUTHENTICATION);
      }
      var principalEmail := auth.value.name;
      var isAdminRoleOnly := ROLE_ADMIN in auth.value.authorities;
      var isMainAdmin := ROLE_MAIN_ADMIN in auth.value.authorities;
      if isAdminRoleOnly && !isMainAdmin {
        if principalEmail.None? || !EqualsIgnoreCase(principalEmail.value, a.email) {
          return Forbidden(OWN_IMAGE_ONLY);
        }
      }
      match upload {
        case UploadFailed(message) =>
          return ServerError("Upload failed: " + message);
        case Uploaded(url, publicId) =>
          a := a.(imageUrl := url);
          a := a.(imagePublicId := publicId);
          a := a.(updatedAt := Some(instant));
          db.admins := db.admins[id := a];
          r := Ok(ImageUploadResponse(url, publicId, UPLOADED));
      }
    }
  }
}
