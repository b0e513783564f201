/** The persisted records of the application. Times are whole seconds
    (LocalDateTime and Instant), dates are day numbers (LocalDate); a
    `None` field is a null column. */
module Entities {
  import opened Common

  const STORY := "STORY"
  const POST := "POST"
  const ADMIN := "ADMIN"
  const MAIN_ADMIN := "MAIN_ADMIN"
  const PENDING := "PENDING"
  const APPROVED := "APPROVED"
  const REJECTED := "REJECTED"

  /** A post or story; `userId` is the owning user (many-to-one). Its
      comments and reactions live in their own tables and point back at it. */
  datatype Post = Post(
    id: nat,
    contentUrl: Option<string>,
    caption: Option<string>,
    postType: string,
    approved: bool,
    createdAt: int,
    expiresAt: int,
    userId: nat)

  /** The optional personal details an account carries. */
  datatype Profile = Profile(
    dlNumber: Option<string>,
    fatherName: Option<string>,
    dateOfBirth: Option<int>,
    badgeNumber: Option<string>,
    address: Option<string>,
    bloodGroup: Option<string>,
    whatsappNumber: Option<string>,
    nomineeName: Option<string>,
    nomineeRelationship: Option<string>,
    nomineeContactNumber: Option<string>)

  const EmptyProfile := Profile(None, None, None, None, None, None, None, None, None, None)

  /** A registered member. */
  datatype User = User(
    id: nat,
    username: string,
    name: Option<string>,
    email: string,
    passwordHash: Option<string>,
    mobileNumber: Option<string>,
    role: Option<string>,
    approvalStatus: Option<string>,
    active: bool,
    dateOfJoiningOrRenewal: Option<int>,
    expiryDate: Option<int>,
    imageUrl: Option<string>,
    imagePublicId: Option<string>,
    createdAt: Option<int>,
    updatedAt: Option<int>,
    profile: Profile)

  /** An administrator account, kept apart from the users. */
  datatype Admin = Admin(
    id: nat,
    name: Option<string>,
    email: string,
    mobileNumber: Option<string>,
    passwordHash: Option<string>,
    role: Option<string>,
    mainAdmin: bool,
    emailVerified: bool,
    mobileVerified: bool,
    imageUrl: Option<string>,
    imagePublicId: Option<string>,
    createdAt: Option<int>,
    updatedAt: Option<int>,
    profile: Profile)

  /** One user's reaction (LIKE, DISLIKE, ...) to one post. */
  datatype Reaction = Reaction(id: nat, reactionType: string, createdAt: int, postId: nat, userId: nat)

  /** One user's comment on one post. */
  datatype Comment = Comment(id: nat, text: string, createdAt: int, postId: nat, userId: nat)

  /** The role test shared by post creation and the ownership check:
      the role equals ADMIN or MAIN_ADMIN, ignoring case. */
  predicate IsAdminRole(role: string)
  {
    EqualsIgnoreCase(role, ADMIN) || EqualsIgnoreCase(role, MAIN_ADMIN)
  }
}
