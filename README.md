# ARDU backend core in Dafny

This project models the domain core of the ARDU Spring backend: posts and
stories, their moderation, reactions and comments, account moderation by
admins, and the media-store adapter's URL handling. The JPA repositories
are replaced by an in-memory database (`Store.Db`). It holds maps from id to
`Post`, `User` and `Admin`, the reaction and comment tables as sequences in
insertion order, and the next id of each IDENTITY column.

Modules, one per part of the program:

- `Common`: `Option` (a nullable reference) and `Result` (a value or the exception thrown). Also the `java.lang.String` operations the code uses: `isBlank`, `toLowerCase`, `equalsIgnoreCase`, `startsWith`, `contains`.
- `Entities`: the persisted records `Post`, `User`, `Admin`, `Reaction` and `Comment`.
- `PostRepository`: the JPQL and derived queries, as functions over the post table.
- `Store`: the tables and their integrity invariant (`ValidTables`). It also holds the single-result finders (`findByUsername`, `findByEmail`, which fail when several rows match) and the reaction table's derived queries.
- `Cloudinary`: an exact model of the pattern `/v\d+/[a-zA-Z]+/(.+?)(?:\.\w+)?$` under `Matcher.find()`. It covers `extractPublicIdFromUrl`, the destroy request `deleteFile` makes, and the upload options.
- `Posts`: the post service, as the class `PostService` over the database. Most state-changing operations are specified by a function of the tables, and lemmas prove the properties of those functions. `CreatePost`, `ApprovePost` and `UpdatePost` state the new tables directly in their postconditions.
- `Admins`: the admin controller, as the class `AdminController`.

Time is a parameter:

- `now` is a `LocalDateTime` in seconds. A story lives `24 * 3600` seconds and a post `7 * 24 * 3600`.
- `today` is a `LocalDate` as a day number.
- `instant` is an `Instant`.

Whatever a remote service answers is a parameter too: the upload outcome, the image service's result, and the password encoder.

Behaviour of the code that the model keeps, and proves:

- `extractPublicIdFromUrl` returns the text after the letters-only segment that follows the version, so the folder is not part of the result. The comment above the method says otherwise. The model follows the code (`Cloudinary.UploadUrlYieldsName`).
- A folder containing `_` breaks the letters-only segment. The store's own folder `ardu_media` is one, so for such URLs the result is null, as long as the host and the name hold no `/v<digit>` marker of their own, and `deleteFile` sends no destroy request (`Cloudinary.StoreFolderYieldsNoId`).
- The extension is removed twice, once by the pattern and once by `lastIndexOf('.')`. A name such as `x.y.z.jpg` gives `x.y`, so a public id can still contain a dot (`Cloudinary.ResultMayContainDot`).
- `deleteFile` picks the resource type `video` only when the public id contains `/video/`. A public id taken from a delivery URL never does when the name has no `/`, so such media is destroyed as an image (`Cloudinary.UploadsAreDestroyedAsImages`).
- `getReactionSummary` (src/main/java/com/example/ARDU/service/PostService.java:188) has a `catch` with no `try`, so the file does not compile as written. The model follows its evident intent: a caller who cannot be resolved gets a null `userReaction`.
- In `findUserForReactionOrComment`, the branch that looks the admin's email up among users can never return a user. The lookup by email of the same name has already failed, and the admin's email is that name (`Posts.EmailBranchIsDead`).
- The password hash is cleared only on the returned copy; that change is never saved. `getAdminById`, `createAdmin`, `approveUser` and `getPendingUsers` are modelled that way, and the stored row keeps its hash.

Behaviour of the code that a reader might not expect:

- Only `addComment` creates a user row for an admin. `addReaction` fails for an admin who has none.
- `deletePost` has no ownership check.
- The image-upload rule restricts only callers holding `ROLE_ADMIN` without `ROLE_MAIN_ADMIN`. A caller holding neither authority passes it.
- A non-owner whose role is null fails with a `NullPointerException`, not an authorization error.

## Model

| member | source | states |
|---|---|---|
| Common.IsBlank | src/main/java/com/example/ARDU/controller/AdminController.java:67 | true for the empty string, and true iff every character is whitespace |
| Common.ToLower | src/main/java/com/example/ARDU/controller/AdminController.java:70 | the same length, each ASCII capital replaced by its lower-case letter and every other character kept |
| Common.EqualsIgnoreCase | src/main/java/com/example/ARDU/service/PostService.java:108-109 | every string equals itself ignoring case, and strings equal ignoring case have the same length |
| Common.StartsWith | src/main/java/com/example/ARDU/service/CloudinaryService.java:49 | true iff the prefix fits and agrees character by character; a string contains each of its prefixes |
| Common.Contains | src/main/java/com/example/ARDU/service/CloudinaryService.java:90 | true iff the text occurs at some position |
| PostRepository.FindVisiblePosts | src/main/java/com/example/ARDU/repository/PostRepository.java:17-18 | exactly the stored posts with approved = true and expiresAt > now |
| PostRepository.ExpiringNowIsNotVisible | src/main/java/com/example/ARDU/repository/PostRepository.java:17 | a post expiring exactly at now is not visible (strict comparison) |
| PostRepository.FindByApprovedFalse | src/main/java/com/example/ARDU/repository/PostRepository.java:21 | exactly the stored posts with approved = false |
| PostRepository.PendingIsNotVisible | src/main/java/com/example/ARDU/repository/PostRepository.java:17-21 | the moderation queue and the feed are disjoint |
| PostRepository.FindByExpiresAtBefore | src/main/java/com/example/ARDU/repository/PostRepository.java:24 | exactly the stored posts with expiresAt < before |
| PostRepository.VisibleShrinksOverTime | src/main/java/com/example/ARDU/repository/PostRepository.java:17-18 | nothing sweeps expired posts: a later feed is a subset of an earlier one |
| PostRepository.EveryPostVisiblePendingOrExpired | src/main/java/com/example/ARDU/repository/PostRepository.java:17-24 | every post is visible, pending, or expired at or before now |
| PostRepository.OrderByCreatedAtDesc | src/main/java/com/example/ARDU/repository/PostRepository.java:26-29 | the selected rows, each once, every row before the next in createdAt-descending order (ties by id) |
| PostRepository.FindByUserIdAndApprovedOrderByCreatedAtDesc | src/main/java/com/example/ARDU/repository/PostRepository.java:26 | all and only the user's posts with the given flag, without duplicates, createdAt non-increasing |
| PostRepository.FindByUserOrderByCreatedAtDesc | src/main/java/com/example/ARDU/repository/PostRepository.java:28-29 | all and only the user's posts, without duplicates, createdAt non-increasing |
| Store.Unique | src/main/java/com/example/ARDU/service/PostService.java:218-220 | a single-result finder: nothing, the one matching row, or a failure when two rows match |
| Store.ByUsername | src/main/java/com/example/ARDU/service/PostService.java:218 | the user holding that username, when exactly one does; NotFound iff none does; Ambiguous iff two different users hold it |
| Store.ByEmail | src/main/java/com/example/ARDU/service/PostService.java:219 | the user with that email; never ambiguous while emails are unique |
| Store.AdminByEmail | src/main/java/com/example/ARDU/service/PostService.java:114 | the admin with that email; never ambiguous while admin emails are distinct |
| Store.Resolve | src/main/java/com/example/ARDU/service/PostService.java:218-220 | username first, email only when no user has that username; two users holding the username make it Ambiguous, never a fall-back to the email; with unique emails it is Ambiguous only then, so a single username holder or a single email holder is Found; NotFound iff no user has the name as username or email |
| Store.EmailWins | src/main/java/com/example/ARDU/service/PostService.java:218-220 | with unique emails, a name no user holds as username resolves to the user holding it as email |
| Store.UsernameWins | src/main/java/com/example/ARDU/service/PostService.java:353-354 | a username held once resolves to its user whatever the emails say |
| Store.ReplaceKeepsOne | src/main/java/com/example/ARDU/service/PostService.java:223-238 | after delete-then-save, the (post, user) pair has exactly the new reaction |
| Store.ReplaceKeepsOthers | src/main/java/com/example/ARDU/service/PostService.java:223-238 | every other (post, user) pair keeps its reactions, in order |
| Store.ReplaceReactionPairs | src/main/java/com/example/ARDU/service/PostService.java:223-238 | both at once: the pair holds the new reaction alone, and every other pair is untouched |
| Store.SecondReactionWins | src/main/java/com/example/ARDU/service/PostService.java:223-238 | LIKE then DISLIKE by the same user on the same post leaves only the DISLIKE |
| Store.ByPost | src/main/java/com/example/ARDU/service/PostService.java:166 | the reactions of one post, no more than the table holds; a reaction is in it iff it is in the table and belongs to the post |
| Store.ByPostMultiplicity | src/main/java/com/example/ARDU/service/PostService.java:166 | each of the post's reactions appears as often as the table holds it, and no other reaction appears |
| Store.WithoutPair | src/main/java/com/example/ARDU/service/PostService.java:223-226 | the table without that user's reactions to that post; every other reaction stays |
| Store.ReplaceReaction | src/main/java/com/example/ARDU/service/PostService.java:223-238 | the new reaction comes last; before it stand exactly the old reactions of every other (post, user) pair |
| Store.WithoutPost | src/main/java/com/example/ARDU/entity/Post.java:35-37 | the reaction table without the deleted post's reactions, and nothing else removed |
| Store.WithoutPostMultiplicity | src/main/java/com/example/ARDU/entity/Post.java:35-37 | every other post's reaction survives as often as the table holds it; none of the deleted post's does |
| Store.CommentsWithoutPost | src/main/java/com/example/ARDU/entity/Post.java:31-33 | the comment table without the deleted post's comments, and nothing else removed |
| Store.CommentsWithoutPostMultiplicity | src/main/java/com/example/ARDU/entity/Post.java:31-33 | every other post's comment survives as often as the table holds it; none of the deleted post's does |
| Posts.PostService.CreatePost | src/main/java/com/example/ARDU/service/PostService.java:73-131 | fails, storing nothing, on unknown user, then on a null or empty file, then on an upload error; otherwise stores one post with the next id: a story is STORY, approved, expiring now + 24h; a post is POST, expiring now + 7d, approved iff the author's role is ADMIN/MAIN_ADMIN ignoring case or the author's email is in the admin table |
| Posts.IsAdminAuthor | src/main/java/com/example/ARDU/service/PostService.java:105-119 | a role equal to ADMIN or MAIN_ADMIN ignoring case makes the author an admin, and so does a row in the admin table with the author's email; with a null or other role (such as USER) and no such row, the author is not an admin |
| Posts.PostService.DetectAdmin | src/main/java/com/example/ARDU/service/PostService.java:105-119 | the role test, then the admin-table lookup, decide exactly as IsAdminAuthor does |
| Posts.NewPostKeepsValid | src/main/java/com/example/ARDU/service/PostService.java:129 | storing a new post of a stored user under the next id keeps the tables valid |
| Posts.SetApproved | src/main/java/com/example/ARDU/service/PostService.java:133-146 | only the flag of that one post changes |
| Posts.SetApprovedIdempotent | src/main/java/com/example/ARDU/service/PostService.java:133-146 | approving (rejecting) twice is approving (rejecting) once |
| Posts.ApprovedJoinsFeed | src/main/java/com/example/ARDU/service/PostService.java:133-138 | an approved post is in the feed iff unexpired, and not in the moderation queue |
| Posts.RejectedLeavesFeed | src/main/java/com/example/ARDU/service/PostService.java:140-146 | a rejected post is not in the feed and is in the moderation queue |
| Posts.PostService.ApprovePost | src/main/java/com/example/ARDU/service/PostService.java:133-138 | "Post not found" with nothing changed on an unknown id; otherwise only that post's approved flag becomes true |
| Posts.PostService.RejectPost | src/main/java/com/example/ARDU/service/PostService.java:140-146 | "Post not found" with nothing changed on an unknown id; otherwise only that post's approved flag becomes false |
| Posts.PostService.GetPendingPosts | src/main/java/com/example/ARDU/service/PostService.java:53-55 | exactly the unapproved posts |
| Posts.PostService.GetUserPendingPosts | src/main/java/com/example/ARDU/service/PostService.java:65-67 | exactly the user's unapproved posts, newest first |
| Posts.PostService.GetAllVisiblePosts | src/main/java/com/example/ARDU/service/PostService.java:152-155 | exactly the approved posts expiring after now |
| Posts.PostService.GetUserPosts | src/main/java/com/example/ARDU/service/PostService.java:277-279 | exactly the user's posts, newest first |
| Posts.Types | src/main/java/com/example/ARDU/service/PostService.java:170-171 | the distinct reaction types present on the page |
| Posts.Count | src/main/java/com/example/ARDU/service/PostService.java:170-171 | at most the page length, and positive iff the type occurs; its exact value is fixed by CountAppend and CountSingle |
| Posts.CountAppend | src/main/java/com/example/ARDU/service/PostService.java:170-171 | the count of a type over two pages joined is the sum of the two counts |
| Posts.CountSingle | src/main/java/com/example/ARDU/service/PostService.java:170-171 | one reaction counts 1 for its own type and 0 for any other |
| Posts.Counts | src/main/java/com/example/ARDU/service/PostService.java:170-171 | the grouping: keyed by exactly the types present, each mapped to its positive count |
| Posts.CountsSumToTotal | src/main/java/com/example/ARDU/service/PostService.java:170-195 | the per-type counts add up to the number of reactions on the page |
| Posts.FirstPage | src/main/java/com/example/ARDU/service/PostService.java:166 | the first min(1000, n) of the post's n reactions, in table order |
| Posts.FirstTypeBy | src/main/java/com/example/ARDU/service/PostService.java:182-186 | the type of the caller's first reaction on the page; null iff the caller has none there |
| Posts.Caller | src/main/java/com/example/ARDU/service/PostService.java:175-190 | a null username or one that does not resolve leaves the caller unknown |
| Posts.SummaryFacts | src/main/java/com/example/ARDU/service/PostService.java:166-195 | total <= 1000 and equals the sum of the counts; the counts are keyed by the page's types; userReaction is null for an unknown caller, else the caller's first reaction type |
| Posts.Summarize | src/main/java/com/example/ARDU/service/PostService.java:166-195 | the counts are the grouping Counts of the page, keyed by the types on it and summing to the total; the total is the page length; an unknown caller has no reaction, and a known one has the type of their first reaction on the page |
| Posts.PostService.GetReactionSummary | src/main/java/com/example/ARDU/service/PostService.java:157-198 | fails iff the post is unknown; otherwise the summary of the post's first 1000 reactions in table order |
| Posts.CascadeDelete | src/main/java/com/example/ARDU/entity/Post.java:31-37 | the post is gone, and with it exactly its reactions and comments; users, admins and every id counter are unchanged |
| Posts.CascadeDeleteMultiplicity | src/main/java/com/example/ARDU/entity/Post.java:31-37 | every surviving reaction and comment keeps its multiplicity; the deleted post's rows all go |
| Posts.CascadeDeleteKeepsValid | src/main/java/com/example/ARDU/entity/Post.java:31-37 | after the delete no reaction or comment refers to a missing post |
| Posts.PostService.DeletePost | src/main/java/com/example/ARDU/service/PostService.java:200-207 | "Post not found" with nothing changed on an unknown id; otherwise the destroy request for the post's media and the cascade delete |
| Posts.AddReactionSpec | src/main/java/com/example/ARDU/service/PostService.java:210-240 | fails, changing nothing, on an unknown post, then on a caller who does not resolve by username or email; otherwise the caller's reactions to the post are exactly the one new reaction with the next id, every other (post, user) pair keeps its reactions, nothing else changes, and the tables stay valid |
| Posts.AddReactionTo | src/main/java/com/example/ARDU/service/PostService.java:210-240 | a failure leaves the tables unchanged |
| Posts.PostService.AddReaction | src/main/java/com/example/ARDU/service/PostService.java:210-240 | the result and the new tables are those of the addReaction rule on the old tables, and the tables stay valid |
| Posts.BridgeUser | src/main/java/com/example/ARDU/service/PostService.java:372-386 | the user row created for an admin: the admin's email, name as username, role and hash; APPROVED and active |
| Posts.ResolveOrBridgeSpec | src/main/java/com/example/ARDU/service/PostService.java:351-389 | an existing user is returned with no change; an ambiguous name fails with NOT_UNIQUE; a name that is neither a user nor an admin fails with the not-found message; an admin with that email and a null name fails with NULL_USERNAME; an admin with a name gets exactly one new row, `BridgeUser` of the admin under the next id (APPROVED, active, the admin's email), and that id is returned; failures change nothing; the tables stay valid |
| Posts.ResolveOrBridge | src/main/java/com/example/ARDU/service/PostService.java:351-389 | a failure changes nothing (every outcome is pinned by ResolveOrBridgeSpec) |
| Posts.EmailBranchIsDead | src/main/java/com/example/ARDU/service/PostService.java:361-368 | when the name is no user's username or email but is an admin's email, the lookup of that admin's email among the users finds nothing |
| Posts.ResolveOrBridgeIdempotent | src/main/java/com/example/ARDU/service/PostService.java:351-389 | a second lookup with the same name returns the same user and creates nothing |
| Posts.ResolveOrBridgeStores | src/main/java/com/example/ARDU/service/PostService.java:351-389 | the user the lookup returns is stored, the posts are untouched, and the tables stay valid |
| Posts.PostService.FindUserForReactionOrComment | src/main/java/com/example/ARDU/service/PostService.java:351-390 | the result and the new tables are those of the lookup-or-bridge rule |
| Posts.AddCommentSpec | src/main/java/com/example/ARDU/service/PostService.java:242-261 | fails with nothing changed on an unknown post or when the lookup-or-bridge rule fails; otherwise exactly one comment with the next id, by the resolved or newly bridged user, is appended, and only that user row and the comment table change |
| Posts.AddCommentTo | src/main/java/com/example/ARDU/service/PostService.java:242-261 | a failure changes nothing (the success case is stated by AddCommentSpec) |
| Posts.AddCommentKeepsValid | src/main/java/com/example/ARDU/service/PostService.java:242-261 | addComment keeps every foreign key and unique email intact |
| Posts.PostService.AddComment | src/main/java/com/example/ARDU/service/PostService.java:242-261 | the result and the new tables are those of the addComment rule on the old tables, and the tables stay valid |
| Posts.PostService.SaveComment | src/main/java/com/example/ARDU/service/PostService.java:253-259 | the comment is appended to the table under the next id, nothing else changes, and the tables stay valid |
| Posts.RewritePostKeepsValid | src/main/java/com/example/ARDU/service/PostService.java:337-342 | rewriting a stored post in place, with the same id and author, keeps the tables valid |
| Posts.CheckOwnerOrAdmin | src/main/java/com/example/ARDU/service/PostService.java:298-304 | access is granted iff the caller owns the post or has role ADMIN/MAIN_ADMIN ignoring case; a non-owner with a null role makes the check throw |
| Posts.RoleTestIgnoresCase | src/main/java/com/example/ARDU/service/PostService.java:299-301 | "admin" and "Main_Admin" pass the role test, "SUPER_ADMIN" does not |
| Posts.Authorize | src/main/java/com/example/ARDU/service/PostService.java:287-304 | success iff the principal resolves to a user the rule grants; "Current user not found" when it resolves to no one; the non-unique-result failure when two users share the name; the null-role exception for a non-owner with no role; the operation's denial message when the rule denies |
| Posts.PostService.DeleteUserPost | src/main/java/com/example/ARDU/service/PostService.java:281-309 | fails with nothing changed on an unknown post or a caller the rule refuses; otherwise the destroy request and the cascade delete |
| Posts.PostService.UpdatePost | src/main/java/com/example/ARDU/service/PostService.java:311-343 | fails with nothing changed on an unknown post or a caller the rule refuses; otherwise the caption changes iff a new one is given, and nothing else changes |
| Cloudinary.ExtractPublicIdFromUrl | src/main/java/com/example/ARDU/service/CloudinaryService.java:107-125 | null for a null or empty URL |
| Cloudinary.LazyGroupEndSpec | src/main/java/com/example/ARDU/service/CloudinaryService.java:115 | the reluctant group ends at the least position from which the optional extension and the end can follow; none when a line terminator comes first |
| Cloudinary.MatchAtSound | src/main/java/com/example/ARDU/service/CloudinaryService.java:115 | a capture at a start is a match of the pattern there, with the shortest group that can be followed by an optional extension and the end |
| Cloudinary.MatchAtComplete | src/main/java/com/example/ARDU/service/CloudinaryService.java:115 | every match of the pattern at a start is what the capture returns |
| Cloudinary.MatchAt | src/main/java/com/example/ARDU/service/CloudinaryService.java:115-118 | a capture is returned only where the pattern's fixed prefix can start |
| Cloudinary.FindFrom | src/main/java/com/example/ARDU/service/CloudinaryService.java:116-118 | Matcher.find from a position: the first start from there on that gives a capture |
| Cloudinary.FindFromLeftmost | src/main/java/com/example/ARDU/service/CloudinaryService.java:116-118 | find() returns the group of the leftmost start that matches |
| Cloudinary.FindFromNone | src/main/java/com/example/ARDU/service/CloudinaryService.java:116-118 | find() fails only when no start matches |
| Cloudinary.DropLastDotSegment | src/main/java/com/example/ARDU/service/CloudinaryService.java:120-122 | the text before the last '.', or all of it when there is none |
| Cloudinary.LastIndexOf | src/main/java/com/example/ARDU/service/CloudinaryService.java:121 | -1 iff the character is absent; otherwise a position holding it with none after it |
| Cloudinary.ExtractPublicIdSound | src/main/java/com/example/ARDU/service/CloudinaryService.java:112-124 | a public id is the leftmost match's group less its last '.'-segment |
| Cloudinary.ExtractPublicIdComplete | src/main/java/com/example/ARDU/service/CloudinaryService.java:112-124 | a non-empty URL in which the pattern matches somewhere gives a public id |
| Cloudinary.UploadUrlGroup | src/main/java/com/example/ARDU/service/CloudinaryService.java:115-118 | for a delivery URL with a letters-only folder, the captured group is exactly the name, without folder or extension |
| Cloudinary.UploadUrlYieldsName | src/main/java/com/example/ARDU/service/CloudinaryService.java:112-124 | such a URL with a dot-free name gives back the name, without the folder |
| Cloudinary.DottedNameLosesLastSegment | src/main/java/com/example/ARDU/service/CloudinaryService.java:115-122 | a name "stem.tail" loses ".tail" besides the extension |
| Cloudinary.ResultMayContainDot | src/main/java/com/example/ARDU/service/CloudinaryService.java:115-122 | "/v1/f/x.y.z.jpg" gives "x.y": a result can contain '.' |
| Cloudinary.UnderscoreFolderYieldsNoId | src/main/java/com/example/ARDU/service/CloudinaryService.java:112-124 | a URL whose only version segment is followed by a folder with '_' gives null |
| Cloudinary.StoreFolderYieldsNoId | src/main/java/com/example/ARDU/service/CloudinaryService.java:31 | a delivery URL in the folder "ardu_media", for a host and a name without a "/v<digit>" marker, gives null, so it is never destroyed |
| Cloudinary.DeleteFile | src/main/java/com/example/ARDU/service/CloudinaryService.java:84-101 | no destroy request iff the public id is null; otherwise one for that id, of type "video" iff the id contains "/video/", else "image"; never fails |
| Cloudinary.UploadsAreDestroyedAsImages | src/main/java/com/example/ARDU/service/CloudinaryService.java:90 | the public id of a delivery URL whose name has no '/' is destroyed as an image, even for a video |
| Cloudinary.UploadOptions | src/main/java/com/example/ARDU/service/CloudinaryService.java:42-57 | resource_type "auto" and folder "ardu_media" always; a video-codec "auto", duration "lte:60" transformation iff the mime type is non-null and starts with "video/"; no other key |
| Admins.AdminController.GetAdminById | src/main/java/com/example/ARDU/controller/AdminController.java:50-59 | 404 iff the id is unknown; otherwise the stored admin with a null password hash |
| Admins.NewAdmin | src/main/java/com/example/ARDU/controller/AdminController.java:74-94 | the stored admin: lower-cased email, encoded password, mainAdmin, emailVerified and mobileVerified false, the request's name, mobile and details |
| Common.LowerCaseEquality | src/main/java/com/example/ARDU/controller/AdminController.java:70-76 | two strings are equal ignoring case iff their lower-case forms are equal, in both directions |
| Admins.CaseVariantIsTaken | src/main/java/com/example/ARDU/controller/AdminController.java:70-76 | once an admin is stored, every case variant of the email is refused as a duplicate |
| Admins.EmailTaken | src/main/java/com/example/ARDU/controller/AdminController.java:70 | true iff the admin lookup by the lower-cased email finds a row |
| Admins.AdminController.CreateAdmin | src/main/java/com/example/ARDU/controller/AdminController.java:64-100 | 400 "Email is required" on a null or blank email, 400 "Admin email already exists" when the lower-case email is stored, changing nothing; otherwise one new admin with the next id and distinct emails kept; the returned copy has no hash |
| Admins.WithStatus | src/main/java/com/example/ARDU/controller/AdminController.java:108 | the users with the given approval status among the ids below n, by ascending id |
| Admins.FindByApprovalStatus | src/main/java/com/example/ARDU/controller/AdminController.java:108 | exactly the users with that approval status, each once, by ascending id |
| Admins.WithoutHashes | src/main/java/com/example/ARDU/controller/AdminController.java:108-110 | the same records in the same order, each with a null password hash |
| Admins.PendingUsersSpec | src/main/java/com/example/ARDU/controller/AdminController.java:105-112 | the returned list holds exactly the PENDING users, each once and by ascending id, none with a password hash |
| Admins.AdminController.GetPendingUsers | src/main/java/com/example/ARDU/controller/AdminController.java:105-112 | the pending query with each returned record's hash cleared in place, and the stored rows untouched |
| Admins.Approve | src/main/java/com/example/ARDU/controller/AdminController.java:125-131 | APPROVED, active, joined today, expiring today + 364, timestamps at the instant; identity, hash, role and details unchanged |
| Admins.AdminController.ApproveUser | src/main/java/com/example/ARDU/controller/AdminController.java:117-137 | 404 with nothing changed on an unknown id; otherwise only that user is approved, and the returned copy has no hash |
| Admins.Reject | src/main/java/com/example/ARDU/controller/AdminController.java:149-151 | REJECTED, inactive, updatedAt at the instant; the membership window and identity unchanged |
| Admins.AdminController.RejectUser | src/main/java/com/example/ARDU/controller/AdminController.java:142-154 | 404 with nothing changed on an unknown id; otherwise only that user is rejected |
| Admins.LastApprovalDecides | src/main/java/com/example/ARDU/controller/AdminController.java:125-131 | approving again renews: the last approval alone decides the state and window |
| Admins.RejectKeepsWindow | src/main/java/com/example/ARDU/controller/AdminController.java:145-151 | rejecting an approved user keeps the window approval set and makes the user inactive |
| Admins.UploadRule | src/main/java/com/example/ARDU/controller/AdminController.java:167-177 | a MAIN_ADMIN may upload for anyone; a plain ADMIN only when the principal equals the admin's email ignoring case |
| Admins.MayUploadFor | src/main/java/com/example/ARDU/controller/AdminController.java:167-177 | a MAIN_ADMIN, a caller without ROLE_ADMIN, and a caller whose principal is the admin's email may upload; a plain ADMIN with no principal may not (the case-insensitive rule is UploadRule) |
| Admins.AuthorityNamesAreExact | src/main/java/com/example/ARDU/controller/AdminController.java:168-171 | authority names are compared exactly: "role_admin" does not restrict, "ROLE_ADMIN" does |
| Admins.AdminController.UploadAdminImage | src/main/java/com/example/ARDU/controller/AdminController.java:156-190 | 404 on an unknown admin, 500 with no authentication, 403 when the rule refuses, 500 when the upload fails, each changing nothing; otherwise only that admin's image url, public id and updatedAt change |

## Left out

- Cloudinary.StoreFolderYieldsNoId: holds only for hosts and names without a `/v<digit>` marker. With one, such as a cloud named `v1` in `https://res.cloudinary.com/v1/image/upload/v123/ardu_media/x.jpg`, the pattern can match earlier and give a non-null id, and the lemma says nothing about that case.
- The remote media and image services: the upload, the destroy call and the image service are not modelled. The upload outcome and the image service's answer are parameters. `deleteFile` is modelled as the destroy request it would send, and whether that request succeeds is not modelled.
- The clock and the `Asia/Kolkata` zone: `now`, `today` and `instant` are parameters. `createPost` reads the clock twice, and the model uses one `now` for both reads. `approveUser` (src/main/java/com/example/ARDU/controller/AdminController.java:130-131) also reads `Instant.now()` twice, and `Admins.Approve` uses one `instant` for both `createdAt` and `updatedAt`.
- BCrypt: the password encoder is a function parameter of `Admins.AdminController.CreateAdmin`.
- Logging to standard output is not modelled.
- Concurrency: each call is atomic. The race between the delete and the insert in `addReaction` is not modelled.
- Posts.AddReactionTo: repository calls never fail in the model. In the source a failure of `deleteByPostAndUser` is caught and logged, and the new reaction is still saved (src/main/java/com/example/ARDU/service/PostService.java:224-229), so the pair then holds the old and the new reaction. That path is not modelled, and Store.ReplaceKeepsOne and Posts.AddReactionSpec assume the delete succeeds.
- Ordering: `findVisiblePosts` and `findByApprovedFalse` are modelled as sets, so the model states no order for them. The newest-first finders break ties between equal `createdAt` by ascending id (`PostRepository.Precedes`), which the database does not promise either. The reactions that `getReactionSummary` reads come in table order, and `findByApprovalStatus` returns users by ascending id. The database promises neither order.
- Pagination: `getComments`, `getReactions` and `getReactionDetails` are not modelled. They are thin pass-throughs to the ORM's paging. Only the first page of 1000 in `getReactionSummary` is modelled.
- Posts.PostService.FindUserForReactionOrComment: of the `users` table's constraints, only NOT NULL on `username` is checked, when the new row is created. NOT NULL and UNIQUE on `mobileNumber`, and NOT NULL on `name` and `passwordHash`, are not checked, so a bridged row that the database would refuse is stored anyway.
- Common.ToLower: lower-cases ASCII letters only, and so does Admins.AdminController.CreateAdmin, which uses it. Java's `toLowerCase` covers all of Unicode and depends on the locale.
- Common.EqualsIgnoreCase: folds ASCII letters only. Java's `equalsIgnoreCase` also folds other Unicode letters. This affects Posts.CheckOwnerOrAdmin, which is modelled on ASCII letters only. The same holds for Admins.MayUploadFor and for the role test in Posts.PostService.CreatePost (src/main/java/com/example/ARDU/service/PostService.java:108-109).
- Ids are unbounded naturals, so the overflow of `Long` is not modelled. `PostRequest.userId` is a plain natural here. In the source it is a boxed `Long` bound without validation (src/main/java/com/example/ARDU/dto/PostRequest.java:9), so a request without it reaches `findById(null)`, which throws before anything is stored. That failure is not modelled.
- Null reaction types and null comment texts are not modelled. They are plain strings here.
- `Admin.java`, `Comment.java`, `AccountCreateRequest`, `ImageService`, `AdminRepository`, `UserRepository` and `CommentRepository` are not part of this model. Their field shapes are inferred from the calls the core makes. An admin field that `createAdmin` does not set (role, image, timestamps) starts out null.
- The `@PreAuthorize` role gates, the security filter chain and `PostController` are not modelled. The caller's name and authorities are parameters wherever the handler's body reads them.
