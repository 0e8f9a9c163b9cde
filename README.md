# ClubHouse FC: the social core in Dafny

This project models the server side of ClubHouse FC, a social network for
sports-club fans, and three of its client-side helpers.

On the server side, the procedures modelled are:

- like: toggleLike and getLikesCount;
- follow: toggleFollow;
- comment: addComment and getCommentByPost;
- notification: getUnread, markAllAsRead and markAsRead;
- post: create, getAll and getById;
- members: searchGlobal, getById, updateProfile and getAllPostsByMember;
- the post-creation input schema.

The client-side helpers are:

- the header's `getInitials`;
- the notification bell's unread counter and badge;
- the notification row's type caption and unread marks.

The relational store is one object, `Store.Db`. Each table is a field:

- `users`, `posts` and `comments` are maps keyed by id;
- `likes` and `follows` are sets of pairs, so their unique keys hold by construction;
- `notifications` is a sequence in creation order.

A clock and the id counters stamp every insert. Each mutation is a method
over this object. Its `ensures` gives every table's new contents as a function
of the old state; the clock and id counters are stated by the `Store.Db`
insert methods but not repeated in every procedure's contract. The lemmas beside it state what the procedures promise. The
most important of these is that toggling keeps the like and follow tables
in agreement with their notifications:

- a user has exactly one LIKE_POST notification for a post exactly when they
  like it and did not write it;
- a user has exactly one FOLLOW_USER notification exactly when the edge
  exists and is not to themselves.

Every notification-writing procedure preserves this agreement. Reads are
functions over the tables, except searchGlobal: it is a method, because the
store's choice of which matching users it returns is left open. The
"orderBy createdAt desc" reads of posts and comments are a scan from the
highest id down (module `Rows`). Ids and timestamps grow together, so that
scan is proved newest first. getUnread scans the notification sequence from
its end, which is newest first because the sequence is kept in creation order.

Some behaviours of the code may look unintended; the model follows the code as written:

- **Reply notifications.** A reply notifies the parent comment's author only,
  and does so exactly when the parent exists and someone else wrote it
  (comment.ts:44-59). The post-author branch (comment.ts:32 tests `!parentIdNum`)
  runs only for a top-level comment, so the post's author hears of a reply only
  by having written its parent. There is no fan-out of two notifications for one reply.
  The parent is looked up after the new comment is stored. A `parentId` that
  converts to 0 is falsy in JavaScript, so for the notification choice
  (comment.ts:32, 44) such a comment counts as top-level. The row itself is
  stored with parentId 0 (comment.ts:28), so getCommentByPost's `parentId: null`
  filter (comment.ts:71) never lists it as a thread, and no comment 0 exists
  (ids start at 1) to list it as a reply; `CommentRouter.TopLevelOf` agrees.
- **Comment length.** Comment content is stored with no length check; the
  input schema is `z.string()`.
- **markAsRead ownership.** markAsRead has no ownership check. It marks the
  row with that id whoever it was sent to. An unknown id fails like the
  store's `update` does.
- **Self-follow.** Following yourself is accepted. It creates the edge and no
  notification.
- **Post listing.** getAll returns the post rows themselves. It does not
  return per-caller flags.

## Model

| member | source | states |
|---|---|---|
| NotificationTable.DeleteWhere | src/server/routers/like.ts:32-39 | deleteMany never adds rows; `DeleteWhereMembers` and `DeleteWhereClears` give which rows survive |
| NotificationTable.DeleteWhereMembers | src/server/routers/like.ts:32-39 | deleteMany keeps exactly the rows its where clause does not match |
| NotificationTable.DeleteWhereClears | src/server/routers/follow.ts:24-30 | after deleteMany the clause matches no row |
| NotificationTable.CountWhere | src/server/routers/like.ts:32-39 | the number of rows a clause matches is zero exactly when no row matches, and never exceeds the table |
| NotificationTable.CountWhereAppend | src/server/routers/like.ts:61-68 | notification.create raises a clause's count by one exactly when the new row matches it |
| NotificationTable.DeleteWhereKeepsDisjointCount | src/server/routers/like.ts:32-39 | deleting by one clause leaves the count of any clause no row can share with it unchanged |
| NotificationTable.DeleteWhereChronological | src/server/routers/follow.ts:24-30 | deleteMany keeps the surviving rows in creation order |
| NotificationTable.MarkRead | src/server/routers/notification.ts:28-49 | updateMany/update with `read: true`: every selected row becomes read, every other row is kept, and no row is added or moved |
| NotificationTable.MarkReadOnlyRaisesRead | src/server/routers/notification.ts:27-50 | the read updates change no row but its `read` flag, never lower it, and keep the table's length |
| NotificationTable.MarkReadChronological | src/server/routers/notification.ts:27-50 | marking rows read keeps creation order |
| NotificationTable.MarkReadKeepsCount | src/server/routers/notification.ts:27-50 | marking rows read never changes what a deleteMany clause counts |
| Store.Db.InsertPost | src/server/routers/post.ts:16-26 | a new post row under a fresh id, stamped with the current time; all other tables unchanged |
| Store.Db.InsertComment | src/server/routers/comment.ts:23-30 | a new comment row under a fresh id, stamped with the current time; all other tables unchanged |
| Store.Db.InsertNotification | src/server/routers/like.ts:61-68 | an unread row appended after every existing one, with a fresh id and the current time |
| Store.Db.DeleteNotifications | src/server/routers/like.ts:32-39 | notification.deleteMany keeps the table valid and in creation order |
| Store.Db.MarkNotificationsRead | src/server/routers/notification.ts:28-36 | updateMany/update with `read: true` on the selected rows |
| Store.Db.UpdateUser | src/server/routers/members.ts:93-103 | user.update writes the name and each optional field that was given; an absent field keeps its value |
| LikeRouter.ToggleLike | src/server/routers/like.ts:5-73 | an unknown post fails with "Post não encontrado" and writes nothing; otherwise the answer is true exactly when the caller did not like the post before, the like is toggled, and the notification table is deleted and re-created as the procedure orders |
| LikeRouter.ToggledLikeCounts | src/server/routers/like.ts:25-72 | after an unlike no LIKE_POST row for the triple remains; after liking another's post exactly one does, however many stale ones existed; liking your own post writes no notification |
| LikeRouter.ToggleKeepsLikeSynced | src/server/routers/like.ts:25-72 | toggleLike keeps the like table and the LIKE_POST rows in agreement for every user and post |
| LikeRouter.ToggleLikeTwice | src/server/routers/like.ts:5-73 | two toggles answer opposite values and restore the like table; like-then-unlike leaves no LIKE_POST row for the triple |
| LikeRouter.LikesCountAfterLike | src/server/routers/like.ts:75-84 | a new like adds one to its post's count and changes no other post's count |
| LikeRouter.LikesCountAfterUnlike | src/server/routers/like.ts:75-84 | removing a like takes one from its post's count and changes no other post's count |
| LikeRouter.LikesCount | src/server/routers/like.ts:75-84 | getLikesCount counts the post's like rows: zero exactly when no user likes the post |
| FollowRouter.ToggleFollow | src/server/routers/follow.ts:5-57 | the answer is true exactly when the edge did not exist; the edge is toggled; an unfollow deletes every matching FOLLOW_USER row; a follow of another user appends one row, and a self-follow appends none |
| FollowRouter.ToggledFollowCounts | src/server/routers/follow.ts:17-56 | after an unfollow no FOLLOW_USER row for the pair remains; a follow of another user adds exactly one; a self-follow writes none |
| FollowRouter.ToggleKeepsFollowSynced | src/server/routers/follow.ts:17-56 | toggleFollow keeps the follow table and the FOLLOW_USER rows in agreement for every ordered pair of users |
| FollowRouter.ToggleFollowTwice | src/server/routers/follow.ts:5-57 | two toggles answer opposite values and restore the follow table; follow-then-unfollow leaves no FOLLOW_USER row for the pair |
| CommentRouter.AddComment | src/server/routers/comment.ts:5-63 | an unknown post fails and writes nothing; otherwise the comment is stored as given and at most one COMMENT_POST row is appended, addressed as CommentRecipient says |
| CommentRouter.CommentRecipient | src/server/routers/comment.ts:32-59 | nobody is notified of their own comment; a top-level comment notifies the post's author exactly when someone else wrote the post; a reply notifies the parent's author exactly when the parent exists and someone else wrote it, and nobody else |
| CommentRouter.ReplyNotifiesParentAuthorOnly | src/server/routers/comment.ts:44-59 | a reply notifies the parent comment's author exactly when the parent exists and someone else wrote it, and nobody otherwise |
| CommentRouter.TopLevelNotifiesPostAuthor | src/server/routers/comment.ts:32-42 | a top-level comment notifies the post's author exactly when someone else wrote it |
| CommentRouter.GetCommentByPost | src/server/routers/comment.ts:65-95 | every thread is a top-level comment of the post, stored in the table, with exactly its direct replies |
| CommentRouter.WithReplies | src/server/routers/comment.ts:81-85 | each listed comment is paired with exactly the comments whose parent it is, in the same order |
| CommentRouter.GetCommentByPostTopLevel | src/server/routers/comment.ts:68-72 | the list holds every top-level comment of the post and nothing else, each with its own replies |
| CommentRouter.GetCommentByPostNewestFirst | src/server/routers/comment.ts:92-94 | the threads come strictly newest first |
| NotificationRouter.UnreadNewestFirst | src/server/routers/notification.ts:6-13 | every row drawn is an unread row of the user |
| NotificationRouter.UnreadNewestFirstComplete | src/server/routers/notification.ts:7-10 | every unread row of the user is drawn |
| NotificationRouter.UnreadNewestFirstDescending | src/server/routers/notification.ts:11-13 | the drawn rows are strictly newest first |
| NotificationRouter.GetUnread | src/server/routers/notification.ts:5-25 | at most twenty rows, all unread and the caller's, and twenty whenever that many exist |
| NotificationRouter.GetUnreadKeepsNewest | src/server/routers/notification.ts:11-14 | the page is newest first, and every unread row of the caller left out is older than every row on the page |
| NotificationRouter.MarkAllAsRead | src/server/routers/notification.ts:27-37 | every unread row of the caller becomes read, leaving nothing for getUnread |
| NotificationRouter.MarkAsRead | src/server/routers/notification.ts:39-50 | the row with that id becomes read whoever received it; an id naming no row fails with nothing changed |
| NotificationRouter.MarkAllLeavesNoUnread | src/server/routers/notification.ts:27-37 | after markAllAsRead, getUnread is empty for that user |
| NotificationRouter.MarkAllKeepsOthers | src/server/routers/notification.ts:28-36 | markAllAsRead leaves every other user's rows as they were |
| NotificationRouter.MarkAllIdempotent | src/server/routers/notification.ts:28-36 | marking all twice is marking all once |
| NotificationRouter.MarkOneIgnoresRecipient | src/server/routers/notification.ts:42-49 | markAsRead marks the row with that id, whatever its recipient, and only that row |
| PostSchema.Parse | src/schemas/post.ts:3-9 | the input passes unchanged exactly when it has text or a non-empty image; otherwise one custom issue on `content` |
| PostSchema.TextIsEnough | src/schemas/post.ts:6 | any non-empty text is accepted whatever the image |
| PostSchema.EmptyRejected | src/schemas/post.ts:6-9 | no text with no image, or with an empty image string, is rejected with the refinement's message |
| PostSchema.ImageAloneAccepted | src/schemas/post.ts:6 | with no text, any non-empty image string passes the schema, data URI or not |
| PostRouter.StoredImage | src/server/routers/post.ts:10-14 | the image is kept exactly when it starts with "data:image/", and dropped otherwise |
| PostRouter.EmptyImageNotStored | src/server/routers/post.ts:12 | an absent or empty image is never stored |
| PostRouter.Create | src/server/routers/post.ts:7-27 | input failing the schema is rejected with nothing written; otherwise a new post by the caller with the given text and the filtered image |
| PostRouter.GetAll | src/server/routers/post.ts:29-41 | getAll lists only stored posts; `GetAllExactly` and `GetAllNewestFirst` give completeness and order |
| PostRouter.GetAllExactly | src/server/routers/post.ts:29-41 | getAll lists every post exactly once and nothing else |
| PostRouter.GetAllNewestFirst | src/server/routers/post.ts:30-33 | getAll is strictly newest first |
| PostRouter.GetById | src/server/routers/post.ts:43-82 | an unknown post fails with "Post não encontrado"; otherwise the post's fields, its author's id, name, image and email whenever the author row exists, its like and comment counts, and isLiked/isFollowing each true exactly when the caller's like row or follow edge exists |
| PostRouter.IsLikedIff | src/server/routers/post.ts:57 | `likes.some(userId === caller)` holds exactly when the caller's like of the post exists |
| PostRouter.IsFollowingIff | src/server/routers/post.ts:59-64 | the follow lookup finds a row exactly when the edge caller -> author exists |
| PostRouter.GetByIdAfterToggle | src/server/routers/post.ts:57-78 | after a toggleLike, getById's isLiked equals the toggle's answer and the like count moved by one the same way |
| MemberRouter.SearchGlobal | src/server/routers/members.ts:8-30 | a query under two UTF-16 code units (JavaScript's `length`) is rejected; otherwise up to ten distinct users whose name or email contains the query ignoring case, as many as match up to ten |
| MemberRouter.TakeAny | src/server/routers/members.ts:26 | `take`: up to the limit of distinct elements of the set, as many as the limit allows |
| MemberRouter.GetById | src/server/routers/members.ts:32-74 | null exactly for an unknown id; otherwise the profile fields, isOwnProfile exactly when the caller is that user, post and comment counts, and the other counters zero |
| MemberRouter.ProfileIssues | src/server/routers/members.ts:77-85 | the schema reports a name under two and a bio over 300 UTF-16 code units, each exactly when it occurs, and nothing else |
| MemberRouter.WideBioLimit | src/server/routers/members.ts:82 | a bio made only of characters outside the Basic Multilingual Plane is refused exactly when it holds more than 150 of them |
| MemberRouter.UpdateProfile | src/server/routers/members.ts:76-106 | a schema failure, then another user's id, then an unknown id are rejected with nothing written; otherwise only that user's row changes, to the new name and the given optional fields |
| MemberRouter.GetAllPostsByMember | src/server/routers/members.ts:108-125 | only stored posts written by the member are listed |
| MemberRouter.GetAllPostsByMemberExactly | src/server/routers/members.ts:108-125 | exactly the member's posts, strictly newest first, as many as the profile's post count |
| Rows.NewestFirstMembers | src/server/routers/post.ts:30-33 | a newest-first read holds a row exactly when the filter accepts it |
| Rows.NewestFirstDescending | src/server/routers/post.ts:31-33 | when timestamps grow with ids, a read ordered by createdAt desc is strictly decreasing |
| Rows.NewestFirstCount | src/server/routers/members.ts:111-123 | a newest-first read returns one row per accepted key |
| Text.Upper | src/app/_components/header-client.tsx:38 | `toUpperCase` keeps the length, leaves no lower-case ASCII letter, and changes no letter but its case |
| Text.Lower | src/server/routers/members.ts:16-17 | lower-casing, the basis of the case-insensitive filter, keeps the length and leaves no upper-case ASCII letter |
| Text.CaseRoundTrip | src/app/_components/header-client.tsx:38 | case mapping changes a letter's case only |
| Text.ContainsIgnoresQueryCase | src/server/routers/members.ts:16-17 | the insensitive `contains` gives the same answer whatever the query's case |
| Text.Utf16Length | src/server/routers/members.ts:9 | JavaScript's `length` lies between the number of characters and twice it, equals it exactly when every character is in the Basic Multilingual Plane, and doubles it exactly when none is |
| Text.Utf16LengthAppend | src/server/routers/members.ts:80-82 | code-unit lengths add up over concatenation |
| Text.ExactMatchFound | src/server/routers/members.ts:16-17 | a query occurring exactly also matches ignoring case |
| HeaderClient.Split | src/app/_components/header-client.tsx:37 | `split(" ")` never yields an empty list |
| HeaderClient.JoinSplit | src/app/_components/header-client.tsx:37 | joining the pieces with spaces gives the name back, and no piece holds a space |
| HeaderClient.FirstUpper | src/app/_components/header-client.tsx:38 | `charAt(0).toUpperCase()` is one character for a non-empty piece, none for an empty one |
| HeaderClient.Firsts | src/app/_components/header-client.tsx:38 | the initials are at most one per piece |
| HeaderClient.GetInitials | src/app/_components/header-client.tsx:34-40 | at most two characters, and "U" for a missing or empty name |
| HeaderClient.TwoWords | src/app/_components/header-client.tsx:37-39 | a name of two words separated by one space gives the first letter of each, uppercased |
| HeaderClient.SplitPrefix | src/app/_components/header-client.tsx:37 | a space-free first word splits off as the first piece |
| HeaderClient.OneWord | src/app/_components/header-client.tsx:37-39 | a one-word name gives its first letter, uppercased |
| HeaderClient.SplitNoSpace | src/app/_components/header-client.tsx:37 | a string with no space splits into itself |
| HeaderClient.OnlySpaces | src/app/_components/header-client.tsx:37-39 | a non-empty name made only of spaces gives empty initials, not "U" |
| NotificationBell.UnreadCount | src/app/_components/notifications/notification-bell.tsx:11 | the counter never exceeds the list's length |
| NotificationBell.UnreadOnly | src/app/_components/notifications/notification-bell.tsx:11 | the filter never lengthens the list |
| NotificationBell.UnreadCountExtremes | src/app/_components/notifications/notification-bell.tsx:11 | the counter is zero exactly when every row is read, and the list's length exactly when none is |
| NotificationBell.BellMatchesServer | src/app/_components/notifications/notification-bell.tsx:11 | on one user's list, the counter equals the number of rows getUnread draws from |
| NotificationBell.BellClearedByMarkAll | src/app/_components/notifications/notification-bell.tsx:11 | after markAllAsRead the counter is zero |
| NotificationBell.Digit | src/app/_components/notifications/notification-bell.tsx:21 | a count from 1 to 9 renders as its single decimal digit |
| NotificationBell.BadgeFor | src/app/_components/notifications/notification-bell.tsx:19-21 | no badge exactly when the count is zero; "9+" exactly when it exceeds nine; otherwise the digit |
| NotificationBell.BadgeLabels | src/app/_components/notifications/notification-bell.tsx:19-21 | two different positive counts share a badge exactly when both exceed nine |
| NotificationItem.NotificationConfig | src/app/_components/notifications/notification-item.tsx:16-34 | a like and a comment get their caption and background; a follow gets no config |
| NotificationItem.Item | src/app/_components/notifications/notification-item.tsx:14-76 | the dot and the highlight show exactly when the row is unread; a config is missing exactly for a follow |
| NotificationItem.LabelsDistinct | src/app/_components/notifications/notification-item.tsx:16-34 | the two configured kinds never share a caption |
| NotificationItem.ReadHidesDot | src/app/_components/notifications/notification-item.tsx:72-76 | a read row shows no dot and no highlight and keeps its caption |
| Consistency.EmptyStoreSynced | src/server/routers/like.ts:25-72 | an empty store has its likes, follows and notifications in agreement |
| Consistency.FollowSyncedUnderAppend | src/server/routers/comment.ts:32-59 | a COMMENT_POST or LIKE_POST row leaves the follow agreement intact |
| Consistency.FollowSyncedUnderLikeToggle | src/server/routers/like.ts:25-72 | toggleLike keeps the follow agreement |
| Consistency.FollowSyncedUnderMarkRead | src/server/routers/notification.ts:27-50 | marking rows read keeps the follow agreement |
| Consistency.LikeSyncedUnderAppend | src/server/routers/comment.ts:32-59 | a COMMENT_POST or FOLLOW_USER row leaves the like agreement intact |
| Consistency.LikeSyncedUnderFollowToggle | src/server/routers/follow.ts:17-56 | toggleFollow keeps the like agreement |
| Consistency.LikeSyncedUnderMarkRead | src/server/routers/notification.ts:27-50 | marking rows read keeps the like agreement |
| Consistency.LikeSyncedUnderNewPost | src/server/routers/post.ts:16-26 | a new post that no like and no notification refers to joins the like agreement |

## Left out

- LikeRouter.ToggleLike, FollowRouter.ToggleFollow, CommentRouter.AddComment, PostRouter.Create: the new values of the clock and of the id counters they advance are not stated; only every table's contents are. The counters are the model's stand-in for auto-increment ids and `now()`, whose exact values the source does not promise.
- User interface rendering, icons, animation and styling are not modelled. Only the values the helpers compute are kept: initials, counter, badge caption, row caption, color and unread marks.
- The notification bell counts a fixed mock list in the source. `NotificationBell.UnreadCount` takes the list as a parameter.
- Transactions and concurrent requests are not modelled. Each procedure runs alone, with its store writes in order.
- Authentication, the session and the tRPC transport are not modelled; the signed-in user is a caller id parameter.
- Error wording beyond the thrown messages is not modelled. A thrown error is `Thrown(message)`, a schema failure is `BadInput(issues)`, and a missing row on update is `RecordNotFound`.
- `Store.Db.Valid` does not tie likes, follows, comment parents or notifications to existing rows, and the database's foreign-key constraints are not modelled; for example a follow of an unknown user, or a reply to a missing comment, is stored as the procedure writes it.
- Prisma `include`/`select` projections that only attach related rows are left out: actor summaries on notifications, the user and comments on posts, comment likes and reply authors. `PostRouter.GetAll` and `MemberRouter.GetAllPostsByMember` return the post rows themselves.
- Ids arrive as strings and go through `Number(...)` in the source. The model takes natural-number ids directly. Non-numeric strings (NaN) and string notification ids are not modelled.
- Timestamps are a counter stamped on each insert; time zones and `toLocaleDateString` (the profile's `joinDate`) are left out. So is the profile's constant empty `badges` list.
- Text.Lower: case handling covers ASCII letters only. The database's Unicode case folding and JavaScript's full `toUpperCase` are not modelled.
- MemberRouter.SearchGlobal: the order of the ten users and which ten are returned when more match are left open, because the query gives no `orderBy`.
- PostRouter.GetById: the source reads `post.user.id` and would throw on a missing author row. The model returns `None` there instead, because foreign keys are outside the model.
- LikeRouter.ToggleKeepsLikeSynced: the like agreement is a lemma over the tables, not part of `Store.Db.Valid`. A new post joins it only under the premises of `Consistency.LikeSyncedUnderNewPost`, namely that no stale like or notification refers to its fresh id.
- HeaderClient.FirstUpper, HeaderClient.GetInitials, HeaderClient.OneWord, HeaderClient.TwoWords: `charAt(0)` and `slice(0, 2)` are taken over whole Unicode characters, not UTF-16 code units. The two differ only for characters outside the Basic Multilingual Plane (emoji, say), where the source takes one half of a surrogate pair; a model string cannot hold a lone surrogate. The zod bounds of searchGlobal and updateProfile do count code units (`Text.Utf16Length`).
- Strings are sequences of Unicode characters, so input strings holding a lone surrogate, which JavaScript allows, are not modelled.
- HeaderClient.GetInitials: its own contract gives the length bound and the "U" fallback; the values for one word, two words and only spaces are the lemmas `OneWord`, `TwoWords` and `OnlySpaces`. Names of three or more words are not given a lemma of their own; their result is the first two initials by the same `Split` and `Firsts` definitions.
- The client-side search dialog (src/app/_components/user-search-dialog.tsx) is not part of this model.
