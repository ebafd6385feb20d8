# loop-backend core, modelled in Dafny

This project models the request handlers of the loop-backend social network (an Express server
over a Mongoose document store) together with its realtime presence registry, and proves
properties of the model. Every collection the handlers touch is a field of one object,
`Storage.Store`:

- users, posts, reposts, comments, replies and likes;
- friend edges, notifications, messages and last-message rows;
- the `onlineUsers` registry, and an outbox of the realtime events emitted.

Each handler that changes the store is a method with `modifies st`. Its postcondition gives the
new store as a function of the old one, and gives the status code it answers with. Each read-only
handler is a function from a store snapshot (`Storage.Db`) to a `Response`. The document-store
primitives live in `Query`, with the same meaning as in the store:

- `findOne` / `findById` is `FindFirst`.
- `findOneAndUpdate` is `UpdateFirst`.
- `deleteOne` is `RemoveFirst`.
- `deleteMany` is `RemoveAll`.
- `updateMany` is `UpdateAll`.
- `find().sort().skip().limit()` is `Select`. It sorts with a stable insertion sort, then takes a
  window.

JavaScript's coercions live in `Text`: the page number goes through `Number()`, and the module
also models `split`, `trimLeft`, code-point string order and case-insensitive matching.

The modules follow the source files one for one:

| module | source file |
|---|---|
| `Likes` | `controllers/likes.js` |
| `Comments` | `controllers/comment.js` |
| `Replies` | `controllers/reply.js` |
| `Posts` | `controllers/posts.js` |
| `Reposts` | `controllers/repost.js` |
| `Friends` | `controllers/friend.js` |
| `Presence` | `utils/socket.js` |
| `Notifications` | `controllers/notification.js` |
| `LastMessages` | `controllers/lastMessage.js` |
| `Messages` | `controllers/message.js` |
| `Users` | `controllers/user.js` |
| `Search` | `controllers/search.js` |
| `Auth` | `middleware/auth.js` |

The central invariants:

- **Likes.** Every post, comment and reply has a `likesCount` equal to its number of Like rows, and
  no user likes a target twice (`Likes.LikesConsistent`).
- **Discussions.** Every post has a `commentCount` equal to its comments plus the replies to those
  comments (`Comments.CommentCountsMatch`).
- **Shares.** A post's `shareCount` is meant to count its reposts (`Reposts.SharesMatch`). As
  written, the counter is never stored (see "Findings"); the model keeps the intended counter.
- **Registry.** Each user has at most one entry (`Presence.KeysUnique`).
- **Last messages.** There is at most one row per unordered pair of users
  (`LastMessages.PairsUnique`).

These operations are proved to keep them:

- **Likes.**
  - Every toggle (`Likes.ToggleKeepsLikesConsistent`).
  - Editing or pinning a post (`Posts.RewritePostKeepsCounts`).
  - Creating a post, comment, reply or repost (`Posts.CreatePostKeepsLikes`,
    `Comments.AddCommentKeepsLikes`, `Replies.AddReplyKeepsLikes`, `Reposts.AddRepostKeepsLikes`).
    These hold only when no Like row already names the new document, because a like on a missing
    target stores its row all the same.
- **Discussions.**
  - Creating a comment or reply (`Comments.AddCommentKeepsCounts`, `Replies.AddReplyKeepsCounts`).
  - Deleting a post, comment or reply (`Posts.RemovePostKeepsCounts`,
    `Comments.RemoveCommentKeepsCounts`, `Replies.RemoveReplyKeepsCounts`).
  - Editing or pinning a post, comment or reply (`Posts.RewritePostKeepsCounts`,
    `Comments.RewriteCommentKeepsCounts`, `Replies.EditReplyKeepsCounts`).
  - Creating a post or repost (`Posts.CreatePostKeepsCounts`, `Reposts.AddRepostKeepsCounts`).
    These hold only when no stored comment names the post. Comments saved on a deleted post
    survive it, and a repost of that post inserts a post that counts none of them
    (`Reposts.AddRepostMiscountsStub`).
- **Shares.**
  - Creating a repost, with the intended upsert (`Reposts.AddRepostKeepsShares`).
  - Creating a post that no repost names (`Reposts.CreatePostKeepsShares`).
- **Registry.** Registering and disconnecting (`Presence.RegisterKeepsKeysUnique`,
  `Presence.UnregisterKeepsKeysUnique`).
- **Last messages.** The upsert (`LastMessages.UpsertKeepsPairsUnique`).

No other pairing of an operation with an invariant is proved: for example, that deletions keep the
like or share invariant, or that a toggle keeps the discussion invariant.

The model follows the code, including where it departs from what the handlers evidently intend:

- `deletePost` and `deleteComment` have no owner check.
- Deleting a post deletes its comments but not their replies.
- A reply raises the counter of the post named in the request body, not of its comment's post.
- No unique index protects likes; only the find-before-insert keeps one row per user and target.
- The code has no badges, no privacy resolver, no repost deletion and no repost like.
- `editUser` never answers 200. After its effects commit it throws on an undefined variable, so the
  answer is 404.
- A handler that dereferences a missing document before its `!doc` test answers with its catch
  status, not with the 404 that test would give.

## Model

| member | source | states |
|---|---|---|
| Query.Offset | controllers/reply.js:24 | The skip `(page - 1) * size` is defined exactly when the page is a number and the skip is not negative; otherwise the store rejects the query |
| Query.Select | controllers/reply.js:21-25 | A selected page holds at most `size` rows, each a stored row that passes the filter; it is None exactly when the skip is rejected |
| Query.SelectSorted | controllers/reply.js:21-25 | A selected page is in the sort order, whatever order the calls are chained in |
| Query.SelectWindow | controllers/reply.js:21-25 | Page n holds the sorted matches from position (n - 1) * size on, and is a full page whenever enough matches follow |
| Text.ToNumber | controllers/search.js:6 | "" coerces to 0 and a run of decimal digits to its value; only a string starting with a sign or a digit yields a number, anything else is NaN |
| Text.JoinSplit | controllers/search.js:8 | Joining the pieces of `split(sep)` with sep gives back the string |
| Text.Utf16Length | models/Post.js:12 | The length the schema's `maxlength` compares, in UTF-16 code units: at least the number of characters and at most twice it |
| Text.Utf16LengthBmp | models/Message.js:16 | The code-unit length equals the number of characters exactly when no character lies outside the Basic Multilingual Plane |
| Text.TrimLeft | middleware/auth.js:12 | The result is the longest suffix that does not start with white space, and only white space was removed |
| Likes.RowsFor | controllers/likes.js:119 | The rows kept are exactly the Like rows that point at the target |
| Likes.Toggle | controllers/likes.js:12-25 | If (user, target) was liked, one copy of that row is removed; otherwise one copy is added; the multiset of all other rows is unchanged |
| Likes.ToggleCount | controllers/likes.js:14-31 | A toggle moves its own target's like count by -1 if the row existed, by +1 if it did not, and leaves every other target's count unchanged |
| Likes.ToggleRowCount | controllers/likes.js:12-25 | A toggle changes the number of copies of its own row by one, and the number of copies of every other (user, target) row not at all |
| Likes.ToggleKeepsMatch | controllers/likes.js:12-31 | A counter equal to its target's Like rows, with at most one row per user, stays equal after the toggle and the same ±1 step |
| Likes.ToggleKeepsCounters | controllers/likes.js:17-31 | Toggling and bumping the one document with that key keeps every document of the collection counting its likes |
| Likes.ToggleKeepsOtherCounters | controllers/likes.js:12-33 | A toggle on one target leaves the counters of a collection holding no document with that key matching |
| Likes.ToggleKeepsLikesConsistent | controllers/likes.js:12-31 | Every post, comment and reply toggle keeps all like counters equal to their Like rows, with at most one row per (user, target) and unique ids, whether or not the target exists |
| Likes.UnlikedTarget | controllers/likes.js:124 | A target no Like row names counts zero likes and has no user liking it twice |
| Likes.AppendKeepsCounters | models/Post.js:10 | Storing a document whose counter starts at zero keeps every counter matching, when no Like row names the new document |
| Likes.UpdateKeepsCounters | controllers/comment.js:133-137 | An update that keeps a document's id and like counter keeps every counter matching |
| Likes.PostBumpUndone | controllers/likes.js:17-31 | Raising a post's likesCount by d and then by -d gives the posts back exactly |
| Likes.CommentBumpUndone | controllers/likes.js:53-67 | The same for a comment's likesCount |
| Likes.ReplyBumpUndone | controllers/likes.js:89-103 | The same for a reply's likesCount |
| Likes.ToggleTwice | controllers/likes.js:12-34 | After a toggle the row is present exactly when it was absent before; two toggles restore the multiset of rows, and restore the row sequence itself if the row was absent at first |
| Likes.ToggleTwiceRestores | controllers/likes.js:12-34 | Two toggles of the same (user, target) restore every counter and the Like rows as a multiset, and restore the whole store when the user had not liked the target |
| Likes.LikePost | controllers/likes.js:6-40 | The store becomes the toggle of (user, post). The answer is 200 with the post's counter moved by one and `isLiked` equal to "no like existed"; a missing post answers 500 after the Like row has changed |
| Likes.LikeComment | controllers/likes.js:42-76 | The same toggle on a comment |
| Likes.LikeReply | controllers/likes.js:78-112 | The same toggle on a reply |
| Likes.WhoLiked | controllers/likes.js:114-168 | At most 10 likers, those from position (page - 1) * 10 of the target's Like rows. The count is that of all the target's likes whatever the page. A rejected skip answers 500 |
| Comments.CommentById | controllers/comment.js:184 | None exactly when no comment has the id; otherwise a stored comment with that id |
| Comments.PostById | controllers/comment.js:216 | None exactly when no post has the id; otherwise a stored post with that id |
| Comments.ParentPostIs | controllers/reply.js:108-115 | With unique comment ids, a reply's post is the post of the comment it answers |
| Comments.ParentPostNone | controllers/reply.js:108-115 | A reply whose comment is gone has no post |
| Comments.BumpKeepsCounts | controllers/comment.js:133-137 | Moving one post's commentCount by exactly the change in its discussion keeps every counter matching, provided no other discussion changed |
| Comments.NoCommentsNoDiscussion | controllers/comment.js:126-131 | A post no stored comment names has an empty discussion, replies included |
| Comments.NewComment | controllers/comment.js:126-131 | The stored comment is by the actor, on the path's post, has text "" when none is sent, and starts unliked, unpinned and unedited |
| Comments.AddCommentSizes | controllers/comment.js:126-139 | A new comment grows its own post's discussion by one and no other |
| Comments.AddCommentKeepsCounts | controllers/comment.js:126-139 | Creating a comment keeps every post's commentCount equal to its discussion size, and comment ids unique |
| Comments.AddCommentKeepsLikes | controllers/comment.js:126-139 | Creating a comment keeps every like counter matching its Like rows, when no Like row names the new comment |
| Comments.PostComment | controllers/comment.js:96-150 | The comment is stored and its post's counter raised by one; the answer is 200 with the comment, or 500 when the upload failed, with the effects still made |
| Comments.RemoveCommentRows | controllers/comment.js:156 | Removing by id takes out exactly one copy of the comment and keeps every comment with another id |
| Comments.RemoveCommentKeepsParent | controllers/comment.js:156-172 | Deleting a comment changes the post of no reply to another comment |
| Comments.RemoveCommentKeptReplies | controllers/comment.js:172 | The replies that survive the cascade count in the same threads as before |
| Comments.RemoveCommentDroppedReplies | controllers/comment.js:162-172 | The replies the cascade removes from a post's thread are exactly that post's replies to the deleted comment |
| Comments.RemoveCommentSizes | controllers/comment.js:156-172 | Deleting a comment with N replies lowers its post's discussion by N + 1 and leaves every other post's discussion unchanged |
| Comments.RemoveCommentKeepsCounts | controllers/comment.js:156-172 | Deleting a comment (commentCount minus replies plus one, the replies deleted) keeps every counter matching |
| Comments.DeleteComment | controllers/comment.js:152-178 | With no owner check: a missing comment answers 404 and changes nothing; otherwise the comment and its replies go, its post's counter drops by N + 1, and the answer is 200 with it |
| Comments.RewriteCommentSizes | controllers/comment.js:191-194 | Rewriting one comment while keeping its id and post leaves every discussion size unchanged |
| Comments.RewriteCommentKeepsCounts | controllers/comment.js:186-225 | An edit or a pin of a comment keeps every post's counter matching |
| Comments.PinCommentTwice | controllers/comment.js:223 | Pinning the same comment twice gives the comments back exactly |
| Comments.EditComment | controllers/comment.js:180-208 | Only the comment's author edits: the text is set (or cleared when none is sent) and the comment marked edited. Anyone else gets 403 with nothing changed, and a missing comment gets 404 |
| Comments.PinComment | controllers/comment.js:210-239 | Only the owner of the comment's post pins, and the pin flag flips; anyone else gets 403 with nothing changed; a missing comment or post gets 404 |
| Comments.CommentOrderTotal | controllers/comment.js:19-22 | Pinned-first, then newest-first is a total preorder |
| Comments.CommentPage | controllers/comment.js:18-46 | One page of at most `limit` (default 5) of the post's comments, each with the viewer's like status and its reply count |
| Comments.ListComments | controllers/comment.js:11-87 | The page is listed as is, except on page "1" with an existing comment named: then that comment comes first, highlighted, and is removed from the rest. A rejected skip answers 404 |
| Comments.ListCommentsOrdered | controllers/comment.js:18-81 | Apart from the highlighted head, the listing is pinned first and then newest first |
| Replies.ReplyById | controllers/reply.js:108 | None exactly when no reply has the id; otherwise a stored reply with that id |
| Replies.NewReply | controllers/reply.js:78-83 | The stored reply is by the actor, on the path's comment, with "" for a missing text or picture, unedited and unliked |
| Replies.AddReplySizes | controllers/reply.js:78-96 | A new reply joins its comment's post's thread and no other |
| Replies.AddReplyKeepsCounts | controllers/reply.js:78-96 | When the body's post id is the post of the comment answered, posting a reply keeps every counter matching |
| Replies.AddReplyKeepsLikes | controllers/reply.js:78-96 | Creating a reply keeps every like counter matching its Like rows, when no Like row names the new reply |
| Replies.PostReply | controllers/reply.js:47-102 | The reply is stored and the body's post counter raised by one; the answer is 200 with the reply, or 500 after a failed upload, with the effects still made |
| Replies.RemoveReplyRows | controllers/reply.js:121 | Deleting by id removes exactly that reply |
| Replies.RemoveReplySizes | controllers/reply.js:115-121 | Deleting a reply of post q shrinks q's discussion by one and no other |
| Replies.RemoveReplyKeepsCounts | controllers/reply.js:115-121 | Deleting a reply and lowering its post's counter by one keeps every counter matching |
| Replies.PostThenDeleteReply | controllers/reply.js:78-121 | Posting a reply and then deleting it gives back the store exactly, the post's counter included |
| Replies.DeleteReply | controllers/reply.js:104-130 | Only the author deletes: the reply goes and its post's counter drops by one, 200. Anyone else gets 403 with nothing changed; a missing reply, or one whose comment is gone, gets 500 with nothing changed |
| Replies.EditReplyKeepsCounts | controllers/reply.js:147-150 | Editing a reply keeps every counter matching |
| Replies.EditReply | controllers/reply.js:132-161 | Only the author edits: the text is set and the reply marked edited, 200 with the comment and the text. Anyone else gets 403 with nothing changed; a missing reply gets 500 |
| Replies.ListReplies | controllers/reply.js:15-45 | At most six of the comment's replies, each with the viewer's like status; a rejected skip answers 500 |
| Replies.ListRepliesOrdered | controllers/reply.js:21-25 | The replies come newest first, and page n starts at reply 6 * (n - 1) of that order |
| Posts.UserById | controllers/posts.js:47 | None exactly when no user has the id; otherwise a stored user with that id |
| Posts.NewPost | controllers/posts.js:49-61 | The new post copies the author's first and last name, picture, location and verified flag, and starts with zero counters, unpinned and unedited |
| Posts.CreatePostKeepsLikes | controllers/posts.js:49-63 | Creating a post keeps every like counter matching its Like rows, when no Like row names the new post |
| Posts.CreatePostKeepsCounts | controllers/posts.js:49-63 | Creating a post keeps every post's commentCount equal to its discussion, when no stored comment names the new post |
| Posts.CreatePost | controllers/posts.js:18-70 | A failed upload, a missing author or a post the schema refuses (no first name, or a description over 2000 UTF-16 code units) answers 500 with nothing stored; otherwise the post is appended and returned with 201 |
| Posts.FriendIds | controllers/posts.js:77-88 | One friend id per accepted edge touching the viewer |
| Posts.FriendIdsExactly | controllers/posts.js:77-88 | x is a friend id exactly when an accepted edge joins the viewer and x, in either direction |
| Posts.FeedRows | controllers/posts.js:90-100 | The feed rows are the friends' page, or the fallback page when that page is empty; None exactly when the skip is rejected |
| Posts.Feed | controllers/posts.js:72-117 | At most `limit` (default 5) posts, each stored and carrying the viewer's like status; a rejected skip answers 404 |
| Posts.FeedSource | controllers/posts.js:90-100 | A non-empty friends' page holds only friends' posts, newest first; otherwise the page holds only posts not by the viewer, verified authors first and then newest |
| Posts.ListUserPosts | controllers/posts.js:119-146 | At most `limit` of the user's posts with the viewer's like status; the count is of all the user's posts, whatever the page; a rejected skip answers 404 |
| Posts.UserPostsOrdered | controllers/posts.js:124-127 | A user's posts come pinned first, then newest first |
| Posts.GetPost | controllers/posts.js:148-168 | The stored post with the viewer's like status, or 404 exactly when it is missing |
| Posts.PostClickInfo | controllers/posts.js:256-280 | The post's stored likesCount and commentCount, and `isLiked` exactly when the viewer has a Like row for it; a missing post answers 500 |
| Posts.ClickInfoCounts | controllers/posts.js:261-276 | Under the counter invariants, the click info reports the post's number of Like rows and its discussion size |
| Posts.RemovePostEffect | controllers/posts.js:174-178 | Deleting a post removes exactly the notifications linking to it and exactly its comments, and with unique ids exactly the post; replies, users and likes stay as they were |
| Posts.RemovePostParent | controllers/posts.js:176 | Replies under other posts keep their post; replies under the deleted post have none left |
| Posts.RemovePostSizes | controllers/posts.js:176-178 | Every other post's discussion is unchanged |
| Posts.RemovePostKeepsCounts | controllers/posts.js:174-178 | With unique ids, every remaining post's counter still matches its discussion |
| Posts.DeletePost | controllers/posts.js:170-188 | With no owner check: the notifications and comments are deleted even when the post is missing (then 404); otherwise the post too, 200 with it |
| Posts.EditPost | controllers/posts.js:190-219 | Only the owner edits: the description is set and the post marked edited, 200 with its like status. Anyone else gets 403. A missing post or a refused save sends no answer, because the catch block throws. Nothing changes except on 200 |
| Posts.PinPost | controllers/posts.js:221-254 | Only the owner pins and the pin flag flips, 200 with its like status; anyone else gets 403; a missing post or refused save gets 500; nothing changes except on 200 |
| Posts.PinPostTwice | controllers/posts.js:232-236 | Pinning the same post twice gives the posts back exactly |
| Posts.RewritePostKeepsCounts | controllers/posts.js:200-238 | Editing or pinning keeps the like and comment counter invariants |
| Reposts.NewRepost | controllers/repost.js:9-14 | The repost is the actor's, on the body's post, with privacy "public" and description "" when none is sent, and zero counters |
| Reposts.StubPost | controllers/repost.js:18-22 | As intended, the document the upsert creates for a missing post has that id and a share count of one |
| Reposts.SharePostEffect | controllers/repost.js:18-22 | As intended, the upsert raises the shared post's shareCount by one and changes nothing else; for a missing post exactly one post is added |
| Reposts.AddRepostKeepsShares | controllers/repost.js:9-22 | As intended, with unique post ids, creating a repost keeps every post's shareCount equal to its reposts, when the shared post is stored or has no reposts yet |
| Reposts.AddRepostKeepsLikes | controllers/repost.js:9-22 | A repost keeps every like counter matching, when no Like row names the shared post in case the upsert must insert it |
| Reposts.AddRepostKeepsCounts | controllers/repost.js:9-22 | A repost keeps every post's commentCount equal to its discussion, when the shared post is stored or its discussion is empty |
| Reposts.AddRepostMiscountsStub | controllers/repost.js:18-22 | When the shared post is missing but comments saved on it survive, the post the upsert inserts counts none of them, so the discussion invariant breaks |
| Reposts.CreatePostKeepsShares | controllers/posts.js:49-63 | Creating a post keeps every shareCount equal to its reposts, when no stored repost names the new post |
| Reposts.StubPostAsWritten | controllers/repost.js:18-22 | As written, the document the upsert inserts for a missing post has that id and no share count |
| Reposts.SharePostAsWrittenKeepsPosts | controllers/repost.js:18-22 | As written, the upsert changes no stored post; it leaves the posts as they are when the shared one exists, and otherwise only adds a post with no shares |
| Reposts.AddRepostAsWrittenBreaksShares | controllers/repost.js:9-22 | As written, every repost breaks the share invariant: the shared post's count does not move while its reposts grow by one |
| Reposts.CreateRepost | controllers/repost.js:5-35 | Without a post id the save fails, 500, nothing stored; otherwise one repost is stored and the share counted as intended, 201 |
| Reposts.RepostClickInfo | controllers/repost.js:37-61 | The repost's stored counters, and `isLiked` exactly when the viewer has a Like row for the repost; a missing repost answers 500 |
| Friends.GetFriends | controllers/friend.js:3-42 | Only accepted edges with the user at either end. The app form returns all of them; otherwise at most six per page. With `isProfile` the count is of all of them, whatever the page. A rejected skip answers 500 |
| Friends.GetFriendsOrdered | controllers/friend.js:16-26 | The paged friend list is newest first |
| Friends.AddFriend | controllers/friend.js:44-63 | Exactly one pending edge from the actor to the receiver is appended, with no duplicate check, 201 |
| Friends.AcceptOnlyThatEdge | controllers/friend.js:70-74 | Accepting changes only an edge sent by the other user to the actor, and makes it accepted; an edge the actor sent is never changed; no edge goes back to pending |
| Friends.AcceptFindsRequest | controllers/friend.js:70-74 | An existing request from the other user to the actor is accepted |
| Friends.AcceptIdempotent | controllers/friend.js:70-74 | Accepting twice is accepting once |
| Friends.AcceptFriend | controllers/friend.js:65-80 | The first edge other → actor becomes accepted and is returned; with none, nothing changes and the body is null, 200 |
| Friends.GetSpecificFriend | controllers/friend.js:82-101 | An edge between the two users in either direction and of any status, or 404 exactly when there is none |
| Friends.UnfriendRemovesOne | controllers/friend.js:108-113 | Deleting removes at most one edge, and only one joining the two users; every other edge stays |
| Friends.DeleteFriend | controllers/friend.js:103-119 | The first edge between the two is removed, and the answer is always 200 "not a friend" |
| Friends.RequestsFrom | controllers/friend.js:133-135 | Each request maps to its sender's public fields and its edge id; None exactly when a sender is missing |
| Friends.GetFriendRequests | controllers/friend.js:121-141 | At most nine pending edges addressed to the user, in stored order, mapped to sender and request id; a missing sender answers 500 |
| Presence.Lookup | utils/socket.js:28 | The connection registered for the user, None exactly when the user has no entry |
| Presence.RegisterLookup | utils/socket.js:9 | After registering u on s, u maps to s whatever it mapped to before, and every other user maps as before |
| Presence.RegisterKeepsKeysUnique | utils/socket.js:9 | Registering keeps one entry per user |
| Presence.OwnerOf | utils/socket.js:82-84 | The first user whose entry holds the connection, None exactly when none does |
| Presence.UnregisterRemovesOne | utils/socket.js:82-88 | A disconnect removes at most one entry, one holding the closing connection; with none, the registry is unchanged |
| Presence.UnregisterKeepsKeysUnique | utils/socket.js:82-88 | A disconnect keeps one entry per user |
| Presence.UnregisterKeepsOthers | utils/socket.js:82-88 | A user registered on another connection keeps its entry, so a re-registration is not undone by the old connection's close |
| Presence.Route | utils/socket.js:27-28 | An event for u goes to u's registered connection, and never back to the sending connection |
| Presence.Deliver | utils/socket.js:27-29 | At most one event, on u's connection, with the given name and payload |
| Presence.FanOut | utils/socket.js:35-37 | At most one event per listed user |
| Presence.FanOutReaches | utils/socket.js:35-37 | The fan-out reaches exactly the connections of listed users registered elsewhere than the sender |
| Presence.SetOnlineFlag | utils/socket.js:12-16 | The user with the id has the flag set and nothing else changes; a missing user changes nothing |
| Presence.UserOnline | utils/socket.js:8-22 | The registration is recorded first, whether or not the user loads, then the user is marked online |
| Presence.RelayMessage | utils/socket.js:26-30 | The message goes to the receiver's connection only, and nothing is stored |
| Presence.AnnouncePost | utils/socket.js:34-38 | The loop emits "notification" to each friend's connection in turn, and stores nothing |
| Presence.NoteFor | utils/socket.js:52-58 | The notification is of type "newPost", to the friend, from the event's sender, linked to the post, with description "<firstName> shared a new post" |
| Presence.NewPostNotes | utils/socket.js:50-60 | The first n friends give at most n saved notifications |
| Presence.NewPostNotesExactly | utils/socket.js:50-75 | The saved notifications are exactly those of the friends whose save does not fail, one per friend when none fails, and none at all when the event lacks its sender or post id |
| Presence.NewPostEmits | utils/socket.js:50-69 | No more events are sent than notifications saved |
| Presence.NewPostEmitsRouted | utils/socket.js:62-69 | Every event sent is a "friendNewPost" carrying one of the saved notifications, on the connection its receiver is registered on, never back to the sender |
| Presence.NotifyFriend | utils/socket.js:51-74 | One pass of the loop: a successful save appends the friend's notification and its event; a failed save changes nothing |
| Presence.NotifyFriends | utils/socket.js:49-76 | The loop over the friends stores exactly the saved notifications and sends exactly their events, in friend order; the connection registry and all other collections are unchanged |
| Presence.Notify | utils/socket.js:42-77 | Another event type goes to the receiver only and stores nothing; a "newPost" event runs the loop over the friends |
| Presence.Disconnect | utils/socket.js:81-101 | The first entry holding the connection is removed and its user marked offline; with none, nothing changes |
| Notifications.GetNotifications | controllers/notification.js:3-22 | Only the receiver's notifications, at most `limit` (default 5); a rejected skip answers 500 |
| Notifications.GetNotificationsOrdered | controllers/notification.js:8-11 | The notifications come newest first |
| Notifications.BuildNotification | controllers/notification.js:26-32 | The notification is built exactly when every field is present, the description is non-empty and the type is one the schema accepts; it starts unwatched |
| Notifications.SendNotification | controllers/notification.js:24-49 | A valid notification is appended and returned with 200; an invalid one answers 500 with nothing stored |
| Notifications.WatchAllEffect | controllers/notification.js:55-62 | Afterwards every notification of the receiver is watched and differs only in that flag; every other receiver's notifications are unchanged |
| Notifications.WatchAllIdempotent | controllers/notification.js:55-62 | Marking twice is marking once |
| Notifications.WatchAllNotifications | controllers/notification.js:51-70 | The receiver's notifications are all marked watched, 200 |
| Notifications.DeleteAllEffect | controllers/notification.js:76 | Exactly the receiver's notifications are removed, and every other receiver's list stays the same, in order |
| Notifications.DeleteAllNotifications | controllers/notification.js:72-84 | The receiver's notifications are deleted, 200 |
| LastMessages.UpsertEffect | controllers/lastMessage.js:28-41 | Afterwards the pair's first row is the new message from a to b. A row stored as (b, a) is updated in place, not duplicated. Without a row exactly one is appended. Other pairs' rows stay |
| LastMessages.UpsertKeepsPairsUnique | controllers/lastMessage.js:28-41 | The upsert keeps at most one row per unordered pair |
| LastMessages.PostLastMessage | controllers/lastMessage.js:26-48 | The pair's row is upserted with the message, sender, receiver and time, 200 |
| LastMessages.GetLastMessages | controllers/lastMessage.js:3-24 | At most ten rows, each involving the actor; a rejected skip answers 500 |
| LastMessages.GetLastMessagesOrdered | controllers/lastMessage.js:16-18 | The rows come most recently updated first |
| Messages.GetMessages | controllers/message.js:6-34 | 403 exactly when the actor is neither user. Otherwise only messages between the two users, in either direction, at most `limit` (default 15); a rejected skip answers 500 |
| Messages.ConversationSymmetric | controllers/message.js:15-20 | The conversation reads the same whichever user is named first |
| Messages.GetMessagesOrdered | controllers/message.js:21-23 | The messages come newest first |
| Messages.SendMessage | controllers/message.js:45-95 | No actor gets 401 and a text over 1500 UTF-16 code units gets 500, with nothing stored. Otherwise exactly one message is stored, from the actor to the path's receiver. The answer is 200, or 500 after a failed upload |
| Users.PublicDropsOnlyPassword | controllers/user.js:17 | Putting the password back into the public record gives back the user exactly |
| Users.GetUser | controllers/user.js:11-23 | The stored user without the password, or 404 exactly when the user is missing |
| Users.SaveUser | controllers/user.js:172 | Saving replaces the stored record with that id and nothing else |
| Users.ImageTarget | controllers/user.js:45-96 | A file goes to the picture when only the picture flag is set, to the background when only the background flag is set, and nowhere otherwise |
| Users.EditedUser | controllers/user.js:127-145 | Every profile field comes from the form, and at most one of username, background and picture changes, in that priority |
| Users.UsernameTakenExactly | controllers/user.js:117-125 | With unique usernames, a name is refused exactly when another user holds it, so the user's own name is accepted |
| Users.RenameAuthorPosts | controllers/user.js:147-170 | Every post of the user gets the new first and last name, and the new picture only when one was uploaded; other posts are unchanged |
| Users.RenameMatchesAuthor | controllers/user.js:160-170 | After the rename, every post of the user carries the user's name |
| Users.EditUser | controllers/user.js:36-180 | Anyone else gets 403, and a missing user or a taken username gets 404, nothing changed in either case. Otherwise the posts are renamed and the valid record saved. The answer is never 200: 404, or 500 after a failed upload |
| Users.EditKeepsPostNames | controllers/user.js:127-172 | After an accepted edit the saved user and all of its posts agree on the name |
| Users.ChangePassword | controllers/user.js:184-218 | Anyone else gets 403, a missing user 404, and a wrong old password 400. Otherwise the new hash and change time are saved, 200, or 404 when the save is refused. Nothing changes except on 200 |
| Users.CheckCorrectPassword | controllers/user.js:222-244 | 200 exactly when the actor is the user, the user exists and the supplied change time equals the stored one; otherwise 403 or 404 |
| Users.CheckAfterChange | controllers/user.js:207-240 | After a saved password change, checking with the new change time succeeds |
| Users.GetOnlineFriends | controllers/user.js:248-278 | 403 exactly when the actor is not the user; 500 exactly when an accepted edge's end does not load |
| Users.OnlineFriendsExactly | controllers/user.js:256-272 | The list holds exactly the accepted edges of the user whose other end is an online user, and that end is a friend id |
| Users.ChangeOnlineStatus | controllers/user.js:282-306 | A missing user gets 404. The flag becomes whether `makeOnline` is truthy, 200, or 500 with nothing changed when the save is refused |
| Search.SearchPage | controllers/search.js:6 | A missing, zero or non-numeric page is page 1; any other number is kept |
| Search.Words | controllers/search.js:8 | Neither word contains a space |
| Search.WordsOfQuery | controllers/search.js:8 | The first word, then a space and the second word, start the query; a query without a space is its own first word and has no second |
| Search.UserSearchOrderTotal | controllers/search.js:23 | Verified first, then first name ascending, is a total preorder |
| Search.DescriptionOrderTotal | controllers/search.js:48 | Description order is a total preorder |
| Search.SearchInfo | controllers/search.js:5-71 | Users: at most ten, with the count of all matches. Posts: at most five, only public posts matching the whole query, each with the viewer's like status, and the count of all matches. A page below 1 answers 404; any other type gets no answer |
| Search.SearchUsersFound | controllers/search.js:12-28 | Found users are stored users that match (first name or username by word one, last name by a non-empty word two), without passwords, verified first and then by first name |
| Search.SearchPostsOrdered | controllers/search.js:42-48 | Found posts come in description order |
| Auth.ExtractToken | middleware/auth.js:7-15 | A missing or empty header has no token. After "Bearer " the token is the rest without leading white space, none when that is empty. Any other header is the token as it stands |
| Auth.BearerRoundTrip | middleware/auth.js:11-12 | "Bearer ", white space, then a token gives that token back |
| Auth.VerifyToken | middleware/auth.js:5-23 | No token gets 403 and the handler is not reached; a token the check refuses gets 500; otherwise the handler runs with the verified claims |
| Auth.UnescapeNewlines | middleware/auth.js:3 | The result is never longer, and a key without a backslash-n is unchanged |
| Auth.UnescapeEscape | middleware/auth.js:3 | Unescaping a key whose newlines were escaped gives the key back when it holds no backslash-n of its own |
| Auth.EscapeUnescape | middleware/auth.js:3 | Escaping the unescaped text gives it back when it holds no raw newline, so each backslash-n became a newline and nothing else changed |

## Left out

- Image handling is not modelled: compression, the image-store upload and file naming. Each handler takes the upload's outcome (`Upload`: no file, a URL, or a failure) as a parameter.
- Password hashing and token signing are not modelled. `Users.ChangePassword` takes the hash comparison and the new hash as parameters, and `Auth.VerifyToken` takes the signature check as a parameter. `controllers/auth.js` (register and login) is not part of this model.
- HTTP routing (`api/index.js`, `index.js`, `routes/*.js`), the rate limiter and the badge controller are not modelled. Handlers that routes import but no controller defines are not invented.
- There is no privacy resolver: the code checks privacy only in the post search, which is modelled.
- Search regular expressions are modelled as literal, ASCII-case-insensitive substring matches (`Text.MatchesIgnoreCase`). Regex metacharacters have no meaning in the model.
- Concurrency is not modelled. Every handler is one atomic step, and each `Promise.all` loop is a sequential map.
- Populate projections are not modelled: bodies carry the stored documents. A missing populated document is modelled only where the code dereferences it (`deleteReply`, `getFriendRequest`, `getOnlineFriends`).
- Comments.DeleteComment: keeps the notifications unchanged. The notification delete in `deleteComment` filters on `commentId`, a field the notification schema does not declare. With the store's strict-query setting off the filter matches no document, which is what the model states. With it on, the filter is emptied and one arbitrary notification is deleted; that setting is not modelled.
- Ids are naturals. A malformed id string, which makes the store throw a cast error, is not modelled. In `getComments` an invalid or absent comment id is the same `None`.
- `Number()` is modelled only for the empty string and optionally signed decimal digits. Decimal points, exponents, hexadecimal and surrounding white space count as NaN.
- Timestamps are naturals passed in by the caller. The `Date` string that `changePassword` stores is a parameter.
- Undefined body fields are modelled as follows:
  - a missing comment, message or last-message text is stored as "";
  - Replies.EditReply: an absent text is stored as "", where the handler assigns `undefined`, which removes the field from the stored reply;
  - Posts.NewPost: an absent description is stored as "", where the handler passes `undefined` to the schema, which declares no default, so the stored post and the answer have no description field;
  - Posts.CreatePost: the same absent description as `Posts.NewPost`;
  - Posts.EditPost: an absent description is stored as "", where the handler assigns `undefined`, which removes the field from the stored post;
  - the `editUser` form takes every profile field as a string, so undefined fields are not modelled;
  - the `youtube` link is dropped, as the user schema has no such field.
- Users.ChangeOnlineStatus: JavaScript truthiness is modelled for absent values, booleans, strings and integers. NaN and objects are not modelled.
- Presence.UserOnline: the saved user is not re-validated, so a save the schema would refuse still sets the online flag.
- Presence.Disconnect: the same limitation as `Presence.UserOnline` when the user is marked offline.
- Presence.Notify: save failures in the `newPost` loop are a parameter (the set of positions that fail), not derived from the data.
- The realtime transport is not modelled. An emitted event is appended to the store's outbox, and an event for an unregistered user emits nothing.
- Reposts.StubPost: the document the share upsert creates for a missing post holds empty values (user 0, empty strings) in every field the store would leave unset. As intended it carries a share count of one; as written (`Reposts.StubPostAsWritten`) it carries none.
- Reposts.CreateRepost: states the intended effect, the share counted on the post. The post schema declares no `shareCount`, so as written the increment is dropped and no stored post changes (`Reposts.SharePostAsWrittenKeepsPosts`).
- Reposts.SharePostEffect: describes the intended upsert; as written it changes no stored post, for the reason on the line above.
- Reposts.AddRepostKeepsShares: holds of the intended upsert only; as written every repost breaks the share invariant (`Reposts.AddRepostAsWrittenBreaksShares`).
- The post schema declares no `privacy` field either. No modelled handler stores one (new posts and upsert stubs carry none), so the post search's `privacy: "public"` filter finds only posts stored by other means. With the store's strict-query setting on, that filter would be dropped and every matching post returned; that setting is not modelled.
- The `limit` query parameter of the paged lists (`controllers/message.js:7`, `controllers/comment.js:13`, `controllers/notification.js:5`, `controllers/posts.js:73` and `controllers/posts.js:120`) is modelled as an optional natural. A negative, fractional or non-numeric limit string, which the store would coerce or reject, is not expressible.
- Friends.GetFriends: `app` and `isProfile` are booleans. The handler tests the query strings for truthiness, so `?app=` counts as false and `?app=0` as true; the model's callers pass that truth value.
- The uniqueness of usernames is assumed where it matters (`Users.UsernameTakenExactly`). The race between two concurrent edits is not modelled.

## Findings

| source | as written | input that shows it | evidently intended | confidence | as-written member | corrected member |
|---|---|---|---|---|---|---|
| controllers/repost.js:18-22 | `createRepost` increments `shareCount`, a path the post schema (`models/Post.js:3-19`) does not declare, so a strict schema drops the increment and the upsert stores no count | any repost of a stored post whose count matched its reposts: the post keeps its count while its reposts grow by one | every post's `shareCount` equals its number of reposts | not executed | Reposts.AddRepostAsWrittenBreaksShares | Reposts.AddRepostKeepsShares |
