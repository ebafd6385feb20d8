/** The documents of the social backend's store, the realtime registry's entries
    and the small vocabulary shared by every handler. */
module Model {

  /** An opaque document id (a database ObjectId, compared by its string form). */
  type Id = nat

  /** A realtime connection's id, as the transport hands it to the server. */
  type Sock = nat

  datatype Option<T> = None | Some(value: T)

  // Status codes the handlers answer with.
  const OK: nat := 200
  const CREATED: nat := 201
  const BAD_REQUEST: nat := 400
  const UNAUTHORIZED: nat := 401
  const FORBIDDEN: nat := 403
  const NOT_FOUND: nat := 404
  const SERVER_ERROR: nat := 500
  /** The handler never answers (it fell off its end, or its catch block threw). */
  const NO_RESPONSE: nat := 0

  /** The outcome of the optional image upload a handler starts with. */
  datatype Upload = NoFile | Uploaded(url: string) | UploadFailed

  /** The URL an upload produced, or null. */
  function UploadedUrl(u: Upload): Option<string>
  {
    if u.Uploaded? then Some(u.url) else None
  }

  datatype Links = Links(facebook: string, instagram: string, linkedin: string, x: string)

  datatype User = User(
    id: Id,
    firstName: string,
    lastName: string,
    username: string,
    password: string,
    gender: string,
    birthdate: string,
    picturePath: string,
    background: string,
    bio: string,
    location: string,
    occupation: string,
    links: Links,
    verified: bool,
    online: bool,
    passwordChangedAt: string)

  /** A user record with the password field taken out. */
  datatype PublicUser = PublicUser(
    id: Id,
    firstName: string,
    lastName: string,
    username: string,
    gender: string,
    birthdate: string,
    picturePath: string,
    background: string,
    bio: string,
    location: string,
    occupation: string,
    links: Links,
    verified: bool,
    online: bool,
    passwordChangedAt: string)

  datatype Post = Post(
    id: Id,
    userId: Id,
    firstName: string,
    lastName: string,
    userPicturePath: string,
    location: string,
    verified: bool,
    description: string,
    picturePath: Option<string>,
    textAddition: Option<string>,
    privacy: Option<string>,
    edited: bool,
    pinned: bool,
    likesCount: int,
    commentCount: int,
    shareCount: int,
    createdAt: nat)

  datatype Repost = Repost(
    id: Id,
    postId: Id,
    userId: Id,
    privacy: string,
    description: string,
    likesCount: int,
    commentCount: int,
    pinned: bool,
    createdAt: nat)

  datatype Comment = Comment(
    id: Id,
    postId: Id,
    user: Id,
    text: string,
    picturePath: Option<string>,
    edited: bool,
    pinned: bool,
    likesCount: int,
    createdAt: nat)

  /** A reply to a comment; `text` is the stored field `reply`. */
  datatype Reply = Reply(
    id: Id,
    user: Id,
    comment: Id,
    text: string,
    picturePath: string,
    edited: bool,
    likesCount: int,
    createdAt: nat)

  /** What a Like row points at: exactly one of the four target fields is set. */
  datatype Target = OnPost(id: Id) | OnRepost(id: Id) | OnComment(id: Id) | OnReply(id: Id)

  datatype Like = Like(userId: Id, target: Target)

  datatype FriendStatus = Pending | Accepted

  datatype Friend = Friend(id: Id, sender: Id, receiver: Id, status: FriendStatus, createdAt: nat)

  datatype Notification = Notification(
    senderId: Id,
    receiverId: Id,
    kind: string,
    description: string,
    linkId: Id,
    watched: bool,
    createdAt: nat)

  datatype Message = Message(senderId: Id, receiverId: Id, text: string, picturePath: Option<string>, createdAt: nat)

  /** The cached latest message of a conversation. */
  datatype LastMessage = LastMessage(senderId: Id, receiverId: Id, message: string, updatedAt: nat)

  /** One entry of the realtime registry: a user and the connection it registered on. */
  datatype Registration = Registration(userId: Id, socket: Sock)

  /** What a realtime event carries: a client-supplied blob, or a stored notification. */
  datatype Payload = ClientData(blob: string) | SavedNotification(notification: Notification)

  /** One event handed to the transport: deliver `event` with `payload` on channel `to`. */
  datatype Emit = Emit(to: Sock, event: string, payload: Payload)

  /** What a handler answers: a status code and, on success, a body. */
  datatype Response<T> = Response(status: nat, body: Option<T>)

  /** A document with the viewer's like status attached (`isLiked`). */
  datatype Liked<T> = Liked(doc: T, isLiked: bool)

  /** A listed comment: its like status for the viewer, its number of replies, and whether it
      is the comment the viewer was sent to (`highlight`). */
  datatype CommentView = CommentView(comment: Comment, isLiked: bool, replyCount: nat, highlight: bool)
}
