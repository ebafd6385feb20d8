/** The document store the handlers work on: one object holding every collection,
    the realtime registry of online users and the outbox of realtime events. */
module Storage {
  import opened Model

  /** A snapshot of the whole store. */
  datatype Db = Db(
    users: seq<User>,
    posts: seq<Post>,
    reposts: seq<Repost>,
    comments: seq<Comment>,
    replies: seq<Reply>,
    likes: seq<Like>,
    friends: seq<Friend>,
    notifications: seq<Notification>,
    messages: seq<Message>,
    lastMessages: seq<LastMessage>,
    onlineUsers: seq<Registration>,
    outbox: seq<Emit>)

  class Store {
    var users: seq<User>
    var posts: seq<Post>
    var reposts: seq<Repost>
    var comments: seq<Comment>
    var replies: seq<Reply>
    var likes: seq<Like>
    var friends: seq<Friend>
    var notifications: seq<Notification>
    var messages: seq<Message>
    var lastMessages: seq<LastMessage>
    /** The process-wide `onlineUsers` object: user id to connection id, in key insertion order. */
    var onlineUsers: seq<Registration>
    /** Every event handed to the realtime transport so far. */
    var outbox: seq<Emit>

    function State(): Db
      reads this
    {
      Db(users, posts, reposts, comments, replies, likes, friends, notifications,
         messages, lastMessages, onlineUsers, outbox)
    }

    constructor ()
      ensures State() == Db([], [], [], [], [], [], [], [], [], [], [], [])
    {
      users, posts, reposts, comments, replies, likes := [], [], [], [], [], [];
      friends, notifications, messages, lastMessages, onlineUsers, outbox := [], [], [], [], [], [];
    }
  }
}
