/** User records: reading one without its password, the owner-only profile edit with its username
    check and its copy of the name onto the user's posts, the password handlers, the online-friend
    list and the online flag. */
module Users {
  import opened Model
  import opened Query
  import opened Storage
  import opened Posts
  import opened Presence

  // ---------------------------------------------------------------- getUser

  /** `const { password, ...rest } = user.toObject()`: the record without its password. */
  function Public(u: User): PublicUser
  {
    PublicUser(u.id, u.firstName, u.lastName, u.username, u.gender, u.birthdate, u.picturePath,
               u.background, u.bio, u.location, u.occupation, u.links, u.verified, u.online,
               u.passwordChangedAt)
  }

  /** The record `Public(u)` came from, given back its password. */
  function WithPassword(p: PublicUser, password: string): User
  {
    User(p.id, p.firstName, p.lastName, p.username, password, p.gender, p.birthdate, p.picturePath,
         p.background, p.bio, p.location, p.occupation, p.links, p.verified, p.online,
         p.passwordChangedAt)
  }

  /** Stripping the password drops that field and nothing else: putting it back gives the record. */
  lemma PublicDropsOnlyPassword(u: User)
    ensures WithPassword(Public(u), u.password) == u
    ensures forall v: User :: Public(v) == Public(u) ==> v == u.(password := v.password)
  {
  }

  /** `getUser`: the stored record without its password; a missing user is dereferenced in the try
      block, so the catch answers 404. */
  function GetUser(db: Db, id: Id): (r: Response<PublicUser>)
    ensures r.status == OK <==> UserById(db.users, id).Some?
    ensures r.status != OK ==> r == Response(NOT_FOUND, None)
    ensures r.status == OK ==> r.body.Some? && WithPassword(r.body.value, UserById(db.users, id).value.password) == UserById(db.users, id).value
  {
    match UserById(db.users, id)
    case None => Response(NOT_FOUND, None)
    case Some(u) => Response(OK, Some(Public(u)))
  }

  // ---------------------------------------------------------------- saving a user

  /** What the user schema's validators demand on save: the required strings are non-empty. */
  predicate UserValid(u: User)
  {
    u.firstName != "" && u.username != "" && u.password != "" && u.gender != "" && u.birthdate != ""
  }

  function Overwrite(u: User): User -> User
  {
    (v: User) => u
  }

  /** `user.save()` on a loaded record: the stored user with that id becomes `u`. */
  function SaveUser(users: seq<User>, u: User): (r: seq<User>)
    ensures |r| == |users|
    ensures forall k :: 0 <= k < |users| ==> r[k] == users[k] || (users[k].id == u.id && r[k] == u)
    ensures UserById(users, u.id).Some? ==> UserById(r, u.id) == Some(u)
    ensures UserById(users, u.id).None? ==> r == users
  {
    var r := UpdateFirst(users, UserIdIs(u.id), Overwrite(u));
    var i := IndexOf(users, UserIdIs(u.id));
    assert i < |users| ==> r[i] == u && UserIdIs(u.id)(u);
    r
  }

  // ---------------------------------------------------------------- editUser

  /** The profile fields of the edit form. */
  datatype ProfileForm = ProfileForm(
    firstName: string,
    lastName: string,
    username: string,
    birthdate: string,
    gender: string,
    bio: string,
    location: string,
    occupation: string,
    links: Links)

  /** Which image an uploaded file is meant for. */
  datatype ImageSlot = NoImage | ToPicture | ToBackground

  /** A file is uploaded as the profile picture when only the picture flag is set, as the background
      when only the background flag is set, and not at all otherwise. */
  function ImageTarget(upload: Upload, pictureFlag: bool, backgroundFlag: bool): (slot: ImageSlot)
    ensures slot == ToPicture <==> !upload.NoFile? && pictureFlag && !backgroundFlag
    ensures slot == ToBackground <==> !upload.NoFile? && backgroundFlag && !pictureFlag
  {
    if upload.NoFile? then NoImage
    else if pictureFlag && !backgroundFlag then ToPicture
    else if backgroundFlag && !pictureFlag then ToBackground
    else NoImage
  }

  /** The user record after the edit: every profile field comes from the form; then a new username
      (one that differs from the path's), else a new background, else a new picture, is applied:
      never more than one of the three. */
  function EditedUser(u: User, form: ProfileForm, usernameParam: string, picture: Option<string>, background: Option<string>): (r: User)
    ensures r.id == u.id && r.password == u.password && r.verified == u.verified && r.online == u.online
    ensures r.passwordChangedAt == u.passwordChangedAt
    ensures r.firstName == form.firstName && r.lastName == form.lastName && r.birthdate == form.birthdate
    ensures r.gender == form.gender && r.bio == form.bio && r.location == form.location
    ensures r.occupation == form.occupation && r.links == form.links
    ensures r.username != u.username ==> r.username == form.username && usernameParam != form.username
    ensures r.username != u.username ==> r.background == u.background && r.picturePath == u.picturePath
    ensures r.background != u.background ==> Some(r.background) == background && r.picturePath == u.picturePath
    ensures r.picturePath != u.picturePath ==> Some(r.picturePath) == picture && background.None? && usernameParam == form.username
  {
    var v := u.(firstName := form.firstName, lastName := form.lastName, birthdate := form.birthdate,
                gender := form.gender, bio := form.bio, location := form.location,
                occupation := form.occupation, links := form.links);
    if usernameParam != form.username then v.(username := form.username)
    else if background.Some? then v.(background := background.value)
    else if picture.Some? then v.(picturePath := picture.value)
    else v
  }

  function UsernameIs(name: string): User -> bool
  {
    (u: User) => u.username == name
  }

  /** The username is held by a user other than `id`, as `findOne({username})` finds it. */
  predicate UsernameTaken(users: seq<User>, id: Id, name: string)
  {
    var f := FindFirst(users, UsernameIs(name));
    f.Some? && f.value.id != id
  }

  /** No two stored users share a username (the schema's unique index). */
  ghost predicate UsernamesUnique(users: seq<User>)
  {
    forall i, j :: 0 <= i < j < |users| ==> users[i].username != users[j].username
  }

  /** With unique usernames, a name is refused exactly when another user holds it; in particular
      the user's own current username is accepted. */
  lemma UsernameTakenExactly(users: seq<User>, id: Id, name: string)
    requires UsernamesUnique(users)
    ensures UsernameTaken(users, id, name) <==> exists v :: v in users && v.username == name && v.id != id
  {
    if v :| v in users && v.username == name && v.id != id {
      var k :| 0 <= k < |users| && users[k] == v;
      var i := IndexOf(users, UsernameIs(name));
      assert i <= k;
      assert users[i].username == name;
    }
  }

  function SetUserPicture(url: string): Post -> Post
  {
    (p: Post) => p.(userPicturePath := url)
  }

  function SetAuthorNames(first: string, last: string): Post -> Post
  {
    (p: Post) => p.(firstName := first, lastName := last)
  }

  /** The two `updateMany` calls on the user's posts: the new picture, when one was uploaded, then
      the new first and last name. Other users' posts are untouched. */
  function RenameAuthorPosts(posts: seq<Post>, id: Id, first: string, last: string, picture: Option<string>): (r: seq<Post>)
    ensures |r| == |posts|
    ensures forall k :: 0 <= k < |posts| && posts[k].userId != id ==> r[k] == posts[k]
    ensures forall k :: 0 <= k < |posts| && posts[k].userId == id ==>
              r[k] == posts[k].(firstName := first, lastName := last,
                                userPicturePath := if picture.Some? then picture.value else posts[k].userPicturePath)
  {
    var pictured := if picture.Some? then UpdateAll(posts, ByAuthor(id), SetUserPicture(picture.value)) else posts;
    UpdateAll(pictured, ByAuthor(id), SetAuthorNames(first, last))
  }

  /** After the rename every post of the user carries the user's current name. */
  lemma RenameMatchesAuthor(posts: seq<Post>, u: User, picture: Option<string>)
    ensures forall p :: p in RenameAuthorPosts(posts, u.id, u.firstName, u.lastName, picture) && p.userId == u.id ==>
              p.firstName == u.firstName && p.lastName == u.lastName
  {
    var r := RenameAuthorPosts(posts, u.id, u.firstName, u.lastName, picture);
    forall p | p in r && p.userId == u.id ensures p.firstName == u.firstName && p.lastName == u.lastName {
      var k :| 0 <= k < |r| && r[k] == p;
    }
  }

  /** `editUser`. Anyone but the user gets 403. A failed upload answers 500 at once and the handler
      goes on, so that 500 is the answer whatever follows. A missing user, or a username held by
      someone else, ends in 404 with nothing changed. Otherwise the user's posts are renamed, the
      edited record is saved when the schema accepts it, and the handler then throws on an undefined
      variable: the effects stay and the answer is 404. It never answers 200. */
  method EditUser(st: Store, actor: Id, id: Id, usernameParam: string, form: ProfileForm,
                  upload: Upload, pictureFlag: bool, backgroundFlag: bool) returns (resp: Response<()>)
    modifies st
    ensures resp.status != OK
    ensures actor != id ==> resp == Response(FORBIDDEN, None) && st.State() == old(st.State())
    ensures actor == id ==>
              var slot := ImageTarget(upload, pictureFlag, backgroundFlag);
              var status := if slot != NoImage && upload.UploadFailed? then SERVER_ERROR else NOT_FOUND;
              var picture := if slot == ToPicture then UploadedUrl(upload) else None;
              var background := if slot == ToBackground then UploadedUrl(upload) else None;
              var user := UserById(old(st.users), id);
              && resp == Response(status, None)
              && (user.None? || UsernameTaken(old(st.users), id, form.username) ==> st.State() == old(st.State()))
              && (user.Some? && !UsernameTaken(old(st.users), id, form.username) ==>
                    var edited := EditedUser(user.value, form, usernameParam, picture, background);
                    st.State() == old(st.State()).(
                      posts := RenameAuthorPosts(old(st.posts), id, form.firstName, form.lastName, picture),
                      users := if UserValid(edited) then SaveUser(old(st.users), edited) else old(st.users)))
  {
    if actor != id {
      return Response(FORBIDDEN, None);
    }
    var slot := ImageTarget(upload, pictureFlag, backgroundFlag);
    var status := if slot != NoImage && upload.UploadFailed? then SERVER_ERROR else NOT_FOUND;
    var picture := if slot == ToPicture then UploadedUrl(upload) else None;
    var background := if slot == ToBackground then UploadedUrl(upload) else None;
    resp := Response(status, None);
    var user := UserById(st.users, id);
    if user.None? || UsernameTaken(st.users, id, form.username) {
      return;
    }
    var edited := EditedUser(user.value, form, usernameParam, picture, background);
    var posts := RenameAuthorPosts(st.posts, id, form.firstName, form.lastName, picture);
    var users := if UserValid(edited) then SaveUser(st.users, edited) else st.users;
    st.posts, st.users := posts, users;
  }

  /** After an accepted edit the saved user and every one of the user's posts agree on the name. */
  lemma EditKeepsPostNames(db: Db, id: Id, form: ProfileForm, usernameParam: string, picture: Option<string>, background: Option<string>)
    requires UserById(db.users, id).Some?
    requires UserValid(EditedUser(UserById(db.users, id).value, form, usernameParam, picture, background))
    ensures var edited := EditedUser(UserById(db.users, id).value, form, usernameParam, picture, background);
            var users' := SaveUser(db.users, edited);
            var posts' := RenameAuthorPosts(db.posts, id, form.firstName, form.lastName, picture);
            forall p :: p in posts' && p.userId == id ==>
              p.firstName == UserById(users', id).value.firstName && p.lastName == UserById(users', id).value.lastName
  {
    var edited := EditedUser(UserById(db.users, id).value, form, usernameParam, picture, background);
    RenameMatchesAuthor(db.posts, edited, picture);
  }

  // ---------------------------------------------------------------- passwords

  /** `changePassword`. Anyone but the user gets 403; a missing user 404; an old password that does
      not match the stored hash 400. Otherwise the new hash and the change time are saved (200), or
      the save is refused by the schema and the catch answers 404. The hashing is a parameter:
      `oldMatches(h)` says whether the supplied old password hashes to h. */
  method ChangePassword(st: Store, actor: Id, id: Id, oldMatches: string -> bool, newHash: string, changedAt: string)
    returns (resp: Response<()>)
    modifies st
    ensures actor != id ==> resp == Response(FORBIDDEN, None) && st.State() == old(st.State())
    ensures actor == id ==>
              var user := UserById(old(st.users), id);
              && (user.None? ==> resp == Response(NOT_FOUND, None) && st.State() == old(st.State()))
              && (user.Some? && !oldMatches(user.value.password) ==> resp == Response(BAD_REQUEST, None) && st.State() == old(st.State()))
              && (user.Some? && oldMatches(user.value.password) ==>
                    var changed := user.value.(password := newHash, passwordChangedAt := changedAt);
                    && (UserValid(changed) ==> resp == Response(OK, Some(())) && st.State() == old(st.State()).(users := SaveUser(old(st.users), changed)))
                    && (!UserValid(changed) ==> resp == Response(NOT_FOUND, None) && st.State() == old(st.State())))
  {
    if actor != id {
      return Response(FORBIDDEN, None);
    }
    var user := UserById(st.users, id);
    if user.None? {
      return Response(NOT_FOUND, None);
    }
    if !oldMatches(user.value.password) {
      return Response(BAD_REQUEST, None);
    }
    var changed := user.value.(password := newHash, passwordChangedAt := changedAt);
    if !UserValid(changed) {
      return Response(NOT_FOUND, None);
    }
    st.users := SaveUser(st.users, changed);
    resp := Response(OK, Some(()));
  }

  /** `checkCorrectPassword`: 200 exactly when the actor is the user, the user exists and the supplied
      change time equals the stored one; otherwise 403 (someone else) or 404. */
  function CheckCorrectPassword(db: Db, actor: Id, id: Id, supplied: Option<string>): (r: Response<()>)
    ensures r.status == OK <==> actor == id && UserById(db.users, id).Some? && supplied == Some(UserById(db.users, id).value.passwordChangedAt)
    ensures actor != id <==> r == Response(FORBIDDEN, None)
    ensures r.status != OK && actor == id ==> r == Response(NOT_FOUND, None)
  {
    if actor != id then Response(FORBIDDEN, None)
    else match UserById(db.users, id)
      case None => Response(NOT_FOUND, None)
      case Some(u) => if Some(u.passwordChangedAt) != supplied then Response(NOT_FOUND, None) else Response(OK, Some(()))
  }

  /** After a password change is saved, checking with the new change time succeeds. */
  lemma CheckAfterChange(db: Db, id: Id, newHash: string, changedAt: string)
    requires UserById(db.users, id).Some?
    ensures var changed := UserById(db.users, id).value.(password := newHash, passwordChangedAt := changedAt);
            CheckCorrectPassword(db.(users := SaveUser(db.users, changed)), id, id, Some(changedAt)).status == OK
  {
  }

  // ---------------------------------------------------------------- online friends

  /** The user stored under `id` exists and is online. */
  predicate IsOnline(users: seq<User>, id: Id)
  {
    UserById(users, id).Some? && UserById(users, id).value.online
  }

  /** Both ends of the edge load, so populating it yields two records. */
  predicate EndsLoaded(users: seq<User>, e: Friend)
  {
    UserById(users, e.sender).Some? && UserById(users, e.receiver).Some?
  }

  /** The filter of `getOnlineFriends`: the user is one end and the other end is online. */
  function OnlineOther(users: seq<User>, id: Id): Friend -> bool
  {
    (e: Friend) => (e.sender == id && IsOnline(users, e.receiver)) || (e.receiver == id && IsOnline(users, e.sender))
  }

  /** `getOnlineFriends`: anyone but the user gets 403. An edge whose end does not load makes the
      filter dereference null, 500; otherwise the accepted edges of the user whose other end is
      online, in stored order. */
  function GetOnlineFriends(db: Db, actor: Id, id: Id): (r: Response<seq<Friend>>)
    ensures actor != id <==> r == Response(FORBIDDEN, None)
    ensures actor == id ==>
              ((forall e :: e in Filter(db.friends, AcceptedWith(id)) ==> EndsLoaded(db.users, e)) <==> r.status == OK)
    ensures r.status != OK && actor == id ==> r == Response(SERVER_ERROR, None)
    ensures r.status == OK ==> r.body.Some?
  {
    if actor != id then Response(FORBIDDEN, None)
    else
      var edges := Filter(db.friends, AcceptedWith(id));
      if forall e :: e in edges ==> EndsLoaded(db.users, e) then Response(OK, Some(Filter(edges, OnlineOther(db.users, id))))
      else Response(SERVER_ERROR, None)
  }

  /** The list holds exactly the accepted edges of the user whose other end is an online user. */
  lemma OnlineFriendsExactly(db: Db, id: Id, e: Friend)
    requires GetOnlineFriends(db, id, id).status == OK
    ensures e in GetOnlineFriends(db, id, id).body.value <==>
              e in db.friends && AcceptedWith(id)(e) && IsOnline(db.users, OtherEnd(id)(e))
    ensures e in GetOnlineFriends(db, id, id).body.value ==> OtherEnd(id)(e) in FriendIds(db.friends, id)
  {
    if e in GetOnlineFriends(db, id, id).body.value {
      FriendIdsExactly(db.friends, id, OtherEnd(id)(e));
    }
  }

  // ---------------------------------------------------------------- online status

  /** A request body value, as JavaScript tests it in a condition. */
  datatype BodyValue = Missing | JsBool(b: bool) | JsString(s: string) | JsNumber(n: int)

  predicate Truthy(v: BodyValue)
  {
    match v
    case Missing => false
    case JsBool(b) => b
    case JsString(s) => s != ""
    case JsNumber(n) => n != 0
  }

  /** `changeOnlineStatus`: a missing user is 404. Otherwise the flag is set to whether `makeOnline`
      is truthy and saved (200), or the schema refuses the record and the catch answers 500. */
  method ChangeOnlineStatus(st: Store, id: Id, makeOnline: BodyValue) returns (resp: Response<()>)
    modifies st
    ensures var user := UserById(old(st.users), id);
      && (user.None? ==> resp == Response(NOT_FOUND, None) && st.State() == old(st.State()))
      && (user.Some? && !UserValid(user.value) ==> resp == Response(SERVER_ERROR, None) && st.State() == old(st.State()))
      && (user.Some? && UserValid(user.value) ==>
            && resp == Response(OK, Some(()))
            && st.State() == old(st.State()).(users := SetOnlineFlag(old(st.users), id, Truthy(makeOnline)))
            && UserById(st.users, id).value.online == Truthy(makeOnline))
  {
    var user := UserById(st.users, id);
    if user.None? {
      return Response(NOT_FOUND, None);
    }
    if !UserValid(user.value.(online := Truthy(makeOnline))) {
      return Response(SERVER_ERROR, None);
    }
    st.users := SetOnlineFlag(st.users, id, Truthy(makeOnline));
    resp := Response(OK, Some(()));
  }
}
