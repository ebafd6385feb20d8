/** `searchInfo`: the page number with its default, the query's first two words, and the user and
    post searches with their filters, orders, page sizes and counts. */
module Search {
  import opened Model
  import opened Query
  import opened Storage
  import opened Text
  import opened Posts
  import opened Users

  /** `req.query.page * 1 || 1`: a missing, zero or non-numeric page is page 1. */
  function SearchPage(q: Option<string>): (page: int)
    ensures page != 0
    ensures q.None? ==> page == 1
    ensures QueryNumber(q).None? || QueryNumber(q) == Some(0) ==> page == 1
    ensures QueryNumber(q).Some? && QueryNumber(q) != Some(0) ==> page == QueryNumber(q).value
  {
    match QueryNumber(q)
    case None => 1
    case Some(n) => if n == 0 then 1 else n
  }

  /** `const [firstWord, secondWord] = info.split(" ")`: the first piece, and the second when there
      is one. */
  function Words(info: string): (w: (string, Option<string>))
    ensures ' ' !in w.0
    ensures w.1.Some? ==> ' ' !in w.1.value
  {
    var parts := Split(info, ' ');
    (parts[0], if |parts| > 1 then Some(parts[1]) else None)
  }

  /** A join starts with its first piece, then the separator when more pieces follow. */
  lemma JoinStarts(parts: seq<string>, sep: char)
    requires |parts| >= 1
    ensures StartsWith(Join(parts, sep), parts[0])
    ensures |parts| > 1 ==> StartsWith(Join(parts, sep), parts[0] + [sep] + parts[1])
  {
    if |parts| > 1 {
      var rest := Join(parts[1..], sep);
      assert parts[1..][0] == parts[1];
      if |parts[1..]| > 1 {
        assert rest == parts[1] + [sep] + Join(parts[1..][1..], sep);
      }
      assert rest[..|parts[1]|] == parts[1];
      var j := Join(parts, sep);
      assert j == parts[0] + [sep] + rest;
      assert j[..|parts[0] + [sep] + parts[1]|] == parts[0] + [sep] + parts[1];
    }
  }

  /** The two words are read off the front of the query: the first word, then a space and the
      second; a query without a space is its own first word and has no second. */
  lemma WordsOfQuery(info: string)
    ensures StartsWith(info, Words(info).0)
    ensures Words(info).1.Some? ==> StartsWith(info, Words(info).0 + " " + Words(info).1.value)
    ensures ' ' !in info ==> Words(info) == (info, None)
  {
    var parts := Split(info, ' ');
    JoinSplit(info, ' ');
    JoinStarts(parts, ' ');
  }

  // ---------------------------------------------------------------- users

  /** The user filter: first name or username matches the first word, or, only when a non-empty
      second word exists, last name matches the second. */
  function UserMatches(first: string, second: Option<string>): User -> bool
  {
    (u: User) => MatchesIgnoreCase(u.firstName, first)
                 || (second.Some? && second.value != "" && MatchesIgnoreCase(u.lastName, second.value))
                 || MatchesIgnoreCase(u.username, first)
  }

  /** `sort({verified: -1, firstName: 1})`. */
  predicate UserSearchOrder(a: User, b: User)
  {
    (a.verified && !b.verified) || (a.verified == b.verified && LexLe(a.firstName, b.firstName))
  }

  /** The same order on the returned records. */
  predicate PublicSearchOrder(a: PublicUser, b: PublicUser)
  {
    (a.verified && !b.verified) || (a.verified == b.verified && LexLe(a.firstName, b.firstName))
  }

  lemma UserSearchOrderTotal()
    ensures TotalPreorder(UserSearchOrder)
  {
    forall a: User, b: User ensures UserSearchOrder(a, b) || UserSearchOrder(b, a) {
      LexLeTotal(a.firstName, b.firstName);
    }
    forall a: User, b: User, c: User | UserSearchOrder(a, b) && UserSearchOrder(b, c) ensures UserSearchOrder(a, c) {
      if a.verified == b.verified && b.verified == c.verified {
        LexLeTransitive(a.firstName, b.firstName, c.firstName);
      }
    }
  }

  // ---------------------------------------------------------------- posts

  /** The post filter: the whole query matches the description, and the post is public. */
  function PostMatches(info: string): Post -> bool
  {
    (p: Post) => MatchesIgnoreCase(p.description, info) && p.privacy == Some("public")
  }

  /** `sort({description: 1})`. */
  predicate DescriptionOrder(a: Post, b: Post)
  {
    LexLe(a.description, b.description)
  }

  lemma DescriptionOrderTotal()
    ensures TotalPreorder(DescriptionOrder)
  {
    forall a: Post, b: Post ensures DescriptionOrder(a, b) || DescriptionOrder(b, a) {
      LexLeTotal(a.description, b.description);
    }
    forall a: Post, b: Post, c: Post | DescriptionOrder(a, b) && DescriptionOrder(b, c) ensures DescriptionOrder(a, c) {
      LexLeTransitive(a.description, b.description, c.description);
    }
  }

  // ---------------------------------------------------------------- searchInfo

  datatype SearchResult = FoundUsers(users: seq<PublicUser>, count: nat) | FoundPosts(posts: seq<Liked<Post>>, count: nat)

  /** `searchInfo`. Users: ten per page, without passwords, with the count of every match. Posts:
      five per page, each with the viewer's like status, with the count of every match. A rejected
      skip ends in the catch, 404; any other search type falls off the end without an answer. */
  function SearchInfo(db: Db, viewer: Id, kind: string, info: string, page: Option<string>): (r: Response<SearchResult>)
    ensures kind != "users" && kind != "posts" <==> r == Response(NO_RESPONSE, None)
    ensures (kind == "users" || kind == "posts") ==> (SearchPage(page) < 1 <==> r == Response(NOT_FOUND, None))
    ensures r.status == OK ==> r.body.Some?
    ensures r.status == OK && kind == "users" ==>
              && r.body.value.FoundUsers?
              && r.body.value.count == |Filter(db.users, UserMatches(Words(info).0, Words(info).1))|
              && |r.body.value.users| <= 10
    ensures r.status == OK && kind == "posts" ==>
              && r.body.value.FoundPosts?
              && r.body.value.count == |Filter(db.posts, PostMatches(info))|
              && |r.body.value.posts| <= 5
              && forall v :: v in r.body.value.posts ==> PostShownFor(db, viewer, v) && PostMatches(info)(v.doc)
  {
    if kind == "users" then
      var (first, second) := Words(info);
      match Select(db.users, UserMatches(first, second), UserSearchOrder, Some(SearchPage(page)), 10)
      case None => Response(NOT_FOUND, None)
      case Some(rows) => Response(OK, Some(FoundUsers(MapSeq(rows, Public), |Filter(db.users, UserMatches(first, second))|)))
    else if kind == "posts" then
      match Select(db.posts, PostMatches(info), DescriptionOrder, Some(SearchPage(page)), 5)
      case None => Response(NOT_FOUND, None)
      case Some(rows) =>
        var body := MapSeq(rows, ViewPost(db.likes, viewer));
        assert forall v :: v in body ==> PostShownFor(db, viewer, v) && PostMatches(info)(v.doc) by {
          forall v | v in body ensures PostShownFor(db, viewer, v) && PostMatches(info)(v.doc) {
            var k :| 0 <= k < |body| && body[k] == v;
            assert rows[k] in rows;
          }
        }
        Response(OK, Some(FoundPosts(body, |Filter(db.posts, PostMatches(info))|)))
    else Response(NO_RESPONSE, None)
  }

  /** Found users are stored users that match, without their passwords, verified first and then
      by first name. */
  lemma SearchUsersFound(db: Db, viewer: Id, info: string, page: Option<string>)
    requires SearchInfo(db, viewer, "users", info, page).status == OK
    ensures var found := SearchInfo(db, viewer, "users", info, page).body.value.users;
      && Sorted(found, PublicSearchOrder)
      && forall p :: p in found ==>
           exists u :: u in db.users && UserMatches(Words(info).0, Words(info).1)(u) && Public(u) == p
  {
    var (first, second) := Words(info);
    var rows := Select(db.users, UserMatches(first, second), UserSearchOrder, Some(SearchPage(page)), 10).value;
    var found := MapSeq(rows, Public);
    UserSearchOrderTotal();
    SelectSorted(db.users, UserMatches(first, second), UserSearchOrder, Some(SearchPage(page)), 10);
    MapSeqSorted(rows, Public, UserSearchOrder, PublicSearchOrder);
    forall p | p in found ensures exists u :: u in db.users && UserMatches(first, second)(u) && Public(u) == p {
      var k :| 0 <= k < |found| && found[k] == p;
      assert rows[k] in rows;
    }
  }

  /** Found posts come in description order. */
  lemma SearchPostsOrdered(db: Db, viewer: Id, info: string, page: Option<string>)
    requires SearchInfo(db, viewer, "posts", info, page).status == OK
    ensures Sorted(MapSeq(SearchInfo(db, viewer, "posts", info, page).body.value.posts, PostDoc), DescriptionOrder)
  {
    var rows := Select(db.posts, PostMatches(info), DescriptionOrder, Some(SearchPage(page)), 5).value;
    var body := SearchInfo(db, viewer, "posts", info, page).body.value.posts;
    assert MapSeq(body, PostDoc) == rows;
    DescriptionOrderTotal();
    SelectSorted(db.posts, PostMatches(info), DescriptionOrder, Some(SearchPage(page)), 5);
  }
}
