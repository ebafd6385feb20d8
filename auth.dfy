/** `verifyToken`: reading the bearer token from the Authorization header, handing it to the
    signature check, and the newline unescaping applied to the configured public key. */
module Auth {
  import opened Model
  import opened Text

  const BEARER: string := "Bearer "

  /** The token the header carries: a missing or empty header has none; after a "Bearer " prefix
      it is the rest with leading white space removed, and none when that is empty; any other
      header is the token as it stands. */
  function ExtractToken(header: Option<string>): (t: Option<string>)
    ensures t.Some? ==> t.value != ""
    ensures header.None? || header == Some("") ==> t.None?
    ensures header.Some? && !StartsWith(header.value, BEARER) && header.value != "" ==> t == header
    ensures header.Some? && StartsWith(header.value, BEARER) ==>
              t == (if TrimLeft(header.value[|BEARER|..]) == "" then None else Some(TrimLeft(header.value[|BEARER|..])))
  {
    match header
    case None => None
    case Some(h) =>
      if h == "" then None
      else if StartsWith(h, BEARER) then
        var rest := TrimLeft(h[|BEARER|..]);
        if rest == "" then None else Some(rest)
      else Some(h)
  }

  /** Leading white space in front of a token that does not start with white space is all removed. */
  lemma {:induction false} TrimLeftSpaces(ws: string, token: string)
    requires forall i :: 0 <= i < |ws| ==> IsJsSpace(ws[i])
    requires token == "" || !IsJsSpace(token[0])
    ensures TrimLeft(ws + token) == token
    decreases |ws|
  {
    if ws != [] {
      assert (ws + token)[1..] == ws[1..] + token;
      TrimLeftSpaces(ws[1..], token);
    } else {
      assert ws + token == token;
    }
  }

  /** A header built as "Bearer ", any white space, then a token gives that token back. */
  lemma BearerRoundTrip(ws: string, token: string)
    requires forall i :: 0 <= i < |ws| ==> IsJsSpace(ws[i])
    requires token != "" && !IsJsSpace(token[0])
    ensures ExtractToken(Some(BEARER + ws + token)) == Some(token)
  {
    var h := BEARER + ws + token;
    assert h[..|BEARER|] == BEARER;
    assert h[|BEARER|..] == ws + token;
    TrimLeftSpaces(ws, token);
  }

  /** What the middleware does with the request. */
  datatype AuthOutcome = Reject(status: nat) | Next(claims: Id)

  /** `verifyToken`. No token: 403 and the handler is not reached. A token the signature check
      refuses throws, and the catch answers 500. A verified token becomes `req.user` and the
      handler runs. The check itself is the parameter `verify`. */
  function VerifyToken(header: Option<string>, verify: string -> Option<Id>): (r: AuthOutcome)
    ensures ExtractToken(header).None? <==> r == Reject(FORBIDDEN)
    ensures r.Next? <==> ExtractToken(header).Some? && verify(ExtractToken(header).value).Some?
    ensures r.Next? ==> verify(ExtractToken(header).value) == Some(r.claims)
    ensures r.Reject? ==> r.status == FORBIDDEN || r.status == SERVER_ERROR
  {
    match ExtractToken(header)
    case None => Reject(FORBIDDEN)
    case Some(token) =>
      match verify(token)
      case None => Reject(SERVER_ERROR)
      case Some(claims) => Next(claims)
  }

  // ---------------------------------------------------------------- the public key

  /** `s` holds a backslash immediately followed by the letter n. */
  predicate HasEscape(s: string)
  {
    exists i :: 0 <= i < |s| - 1 && s[i] == '\\' && s[i + 1] == 'n'
  }

  /** `replace(/\\n/g, "\n")`: scanning left to right, each backslash followed by n becomes a
      newline; every other character is kept. */
  function UnescapeNewlines(s: string): (r: string)
    ensures |r| <= |s|
    ensures !HasEscape(s) ==> r == s
    decreases |s|
  {
    if |s| >= 2 && s[0] == '\\' && s[1] == 'n' then ['\n'] + UnescapeNewlines(s[2..])
    else if s == [] then []
    else
      assert !HasEscape(s) ==> !HasEscape(s[1..]) by {
        if HasEscape(s[1..]) {
          var i :| 0 <= i < |s[1..]| - 1 && s[1..][i] == '\\' && s[1..][i + 1] == 'n';
          assert s[i + 1] == '\\' && s[i + 2] == 'n';
        }
      }
      [s[0]] + UnescapeNewlines(s[1..])
  }

  /** The way a key is written into a one-line setting: each newline as a backslash and n. */
  function EscapeNewlines(s: string): (r: string)
    ensures '\n' !in r
    decreases |s|
  {
    if s == [] then []
    else if s[0] == '\n' then "\\n" + EscapeNewlines(s[1..])
    else [s[0]] + EscapeNewlines(s[1..])
  }

  /** Unescaping gives back the multi-line key, provided the key has no backslash-n of its own. */
  lemma {:induction false} UnescapeEscape(s: string)
    requires !HasEscape(s)
    ensures UnescapeNewlines(EscapeNewlines(s)) == s
    decreases |s|
  {
    if s != [] {
      UnescapeEscape(s[1..]);
      var e := EscapeNewlines(s);
      if s[0] == '\n' {
        assert e == "\\n" + EscapeNewlines(s[1..]);
        assert e[2..] == EscapeNewlines(s[1..]);
      } else {
        assert e == [s[0]] + EscapeNewlines(s[1..]);
        assert e[1..] == EscapeNewlines(s[1..]);
        if s[0] == '\\' && |e| >= 2 {
          assert |s| >= 2 && s[1] != 'n';
          EscapeHead(s[1..]);
        }
      }
    }
  }

  /** The escaped text starts with `n` exactly when the text does. */
  lemma EscapeHead(s: string)
    requires s != []
    ensures EscapeNewlines(s) != [] && (EscapeNewlines(s)[0] == 'n' <==> s[0] == 'n')
  {
  }

  /** Escaping a key that holds no backslash-n of its own and unescaping it again are inverse. */
  lemma {:induction false} EscapeUnescape(s: string)
    requires '\n' !in s
    ensures EscapeNewlines(UnescapeNewlines(s)) == s
    decreases |s|
  {
    if |s| >= 2 && s[0] == '\\' && s[1] == 'n' {
      EscapeUnescape(s[2..]);
      assert s == "\\n" + s[2..];
    } else if s != [] {
      EscapeUnescape(s[1..]);
      assert s == [s[0]] + s[1..];
    }
  }
}
