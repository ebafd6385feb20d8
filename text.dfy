/** String helpers with JavaScript's meaning: number coercion of query strings,
    `split`, `startsWith`, `trimLeft`, code-point ordering, and the store's
    case-insensitive pattern match. */
module Text {
  import opened Model

  // ---------------------------------------------------------------- Number(s)

  predicate IsDigit(c: char)
  {
    '0' <= c <= '9'
  }

  predicate AllDigits(s: string)
  {
    forall i :: 0 <= i < |s| ==> IsDigit(s[i])
  }

  /** The value of a string of decimal digits. */
  function DigitsValue(s: string): nat
    requires AllDigits(s)
    decreases |s|
  {
    if s == [] then 0
    else DigitsValue(s[..|s| - 1]) * 10 + (s[|s| - 1] as int - '0' as int)
  }

  /** JavaScript's coercion of a query string to a number: the empty string is 0,
      an optionally signed run of decimal digits is its value, anything else is
      NaN (None). */
  function ToNumber(s: string): (r: Option<int>)
    ensures s == "" ==> r == Some(0)
    ensures s != "" && AllDigits(s) ==> r == Some(DigitsValue(s))
    ensures r.Some? && s != "" ==> s[0] in "+-" || IsDigit(s[0])
  {
    if s == "" then Some(0)
    else if AllDigits(s) then Some(DigitsValue(s))
    else if |s| > 1 && s[0] == '-' && AllDigits(s[1..]) then Some(0 - DigitsValue(s[1..]) as int)
    else if |s| > 1 && s[0] == '+' && AllDigits(s[1..]) then Some(DigitsValue(s[1..]))
    else None
  }

  /** The number a missing-or-present query parameter coerces to (a missing one is NaN). */
  function QueryNumber(q: Option<string>): Option<int>
  {
    match q
    case None => None
    case Some(s) => ToNumber(s)
  }

  // ---------------------------------------------------------------- ordering

  /** Ascending string order by character codes, as the store sorts strings. */
  predicate LexLe(a: string, b: string)
    decreases |a|
  {
    a == [] || (b != [] && (a[0] < b[0] || (a[0] == b[0] && LexLe(a[1..], b[1..]))))
  }

  lemma {:induction false} LexLeTotal(a: string, b: string)
    ensures LexLe(a, b) || LexLe(b, a)
    decreases |a|
  {
    if a != [] && b != [] && a[0] == b[0] {
      LexLeTotal(a[1..], b[1..]);
    }
  }

  lemma {:induction false} LexLeTransitive(a: string, b: string, c: string)
    requires LexLe(a, b) && LexLe(b, c)
    ensures LexLe(a, c)
    decreases |a|
  {
    if a != [] && b != [] && c != [] && a[0] == b[0] && b[0] == c[0] {
      LexLeTransitive(a[1..], b[1..], c[1..]);
    }
  }

  // ---------------------------------------------------------------- split

  /** `s.split(sep)`: the pieces between separators, empty pieces included. */
  function Split(s: string, sep: char): (parts: seq<string>)
    ensures |parts| >= 1
    ensures forall i :: 0 <= i < |parts| ==> sep !in parts[i]
    decreases |s|
  {
    if s == [] then [""]
    else
      var rest := Split(s[1..], sep);
      if s[0] == sep then [""] + rest
      else [[s[0]] + rest[0]] + rest[1..]
  }

  /** `parts.join(sep)`. */
  function Join(parts: seq<string>, sep: char): string
    requires |parts| >= 1
    decreases |parts|
  {
    if |parts| == 1 then parts[0] else parts[0] + [sep] + Join(parts[1..], sep)
  }

  /** Splitting loses nothing: joining the pieces back gives the original string. */
  lemma {:induction false} JoinSplit(s: string, sep: char)
    ensures Join(Split(s, sep), sep) == s
    decreases |s|
  {
    if s != [] {
      var rest := Split(s[1..], sep);
      JoinSplit(s[1..], sep);
      if s[0] == sep {
        assert Split(s, sep) == [""] + rest;
        assert ([""] + rest)[1..] == rest;
      } else {
        var parts := [[s[0]] + rest[0]] + rest[1..];
        assert Split(s, sep) == parts;
        if |rest| == 1 {
          assert Join(rest, sep) == rest[0];
        } else {
          assert parts[1..] == rest[1..];
          assert Join(rest, sep) == rest[0] + [sep] + Join(rest[1..], sep);
        }
      }
    }
  }

  // ---------------------------------------------------------------- prefixes and whitespace

  predicate StartsWith(s: string, prefix: string)
  {
    |prefix| <= |s| && s[..|prefix|] == prefix
  }

  /** The characters `String.prototype.trimLeft` removes: white space and line terminators. */
  predicate IsJsSpace(c: char)
  {
    c in {'\U{9}', '\U{A}', '\U{B}', '\U{C}', '\U{D}', '\U{20}', '\U{A0}', '\U{1680}',
          '\U{2000}', '\U{2001}', '\U{2002}', '\U{2003}', '\U{2004}', '\U{2005}', '\U{2006}', '\U{2007}',
          '\U{2008}', '\U{2009}', '\U{200A}', '\U{2028}', '\U{2029}', '\U{202F}', '\U{205F}', '\U{3000}',
          '\U{FEFF}'}
  }

  /** `s.trimLeft()`: the longest suffix of s that does not start with white space. */
  function TrimLeft(s: string): (r: string)
    ensures |r| <= |s| && r == s[|s| - |r|..]
    ensures r != [] ==> !IsJsSpace(r[0])
    ensures forall i :: 0 <= i < |s| - |r| ==> IsJsSpace(s[i])
    decreases |s|
  {
    if s != [] && IsJsSpace(s[0]) then TrimLeft(s[1..]) else s
  }

  // ---------------------------------------------------------------- string length

  /** A character outside the Basic Multilingual Plane, which UTF-16 writes as a surrogate pair. */
  predicate Astral(c: char)
  {
    c as int >= 0x10000
  }

  /** `s.length` in JavaScript, which is what a schema's `maxlength` compares: the number of UTF-16
      code units, one per character of the Basic Multilingual Plane and two per other character. */
  function Utf16Length(s: string): (n: nat)
    ensures |s| <= n <= 2 * |s|
    decreases |s|
  {
    if s == [] then 0 else (if Astral(s[0]) then 2 else 1) + Utf16Length(s[1..])
  }

  /** Text of the Basic Multilingual Plane has one unit per character, and any other character
      makes the text longer in units than in characters. */
  lemma {:induction false} Utf16LengthBmp(s: string)
    ensures Utf16Length(s) == |s| <==> forall i :: 0 <= i < |s| ==> !Astral(s[i])
    decreases |s|
  {
    if s != [] {
      Utf16LengthBmp(s[1..]);
      assert forall i :: 1 <= i < |s| ==> s[i] == s[1..][i - 1];
    }
  }

  // ---------------------------------------------------------------- case-insensitive match

  function LowerChar(c: char): char
  {
    if 'A' <= c <= 'Z' then (c as int + 32) as char else c
  }

  function Lower(s: string): (r: string)
    ensures |r| == |s|
    ensures forall i :: 0 <= i < |s| ==> r[i] == LowerChar(s[i])
    decreases |s|
  {
    if s == [] then [] else [LowerChar(s[0])] + Lower(s[1..])
  }

  /** `pat` occurs somewhere in `text`. */
  predicate Occurs(pat: string, text: string)
    decreases |text|
  {
    StartsWith(text, pat) || (text != [] && Occurs(pat, text[1..]))
  }

  /** The store's `{$regex: pat, $options: "i"}` on a field, with the pattern read literally. */
  predicate MatchesIgnoreCase(field: string, pat: string)
  {
    Occurs(Lower(pat), Lower(field))
  }
}
