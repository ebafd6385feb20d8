/** Generic primitives that stand in for the document store's operators:
    `find` (Filter), `findOne` (FindFirst), `findOneAndUpdate` (UpdateFirst),
    `deleteOne` (RemoveFirst), `updateMany` (UpdateAll), `sort` (SortBy) and
    `skip`/`limit` (Window, Page). Collections are sequences in insertion order. */
module Query {
  import opened Model

  // ---------------------------------------------------------------- find

  /** The rows satisfying `p`, in stored order. */
  function Filter<T(!new)>(s: seq<T>, p: T -> bool): (r: seq<T>)
    ensures |r| <= |s|
    ensures forall x :: x in r <==> x in s && p(x)
    decreases |s|
  {
    if s == [] then []
    else if p(s[0]) then [s[0]] + Filter(s[1..], p)
    else Filter(s[1..], p)
  }

  /** Conjunction and negation of row predicates, as named values so that equal filters are equal terms. */
  function And<T>(p: T -> bool, q: T -> bool): T -> bool
  {
    x => p(x) && q(x)
  }

  function Not<T>(p: T -> bool): T -> bool
  {
    x => !p(x)
  }

  lemma {:induction false} FilterConcat<T(!new)>(a: seq<T>, b: seq<T>, p: T -> bool)
    ensures Filter(a + b, p) == Filter(a, p) + Filter(b, p)
    decreases |a|
  {
    if a == [] {
      assert a + b == b;
    } else {
      var ab := a + b;
      assert ab[0] == a[0] && ab[1..] == a[1..] + b;
      FilterConcat(a[1..], b, p);
      if p(a[0]) {
        assert Filter(ab, p) == [a[0]] + Filter(a[1..] + b, p);
        assert Filter(a, p) == [a[0]] + Filter(a[1..], p);
      } else {
        assert Filter(ab, p) == Filter(a[1..] + b, p);
        assert Filter(a, p) == Filter(a[1..], p);
      }
    }
  }

  /** Filtering keeps every copy of a row that passes and drops every copy of one that fails. */
  lemma {:induction false} FilterMultiset<T(!new)>(s: seq<T>, p: T -> bool, x: T)
    ensures multiset(Filter(s, p))[x] == if p(x) then multiset(s)[x] else 0
    decreases |s|
  {
    if s != [] {
      FilterMultiset(s[1..], p, x);
      assert s == [s[0]] + s[1..];
    }
  }

  /** When `a` holds the rows of `b` and one more row x, filtering `a` yields the rows of
      filtering `b`, plus x when x passes. */
  lemma FilterOneMore<T(!new)>(a: seq<T>, b: seq<T>, x: T, p: T -> bool)
    requires multiset(a) == multiset(b) + multiset{x}
    ensures multiset(Filter(a, p)) == multiset(Filter(b, p)) + (if p(x) then multiset{x} else multiset{})
    ensures |Filter(a, p)| == |Filter(b, p)| + (if p(x) then 1 else 0)
  {
    var fa, fb := multiset(Filter(a, p)), multiset(Filter(b, p));
    var extra: multiset<T> := if p(x) then multiset{x} else multiset{};
    forall y ensures fa[y] == (fb + extra)[y] {
      FilterMultiset(a, p, y);
      FilterMultiset(b, p, y);
    }
    assert fa == fb + extra;
    assert |Filter(a, p)| == |fa|;
    assert |Filter(b, p)| == |fb|;
  }

  /** Two predicates that agree on every row of `s` select the same rows. */
  lemma {:induction false} FilterCongruent<T(!new)>(s: seq<T>, p: T -> bool, q: T -> bool)
    requires forall x :: x in s ==> p(x) == q(x)
    ensures Filter(s, p) == Filter(s, q)
    decreases |s|
  {
    if s != [] {
      FilterCongruent(s[1..], p, q);
    }
  }

  /** Filtering twice is filtering once by both predicates. */
  lemma {:induction false} FilterFilter<T(!new)>(s: seq<T>, p: T -> bool, q: T -> bool)
    ensures Filter(Filter(s, p), q) == Filter(s, And(p, q))
    decreases |s|
  {
    if s != [] {
      FilterFilter(s[1..], p, q);
      if p(s[0]) {
        assert Filter(s, p) == [s[0]] + Filter(s[1..], p);
        assert ([s[0]] + Filter(s[1..], p))[1..] == Filter(s[1..], p);
      }
    }
  }

  /** The rows passing p split into those that also pass q and those that do not. */
  lemma {:induction false} FilterSplitCount<T(!new)>(s: seq<T>, p: T -> bool, q: T -> bool)
    ensures |Filter(s, p)| == |Filter(s, And(p, q))| + |Filter(s, And(p, Not(q)))|
    decreases |s|
  {
    if s != [] {
      FilterSplitCount(s[1..], p, q);
    }
  }

  /** A filter that no row passes is empty. */
  lemma FilterNone<T(!new)>(s: seq<T>, p: T -> bool)
    requires forall x :: x in s ==> !p(x)
    ensures Filter(s, p) == []
  {
    if Filter(s, p) != [] {
      assert Filter(s, p)[0] in Filter(s, p);
    }
  }

  /** Appending in two steps is appending once. */
  lemma AppendAssoc<T>(a: seq<T>, b: seq<T>, c: seq<T>)
    ensures a + b + c == a + (b + c)
  {
  }

  // ---------------------------------------------------------------- findOne

  /** Position of the first row satisfying `p`, or |s| when there is none. */
  function IndexOf<T>(s: seq<T>, p: T -> bool): (i: nat)
    ensures i <= |s|
    ensures i < |s| ==> p(s[i])
    ensures forall j :: 0 <= j < i ==> !p(s[j])
    decreases |s|
  {
    if s == [] then 0
    else if p(s[0]) then 0
    else 1 + IndexOf(s[1..], p)
  }

  /** The first row satisfying `p`, or None. */
  function FindFirst<T(!new)>(s: seq<T>, p: T -> bool): (r: Option<T>)
    ensures r.None? <==> forall x :: x in s ==> !p(x)
    ensures r.Some? ==> r.value in s && p(r.value)
  {
    var i := IndexOf(s, p);
    if i < |s| then Some(s[i]) else None
  }

  /** An appended row is found only when no earlier row matches. */
  lemma FindFirstAppend<T(!new)>(s: seq<T>, x: T, p: T -> bool)
    ensures FindFirst(s + [x], p) == if FindFirst(s, p).Some? then FindFirst(s, p) else if p(x) then Some(x) else None
  {
    var i := IndexOf(s, p);
    var j := IndexOf(s + [x], p);
    if i < |s| {
      assert (s + [x])[i] == s[i];
    } else {
      forall k | 0 <= k < |s| ensures !p((s + [x])[k]) {
        assert (s + [x])[k] == s[k];
      }
    }
  }

  /** True when some row satisfies `p`. */
  predicate Exists<T(!new)>(s: seq<T>, p: T -> bool)
  {
    FindFirst(s, p).Some?
  }

  // ---------------------------------------------------------------- updates

  /** `findOneAndUpdate`: the first row satisfying `p` is replaced by `f` of it, nothing else changes. */
  function UpdateFirst<T>(s: seq<T>, p: T -> bool, f: T -> T): (r: seq<T>)
    ensures |r| == |s|
    ensures forall k :: 0 <= k < |s| && k != IndexOf(s, p) ==> r[k] == s[k]
    ensures IndexOf(s, p) < |s| ==> r[IndexOf(s, p)] == f(s[IndexOf(s, p)])
  {
    var i := IndexOf(s, p);
    if i < |s| then s[i := f(s[i])] else s
  }

  /** An update that keeps the selecting predicate true or false on the updated row
      leaves the position of the first match where it was. */
  lemma IndexOfUpdateFirst<T>(s: seq<T>, p: T -> bool, f: T -> T)
    requires forall x :: p(f(x)) == p(x)
    ensures IndexOf(UpdateFirst(s, p, f), p) == IndexOf(s, p)
  {
  }

  /** Undoing an update on the first match restores the collection exactly. */
  lemma UpdateFirstUndone<T>(s: seq<T>, p: T -> bool, f: T -> T, g: T -> T)
    requires forall x :: p(f(x)) == p(x)
    requires forall x :: g(f(x)) == x
    ensures UpdateFirst(UpdateFirst(s, p, f), p, g) == s
  {
    IndexOfUpdateFirst(s, p, f);
  }

  /** Applying an idempotent update to the first match a second time changes nothing more. */
  lemma UpdateFirstTwice<T>(s: seq<T>, p: T -> bool, f: T -> T)
    requires forall x :: p(f(x)) == p(x)
    requires forall x :: f(f(x)) == f(x)
    ensures UpdateFirst(UpdateFirst(s, p, f), p, f) == UpdateFirst(s, p, f)
  {
    IndexOfUpdateFirst(s, p, f);
  }

  /** `deleteOne` / `findOneAndDelete`: the first row satisfying `p` is taken out. */
  function RemoveFirst<T>(s: seq<T>, p: T -> bool): (r: seq<T>)
    ensures IndexOf(s, p) == |s| ==> r == s
    ensures IndexOf(s, p) < |s| ==> |r| == |s| - 1
    ensures IndexOf(s, p) < |s| ==> multiset(r) == multiset(s) - multiset{s[IndexOf(s, p)]}
    ensures forall k :: 0 <= k < |r| ==> r[k] == if k < IndexOf(s, p) then s[k] else s[k + 1]
  {
    var i := IndexOf(s, p);
    if i < |s| then RemoveAt(s, i) else s
  }

  /** The sequence without its element at position i. */
  function RemoveAt<T>(s: seq<T>, i: nat): (r: seq<T>)
    requires i < |s|
    ensures |r| == |s| - 1
    ensures multiset(r) == multiset(s) - multiset{s[i]}
    ensures forall k :: 0 <= k < |r| ==> r[k] == if k < i then s[k] else s[k + 1]
  {
    assert s == s[..i] + [s[i]] + s[i+1..];
    assert multiset(s) == multiset(s[..i]) + multiset{s[i]} + multiset(s[i+1..]);
    s[..i] + s[i+1..]
  }

  /** Removing the first match adds no row and keeps every row that does not match; when at most
      one row matches, no match is left. */
  lemma RemoveFirstRows<T>(s: seq<T>, p: T -> bool)
    ensures forall x :: x in RemoveFirst(s, p) ==> x in s
    ensures forall x :: x in s && !p(x) ==> x in RemoveFirst(s, p)
    ensures (forall i, j :: 0 <= i < j < |s| && p(s[i]) ==> !p(s[j])) ==>
              forall x :: x in RemoveFirst(s, p) ==> !p(x)
  {
    RemoveFirstAddsNone(s, p);
    RemoveFirstKeepsOthers(s, p);
    if forall i, j :: 0 <= i < j < |s| && p(s[i]) ==> !p(s[j]) {
      RemoveFirstLeavesNone(s, p);
    }
  }

  lemma RemoveFirstAddsNone<T>(s: seq<T>, p: T -> bool)
    ensures forall x :: x in RemoveFirst(s, p) ==> x in s
  {
    var r := RemoveFirst(s, p);
    var i := IndexOf(s, p);
    forall x | x in r ensures x in s {
      var k :| 0 <= k < |r| && r[k] == x;
      assert x == s[if k < i then k else k + 1];
    }
  }

  lemma RemoveFirstKeepsOthers<T>(s: seq<T>, p: T -> bool)
    ensures forall x :: x in s && !p(x) ==> x in RemoveFirst(s, p)
  {
    var r := RemoveFirst(s, p);
    var i := IndexOf(s, p);
    forall x | x in s && !p(x) ensures x in r {
      var k :| 0 <= k < |s| && s[k] == x;
      if k < i {
        assert r[k] == x;
      } else {
        assert k != i;
        assert r[k - 1] == x;
      }
    }
  }

  lemma RemoveFirstLeavesNone<T>(s: seq<T>, p: T -> bool)
    requires forall i, j :: 0 <= i < j < |s| && p(s[i]) ==> !p(s[j])
    ensures forall x :: x in RemoveFirst(s, p) ==> !p(x)
  {
    var r := RemoveFirst(s, p);
    var i := IndexOf(s, p);
    forall x | x in r ensures !p(x) {
      var k :| 0 <= k < |r| && r[k] == x;
      if k >= i {
        assert p(s[i]) && x == s[k + 1];
      }
    }
  }

  /** An update that keeps a row's answer to q keeps the number of rows passing q. */
  lemma UpdateFirstFilterCount<T(!new)>(s: seq<T>, p: T -> bool, f: T -> T, q: T -> bool)
    requires forall x :: q(f(x)) == q(x)
    ensures |Filter(UpdateFirst(s, p, f), q)| == |Filter(s, q)|
  {
    var i := IndexOf(s, p);
    if i < |s| {
      var r := UpdateFirst(s, p, f);
      assert s == s[..i] + [s[i]] + s[i+1..];
      assert r == s[..i] + [f(s[i])] + s[i+1..];
      FilterConcat(s[..i] + [s[i]], s[i+1..], q);
      FilterConcat(s[..i], [s[i]], q);
      FilterConcat(s[..i] + [f(s[i])], s[i+1..], q);
      FilterConcat(s[..i], [f(s[i])], q);
    }
  }

  /** `updateMany`: every row satisfying `p` is replaced by `f` of it, in place. */
  function UpdateAll<T>(s: seq<T>, p: T -> bool, f: T -> T): (r: seq<T>)
    ensures |r| == |s|
    ensures forall k :: 0 <= k < |s| ==> r[k] == (if p(s[k]) then f(s[k]) else s[k])
    decreases |s|
  {
    if s == [] then []
    else [if p(s[0]) then f(s[0]) else s[0]] + UpdateAll(s[1..], p, f)
  }

  /** `deleteMany`: the rows that do not satisfy `p`. */
  function RemoveAll<T(!new)>(s: seq<T>, p: T -> bool): (r: seq<T>)
    ensures forall x :: x in r <==> x in s && !p(x)
    ensures |r| <= |s|
  {
    Filter(s, Not(p))
  }

  /** The element-wise image of a sequence. */
  function MapSeq<T, U>(s: seq<T>, f: T -> U): (r: seq<U>)
    ensures |r| == |s|
    ensures forall k :: 0 <= k < |s| ==> r[k] == f(s[k])
    decreases |s|
  {
    if s == [] then [] else [f(s[0])] + MapSeq(s[1..], f)
  }

  // ---------------------------------------------------------------- sort

  /** `le(a, b)`: a may come before b. The store sorts by such an order. */
  ghost predicate TotalPreorder<T(!new)>(le: (T, T) -> bool)
  {
    && (forall a, b :: le(a, b) || le(b, a))
    && (forall a, b, c :: le(a, b) && le(b, c) ==> le(a, c))
  }

  ghost predicate Sorted<T>(s: seq<T>, le: (T, T) -> bool)
  {
    forall i, j :: 0 <= i < j < |s| ==> le(s[i], s[j])
  }

  /** Places x before the first row it may precede (so equal keys keep their order). */
  function Insert<T>(x: T, s: seq<T>, le: (T, T) -> bool): (r: seq<T>)
    ensures multiset(r) == multiset(s) + multiset{x}
    ensures |r| == |s| + 1
    decreases |s|
  {
    if s == [] then [x]
    else if le(x, s[0]) then [x] + s
    else
      assert s == [s[0]] + s[1..];
      [s[0]] + Insert(x, s[1..], le)
  }

  /** `sort(...)`: a stable insertion sort. */
  function SortBy<T>(s: seq<T>, le: (T, T) -> bool): (r: seq<T>)
    ensures multiset(r) == multiset(s)
    ensures |r| == |s|
    decreases |s|
  {
    if s == [] then []
    else
      assert s == [s[0]] + s[1..];
      Insert(s[0], SortBy(s[1..], le), le)
  }

  lemma {:induction false} InsertSorted<T(!new)>(x: T, s: seq<T>, le: (T, T) -> bool)
    requires TotalPreorder(le)
    requires Sorted(s, le)
    ensures Sorted(Insert(x, s, le), le)
    decreases |s|
  {
    if s != [] && !le(x, s[0]) {
      var t := s[1..];
      SortedTail(s, le);
      InsertSorted(x, t, le);
      InsertKeepsBound(x, t, le, s[0]);
      SortedCons(s[0], Insert(x, t, le), le);
    }
  }

  /** The tail of a sorted sequence is sorted and follows its head. */
  lemma SortedTail<T>(s: seq<T>, le: (T, T) -> bool)
    requires Sorted(s, le) && s != []
    ensures Sorted(s[1..], le)
    ensures forall y :: y in s[1..] ==> le(s[0], y)
  {
    var t := s[1..];
    forall i, j | 0 <= i < j < |t| ensures le(t[i], t[j]) {
      assert t[i] == s[i + 1] && t[j] == s[j + 1];
    }
    forall y | y in t ensures le(s[0], y) {
      var k :| 0 <= k < |t| && t[k] == y;
      assert s[k + 1] == y;
    }
  }

  /** A row that may precede x and every row of t may precede every row of Insert(x, t). */
  lemma InsertKeepsBound<T>(x: T, t: seq<T>, le: (T, T) -> bool, b: T)
    requires le(b, x) && forall y :: y in t ==> le(b, y)
    ensures forall y :: y in Insert(x, t, le) ==> le(b, y)
  {
    var r := Insert(x, t, le);
    forall y | y in r ensures le(b, y) {
      assert y in multiset(r);
      if y != x {
        assert y in multiset(t);
      }
    }
  }

  /** A row that may precede every row of a sorted sequence heads a sorted sequence. */
  lemma SortedCons<T>(h: T, r: seq<T>, le: (T, T) -> bool)
    requires Sorted(r, le) && forall y :: y in r ==> le(h, y)
    ensures Sorted([h] + r, le)
  {
    var out := [h] + r;
    forall i, j | 0 <= i < j < |out| ensures le(out[i], out[j]) {
      if i == 0 {
        assert out[j] == r[j - 1];
      } else {
        assert out[i] == r[i - 1] && out[j] == r[j - 1];
      }
    }
  }

  /** A sort's result is ordered (and, by SortBy's contract, a permutation of its input). */
  lemma {:induction false} SortBySorted<T(!new)>(s: seq<T>, le: (T, T) -> bool)
    requires TotalPreorder(le)
    ensures Sorted(SortBy(s, le), le)
    decreases |s|
  {
    if s != [] {
      SortBySorted(s[1..], le);
      InsertSorted(s[0], SortBy(s[1..], le), le);
    }
  }

  // ---------------------------------------------------------------- skip / limit

  /** `.skip(skip).limit(limit)` on an already sorted result; a limit of 0 means no limit. */
  function Window<T>(s: seq<T>, skip: nat, limit: nat): (r: seq<T>)
    ensures limit > 0 ==> |r| <= limit
    ensures skip >= |s| ==> r == []
    ensures skip < |s| ==> |r| == (if limit == 0 || |s| - skip <= limit then |s| - skip else limit)
    ensures forall k :: 0 <= k < |r| ==> skip + k < |s| && r[k] == s[skip + k]
  {
    var rest := if skip <= |s| then s[skip..] else [];
    if limit == 0 || |rest| <= limit then rest else rest[..limit]
  }

  /** The skip `(page - 1) * size` computed from a page number that went through JavaScript's
      number coercion (None stands for NaN). A NaN or negative skip makes the store reject the query. */
  function Offset(page: Option<int>, size: nat): (r: Option<nat>)
    ensures r.Some? <==> page.Some? && (page.value - 1) * size >= 0
    ensures r.Some? ==> r.value == (page.value - 1) * size
  {
    match page
    case None => None
    case Some(n) => if (n - 1) * size >= 0 then Some((n - 1) * size) else None
  }

  /** One page of an already sorted result, or None when the store rejects the skip. */
  function Page<T>(s: seq<T>, page: Option<int>, size: nat): (r: Option<seq<T>>)
    ensures r.Some? <==> Offset(page, size).Some?
    ensures r.Some? ==> r.value == Window(s, Offset(page, size).value, size)
  {
    match Offset(page, size)
    case None => None
    case Some(skip) => Some(Window(s, skip, size))
  }

  /** A page holds the rows from the skip on, and is full whenever enough rows follow the skip. */
  lemma PageWindow<T>(sorted: seq<T>, page: Option<int>, size: nat)
    requires Page(sorted, page, size).Some?
    ensures var r := Page(sorted, page, size).value;
            var skip := Offset(page, size).value;
      && (forall k :: 0 <= k < |r| ==> skip + k < |sorted| && r[k] == sorted[skip + k])
      && (size > 0 && skip + size <= |sorted| ==> |r| == size)
      && (skip < |sorted| && (size == 0 || |sorted| < skip + size) ==> |r| == |sorted| - skip)
  {
  }

  /** A caller-supplied limit, or the handler's default when none was given. */
  function LimitOr(limit: Option<nat>, default: nat): (n: nat)
    ensures limit.None? ==> n == default
    ensures limit.Some? ==> n == limit.value
  {
    if limit.Some? then limit.value else default
  }

  /** Filtering keeps the rows in their order, so a sorted result stays sorted. */
  lemma {:induction false} FilterSorted<T(!new)>(s: seq<T>, p: T -> bool, le: (T, T) -> bool)
    requires Sorted(s, le)
    ensures Sorted(Filter(s, p), le)
    decreases |s|
  {
    if s != [] {
      var t := s[1..];
      assert Sorted(t, le) by {
        forall i, j | 0 <= i < j < |t| ensures le(t[i], t[j]) {
          assert t[i] == s[i + 1] && t[j] == s[j + 1];
        }
      }
      FilterSorted(t, p, le);
      if p(s[0]) {
        var f := Filter(t, p);
        var out := [s[0]] + f;
        assert Filter(s, p) == out;
        forall i, j | 0 <= i < j < |out| ensures le(out[i], out[j]) {
          if i == 0 {
            assert out[j] == f[j - 1] && f[j - 1] in t;
            var k :| 0 <= k < |t| && t[k] == out[j];
            assert s[k + 1] == out[j];
          } else {
            assert out[i] == f[i - 1] && out[j] == f[j - 1];
          }
        }
      }
    }
  }

  /** Mapping rows to values ordered the same way keeps a sorted result sorted. */
  lemma MapSeqSorted<T, U>(s: seq<T>, f: T -> U, le: (T, T) -> bool, le': (U, U) -> bool)
    requires Sorted(s, le)
    requires forall a, b :: le(a, b) ==> le'(f(a), f(b))
    ensures Sorted(MapSeq(s, f), le')
  {
    var r := MapSeq(s, f);
    forall i, j | 0 <= i < j < |r| ensures le'(r[i], r[j]) {
      assert le(s[i], s[j]);
    }
  }

  /** A page of a sorted result is sorted, and holds only rows of that result. */
  lemma WindowSorted<T>(s: seq<T>, skip: nat, limit: nat, le: (T, T) -> bool)
    requires Sorted(s, le)
    ensures Sorted(Window(s, skip, limit), le)
    ensures forall x :: x in Window(s, skip, limit) ==> x in s
  {
    var r := Window(s, skip, limit);
    forall i, j | 0 <= i < j < |r| ensures le(r[i], r[j]) {
      assert r[i] == s[skip + i] && r[j] == s[skip + j];
    }
    forall x | x in r ensures x in s {
      var k :| 0 <= k < |r| && r[k] == x;
      assert s[skip + k] == x;
    }
  }

  // ---------------------------------------------------------------- find + sort + skip + limit

  /** `find(p).sort(le).skip((page - 1) * size).limit(size)`: the store sorts before it skips,
      whatever order the calls are chained in. None when the store rejects the skip. */
  function Select<T(!new)>(s: seq<T>, p: T -> bool, le: (T, T) -> bool, page: Option<int>, size: nat): (r: Option<seq<T>>)
    ensures r.None? <==> Offset(page, size).None?
    ensures r.Some? && size > 0 ==> |r.value| <= size
    ensures r.Some? ==> forall x :: x in r.value ==> x in s && p(x)
  {
    var sorted := SortBy(Filter(s, p), le);
    var r := Page(sorted, page, size);
    if r.Some? then
      assert forall x :: x in r.value ==> x in s && p(x) by {
        forall x | x in r.value ensures x in s && p(x) {
          var k :| 0 <= k < |r.value| && r.value[k] == x;
          assert sorted[Offset(page, size).value + k] == x;
          assert x in multiset(sorted);
        }
      }
      r
    else r
  }

  /** A selected page is in sort order. */
  lemma SelectSorted<T(!new)>(s: seq<T>, p: T -> bool, le: (T, T) -> bool, page: Option<int>, size: nat)
    requires TotalPreorder(le)
    requires Select(s, p, le, page, size).Some?
    ensures Sorted(Select(s, p, le, page, size).value, le)
  {
    var sorted := SortBy(Filter(s, p), le);
    SortBySorted(Filter(s, p), le);
    WindowSorted(sorted, Offset(page, size).value, size, le);
  }

  /** A selected page holds the rows of the sorted selection from position (page - 1) * size on,
      and is a full page whenever enough rows follow that position. */
  lemma SelectWindow<T(!new)>(s: seq<T>, p: T -> bool, le: (T, T) -> bool, page: Option<int>, size: nat)
    requires Select(s, p, le, page, size).Some?
    ensures var r := Select(s, p, le, page, size).value;
            var sorted := SortBy(Filter(s, p), le);
            var skip := Offset(page, size).value;
      && (forall k :: 0 <= k < |r| ==> skip + k < |sorted| && r[k] == sorted[skip + k])
      && (size > 0 && skip + size <= |sorted| ==> |r| == size)
      && (skip < |sorted| && (size == 0 || |sorted| < skip + size) ==> |r| == |sorted| - skip)
  {
    var sorted := SortBy(Filter(s, p), le);
    assert Select(s, p, le, page, size) == Page(sorted, page, size);
    PageWindow(sorted, page, size);
  }
}
