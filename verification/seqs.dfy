/** The array operations the client and the store rely on, as pure
    functions on sequences: `filter`, a stable comparator `sort`,
    `slice`, `reduce` to a sum, and SQL `LIMIT`. */
module Seqs {

  function Filter<T>(s: seq<T>, p: T -> bool): (r: seq<T>)
    ensures |r| <= |s|
    ensures forall i :: 0 <= i < |r| ==> p(r[i])
    ensures multiset(r) <= multiset(s)
  {
    if |s| == 0 then []
    else
      assert s == [s[0]] + s[1..];
      Keep(s[0], p) + Filter(s[1..], p)
  }

  /** Nothing that satisfies `p` is dropped. */
  lemma {:induction false} FilterKeeps<T>(s: seq<T>, p: T -> bool, x: T)
    requires x in s && p(x)
    ensures x in Filter(s, p)
  {
    if s[0] != x {
      FilterKeeps(s[1..], p, x);
    }
  }

  /** Filters that agree on the elements keep the same elements. */
  lemma {:induction false} FilterExt<T>(s: seq<T>, p: T -> bool, q: T -> bool)
    requires forall i :: 0 <= i < |s| ==> p(s[i]) == q(s[i])
    ensures Filter(s, p) == Filter(s, q)
  {
    if |s| > 0 {
      assert forall i :: 0 <= i < |s[1..]| ==> s[1..][i] == s[i + 1];
      FilterExt(s[1..], p, q);
    }
  }

  /** `[x]` if `x` passes the filter, else nothing. */
  function Keep<T>(x: T, p: T -> bool): seq<T>
  {
    if p(x) then [x] else []
  }

  function Not<T>(p: T -> bool): T -> bool
  {
    x => !p(x)
  }

  function Both<T>(p: T -> bool, q: T -> bool): T -> bool
  {
    x => p(x) && q(x)
  }

  /** Number of elements satisfying `p`: `s.filter(p).length`. */
  function Count<T>(s: seq<T>, p: T -> bool): nat
  {
    |Filter(s, p)|
  }

  lemma {:induction false} FilterAppend<T>(a: seq<T>, b: seq<T>, p: T -> bool)
    ensures Filter(a + b, p) == Filter(a, p) + Filter(b, p)
  {
    if |a| == 0 {
      assert a + b == b;
    } else {
      assert (a + b)[1..] == a[1..] + b;
      FilterAppend(a[1..], b, p);
    }
  }

  /** Filtering twice is filtering once by both conditions. */
  lemma {:induction false} FilterFilter<T>(s: seq<T>, p: T -> bool, q: T -> bool)
    ensures Filter(Filter(s, p), q) == Filter(s, Both(p, q))
  {
    if |s| > 0 {
      FilterFilter(s[1..], p, q);
      FilterAppend(Keep(s[0], p), Filter(s[1..], p), q);
    }
  }

  /** A filter whose condition holds everywhere keeps the whole sequence. */
  lemma {:induction false} FilterAll<T>(s: seq<T>, p: T -> bool)
    requires forall x :: x in s ==> p(x)
    ensures Filter(s, p) == s
  {
    if |s| > 0 {
      FilterAll(s[1..], p);
    }
  }

  /** Every element satisfies `p` or its negation, never both. */
  lemma {:induction false} CountSplit<T>(s: seq<T>, p: T -> bool)
    ensures Count(s, p) + Count(s, Not(p)) == |s|
  {
    if |s| > 0 {
      CountSplit(s[1..], p);
    }
  }

  /** A stronger condition selects no more elements. */
  lemma {:induction false} CountMonotone<T>(s: seq<T>, p: T -> bool, q: T -> bool)
    requires forall x :: q(x) ==> p(x)
    ensures Count(s, q) <= Count(s, p)
  {
    if |s| > 0 {
      CountMonotone(s[1..], p, q);
    }
  }

  /** `if (cond) s = s.filter(p)`. */
  function FilterIf<T>(cond: bool, s: seq<T>, p: T -> bool): (r: seq<T>)
    ensures !cond ==> r == s
  {
    if cond then Filter(s, p) else s
  }

  /** The condition a skipped filter amounts to: `p` when `cond` holds,
      anything otherwise. */
  function OnlyIf<T>(cond: bool, p: T -> bool): T -> bool
  {
    x => !cond || p(x)
  }

  lemma FilterIfIsFilter<T>(cond: bool, s: seq<T>, p: T -> bool)
    ensures FilterIf(cond, s, p) == Filter(s, OnlyIf(cond, p))
  {
    if cond {
      FilterExt(s, p, OnlyIf(cond, p));
    } else {
      FilterAll(s, OnlyIf(cond, p));
    }
  }

  /** Two conditions that never hold together, each stronger than `r`,
      select no more than `r` does between them. */
  lemma {:induction false} CountDisjoint<T>(s: seq<T>, p: T -> bool, q: T -> bool, r: T -> bool)
    requires forall x :: !(p(x) && q(x))
    requires forall x :: p(x) || q(x) ==> r(x)
    ensures Count(s, p) + Count(s, q) <= Count(s, r)
  {
    if |s| > 0 {
      CountDisjoint(s[1..], p, q, r);
    }
  }

  /** An element is kept exactly when it is there and passes the filter. */
  lemma InFilter<T>(s: seq<T>, p: T -> bool, x: T)
    ensures x in Filter(s, p) <==> x in s && p(x)
  {
    if x in s && p(x) {
      FilterKeeps(s, p, x);
    }
    if x in Filter(s, p) {
      assert x in multiset(Filter(s, p));
    }
  }

  /** `s.reduce((sum, x) => sum + f(x), 0)`. */
  function Sum<T>(s: seq<T>, f: T -> real): real
  {
    if |s| == 0 then 0.0 else f(s[0]) + Sum(s[1..], f)
  }

  /** `c` added up `n` times. */
  function Copies(n: nat, c: real): real
  {
    if n == 0 then 0.0 else c + Copies(n - 1, c)
  }

  lemma {:induction false} CopiesIsProduct(n: nat, c: real)
    ensures Copies(n, c) == n as real * c
  {
    if n > 0 {
      CopiesIsProduct(n - 1, c);
    }
  }

  /** A sum of equal terms is that term taken once per element. */
  lemma {:induction false} SumConstant<T>(s: seq<T>, f: T -> real, c: real)
    requires forall x :: x in s ==> f(x) == c
    ensures Sum(s, f) == Copies(|s|, c)
  {
    if |s| > 0 {
      SumConstant(s[1..], f, c);
    }
  }

  /** Summing a term that is the same on every selected element. */
  lemma {:induction false} SumFilterConstant<T>(s: seq<T>, p: T -> bool, f: T -> real, c: real)
    requires forall x :: x in s && p(x) ==> f(x) == c
    ensures Sum(Filter(s, p), f) == Copies(Count(s, p), c)
  {
    var selected := Filter(s, p);
    assert forall x :: x in selected ==> f(x) == c by {
      forall x | x in selected ensures f(x) == c {
        InFilter(s, p, x);
      }
    }
    SumConstant(selected, f, c);
  }

  lemma {:induction false} SumNonNegative<T>(s: seq<T>, f: T -> real)
    requires forall x :: x in s ==> f(x) >= 0.0
    ensures Sum(s, f) >= 0.0
  {
    if |s| > 0 {
      SumNonNegative(s[1..], f);
    }
  }

  /** A sum splits into the part over elements satisfying `p` and the rest. */
  lemma {:induction false} SumSplit<T>(s: seq<T>, f: T -> real, p: T -> bool)
    ensures Sum(s, f) == Sum(Filter(s, p), f) + Sum(Filter(s, Not(p)), f)
  {
    if |s| > 0 {
      SumSplit(s[1..], f, p);
      if p(s[0]) {
        assert Filter(s, p) == [s[0]] + Filter(s[1..], p);
        assert ([s[0]] + Filter(s[1..], p))[1..] == Filter(s[1..], p);
        assert Filter(s, Not(p)) == Filter(s[1..], Not(p));
      } else {
        assert Filter(s, Not(p)) == [s[0]] + Filter(s[1..], Not(p));
        assert ([s[0]] + Filter(s[1..], Not(p)))[1..] == Filter(s[1..], Not(p));
        assert Filter(s, p) == Filter(s[1..], p);
      }
    }
  }

  // ---------------------------------------------------------------------
  // Stable sorting. A JavaScript comparator `cmp` is modelled by the
  // relation `le(a, b) == (cmp(a, b) <= 0)`; `Array.prototype.sort` is
  // stable, so the result is the stable sort of the input under `le`.

  ghost predicate TotalPreorder<T(!new)>(le: (T, T) -> bool)
  {
    && (forall a, b :: le(a, b) || le(b, a))
    && (forall a, b, c :: le(a, b) && le(b, c) ==> le(a, c))
  }

  predicate Sorted<T>(s: seq<T>, le: (T, T) -> bool)
  {
    forall i, j :: 0 <= i < j < |s| ==> le(s[i], s[j])
  }

  /** A property every element of a sequence has survives a rearrangement. */
  lemma PermutationKeeps<T>(a: seq<T>, b: seq<T>, p: T -> bool)
    requires multiset(a) == multiset(b)
    requires forall i :: 0 <= i < |a| ==> p(a[i])
    ensures forall i :: 0 <= i < |b| ==> p(b[i])
  {
    forall i | 0 <= i < |b| ensures p(b[i]) {
      assert b[i] in multiset(a);
      var j :| 0 <= j < |a| && a[j] == b[i];
    }
  }

  /** A prefix of a sorted sequence is sorted and holds a part of it. */
  lemma PrefixOfSorted<T>(s: seq<T>, r: seq<T>, le: (T, T) -> bool)
    requires Sorted(s, le) && r <= s
    ensures Sorted(r, le)
    ensures multiset(r) <= multiset(s)
  {
    assert s == r + s[|r|..];
  }

  function Insert<T>(x: T, s: seq<T>, le: (T, T) -> bool): (r: seq<T>)
    ensures |r| == |s| + 1
    ensures multiset(r) == multiset(s) + multiset{x}
  {
    if |s| == 0 then [x]
    else if le(x, s[0]) then [x] + s
    else
      assert s == [s[0]] + s[1..];
      [s[0]] + Insert(x, s[1..], le)
  }

  function SortBy<T>(s: seq<T>, le: (T, T) -> bool): (r: seq<T>)
    ensures |r| == |s|
    ensures multiset(r) == multiset(s)
  {
    if |s| == 0 then []
    else
      assert s == [s[0]] + s[1..];
      Insert(s[0], SortBy(s[1..], le), le)
  }

  lemma {:induction false} InsertSorted<T(!new)>(x: T, s: seq<T>, le: (T, T) -> bool)
    requires TotalPreorder(le)
    requires Sorted(s, le)
    ensures Sorted(Insert(x, s, le), le)
  {
    if |s| > 0 && !le(x, s[0]) {
      var tail := Insert(x, s[1..], le);
      InsertSorted(x, s[1..], le);
      assert le(s[0], x);
      forall e | e in tail ensures le(s[0], e) {
        assert e in multiset(tail);
        assert e == x || e in multiset(s[1..]);
      }
      var r := [s[0]] + tail;
      forall i, j | 0 <= i < j < |r| ensures le(r[i], r[j]) {
        if i > 0 {
          assert r[i] == tail[i - 1] && r[j] == tail[j - 1];
        } else {
          assert r[j] in tail;
        }
      }
    }
  }

  lemma {:induction false} SortBySorted<T(!new)>(s: seq<T>, le: (T, T) -> bool)
    requires TotalPreorder(le)
    ensures Sorted(SortBy(s, le), le)
  {
    if |s| > 0 {
      SortBySorted(s[1..], le);
      InsertSorted(s[0], SortBy(s[1..], le), le);
    }
  }

  /** The elements the comparator cannot tell apart from `y`. */
  function EquivTo<T>(le: (T, T) -> bool, y: T): T -> bool
  {
    x => le(x, y) && le(y, x)
  }

  lemma TiesAreOrdered<T(!new)>(le: (T, T) -> bool, y: T, a: T, b: T)
    requires TotalPreorder(le)
    ensures EquivTo(le, y)(a) && EquivTo(le, y)(b) ==> le(a, b)
  {
  }

  /** Where `x` is inserted only elements strictly before it are skipped,
      and none of those is tied with `x`. */
  lemma {:induction false} InsertKeepsTies<T(!new)>(x: T, s: seq<T>, le: (T, T) -> bool, y: T)
    requires TotalPreorder(le)
    ensures Filter(Insert(x, s, le), EquivTo(le, y))
         == Keep(x, EquivTo(le, y)) + Filter(s, EquivTo(le, y))
  {
    var p := EquivTo(le, y);
    if |s| > 0 && !le(x, s[0]) {
      var rest := Insert(x, s[1..], le);
      InsertKeepsTies(x, s[1..], le, y);
      TiesAreOrdered(le, y, x, s[0]);
      assert Insert(x, s, le) == [s[0]] + rest;
      FilterCons(s, p);
      PassOver(s[0], x, rest, Filter(s[1..], p), p);
    } else if |s| > 0 {
      assert Insert(x, s, le) == [x] + s;
      FilterAppend([x], s, p);
    }
  }

  lemma FilterCons<T>(s: seq<T>, p: T -> bool)
    requires |s| > 0
    ensures Filter(s, p) == Keep(s[0], p) + Filter(s[1..], p)
  {
  }

  lemma PassOver<T>(e: T, x: T, rest: seq<T>, tail: seq<T>, p: T -> bool)
    requires !(p(x) && p(e))
    requires Filter(rest, p) == Keep(x, p) + tail
    ensures Filter([e] + rest, p) == Keep(x, p) + (Keep(e, p) + tail)
  {
    FilterCons([e] + rest, p);
    assert ([e] + rest)[1..] == rest;
    var a := Keep(e, p);
    var b := Keep(x, p);
    assert Filter([e] + rest, p) == a + (b + tail);
    SwapEmpty(a, b, tail);
  }

  lemma SwapEmpty<T>(a: seq<T>, b: seq<T>, tail: seq<T>)
    requires a == [] || b == []
    ensures a + (b + tail) == b + (a + tail)
  {
    if a == [] {
      assert a + (b + tail) == b + tail;
      assert a + tail == tail;
    } else {
      assert b + (a + tail) == a + tail;
      assert b + tail == tail;
    }
  }

  /** Stability: the elements tied with any `y` keep their input order. */
  lemma {:induction false} SortByStable<T(!new)>(s: seq<T>, le: (T, T) -> bool, y: T)
    requires TotalPreorder(le)
    ensures Filter(SortBy(s, le), EquivTo(le, y)) == Filter(s, EquivTo(le, y))
  {
    if |s| > 0 {
      SortByStable(s[1..], le, y);
      InsertKeepsTies(s[0], SortBy(s[1..], le), le, y);
    }
  }

  /** Sorting what is already sorted changes nothing. */
  lemma {:induction false} SortBySortedIsIdentity<T>(s: seq<T>, le: (T, T) -> bool)
    requires Sorted(s, le)
    ensures SortBy(s, le) == s
  {
    if |s| > 0 {
      assert Sorted(s[1..], le);
      SortBySortedIsIdentity(s[1..], le);
      assert s == [s[0]] + s[1..];
    }
  }

  /** A comparator that ties everything (`return 0`) leaves the order alone. */
  lemma {:induction false} SortByAllTied<T>(s: seq<T>, le: (T, T) -> bool)
    requires forall a, b :: le(a, b)
    ensures SortBy(s, le) == s
  {
    if |s| > 0 {
      SortByAllTied(s[1..], le);
    }
  }

  /** The first element of a sorted sequence comes no later than any other. */
  lemma SortedHeadFirst<T(!new)>(s: seq<T>, le: (T, T) -> bool)
    requires TotalPreorder(le)
    requires Sorted(s, le) && |s| > 0
    ensures forall x :: x in s ==> le(s[0], x)
  {
    forall x | x in s ensures le(s[0], x) {
      var j :| 0 <= j < |s| && s[j] == x;
      if j == 0 {
        assert le(x, x) by { assert le(x, x) || le(x, x); }
      }
    }
  }

  /** The first element of a sorted copy is one of the originals and comes
      no later than any of them. */
  lemma SortByLeastFirst<T(!new)>(s: seq<T>, le: (T, T) -> bool)
    requires TotalPreorder(le) && |s| > 0
    ensures SortBy(s, le)[0] in s
    ensures forall x :: x in s ==> le(SortBy(s, le)[0], x)
  {
    var sorted := SortBy(s, le);
    SortBySorted(s, le);
    SortedHeadFirst(sorted, le);
    assert forall x :: x in s ==> x in multiset(sorted);
    assert sorted[0] in multiset(s);
  }

  /** The comparator `keyOf(a) - keyOf(b)`: ascending by a numeric key. */
  function Ascending<T>(keyOf: T -> real): (T, T) -> bool
  {
    (a, b) => keyOf(a) <= keyOf(b)
  }

  /** The comparator `keyOf(b) - keyOf(a)`: descending by a numeric key. */
  function Descending<T>(keyOf: T -> real): (T, T) -> bool
  {
    (a, b) => keyOf(b) <= keyOf(a)
  }

  lemma AscendingIsPreorder<T(!new)>(keyOf: T -> real)
    ensures TotalPreorder(Ascending(keyOf))
  {
  }

  lemma DescendingIsPreorder<T(!new)>(keyOf: T -> real)
    ensures TotalPreorder(Descending(keyOf))
  {
  }

  // ---------------------------------------------------------------------

  /** SQL `LIMIT n`: the first `n` rows, or all of them if there are fewer. */
  function Take<T>(s: seq<T>, n: nat): (r: seq<T>)
    ensures |r| == if n < |s| then n else |s|
    ensures r <= s
  {
    if n < |s| then s[..n] else s
  }

  /** The index `Array.prototype.slice` uses for a bound `k`: negative
      bounds count from the end, and every bound is clamped to the length. */
  function SliceIndex(k: int, len: nat): (i: nat)
    ensures i <= len
  {
    if k < 0 then (if len + k < 0 then 0 else len + k)
    else if k > len then len else k
  }

  /** JavaScript `s.slice(start, end)`. */
  function Slice<T>(s: seq<T>, start: int, end: int): (r: seq<T>)
    ensures 0 <= start <= end <= |s| ==> r == s[start..end]
    ensures 0 <= start <= |s| <= end ==> r == s[start..]
    ensures 0 <= start && |s| <= start ==> r == []
    ensures |r| <= |s|
  {
    var from := SliceIndex(start, |s|);
    var to := SliceIndex(end, |s|);
    if from < to then s[from..to] else []
  }

  /** `min(n, len)`: where a bound falls in a sequence of length `len`. */
  function Clamp(n: nat, len: nat): (r: nat)
    ensures r <= len && r <= n && (r == n || r == len)
  {
    if n < len then n else len
  }

  /** With non-negative bounds, `slice` is the ordinary subsequence between
      the bounds clamped to the length. */
  lemma SliceClamped<T>(s: seq<T>, a: nat, b: nat)
    requires a <= b
    ensures Slice(s, a, b) == s[Clamp(a, |s|)..Clamp(b, |s|)]
  {
  }

  lemma JoinSlices<T>(s: seq<T>, a: nat, b: nat)
    requires a <= b <= |s|
    ensures s[..a] + s[a..b] == s[..b]
  {
  }
}
