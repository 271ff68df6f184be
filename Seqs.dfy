/**
 * Sequence operations that stand for the JavaScript array methods and the
 * query clauses (where, orderBy, take) the two services rely on.
 */
module Seqs {
  import opened Wrappers

  /**
   * The elements of `s` that satisfy `p`, in their original order (see
   * FilterAppend). Its length is the number of positions of `s` holding a
   * match, so with the sub-multiset clause every match is kept as often as
   * it occurs.
   */
  function Filter<T(!new)>(s: seq<T>, p: T -> bool): (r: seq<T>)
    ensures |r| <= |s|
    ensures forall x :: x in r <==> x in s && p(x)
    ensures multiset(r) <= multiset(s)
    ensures |r| == |Positions(s, p)|
  {
    if s == [] then []
    else
      var init, last := s[..|s| - 1], s[|s| - 1];
      assert s == init + [last];
      MatchesSnoc(init, last, p);
      Filter(init, p) + (if p(last) then [last] else [])
  }

  /** The positions of `s` holding an element that satisfies `p`. */
  ghost function Positions<T>(s: seq<T>, p: T -> bool): set<int> {
    set j | 0 <= j < |s| && p(s[j])
  }

  /** The matching positions of `init + [last]` are those of `init`, plus the last one if it matches. */
  lemma MatchesSnoc<T>(init: seq<T>, last: T, p: T -> bool)
    ensures |Positions(init + [last], p)| == |Positions(init, p)| + (if p(last) then 1 else 0)
  {
    var s := init + [last];
    var before := Positions(init, p);
    var extra: set<int> := if p(last) then {|init|} else {};
    forall j ensures j in Positions(s, p) <==> j in before || j in extra {
      if 0 <= j < |init| {
        assert s[j] == init[j];
      }
    }
    assert Positions(s, p) == before + extra;
    assert |before + extra| == |before| + |extra|;
  }

  /** Every match is kept exactly as often as it occurs, and nothing else is kept. */
  lemma {:induction false} FilterMultiplicity<T(!new)>(s: seq<T>, p: T -> bool)
    ensures forall x :: multiset(Filter(s, p))[x] == if p(x) then multiset(s)[x] else 0
  {
    if s != [] {
      var init, last := s[..|s| - 1], s[|s| - 1];
      assert s == init + [last];
      FilterMultiplicity(init, p);
      assert Filter(s, p) == Filter(init, p) + (if p(last) then [last] else []);
    }
  }

  /**
   * Filtering distributes over concatenation; with `Filter([x], p)` being
   * `[x]` or `[]`, this is what keeps the matches in their original order.
   */
  lemma {:induction false} FilterAppend<T(!new)>(s: seq<T>, t: seq<T>, p: T -> bool)
    ensures Filter(s + t, p) == Filter(s, p) + Filter(t, p)
  {
    if t == [] {
      assert s + t == s;
    } else {
      var init, last := t[..|t| - 1], t[|t| - 1];
      var tail := if p(last) then [last] else [];
      FilterAppend(s, init, p);
      assert (s + t)[..|s + t| - 1] == s + init;
      assert Filter(s + t, p) == Filter(s + init, p) + tail;
      assert Filter(t, p) == Filter(init, p) + tail;
      assert Filter(s, p) + (Filter(init, p) + tail) == (Filter(s, p) + Filter(init, p)) + tail;
    }
  }

  /**
   * Filtering by a predicate and by its negation splits a sequence:
   * the two counts add up to its length.
   */
  lemma {:induction false} FilterSplit<T(!new)>(s: seq<T>, p: T -> bool, q: T -> bool)
    requires forall x :: q(x) == !p(x)
    ensures |Filter(s, p)| + |Filter(s, q)| == |s|
  {
    if s != [] {
      FilterSplit(s[..|s| - 1], p, q);
    }
  }

  /** Filtering twice is filtering once by both predicates. */
  lemma {:induction false} FilterFilter<T(!new)>(s: seq<T>, p: T -> bool, q: T -> bool, both: T -> bool)
    requires forall x :: both(x) == (p(x) && q(x))
    ensures Filter(Filter(s, p), q) == Filter(s, both)
  {
    if s != [] {
      var init, last := s[..|s| - 1], s[|s| - 1];
      var rest := Filter(init, p);
      FilterFilter(init, p, q, both);
      if p(last) {
        var fp := rest + [last];
        assert Filter(s, p) == fp;
        assert fp[..|fp| - 1] == rest && fp[|fp| - 1] == last;
        assert Filter(fp, q) == Filter(rest, q) + (if q(last) then [last] else []);
      } else {
        assert Filter(s, p) == rest;
      }
    }
  }

  /** The index of the first element satisfying `p` (findFirst in storage order). */
  function FirstIndex<T>(s: seq<T>, p: T -> bool): (r: Option<nat>)
    ensures r.Some? ==> r.value < |s| && p(s[r.value])
    ensures r.Some? ==> forall j :: 0 <= j < r.value ==> !p(s[j])
    ensures r.None? ==> forall j :: 0 <= j < |s| ==> !p(s[j])
  {
    if s == [] then None
    else if p(s[0]) then Some(0)
    else match FirstIndex(s[1..], p)
      case None => None
      case Some(i) => Some(i + 1)
  }

  /** `s` is ordered by `key`, largest first. */
  ghost predicate SortedDesc<T>(s: seq<T>, key: T -> int) {
    forall i, j :: 0 <= i < j < |s| ==> key(s[i]) >= key(s[j])
  }

  /** Inserts `x` into a sequence ordered by `key`, before the elements whose key equals its own. */
  function Insert<T(!new)>(x: T, s: seq<T>, key: T -> int): (r: seq<T>)
    requires SortedDesc(s, key)
    ensures SortedDesc(r, key)
    ensures forall y :: y in r ==> y == x || y in s
    ensures multiset(r) == multiset(s) + multiset{x}
    ensures |r| == |s| + 1
    decreases |s|, 1
  {
    if s == [] || key(x) >= key(s[0]) then [x] + s
    else
      var tail := Insert(x, s[1..], key);
      InsertBelowHead(x, s, key);
      assert s == [s[0]] + s[1..];
      [s[0]] + tail
  }

  /** Inserting `x` after the head of `s` leaves the head at least as large as everything behind it. */
  lemma InsertBelowHead<T(!new)>(x: T, s: seq<T>, key: T -> int)
    requires SortedDesc(s, key)
    requires s != [] && key(x) < key(s[0])
    ensures forall k :: 0 <= k < |Insert(x, s[1..], key)| ==> key(s[0]) >= key(Insert(x, s[1..], key)[k])
    decreases |s|, 0
  {
    var tail := Insert(x, s[1..], key);
    forall k | 0 <= k < |tail| ensures key(s[0]) >= key(tail[k]) {
      assert tail[k] in tail;
      if tail[k] != x {
        var m :| 0 <= m < |s[1..]| && s[1..][m] == tail[k];
        assert s[m + 1] == tail[k];
      }
    }
  }

  /**
   * A stable sort by `key`, largest first (Array.prototype.sort with the
   * comparator `(a, b) => key(b) - key(a)`, or an `orderBy ... desc`).
   */
  function SortDesc<T(!new)>(s: seq<T>, key: T -> int): (r: seq<T>)
    ensures SortedDesc(r, key)
    ensures multiset(r) == multiset(s)
    ensures |r| == |s|
  {
    if s == [] then []
    else
      assert s == [s[0]] + s[1..];
      Insert(s[0], SortDesc(s[1..], key), key)
  }

  function Min(a: int, b: int): int { if a <= b then a else b }

  function Max(a: int, b: int): int { if a >= b then a else b }

  /**
   * `s.slice(0, end)` in JavaScript: a negative `end` counts back from the
   * end of the sequence.
   */
  function SliceTo<T>(s: seq<T>, end: int): (r: seq<T>)
    ensures |r| == if end >= 0 then Min(end, |s|) else Max(|s| + end, 0)
    ensures r == s[..|r|]
  {
    if end >= 0 then s[..Min(end, |s|)] else s[..Max(|s| + end, 0)]
  }

  /** A prefix of a sequence ordered by `key` keeps the order and holds only elements of it. */
  lemma PrefixOfSorted<T>(s: seq<T>, key: T -> int, n: nat)
    requires n <= |s|
    requires SortedDesc(s, key)
    ensures SortedDesc(s[..n], key)
    ensures multiset(s[..n]) <= multiset(s)
  {
    assert s == s[..n] + s[n..];
  }

  /**
   * In a sequence ordered by `key`, whatever the first `n` elements leave
   * behind has a key no larger than any of them.
   */
  lemma SortedPrefixDominates<T>(s: seq<T>, key: T -> int, n: nat)
    requires n <= |s|
    requires SortedDesc(s, key)
    ensures forall x, y :: x in multiset(s) - multiset(s[..n]) && y in s[..n] ==> key(y) >= key(x)
  {
    assert s == s[..n] + s[n..];
    assert multiset(s) - multiset(s[..n]) == multiset(s[n..]);
    forall x, y | x in multiset(s) - multiset(s[..n]) && y in s[..n] ensures key(y) >= key(x) {
      assert x in s[n..];
      var a :| 0 <= a < n && s[a] == y;
      var b :| 0 <= b < |s| - n && s[n..][b] == x;
      assert s[n + b] == x;
    }
  }
}
