/** Sequence helpers shared by the model: the linear scans, filters and removals
    that the Java code writes as for-loops with an early return, as
    `stream().filter(..).toList()` or as `List.remove(Object)`. */
module Seqs {
  import opened Options

  /** Index of the first element satisfying `p`, as an early-return loop or a
      stream's `findFirst` finds it. */
  function FirstIndex<T>(s: seq<T>, p: T -> bool): (r: Option<nat>)
    ensures r.Some? ==> r.value < |s| && p(s[r.value])
    ensures r.Some? ==> forall j :: 0 <= j < r.value ==> !p(s[j])
    ensures r.None? <==> forall j :: 0 <= j < |s| ==> !p(s[j])
  {
    if |s| == 0 then None
    else if p(s[0]) then Some(0)
    else
      match FirstIndex(s[1..], p)
      case None => None
      case Some(i) => Some(i + 1)
  }

  /** The first element satisfying `p`, if any. */
  function FirstWhere<T>(s: seq<T>, p: T -> bool): (r: Option<T>)
    ensures r.Some? ==> r.value in s && p(r.value)
    ensures r.None? <==> forall j :: 0 <= j < |s| ==> !p(s[j])
  {
    match FirstIndex(s, p)
    case None => None
    case Some(i) => Some(s[i])
  }

  /** Scanning a concatenation finds the first match of the left part, or else
      the first match of the right part shifted past the left part. */
  lemma {:induction false} FirstIndexAppend<T>(a: seq<T>, b: seq<T>, p: T -> bool)
    ensures FirstIndex(a + b, p) ==
              match FirstIndex(a, p)
              case Some(i) => Some(i)
              case None =>
                match FirstIndex(b, p)
                case Some(j) => Some(|a| + j)
                case None => None
  {
    if |a| == 0 {
      assert a + b == b;
    } else {
      assert (a + b)[0] == a[0];
      assert (a + b)[1..] == a[1..] + b;
      if !p(a[0]) {
        FirstIndexAppend(a[1..], b, p);
      }
    }
  }

  /** The first match in a concatenation is the left part's, or else the right part's. */
  lemma FirstWhereAppend<T>(a: seq<T>, b: seq<T>, p: T -> bool)
    ensures FirstWhere(a + b, p) == if FirstWhere(a, p).Some? then FirstWhere(a, p) else FirstWhere(b, p)
  {
    FirstIndexAppend(a, b, p);
    match FirstIndex(a, p)
    case Some(i) =>
      assert (a + b)[i] == a[i];
    case None =>
      match FirstIndex(b, p)
      case Some(j) =>
        assert (a + b)[|a| + j] == b[j];
      case None =>
  }

  /** An element that does not match can be inserted anywhere without changing
      the first match. */
  lemma FirstWhereSkip<T>(a: seq<T>, x: T, b: seq<T>, p: T -> bool)
    requires !p(x)
    ensures FirstWhere(a + [x] + b, p) == FirstWhere(a + b, p)
  {
    assert a + [x] + b == a + ([x] + b);
    FirstWhereAppend(a, [x] + b, p);
    FirstWhereAppend([x], b, p);
    FirstWhereAppend(a, b, p);
  }

  /** The elements satisfying `p`, in their original order: a stream
      `filter(..).toList()`. */
  function Filter<T>(s: seq<T>, p: T -> bool): (r: seq<T>)
    ensures |r| <= |s|
    ensures forall i :: 0 <= i < |r| ==> r[i] in s && p(r[i])
    ensures forall j :: 0 <= j < |s| && p(s[j]) ==> s[j] in r
  {
    if |s| == 0 then []
    else (if p(s[0]) then [s[0]] else []) + Filter(s[1..], p)
  }

  /** The filter keeps each satisfying element as many times as `s` holds it,
      and drops every other element entirely. */
  lemma {:induction false} FilterMultiplicity<T>(s: seq<T>, p: T -> bool, x: T)
    ensures multiset(Filter(s, p))[x] == if p(x) then multiset(s)[x] else 0
  {
    if |s| > 0 {
      assert s == [s[0]] + s[1..];
      FilterMultiplicity(s[1..], p, x);
    }
  }

  /** Filtering a concatenation filters each part and keeps them in order. */
  lemma {:induction false} FilterAppend<T>(a: seq<T>, b: seq<T>, p: T -> bool)
    ensures Filter(a + b, p) == Filter(a, p) + Filter(b, p)
  {
    if |a| > 0 {
      assert (a + b)[0] == a[0] && (a + b)[1..] == a[1..] + b;
      FilterAppend(a[1..], b, p);
    } else {
      assert a + b == b;
    }
  }

  /** An element occurs in a sequence at most as many times as it is long. */
  lemma {:induction false} MultiplicityBound<T>(s: seq<T>, x: T)
    ensures multiset(s)[x] <= |s|
  {
    if |s| > 0 {
      assert s == [s[0]] + s[1..];
      MultiplicityBound(s[1..], x);
    }
  }

  /** No element occurs twice. */
  predicate NoDup<T(==)>(s: seq<T>) {
    forall i, j :: 0 <= i < j < |s| ==> s[i] != s[j]
  }

  /** `java.util.List.remove(Object)`: drops the first occurrence of `x`, if any. */
  function RemoveFirst<T(==)>(s: seq<T>, x: T): (r: seq<T>)
    ensures x !in s ==> r == s
    ensures x in s ==> |r| == |s| - 1
    ensures multiset(r) == multiset(s) - multiset{x}
    ensures forall k :: 0 <= k < |s| && s[k] == x && x !in s[..k] ==> r == s[..k] + s[k + 1..]
  {
    match FirstIndex(s, y => y == x)
    case None => s
    case Some(k) =>
      assert s == s[..k] + [s[k]] + s[k + 1..];
      assert forall j :: 0 <= j < k ==> s[j] != x;
      assert forall k' :: 0 <= k' < |s| && s[k'] == x && x !in s[..k'] ==> k' == k;
      s[..k] + s[k + 1..]
  }

  /** Dropping position `k` of a duplicate-free sequence leaves it duplicate-free
      and without the dropped element. */
  lemma NoDupDropAt<T>(s: seq<T>, k: nat)
    requires NoDup(s) && k < |s|
    ensures s[k] !in s[..k] + s[k + 1..]
    ensures NoDup(s[..k] + s[k + 1..])
  {
    var r := s[..k] + s[k + 1..];
    assert forall i :: 0 <= i < |r| ==> r[i] == (if i < k then s[i] else s[i + 1]);
  }

  /** Removing the first occurrence from a duplicate-free sequence removes every
      occurrence and keeps the sequence duplicate-free. */
  lemma RemoveFirstNoDup<T>(s: seq<T>, x: T)
    requires NoDup(s)
    ensures x !in RemoveFirst(s, x)
    ensures NoDup(RemoveFirst(s, x))
  {
    if x in s {
      var k :| 0 <= k < |s| && s[k] == x;
      assert x !in s[..k];
      NoDupDropAt(s, k);
    }
  }
}
