/** The string operations of java.lang.String that the core relies on, over
    `seq<char>`: ASCII case folding (`toUpperCase`, `toLowerCase`,
    `equalsIgnoreCase`), `trim`, `contains`, `split(" ", limit)`, joining with
    single spaces, `compareTo` order, `String.valueOf(int)` and
    `Integer.parseInt`. */
module Text {
  import opened Options
  import Seqs

  const IntMin: int := -0x8000_0000
  const IntMax: int := 0x7fff_ffff

  // ---------------------------------------------------------------- case folding

  function UpperChar(c: char): char {
    if 'a' <= c <= 'z' then (c as int - 32) as char else c
  }

  function LowerChar(c: char): char {
    if 'A' <= c <= 'Z' then (c as int + 32) as char else c
  }

  function Upper(s: string): string {
    seq(|s|, i requires 0 <= i < |s| => UpperChar(s[i]))
  }

  function Lower(s: string): string {
    seq(|s|, i requires 0 <= i < |s| => LowerChar(s[i]))
  }

  /** `a.equalsIgnoreCase(b)` under ASCII folding. */
  predicate EqualsIgnoreCase(a: string, b: string) {
    Upper(a) == Upper(b)
  }

  /** Upper-casing the query first does not change what it equals ignoring case:
      comparing against `q.toUpperCase()` is comparing against `q`. */
  lemma EqualsIgnoreCaseUpper(a: string, q: string)
    ensures EqualsIgnoreCase(a, Upper(q)) <==> EqualsIgnoreCase(a, q)
  {
    assert Upper(Upper(q)) == Upper(q);
  }

  /** Strings equal ignoring case have equal lower-case forms. */
  lemma EqualsIgnoreCaseLower(a: string, b: string)
    requires EqualsIgnoreCase(a, b)
    ensures Lower(a) == Lower(b)
  {
    assert |a| == |Upper(a)| == |Upper(b)| == |b|;
    forall i | 0 <= i < |a|
      ensures Lower(a)[i] == Lower(b)[i]
    {
      assert UpperChar(a[i]) == Upper(a)[i] == Upper(b)[i] == UpperChar(b[i]);
    }
  }

  // ---------------------------------------------------------------- trim

  /** Java's whitespace for `trim`: every char up to and including U+0020. */
  predicate IsTrimmable(c: char) {
    c <= ' '
  }

  function TrimStart(s: string): (r: string)
    ensures |r| <= |s| && r == s[|s| - |r|..]
    ensures forall k :: 0 <= k < |s| - |r| ==> IsTrimmable(s[k])
    ensures |r| > 0 ==> !IsTrimmable(r[0])
  {
    if |s| > 0 && IsTrimmable(s[0]) then TrimStart(s[1..]) else s
  }

  function TrimEnd(s: string): (r: string)
    ensures |r| <= |s| && r == s[..|r|]
    ensures forall k :: |r| <= k < |s| ==> IsTrimmable(s[k])
    ensures |r| > 0 ==> !IsTrimmable(r[|r| - 1])
  {
    if |s| > 0 && IsTrimmable(s[|s| - 1]) then TrimEnd(s[..|s| - 1]) else s
  }

  /** `s.trim()`: the longest infix that neither starts nor ends with a char
      up to U+0020. */
  function Trim(s: string): (r: string)
    ensures |r| > 0 ==> !IsTrimmable(r[0]) && !IsTrimmable(r[|r| - 1])
  {
    TrimEnd(TrimStart(s))
  }

  /** What `trim` keeps is an infix of `s`, and everything it drops on either
      side is a char up to U+0020. */
  lemma TrimKeepsInfix(s: string)
    ensures var r := Trim(s);
            exists i :: 0 <= i <= |s| && r <= s[i..]
                        && (forall k :: 0 <= k < i ==> IsTrimmable(s[k]))
                        && (forall k :: i + |r| <= k < |s| ==> IsTrimmable(s[k]))
  {
    var t := TrimStart(s);
    var i := |s| - |t|;
    assert Trim(s) <= s[i..];
  }

  // ---------------------------------------------------------------- contains

  /** `s.contains(q)`: `q` occurs in `s` at some offset. */
  predicate Contains(s: string, q: string)
    decreases |s|
  {
    q <= s || (|s| > 0 && Contains(s[1..], q))
  }

  lemma {:induction false} ContainsIff(s: string, q: string)
    ensures Contains(s, q) <==> exists k :: 0 <= k <= |s| && q <= s[k..]
    decreases |s|
  {
    if |s| > 0 {
      ContainsIff(s[1..], q);
      if q <= s {
        assert s[0..] == s;
      }
      if exists k :: 0 <= k <= |s| && q <= s[k..] {
        var k :| 0 <= k <= |s| && q <= s[k..];
        if k > 0 {
          assert s[1..][k - 1..] == s[k..];
        } else {
          assert s[k..] == s;
        }
      }
      if Contains(s[1..], q) && !(q <= s) {
        var k :| 0 <= k <= |s[1..]| && q <= s[1..][k..];
        assert s[1..][k..] == s[k + 1..];
      }
    } else {
      if exists k :: 0 <= k <= |s| && q <= s[k..] {
        var k :| 0 <= k <= |s| && q <= s[k..];
        assert s[k..] == s;
      }
    }
  }

  // ---------------------------------------------------------------- split and join

  /** Joins `parts` with single spaces between neighbours and none at either end. */
  function Join(parts: seq<string>): string {
    if |parts| == 0 then ""
    else if |parts| == 1 then parts[0]
    else parts[0] + " " + Join(parts[1..])
  }

  lemma {:induction false} JoinSnoc(parts: seq<string>, last: string)
    requires |parts| >= 1
    ensures Join(parts + [last]) == Join(parts) + " " + last
    decreases |parts|
  {
    if |parts| == 1 {
      assert (parts + [last])[1..] == [last];
    } else {
      assert (parts + [last])[1..] == parts[1..] + [last];
      JoinSnoc(parts[1..], last);
    }
  }

  /** `s.indexOf(c)`, with `None` for -1. */
  function IndexOf(s: string, c: char): (r: Option<nat>)
    ensures r.Some? ==> r.value < |s| && s[r.value] == c && c !in s[..r.value]
    ensures r.None? ==> c !in s
  {
    if |s| == 0 then None
    else if s[0] == c then Some(0)
    else
      match IndexOf(s[1..], c)
      case None => None
      case Some(i) =>
        assert s[..i + 1] == [s[0]] + s[1..][..i];
        Some(i + 1)
  }

  /** `s.split(" ", limit)` for a positive limit: at most `limit` parts, cut at
      the first `limit - 1` spaces, with empty parts kept. */
  function Split(s: string, limit: nat): (r: seq<string>)
    requires limit >= 1
    ensures 1 <= |r| <= limit
    decreases limit
  {
    if limit == 1 then [s]
    else
      match IndexOf(s, ' ')
      case None => [s]
      case Some(i) =>
        [s[..i]] + Split(s[i + 1..], limit - 1)
  }

  /** Every part but the last is free of spaces, and so is the last when the
      limit was not reached. */
  lemma {:induction false} SplitPartsHaveNoSpace(s: string, limit: nat)
    requires limit >= 1
    ensures forall i :: 0 <= i < |Split(s, limit)| - 1 ==> ' ' !in Split(s, limit)[i]
    ensures |Split(s, limit)| < limit ==> ' ' !in Split(s, limit)[|Split(s, limit)| - 1]
    decreases limit
  {
    var k := IndexOf(s, ' ');
    if limit > 1 && k.Some? {
      var i := k.value;
      SplitStep(s, limit, i);
      SplitPartsHaveNoSpace(s[i + 1..], limit - 1);
      ConsNoSpace(s[..i], Split(s[i + 1..], limit - 1), limit);
    }
  }

  lemma ConsNoSpace(a: string, tail: seq<string>, limit: nat)
    requires ' ' !in a && 1 <= |tail|
    requires forall i :: 0 <= i < |tail| - 1 ==> ' ' !in tail[i]
    requires |tail| < limit - 1 ==> ' ' !in tail[|tail| - 1]
    ensures forall i :: 0 <= i < |[a] + tail| - 1 ==> ' ' !in ([a] + tail)[i]
    ensures |[a] + tail| < limit ==> ' ' !in ([a] + tail)[|[a] + tail| - 1]
  {
    assert forall i :: 1 <= i < |[a] + tail| ==> ([a] + tail)[i] == tail[i - 1];
  }

  /** Joining the parts of a split with single spaces gives the input back. */
  lemma {:induction false} JoinSplit(s: string, limit: nat)
    requires limit >= 1
    ensures Join(Split(s, limit)) == s
    decreases limit, 1
  {
    var k := IndexOf(s, ' ');
    if limit == 1 || k.None? {
      SplitWhole(s, limit);
    } else {
      JoinSplitAt(s, limit, k.value);
    }
  }

  lemma {:induction false} JoinSplitAt(s: string, limit: nat, i: nat)
    requires limit >= 2 && IndexOf(s, ' ') == Some(i)
    ensures Join(Split(s, limit)) == s
    decreases limit, 0
  {
    var tail := Split(s[i + 1..], limit - 1);
    SplitStep(s, limit, i);
    JoinSplit(s[i + 1..], limit - 1);
    JoinCons(s[..i], tail);
    CutAtSpace(s, i);
  }

  lemma SplitWhole(s: string, limit: nat)
    requires limit == 1 || (limit >= 1 && IndexOf(s, ' ').None?)
    ensures Join(Split(s, limit)) == s
  {
    assert Split(s, limit) == [s];
  }

  lemma CutAtSpace(s: string, i: nat)
    requires i < |s| && s[i] == ' '
    ensures s == s[..i] + " " + s[i + 1..]
  {
    assert s == s[..i] + [s[i]] + s[i + 1..];
  }

  lemma JoinCons(a: string, rest: seq<string>)
    requires |rest| >= 1
    ensures Join([a] + rest) == a + " " + Join(rest)
  {
    assert ([a] + rest)[1..] == rest;
  }

  /** Number of occurrences of `c` in `s`. */
  function Count(s: string, c: char): nat {
    if |s| == 0 then 0 else (if s[0] == c then 1 else 0) + Count(s[1..], c)
  }

  lemma {:induction false} CountAppend(a: string, b: string, c: char)
    ensures Count(a + b, c) == Count(a, c) + Count(b, c)
    decreases |a|
  {
    if |a| == 0 {
      assert a + b == b;
    } else {
      assert (a + b)[1..] == a[1..] + b;
      CountAppend(a[1..], b, c);
    }
  }

  lemma {:induction false} CountAbsent(s: string, c: char)
    requires c !in s
    ensures Count(s, c) == 0
    decreases |s|
  {
    if |s| > 0 {
      CountAbsent(s[1..], c);
    }
  }

  /** The first space of `s` is where `IndexOf` finds it. */
  lemma IndexOfFirst(s: string, i: nat)
    requires i < |s| && s[i] == ' ' && ' ' !in s[..i]
    ensures IndexOf(s, ' ') == Some(i)
  {
    var r := IndexOf(s, ' ');
    assert r.Some? by {
      assert s[i] in s;
    }
  }

  /** Dropping everything up to and including the first space removes one space. */
  lemma CountAfterFirstSpace(s: string, i: nat)
    requires i < |s| && s[i] == ' ' && ' ' !in s[..i]
    ensures Count(s, ' ') == Count(s[i + 1..], ' ') + 1
  {
    assert s == s[..i] + ([' '] + s[i + 1..]);
    CountAppend(s[..i], [' '] + s[i + 1..], ' ');
    CountAppend([' '], s[i + 1..], ' ');
    CountAbsent(s[..i], ' ');
  }

  /** One step of `split`: the part before the first space, then the rest split
      with one part fewer. */
  lemma SplitStep(s: string, limit: nat, i: nat)
    requires limit >= 2 && IndexOf(s, ' ') == Some(i)
    ensures Split(s, limit) == [s[..i]] + Split(s[i + 1..], limit - 1)
  {
  }

  /** One cut: if the rest after the first space splits into the expected
      number of parts, so does the whole. */
  lemma SplitLengthStep(s: string, limit: nat, i: nat)
    requires limit >= 2 && IndexOf(s, ' ') == Some(i)
    requires |Split(s[i + 1..], limit - 1)| == Min(Count(s[i + 1..], ' ') + 1, limit - 1)
    ensures |Split(s, limit)| == Min(Count(s, ' ') + 1, limit)
  {
    SplitStep(s, limit, i);
    CountAfterFirstSpace(s, i);
  }

  function Min(a: int, b: int): int {
    if a < b then a else b
  }


  /** After the first part, the remaining parts join back to everything after
      the first space. */
  lemma JoinSplitTail(s: string, limit: nat, i: nat)
    requires limit >= 2 && IndexOf(s, ' ') == Some(i)
    ensures |Split(s, limit)| >= 2
    ensures Join(Split(s, limit)[1..]) == s[i + 1..]
  {
    SplitTail(s, limit, i);
    JoinSplit(s[i + 1..], limit - 1);
  }

  lemma SplitTail(s: string, limit: nat, i: nat)
    requires limit >= 2 && IndexOf(s, ' ') == Some(i)
    ensures |Split(s, limit)| >= 2
    ensures Split(s, limit)[1..] == Split(s[i + 1..], limit - 1)
  {
    SplitStep(s, limit, i);
  }

  /** `split(" ", limit)` yields one part more than there are spaces, up to the limit. */
  lemma {:induction false} SplitLength(s: string, limit: nat)
    requires limit >= 1
    ensures |Split(s, limit)| == Min(Count(s, ' ') + 1, limit)
    decreases limit, 1
  {
    if limit > 1 {
      var k := IndexOf(s, ' ');
      if k.None? {
        CountAbsent(s, ' ');
      } else {
        SplitLengthAt(s, limit, k.value);
      }
    }
  }

  lemma {:induction false} SplitLengthAt(s: string, limit: nat, i: nat)
    requires limit >= 2 && IndexOf(s, ' ') == Some(i)
    ensures |Split(s, limit)| == Min(Count(s, ' ') + 1, limit)
    decreases limit, 0
  {
    var rest := s[i + 1..];
    SplitLength(rest, limit - 1);
    SplitLengthStep(s, limit, i);
  }

  /** `s.split(" ", 2)` read as a pair: the text before the first space and
      everything after it, or `None` when there is no space. */
  function SplitOnce(s: string): (r: Option<(string, string)>)
    ensures r.Some? <==> ' ' in s
    ensures r.Some? ==> ' ' !in r.value.0 && s == r.value.0 + " " + r.value.1
  {
    var parts := Split(s, 2);
    JoinSplit(s, 2);
    if |parts| < 2 then None else Some((parts[0], parts[1]))
  }

  /** Splitting a join of space-free parts gives the parts back. */
  lemma {:induction false} SplitJoin(parts: seq<string>)
    requires |parts| >= 1
    requires forall i :: 0 <= i < |parts| ==> ' ' !in parts[i]
    ensures Split(Join(parts), |parts|) == parts
    decreases |parts|
  {
    if |parts| > 1 {
      var s := Join(parts);
      var n := |parts[0]|;
      assert s == parts[0] + " " + Join(parts[1..]);
      assert s[..n] == parts[0];
      assert s[n + 1..] == Join(parts[1..]);
      IndexOfFirst(s, n);
      SplitStep(s, |parts|, n);
      SplitJoin(parts[1..]);
      assert parts == [parts[0]] + parts[1..];
    }
  }

  // ---------------------------------------------------------------- compareTo order

  /** `a.compareTo(b) <= 0`: lexicographic by char, a proper prefix first. */
  predicate LexLe(a: string, b: string) {
    |a| == 0 || (|b| > 0 && (a[0] < b[0] || (a[0] == b[0] && LexLe(a[1..], b[1..]))))
  }

  lemma {:induction false} LexLeTotal(a: string, b: string)
    ensures LexLe(a, b) || LexLe(b, a)
    decreases |a|
  {
    if |a| > 0 && |b| > 0 && a[0] == b[0] {
      LexLeTotal(a[1..], b[1..]);
    }
  }

  lemma {:induction false} LexLeTransitive(a: string, b: string, c: string)
    requires LexLe(a, b) && LexLe(b, c)
    ensures LexLe(a, c)
    decreases |a|
  {
    if |a| > 0 && a[0] == b[0] && b[0] == c[0] {
      LexLeTransitive(a[1..], b[1..], c[1..]);
    }
  }

  // ---------------------------------------------------------------- integers

  predicate IsDigit(c: char) {
    '0' <= c <= '9'
  }

  predicate AllDigits(s: string) {
    forall i :: 0 <= i < |s| ==> IsDigit(s[i])
  }

  function DigitChar(d: nat): char
    requires d < 10
  {
    ('0' as int + d) as char
  }

  /** Value of a run of decimal digits, most significant first. */
  function DigitsValue(s: string): nat
    requires AllDigits(s)
  {
    if |s| == 0 then 0
    else DigitsValue(s[..|s| - 1]) * 10 + (s[|s| - 1] as int - '0' as int)
  }

  /** `String.valueOf(n)` for a non-negative `n`. */
  function NatToString(n: nat): (r: string)
    ensures |r| >= 1 && AllDigits(r)
  {
    if n < 10 then [DigitChar(n)] else NatToString(n / 10) + [DigitChar(n % 10)]
  }

  /** `Integer.parseInt(s)`: an optional sign followed by at least one decimal
      digit, within the 32-bit range; `None` stands for NumberFormatException. */
  function ParseInt(s: string): (r: Option<int>)
    ensures r.Some? ==> IntMin <= r.value <= IntMax
    ensures r.Some? ==> |s| >= 1 && AllDigits(if s[0] == '-' || s[0] == '+' then s[1..] else s)
  {
    if |s| == 0 then None
    else if s[0] == '-' || s[0] == '+' then
      if |s| == 1 || !AllDigits(s[1..]) then None
      else
        var d: int := DigitsValue(s[1..]);
        var v := if s[0] == '-' then -d else d;
        if IntMin <= v <= IntMax then Some(v) else None
    else if !AllDigits(s) then None
    else if DigitsValue(s) <= IntMax then Some(DigitsValue(s))
    else None
  }

  lemma {:induction false} DigitsValueOfNatToString(n: nat)
    ensures DigitsValue(NatToString(n)) == n
  {
    if n >= 10 {
      var p := NatToString(n / 10);
      assert (p + [DigitChar(n % 10)])[..|p|] == p;
      DigitsValueOfNatToString(n / 10);
    }
  }

  /** Parsing the decimal rendering of a 32-bit non-negative value gives it back. */
  lemma ParseIntNatToString(n: nat)
    requires n <= IntMax
    ensures ParseInt(NatToString(n)) == Some(n)
  {
    DigitsValueOfNatToString(n);
  }
}
