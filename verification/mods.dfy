/** Course ("mod") records and the per-year code-to-summary maps that the
    catalog provider returns. A Java `HashMap` is modelled as its entries in
    iteration order; which order that is stays unspecified. */
module Mods {
  import opened Options
  import opened Text
  import Seqs

  /** A `CondensedMod`: the lightweight code-and-name summary of a course. */
  datatype Summary = Summary(code: string, name: string)

  /** A full `Mod` as the detail fetch returns it; `attributes` stands for every
      field the core never inspects (faculty, units, prerequisites, ...). */
  datatype Mod = Mod(code: string, name: string, attributes: string)

  /** One key-value pair of a `Map<String, CondensedMod>`. */
  datatype Entry = Entry(key: string, summary: Summary)

  /** A year's `Map<String, CondensedMod>`, as its entries in iteration order. */
  type YearMap = seq<Entry>

  /** The detail fetch by code (`NUSModsAPI.fetchModuleByCode`); `None` is
      `Optional.empty()`. */
  type Fetch = string -> Option<Mod>

  /** The summary's name equals `q` ignoring case. */
  predicate NameMatches(s: Summary, q: string) {
    EqualsIgnoreCase(s.name, q)
  }

  /** `m.containsKey(k)`. */
  predicate HasKey(m: YearMap, k: string) {
    exists i :: 0 <= i < |m| && m[i].key == k
  }

  /** `m.get(k)`, with `None` for a missing key. */
  function Lookup(m: YearMap, k: string): (r: Option<Summary>)
    ensures r.Some? <==> HasKey(m, k)
    ensures r.Some? ==> Entry(k, r.value) in m
  {
    match Seqs.FirstIndex(m, (e: Entry) => e.key == k)
    case None => None
    case Some(i) => Some(m[i].summary)
  }

  /** `m.values()` in iteration order. */
  function Summaries(m: YearMap): seq<Summary> {
    seq(|m|, i requires 0 <= i < |m| => m[i].summary)
  }

  /** Entries in ascending `compareTo` order of their keys. */
  predicate SortedByKey(m: YearMap) {
    forall i, j :: 0 <= i < j < |m| ==> LexLe(m[i].key, m[j].key)
  }

  /** A head no larger than anything after it extends a sorted sequence. */
  lemma ConsSorted(h: Entry, m: YearMap)
    requires SortedByKey(m)
    requires forall j :: 0 <= j < |m| ==> LexLe(h.key, m[j].key)
    ensures SortedByKey([h] + m)
  {
    var r := [h] + m;
    forall i, j | 0 <= i < j < |r| ensures LexLe(r[i].key, r[j].key) {
      if i > 0 {
        assert r[i] == m[i - 1] && r[j] == m[j - 1];
      } else {
        assert r[j] == m[j - 1];
      }
    }
  }

  /** Inserts `e` into a key-sorted sequence, before the first key it does not exceed. */
  function InsertByKey(e: Entry, m: YearMap): (r: YearMap)
    requires SortedByKey(m)
    ensures SortedByKey(r)
    ensures multiset(r) == multiset(m) + multiset{e}
  {
    if |m| == 0 then [e]
    else if LexLe(e.key, m[0].key) then
      InsertBeforeHead(e, m);
      [e] + m
    else
      var rest := InsertByKey(e, m[1..]);
      InsertAfterHead(e, m, rest);
      assert m == [m[0]] + m[1..];
      [m[0]] + rest
  }

  lemma InsertBeforeHead(e: Entry, m: YearMap)
    requires SortedByKey(m) && |m| > 0 && LexLe(e.key, m[0].key)
    ensures SortedByKey([e] + m)
  {
    forall j | 0 <= j < |m| ensures LexLe(e.key, m[j].key) {
      if j > 0 {
        LexLeTransitive(e.key, m[0].key, m[j].key);
      }
    }
    ConsSorted(e, m);
  }

  lemma InsertAfterHead(e: Entry, m: YearMap, rest: YearMap)
    requires SortedByKey(m) && |m| > 0 && !LexLe(e.key, m[0].key)
    requires SortedByKey(rest) && multiset(rest) == multiset(m[1..]) + multiset{e}
    ensures SortedByKey([m[0]] + rest)
  {
    LexLeTotal(e.key, m[0].key);
    forall j | 0 <= j < |rest| ensures LexLe(m[0].key, rest[j].key) {
      assert rest[j] in multiset(rest);
      if rest[j] != e {
        assert rest[j] in multiset(m[1..]);
        var k :| 0 <= k < |m[1..]| && m[1..][k] == rest[j];
        assert m[k + 1] == rest[j];
      }
    }
    ConsSorted(m[0], rest);
  }

  /** The entries sorted by key: `entrySet().stream().sorted(comparingByKey())`. */
  function SortByKey(m: YearMap): (r: YearMap)
    ensures SortedByKey(r)
    ensures multiset(r) == multiset(m)
  {
    if |m| == 0 then []
    else
      assert m == [m[0]] + m[1..];
      InsertByKey(m[0], SortByKey(m[1..]))
  }
}
