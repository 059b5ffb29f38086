/** `CommandCenter`: the process-wide catalog of per-year summary maps, the
    code-or-name resolver over it, and the token-joining helper used by the
    command handlers. */
module CommandCenter {
  import opened Options
  import opened Text
  import opened Mods
  import Seqs

  /** One entry of `allModCodesAndNamesByYear`: an academic-year key and its map. */
  datatype YearSlot = YearSlot(year: string, mods: YearMap)

  /** `allModCodesAndNamesByYear`, as its entries in iteration order. */
  type Catalog = seq<YearSlot>

  /** The `Map` invariant of the catalog: each year key occurs once. */
  predicate YearsUnique(c: Catalog) {
    forall i, j :: 0 <= i < j < |c| ==> c[i].year != c[j].year
  }

  /** The catalog at start-up: the current year's map under `String.valueOf(year)`. */
  function InitialCatalog(currentYear: nat, currentYearMods: YearMap): (c: Catalog)
    ensures |c| == 1 && YearsUnique(c)
    ensures GetYear(c, NatToString(currentYear)) == Some(currentYearMods)
  {
    var c := [YearSlot(NatToString(currentYear), currentYearMods)];
    assert c[0].year == NatToString(currentYear);
    c
  }

  /** `allModCodesAndNamesByYear.containsKey(year)`. */
  predicate HasYear(c: Catalog, year: string) {
    exists i :: 0 <= i < |c| && c[i].year == year
  }

  /** `allModCodesAndNamesByYear.get(year)`. */
  function GetYear(c: Catalog, year: string): (r: Option<YearMap>)
    ensures r.Some? <==> HasYear(c, year)
    ensures r.Some? ==> YearSlot(year, r.value) in c
  {
    match Seqs.FirstWhere(c, (s: YearSlot) => s.year == year)
    case None => None
    case Some(s) => Some(s.mods)
  }

  /** `allModCodesAndNamesByYear.put(year, m)` for a year that is not yet a key.
      Where the new entry lands in iteration order is decided by hashing, so the
      caller chooses it through `pos`. */
  function InsertYear(c: Catalog, year: string, m: YearMap, pos: nat): (r: Catalog)
    requires !HasYear(c, year)
    ensures |r| == |c| + 1
    ensures GetYear(r, year) == Some(m)
    ensures forall y :: y != year ==> GetYear(r, y) == GetYear(c, y)
    ensures YearsUnique(c) ==> YearsUnique(r)
  {
    var p := if pos <= |c| then pos else |c|;
    InsertYearSelf(c, year, m, p);
    forall y | y != year ensures GetYear(c[..p] + [YearSlot(year, m)] + c[p..], y) == GetYear(c, y) {
      InsertYearOther(c, year, m, p, y);
    }
    InsertYearUnique(c, year, m, p);
    c[..p] + [YearSlot(year, m)] + c[p..]
  }

  /** Where a fresh year lands, the slots before it and after it are the old ones. */
  lemma InsertYearAt(c: Catalog, year: string, m: YearMap, p: nat)
    requires p <= |c|
    ensures var r := c[..p] + [YearSlot(year, m)] + c[p..];
            && |r| == |c| + 1
            && r[p] == YearSlot(year, m)
            && forall i :: 0 <= i < |r| && i != p ==> r[i] == c[if i < p then i else i - 1]
  {
  }

  lemma InsertYearSelf(c: Catalog, year: string, m: YearMap, p: nat)
    requires p <= |c| && !HasYear(c, year)
    ensures GetYear(c[..p] + [YearSlot(year, m)] + c[p..], year) == Some(m)
  {
    var r := c[..p] + [YearSlot(year, m)] + c[p..];
    InsertYearAt(c, year, m, p);
    assert r[p].year == year;
  }

  lemma InsertYearUnique(c: Catalog, year: string, m: YearMap, p: nat)
    requires p <= |c| && !HasYear(c, year)
    ensures YearsUnique(c) ==> YearsUnique(c[..p] + [YearSlot(year, m)] + c[p..])
  {
    InsertYearAt(c, year, m, p);
  }

  lemma InsertYearOther(c: Catalog, year: string, m: YearMap, p: nat, y: string)
    requires p <= |c| && y != year && !HasYear(c, year)
    ensures GetYear(c[..p] + [YearSlot(year, m)] + c[p..], y) == GetYear(c, y)
  {
    assert c == c[..p] + c[p..];
    Seqs.FirstWhereSkip(c[..p], YearSlot(year, m), c[p..], (s: YearSlot) => s.year == y);
  }

  /** Every summary of every loaded year: outer loop over the years, inner loop
      over each year's values, both in iteration order. */
  function AllSummaries(c: Catalog): seq<Summary> {
    if |c| == 0 then [] else Summaries(c[0].mods) + AllSummaries(c[1..])
  }

  /** Code pass: the first year whose map has `key`. */
  function FirstYearWithKey(c: Catalog, key: string): (r: Option<nat>)
    ensures r.Some? ==> r.value < |c| && HasKey(c[r.value].mods, key)
    ensures r.Some? ==> forall j :: 0 <= j < r.value ==> !HasKey(c[j].mods, key)
    ensures r.None? <==> forall j :: 0 <= j < |c| ==> !HasKey(c[j].mods, key)
  {
    Seqs.FirstIndex(c, (s: YearSlot) => HasKey(s.mods, key))
  }

  /** Name pass, as written: scan each year's values and leave both loops at the
      first summary whose name equals `q` ignoring case. */
  function NamePass(c: Catalog, q: string): Option<Summary> {
    if |c| == 0 then None
    else
      match Seqs.FirstWhere(Summaries(c[0].mods), (s: Summary) => NameMatches(s, q))
      case Some(s) => Some(s)
      case None => NamePass(c[1..], q)
  }

  /** The nested name pass with its labelled break is one linear scan over all
      summaries, years first: it finds the first name match in that order. */
  lemma {:induction false} NamePassIsFirstMatch(c: Catalog, q: string)
    ensures NamePass(c, q) == Seqs.FirstWhere(AllSummaries(c), (s: Summary) => NameMatches(s, q))
  {
    var p := (s: Summary) => NameMatches(s, q);
    if |c| > 0 {
      NamePassIsFirstMatch(c[1..], q);
      Seqs.FirstIndexAppend(Summaries(c[0].mods), AllSummaries(c[1..]), p);
      var a := Summaries(c[0].mods);
      var all := a + AllSummaries(c[1..]);
      assert AllSummaries(c) == all;
      match Seqs.FirstIndex(a, p)
      case Some(i) =>
        assert all[i] == a[i];
      case None =>
        match Seqs.FirstIndex(AllSummaries(c[1..]), p)
        case Some(j) =>
          assert all[|a| + j] == AllSummaries(c[1..])[j];
        case None =>
    }
  }

  /** `modFromCodeOrName`: the upper-cased query as a key of the first year that
      has it; failing that, the first summary named like the query; then the
      detail fetch of the chosen summary's code. */
  function ModFromCodeOrName(c: Catalog, q: string, fetch: Fetch): Option<Mod> {
    var key := Upper(q);
    var byCode :=
      match FirstYearWithKey(c, key)
      case Some(i) => Lookup(c[i].mods, key)
      case None => None;
    var found := if byCode.None? then NamePass(c, q) else byCode;
    match found
    case None => None
    case Some(s) => fetch(s.code)
  }

  /** A code hit wins: the summary fetched is the one stored under the
      upper-cased query in the first year that has that key. */
  lemma ResolveByCode(c: Catalog, q: string, fetch: Fetch, i: nat)
    requires i < |c| && HasKey(c[i].mods, Upper(q))
    requires forall j :: 0 <= j < i ==> !HasKey(c[j].mods, Upper(q))
    ensures Lookup(c[i].mods, Upper(q)).Some?
    ensures ModFromCodeOrName(c, q, fetch) == fetch(Lookup(c[i].mods, Upper(q)).value.code)
  {
    var r := FirstYearWithKey(c, Upper(q));
    assert r == Some(i);
  }

  /** Only when no year has the key does the name pass run; it picks the first
      summary, years then entries, whose name equals the query ignoring case. */
  lemma ResolveByName(c: Catalog, q: string, fetch: Fetch, k: nat)
    requires forall j :: 0 <= j < |c| ==> !HasKey(c[j].mods, Upper(q))
    requires k < |AllSummaries(c)| && NameMatches(AllSummaries(c)[k], q)
    requires forall j :: 0 <= j < k ==> !NameMatches(AllSummaries(c)[j], q)
    ensures ModFromCodeOrName(c, q, fetch) == fetch(AllSummaries(c)[k].code)
  {
    NamePassIsFirstMatch(c, q);
    var r := Seqs.FirstIndex(AllSummaries(c), (s: Summary) => NameMatches(s, q));
    assert r == Some(k);
  }

  /** With neither a code hit nor a name match, nothing is found. */
  lemma ResolveNothing(c: Catalog, q: string, fetch: Fetch)
    requires forall j :: 0 <= j < |c| ==> !HasKey(c[j].mods, Upper(q))
    requires forall j :: 0 <= j < |AllSummaries(c)| ==> !NameMatches(AllSummaries(c)[j], q)
    ensures ModFromCodeOrName(c, q, fetch) == None
  {
    NamePassIsFirstMatch(c, q);
  }

  /** Whatever the resolver returns came from the detail fetch of a summary that
      is either stored under the upper-cased query or named like the query. */
  lemma ResolvedFromFetch(c: Catalog, q: string, fetch: Fetch)
    requires ModFromCodeOrName(c, q, fetch).Some?
    ensures exists s :: s in AllSummaries(c) && fetch(s.code) == ModFromCodeOrName(c, q, fetch)
  {
    var key := Upper(q);
    NamePassIsFirstMatch(c, q);
    match FirstYearWithKey(c, key)
    case Some(i) =>
      var s := Lookup(c[i].mods, key).value;
      SummaryInAll(c, i, Entry(key, s));
    case None =>
  }

  lemma {:induction false} SummaryInAll(c: Catalog, i: nat, e: Entry)
    requires i < |c| && e in c[i].mods
    ensures e.summary in AllSummaries(c)
  {
    if i == 0 {
      var j :| 0 <= j < |c[0].mods| && c[0].mods[j] == e;
      assert Summaries(c[0].mods)[j] == e.summary;
    } else {
      SummaryInAll(c[1..], i - 1, e);
    }
  }

  // ---------------------------------------------------------------- token joining

  /** `stringFromBetweenPartsXY(parts, x, y)`: the parts from `x` up to but not
      including `y` joined by single spaces, or "" for an empty array or bounds
      out of order. */
  function Between(parts: seq<string>, x: int, y: int): string {
    if |parts| == 0 || x < 0 || y > |parts| || x >= y then ""
    else Join(parts[x..y])
  }

  /** The two-argument overload: from `x` to the end. */
  function BetweenFrom(parts: seq<string>, x: int): string {
    Between(parts, x, |parts|)
  }

  /** From the second part on, the two-argument overload joins the whole tail
      (nothing, for a lone command word). */
  lemma BetweenFromTail(parts: seq<string>)
    requires |parts| >= 1
    ensures BetweenFrom(parts, 1) == Join(parts[1..])
  {
    assert parts[1..|parts|] == parts[1..];
  }

  /** The `StringBuilder` loop of `stringFromBetweenPartsXY`, appending each part
      and a space after every part but the last. */
  method JoinBetween(parts: seq<string>, x: int, y: int) returns (r: string)
    ensures r == Between(parts, x, y)
  {
    if |parts| == 0 || x < 0 || y > |parts| || x >= y {
      return "";
    }
    var sb := "";
    var i := x;
    while i < y
      invariant x <= i <= y
      invariant i == x ==> sb == ""
      invariant x < i < y ==> sb == Join(parts[x..i]) + " "
      invariant i == y ==> sb == Join(parts[x..y])
    {
      if i > x {
        assert parts[x..i + 1] == parts[x..i] + [parts[i]];
        JoinSnoc(parts[x..i], parts[i]);
      }
      sb := sb + parts[i];
      if i < y - 1 {
        sb := sb + " ";
      }
      i := i + 1;
    }
    r := sb;
  }

  /** The parts between `x` and `y` come back from splitting the joined string,
      when no part holds a space. */
  lemma BetweenSplits(parts: seq<string>, x: nat, y: nat)
    requires x < y <= |parts|
    requires forall i :: 0 <= i < |parts| ==> ' ' !in parts[i]
    ensures Split(Between(parts, x, y), y - x) == parts[x..y]
  {
    SplitJoin(parts[x..y]);
  }
}
