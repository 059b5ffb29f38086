/** The catalog commands `searchmod <query>` and `viewallmods [year]`: a
    case-insensitive substring search over every loaded year, and the lazy
    per-year load followed by a listing sorted by code. */
module CatalogCommands {
  import opened Options
  import opened Text
  import opened Mods
  import opened CommandCenter
  import Seqs

  // ---------------------------------------------------------------- searchmod

  /** The search filter: the lower-cased name or code contains `needle`, which
      is the already lower-cased query. */
  predicate Hit(s: Summary, needle: string) {
    Contains(Lower(s.name), needle) || Contains(Lower(s.code), needle)
  }

  /** `map(fetchModuleByCode).flatMap(Optional::stream)`: the fetched details in
      order, dropping empty fetches. */
  function FetchAll(ss: seq<Summary>, fetch: Fetch): (r: seq<Mod>)
    ensures |r| <= |ss|
    ensures forall i :: 0 <= i < |r| ==> exists s :: s in ss && fetch(s.code) == Some(r[i])
    ensures forall s :: s in ss && fetch(s.code).Some? ==> fetch(s.code).value in r
  {
    if |ss| == 0 then []
    else
      var rest := FetchAll(ss[1..], fetch);
      assert forall s :: s in ss ==> s == ss[0] || s in ss[1..];
      match fetch(ss[0].code)
      case Some(m) => [m] + rest
      case None => rest
  }

  /** Each mod occurs in the fetched list once per summary that fetches to it. */
  lemma {:induction false} FetchAllMultiplicity(ss: seq<Summary>, fetch: Fetch, m: Mod)
    ensures multiset(FetchAll(ss, fetch))[m] == |Seqs.Filter(ss, (s: Summary) => fetch(s.code) == Some(m))|
  {
    if |ss| > 0 {
      var p := (s: Summary) => fetch(s.code) == Some(m);
      var head := if p(ss[0]) then [ss[0]] else [];
      assert Seqs.Filter(ss, p) == head + Seqs.Filter(ss[1..], p);
      FetchAllMultiplicity(ss[1..], fetch, m);
    }
  }

  /** Fetching a concatenation fetches each part and keeps them in order. */
  lemma {:induction false} FetchAllAppend(a: seq<Summary>, b: seq<Summary>, fetch: Fetch)
    ensures FetchAll(a + b, fetch) == FetchAll(a, fetch) + FetchAll(b, fetch)
  {
    if |a| > 0 {
      assert (a + b)[0] == a[0] && (a + b)[1..] == a[1..] + b;
      FetchAllAppend(a[1..], b, fetch);
    } else {
      assert a + b == b;
    }
  }

  lemma {:induction false} AllSummariesAppend(c: Catalog, d: Catalog)
    ensures AllSummaries(c + d) == AllSummaries(c) + AllSummaries(d)
  {
    if |c| > 0 {
      assert (c + d)[0] == c[0] && (c + d)[1..] == c[1..] + d;
      AllSummariesAppend(c[1..], d);
    } else {
      assert c + d == d;
    }
  }

  /** `getSearchResults`: every summary of every loaded year, in iteration
      order, kept when it hits the lower-cased query, then fetched. */
  function SearchResults(c: Catalog, q: string, fetch: Fetch): seq<Mod> {
    var needle := Lower(q);
    FetchAll(Seqs.Filter(AllSummaries(c), (s: Summary) => Hit(s, needle)), fetch)
  }

  /** A mod is a search result exactly when some loaded summary contains the
      query ignoring case, in its name or its code, and fetches to that mod. */
  lemma SearchResultsIff(c: Catalog, q: string, fetch: Fetch, m: Mod)
    ensures m in SearchResults(c, q, fetch) <==>
              exists s :: s in AllSummaries(c) && Hit(s, Lower(q)) && fetch(s.code) == Some(m)
  {
    var needle := Lower(q);
    var all := AllSummaries(c);
    var selected := Seqs.Filter(all, (s: Summary) => Hit(s, needle));
    assert forall s :: s in all && Hit(s, needle) ==> s in selected by {
      forall s | s in all && Hit(s, needle) ensures s in selected {
        var j :| 0 <= j < |all| && all[j] == s;
      }
    }
    if m in SearchResults(c, q, fetch) {
      var i :| 0 <= i < |SearchResults(c, q, fetch)| && SearchResults(c, q, fetch)[i] == m;
    }
  }

  /** The search ignores the query's letter case. */
  lemma SearchIgnoresCase(c: Catalog, q1: string, q2: string, fetch: Fetch)
    requires EqualsIgnoreCase(q1, q2)
    ensures SearchResults(c, q1, fetch) == SearchResults(c, q2, fetch)
  {
    EqualsIgnoreCaseLower(q1, q2);
  }

  /** Results follow the years' iteration order and are not de-duplicated:
      the results over two groups of years are the first group's followed by
      the second's. */
  lemma SearchConcatenatesYears(c: Catalog, d: Catalog, q: string, fetch: Fetch)
    ensures SearchResults(c + d, q, fetch) == SearchResults(c, q, fetch) + SearchResults(d, q, fetch)
  {
    var p := (s: Summary) => Hit(s, Lower(q));
    AllSummariesAppend(c, d);
    Seqs.FilterAppend(AllSummaries(c), AllSummaries(d), p);
    FetchAllAppend(Seqs.Filter(AllSummaries(c), p), Seqs.Filter(AllSummaries(d), p), fetch);
  }

  datatype SearchOutcome = SearchUsage | NoModsFound | SearchFound(mods: seq<Mod>)

  /** `SearchModCommand.execute(args, user)`: the query is the trimmed second
      argument. */
  function SearchModCommand(args: seq<string>, c: Catalog, fetch: Fetch): (r: SearchOutcome)
    ensures r.SearchUsage? <==> |args| < 2
    ensures r.NoModsFound? ==>
              && |args| >= 2
              && SearchResults(c, Trim(args[1]), fetch) == []
              && forall s :: s in AllSummaries(c) && Hit(s, Lower(Trim(args[1]))) ==> fetch(s.code).None?
    ensures r.SearchFound? ==>
              && |args| >= 2
              && r.mods == SearchResults(c, Trim(args[1]), fetch)
              && |r.mods| > 0
              && forall m :: m in r.mods <==>
                   exists s :: s in AllSummaries(c) && Hit(s, Lower(Trim(args[1]))) && fetch(s.code) == Some(m)
  {
    if |args| < 2 then SearchUsage
    else
      var query := Trim(args[1]);
      var results := SearchResults(c, query, fetch);
      forall m ensures m in results <==>
          exists s :: s in AllSummaries(c) && Hit(s, Lower(query)) && fetch(s.code) == Some(m) {
        SearchResultsIff(c, query, fetch, m);
      }
      if |results| == 0 then NoModsFound else SearchFound(results)
  }

  // ---------------------------------------------------------------- viewallmods

  /** Loads `year` with `m` unless the year is already cached. */
  function EnsureYear(c: Catalog, year: string, m: YearMap, pos: nat): (r: Catalog)
    ensures HasYear(r, year)
    ensures HasYear(c, year) ==> r == c
    ensures !HasYear(c, year) ==> GetYear(r, year) == Some(m)
    ensures forall y :: y != year ==> GetYear(r, y) == GetYear(c, y)
    ensures YearsUnique(c) ==> YearsUnique(r)
  {
    if HasYear(c, year) then c else InsertYear(c, year, m, pos)
  }

  datatype ViewOutcome =
    | ParseFailure(year: string)
    | NoModuleData(year: string)
    | Listing(year: string, entries: YearMap)

  datatype ViewResult = ViewResult(outcome: ViewOutcome, catalog: Catalog)

  /** The year a `viewallmods` call is about: the argument, or the current year. */
  function RequestedYear(args: seq<string>, currentYear: nat): string {
    if |args| == 2 then args[1] else NatToString(currentYear)
  }

  /** Shows the cached map of `year`, sorted by code. */
  function Show(c: Catalog, year: string): (r: ViewOutcome)
    requires HasYear(c, year)
    ensures r.year == year && !r.ParseFailure?
    ensures r.NoModuleData? <==> |GetYear(c, year).value| == 0
    ensures r.Listing? ==> SortedByKey(r.entries) && multiset(r.entries) == multiset(GetYear(c, year).value)
  {
    var m := GetYear(c, year).value;
    if |m| == 0 then NoModuleData(year) else Listing(year, SortByKey(m))
  }

  /** `ViewAllModsCommand.execute(args, user)`. With exactly two arguments the
      second names the year, parsed by `Integer.parseInt` only when that year
      is not cached; otherwise the current year is shown, fetched with the
      no-argument fetch when absent. `pos` places a newly cached year in the
      catalog's iteration order. */
  function ViewAllModsCommand(args: seq<string>, c: Catalog, currentYear: nat,
                              fetchYear: int -> YearMap, fetchCurrent: YearMap, pos: nat): (r: ViewResult)
    ensures var year := RequestedYear(args, currentYear);
            && r.outcome.year == year
            && (HasYear(c, year) ==> r.catalog == c)
            && (forall y :: y != year ==> GetYear(r.catalog, y) == GetYear(c, y))
            && (r.outcome.ParseFailure? <==> |args| == 2 && !HasYear(c, year) && ParseInt(year).None?)
            && (r.outcome.ParseFailure? ==> r.catalog == c)
            && (!r.outcome.ParseFailure? ==> HasYear(r.catalog, year))
            && (|args| == 2 && !HasYear(c, year) && ParseInt(year).Some? ==>
                  GetYear(r.catalog, year) == Some(fetchYear(ParseInt(year).value)))
            && (|args| != 2 && !HasYear(c, year) ==> GetYear(r.catalog, year) == Some(fetchCurrent))
            && (r.outcome.Listing? ==>
                  && |r.outcome.entries| > 0
                  && SortedByKey(r.outcome.entries)
                  && multiset(r.outcome.entries) == multiset(GetYear(r.catalog, year).value))
            && (r.outcome.NoModuleData? ==> GetYear(r.catalog, year) == Some([]))
    ensures YearsUnique(c) ==> YearsUnique(r.catalog)
  {
    var year := RequestedYear(args, currentYear);
    if |args| == 2 then
      if HasYear(c, year) then ViewResult(Show(c, year), c)
      else
        match ParseInt(year)
        case None => ViewResult(ParseFailure(year), c)
        case Some(n) =>
          var c' := EnsureYear(c, year, fetchYear(n), pos);
          ViewResult(Show(c', year), c')
    else
      var c' := EnsureYear(c, year, fetchCurrent, pos);
      ViewResult(Show(c', year), c')
  }

  /** Running `viewallmods` again with the same arguments fetches nothing more:
      the catalog stays as the first run left it and the outcome repeats. */
  lemma ViewAllModsIdempotent(args: seq<string>, c: Catalog, currentYear: nat,
                              fetchYear: int -> YearMap, fetchCurrent: YearMap, pos: nat,
                              fetchYear2: int -> YearMap, fetchCurrent2: YearMap, pos2: nat)
    ensures var first := ViewAllModsCommand(args, c, currentYear, fetchYear, fetchCurrent, pos);
            ViewAllModsCommand(args, first.catalog, currentYear, fetchYear2, fetchCurrent2, pos2) == first
  {
  }
}
