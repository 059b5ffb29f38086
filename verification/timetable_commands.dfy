/** The timetable commands `addmod <timetable> <code or name>` and
    `removemod <timetable> <code or name>`. Printed messages become outcome
    values; the user after the command is returned beside the outcome. */
module TimetableCommands {
  import opened Options
  import opened Text
  import opened Mods
  import opened UserStore
  import Seqs

  // ---------------------------------------------------------------- addmod

  /** How a query resolves against the summary map: one mod, several candidates
      by name, nothing, or a single name match whose detail fetch came back
      empty (where the source calls `get()` on an empty `Optional`). */
  datatype Resolution =
    | Resolved(mod: Mod)
    | Ambiguous(candidates: seq<Summary>)
    | Unmatched
    | FetchFailed(code: string)

  /** The code path: a fetch by the upper-cased query when it is a key. */
  function CodeFetch(m: YearMap, q: string, fetch: Fetch): Option<Mod> {
    if HasKey(m, Upper(q)) then fetch(Upper(q)) else None
  }

  /** The summaries whose name equals `q` ignoring case, in iteration order,
      each as often as the map holds it. */
  function NameMatchesIn(m: YearMap, q: string): (r: seq<Summary>)
    ensures forall x :: x in r <==> x in Summaries(m) && NameMatches(x, q)
    ensures forall x :: multiset(r)[x] == if NameMatches(x, q) then multiset(Summaries(m))[x] else 0
  {
    var r := Seqs.Filter(Summaries(m), (s: Summary) => NameMatches(s, q));
    forall x ensures multiset(r)[x] == if NameMatches(x, q) then multiset(Summaries(m))[x] else 0 {
      Seqs.FilterMultiplicity(Summaries(m), (s: Summary) => NameMatches(s, q), x);
    }
    assert forall x :: x in Summaries(m) && NameMatches(x, q) ==> x in r by {
      forall x | x in Summaries(m) && NameMatches(x, q) ensures x in r {
        var j :| 0 <= j < |Summaries(m)| && Summaries(m)[j] == x;
      }
    }
    r
  }

  /** Resolution inside `addmod`: a code hit that fetches wins; otherwise the
      count of name matches decides. */
  function ResolveInCatalog(m: YearMap, q: string, fetch: Fetch): (r: Resolution)
    ensures CodeFetch(m, q, fetch).Some? ==> r == Resolved(CodeFetch(m, q, fetch).value)
    ensures !r.Resolved? ==> CodeFetch(m, q, fetch).None?
    ensures r.Resolved? && CodeFetch(m, q, fetch).None? ==>
              exists s :: NameMatchesIn(m, q) == [s] && fetch(s.code) == Some(r.mod)
    ensures r.Ambiguous? <==> CodeFetch(m, q, fetch).None? && |NameMatchesIn(m, q)| > 1
    ensures r.Ambiguous? ==>
              && r.candidates == NameMatchesIn(m, q)
              && forall x :: x in r.candidates <==> x in Summaries(m) && NameMatches(x, q)
    ensures CodeFetch(m, q, fetch).None? && |NameMatchesIn(m, q)| == 1 ==> r.Resolved? || r.FetchFailed?
    ensures r.Unmatched? <==> CodeFetch(m, q, fetch).None? && |NameMatchesIn(m, q)| == 0
    ensures r.Unmatched? ==> forall x :: x in Summaries(m) ==> !NameMatches(x, q)
    ensures r.FetchFailed? ==>
              exists s :: NameMatchesIn(m, q) == [s] && s.code == r.code && fetch(s.code).None?
  {
    match CodeFetch(m, q, fetch)
    case Some(mod) => Resolved(mod)
    case None =>
      var matches := NameMatchesIn(m, q);
      if |matches| == 1 then
        match fetch(matches[0].code)
        case Some(mod) => Resolved(mod)
        case None => FetchFailed(matches[0].code)
      else if |matches| > 1 then Ambiguous(matches)
      else Unmatched
  }

  /** Two different summaries with the same name (ignoring case) make `addmod`
      by that name ambiguous unless the query is also a fetchable code. */
  lemma SameNameIsAmbiguous(m: YearMap, q: string, fetch: Fetch, x: Summary, y: Summary)
    requires x in Summaries(m) && y in Summaries(m) && x != y
    requires NameMatches(x, q) && NameMatches(y, q)
    requires CodeFetch(m, q, fetch).None?
    ensures ResolveInCatalog(m, q, fetch).Ambiguous?
  {
    var matches := NameMatchesIn(m, q);
    assert x in matches && y in matches;
  }

  datatype AddOutcome =
    | AddUsage
    | AddNoTimetable(timetable: string)
    | AddAmbiguous(candidates: seq<Summary>)
    | AddNotFound(query: string)
    | AddFetchFailed(code: string)
    | Added(timetable: string, mod: Mod)

  datatype AddResult = AddResult(outcome: AddOutcome, user: User)

  /** `AddModToTimetableCommand.execute` against the summary map `condensed`
      (`NUSModsAPI.CONDENSED_MODS`). */
  function AddModCommand(u: User, argument: string, condensed: YearMap, fetch: Fetch): (r: AddResult)
    ensures r.outcome.AddUsage? <==> ' ' !in argument
    ensures !r.outcome.Added? ==> r.user == u
    ensures r.outcome.AddNoTimetable? ==> !HasTimetable(u, r.outcome.timetable)
    ensures r.outcome.Added? ==>
              && HasTimetable(u, r.outcome.timetable)
              && ' ' !in r.outcome.timetable
              && r.user == AddModToTimetable(u, r.outcome.timetable, r.outcome.mod).0
    ensures SplitOnce(argument).Some? && !HasTimetable(u, SplitOnce(argument).value.0) ==>
              r.outcome == AddNoTimetable(SplitOnce(argument).value.0)
    ensures SplitOnce(argument).Some? && HasTimetable(u, SplitOnce(argument).value.0) ==>
              var (t, q) := SplitOnce(argument).value;
              match ResolveInCatalog(condensed, q, fetch)
              case Resolved(m) => r.outcome == Added(t, m)
              case Ambiguous(c) => r.outcome == AddAmbiguous(c)
              case Unmatched => r.outcome == AddNotFound(q)
              case FetchFailed(code) => r.outcome == AddFetchFailed(code)
  {
    match SplitOnce(argument)
    case None => AddResult(AddUsage, u)
    case Some((timetable, query)) =>
      if !HasTimetable(u, timetable) then
        AddResult(AddNoTimetable(timetable), u)
      else
        match ResolveInCatalog(condensed, query, fetch)
        case Resolved(m) => AddResult(Added(timetable, m), AddModToTimetable(u, timetable, m).0)
        case Ambiguous(c) => AddResult(AddAmbiguous(c), u)
        case Unmatched => AddResult(AddNotFound(query), u)
        case FetchFailed(code) => AddResult(AddFetchFailed(code), u)
  }

  // ---------------------------------------------------------------- removemod

  datatype RemoveOutcome =
    | RemoveUsage
    | RemoveNoTimetable(timetable: string)
    | RemoveAmbiguous(candidates: seq<Mod>)
    | NotInTimetable(query: string, timetable: string)
    | Removed(timetable: string, mod: Mod)

  datatype RemoveResult = RemoveResult(outcome: RemoveOutcome, user: User)

  /** The mods of the first timetable named like `name`. */
  function ModsOf(u: User, name: string): seq<Mod>
    requires HasTimetable(u, name)
  {
    GetTimetable(u, name).schedule.mods
  }

  /** How a query resolves against a timetable's own mods. */
  datatype TimetableMatch =
    | ByCode(mod: Mod)
    | ByName(mod: Mod)
    | AmbiguousName(candidates: seq<Mod>)
    | NoMatch

  /** Resolution inside `removemod`: the first mod whose code equals the query
      ignoring case; failing that, the count of name matches decides. */
  function ResolveInTimetable(mods: seq<Mod>, q: string): (r: TimetableMatch)
    ensures r.ByCode? ==>
              && EqualsIgnoreCase(r.mod.code, q)
              && exists i :: 0 <= i < |mods| && mods[i] == r.mod &&
                   forall k :: 0 <= k < i ==> !EqualsIgnoreCase(mods[k].code, q)
    ensures !r.ByCode? ==> forall x :: x in mods ==> !EqualsIgnoreCase(x.code, q)
    ensures r.ByName? ==>
              && r.mod in mods
              && EqualsIgnoreCase(r.mod.name, q)
              && forall x :: x in mods && EqualsIgnoreCase(x.name, q) ==> x == r.mod
    ensures r.ByName? <==> NoCodeMatch(mods, q) && |ModsNamed(mods, q)| == 1
    ensures r.ByName? ==> ModsNamed(mods, q) == [r.mod]
    ensures r.AmbiguousName? <==> NoCodeMatch(mods, q) && |ModsNamed(mods, q)| > 1
    ensures r.AmbiguousName? ==>
              && r.candidates == ModsNamed(mods, q)
              && forall x :: x in r.candidates <==> x in mods && EqualsIgnoreCase(x.name, q)
    ensures r.NoMatch? <==> NoCodeMatch(mods, q) && |ModsNamed(mods, q)| == 0
    ensures r.NoMatch? ==> forall x :: x in mods ==> !EqualsIgnoreCase(x.name, q)
  {
    match CodeIndex(mods, q)
    case Some(i) => ByCode(mods[i])
    case None => NameResolution(ModsNamed(mods, q))
  }

  /** The code pass: the index of the first mod whose code equals the
      upper-cased query ignoring case. */
  function CodeIndex(mods: seq<Mod>, q: string): (r: Option<nat>)
    ensures r.Some? ==>
              && r.value < |mods| && EqualsIgnoreCase(mods[r.value].code, q)
              && forall k :: 0 <= k < r.value ==> !EqualsIgnoreCase(mods[k].code, q)
    ensures r.None? <==> NoCodeMatch(mods, q)
  {
    CodeMatchesUpper(q);
    Seqs.FirstIndex(mods, (m: Mod) => EqualsIgnoreCase(m.code, Upper(q)))
  }

  /** The name pass: the count of name matches decides. */
  function NameResolution(named: seq<Mod>): (r: TimetableMatch)
    ensures !r.ByCode?
    ensures r.ByName? <==> |named| == 1
    ensures r.ByName? ==> named == [r.mod]
    ensures r.AmbiguousName? <==> |named| > 1
    ensures r.AmbiguousName? ==> r.candidates == named
  {
    if |named| > 1 then AmbiguousName(named)
    else if |named| == 1 then ByName(named[0])
    else NoMatch
  }

  /** No mod's code equals `q` ignoring case. */
  predicate NoCodeMatch(mods: seq<Mod>, q: string) {
    forall x :: x in mods ==> !EqualsIgnoreCase(x.code, q)
  }

  /** A mod held twice under a name equal to the query, with no code match,
      makes the name lookup ambiguous: the name filter keeps both copies. */
  lemma {:induction false} DuplicateNameIsAmbiguous(mods: seq<Mod>, q: string, x: Mod)
    requires multiset(mods)[x] >= 2 && EqualsIgnoreCase(x.name, q)
    requires NoCodeMatch(mods, q)
    ensures ResolveInTimetable(mods, q).AmbiguousName?
  {
    Seqs.MultiplicityBound(ModsNamed(mods, q), x);
  }

  /** Comparing codes with the upper-cased query is comparing them with the query. */
  lemma CodeMatchesUpper(q: string)
    ensures forall x: Mod :: EqualsIgnoreCase(x.code, Upper(q)) <==> EqualsIgnoreCase(x.code, q)
  {
    forall x: Mod {
      EqualsIgnoreCaseUpper(x.code, q);
    }
  }

  /** The mods whose name equals `q` ignoring case, in list order, each as
      often as the timetable holds it. */
  function ModsNamed(mods: seq<Mod>, q: string): (r: seq<Mod>)
    ensures forall x :: x in r <==> x in mods && EqualsIgnoreCase(x.name, q)
    ensures forall x :: multiset(r)[x] == if EqualsIgnoreCase(x.name, q) then multiset(mods)[x] else 0
  {
    var r := Seqs.Filter(mods, (m: Mod) => EqualsIgnoreCase(m.name, q));
    forall x ensures multiset(r)[x] == if EqualsIgnoreCase(x.name, q) then multiset(mods)[x] else 0 {
      Seqs.FilterMultiplicity(mods, (m: Mod) => EqualsIgnoreCase(m.name, q), x);
    }
    assert forall x :: x in mods && EqualsIgnoreCase(x.name, q) ==> x in r by {
      forall x | x in mods && EqualsIgnoreCase(x.name, q) ensures x in r {
        var j :| 0 <= j < |mods| && mods[j] == x;
      }
    }
    r
  }

  /** `timetable/RemoveModFromTimetableCommand.execute`: matches only the mods
      already in the named timetable, and removes the mod it settles on. */
  function RemoveModCommand(u: User, argument: string): (r: RemoveResult)
    ensures r.outcome.RemoveUsage? <==> ' ' !in argument
    ensures !r.outcome.Removed? ==> r.user == u
    ensures r.outcome.RemoveNoTimetable? ==> !HasTimetable(u, r.outcome.timetable)
    ensures r.outcome.Removed? ==>
              && HasTimetable(u, r.outcome.timetable)
              && r.outcome.mod in ModsOf(u, r.outcome.timetable)
              && r.user == RemoveModFromTimetable(u, r.outcome.timetable, r.outcome.mod).0
    ensures SplitOnce(argument).Some? && !HasTimetable(u, SplitOnce(argument).value.0) ==>
              r.outcome == RemoveNoTimetable(SplitOnce(argument).value.0)
    ensures SplitOnce(argument).Some? && HasTimetable(u, SplitOnce(argument).value.0) ==>
              var (t, q) := SplitOnce(argument).value;
              match ResolveInTimetable(ModsOf(u, t), q)
              case ByCode(m) => r.outcome == Removed(t, m)
              case ByName(m) => r.outcome == Removed(t, m)
              case AmbiguousName(c) => r.outcome == RemoveAmbiguous(c)
              case NoMatch => r.outcome == NotInTimetable(q, t)
  {
    match SplitOnce(argument)
    case None => RemoveResult(RemoveUsage, u)
    case Some((timetable, query)) =>
      if !HasTimetable(u, timetable) then
        RemoveResult(RemoveNoTimetable(timetable), u)
      else
        var found := ResolveInTimetable(ModsOf(u, timetable), query);
        if found.ByCode? || found.ByName? then
          RemoveResult(Removed(timetable, found.mod), RemoveModFromTimetable(u, timetable, found.mod).0)
        else if found.AmbiguousName? then
          RemoveResult(RemoveAmbiguous(found.candidates), u)
        else
          RemoveResult(NotInTimetable(query, timetable), u)
  }

  /** `removemod <timetable> <name>` on a timetable that holds the named mod
      twice reports ambiguity and removes nothing. */
  lemma RemoveDuplicateIsAmbiguous(u: User, argument: string, x: Mod)
    requires SplitOnce(argument).Some? && HasTimetable(u, SplitOnce(argument).value.0)
    requires var (t, q) := SplitOnce(argument).value;
             && multiset(ModsOf(u, t))[x] >= 2 && EqualsIgnoreCase(x.name, q)
             && NoCodeMatch(ModsOf(u, t), q)
    ensures RemoveModCommand(u, argument).outcome.RemoveAmbiguous?
    ensures RemoveModCommand(u, argument).user == u
  {
    var (t, q) := SplitOnce(argument).value;
    DuplicateNameIsAmbiguous(ModsOf(u, t), q, x);
  }
}
