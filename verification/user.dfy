/** `User`: a user's named timetables and bookmarked mods. Timetable names are
    compared ignoring case and every lookup acts on the first match only.
    The `Schedule` internals are not part of this model: a schedule is a name,
    its mods in insertion order and its breaks, with `addMod` and `addBreak`
    appending and `removeMod` dropping the first equal mod. */
module UserStore {
  import opened Options
  import opened Text
  import opened Mods
  import Seqs

  /** A `BreakPeriod`; its fields are never inspected by the core. */
  datatype BreakPeriod = BreakPeriod(name: string, day: string, startTime: string, endTime: string)

  /** A `Schedule` (timetable). */
  datatype Schedule = Schedule(name: string, mods: seq<Mod>, breaks: seq<BreakPeriod>)

  datatype User = User(timetables: seq<Schedule>, bookmarks: seq<Mod>)

  /** `new User()`. */
  function NewUser(): (u: User)
    ensures Valid(u) && |u.timetables| == 0 && |u.bookmarks| == 0
  {
    User([], [])
  }

  /** Timetable names are pairwise different ignoring case, and no bookmark is
      held twice. */
  predicate Valid(u: User) {
    && (forall i, j :: 0 <= i < j < |u.timetables| ==>
          !EqualsIgnoreCase(u.timetables[i].name, u.timetables[j].name))
    && Seqs.NoDup(u.bookmarks)
  }

  predicate NamedLike(t: Schedule, name: string) {
    EqualsIgnoreCase(t.name, name)
  }

  /** Index of the first timetable whose name equals `name` ignoring case, as
      each of `User`'s loops finds it. */
  function FindTimetable(u: User, name: string): (r: Option<nat>)
    ensures r.Some? ==> r.value < |u.timetables| && NamedLike(u.timetables[r.value], name)
    ensures r.Some? ==> forall j :: 0 <= j < r.value ==> !NamedLike(u.timetables[j], name)
    ensures r.None? <==> forall j :: 0 <= j < |u.timetables| ==> !NamedLike(u.timetables[j], name)
  {
    Seqs.FirstIndex(u.timetables, (t: Schedule) => NamedLike(t, name))
  }

  /** `hasTimetable`. */
  function HasTimetable(u: User, name: string): (r: bool)
    ensures r <==> exists i :: 0 <= i < |u.timetables| && EqualsIgnoreCase(u.timetables[i].name, name)
  {
    var k := FindTimetable(u, name);
    assert k.Some? ==> NamedLike(u.timetables[k.value], name);
    k.Some?
  }

  /** What `getTimetable` shows: the first matching schedule (whose rendering is
      not modelled), or the not-found message. */
  datatype TimetableView = Shown(schedule: Schedule) | Missing(message: string)

  /** `getTimetable`. */
  function GetTimetable(u: User, name: string): (r: TimetableView)
    ensures r.Shown? <==> HasTimetable(u, name)
    ensures r.Shown? ==> exists i: nat :: IsFirstMatch(u, name, i) && r.schedule == u.timetables[i]
    ensures r.Missing? ==> r.message == "Timetable '" + name + "' not found"
  {
    match FindTimetable(u, name)
    case Some(i) => Shown(u.timetables[i])
    case None => Missing("Timetable '" + name + "' not found")
  }

  /** `i` is the position of the first timetable named like `name`. */
  predicate IsFirstMatch(u: User, name: string, i: nat) {
    && i < |u.timetables|
    && NamedLike(u.timetables[i], name)
    && forall j :: 0 <= j < i ==> !NamedLike(u.timetables[j], name)
  }

  /** `addTimetable`: registers a new empty schedule unless one with the same
      name ignoring case exists. The flag says whether it was created. */
  function AddTimetable(u: User, name: string): (r: (User, bool))
    ensures r.1 <==> !HasTimetable(u, name)
    ensures r.1 ==> r.0.timetables == u.timetables + [Schedule(name, [], [])]
    ensures !r.1 ==> r.0 == u
    ensures r.0.bookmarks == u.bookmarks
    ensures Valid(u) ==> Valid(r.0)
  {
    if HasTimetable(u, name) then (u, false)
    else (u.(timetables := u.timetables + [Schedule(name, [], [])]), true)
  }

  /** Applies `f` to the first timetable named like `name`; the flag says whether
      one was found. */
  function UpdateFirst(u: User, name: string, f: Schedule -> Schedule): (r: (User, bool))
    ensures r.1 <==> HasTimetable(u, name)
    ensures !r.1 ==> r.0 == u
    ensures r.0.bookmarks == u.bookmarks
    ensures |r.0.timetables| == |u.timetables|
    ensures forall i: nat :: IsFirstMatch(u, name, i) ==>
              r.0.timetables == u.timetables[i := f(u.timetables[i])]
  {
    match FindTimetable(u, name)
    case None => (u, false)
    case Some(i) => (u.(timetables := u.timetables[i := f(u.timetables[i])]), true)
  }

  /** `addModToTimetable`: appends `m` to the first matching timetable only.
      The flag is false when no timetable matched (the source prints a notice). */
  function AddModToTimetable(u: User, name: string, m: Mod): (r: (User, bool))
    ensures r.1 <==> HasTimetable(u, name)
    ensures !r.1 ==> r.0 == u
    ensures r.0.bookmarks == u.bookmarks
    ensures forall i: nat :: IsFirstMatch(u, name, i) ==>
              && |r.0.timetables| == |u.timetables|
              && r.0.timetables[i].name == u.timetables[i].name
              && r.0.timetables[i].mods == u.timetables[i].mods + [m]
              && r.0.timetables[i].breaks == u.timetables[i].breaks
              && forall j :: 0 <= j < |u.timetables| && j != i ==> r.0.timetables[j] == u.timetables[j]
  {
    UpdateFirst(u, name, (t: Schedule) => t.(mods := t.mods + [m]))
  }

  /** `removeModFromTimetable`: drops the first occurrence of `m` from the first
      matching timetable only. */
  function RemoveModFromTimetable(u: User, name: string, m: Mod): (r: (User, bool))
    ensures r.1 <==> HasTimetable(u, name)
    ensures !r.1 ==> r.0 == u
    ensures r.0.bookmarks == u.bookmarks
    ensures forall i: nat :: IsFirstMatch(u, name, i) ==>
              && |r.0.timetables| == |u.timetables|
              && r.0.timetables[i].name == u.timetables[i].name
              && multiset(r.0.timetables[i].mods) == multiset(u.timetables[i].mods) - multiset{m}
              && r.0.timetables[i].breaks == u.timetables[i].breaks
              && forall j :: 0 <= j < |u.timetables| && j != i ==> r.0.timetables[j] == u.timetables[j]
  {
    UpdateFirst(u, name, (t: Schedule) => t.(mods := Seqs.RemoveFirst(t.mods, m)))
  }

  /** `addBreakToTimetable`: true exactly when a timetable matched, and only then
      is the break appended to it. */
  function AddBreakToTimetable(u: User, name: string, b: BreakPeriod): (r: (User, bool))
    ensures r.1 <==> HasTimetable(u, name)
    ensures !r.1 ==> r.0 == u
    ensures r.0.bookmarks == u.bookmarks
    ensures forall i: nat :: IsFirstMatch(u, name, i) ==>
              && |r.0.timetables| == |u.timetables|
              && r.0.timetables[i] == u.timetables[i].(breaks := u.timetables[i].breaks + [b])
              && forall j :: 0 <= j < |u.timetables| && j != i ==> r.0.timetables[j] == u.timetables[j]
  {
    UpdateFirst(u, name, (t: Schedule) => t.(breaks := t.breaks + [b]))
  }

  /** A schedule update that keeps the name keeps the user valid. */
  lemma UpdateFirstKeepsValid(u: User, name: string, f: Schedule -> Schedule)
    requires Valid(u)
    requires forall t :: f(t).name == t.name
    ensures Valid(UpdateFirst(u, name, f).0)
  {
    var r := UpdateFirst(u, name, f).0;
    assert forall i :: 0 <= i < |r.timetables| ==> r.timetables[i].name == u.timetables[i].name;
  }

  /** Every timetable operation preserves validity. */
  lemma TimetableOperationsKeepValid(u: User, name: string, m: Mod, b: BreakPeriod)
    requires Valid(u)
    ensures Valid(AddModToTimetable(u, name, m).0)
    ensures Valid(RemoveModFromTimetable(u, name, m).0)
    ensures Valid(AddBreakToTimetable(u, name, b).0)
  {
    UpdateFirstKeepsValid(u, name, (t: Schedule) => t.(mods := t.mods + [m]));
    UpdateFirstKeepsValid(u, name, (t: Schedule) => t.(mods := Seqs.RemoveFirst(t.mods, m)));
    UpdateFirstKeepsValid(u, name, (t: Schedule) => t.(breaks := t.breaks + [b]));
  }

  /** Creating a timetable whose name differs only in case from an existing one
      changes nothing. */
  lemma AddTimetableCaseClash(u: User, name: string, other: string)
    requires EqualsIgnoreCase(name, other)
    ensures AddTimetable(AddTimetable(u, name).0, other).1 == false
  {
    var v := AddTimetable(u, name).0;
    if HasTimetable(u, name) {
      var i :| 0 <= i < |u.timetables| && EqualsIgnoreCase(u.timetables[i].name, name);
      assert EqualsIgnoreCase(v.timetables[i].name, other);
    } else {
      assert EqualsIgnoreCase(v.timetables[|u.timetables|].name, other);
    }
  }

  // ---------------------------------------------------------------- bookmarks

  /** `addBookmark`: appends `m` unless it is already bookmarked. */
  function AddBookmark(u: User, m: Mod): (r: User)
    ensures r.timetables == u.timetables
    ensures m in r.bookmarks
    ensures u.bookmarks <= r.bookmarks && |r.bookmarks| <= |u.bookmarks| + 1
    ensures forall x :: x in r.bookmarks <==> x in u.bookmarks || x == m
    ensures m in u.bookmarks ==> r == u
    ensures Seqs.NoDup(u.bookmarks) ==> Seqs.NoDup(r.bookmarks)
  {
    if m in u.bookmarks then u else u.(bookmarks := u.bookmarks + [m])
  }

  /** Bookmarking twice is bookmarking once. */
  lemma AddBookmarkIdempotent(u: User, m: Mod)
    ensures AddBookmark(AddBookmark(u, m), m) == AddBookmark(u, m)
  {
  }

  /** `removeBookmark`: drops the first occurrence of `m`, keeping the order of
      the rest. */
  function RemoveBookmark(u: User, m: Mod): (r: User)
    ensures r.timetables == u.timetables
    ensures m !in u.bookmarks ==> r == u
    ensures multiset(r.bookmarks) == multiset(u.bookmarks) - multiset{m}
    ensures Seqs.NoDup(u.bookmarks) ==> m !in r.bookmarks && Seqs.NoDup(r.bookmarks)
    ensures forall k :: 0 <= k < |u.bookmarks| && u.bookmarks[k] == m && m !in u.bookmarks[..k] ==>
              r.bookmarks == u.bookmarks[..k] + u.bookmarks[k + 1..]
  {
    var rest := Seqs.RemoveFirst(u.bookmarks, m);
    assert Seqs.NoDup(u.bookmarks) ==> m !in rest && Seqs.NoDup(rest) by {
      if Seqs.NoDup(u.bookmarks) {
        Seqs.RemoveFirstNoDup(u.bookmarks, m);
      }
    }
    u.(bookmarks := rest)
  }

  /** Removing a freshly added bookmark restores the bookmarks. */
  lemma RemoveAfterAddBookmark(u: User, m: Mod)
    requires m !in u.bookmarks
    ensures RemoveBookmark(AddBookmark(u, m), m) == u
  {
    var b := u.bookmarks + [m];
    assert b[|u.bookmarks|] == m && b[..|u.bookmarks|] == u.bookmarks;
    assert b[|u.bookmarks| + 1..] == [];
  }
}
