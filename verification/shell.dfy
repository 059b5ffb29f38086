/** The pure helpers of the console front end (`Main`): input normalisation,
    argument-count validation, course lookup by code or name over the sample
    course list, and the handlers that turn a split line into a request on the
    user's timetables. */
module Shell {
  import opened Options
  import opened Text
  import opened CommandCenter
  import opened UserStore
  import Seqs

  /** A `Course` of the sample list. */
  datatype Course = Course(code: string, name: string)

  /** `line.trim().toLowerCase().split(" ", 3)`: the command word and at most
      two further parts. */
  function NormalizeInput(line: string): (r: seq<string>)
    ensures 1 <= |r| <= 3
    ensures Join(r) == Lower(Trim(line))
    ensures forall i :: 0 <= i < |r| - 1 ==> ' ' !in r[i]
  {
    JoinSplit(Lower(Trim(line)), 3);
    SplitPartsHaveNoSpace(Lower(Trim(line)), 3);
    Split(Lower(Trim(line)), 3)
  }

  /** After the command word, the two-argument overload of the joiner gives
      back the rest of the normalised line exactly. */
  lemma ArgumentIsRestOfLine(line: string)
    requires ' ' in Lower(Trim(line))
    ensures var s := Lower(Trim(line));
            BetweenFrom(NormalizeInput(line), 1) == s[IndexOf(s, ' ').value + 1..]
  {
    var s := Lower(Trim(line));
    var parts := NormalizeInput(line);
    assert parts == Split(s, 3);
    JoinSplitTail(s, 3, IndexOf(s, ' ').value);
    BetweenFromTail(parts);
  }

  /** `validateInputLength`: false exactly when there are fewer parts than
      expected. What that means for a typed line is `ValidateNormalized`. */
  function ValidateInputLength(parts: seq<string>, expected: int): bool {
    !(|parts| < expected)
  }

  /** A normalised line has the three parts `addmod` and `removemod` need
      exactly when it holds at least two spaces, and the two parts of the
      one-argument commands exactly when it holds at least one. */
  lemma ValidateNormalized(line: string)
    ensures ValidateInputLength(NormalizeInput(line), 3) <==> Count(Lower(Trim(line)), ' ') >= 2
    ensures ValidateInputLength(NormalizeInput(line), 2) <==> Count(Lower(Trim(line)), ' ') >= 1
  {
    var s := Lower(Trim(line));
    SplitLength(s, 3);
    var n := |NormalizeInput(line)|;
    assert n == Min(Count(s, ' ') + 1, 3);
    assert ValidateInputLength(NormalizeInput(line), 3) == (3 <= n);
    assert ValidateInputLength(NormalizeInput(line), 2) == (2 <= n);
  }

  /** The course matches the query on its trimmed name or trimmed code, ignoring case. */
  predicate CourseMatches(c: Course, q: string) {
    EqualsIgnoreCase(Trim(c.name), q) || EqualsIgnoreCase(Trim(c.code), q)
  }

  /** `courseFromCodeOrName`: the first course in list order that matches on
      name or code; `None` is the `null` return. */
  function CourseFromCodeOrName(courses: seq<Course>, q: string): (r: Option<Course>)
    ensures r.Some? ==> exists i :: 0 <= i < |courses| && courses[i] == r.value && CourseMatches(courses[i], q) &&
                          forall j :: 0 <= j < i ==> !CourseMatches(courses[j], q)
    ensures r.None? <==> forall i :: 0 <= i < |courses| ==> !CourseMatches(courses[i], q)
  {
    match Seqs.FirstIndex(courses, (c: Course) => CourseMatches(c, q))
    case Some(i) => Some(courses[i])
    case None => None
  }

  /** Which `User` call a handler ends in. */
  datatype Action = AddCourse | RemoveCourse

  datatype HandlerOutcome =
    | InvalidArguments
    | CourseNotFound(query: string)
    | Request(action: Action, timetable: string, course: Course)

  /** `addCourseToTimetable` / `removeCourseFromTimetable`: three parts needed;
      the timetable is the trimmed second part, the course query the rest.
      The user is changed only through the returned request, and not at all
      when the course is not found. */
  function CourseHandler(action: Action, parts: seq<string>, courses: seq<Course>): (r: HandlerOutcome)
    ensures r.InvalidArguments? <==> |parts| < 3
    ensures r.CourseNotFound? ==>
              && |parts| >= 3
              && r.query == BetweenFrom(parts, 2)
              && forall c :: c in courses ==> !CourseMatches(c, r.query)
    ensures r.Request? ==>
              && |parts| >= 3
              && r.action == action
              && r.timetable == Trim(parts[1])
              && exists i :: 0 <= i < |courses| && courses[i] == r.course &&
                   CourseMatches(courses[i], BetweenFrom(parts, 2)) &&
                   forall j :: 0 <= j < i ==> !CourseMatches(courses[j], BetweenFrom(parts, 2))
  {
    if !ValidateInputLength(parts, 3) then InvalidArguments
    else
      var timetable := Trim(parts[1]);
      var query := BetweenFrom(parts, 2);
      match CourseFromCodeOrName(courses, query)
      case None => CourseNotFound(query)
      case Some(c) => Request(action, timetable, c)
  }

  /** `createTimetable`: two parts needed; the name is everything after the
      command word. The flag says whether a timetable was created. */
  function CreateTimetableHandler(parts: seq<string>, u: User): (r: (User, bool))
    ensures |parts| < 2 ==> r == (u, false)
    ensures |parts| >= 2 ==> r.1 == !HasTimetable(u, BetweenFrom(parts, 1))
    ensures r.1 ==> r.0.timetables == u.timetables + [Schedule(BetweenFrom(parts, 1), [], [])]
    ensures !r.1 ==> r.0 == u
    ensures r.0.bookmarks == u.bookmarks
  {
    if !ValidateInputLength(parts, 2) then (u, false)
    else AddTimetable(u, BetweenFrom(parts, 1))
  }

  /** `viewTimetable`: two parts needed; shows the timetable named by the rest. */
  function ViewTimetableHandler(parts: seq<string>, u: User): (r: Option<TimetableView>)
    ensures r.None? <==> |parts| < 2
    ensures r.Some? ==> (r.value.Shown? <==> HasTimetable(u, BetweenFrom(parts, 1)))
    ensures r.Some? && r.value.Shown? ==>
              exists i: nat :: IsFirstMatch(u, BetweenFrom(parts, 1), i) && r.value.schedule == u.timetables[i]
    ensures r.Some? && r.value.Missing? ==>
              r.value.message == "Timetable '" + BetweenFrom(parts, 1) + "' not found"
  {
    if !ValidateInputLength(parts, 2) then None
    else Some(GetTimetable(u, BetweenFrom(parts, 1)))
  }
}
