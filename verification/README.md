# ModMate core in Dafny

ModMate is a command-line course planner. A user looks up courses ("mods") in
per-academic-year catalogs, keeps named timetables of mods and breaks, and
bookmarks mods. This project models the decision logic of that planner as pure
Dafny functions and proves properties about them:

- **Catalog and resolver** (`command_center.dfy`). The catalog is
  `allModCodesAndNamesByYear`, one code-to-summary map per year.
  `modFromCodeOrName` resolves a query in two passes: first the upper-cased
  query as a key, then a case-insensitive name. The token joiner
  `stringFromBetweenPartsXY` (both overloads) lives here too.
- **User** (`user.dfy`). Timetables are looked up by name ignoring case, and
  every operation acts on the first match. Bookmarks never hold the same mod
  twice.
- **Timetable commands** (`timetable_commands.dfy`). These are `addmod` and
  `removemod` in `command/timetable/`. Their printed messages are outcome
  values.
- **Catalog commands** (`catalog_commands.dfy`). `searchmod` is a substring
  search across all loaded years. `viewallmods` shows one year, loading it on
  first use and listing it sorted by code.
- **Command parser** (`command_parser.dfy`). This is the token-to-command table
  of `CommandParser.parse`.
- **Console helpers** (`shell.dfy`). These are the pure helpers of `Main`:
  input normalisation, argument-count validation, course lookup over the sample
  list, and the handlers built on them.
- **Supporting modules.** `text.dfy` holds the `java.lang.String` behaviour the
  code relies on: ASCII case folding, `trim`, `contains`, `split(" ", n)`,
  `compareTo`, `String.valueOf` and `Integer.parseInt`. `seqs.dfy` holds the
  linear scans, filters and `List.remove`. `mods.dfy` holds the records, the
  year maps and the sort by key. `options.dfy` holds `Option`.

Modelling choices:

- **Map order.** A Java `HashMap` is modelled as the sequence of its entries in
  iteration order. Where `put` adds a new year, the caller chooses its
  position, and the years already present keep their relative order. A real
  `HashMap` can also reorder existing entries when it resizes (for example on
  the 13th year key with the default capacity); that reordering is not
  modelled. Every property proved holds for every order the model allows.
- **Outside calls.** The network fetches are function parameters:
  `NUSModsAPI.fetchModuleByCode`, and `fetchAllModCodes` with and without a
  year. So is the current academic year from the clock. Printing becomes an
  outcome datatype, and logging is dropped.
- **`Schedule`.** Its class is not part of this model. A schedule is its name,
  its mods in insertion order and its breaks:
  - `addMod` and `addBreak` append;
  - `removeMod` drops the first equal mod, as `List.remove(Object)` does.
- **Behaviour kept as the code has it.**
  - `modFromCodeOrName` stops at the first name match in iteration order
    (`break outer`). It never collects candidates or reports ambiguity. Only
    `addmod` and `removemod` report several name matches, and only within the
    single map or timetable they search.
  - Year maps are searched in `HashMap` order, not insertion order.
  - An unknown command token is the `IllegalArgumentException` of the
    `default` case. It is modelled as an `InvalidInput` outcome that carries
    the exception's message.
  - `addBookmark` (User.java:89) skips a mod that `bookmarks.contains`, so
    bookmarks are de-duplicated by `Mod.equals`.
- **Assumptions about classes outside this model.**
  - `Schedule.java` is not part of this model. The model takes `addMod` to
    append without a duplicate check, so `removemod` by the name of a mod
    added twice reports ambiguity
    (`TimetableCommands.RemoveDuplicateIsAmbiguous`).
  - `Mod.java` is not part of this model. The model takes `Mod.equals` to be
    structural equality.
- **`removemod` and `getTimetable`.** `removemod` reads
  `getTimetable(name).getMods()`, but `User.getTimetable` in `User.java`
  returns a rendered `String`. The model reads the mods of the schedule that
  `getTimetable` finds. That is the first schedule named like the argument.

## Model

| member | source | states |
|---|---|---|
| CommandCenter.InitialCatalog | src/main/java/modmate/CommandCenter.java:17-21 | the start-up catalog has exactly one year: `get` of the decimal rendering of the current year returns the current year's map |
| CommandCenter.GetYear | src/main/java/modmate/command/ViewAllModsCommand.java:34 | `get(year)` answers exactly for loaded years and returns the map stored under that year |
| CommandCenter.InsertYear | src/main/java/modmate/command/ViewAllModsCommand.java:27-31 | `put` of a year not yet loaded adds one entry: `get` of that year returns the new map, `get` of every other year is unchanged, and unique year keys stay unique, wherever the hash order places the entry |
| CommandCenter.FirstYearWithKey | src/main/java/modmate/CommandCenter.java:56-61 | the code pass stops at a year whose map has the key, and no earlier year has it; it finds nothing only when no year has the key |
| CommandCenter.NamePassIsFirstMatch | src/main/java/modmate/CommandCenter.java:63-73 | the nested loops with the labelled break find the same summary as one scan over all summaries, years first, for the first case-insensitive name match |
| CommandCenter.ResolveByCode | src/main/java/modmate/CommandCenter.java:51-76 | when some year has the upper-cased query as a key, the result is the fetch of the summary stored under that key in the first such year, whatever the names say |
| CommandCenter.ResolveByName | src/main/java/modmate/CommandCenter.java:51-76 | when no year has the key, the result is the fetch of the first summary, years then entries, whose name equals the query ignoring case |
| CommandCenter.ResolveNothing | src/main/java/modmate/CommandCenter.java:51-76 | with no key hit and no name match the resolver returns empty |
| CommandCenter.ResolvedFromFetch | src/main/java/modmate/CommandCenter.java:51-76 | any resolved mod is the detail fetch of some summary loaded in the catalog |
| CommandCenter.BetweenFromTail | src/main/java/modmate/CommandCenter.java:87-89 | the two-argument overload from index 1 joins every remaining part with single spaces, giving "" for a lone command word |
| CommandCenter.JoinBetween | src/main/java/modmate/CommandCenter.java:100-113 | the `StringBuilder` loop returns "" for an empty array or bounds out of order, and otherwise the parts from x up to y joined by single spaces |
| CommandCenter.BetweenSplits | src/main/java/modmate/CommandCenter.java:100-113 | when no part holds a space, splitting the joined slice gives back exactly the parts from x up to y |
| Mods.Lookup | src/main/java/modmate/CommandCenter.java:57-58 | `get(key)` answers exactly when the map contains the key, and the answer is the summary stored under it |
| Mods.SortByKey | src/main/java/modmate/command/ViewAllModsCommand.java:42-47 | `sorted(comparingByKey())` yields the same entries (as a multiset) in ascending `compareTo` order of their keys |
| UserStore.NewUser | src/main/java/modmate/user/User.java:16-19 | a new user has no timetables and no bookmarks and is valid |
| UserStore.AddTimetable | src/main/java/modmate/user/User.java:22-32 | a timetable is added, empty and at the end, exactly when no existing name equals the new one ignoring case; otherwise nothing changes; bookmarks are untouched and validity is kept |
| UserStore.AddTimetableCaseClash | src/main/java/modmate/user/User.java:22-32 | creating a name and then the same name in another letter case never creates the second |
| UserStore.GetTimetable | src/main/java/modmate/user/User.java:35-42 | shows the first timetable named like the argument, ignoring case, when there is one, and otherwise the message "Timetable '<name>' not found" |
| UserStore.AddModToTimetable | src/main/java/modmate/user/User.java:44-52 | appends the mod to the first matching timetable only; every other timetable, that timetable's name and breaks, and the bookmarks are unchanged; with no match nothing changes |
| UserStore.HasTimetable | src/main/java/modmate/user/User.java:54-61 | true exactly when some timetable's name equals the argument ignoring case |
| UserStore.RemoveModFromTimetable | src/main/java/modmate/user/User.java:63-71 | removes one occurrence of the mod (multiset difference) from the first matching timetable only; everything else is unchanged; with no match nothing changes |
| UserStore.AddBreakToTimetable | src/main/java/modmate/user/User.java:73-81 | returns true exactly when a timetable matches; only then, and only in the first match, is the break appended; the other timetables and the bookmarks are unchanged |
| UserStore.TimetableOperationsKeepValid | src/main/java/modmate/user/User.java:44-81 | adding a mod, removing a mod and adding a break keep timetable names unique ignoring case and the bookmarks duplicate-free |
| UserStore.AddBookmark | src/main/java/modmate/user/User.java:88-92 | afterwards the mod is bookmarked; the old bookmarks stay in place as a prefix with at most the new mod after them; an already bookmarked mod changes nothing, and no duplicate is introduced |
| UserStore.AddBookmarkIdempotent | src/main/java/modmate/user/User.java:88-92 | bookmarking twice is bookmarking once |
| UserStore.RemoveBookmark | src/main/java/modmate/user/User.java:94-96 | drops the first occurrence and keeps the order of the rest; a mod not bookmarked changes nothing; on duplicate-free bookmarks the mod is gone afterwards |
| UserStore.RemoveAfterAddBookmark | src/main/java/modmate/user/User.java:88-96 | removing a freshly added bookmark restores the bookmarks exactly |
| Text.SplitOnce | src/main/java/modmate/command/timetable/AddModToTimetableCommand.java:45-52 | `split(" ", 2)` gives two parts exactly when the argument holds a space; the first part has no space, and the two parts rejoined with one space give the argument back |
| TimetableCommands.NameMatchesIn | src/main/java/modmate/command/timetable/AddModToTimetableCommand.java:69-73 | the name filter keeps exactly the summaries whose name equals the query ignoring case, each as many times as the map holds it, so its size is the count the command branches on |
| TimetableCommands.ResolveInCatalog | src/main/java/modmate/command/timetable/AddModToTimetableCommand.java:60-88 | a key hit whose fetch succeeds wins; otherwise exactly one name match is fetched (a failed fetch is its own outcome), more than one is reported as ambiguous with the filtered list as candidates, and none is reported as not found |
| TimetableCommands.SameNameIsAmbiguous | src/main/java/modmate/command/timetable/AddModToTimetableCommand.java:69-80 | two different summaries whose names equal the query ignoring case make `addmod` ambiguous when the query is not a fetchable code |
| TimetableCommands.AddModCommand | src/main/java/modmate/command/timetable/AddModToTimetableCommand.java:44-91 | usage is reported exactly when the argument has no space; an unknown timetable is reported by name; otherwise the resolution decides the outcome; only a resolved mod changes the user, by appending it to the named timetable |
| Seqs.FilterMultiplicity | src/main/java/modmate/command/timetable/RemoveModFromTimetableCommand.java:71-73 | `stream().filter(..).toList()` keeps each element that passes the filter as many times as the list holds it, and no other element |
| TimetableCommands.ModsNamed | src/main/java/modmate/command/timetable/RemoveModFromTimetableCommand.java:71-73 | the name filter keeps exactly the timetable's mods whose name equals the query ignoring case, each as many times as the timetable holds it |
| TimetableCommands.ResolveInTimetable | src/main/java/modmate/command/timetable/RemoveModFromTimetableCommand.java:60-86 | the first mod whose code equals the query ignoring case wins; otherwise exactly one name match is chosen, more than one is reported as ambiguous with the filtered list as candidates, and none means no mod of the timetable matches by code or name |
| TimetableCommands.DuplicateNameIsAmbiguous | src/main/java/modmate/command/timetable/RemoveModFromTimetableCommand.java:71-80 | a mod held twice whose name equals the query, with no code match, makes the name lookup ambiguous |
| TimetableCommands.RemoveDuplicateIsAmbiguous | src/main/java/modmate/command/timetable/RemoveModFromTimetableCommand.java:43-87 | `removemod` by the name of a mod the timetable holds twice reports ambiguity and leaves the user unchanged |
| TimetableCommands.RemoveModCommand | src/main/java/modmate/command/timetable/RemoveModFromTimetableCommand.java:43-87 | usage is reported exactly when the argument has no space; an unknown timetable is reported by name; a chosen mod is one of the timetable's mods and is removed from it; every other outcome leaves the user unchanged |
| CatalogCommands.FetchAll | src/main/java/modmate/command/SearchModCommand.java:49-50 | a mod is fetched exactly when some given summary fetches to it, and there are no more mods than summaries |
| CatalogCommands.FetchAllMultiplicity | src/main/java/modmate/command/SearchModCommand.java:49-50 | each mod occurs in the fetched list exactly once per summary that fetches to it: one per successful fetch, none for an empty one |
| CatalogCommands.FetchAllAppend | src/main/java/modmate/command/SearchModCommand.java:49-50 | fetching a concatenation of summaries gives the first part's fetches followed by the second's, so the fetched list keeps the summaries' order |
| CatalogCommands.SearchResultsIff | src/main/java/modmate/command/SearchModCommand.java:42-52 | a mod is a result exactly when some loaded summary contains the lower-cased query in its lower-cased name or code and fetches to that mod |
| CatalogCommands.SearchIgnoresCase | src/main/java/modmate/command/SearchModCommand.java:46-48 | queries equal ignoring case give identical results |
| CatalogCommands.SearchConcatenatesYears | src/main/java/modmate/command/SearchModCommand.java:44-51 | results follow the years' iteration order without de-duplication: the results over two groups of years are the first group's followed by the second's |
| CatalogCommands.SearchModCommand | src/main/java/modmate/command/SearchModCommand.java:19-40 | usage exactly when there are fewer than two arguments; otherwise the listed mods are the search results for the trimmed second argument, in year order and not de-duplicated, and a mod is listed exactly when a hit fetches to it; "no mods found" exactly when none of the hits fetches |
| CatalogCommands.EnsureYear | src/main/java/modmate/command/ViewAllModsCommand.java:27-31 | afterwards the year is loaded; a loaded year leaves the catalog as it was; a new year maps to the fetched map; other years are unchanged |
| CatalogCommands.Show | src/main/java/modmate/command/ViewAllModsCommand.java:34-47 | an empty map gives "no module data"; otherwise the listing is that map's entries sorted by key |
| CatalogCommands.ViewAllModsCommand | src/main/java/modmate/command/ViewAllModsCommand.java:19-77 | with two arguments the second names the year, otherwise the current year is used; a year not yet loaded is fetched (through `parseInt` for an explicit year, whose failure changes nothing) and cached; other years are untouched; the listing is the year's map sorted by code, or "no data" for an empty map |
| CatalogCommands.ViewAllModsIdempotent | src/main/java/modmate/command/ViewAllModsCommand.java:19-77 | for every input, including a year `parseInt` rejects, a second identical call fetches nothing and repeats the outcome on the catalog the first left behind |
| Text.ParseIntNatToString | src/main/java/modmate/command/ViewAllModsCommand.java:29 | `Integer.parseInt` of the decimal rendering of a non-negative 32-bit year gives the year back |
| Text.EqualsIgnoreCaseUpper | src/main/java/modmate/command/timetable/RemoveModFromTimetableCommand.java:62-64 | comparing codes ignoring case against the upper-cased query is comparing against the query itself |
| Text.ContainsIff | src/main/java/modmate/command/SearchModCommand.java:47-48 | `contains` holds exactly when the needle occurs at some offset |
| CommandParser.Parse | src/main/java/modmate/ui/CommandParser.java:23-47 | a parsed command has the input's word as its token and carries the whole input; the input is rejected with "Input error: Invalid input" exactly when no command's token equals the word |
| CommandParser.ParseToken | src/main/java/modmate/ui/CommandParser.java:27-44 | with pairwise different tokens, each command's own token builds that command |
| CommandParser.ParseKnownTokens | src/main/java/modmate/ui/CommandParser.java:27-44 | "addmod", "removemod" and "exit" build the add, remove and exit commands |
| Text.Trim | src/main/java/modmate/Main.java:57 | the trimmed string neither starts nor ends with a char up to U+0020 |
| Text.TrimKeepsInfix | src/main/java/modmate/Main.java:57 | `trim` keeps an infix of the line, and everything it drops on either side is a char up to U+0020 |
| Shell.NormalizeInput | src/main/java/modmate/Main.java:57-60 | the trimmed, lower-cased line splits into one to three parts, none but the last holding a space, which rejoined with single spaces give the normalised line back |
| Text.JoinSplit | src/main/java/modmate/Main.java:60 | joining the parts of `split(" ", n)` with single spaces gives the input back, empty parts included |
| Text.SplitLength | src/main/java/modmate/Main.java:60 | `split(" ", n)` yields the smaller of n and one more than the number of spaces |
| Shell.ValidateNormalized | src/main/java/modmate/Main.java:301-307 | a normalised line passes the three-part check exactly when it holds at least two spaces, and the two-part check exactly when it holds at least one |
| Shell.CourseFromCodeOrName | src/main/java/modmate/Main.java:99-106 | the first course whose trimmed name or trimmed code equals the query ignoring case, and no course exactly when none matches |
| Shell.ArgumentIsRestOfLine | src/main/java/modmate/Main.java:108-110 | the two-argument joiner from index 1 gives back the normalised line after its first space exactly |
| Shell.CourseHandler | src/main/java/modmate/Main.java:184-220 | with fewer than three parts the arguments are invalid; otherwise the timetable is the trimmed second part and the query is the rest; the first course in list order matching the query becomes the add or remove request, and no match is reported with the query |
| Shell.CreateTimetableHandler | src/main/java/modmate/Main.java:228-236 | with two parts the rest of the line becomes a new timetable exactly when no name equals it ignoring case, appended after the existing ones with the bookmarks unchanged; otherwise nothing changes |
| Shell.ViewTimetableHandler | src/main/java/modmate/Main.java:244-251 | with two parts, shows the first timetable whose name equals the rest of the line ignoring case, or else the message "Timetable '<name>' not found" |

## Left out

- Network and clock: `NUSModsAPI` fetches and `NUSModsUtil.getAdjustedYear` are parameters. The JSON parsing behind them (`ModAttrJSONParser`) is not part of this model.
- Console output and logging: messages become outcome values, and `LogUtil`/`Log` calls are dropped. Help, syntax and usage strings are not modelled.
- `Main.main` (lines 40-83): the read loop, the `switch` dispatch and the `--log` flag scan are I/O around the modelled helpers.
- `Main.viewCourse`, `bookmark`, `getBookmarks`, `viewAllCourses`, `searchCourses` and `getSearchResults`: printing only, or stubs that return `null`.
- `User.addCourseToTimetable` / `removeCourseFromTimetable`, which Main's handlers call, are not methods of `User.java`. `Shell.CourseHandler` therefore returns the request it would make instead of a changed user.
- `CommandCenter.handleCommand` and `CommandLine.getCommand`: `CommandLine` is not part of this model.
- `ExitCommand.execute`: it only prints; only its token is modelled.
- `command/RemoveModFromTimetableCommand.java` is the older copy that the `command/timetable` version replaces, and it is not modelled separately.
- Unicode: case folding is ASCII only. Java's full Unicode `toUpperCase`/`toLowerCase` (for example the German sharp s) and supplementary characters are not modelled.
- `null`: arrays, maps and strings are never `null` in the model. A `null` map from `fetchAllModCodes` is treated as an empty map. For `viewallmods` that gives the same "no module data" outcome, but in the source a cached `null` map also makes `modFromCodeOrName` (CommandCenter.java:57) and `getSearchResults` (SearchModCommand.java:45) throw `NullPointerException`, which the model does not reproduce.
- The Java `assert` in `SearchModCommand.execute` (line 27) is not modelled, because assertions are off by default.
- Text.ParseInt: the contract states the 32-bit range and the sign-and-digits shape only. The value is pinned through `Text.ParseIntNatToString`. Java also accepts non-ASCII Unicode digits, which are not modelled.
- CommandParser.Parse: the tokens of commands whose classes are not part of this model are a `TokenTable` parameter. `CommandParser.java` imports `SearchModCommand` and `ViewAllModsCommand` from the packages `command.search` and `command.mod`, which are not part of this model; their tokens are taken to be those of `command/SearchModCommand.java` and `command/ViewAllModsCommand.java` ("searchmod" and "viewallmods").
- CatalogCommands.ViewAllModsCommand: a year string that `parseInt` accepts (such as "+2024" or "02024") is cached under that string, exactly as written. The model does not relate it to the current year's key.
