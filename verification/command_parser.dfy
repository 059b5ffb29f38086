/** `CommandParser.parse`: the table from a command token to the command it
    builds. The tokens of `addmod`, `removemod`, `exit`, `searchmod` and
    `viewallmods` are fixed; those of the other commands are the `TokenTable`
    parameter, since their classes are not part of this model. */
module CommandParser {
  import Seqs

  datatype CommandKind =
    | Help | AddBreak | AddMod | Bookmark | GetBookmarks | SearchMod | ViewMod
    | RemoveBookmark | SetModLesson | ViewModLessons | RemoveMod | CreateTimetable
    | ViewTimetable | ViewAllMods | Exit

  /** A tokenized input line: the command word and the rest. */
  datatype Input = Input(command: string, argument: string)

  /** A command object, built from the whole input. */
  datatype Command = Command(kind: CommandKind, input: Input)

  /** The `CLI_REPRESENTATION` constants of the commands not modelled here. */
  datatype TokenTable = TokenTable(
    help: string, addBreak: string, bookmark: string, getBookmarks: string,
    viewMod: string, removeBookmark: string, setModLesson: string,
    viewModLessons: string, createTimetable: string, viewTimetable: string)

  /** Each command's `CLI_REPRESENTATION`. */
  function Token(t: TokenTable, k: CommandKind): string {
    match k
    case Help => t.help
    case AddBreak => t.addBreak
    case AddMod => "addmod"
    case Bookmark => t.bookmark
    case GetBookmarks => t.getBookmarks
    case SearchMod => "searchmod"
    case ViewMod => t.viewMod
    case RemoveBookmark => t.removeBookmark
    case SetModLesson => t.setModLesson
    case ViewModLessons => t.viewModLessons
    case RemoveMod => "removemod"
    case CreateTimetable => t.createTimetable
    case ViewTimetable => t.viewTimetable
    case ViewAllMods => "viewallmods"
    case Exit => "exit"
  }

  /** A Java `switch` needs pairwise different case labels. */
  predicate Distinct(t: TokenTable) {
    forall k1: CommandKind, k2: CommandKind :: Token(t, k1) == Token(t, k2) ==> k1 == k2
  }

  /** The cases of the switch, in source order. */
  const Cases: seq<CommandKind> := [
    Help, AddBreak, AddMod, Bookmark, GetBookmarks, SearchMod, ViewMod,
    RemoveBookmark, SetModLesson, ViewModLessons, RemoveMod, CreateTimetable,
    ViewTimetable, ViewAllMods, Exit]

  lemma CasesCoverAll(k: CommandKind)
    ensures k in Cases
  {
  }

  /** No case label equal to `c` means no command has `c` as its token. */
  lemma NoCaseMatches(t: TokenTable, c: string)
    requires forall j :: 0 <= j < |Cases| ==> Token(t, Cases[j]) != c
    ensures forall k: CommandKind :: Token(t, k) != c
  {
    forall k: CommandKind ensures Token(t, k) != c {
      CasesCoverAll(k);
    }
  }

  datatype ParseResult = Parsed(command: Command) | InvalidInput(message: string)

  /** `parse`: the command whose token equals the input's command word exactly;
      anything else is the `IllegalArgumentException` of the default case. */
  function Parse(t: TokenTable, input: Input): (r: ParseResult)
    ensures r.Parsed? ==> r.command.input == input && Token(t, r.command.kind) == input.command
    ensures r.InvalidInput? <==> forall k: CommandKind :: Token(t, k) != input.command
    ensures r.InvalidInput? ==> r.message == "Input error: Invalid input"
  {
    match Seqs.FirstIndex(Cases, (k: CommandKind) => Token(t, k) == input.command)
    case Some(i) => Parsed(Command(Cases[i], input))
    case None =>
      NoCaseMatches(t, input.command);
      InvalidInput("Input error: Invalid input")
  }

  /** Each command's own token builds exactly that command from the same input. */
  lemma ParseToken(t: TokenTable, k: CommandKind, argument: string)
    requires Distinct(t)
    ensures Parse(t, Input(Token(t, k), argument)) == Parsed(Command(k, Input(Token(t, k), argument)))
  {
    CasesCoverAll(k);
  }

  /** The tokens that `AddModToTimetableCommand.java`, `RemoveModFromTimetableCommand.java`
      and `ExitCommand.java` define. */
  lemma ParseKnownTokens(t: TokenTable, argument: string)
    requires Distinct(t)
    ensures Parse(t, Input("addmod", argument)) == Parsed(Command(AddMod, Input("addmod", argument)))
    ensures Parse(t, Input("removemod", argument)) == Parsed(Command(RemoveMod, Input("removemod", argument)))
    ensures Parse(t, Input("exit", argument)) == Parsed(Command(Exit, Input("exit", argument)))
  {
    assert Token(t, AddMod) == "addmod" && Token(t, RemoveMod) == "removemod" && Token(t, Exit) == "exit";
    ParseToken(t, AddMod, argument);
    ParseToken(t, RemoveMod, argument);
    ParseToken(t, Exit, argument);
  }
}
