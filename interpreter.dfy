/**
 * What one input line does to the task list, as a function of the list and
 * the (already trimmed) line. Duke's methods are proved against `Execute`;
 * the lemmas below state what `Execute` promises.
 */
module Interpreter {
  import opened Wrappers
  import opened JavaText
  import opened Tasks

  // Command words.
  const TodoWord := "todo"
  const DeadlineWord := "deadline"
  const EventWord := "event"
  const MarkWord := "done"
  const ListWord := "list"
  const ExitWord := "bye"

  // Usage hints attached to a syntax error.
  const MarkSyntax := " done <task number>"
  const TodoSyntax := " todo <task name>"
  const DeadlineSyntax := " deadline <task name> /by <date>"
  const EventSyntax := " event <task name> /at <date>"

  // Markers that separate a description from its date.
  const ByPrefix := "/by"
  const AtPrefix := "/at"

  const MessageList := "Here are the tasks in your list: "

  /** Capacity of the task array. */
  const MaxListSize := 100

  /** The four messages the interpreter's catch clauses map exceptions to. */
  datatype Error =
    | InvalidCommand              // IllegalCommandException
    | IndexOutOfRange             // any IndexOutOfBoundsException
    | InvalidSyntax(usage: string) // NumberFormatException or IllegalTaskException(usage)
    | EmptyList                   // TaskListEmptyException

  /** What a successful command reports. */
  datatype Reply =
    | Exiting
    | Listed(text: string)
    | Marked(task: Task)
    | Added(task: Task, count: nat)

  type Response = Result<Reply, Error>

  /** The task list, the `userCommand` field and the response after one line. */
  datatype StepResult = StepResult(tasks: seq<Task>, userCommand: Option<string>, response: Response)

  // ---------------------------------------------------------------------
  // getCommand
  // ---------------------------------------------------------------------

  predicate AllSpaces(s: string)
  {
    forall k :: 0 <= k < |s| ==> s[k] == ' '
  }

  /** Where the first word ends: the first space, or the end of the line. */
  function FirstWordEnd(line: string): nat
  {
    var i := IndexOf(line, " ");
    if i < 0 then |line| else i
  }

  /**
   * `line.split(" ")[0].toLowerCase()`. Splitting a non-empty line made only of
   * spaces yields no pieces at all, so indexing piece 0 fails (None).
   */
  function CommandWord(line: string): Option<string>
  {
    if line != [] && AllSpaces(line) then None
    else Some(ToLower(line[..FirstWordEnd(line)]))
  }

  /** `line.substring(line.indexOf(" ") + 1)`: the whole line when it has no space. */
  function RemainderText(line: string): string
  {
    line[IndexOf(line, " ") + 1..]
  }

  /** What `getCommand` leaves in `userCommand`: absent (null) unless the line is longer than 4. */
  function Remainder(line: string): Option<string>
  {
    if |line| > 4 then Some(RemainderText(line)) else None
  }

  /** The command word is the lower-cased text before the first space, and the remainder follows that space. */
  lemma VerbSplit(line: string)
    requires line == [] || line[0] != ' '
    ensures CommandWord(line).Some?
    ensures var k := FirstWordEnd(line);
      k <= |line| && (k == |line| || line[k] == ' ') &&
      (forall j :: 0 <= j < k ==> line[j] != ' ') &&
      CommandWord(line).value == ToLower(line[..k])
    ensures Remainder(line).None? <==> |line| <= 4
    ensures Remainder(line).Some? ==>
      Remainder(line).value == if FirstWordEnd(line) < |line| then line[FirstWordEnd(line) + 1..] else line
  {
    IndexOfSpace(line);
  }

  /** A command word longer than 4 letters comes from a line longer than 4, so it always has a remainder. */
  lemma LongWordHasRemainder(line: string)
    requires CommandWord(line).Some? && |CommandWord(line).value| > 4
    ensures Remainder(line) == Some(RemainderText(line))
  {
  }

  /**
   * Splitting undoes composing: a line made of a word without spaces, one
   * space and any remainder (longer than 4 in all) splits back into the
   * lower-cased word and that remainder.
   */
  lemma ComposeThenSplit(word: string, rest: string)
    requires word != [] && forall k :: 0 <= k < |word| ==> word[k] != ' '
    requires |word| + 1 + |rest| > 4
    ensures CommandWord(word + " " + rest) == Some(ToLower(word))
    ensures Remainder(word + " " + rest) == Some(rest)
  {
    var line := word + " " + rest;
    FirstSpaceAfterWord(word, rest);
    assert CommandWord(line) == Some(ToLower(word)) by {
      assert line[0] != ' ';
      assert line[..|word|] == word;
    }
    assert RemainderText(line) == rest by {
      assert line[|word| + 1..] == rest;
    }
  }

  /** In a word without spaces followed by a space, the first space is right after the word. */
  lemma FirstSpaceAfterWord(word: string, rest: string)
    requires forall k :: 0 <= k < |word| ==> word[k] != ' '
    ensures IndexOf(word + " " + rest, " ") == |word|
  {
    var line := word + " " + rest;
    forall k | 0 <= k < |word|
      ensures !OccursAt(line, " ", k)
    {
      OccursAtChar(line, ' ', k);
    }
    OccursAtChar(line, ' ', |word|);
  }

  /** A line that is one word without spaces: the word, and no remainder unless it is longer than 4. */
  lemma SingleWordSplit(word: string)
    requires word != [] && forall k :: 0 <= k < |word| ==> word[k] != ' '
    ensures CommandWord(word) == Some(ToLower(word))
    ensures Remainder(word) == if |word| > 4 then Some(word) else None
  {
    NoSpaceInWord(word);
    assert !AllSpaces(word) by {
      assert word[0] != ' ';
    }
    assert FirstWordEnd(word) == |word|;
    assert word[..|word|] == word;
    assert RemainderText(word) == word by {
      assert word[0..] == word;
    }
  }

  lemma NoSpaceInWord(word: string)
    requires forall k :: 0 <= k < |word| ==> word[k] != ' '
    ensures IndexOf(word, " ") == -1
  {
    IndexOfSpace(word);
  }

  /** The line `getUserInput` trims always splits into a first word: the index error above needs an untrimmed line. */
  lemma TrimmedLineHasWord(raw: string)
    ensures CommandWord(Trim(raw)).Some?
  {
  }

  /** After trimming, a `todo` line with a remainder has a non-empty description. */
  lemma TrimmedTodoHasDescription(raw: string)
    requires CommandWord(Trim(raw)) == Some(TodoWord) && Remainder(Trim(raw)).Some?
    ensures Remainder(Trim(raw)).value != []
  {
  }

  // ---------------------------------------------------------------------
  // getTaskNumber, isTaskNumberValid
  // ---------------------------------------------------------------------

  /** The text `getTaskNumber` parses: the remainder after its own first space. */
  function DoneArgument(text: string): string
  {
    text[IndexOf(text, " ") + 1..]
  }

  /**
   * `getTaskNumber()`: a missing argument is a syntax error, an empty list is
   * reported before anything is parsed, and a parsed number n gives the int n - 1.
   */
  function TaskNumber(userCommand: Option<string>, size: nat): Result<int, Error>
  {
    match userCommand
    case None => Failure(InvalidSyntax(MarkSyntax))
    case Some(text) =>
      if size == 0 then Failure(EmptyList)
      else
        match ParseInt(DoneArgument(text))
        case None => Failure(InvalidSyntax(MarkSyntax))
        case Some(v) => Success(Wrap32(v - 1))
  }

  // ---------------------------------------------------------------------
  // processParameters, getDate, getSyntaxMessage
  // ---------------------------------------------------------------------

  /** `getSyntaxMessage(filterString)`. */
  function SyntaxMessage(filter: string): string
  {
    if filter == ByPrefix then DeadlineSyntax else EventSyntax
  }

  /**
   * `processParameters(filter)`: the description and the date split out of
   * `text` around the first occurrence of the marker.
   */
  function Parameters(text: string, filter: string): Result<(string, string), Error>
  {
    var i := IndexOf(text, filter);
    if i > 0 then
      if |text| < i + 5 then Failure(InvalidSyntax(SyntaxMessage(filter)))
      else Success((text[..i - 1], text[i + 4..]))
    else Failure(InvalidSyntax(SyntaxMessage(filter)))
  }

  /**
   * Marker extraction succeeds exactly when the first marker stands after
   * position 0 with at least one character after the marker and the next
   * one; the date starts 4 past the marker, the description stops one short
   * of it, and a failure carries the usage hint of that marker.
   */
  lemma MarkerExtraction(text: string, filter: string)
    requires filter == ByPrefix || filter == AtPrefix
    ensures var i := IndexOf(text, filter);
      (Parameters(text, filter).Success? <==> i > 0 && |text| >= i + 5) &&
      (Parameters(text, filter).Success? ==>
        text[i..i + 3] == filter &&
        (forall k :: 0 <= k < i ==> !OccursAt(text, filter, k)) &&
        Parameters(text, filter).value == (text[..i - 1], text[i + 4..]) &&
        |Parameters(text, filter).value.1| >= 1)
    ensures Parameters(text, filter).Failure? ==>
      Parameters(text, filter).error == InvalidSyntax(SyntaxMessage(filter))
  {
  }

  /** The task a successful `deadline` or `event` command creates. */
  function DatedTask(filter: string, description: string, date: string): Task
  {
    if filter == ByPrefix then Deadline(description, date, false) else Event(description, date, false)
  }

  // ---------------------------------------------------------------------
  // Storing a new task, listing
  // ---------------------------------------------------------------------

  /** `tasks[sizeOfTaskList] = t; sizeOfTaskList++`: the store fails on the full array before the count moves. */
  function AddTask(store: seq<Task>, t: Task): Result<seq<Task>, Error>
  {
    if |store| < MaxListSize then Success(store + [t]) else Failure(IndexOutOfRange)
  }

  /** An add step: the new list and the "added" reply with the new count, or the error and no change. */
  function AddStep(store: seq<Task>, t: Task, userCommand: Option<string>): StepResult
  {
    match AddTask(store, t)
    case Success(s) => StepResult(s, userCommand, Success(Added(t, |s|)))
    case Failure(e) => StepResult(store, userCommand, Failure(e))
  }

  /** One numbered entry of the listing. */
  function ListingLine(n: nat, t: Task): string
  {
    NatToString(n) + ". " + Render(t)
  }

  /** The entries of the listing: one per task, numbered from 1 in list order. */
  function ListingLines(ts: seq<Task>): (r: seq<string>)
    ensures |r| == |ts|
    ensures forall k :: 0 <= k < |ts| ==> r[k] == ListingLine(k + 1, ts[k])
  {
    if ts == [] then [] else ListingLines(ts[..|ts| - 1]) + [ListingLine(|ts|, ts[|ts| - 1])]
  }

  /** Each entry starts on a new, indented line. */
  function JoinEntries(lines: seq<string>): string
  {
    if lines == [] then "" else JoinEntries(lines[..|lines| - 1]) + "\n\t " + lines[|lines| - 1]
  }

  /** `getDisplayString`: the header followed by the numbered entries. */
  function DisplayString(ts: seq<Task>): string
  {
    MessageList + JoinEntries(ListingLines(ts))
  }

  // ---------------------------------------------------------------------
  // executeCommand
  // ---------------------------------------------------------------------

  /** `list`: the listing, unless the list is empty. */
  function ListStep(store: seq<Task>, rem: Option<string>): StepResult
  {
    StepResult(store, rem, if store == [] then Failure(EmptyList) else Success(Listed(DisplayString(store))))
  }

  /** `done`: the task number, then its range check, then the mark. */
  function MarkStep(store: seq<Task>, rem: Option<string>): StepResult
  {
    match TaskNumber(rem, |store|)
    case Failure(e) => StepResult(store, rem, Failure(e))
    case Success(n) =>
      if 0 <= n < |store| then StepResult(store[n := MarkDone(store[n])], rem, Success(Marked(MarkDone(store[n]))))
      else StepResult(store, rem, Failure(IndexOutOfRange))
  }

  /** `todo`: the remainder is the description. */
  function TodoStep(store: seq<Task>, rem: Option<string>): StepResult
  {
    match rem
    case None => StepResult(store, rem, Failure(InvalidSyntax(TodoSyntax)))
    case Some(text) => AddStep(store, Todo(text, false), rem)
  }

  /**
   * `deadline` and `event`: marker extraction on the remainder `text`, then
   * the add; after a successful extraction `userCommand` holds the description.
   */
  function DatedStep(store: seq<Task>, text: string, filter: string): StepResult
  {
    match Parameters(text, filter)
    case Failure(e) => StepResult(store, Some(text), Failure(e))
    case Success((description, date)) => AddStep(store, DatedTask(filter, description, date), Some(description))
  }

  /** One pass of `executeCommand` over the trimmed input `line`, starting from the task list `store`. */
  function Execute(store: seq<Task>, line: string): StepResult
  {
    match CommandWord(line)
    case None => StepResult(store, Some(line), Failure(IndexOutOfRange))
    case Some(word) =>
      var rem := Remainder(line);
      if word == ExitWord then StepResult(store, rem, Success(Exiting))
      else if word == ListWord then ListStep(store, rem)
      else if word == MarkWord then MarkStep(store, rem)
      else if word == TodoWord then TodoStep(store, rem)
      // A word this long always leaves a remainder (LongWordHasRemainder).
      else if word == DeadlineWord then DatedStep(store, RemainderText(line), ByPrefix)
      else if word == EventWord then DatedStep(store, RemainderText(line), AtPrefix)
      else StepResult(store, rem, Failure(InvalidCommand))
  }

  /** `getDisplayString` appends one entry per loop turn. */
  lemma DisplayStringSnoc(ts: seq<Task>, t: Task)
    ensures DisplayString(ts + [t]) == DisplayString(ts) + ("\n\t " + ListingLine(|ts| + 1, t))
  {
    var lines, entry := ListingLines(ts), ListingLine(|ts| + 1, t);
    ListingLinesSnoc(ts, t);
    JoinEntriesSnoc(lines, entry);
    assert MessageList + (JoinEntries(lines) + ("\n\t " + entry)) == MessageList + JoinEntries(lines) + ("\n\t " + entry);
  }

  lemma ListingLinesSnoc(ts: seq<Task>, t: Task)
    ensures ListingLines(ts + [t]) == ListingLines(ts) + [ListingLine(|ts| + 1, t)]
  {
    assert (ts + [t])[..|ts|] == ts;
  }

  lemma JoinEntriesSnoc(lines: seq<string>, entry: string)
    ensures JoinEntries(lines + [entry]) == JoinEntries(lines) + ("\n\t " + entry)
  {
    assert (lines + [entry])[..|lines|] == lines;
  }

  /** A successful `todo` reports the task now last in the list and the new size; a failed one changes nothing. */
  lemma TodoStepReply(store: seq<Task>, rem: Option<string>)
    ensures var r := TodoStep(store, rem);
      (r.response.Success? ==> r.tasks != [] && r.response == Success(Added(r.tasks[|r.tasks| - 1], |r.tasks|))) &&
      (r.response.Failure? ==> r.tasks == store)
  {
  }

  /** The same for `deadline` and `event`. */
  lemma DatedStepReply(store: seq<Task>, text: string, filter: string)
    ensures var r := DatedStep(store, text, filter);
      (r.response.Success? ==> r.tasks != [] && r.response == Success(Added(r.tasks[|r.tasks| - 1], |r.tasks|))) &&
      (r.response.Failure? ==> r.tasks == store)
  {
  }

  /** Which step function a line's command word selects. */
  lemma ExecuteDispatch(store: seq<Task>, line: string)
    requires CommandWord(line).Some?
    ensures var w := CommandWord(line).value;
      var rem := Remainder(line);
      (w == ExitWord ==> Execute(store, line) == StepResult(store, rem, Success(Exiting))) &&
      (w == ListWord ==> Execute(store, line) == ListStep(store, rem)) &&
      (w == MarkWord ==> Execute(store, line) == MarkStep(store, rem)) &&
      (w == TodoWord ==> Execute(store, line) == TodoStep(store, rem)) &&
      (w == DeadlineWord ==> Execute(store, line) == DatedStep(store, RemainderText(line), ByPrefix)) &&
      (w == EventWord ==> Execute(store, line) == DatedStep(store, RemainderText(line), AtPrefix)) &&
      (!IsVerb(w) ==> Execute(store, line) == StepResult(store, rem, Failure(InvalidCommand)))
  {
  }

  // ---------------------------------------------------------------------
  // Properties of a step
  // ---------------------------------------------------------------------

  predicate IsVerb(word: string)
  {
    word == TodoWord || word == DeadlineWord || word == EventWord ||
    word == MarkWord || word == ListWord || word == ExitWord
  }

  /** Any other first word is an invalid command and changes nothing. */
  lemma UnknownWordRejected(store: seq<Task>, line: string)
    requires CommandWord(line).Some? && !IsVerb(CommandWord(line).value)
    ensures Execute(store, line).tasks == store
    ensures Execute(store, line).response == Failure(InvalidCommand)
  {
  }

  /** `bye` ends the session and changes nothing. */
  lemma ExitLeavesStore(store: seq<Task>, line: string)
    requires CommandWord(line) == Some(ExitWord)
    ensures Execute(store, line).tasks == store
    ensures Execute(store, line).response == Success(Exiting)
  {
  }

  /**
   * `done` errors, in the order they are checked: no argument, then an empty
   * list, then an argument that is not an integer. None of them changes the list.
   */
  lemma DoneErrorOrder(store: seq<Task>, line: string)
    requires CommandWord(line) == Some(MarkWord)
    ensures Remainder(line).None? ==>
      Execute(store, line) == StepResult(store, None, Failure(InvalidSyntax(MarkSyntax)))
    ensures Remainder(line).Some? && store == [] ==>
      Execute(store, line) == StepResult(store, Remainder(line), Failure(EmptyList))
    ensures Remainder(line).Some? && store != [] && ParseInt(DoneArgument(Remainder(line).value)).None? ==>
      Execute(store, line) == StepResult(store, Remainder(line), Failure(InvalidSyntax(MarkSyntax)))
  {
  }

  /**
   * `done n` on a list of at most 100 tasks succeeds exactly when 1 <= n <= size;
   * then task n alone becomes done. Otherwise the index is out of range and the
   * list is unchanged.
   */
  lemma DoneBounds(store: seq<Task>, line: string, n: int)
    requires |store| <= MaxListSize
    requires CommandWord(line) == Some(MarkWord) && Remainder(line).Some? && store != []
    requires ParseInt(DoneArgument(Remainder(line).value)) == Some(n)
    ensures Execute(store, line).response.Success? <==> 1 <= n <= |store|
    ensures 1 <= n <= |store| ==>
      Execute(store, line).tasks == store[n - 1 := MarkDone(store[n - 1])] &&
      Execute(store, line).response == Success(Marked(MarkDone(store[n - 1])))
    ensures !(1 <= n <= |store|) ==>
      Execute(store, line).tasks == store &&
      Execute(store, line).response == Failure(IndexOutOfRange)
  {
    var rem := Remainder(line);
    var m := Wrap32(n - 1);
    assert TaskNumber(rem, |store|) == Success(m);
    assert (0 <= m < |store|) <==> (1 <= n <= |store|) by {
      if n == MinInt32 {
        assert m == MaxInt32;
      } else {
        assert m == n - 1;
      }
    }
    assert 0 <= m < |store| ==> m == n - 1;
    assert Execute(store, line) == MarkStep(store, rem) by {
      ExecuteDispatch(store, line);
    }
    MarkStepOutcome(store, rem, m);
  }

  /** The `done` step once the task number `m` is known: in range it marks task `m`, otherwise nothing changes. */
  lemma MarkStepOutcome(store: seq<Task>, rem: Option<string>, m: int)
    requires TaskNumber(rem, |store|) == Success(m)
    ensures 0 <= m < |store| ==> MarkStep(store, rem) == StepResult(store[m := MarkDone(store[m])], rem, Success(Marked(MarkDone(store[m]))))
    ensures !(0 <= m < |store|) ==> MarkStep(store, rem) == StepResult(store, rem, Failure(IndexOutOfRange))
  {
  }

  /**
   * `todo`: no description is a syntax error with the todo usage; otherwise a
   * not-done Todo with the remainder as description is appended (room allowing)
   * and the reply reports the new size.
   */
  lemma TodoAppends(store: seq<Task>, line: string)
    requires CommandWord(line) == Some(TodoWord)
    ensures Remainder(line).None? ==>
      Execute(store, line).tasks == store &&
      Execute(store, line).response == Failure(InvalidSyntax(TodoSyntax))
    ensures Remainder(line).Some? && |store| < MaxListSize ==>
      var t := Todo(Remainder(line).value, false);
      Execute(store, line).tasks == store + [t] &&
      Execute(store, line).response == Success(Added(t, |store| + 1))
  {
  }

  /** A `deadline` or `event` line runs marker extraction on its remainder, which is never absent. */
  lemma DatedDispatch(store: seq<Task>, line: string, word: string)
    requires word == DeadlineWord || word == EventWord
    requires CommandWord(line) == Some(word)
    ensures Remainder(line) == Some(RemainderText(line))
    ensures Execute(store, line) == DatedStep(store, RemainderText(line), MarkerOf(word))
  {
    LongWordHasRemainder(line);
  }

  /**
   * `deadline` and `event` validate before they commit: a failed extraction
   * leaves the list alone; a successful one appends exactly the extracted
   * task (a Deadline for `/by`, an Event for `/at`), room allowing.
   */
  lemma DatedTaskValidateThenCommit(store: seq<Task>, text: string, filter: string)
    requires filter == ByPrefix || filter == AtPrefix
    ensures var p := Parameters(text, filter);
      var r := DatedStep(store, text, filter);
      (p.Failure? ==> r.tasks == store && r.response == Failure(p.error)) &&
      (p.Success? && |store| < MaxListSize ==>
        var t := DatedTask(filter, p.value.0, p.value.1);
        r.tasks == store + [t] &&
        r.response == Success(Added(t, |store| + 1)) &&
        t.description == p.value.0 && t.date == p.value.1 && !t.done &&
        (filter == ByPrefix <==> t.Deadline?) && (filter == AtPrefix <==> t.Event?))
  {
  }

  /** The command words are lower-case words without spaces. */
  lemma PlainVerb(w: string)
    requires IsVerb(w)
    ensures w != [] && forall k :: 0 <= k < |w| ==> w[k] != ' '
    ensures ToLower(w) == w
  {
    assert forall k :: 0 <= k < |w| ==> w[k] != ' ' && !('A' <= w[k] <= 'Z');
    ToLowerIdentity(w);
  }

  /** A `deadline` or `event` line built from its word and remainder runs marker extraction on that remainder. */
  lemma DatedLine(store: seq<Task>, word: string, text: string)
    requires word == DeadlineWord || word == EventWord
    ensures Execute(store, word + " " + text) == DatedStep(store, text, MarkerOf(word))
  {
    DatedWordLine(word, text);
    DatedDispatch(store, word + " " + text, word);
  }

  lemma DatedWordLine(word: string, text: string)
    requires word == DeadlineWord || word == EventWord
    ensures CommandWord(word + " " + text) == Some(word)
  {
    PlainVerb(word);
    ComposeThenSplit(word, text);
  }

  /** The marker a `deadline` or `event` command looks for. */
  function MarkerOf(word: string): string
  {
    if word == DeadlineWord then ByPrefix else AtPrefix
  }

  /**
   * Composing then extracting: a description without the marker, the marker
   * between single spaces and a non-empty date extract back into that
   * description and that date.
   */
  lemma MarkerComposeExtract(x: string, y: string, filter: string)
    requires filter == ByPrefix || filter == AtPrefix
    requires forall k :: 0 <= k ==> !OccursAt(x, filter, k)
    requires y != []
    ensures Parameters(x + " " + filter + " " + y, filter) == Success((x, y))
  {
    var text := x + " " + filter + " " + y;
    var i := |x| + 1;
    assert OccursAt(text, filter, i) by {
      assert text[i..i + 3] == filter;
    }
    forall k | 0 <= k < i
      ensures !OccursAt(text, filter, k)
    {
      if k + 3 <= |x| {
        assert text[k..k + 3] == x[k..k + 3];
        assert !OccursAt(x, filter, k);
      } else {
        assert text[|x|] == ' ';
        assert text[k..k + 3][|x| - k] == ' ';
      }
    }
    assert IndexOf(text, filter) == i;
    assert text[..i - 1] == x;
    assert text[i + 4..] == y;
  }

  /**
   * `deadline x /by y` records `Deadline(x, y)` and `event x /at y` records
   * `Event(x, y)`, room allowing, when x does not contain the marker and y is
   * not empty; the reply reports the new task and size.
   */
  lemma DatedCommandRecords(store: seq<Task>, word: string, x: string, y: string)
    requires word == DeadlineWord || word == EventWord
    requires forall k :: 0 <= k ==> !OccursAt(x, MarkerOf(word), k)
    requires y != [] && |store| < MaxListSize
    ensures var t := if word == DeadlineWord then Deadline(x, y, false) else Event(x, y, false);
      var r := Execute(store, word + " " + (x + " " + MarkerOf(word) + " " + y));
      r.tasks == store + [t] && r.response == Success(Added(t, |store| + 1))
  {
    var filter := MarkerOf(word);
    var text := x + " " + filter + " " + y;
    DatedLine(store, word, text);
    MarkerComposeExtract(x, y, filter);
    DatedTaskValidateThenCommit(store, text, filter);
  }

  /**
   * Only `done` and the three adds change the list, and a step that changes
   * it reports success.
   */
  lemma OnlyDoneAndAddsChangeList(store: seq<Task>, line: string)
    ensures Execute(store, line).tasks != store ==>
      CommandWord(line).Some? && CommandWord(line).value in {MarkWord, TodoWord, DeadlineWord, EventWord} &&
      Execute(store, line).response.Success?
  {
    if CommandWord(line).Some? {
      var w := CommandWord(line).value;
      ExecuteDispatch(store, line);
      if w == TodoWord {
        TodoStepReply(store, Remainder(line));
      } else if w == DeadlineWord || w == EventWord {
        DatedStepReply(store, RemainderText(line), MarkerOf(w));
      }
    }
  }

  /** No step grows the list past its capacity. */
  lemma CapacityKept(store: seq<Task>, line: string)
    requires |store| <= MaxListSize
    ensures |Execute(store, line).tasks| <= MaxListSize
  {
    TasksOnlyGrowOrGetMarked(store, line);
  }

  /**
   * An add on a full list is reported as an index out of range (the array
   * store fails) and the list is unchanged; the only other outcome is the
   * syntax error that extraction reports first. A `deadline` or `event`
   * whose extraction succeeds reports the index error; one whose extraction
   * fails reports that extraction's usage error.
   */
  lemma AddWhenFull(store: seq<Task>, line: string)
    requires |store| == MaxListSize
    requires CommandWord(line) == Some(TodoWord) || CommandWord(line) == Some(DeadlineWord) ||
             CommandWord(line) == Some(EventWord)
    ensures Execute(store, line).tasks == store
    ensures Execute(store, line).response == Failure(IndexOutOfRange) ||
            Execute(store, line).response.error.InvalidSyntax?
    ensures CommandWord(line) == Some(TodoWord) && Remainder(line).Some? ==>
      Execute(store, line).response == Failure(IndexOutOfRange)
    ensures CommandWord(line) != Some(TodoWord) ==>
      var p := Parameters(RemainderText(line), MarkerOf(CommandWord(line).value));
      (p.Success? ==> Execute(store, line).response == Failure(IndexOutOfRange)) &&
      (p.Failure? ==> Execute(store, line).response == Failure(p.error))
  {
    if CommandWord(line) != Some(TodoWord) {
      DatedDispatch(store, line, CommandWord(line).value);
    }
  }

  /**
   * `list` fails on an empty list; otherwise it shows the header and exactly
   * one entry per task, numbered 1..size in order. It never changes the list.
   */
  lemma ListShowsEveryTask(store: seq<Task>, line: string)
    requires CommandWord(line) == Some(ListWord)
    ensures Execute(store, line).tasks == store
    ensures store == [] ==> Execute(store, line).response == Failure(EmptyList)
    ensures store != [] ==>
      Execute(store, line).response == Success(Listed(MessageList + JoinEntries(ListingLines(store)))) &&
      |ListingLines(store)| == |store| &&
      forall k :: 0 <= k < |store| ==> ListingLines(store)[k] == NatToString(k + 1) + ". " + Render(store[k])
  {
  }

  /**
   * A step either keeps each existing task or marks it done; it never removes
   * or reorders tasks, so a done task stays done for the rest of the session.
   */
  lemma TasksOnlyGrowOrGetMarked(store: seq<Task>, line: string)
    ensures GrowsOrMarks(store, Execute(store, line).tasks)
    ensures forall k :: 0 <= k < |store| && store[k].done ==> Execute(store, line).tasks[k].done
  {
    match CommandWord(line)
    case None =>
    case Some(w) =>
      ExecuteDispatch(store, line);
      if w == MarkWord {
        MarkStepMarks(store, Remainder(line));
      } else if w == TodoWord {
        TodoStepGrows(store, Remainder(line));
      } else if w == DeadlineWord || w == EventWord {
        DatedStepGrows(store, RemainderText(line), MarkerOf(w));
      }
  }

  /**
   * `after` is `store`, possibly with some tasks marked done and one task
   * added at the end, and it is no longer than the array unless `store` was.
   */
  ghost predicate GrowsOrMarks(store: seq<Task>, after: seq<Task>)
  {
    |store| <= |after| <= |store| + 1 &&
    (|store| <= MaxListSize ==> |after| <= MaxListSize) &&
    forall k :: 0 <= k < |store| ==> after[k] == store[k] || after[k] == MarkDone(store[k])
  }

  lemma AddStepGrows(store: seq<Task>, t: Task, userCommand: Option<string>)
    ensures GrowsOrMarks(store, AddStep(store, t, userCommand).tasks)
  {
  }

  lemma TodoStepGrows(store: seq<Task>, rem: Option<string>)
    ensures GrowsOrMarks(store, TodoStep(store, rem).tasks)
  {
    if rem.Some? {
      AddStepGrows(store, Todo(rem.value, false), rem);
    }
  }

  lemma DatedStepGrows(store: seq<Task>, text: string, filter: string)
    ensures GrowsOrMarks(store, DatedStep(store, text, filter).tasks)
  {
    match Parameters(text, filter)
    case Failure(_) =>
    case Success((description, date)) =>
      AddStepGrows(store, DatedTask(filter, description, date), Some(description));
  }

  lemma MarkStepMarks(store: seq<Task>, rem: Option<string>)
    ensures GrowsOrMarks(store, MarkStep(store, rem).tasks)
  {
  }

  /** Typing `done` with an entry's number from the listing marks exactly that entry. */
  lemma DoneListedNumber(store: seq<Task>, n: nat)
    requires 1 <= n <= |store| <= MaxListSize
    ensures Execute(store, MarkWord + " " + NatToString(n)).tasks == store[n - 1 := MarkDone(store[n - 1])]
  {
    var line := MarkWord + " " + NatToString(n);
    var digits := NatToString(n);
    ComposeThenSplit(MarkWord, digits);
    ToLowerIdentity(MarkWord);
    forall k | 0 <= k
      ensures !OccursAt(digits, " ", k)
    {
      if k < |digits| {
        OccursAtChar(digits, ' ', k);
        assert IsDigit(digits[k]);
      }
    }
    assert DoneArgument(digits) == digits;
    ParseNatToString(n);
    DoneBounds(store, line, n);
  }
}
