/**
 * Duke's static state — the task array, its size counter and the
 * `userCommand` field that the parsing steps cut down — and the methods that
 * update it, each proved against the specification in `Interpreter`.
 */
module DukeApp {
  import opened Wrappers
  import opened JavaText
  import opened Tasks
  import opened Interpreter

  class Duke {
    /** The task array; the slots from `size` on are unused. */
    var tasks: array<Task>
    /** `sizeOfTaskList`. */
    var size: nat
    /** The line being interpreted, cut down step by step; None stands for null. */
    var userCommand: Option<string>

    ghost predicate Valid()
      reads this
    {
      tasks.Length == MaxListSize && size <= tasks.Length
    }

    /** The tasks recorded so far, in the order they were added. */
    ghost function Contents(): seq<Task>
      reads this, tasks
      requires Valid()
    {
      tasks[..size]
    }

    /** `initTaskList`: an empty list in a fresh array of 100 slots. */
    constructor ()
      ensures Valid() && fresh(tasks)
      ensures Contents() == [] && userCommand == None
    {
      tasks := new Task[MaxListSize];
      size := 0;
      userCommand := None;
    }

    /** `isTaskListEmpty`. */
    function IsTaskListEmpty(): (r: bool)
      reads this, tasks
      requires Valid()
      ensures r <==> Contents() == []
    {
      size == 0
    }

    /** `isTaskNumberValid`: the 0-based index names a recorded task. */
    function IsTaskNumberValid(taskNumber: int): (r: bool)
      reads this, tasks
      requires Valid()
      ensures r <==> 0 <= taskNumber < |Contents()|
      ensures r ==> taskNumber < tasks.Length
    {
      taskNumber >= 0 && taskNumber < size
    }

    /**
     * `getCommand`: returns the lower-cased first word and leaves the
     * remainder in `userCommand` (null for a line of at most 4 characters).
     * None is the index error of a line that splits into no words.
     */
    method GetCommand() returns (word: Option<string>)
      requires userCommand.Some?
      modifies this`userCommand
      ensures word == CommandWord(old(userCommand).value)
      ensures userCommand == if word.Some? then Remainder(old(userCommand).value) else old(userCommand)
    {
      var line := userCommand.value;
      word := CommandWord(line);
      if word.None? {
        return;
      }
      if |line| > 4 {
        userCommand := Some(line[IndexOf(line, " ") + 1..]);
      } else {
        userCommand := None;
      }
    }

    /** `getTaskNumber`: checks in the source's order, then the parsed number minus one as an int. */
    method GetTaskNumber() returns (r: Result<int, Error>)
      requires Valid()
      ensures r == TaskNumber(userCommand, |Contents()|)
    {
      if userCommand.None? {
        return Failure(InvalidSyntax(MarkSyntax));
      }
      if IsTaskListEmpty() {
        return Failure(EmptyList);
      }
      var text := userCommand.value;
      var parsed := ParseInt(text[IndexOf(text, " ") + 1..]);
      if parsed.None? {
        // NumberFormatException
        return Failure(InvalidSyntax(MarkSyntax));
      }
      r := Success(Wrap32(parsed.value - 1));
    }

    /** `executeMarkTask`: task `taskNumber` becomes done and nothing else changes. */
    method ExecuteMarkTask(taskNumber: int)
      requires Valid() && IsTaskNumberValid(taskNumber)
      modifies tasks
      ensures Valid()
      ensures Contents() == old(Contents())[taskNumber := MarkDone(old(Contents())[taskNumber])]
    {
      tasks[taskNumber] := MarkDone(tasks[taskNumber]);
    }

    /**
     * `tasks[sizeOfTaskList] = t; sizeOfTaskList++;`. On a full array the
     * store throws before the counter moves, so nothing changes.
     */
    method StoreTask(t: Task) returns (r: Outcome<Error>)
      requires Valid()
      modifies this`size, tasks
      ensures Valid()
      ensures match AddTask(old(Contents()), t)
        case Success(s) => r == Pass && Contents() == s
        case Failure(e) => r == Fail(e) && Contents() == old(Contents())
    {
      if size == tasks.Length {
        // ArrayIndexOutOfBoundsException
        return Fail(IndexOutOfRange);
      }
      tasks[size] := t;
      size := size + 1;
      r := Pass;
    }

    /** `executeAddTodo`: the remainder becomes a new todo. */
    method ExecuteAddTodo() returns (r: Outcome<Error>)
      requires Valid()
      modifies this`size, tasks
      ensures Valid()
      ensures var s := TodoStep(old(Contents()), userCommand);
        Contents() == s.tasks && (r.Pass? <==> s.response.Success?) && (r.Fail? ==> s.response == Failure(r.error))
    {
      if userCommand.None? {
        return Fail(InvalidSyntax(TodoSyntax));
      }
      r := StoreTask(Todo(userCommand.value, false));
    }

    /**
     * `getDate`: the date starts 4 characters after the marker at
     * `indexOfDate`, and at least one character must be there.
     */
    function GetDate(indexOfDate: int, filter: string): (r: Result<string, Error>)
      reads this
      requires userCommand.Some? && 0 <= indexOfDate
      ensures r.Success? <==> |userCommand.value| >= indexOfDate + 5
      ensures r.Success? ==> r.value == userCommand.value[indexOfDate + 4..] && |r.value| >= 1
      ensures r.Failure? ==> r.error == InvalidSyntax(SyntaxMessage(filter))
    {
      if |userCommand.value| < indexOfDate + 5 then Failure(InvalidSyntax(SyntaxMessage(filter)))
      else Success(userCommand.value[indexOfDate + 4..])
    }

    /**
     * `processParameters`: returns the date and leaves the description in
     * `userCommand`; on a syntax error `userCommand` is untouched.
     */
    method ProcessParameters(filter: string) returns (r: Result<string, Error>)
      requires userCommand.Some?
      modifies this`userCommand
      ensures var p := Parameters(old(userCommand).value, filter);
        (p.Failure? ==> r == Failure(p.error) && userCommand == old(userCommand)) &&
        (p.Success? ==> r == Success(p.value.1) && userCommand == Some(p.value.0))
    {
      var text := userCommand.value;
      var indexOfDate := IndexOf(text, filter);
      if indexOfDate > 0 {
        var date := GetDate(indexOfDate, filter);
        if date.Failure? {
          return Failure(date.error);
        }
        userCommand := Some(text[..indexOfDate - 1]);
        return Success(date.value);
      }
      r := Failure(InvalidSyntax(SyntaxMessage(filter)));
    }

    /** `executeAddDeadline`: extraction on `/by`, then the store. */
    method ExecuteAddDeadline() returns (r: Outcome<Error>)
      requires Valid() && userCommand.Some?
      modifies this`size, this`userCommand, tasks
      ensures Valid()
      ensures var s := DatedStep(old(Contents()), old(userCommand).value, ByPrefix);
        Contents() == s.tasks && userCommand == s.userCommand &&
        (r.Pass? <==> s.response.Success?) && (r.Fail? ==> s.response == Failure(r.error))
    {
      var date := ProcessParameters(ByPrefix);
      if date.Failure? {
        return Fail(date.error);
      }
      r := StoreTask(Deadline(userCommand.value, date.value, false));
    }

    /** `executeAddEvent`: extraction on `/at`, then the store. */
    method ExecuteAddEvent() returns (r: Outcome<Error>)
      requires Valid() && userCommand.Some?
      modifies this`size, this`userCommand, tasks
      ensures Valid()
      ensures var s := DatedStep(old(Contents()), old(userCommand).value, AtPrefix);
        Contents() == s.tasks && userCommand == s.userCommand &&
        (r.Pass? <==> s.response.Success?) && (r.Fail? ==> s.response == Failure(r.error))
    {
      var date := ProcessParameters(AtPrefix);
      if date.Failure? {
        return Fail(date.error);
      }
      r := StoreTask(Event(userCommand.value, date.value, false));
    }

    /** `displayAddTaskSuccessMessage`: the task just stored and the new count. */
    method AddedReply(added: Outcome<Error>) returns (response: Response)
      requires Valid() && (added.Pass? ==> size > 0)
      ensures added.Fail? ==> response == Failure(added.error)
      ensures added.Pass? ==> response == Success(Added(Contents()[|Contents()| - 1], |Contents()|))
    {
      if added.Fail? {
        return Failure(added.error);
      }
      response := Success(Added(tasks[size - 1], size));
    }

    /** `getDisplayString`: the header, then one numbered line per recorded task. */
    method GetDisplayString(list: array<Task>) returns (message: string)
      requires size <= list.Length
      ensures message == DisplayString(list[..size])
    {
      message := MessageList;
      var i := 0;
      while i < size
        invariant 0 <= i <= size
        invariant message == DisplayString(list[..i])
      {
        var displayIndex := i + 1;
        assert list[..i + 1] == list[..i] + [list[i]];
        DisplayStringSnoc(list[..i], list[i]);
        var entry := NatToString(displayIndex) + ". " + Render(list[i]);
        message := message + ("\n\t " + entry);
        i := i + 1;
      }
    }

    /** `executeListAllTasks`: the listing, or the empty-list error; it changes nothing. */
    method ExecuteListAllTasks() returns (r: Result<string, Error>)
      requires Valid()
      ensures Contents() == [] ==> r == Failure(EmptyList)
      ensures Contents() != [] ==> r == Success(DisplayString(Contents()))
    {
      if IsTaskListEmpty() {
        return Failure(EmptyList);
      }
      var listing := GetDisplayString(tasks);
      r := Success(listing);
    }

    /** The `done` case of `executeCommand`: the task number, its range check, then the mark. */
    method ExecuteDone() returns (response: Response)
      requires Valid()
      modifies tasks
      ensures Valid()
      ensures var s := MarkStep(old(Contents()), userCommand);
        Contents() == s.tasks && response == s.response
    {
      ghost var store := Contents();
      var taskNumber := GetTaskNumber();
      if taskNumber.Failure? {
        return Failure(taskNumber.error);
      }
      var n := taskNumber.value;
      if IsTaskNumberValid(n) {
        ExecuteMarkTask(n);
        assert tasks[n] == Contents()[n] == MarkDone(store[n]);
        response := Success(Marked(tasks[n]));
      } else {
        response := Failure(IndexOutOfRange);
      }
    }

    /** The `todo`, `deadline` and `event` cases of `executeCommand`: the add, then the reply. */
    method ExecuteAdd(w: string) returns (response: Response)
      requires Valid()
      requires w == TodoWord || ((w == DeadlineWord || w == EventWord) && userCommand.Some?)
      modifies this`size, this`userCommand, tasks
      ensures Valid()
      ensures var s := if w == TodoWord then TodoStep(old(Contents()), old(userCommand))
          else DatedStep(old(Contents()), old(userCommand).value, MarkerOf(w));
        Contents() == s.tasks && userCommand == s.userCommand && response == s.response
    {
      ghost var store := Contents();
      var added: Outcome<Error>;
      if w == TodoWord {
        TodoStepReply(store, userCommand);
        added := ExecuteAddTodo();
      } else if w == DeadlineWord {
        DatedStepReply(store, userCommand.value, ByPrefix);
        added := ExecuteAddDeadline();
      } else {
        DatedStepReply(store, userCommand.value, AtPrefix);
        added := ExecuteAddEvent();
      }
      response := AddedReply(added);
    }

    /** `executeCommand`: one input line, already in `userCommand`, interpreted against the list. */
    method ExecuteCommand() returns (response: Response)
      requires Valid() && userCommand.Some?
      modifies this, tasks
      ensures Valid() && tasks == old(tasks)
      ensures var s := Execute(old(Contents()), old(userCommand).value);
        Contents() == s.tasks && userCommand == s.userCommand && response == s.response
    {
      ghost var store := Contents();
      ghost var line := userCommand.value;
      var word := GetCommand();
      if word.None? {
        // `split(" ")` gave no words, so reading word 0 is an index error.
        return Failure(IndexOutOfRange);
      }
      var w := word.value;
      if w == ExitWord {
        ExecuteDispatch(store, line);
        response := Success(Exiting);
      } else if w == ListWord {
        assert Execute(store, line) == ListStep(store, userCommand) by { ExecuteDispatch(store, line); }
        var listing := ExecuteListAllTasks();
        response := if listing.Success? then Success(Listed(listing.value)) else Failure(listing.error);
      } else if w == MarkWord {
        assert Execute(store, line) == MarkStep(store, userCommand) by { ExecuteDispatch(store, line); }
        response := ExecuteDone();
      } else if w == TodoWord {
        assert Execute(store, line) == TodoStep(store, userCommand) by { ExecuteDispatch(store, line); }
        response := ExecuteAdd(w);
      } else if w == DeadlineWord || w == EventWord {
        DatedDispatch(store, line, w);
        response := ExecuteAdd(w);
      } else {
        assert !IsVerb(w);
        ExecuteDispatch(store, line);
        response := Failure(InvalidCommand);
      }
    }

    /** One turn of `main`'s loop: the line read is trimmed into `userCommand` and executed. */
    method Step(line: string) returns (response: Response)
      requires Valid()
      modifies this, tasks
      ensures Valid() && tasks == old(tasks)
      ensures var s := Execute(old(Contents()), Trim(line));
        Contents() == s.tasks && response == s.response
    {
      userCommand := Some(Trim(line));
      response := ExecuteCommand();
    }
  }
}
