/**
 * What `Execute` gives for whole input lines: the sessions a user of the
 * task manager would type, with the responses they get.
 */
module Scenarios {
  import opened Wrappers
  import opened JavaText
  import opened Tasks
  import opened Interpreter

  /** A position whose character differs from the pattern's first is not an occurrence. */
  lemma NotOccursAtFirstChar(s: string, pat: string, k: int)
    requires 0 <= k < |s| && pat != [] && s[k] != pat[0]
    ensures !OccursAt(s, pat, k)
  {
  }

  /** `done 5` on an empty list reports the empty list, not an index out of range. */
  lemma DoneOnEmptyList()
    ensures Execute([], "done 5") == StepResult([], Some("5"), Failure(EmptyList))
  {
    ComposeThenSplit(MarkWord, "5");
    ToLowerIdentity(MarkWord);
    assert MarkWord + " " + "5" == "done 5";
    DoneErrorOrder([], "done 5");
  }

  /** `event /at 6pm`: a marker at position 0 is a syntax error, and no task is added. */
  lemma EventMarkerAtStart(store: seq<Task>)
    ensures Execute(store, "event /at 6pm") == StepResult(store, Some("/at 6pm"), Failure(InvalidSyntax(EventSyntax)))
  {
    var text := "/at 6pm";
    assert EventWord + " " + text == "event /at 6pm";
    DatedLine(store, EventWord, text);
    assert OccursAt(text, AtPrefix, 0);
    assert IndexOf(text, AtPrefix) == 0;
  }

  /** The first occurrence of a marker, found by the first position holding its first character. */
  lemma FirstMarkerAt(text: string, filter: string, i: nat)
    requires filter != [] && OccursAt(text, filter, i)
    requires forall k :: 0 <= k < i ==> text[k] != filter[0]
    ensures IndexOf(text, filter) == i
  {
    forall k | 0 <= k < i
      ensures !OccursAt(text, filter, k)
    {
      NotOccursAtFirstChar(text, filter, k);
    }
  }

  lemma AddReadBook()
    ensures Execute([], "todo read book").tasks == [Todo("read book", false)]
  {
    ComposeThenSplit(TodoWord, "read book");
    ToLowerIdentity(TodoWord);
    assert TodoWord + " " + "read book" == "todo read book";
    TodoAppends([], "todo read book");
  }

  lemma ReturnBookParameters()
    ensures Parameters("return book /by Sunday", ByPrefix) == Success(("return book", "Sunday"))
  {
    var text := "return book /by Sunday";
    FirstMarkerAt(text, ByPrefix, 12);
    assert text[..11] == "return book";
    assert text[16..] == "Sunday";
  }

  lemma AddReturnBook(store: seq<Task>)
    requires |store| < MaxListSize
    ensures Execute(store, "deadline return book /by Sunday").tasks == store + [Deadline("return book", "Sunday", false)]
  {
    ReturnBookLine(store);
    ReturnBookParameters();
    DatedTaskValidateThenCommit(store, "return book /by Sunday", ByPrefix);
  }

  lemma ReturnBookLine(store: seq<Task>)
    ensures Execute(store, "deadline return book /by Sunday") == DatedStep(store, "return book /by Sunday", ByPrefix)
  {
    assert DeadlineWord + " " + "return book /by Sunday" == "deadline return book /by Sunday";
    DatedLine(store, DeadlineWord, "return book /by Sunday");
  }

  lemma ReadBookEntry()
    ensures ListingLine(1, Todo("read book", false)) == "1. [T][ ] " + "read book"
  {
    RenderNewTask(Todo("read book", false));
    assert NatToString(1) == "1";
    assert "1" + ". " + "[T][ ] " == "1. [T][ ] ";
  }

  lemma ReturnBookEntry()
    ensures ListingLine(2, Deadline("return book", "Sunday", false)) == "2. [D][ ] " + "return book" + " (by: " + "Sunday" + ")"
  {
    RenderNewTask(Deadline("return book", "Sunday", false));
    assert NatToString(2) == "2";
    assert "2" + ". " + "[D][ ] " == "2. [D][ ] ";
  }

  lemma ListLine(store: seq<Task>)
    ensures Execute(store, "list") == ListStep(store, None)
  {
    SingleWordSplit(ListWord);
    ToLowerIdentity(ListWord);
    ExecuteDispatch(store, ListWord);
  }

  /** A listing of two tasks: the header and their two numbered entries. */
  lemma DisplayTwo(ts: seq<Task>)
    requires |ts| == 2
    ensures DisplayString(ts) == MessageList + ("\n\t " + ListingLine(1, ts[0])) + ("\n\t " + ListingLine(2, ts[1]))
  {
    var first := ts[..1];
    assert DisplayString(first) == MessageList + ("\n\t " + ListingLine(1, ts[0])) by {
      DisplayEmpty();
      assert [] + [ts[0]] == first;
      DisplayStringSnoc([], ts[0]);
    }
    assert first + [ts[1]] == ts;
    DisplayStringSnoc(first, ts[1]);
  }

  lemma DisplayEmpty()
    ensures DisplayString([]) == MessageList
  {
    assert ListingLines([]) == [];
  }

  lemma ListTwoTasks(store: seq<Task>)
    requires store == [Todo("read book", false), Deadline("return book", "Sunday", false)]
    ensures Execute(store, "list").response ==
      Success(Listed(MessageList + ("\n\t " + ("1. [T][ ] " + "read book")) + ("\n\t " + ("2. [D][ ] " + "return book" + " (by: " + "Sunday" + ")"))))
  {
    ListLine(store);
    DisplayTwo(store);
    ReadBookEntry();
    ReturnBookEntry();
  }

  /**
   * `todo read book`, then `deadline return book /by Sunday`, then `list`:
   * two tasks, listed in order with their numbers.
   */
  lemma ReadBookSession()
    ensures var s1 := Execute([], "todo read book");
      var s2 := Execute(s1.tasks, "deadline return book /by Sunday");
      s1.tasks == [Todo("read book", false)] &&
      s2.tasks == [Todo("read book", false), Deadline("return book", "Sunday", false)] &&
      Execute(s2.tasks, "list").response ==
        Success(Listed(MessageList + ("\n\t " + ("1. [T][ ] " + "read book")) + ("\n\t " + ("2. [D][ ] " + "return book" + " (by: " + "Sunday" + ")"))))
  {
    AddReadBook();
    AddReturnBook([Todo("read book", false)]);
    ListTwoTasks([Todo("read book", false), Deadline("return book", "Sunday", false)]);
  }

  /**
   * The character before the marker is dropped whatever it is: in
   * `deadline x/by Monday` it is the whole description.
   */
  lemma DescriptionLosesCharBeforeMarker()
    ensures Execute([], "deadline x/by Monday").tasks == [Deadline("", "Monday", false)]
  {
    var text := "x/by Monday";
    assert Parameters(text, ByPrefix) == Success(("", "Monday")) by {
      FirstMarkerAt(text, ByPrefix, 1);
      assert text[5..] == "Monday";
    }
    assert Execute([], "deadline x/by Monday") == DatedStep([], text, ByPrefix) by {
      assert DeadlineWord + " " + text == "deadline x/by Monday";
      DatedLine([], DeadlineWord, text);
    }
    DatedTaskValidateThenCommit([], text, ByPrefix);
  }
}
