/**
 * One task of the list. The Java `Task`, `Todo`, `Deadline` and `Event`
 * classes are not part of this model; a task is the value they carry.
 */
module Tasks {

  /** A todo has a description only; a deadline (`/by`) and an event (`/at`) also carry a free-text date. */
  datatype Task =
    | Todo(description: string, done: bool)
    | Deadline(description: string, date: string, done: bool)
    | Event(description: string, date: string, done: bool)

  /** `setTaskStatus()`: the task is done and nothing else about it changes. */
  function MarkDone(t: Task): (r: Task)
    ensures r.done
    ensures r.description == t.description
    ensures r.Todo? == t.Todo? && r.Deadline? == t.Deadline? && r.Event? == t.Event?
    ensures !r.Todo? ==> r.date == t.date
  {
    t.(done := true)
  }

  function StatusIcon(t: Task): string
  {
    if t.done then "X" else " "
  }

  function TypeTag(t: Task): string
  {
    match t
    case Todo(_, _) => "T"
    case Deadline(_, _, _) => "D"
    case Event(_, _, _) => "E"
  }

  function DateSuffix(t: Task): string
  {
    match t
    case Todo(_, _) => ""
    case Deadline(_, date, _) => " (by: " + date + ")"
    case Event(_, date, _) => " (at: " + date + ")"
  }

  /** `toString()`: `[T][ ] read book`, `[D][X] return book (by: Sunday)`, `[E][ ] party (at: 6pm)`. */
  function Render(t: Task): string
  {
    "[" + TypeTag(t) + "][" + StatusIcon(t) + "] " + t.description + DateSuffix(t)
  }

  /** A task not yet done renders with an empty status box and, for a deadline or an event, its date after the description. */
  lemma RenderNewTask(t: Task)
    requires !t.done
    ensures t.Todo? ==> Render(t) == "[T][ ] " + t.description
    ensures t.Deadline? ==> Render(t) == "[D][ ] " + t.description + " (by: " + t.date + ")"
    ensures t.Event? ==> Render(t) == "[E][ ] " + t.description + " (at: " + t.date + ")"
  {
  }

  /** Marking a task changes its rendering in one place: the status box shows `X`. */
  lemma RenderMarkDone(t: Task)
    ensures |Render(MarkDone(t))| == |Render(t)|
    ensures Render(MarkDone(t))[4] == 'X'
    ensures forall k :: 0 <= k < |Render(t)| && k != 4 ==> Render(MarkDone(t))[k] == Render(t)[k]
  {
    var m := MarkDone(t);
    var head := "[" + TypeTag(t) + "][";
    var tail := "] " + t.description + DateSuffix(t);
    assert TypeTag(m) == TypeTag(t) && DateSuffix(m) == DateSuffix(t);
    assert Render(t) == head + StatusIcon(t) + tail;
    assert Render(m) == head + "X" + tail;
    assert |head| == 4;
    ReplaceOne(head, StatusIcon(t), "X", tail);
  }

  /** Two strings that differ only in one character, at index `|head|`. */
  lemma ReplaceOne(head: string, c: string, d: string, tail: string)
    requires |c| == 1 && |d| == 1
    ensures |head + d + tail| == |head + c + tail|
    ensures (head + d + tail)[|head|] == d[0]
    ensures forall k :: 0 <= k < |head + c + tail| && k != |head| ==> (head + d + tail)[k] == (head + c + tail)[k]
  {
  }
}
