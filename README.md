# Duke task manager — a Dafny model

Duke (`src/main/java/Duke.java`) is a line-oriented task manager. Each input
line is trimmed and stored in the static field `userCommand`. `executeCommand`
then splits off a command word and runs one of six verbs against a bounded
task store. The store is a `Task[100]` array with a manual `sizeOfTaskList`
counter. The verbs are `todo`, `deadline … /by …`, `event … /at …`,
`done <n>`, `list` and `bye`. This project models that interpreter and
proves what it does to the store and what it reports.

The model has five modules:

- `Wrappers` (`wrappers.dfy`): `Option`, `Result` and `Outcome`.
- `JavaText` (`java_text.dfy`): the `java.lang` operations the interpreter relies on.
  - `indexOf`.
  - `toLowerCase`, restricted to ASCII.
  - `trim`.
  - `Integer.parseInt`, with its 32-bit range.
  - `"%d"` rendering.
  - 32-bit `int` wrap-around.
- `Tasks` (`tasks.dfy`): a task as a value. It has a kind (todo, deadline or event), a description, a date for the last two kinds, and a done flag. `MarkDone` models `setTaskStatus`, and `Render` models `toString`.
- `Interpreter` (`interpreter.dfy`): the pure specification of one step.
  - `Execute(store, line)` returns the new task list, the new `userCommand` and either a reply or one of the errors caught at the end of `executeCommand`.
  - The reply is `Exiting`, `Listed`, `Marked` or `Added`. The errors are `InvalidCommand`, `IndexOutOfRange`, `InvalidSyntax(usage)` and `EmptyList`.
  - The parsing functions follow the Java statements one by one: `CommandWord`, `Remainder`, `TaskNumber` and `Parameters`.
  - `SyntaxMessage` is `getSyntaxMessage`. Its behaviour is stated by `MarkerExtraction`.
- `DukeApp` (`duke.dfy`): class `Duke`, with the fields `tasks: array<Task>` (length 100), `size` and `userCommand`.
  - Its methods mirror the Java methods and update those fields in place.
  - Each method is proved against `Interpreter`. `ExecuteCommand` leaves exactly the list, `userCommand` and response that `Execute` gives for the old list and line.

`Scenarios` (`scenarios.dfy`) states what `Execute` gives for concrete lines. One of them is the session `todo read book`, `deadline return book /by Sunday`, `list`.

The source's quirks are modelled as written:

- **Remainder heuristic.** The remainder is absent whenever the trimmed line has at most 4 characters. Otherwise it is everything after the first space, or the whole line if it has no space.
- **`done` argument.** `getTaskNumber` cuts its argument again at its first space.
- **Empty-list check.** `getTaskNumber` checks for an empty list before it parses the number.
- **Description.** It drops the one character before the marker, whatever that character is.
- **Date.** It starts 4 characters after the marker.
- **101st add.** It fails at the array store, before the counter moves. It is reported as an index out of range.

The model also keeps these behaviours of the code:

- **Splitting.** The verb is split at the first single space, as `split(" ")` does. A run of spaces is not one separator.
- **Description and date.** Neither is trimmed. The description is cut one character short of the marker, and the date starts 4 characters after the marker.
- **Remainder.** The `length() > 4` remainder rule is kept as it is. There is no separate tokenizer.

## Model

| member | source | states |
|---|---|---|
| JavaText.IndexOf | src/main/java/Duke.java:295 | the result is the first index at which the pattern occurs, and -1 exactly when it never occurs |
| JavaText.ToLower | src/main/java/Duke.java:197 | lower-casing keeps the length and lower-cases each ASCII letter in place |
| JavaText.ToLowerIdentity | src/main/java/Duke.java:197 | text without upper-case letters is its own lower case |
| JavaText.Trim | src/main/java/Duke.java:116 | the trimmed line has no blank character at either end, it is empty exactly when the input is all blanks, and it is unchanged when neither end is blank |
| JavaText.TrimIsMiddle | src/main/java/Duke.java:116 | the trimmed line is a contiguous middle of the input, and everything cut off before and after it is blank |
| JavaText.ParseInt | src/main/java/Duke.java:78 | parsing succeeds exactly when the text is an optional sign followed by at least one digit and the signed value fits in 32 bits; the result is that signed value |
| JavaText.NatToString | src/main/java/Duke.java:365 | the `%d` rendering of a number is a non-empty string of digits with no leading zero (except for 0 itself) |
| JavaText.NatToStringValue | src/main/java/Duke.java:365 | reading back the digits that `%d` prints gives the number |
| JavaText.ParseNatToString | src/main/java/Duke.java:78 | `parseInt` of a printed non-negative int gives that int back |
| JavaText.Wrap32 | src/main/java/Duke.java:78 | `parseInt(...) - 1` is an int: it equals the exact value inside the 32-bit range, and MIN_VALUE - 1 wraps to MAX_VALUE |
| Tasks.MarkDone | src/main/java/Duke.java:240 | the marked task is done and keeps its kind, description and date |
| Tasks.RenderNewTask | src/main/java/Duke.java:365 | a task not yet done renders as `[T][ ] d`, `[D][ ] d (by: x)` or `[E][ ] d (at: x)` |
| Tasks.RenderMarkDone | src/main/java/Duke.java:249 | marking changes the rendering in one character only, the status box, which becomes `X` |
| Interpreter.VerbSplit | src/main/java/Duke.java:195-204 | the word is the lower-cased text before the first space; the remainder is absent exactly when the line has at most 4 characters, and otherwise is the text after the first space, or the whole line when it has none |
| Interpreter.LongWordHasRemainder | src/main/java/Duke.java:198-199 | a command word longer than 4 characters always leaves a remainder, so `deadline` and `event` never see a null `userCommand` |
| Interpreter.ComposeThenSplit | src/main/java/Duke.java:195-204 | a line made of a space-free word, a space and a remainder (longer than 4 in all) splits back into the lower-cased word and exactly that remainder |
| Interpreter.SingleWordSplit | src/main/java/Duke.java:195-204 | a one-word line gives that word and no remainder, unless it is longer than 4, when the remainder is the whole word |
| Interpreter.TrimmedLineHasWord | src/main/java/Duke.java:197 | a trimmed line always has a first word, so the split's index error cannot happen after `getUserInput` |
| Interpreter.TrimmedTodoHasDescription | src/main/java/Duke.java:255-261 | after trimming, a `todo` that has a remainder has a non-empty description |
| Interpreter.MarkerExtraction | src/main/java/Duke.java:294-319 | extraction succeeds exactly when the first marker is at an index i > 0 with at least i + 5 characters; the description is the text before i - 1, the date the non-empty text from i + 4, and a failure carries the usage of that marker |
| Interpreter.ListingLines | src/main/java/Duke.java:363-366 | there is one entry per task, and entry k is the number k + 1, a period, a space and the rendering of task k |
| Interpreter.DisplayStringSnoc | src/main/java/Duke.java:365 | appending a task to the list appends exactly one indented, numbered line to the listing |
| Interpreter.TodoStepReply | src/main/java/Duke.java:324-327 | a successful `todo` reports the task now last in the list and the new size; a failed one leaves the list unchanged |
| Interpreter.DatedStepReply | src/main/java/Duke.java:324-327 | the same for `deadline` and `event` |
| Interpreter.OnlyDoneAndAddsChangeList | src/main/java/Duke.java:146-176 | only `done`, `todo`, `deadline` and `event` can change the list, and a step that changes it reports success |
| Interpreter.UnknownWordRejected | src/main/java/Duke.java:174-178 | a word other than the six verbs gives the invalid-command error and changes nothing |
| Interpreter.ExitLeavesStore | src/main/java/Duke.java:147-150 | `bye` ends the session and changes nothing |
| Interpreter.DoneErrorOrder | src/main/java/Duke.java:68-80 | `done` checks for no argument (syntax error with the `done` usage), then for an empty list, then for a non-integer argument (syntax error), and none of these changes the list |
| Interpreter.DoneBounds | src/main/java/Duke.java:154-161 | `done n` succeeds exactly when 1 <= n <= size; then only task n - 1 becomes done and the reply shows it; otherwise it is an index out of range and nothing changes |
| Interpreter.DoneListedNumber | src/main/java/Duke.java:78 | typing `done` with the number an entry shows in the listing marks exactly that entry |
| Interpreter.TodoAppends | src/main/java/Duke.java:255-261 | `todo` with no remainder is a syntax error with the `todo` usage and changes nothing; otherwise a not-done Todo with the remainder as description is appended, room allowing, and the reply reports the new size |
| Interpreter.DatedDispatch | src/main/java/Duke.java:166-173 | a `deadline` or `event` line always has a remainder and runs marker extraction on it |
| Interpreter.MarkerComposeExtract | src/main/java/Duke.java:294-319 | a description without the marker, then a space, the marker, a space and a non-empty date, extracts back into exactly that description and that date |
| Interpreter.DatedCommandRecords | src/main/java/Duke.java:166-173 | `deadline x /by y` appends `Deadline(x, y)` and `event x /at y` appends `Event(x, y)`, not done, room allowing and when x has no marker and y is not empty; the reply reports the new task and size |
| Interpreter.DatedTaskValidateThenCommit | src/main/java/Duke.java:269-285 | a failed extraction leaves the list unchanged and reports its error; a successful one appends exactly one not-done Deadline (for `/by`) or Event (for `/at`) with the extracted description and date, room allowing |
| Interpreter.CapacityKept | src/main/java/Duke.java:41 | no step grows the list beyond 100 tasks |
| Interpreter.AddWhenFull | src/main/java/Duke.java:179-180 | an add on a full list leaves it unchanged; `todo` with a description, and `deadline`/`event` whose extraction succeeds, report an index out of range; a failed extraction reports its own usage error |
| Interpreter.ListShowsEveryTask | src/main/java/Duke.java:217-222 | `list` fails on an empty list and otherwise shows the header and one entry per task, numbered 1..size in order; it never changes the list |
| Interpreter.TasksOnlyGrowOrGetMarked | src/main/java/Duke.java:144-188 | a step keeps or marks each existing task and adds at most one; no task is removed or reordered, and a done task stays done |
| DukeApp.Duke.constructor | src/main/java/Duke.java:97-100 | `initTaskList` gives a fresh array of 100 slots and an empty list |
| DukeApp.Duke.IsTaskListEmpty | src/main/java/Duke.java:59-61 | true exactly when no task is recorded |
| DukeApp.Duke.IsTaskNumberValid | src/main/java/Duke.java:230-232 | true exactly when the 0-based number names a recorded task |
| DukeApp.Duke.GetCommand | src/main/java/Duke.java:195-204 | returns the command word of the line and leaves the remainder (or null) in `userCommand` |
| DukeApp.Duke.GetTaskNumber | src/main/java/Duke.java:68-80 | returns the errors in the source's order, or the parsed number minus one as an int, as `TaskNumber` states |
| DukeApp.Duke.ExecuteMarkTask | src/main/java/Duke.java:239-241 | the task at the given index becomes done and no other task changes |
| DukeApp.Duke.StoreTask | src/main/java/Duke.java:259-260 | the task is written at index `size` and the count grows by one; on a full array the write fails before the count moves and nothing changes |
| DukeApp.Duke.ExecuteAddTodo | src/main/java/Duke.java:255-261 | no remainder is a syntax error; otherwise the remainder is stored as a new todo |
| DukeApp.Duke.GetDate | src/main/java/Duke.java:311-319 | the date is the non-empty text from 4 past the marker, or a syntax error with that marker's usage when fewer than 5 characters follow it |
| DukeApp.Duke.ProcessParameters | src/main/java/Duke.java:294-302 | returns the date and leaves the description in `userCommand`; on a syntax error `userCommand` is untouched |
| DukeApp.Duke.ExecuteAddDeadline | src/main/java/Duke.java:269-273 | extraction on `/by`, then the store: the list, `userCommand` and outcome are those of the `deadline` step |
| DukeApp.Duke.ExecuteAddEvent | src/main/java/Duke.java:281-285 | the same on `/at` |
| DukeApp.Duke.AddedReply | src/main/java/Duke.java:324-327 | after an add, the reply names the last task and the new size |
| DukeApp.Duke.GetDisplayString | src/main/java/Duke.java:359-368 | the loop builds the header followed by one numbered entry for each of the first `size` tasks |
| DukeApp.Duke.ExecuteListAllTasks | src/main/java/Duke.java:217-222 | the empty-list error, or the listing of all recorded tasks; nothing changes |
| DukeApp.Duke.ExecuteDone | src/main/java/Duke.java:154-161 | the `done` case: the task number, its range check, then the mark, as the `done` step states |
| DukeApp.Duke.ExecuteAdd | src/main/java/Duke.java:162-173 | the `todo`, `deadline` and `event` cases: the add and then the reply, as their steps state |
| DukeApp.Duke.ExecuteCommand | src/main/java/Duke.java:144-188 | the new list, `userCommand` and response are exactly those that `Execute` gives for the old list and line |
| DukeApp.Duke.Step | src/main/java/Duke.java:114-117 | one turn of the main loop: the trimmed input line is executed against the list |
| Scenarios.DoneOnEmptyList | src/main/java/Duke.java:75-76 | `done 5` on an empty list reports the empty list, not an index out of range |
| Scenarios.EventMarkerAtStart | src/main/java/Duke.java:296-301 | `event /at 6pm` is a syntax error with the event usage because the marker is at index 0 |
| Scenarios.DescriptionLosesCharBeforeMarker | src/main/java/Duke.java:298 | `deadline x/by Monday` records a deadline with an empty description and date `Monday` |
| Scenarios.ReturnBookParameters | src/main/java/Duke.java:294-319 | extracting `/by` from `return book /by Sunday` gives `return book` and `Sunday` |
| Scenarios.AddReadBook | src/main/java/Duke.java:255-261 | `todo read book` on an empty list records one todo `read book` |
| Scenarios.AddReturnBook | src/main/java/Duke.java:269-273 | `deadline return book /by Sunday` appends a deadline `return book` due `Sunday` |
| Scenarios.ListTwoTasks | src/main/java/Duke.java:359-368 | listing those two tasks shows `1. [T][ ] read book` and `2. [D][ ] return book (by: Sunday)` under the header |
| Scenarios.ReadBookSession | src/main/java/Duke.java:144-176 | the three-line session records both tasks in order and lists them with their numbers |

## Left out

- Console input (`Scanner`, `getUserInput`) and the endless `main` loop are left out. `DukeApp.Duke.Step` is one turn of the loop, with the input line as a parameter.
- The welcome message and the border and indentation framing of both `displayToUser` overloads are left out, because they only format output. Replies are structured values, and the message texts they are printed with are not modelled.
- `System.exit` in `executeExitProgramRequest` is left out, and so is the dead fall-through from `bye` into `list`. `bye` is the terminal `Exiting` reply.
- `getTask` is a plain array read; the model reads the array element directly.
- `getDisplayString` takes an array parameter but reads tasks through `getTask`, which uses the static field. It is only ever called with that field, so the model reads its parameter.
- The `Task`, `Todo`, `Deadline` and `Event` classes are not part of this model. A task is a value, so aliasing of task objects is not modelled. `Render` assumes the format `[T][ ] d`, `[D][ ] d (by: x)` and `[E][ ] d (at: x)`, with X in the status box of a done task. The source states only that the type letter (T, D, E) is shown and that a done task is marked with X (`src/main/java/Duke.java:215`).
- `toLowerCase` is modelled for ASCII letters only. Locale rules and non-ASCII case mappings are left out.
- `Integer.parseInt` is modelled for ASCII digits with an optional sign. Non-ASCII Unicode digits are left out.
- `String.trim` is modelled on characters up to U+0020, as Java defines it.
- Strings are modelled as sequences of Unicode scalar values, not of UTF-16 code units. Java's `length()`, `indexOf` and `substring` count code units, so for text outside the Basic Multilingual Plane the length checks and offsets differ from the model's. For example, `deadline x /by😀` records a deadline whose date is a lone low surrogate in Java (the remainder `x /by😀` has 7 code units, and the date check at line 314 asks for at least the marker index 2 plus 5), while the model counts 6 characters there and reports the deadline usage error.
- `%d` in the listing is modelled with ASCII digits. Locale-specific digits are not modelled.

