# MMM-Flipper rotation core in Dafny

MMM-Flipper is a MagicMirror widget that rotates chores round a fixed list of
people per task. A click on a task "flips" it: the person whose turn it was is
recorded as the last person, with the time, and the turn passes to the next
person, wrapping at the end of the list. This project models the logic of the
`FlipperCore` object in `flipper-core.js`:

- the merge of the configured task list with the persisted name-to-state
  mapping (`initializeTaskStates`);
- the flip of one task inside that mapping (`flipTask`);
- the colour a task card gives its current person (the expression inside
  `createTaskCard`);
- the `"Mon D, h:mm AM|PM"` text of a flip time (`formatDate`).

Modules, one per concern:

| file | module | contents |
|---|---|---|
| `options.dfy` | `Options` | `Option`, standing for JavaScript's `null`/`undefined` |
| `decimal.dfy` | `Decimal` | the decimal text JavaScript gives a non-negative integer, and a reader for it |
| `task_states.dfy` | `TaskStates` | `Task`, `TaskState`, the mapping, and the merge |
| `rotation.dfy` | `Rotation` | JavaScript's `%`, one flip, the flip inside the mapping, runs of flips |
| `colors.dfy` | `Colors` | colour resolution |
| `date_format.dfy` | `DateFormat` | the date text, and a parser that reads it back |

Modelling choices:

- The mapping is a `map<string, TaskState>`. In the source, a persisted entry
  is an object, and objects are always truthy. So "has a persisted entry" is
  `name in existing`.
- The merge is the source's loop, written as a fold over the task list. When
  two configured tasks share a name, the later one's fresh state overwrites the
  earlier one's. The contract of `InitializeTaskStates` says exactly that.
- `currentIndex` is an exact integer (`int`). `people[i]` outside the list is
  `None`, as JavaScript's `undefined` is. `%` is JavaScript's truncating
  remainder (`Rotation.JsRemainder`), not Dafny's Euclidean one.
- The current time is a parameter (`now`). Its type `Timestamp` is an integer
  reading of the clock; nothing in the model interprets it. `formatDate` takes
  the fields a JavaScript `Date` supplies: month 0..11, day 1..31, hour 0..23,
  minute 0..59.
- Facts about the code that the model follows:
  - A colour entry counts only when it is a non-empty string. An empty or
    missing default colour falls back to the built-in `"#4CAF50"`.
  - `updateTaskCard` returns when the card is missing (flipper-core.js:82).
- Both "index in range" and "last person recorded exactly when a last flip
  time is" are invariants that the code keeps but never checks. The model
  states them as `TaskStates.WellFormed`. It proves that the merge establishes
  them and that a flip preserves them.
- The date text is pinned exactly. `DateFormat.ParseDate` reads only the
  spelling the formatter writes: no leading zeros on the day or hour, and
  exactly two digits for the minute. So a text that reads back as a given
  time is that time's text.

## Model

| member | source | states |
|---|---|---|
| `TaskStates.Fresh` | flipper-core.js:16-21 | a new task's state starts at index 0 with no last person and no last flip time, holds the task's own people list, and is well-formed exactly when that list is non-empty |
| `TaskStates.InitializeTaskStates` | flipper-core.js:8-26 | the result's names are exactly the configured names, each configured task's name among them; a name with a persisted entry keeps that entry unchanged; otherwise the last task with that name gets index 0, no last person, no last flip time and its own people list |
| `TaskStates.StaleEntriesDropped` | flipper-core.js:9-25 | a name that no configured task carries, persisted or not, is absent from the merge |
| `TaskStates.EntryOrigin` | flipper-core.js:11-22 | each configured name is present and holds either its persisted entry or a fresh state built from a task carrying that name |
| `TaskStates.InitializeIdempotent` | flipper-core.js:11-25 | merging the same task list against the merge's own output gives the same mapping |
| `TaskStates.InitializeWellFormed` | flipper-core.js:13-21 | well-formed persisted entries and non-empty people lists give a mapping where every pointer is in range and last person and last flip time are set together |
| `Rotation.JsRemainder` | flipper-core.js:101 | the remainder is smaller than the divisor in magnitude, has the dividend's sign, and agrees with Euclidean remainder for non-negative dividends |
| `Rotation.JsRemainderOdd` | flipper-core.js:101 | negating the dividend negates the remainder, unlike Dafny's `%` |
| `Rotation.PersonAt` | flipper-core.js:97 | reading `people[i]` gives a person exactly when `i` is a position of the list, and then that position's person; otherwise `undefined` |
| `Rotation.Flip` | flipper-core.js:96-103 | from an in-range pointer: the outgoing person becomes the last person; the pointer moves one place on, or back to 0 from the end; well-formedness is kept. From any pointer: the supplied time becomes the last flip time and people are unchanged. From a pointer outside the list, no last person is recorded. From a non-negative pointer, the result is in range; from a pointer past the end, it is (pointer + 1) mod the number of people. From a negative pointer, the result is in the range from 1 - number of people to 0 |
| `Rotation.FlipTask` | flipper-core.js:92-104 | an unknown name leaves the mapping unchanged; otherwise the named entry is flipped, the key set is unchanged and every other entry is untouched |
| `Rotation.FlipTaskWellFormed` | flipper-core.js:96-101 | flipping any name keeps a well-formed mapping well-formed |
| `Rotation.SinglePersonFlip` | flipper-core.js:97-101 | a one-person task stays at index 0, yet still records its person and the flip time |
| `Rotation.FlipsAdvance` | flipper-core.js:101 | after k flips from an in-range pointer, the pointer is (start + k) mod the number of people, and still in range |
| `Rotation.FullCycleRestoresIndex` | flipper-core.js:101 | as many flips as the task has people bring the pointer back to where it started |
| `Rotation.FlipsRecordOutgoing` | flipper-core.js:97-98 | the k-th flip of a run records the person k-1 places after the starting one, and the time of that flip |
| `Rotation.FlipTaskRepeatedIsFlips` | flipper-core.js:92-104 | repeated flips of one name in the mapping change only that entry, exactly as the same run of single-task flips would |
| `Rotation.FullCycleInMapping` | flipper-core.js:92-104 | in the mapping, one flip per person restores the task's pointer and leaves every other task's entry as it was |
| `Colors.ResolveColor` | flipper-core.js:43-45 | the result is never empty; it is the task's colour at that index when one exists and is non-empty; otherwise the non-empty default colour; otherwise `"#4CAF50"` |
| `Colors.ResolveColorCandidates` | flipper-core.js:43-45 | the result is always one of the task's colours, the default colour, or the built-in colour |
| `Colors.OwnColorIgnoresDefault` | flipper-core.js:43-44 | when the task has its own colour for the index, the default colour does not matter |
| `Colors.DishesExample` | flipper-core.js:43-45 | "Dishes" with the single colour `#FF0000` shows red at index 0 and the default at index 1; with no default, or an empty one, it shows the built-in colour |
| `Decimal.NatToString` | flipper-core.js:125 | the text of a number is a non-empty run of digits without a leading zero, one digit long exactly below ten |
| `Decimal.NatToStringInjective` | flipper-core.js:125 | distinct numbers have distinct texts, since the text reads back as its number |
| `Decimal.ReadNumberCanonical` | flipper-core.js:125 | whatever the reader accepts is exactly the text of the number it returns, followed by the rest |
| `Decimal.ReadNumberNatToString` | flipper-core.js:125 | reading a number's text back, up to a following non-digit, gives the number and the rest of the text |
| `DateFormat.Meridiem` | flipper-core.js:119 | the suffix is "AM" or "PM", and "PM" exactly when the hour is 12 or more |
| `DateFormat.Hour12` | flipper-core.js:121-122 | the displayed hour is in 1..12 and congruent to the 24-hour hour modulo 12, so 0 and 12 show as 12 |
| `DateFormat.MinuteField` | flipper-core.js:123 | the minute field is exactly two digits whose value is the minute |
| `DateFormat.MonthIndexOfMonths` | flipper-core.js:112-115 | each abbreviation in the month table identifies its own month |
| `DateFormat.FormatDateRoundTrip` | flipper-core.js:107-126 | the text reads back as the month abbreviation, the day, the 12-hour hour, the two-digit minute, and "PM" exactly when the hour is 12 or more |
| `DateFormat.FormatDateExact` | flipper-core.js:112-125 | the formatter's text is the only text that reads back as those parts, so its day and hour carry no padding and its shape is `month + " " + day + ", " + h + ":" + mm + " " + ampm` |
| `DateFormat.ParseDateInjective` | flipper-core.js:125 | two texts that read back as the same parts are the same text |
| `DateFormat.ParseAssembled` | flipper-core.js:125 | any text assembled as `month + " " + day + ", " + h + ":" + mm + " " + AM/PM` reads back into the month, day, hour, minute and AM/PM flag |
| `DateFormat.ZeroPaddedDayRejected` | flipper-core.js:125 | "Jan 05, 3:07 PM" is not a text the reader accepts |
| `DateFormat.ZeroPaddedHourRejected` | flipper-core.js:125 | "Jan 5, 03:07 PM" is not a text the reader accepts |
| `DateFormat.HourRecovered` | flipper-core.js:119-122 | the 12-hour hour together with AM/PM determines the 24-hour hour |
| `DateFormat.FormatDateInjective` | flipper-core.js:112-125 | two valid times with the same text have the same month, day, hour and minute |
| `DateFormat.AfternoonExample` | flipper-core.js:107-126 | 15:07 on 5 January shows as "Jan 5, 3:07 PM" |
| `DateFormat.MidnightExample` | flipper-core.js:107-126 | 00:05 on 31 December shows as "Dec 31, 12:05 AM" |

## Left out

- Card building in `createTaskCard` (flipper-core.js:29-76) is DOM construction and is not modelled. That covers the title, the person text, the style strings, the click handler and the "Last: ... on ..." line. Only the colour choice is modelled.
- `updateTaskCard` (flipper-core.js:79-89) is a DOM lookup and replacement. It returns early when the card is missing (line 82), and has no other logic.
- `Date` handling (flipper-core.js:98, 108-118) is left out: the clock, the local time zone, and extracting fields from a time value. The time of a flip is a parameter, and `formatDate` starts from extracted fields.
- Empty people lists: `% 0` gives `NaN` in JavaScript (flipper-core.js:101). `Rotation.Flip` and `Rotation.FlipTask` require the flipped task's list to be non-empty.
- Object aliasing: a reused persisted entry is the same object and is mutated in place (flipper-core.js:14, 97-101). The model has value semantics and returns a new mapping.
- Persisted values other than task-state objects cannot be expressed in a `map<string, TaskState>`. A falsy value (`null`, `0`, `""`, `false`) fails the test at line 13 and would be replaced by a fresh state. A truthy non-object (`3`, `"x"`) passes that test and would be kept by line 14. Names that hit inherited object properties are not modelled either.
- Persisted indices are exact integers in the model. A JavaScript index is a double. Above 2^53 it loses precision: with 3 people, 2^53+1 is stored as 2^53 and flips to 2, where `Rotation.JsRemainder` gives 0. Fractional indices and `NaN` cannot be expressed.
- `node_helper.js` is not part of this model. It holds file and JSON load/save, and is the persistence collaborator.
- `MMM-Flipper.js` is not part of this model. It holds script loading, polling, socket messages and `getDom`. Its only logic is the guard at line 148, which merges persisted state only when it is non-empty; that guard is not modelled.
- `Colors.ResolveColor` assumes colour entries are strings. JavaScript would accept any truthy value there.
