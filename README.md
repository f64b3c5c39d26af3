# Task hub: timer, time report, timetable and to-do page logic in Dafny

This project models the client-side logic of a to-do web application with a
per-task timer, a time report and a weekly study timetable. It covers the
logic of four components; the sign-in page, the theme toggle and the page's
session handling are not modelled (see "Left out"):

- **Task timer** (`TaskTimer`, from `src/components/TaskTimer.tsx`). The clock
  text (`H:MM:SS` from one hour up, `M:SS` below) is proved against a parser
  that reads it back. The value shown is the stored baseline, plus the whole
  seconds since `timerStartedAt` while the timer runs; a `TimerView` class
  holds the `displayTime` state, its effect and its interval tick. The buttons
  each status offers, and the callback each button calls, are also modelled.
- **Time report** (`TimeStats`, from `src/components/TimeStats.tsx`). This covers
  the total of all tasks' time (`elapsed_time || 0`), the tasks with positive
  time, the pie-chart records with titles cut to 20 characters plus `"..."`,
  the cycling slice colours, and the `"Hh Mm Ss"` duration text, which is also
  proved against a parser.
- **Timetable** (`Timetable`, from `src/components/Timetable.tsx`). A class holds
  the entry list and the form. Adding is guarded by a blank-subject check,
  appends one entry and resets the form. Removing filters by id. The lookup
  returns one cell of the 7 × 17 grid.
- **To-do page** (`TodoPage`, from `src/pages/Index.tsx`). This covers the
  due-date badge rule, the active, completed and total counters, the
  blank-title and signed-in guard of `addTodo` with the row it inserts, and
  the update `toggleTodo` sends.

Shared pieces are kept in their own modules. `Text` holds JavaScript's
`trim()`, `toString()`, `padStart(2, "0")` and truncating `%`, plus the
decimal parser and field splitter the formatters are proved against. `Seqs`
holds `filter`, and `Wrappers` the `Option` type for null values.

JavaScript's `Math.floor(a / n)` with a positive `n` is Dafny's `a / n`.
JavaScript's `%` takes the sign of the dividend and is modelled as
`Text.JsRem`. So both formatters behave as the source does on negative counts
too. A negative count comes from a negative stored `elapsed_time` (shown by the
timer when it is not running, and summed into the report's total) or, while
the timer runs, from a start instant in the future.
Instants are integer milliseconds. A due date is its instant plus the calendar
day it falls on, and the clock is the current instant plus today's day index.
`isPast` compares instants; `isToday` and `isTomorrow` compare days.

Three points of the model that a reader might expect otherwise:

- in `M:SS` only the seconds are padded; the minutes are written as they are;
- the timetable is a grid of fixed day and time slots, with each entry shown
  in the cell of its day and slot;
- `elapsed_time` is not assumed to be non-negative, so the chart total equals
  the report total only under that hypothesis.

## Model

| member | source | states |
|---|---|---|
| `Text.Trim` | src/components/Timetable.tsx:34 | `s.trim()` is an infix of `s`; everything cut off before and after it is whitespace, and the result neither starts nor ends with whitespace |
| `Text.BlankIffAllWhitespace` | src/pages/Index.tsx:84 | `!s.trim()` holds exactly when every character of `s` is JavaScript whitespace |
| `Text.NatToString` | src/components/TaskTimer.tsx:52-54 | `n.toString()` is a non-empty string of digits with no leading zero, one digit exactly when `n < 10` |
| `Text.IntToString` | src/components/TimeStats.tsx:32-36 | the text of `x >= 0` reads back as `x` with the decimal parser; the text of `x < 0` is `'-'` followed by a text that reads back as `-x` |
| `Text.JsRem` | src/components/TaskTimer.tsx:48-49 | JavaScript `%`: `a` minus the result is a multiple of `b`; the result is Dafny's `%` for a non-negative dividend and lies in `(-b, 0]` for a negative one, which together fix it |
| `Text.HoursMinutesSeconds` | src/components/TaskTimer.tsx:47-49 | for a non-negative count, minutes and seconds are below 60 and `hours*3600 + minutes*60 + secs` gives the count back |
| `Text.PadStart2` | src/components/TaskTimer.tsx:52-54 | `padStart(2, "0")` leaves strings of length 2 or more alone and otherwise prefixes zeros up to length 2, keeping the string as a suffix |
| `Text.ParseNatToString` | src/components/TaskTimer.tsx:52-54 | the decimal text of `n` reads back as `n` |
| `Text.ParsePadded` | src/components/TaskTimer.tsx:52-54 | a number below 100, padded, is exactly two digits that read back as the number |
| `Seqs.Filter` | src/components/TimeStats.tsx:42 | `filter` keeps exactly the elements satisfying the predicate and is no longer than its input |
| `Seqs.FilterConcat` | src/components/Timetable.tsx:50 | `filter` distributes over concatenation, so kept elements stay in their original order |
| `Seqs.FilterKeepsAll` | src/components/Timetable.tsx:50 | a filter whose predicate holds of every element returns its input unchanged |
| `Seqs.FilterComplementLength` | src/pages/Index.tsx:321-327 | filters by a predicate and by its negation have lengths adding up to the input's |
| `TaskTimer.FormatClock` | src/components/TaskTimer.tsx:46-55 | for every count `n >= 0`, parsing `formatTime(n)` as `M:SS` / `H:MM:SS` gives back `n` |
| `TaskTimer.ParseClockText` | src/components/TaskTimer.tsx:51-54 | `H:MM:SS` with a positive hour and `M:SS`, built from minutes and seconds below 60, read back as `h*3600 + m*60 + s` and `m*60 + s` |
| `TaskTimer.FormatClockShape` | src/components/TaskTimer.tsx:46-54 | from 3600 up the text has three fields (unpadded hours, two-digit minutes and seconds); below, two fields (unpadded `n / 60`, two-digit seconds) |
| `TaskTimer.FormatClockExamples` | src/components/TaskTimer.tsx:46-54 | 45 → `"0:45"`, 125 → `"2:05"` |
| `TaskTimer.FormatClockHourExample` | src/components/TaskTimer.tsx:46-54 | 3725 → `"1:02:05"` |
| `TaskTimer.TickValue` | src/components/TaskTimer.tsx:33-35 | the tick value minus the baseline is the floor of `(now - start) / 1000`: that many whole seconds fit in the elapsed milliseconds and one more does not |
| `TaskTimer.TickValueMonotone` | src/components/TaskTimer.tsx:32-35 | the value an interval tick displays never decreases as `now` advances |
| `TaskTimer.TickValueFromStart` | src/components/TaskTimer.tsx:29-35 | from the start instant on, the tick value is at least the baseline, and during the first second it equals the baseline |
| `TaskTimer.TickValueStep` | src/components/TaskTimer.tsx:33-35 | each further 1000 ms add exactly one second to the tick value |
| `TaskTimer.TimerView.constructor` | src/components/TaskTimer.tsx:24-39 | on mount the display is `elapsedTime`, and the interval is installed exactly when the status is running and `timerStartedAt` is present |
| `TaskTimer.TimerView.Render` | src/components/TaskTimer.tsx:26-44 | on new props, when not running (or with no start instant) the display becomes the baseline; otherwise it is kept until the next tick; the invariant holds |
| `TaskTimer.TimerView.Tick` | src/components/TaskTimer.tsx:32-36 | an installed interval sets the display to baseline + `floor((now - start) / 1000)`; a cleared one changes nothing; the props are untouched |
| `TaskTimer.Controls` | src/components/TaskTimer.tsx:67-123 | Start appears iff stopped, Pause iff running, Resume iff paused, Stop iff not stopped; one button when stopped, two otherwise |
| `TaskTimer.Invokes` | src/components/TaskTimer.tsx:72-117 | Start and Resume both call `onStart`, Pause calls `onPause`, Stop calls `onStop` |
| `TaskTimer.OfferedCallbacksByStatus` | src/components/TaskTimer.tsx:67-123 | `onPause` is reachable only while running, `onStop` never when stopped, `onStart` exactly when not running |
| `TimeStats.FormatDuration` | src/components/TimeStats.tsx:26-37 | for every count `n >= 0`, parsing the `"Hh Mm Ss"` / `"Mm Ss"` / `"Ss"` text gives back `n` |
| `TimeStats.ParseDurationText` | src/components/TimeStats.tsx:31-36 | each of the three text shapes, built from minutes and seconds below 60, reads back as the count it denotes |
| `TimeStats.DurationFields` | src/components/TimeStats.tsx:26-37 | the text has three fields when there is a whole hour, else two when there is a whole minute, else one; each field is digits followed by its unit |
| `TimeStats.FormatDurationExample` | src/components/TimeStats.tsx:26-37 | 420 seconds are shown as `"7m 0s"` |
| `TimeStats.TotalTime` | src/components/TimeStats.tsx:40 | when no task has negative time, the total is non-negative and at least each task's own time |
| `TimeStats.TotalTimeConcat` | src/components/TimeStats.tsx:40 | the `reduce` total of two lists joined is the sum of their totals |
| `TimeStats.TasksWithTime` | src/components/TimeStats.tsx:42 | keeps exactly the tasks whose `elapsed_time` is present and positive (in order, via `Seqs.FilterConcat`) |
| `TimeStats.ChartName` | src/components/TimeStats.tsx:45 | a title of at most 20 characters is kept; a longer one becomes its first 20 characters followed by `"..."`; never more than 23 characters |
| `TimeStats.ChartData` | src/components/TimeStats.tsx:44-48 | one record per task with time, position by position: `value` is its positive `elapsed_time`, `fullName` its title, `name` its shortened title |
| `TimeStats.TotalOfTasksWithTime` | src/components/TimeStats.tsx:40-42 | when no task has negative time, dropping the tasks without time leaves the total unchanged |
| `TimeStats.ChartTotalIsTotalTime` | src/components/TimeStats.tsx:40-48 | when no task has negative time, the chart values add up to `totalTime` |
| `TimeStats.CellColor` | src/components/TimeStats.tsx:90-91 | every slice colour is one of the palette's colours |
| `TimeStats.CellColorCycle` | src/components/TimeStats.tsx:15-24 | the palette has 8 colours; slice `i + 8` has the colour of slice `i`, and the first eight follow the palette |
| `Timetable.WithoutId` | src/components/Timetable.tsx:49-50 | keeps exactly the entries whose id differs from the removed one |
| `Timetable.WithoutIdKeepsOrder` | src/components/Timetable.tsx:49-50 | removal distributes over concatenation (order kept), and removing an absent id changes nothing |
| `Timetable.CellEntries` | src/components/Timetable.tsx:54-56 | a cell holds exactly the entries with that day and that time |
| `Timetable.CellEntriesKeepOrder` | src/components/Timetable.tsx:54-56 | a cell's entries appear in list order |
| `Timetable.GridLabelsDistinct` | src/components/Timetable.tsx:17-22 | 7 distinct days and 17 distinct time slots |
| `Timetable.EntryInOneCell` | src/components/Timetable.tsx:113-119 | an entry whose day and time are grid labels is in exactly one cell of the grid |
| `Timetable.ValidEntriesInOneCell` | src/components/Timetable.tsx:113-119 | every entry of a timetable in its valid state is shown in exactly one cell |
| `Timetable.Timetable.constructor` | src/components/Timetable.tsx:25-31 | no entries; the form is first day, first slot, empty subject and topic |
| `Timetable.Timetable.SelectDay` | src/components/Timetable.tsx:65-73 | the day select sets only the form's day, to one of the days |
| `Timetable.Timetable.SelectTime` | src/components/Timetable.tsx:74-82 | the time select sets only the form's time, to one of the slots |
| `Timetable.Timetable.SetSubject` | src/components/Timetable.tsx:83-87 | the subject input sets only the form's subject |
| `Timetable.Timetable.SetTopic` | src/components/Timetable.tsx:88-92 | the topic input sets only the form's topic |
| `Timetable.Timetable.AddEntry` | src/components/Timetable.tsx:33-47 | adds iff the subject is not blank after trimming; then one entry carrying the form's fields is appended after the unchanged old ones and the form is reset; otherwise entries and form are unchanged |
| `Timetable.Timetable.RemoveEntry` | src/components/Timetable.tsx:49-52 | the entries become `WithoutId` of the old ones; the form is unchanged; every entry stays in the grid |
| `Timetable.Timetable.EntriesAt` | src/components/Timetable.tsx:54-56 | the current entries of one cell: exactly those with that day and time |
| `TodoPage.DueDateBadge` | src/pages/Index.tsx:155-173 | no badge iff no due date; "Overdue" iff past and not today; "Today" iff today (even if past); "Tomorrow" iff tomorrow and not past; otherwise the formatted date |
| `TodoPage.BadgeByDay` | src/pages/Index.tsx:158-173 | with a calendar consistent with the instants, the badge is decided by the due day: earlier → Overdue, today → Today, next day → Tomorrow, later → date |
| `TodoPage.ActiveCount` | src/pages/Index.tsx:321 | at most the total, and zero exactly when every todo is completed |
| `TodoPage.CompletedCount` | src/pages/Index.tsx:327 | at most the total, and zero exactly when no todo is completed |
| `TodoPage.ActivePlusCompletedIsTotal` | src/pages/Index.tsx:321-331 | active count + completed count = total count |
| `TodoPage.AddTodoRow` | src/pages/Index.tsx:82-93 | nothing is inserted iff the title is blank after trimming or no user is signed in; otherwise the row carries the untrimmed title, the user's id and the due date |
| `TodoPage.AddedTitleNotBlank` | src/pages/Index.tsx:84 | an inserted title contains a non-whitespace character |
| `TodoPage.ToggleUpdate` | src/pages/Index.tsx:113-118 | the update targets the same id and writes the negation of the current flag |
| `TodoPage.ToggleTwiceRestores` | src/pages/Index.tsx:113-118 | a stored toggle changes only `completed`, and two toggles restore the todo |

## Left out

- Backend calls: fetching, inserting, updating and deleting todos, the auth listener, session check and sign-out in `src/pages/Index.tsx`. They are remote, asynchronous calls to a service whose behaviour is not visible. `deleteTodo` is nothing but such a call. `TodoPage.Apply` gives only the effect of an update filtered on `id`.
- `src/pages/Auth.tsx` is not part of this model. Its form validation is a declarative schema whose checks live in a library.
- `src/components/ThemeToggle.tsx` is not part of this model. It only changes DOM classes and `localStorage`.
- Timer accumulation on pause or stop, and the status changes start, pause and stop cause, are left out. `TaskTimer.tsx` only calls the `onStart`, `onPause` and `onStop` props; the code that folds elapsed time into `elapsed_time` and sets `timer_started_at` lives outside the components modelled here.
- The page's session handling: the redirect to `/auth` when there is no session (`src/pages/Index.tsx:38-40`, `50-52`) is navigation driven by the auth service.
- The reset of the new-todo title and due date after a successful insert (`src/pages/Index.tsx:97-98`) follows the remote insert and is not modelled; `TodoPage.AddTodoRow` gives only the guard and the row sent.
- Interval scheduling: `setInterval` and `clearInterval` are represented only by `TaskTimer.TimerView.Tick` calls, which fire only while an interval is installed. Their timing is not modelled.
- Date handling: parsing timestamps (`new Date(...).getTime()`), `Date.now()`, time zones and the `date-fns` functions are abstracted as integer instants and calendar-day indices. The `"MMM d"` text is kept as the instant it renders (`TodoPage.MonthDay`). An unparseable timestamp (`NaN`) is not modelled.
- Numbers: JavaScript numbers are doubles, and the model uses unbounded integers. Fractional `elapsed_time` values, `NaN` (falsy in `elapsed_time || 0`) and loss of precision in very large sums are not modelled.
- `TimeStats.ChartName`: lengths and the 20-character cut are counted in characters (Unicode scalar values), while JavaScript counts UTF-16 code units, so titles with characters outside the Basic Multilingual Plane are cut at a different place.
- `TaskTimer.FormatClock`: the read-back is proved for non-negative counts only. A negative count (a negative stored `elapsed_time`, or a start instant in the future) is formatted with JavaScript's semantics, but no property about that text is proved.
- `TimeStats.FormatDuration`: the read-back is proved for non-negative counts only. A negative count (a negative `elapsed_time`, or a total of them) is formatted with JavaScript's semantics, but no property about that text is proved.
- `TimeStats.ChartTotalIsTotalTime`: requires every `elapsed_time` to be non-negative. A negative value is counted in the total but excluded from the chart, so the two differ.
- Timetable ids come from `Date.now().toString()`. The id is a parameter of `Timetable.Timetable.AddEntry`, and its uniqueness is not proved.
- `Timetable.Timetable.SelectDay` and `Timetable.Timetable.SelectTime` require a value from the select's options, because the handlers receive nothing else.
- Badge colour classes, the chart's percentage labels (floating point), chart rendering, all markup, toasts, the loading state and navigation.
