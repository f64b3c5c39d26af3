/** The main to-do page: the due-date badge, the active / completed / total
    counters, and what the add and toggle handlers send to the store.

    Dates are abstract: a due date is its instant together with the local
    calendar day it falls on, and the clock gives the current instant and
    today's day index. `isPast`, `isToday` and `isTomorrow` compare these. */
module TodoPage {
  import opened Wrappers
  import opened Text
  import opened Seqs

  datatype DueDate = DueDate(instant: int, day: int)

  datatype Clock = Clock(now: int, today: int)

  datatype Todo = Todo(id: string, title: string, completed: bool, createdAt: string, dueDate: Option<DueDate>)

  /** The badge text; `MonthDay` is the `"MMM d"` rendering of the instant. */
  datatype BadgeText = Overdue | Today | Tomorrow | MonthDay(instant: int)

  predicate IsPast(d: DueDate, clock: Clock) {
    d.instant < clock.now
  }

  predicate IsToday(d: DueDate, clock: Clock) {
    d.day == clock.today
  }

  predicate IsTomorrow(d: DueDate, clock: Clock) {
    d.day == clock.today + 1
  }

  /** `getDueDateBadge`: no badge without a due date; otherwise "Overdue" for a
      past date that is not today, then "Today", then "Tomorrow", and the
      formatted date when none of these applies. */
  function DueDateBadge(due: Option<DueDate>, clock: Clock): (r: Option<BadgeText>)
    ensures r.None? <==> due.None?
    ensures r == Some(Overdue) <==> due.Some? && IsPast(due.value, clock) && !IsToday(due.value, clock)
    ensures r == Some(Today) <==> due.Some? && IsToday(due.value, clock)
    ensures r == Some(Tomorrow) <==> due.Some? && !IsPast(due.value, clock) && IsTomorrow(due.value, clock)
    ensures r.Some? && r.value.MonthDay? <==>
              due.Some? && !IsPast(due.value, clock) && !IsToday(due.value, clock) && !IsTomorrow(due.value, clock)
    ensures r.Some? && r.value.MonthDay? ==> r.value.instant == due.value.instant
  {
    match due
    case None => None
    case Some(d) =>
      if IsPast(d, clock) && !IsToday(d, clock) then Some(Overdue)
      else if IsToday(d, clock) then Some(Today)
      else if IsTomorrow(d, clock) then Some(Tomorrow)
      else Some(MonthDay(d.instant))
  }

  /** The calendar day of a due date agrees with its instant: a date before
      now lies on today or earlier, and a day before today lies before now. */
  predicate CalendarConsistent(d: DueDate, clock: Clock) {
    && (d.instant < clock.now ==> d.day <= clock.today)
    && (d.day < clock.today ==> d.instant < clock.now)
  }

  /** With a consistent calendar the badge depends on the due day alone:
      earlier days are overdue, then today, tomorrow, and later days show the
      date. */
  lemma BadgeByDay(d: DueDate, clock: Clock)
    requires CalendarConsistent(d, clock)
    ensures DueDateBadge(Some(d), clock) ==
              if d.day < clock.today then Some(Overdue)
              else if d.day == clock.today then Some(Today)
              else if d.day == clock.today + 1 then Some(Tomorrow)
              else Some(MonthDay(d.instant))
  {
  }

  // ---------------------------------------------------------------------------
  // Counters

  predicate IsActive(t: Todo) {
    !t.completed
  }

  predicate IsCompleted(t: Todo) {
    t.completed
  }

  /** `todos.filter(t => !t.completed).length`. */
  function ActiveCount(todos: seq<Todo>): (n: nat)
    ensures n <= |todos|
    ensures n == 0 <==> forall t :: t in todos ==> t.completed
  {
    var r := Filter(todos, IsActive);
    assert r != [] ==> r[0] in r;
    |r|
  }

  /** `todos.filter(t => t.completed).length`. */
  function CompletedCount(todos: seq<Todo>): (n: nat)
    ensures n <= |todos|
    ensures n == 0 <==> forall t :: t in todos ==> !t.completed
  {
    var r := Filter(todos, IsCompleted);
    assert r != [] ==> r[0] in r;
    |r|
  }

  /** Every todo is counted exactly once: active plus completed is the total. */
  lemma ActivePlusCompletedIsTotal(todos: seq<Todo>)
    ensures ActiveCount(todos) + CompletedCount(todos) == |todos|
  {
    FilterComplementLength(todos, IsActive, IsCompleted);
  }

  // ---------------------------------------------------------------------------
  // Handlers

  /** The row `addTodo` inserts: the typed title as it is (not trimmed), the
      signed-in user, and the chosen due date if any. */
  datatype NewTodoRow = NewTodoRow(title: string, userId: string, dueDate: Option<int>)

  /** `addTodo`'s guard and insert payload: nothing is sent for a blank title
      or without a signed-in user. */
  function AddTodoRow(newTodo: string, user: Option<string>, dueDate: Option<int>): (r: Option<NewTodoRow>)
    ensures r.None? <==> IsBlank(newTodo) || user.None?
    ensures r.Some? ==> r.value.title == newTodo && r.value.userId == user.value && r.value.dueDate == dueDate
  {
    if IsBlank(newTodo) || user.None? then None else Some(NewTodoRow(newTodo, user.value, dueDate))
  }

  /** An inserted title holds at least one non-whitespace character. */
  lemma AddedTitleNotBlank(newTodo: string, user: Option<string>, dueDate: Option<int>)
    requires AddTodoRow(newTodo, user, dueDate).Some?
    ensures exists i :: 0 <= i < |newTodo| && !IsJsWhitespace(newTodo[i])
  {
    BlankIffAllWhitespace(newTodo);
  }

  /** The update `toggleTodo` sends: the row's id and the negated flag. */
  datatype CompletedUpdate = CompletedUpdate(id: string, completed: bool)

  function ToggleUpdate(id: string, completed: bool): (u: CompletedUpdate)
    ensures u.id == id && u.completed != completed
  {
    CompletedUpdate(id, !completed)
  }

  /** The todo once the update is stored: only `completed` changes. */
  function Apply(t: Todo, u: CompletedUpdate): Todo {
    if t.id == u.id then t.(completed := u.completed) else t
  }

  /** Toggling twice restores the todo; a toggle changes nothing but the flag. */
  lemma ToggleTwiceRestores(t: Todo)
    ensures var once := Apply(t, ToggleUpdate(t.id, t.completed));
            && once.completed != t.completed
            && once.(completed := t.completed) == t
            && Apply(once, ToggleUpdate(once.id, once.completed)) == t
  {
  }
}
