/** The time report: the total of all tasks' tracked time, the tasks that have
    any, the pie-chart records built from them, the cell colours, and the
    `"Hh Mm Ss"` duration text. */
module TimeStats {
  import opened Wrappers
  import opened Text
  import opened Seqs

  /** A task as the report sees it; `elapsedTime` is `None` when the stored
      value is null or missing. */
  datatype StatTodo = StatTodo(id: string, title: string, elapsedTime: Option<int>)

  /** A pie-chart slice: the display name, the tracked seconds and the full title. */
  datatype ChartRecord = ChartRecord(name: string, value: int, fullName: string)

  // ---------------------------------------------------------------------------
  // Duration text

  /** `formatTime`: `"Hh Mm Ss"` with at least one hour, else `"Mm Ss"` with at
      least one minute, else `"Ss"`; no padding. Components follow JavaScript's
      `Math.floor` and truncating `%`. The text of a non-negative count reads
      back as that count. */
  function FormatDuration(seconds: int): (r: string)
    ensures seconds >= 0 ==> ParseDuration(r) == Some(seconds)
  {
    var hours := seconds / 3600;
    var minutes := JsRem(seconds, 3600) / 60;
    var secs := JsRem(seconds, 60);
    var r :=
      if hours > 0 then
        (IntToString(hours) + "h") + " " + (IntToString(minutes) + "m") + " " + (IntToString(secs) + "s")
      else if minutes > 0 then
        (IntToString(minutes) + "m") + " " + (IntToString(secs) + "s")
      else
        IntToString(secs) + "s";
    assert seconds >= 0 ==> ParseDuration(r) == Some(seconds) by {
      if seconds >= 0 {
        HoursMinutesSeconds(seconds);
        assert hours >= 0 && minutes >= 0 && secs >= 0;
        assert IntToString(hours) == NatToString(hours);
        assert IntToString(minutes) == NatToString(minutes);
        assert IntToString(secs) == NatToString(secs);
        ParseDurationText(hours, minutes, secs);
      }
    }
    r
  }

  /** A field made of digits followed by one unit letter. */
  function ParseUnit(field: string, unit: char): Option<nat> {
    if |field| >= 2 && field[|field| - 1] == unit then ParseNat(field[..|field| - 1]) else None
  }

  /** Reads a duration text back: `"Hh Mm Ss"` with a positive hour count,
      `"Mm Ss"` with a positive minute count, or `"Ss"`; minutes and seconds
      below 60. */
  function ParseDuration(t: string): Option<int> {
    var f := Split(t, ' ');
    if |f| == 3 then
      match (ParseUnit(f[0], 'h'), ParseUnit(f[1], 'm'), ParseUnit(f[2], 's'))
      case (Some(h), Some(m), Some(s)) =>
        if h > 0 && m < 60 && s < 60 then Some(h * 3600 + m * 60 + s) else None
      case _ => None
    else if |f| == 2 then
      match (ParseUnit(f[0], 'm'), ParseUnit(f[1], 's'))
      case (Some(m), Some(s)) => if 0 < m < 60 && s < 60 then Some(m * 60 + s) else None
      case _ => None
    else
      match ParseUnit(f[0], 's')
      case Some(s) => if s < 60 then Some(s) else None
      case None => None
  }

  /** A count of whole units as its digits followed by the unit letter. */
  lemma UnitField(n: nat, unit: char)
    requires unit != ' ' && !IsDigit(unit)
    ensures ParseUnit(NatToString(n) + [unit], unit) == Some(n)
    ensures ' ' !in NatToString(n) + [unit]
  {
    var f := NatToString(n) + [unit];
    assert f[..|f| - 1] == NatToString(n);
    ParseNatToString(n);
  }

  /** The fields of the three shapes of duration text. */
  lemma DurationTextFields(h: nat, m: nat, s: nat)
    ensures var a, b, c := NatToString(h) + "h", NatToString(m) + "m", NatToString(s) + "s";
            && Split(a + " " + b + " " + c, ' ') == [a, b, c]
            && Split(b + " " + c, ' ') == [b, c]
            && Split(c, ' ') == [c]
  {
    var a, b, c := NatToString(h) + "h", NatToString(m) + "m", NatToString(s) + "s";
    UnitField(h, 'h');
    UnitField(m, 'm');
    UnitField(s, 's');
    SplitNoSeparator(c, ' ');
    SplitFields(a, b, c, ' ');
    SplitFields(b, c, c, ' ');
  }

  /** Three unit fields read back as the count they denote. */
  lemma ParseDurationHours(t: string, a: string, b: string, c: string, h: nat, m: nat, s: nat)
    requires Split(t, ' ') == [a, b, c]
    requires ParseUnit(a, 'h') == Some(h) && ParseUnit(b, 'm') == Some(m) && ParseUnit(c, 's') == Some(s)
    requires h > 0 && m < 60 && s < 60
    ensures ParseDuration(t) == Some(h * 3600 + m * 60 + s)
  {
  }

  /** Two unit fields read back as the count they denote. */
  lemma ParseDurationMinutes(t: string, b: string, c: string, m: nat, s: nat)
    requires Split(t, ' ') == [b, c]
    requires ParseUnit(b, 'm') == Some(m) && ParseUnit(c, 's') == Some(s)
    requires 0 < m < 60 && s < 60
    ensures ParseDuration(t) == Some(m * 60 + s)
  {
  }

  /** Each shape of duration text reads back as its count: hours when there
      are any, minutes when there are any, and the seconds alone. */
  lemma ParseDurationText(h: nat, m: nat, s: nat)
    requires m < 60 && s < 60
    ensures h > 0 ==>
              ParseDuration((NatToString(h) + "h") + " " + (NatToString(m) + "m") + " " + (NatToString(s) + "s")) ==
              Some(h * 3600 + m * 60 + s)
    ensures m > 0 ==> ParseDuration((NatToString(m) + "m") + " " + (NatToString(s) + "s")) == Some(m * 60 + s)
    ensures ParseDuration(NatToString(s) + "s") == Some(s)
  {
    DurationTextFields(h, m, s);
    UnitField(h, 'h');
    UnitField(m, 'm');
    UnitField(s, 's');
    var a, b, c := NatToString(h) + "h", NatToString(m) + "m", NatToString(s) + "s";
    if h > 0 {
      ParseDurationHours(a + " " + b + " " + c, a, b, c, h, m, s);
    }
    if m > 0 {
      ParseDurationMinutes(b + " " + c, b, c, m, s);
    }
  }

  /** The fields of the duration text of a non-negative count. */
  lemma DurationFields(n: int)
    requires n >= 0
    ensures var h, m, s := n / 3600, JsRem(n, 3600) / 60, n % 60;
            Split(FormatDuration(n), ' ') ==
              if h > 0 then [NatToString(h) + "h", NatToString(m) + "m", NatToString(s) + "s"]
              else if m > 0 then [NatToString(m) + "m", NatToString(s) + "s"]
              else [NatToString(s) + "s"]
  {
    var h, m, s := n / 3600, JsRem(n, 3600) / 60, n % 60;
    assert h >= 0 && m >= 0 && JsRem(n, 60) == s;
    DurationTextFields(h, m, s);
  }

  /** The total of tasks with 0, 120 and 300 seconds is 420 seconds, shown as
      `"7m 0s"`. */
  lemma FormatDurationExample()
    ensures FormatDuration(420) == "7m 0s"
  {
    assert NatToString(7) == "7";
    assert NatToString(0) == "0";
  }

  // ---------------------------------------------------------------------------
  // Aggregation

  /** `todo.elapsed_time || 0`: a missing value counts as zero. */
  function Contribution(t: StatTodo): int {
    t.elapsedTime.GetOr(0)
  }

  /** `totalTime`: the left fold `acc + (elapsed_time || 0)` from 0. */
  function TotalTime(todos: seq<StatTodo>): (r: int)
    ensures (forall t :: t in todos ==> Contribution(t) >= 0) ==> r >= 0 && forall t :: t in todos ==> Contribution(t) <= r
  {
    if todos == [] then 0
    else
      var init := todos[..|todos| - 1];
      assert forall t :: t in init ==> t in todos;
      TotalTime(init) + Contribution(todos[|todos| - 1])
  }

  /** `todo.elapsed_time > 0`; a missing value is not greater than zero. */
  predicate HasTime(t: StatTodo) {
    t.elapsedTime.Some? && t.elapsedTime.value > 0
  }

  /** `tasksWithTime`: the tasks with positive tracked time, in their order. */
  function TasksWithTime(todos: seq<StatTodo>): (r: seq<StatTodo>)
    ensures |r| <= |todos|
    ensures forall t :: t in r <==> t in todos && HasTime(t)
  {
    Filter(todos, HasTime)
  }

  /** The slice name: titles longer than 20 characters are cut to their first
      20 followed by `"..."`; shorter ones are kept whole. */
  function ChartName(title: string): (r: string)
    ensures |r| <= 23
    ensures |title| <= 20 ==> r == title
    ensures |title| > 20 ==> |r| == 23 && r[..20] == title[..20] && r[20..] == "..."
  {
    if |title| > 20 then title[..20] + "..." else title
  }

  function ToRecord(t: StatTodo): ChartRecord {
    ChartRecord(ChartName(t.title), Contribution(t), t.title)
  }

  /** `chartData`: one record per task with time, in the same order, carrying
      its tracked seconds and its full title. */
  function ChartData(todos: seq<StatTodo>): (r: seq<ChartRecord>)
    ensures |r| == |TasksWithTime(todos)|
    ensures forall i :: 0 <= i < |r| ==>
              var t := TasksWithTime(todos)[i];
              && r[i].value > 0
              && Some(r[i].value) == t.elapsedTime
              && r[i].fullName == t.title
              && r[i].name == ChartName(t.title)
  {
    var w := TasksWithTime(todos);
    assert forall i :: 0 <= i < |w| ==> w[i] in w;
    seq(|w|, i requires 0 <= i < |w| => ToRecord(w[i]))
  }

  /** The sum of the chart's values. */
  function ChartTotal(records: seq<ChartRecord>): int {
    if records == [] then 0 else ChartTotal(records[..|records| - 1]) + records[|records| - 1].value
  }

  lemma {:induction false} TotalTimeConcat(a: seq<StatTodo>, b: seq<StatTodo>)
    ensures TotalTime(a + b) == TotalTime(a) + TotalTime(b)
    decreases |b|
  {
    if b == [] {
      assert a + b == a;
    } else {
      assert (a + b)[..|a + b| - 1] == a + b[..|b| - 1];
      assert (a + b)[|a + b| - 1] == b[|b| - 1];
      TotalTimeConcat(a, b[..|b| - 1]);
    }
  }

  /** When no task has negative time, dropping the tasks without time does not
      change the total. */
  lemma {:induction false} TotalOfTasksWithTime(todos: seq<StatTodo>)
    requires forall t :: t in todos ==> Contribution(t) >= 0
    ensures TotalTime(TasksWithTime(todos)) == TotalTime(todos)
    decreases |todos|
  {
    if todos != [] {
      var init, last := todos[..|todos| - 1], todos[|todos| - 1];
      assert todos == init + [last];
      FilterConcat(init, [last], HasTime);
      TotalOfTasksWithTime(init);
      var kept := Filter([last], HasTime);
      assert kept == if HasTime(last) then [last] else [];
      TotalTimeConcat(Filter(init, HasTime), kept);
      assert TotalTime(kept) == Contribution(last) by {
        if !HasTime(last) {
          assert Contribution(last) <= 0;
        } else {
          assert kept[..0] == [];
        }
      }
    }
  }

  /** The records of tasks that all have time sum to the tasks' total. */
  lemma {:induction false} ChartTotalOfRecords(w: seq<StatTodo>)
    ensures ChartTotal(seq(|w|, i requires 0 <= i < |w| => ToRecord(w[i]))) == TotalTime(w)
    decreases |w|
  {
    if w != [] {
      var init := w[..|w| - 1];
      var rs := seq(|w|, i requires 0 <= i < |w| => ToRecord(w[i]));
      assert rs[..|rs| - 1] == seq(|init|, i requires 0 <= i < |init| => ToRecord(init[i]));
      ChartTotalOfRecords(init);
    }
  }

  /** When no task has negative time, the chart's values add up to the total
      shown on the report. */
  lemma ChartTotalIsTotalTime(todos: seq<StatTodo>)
    requires forall t :: t in todos ==> Contribution(t) >= 0
    ensures ChartTotal(ChartData(todos)) == TotalTime(todos)
  {
    ChartTotalOfRecords(TasksWithTime(todos));
    TotalOfTasksWithTime(todos);
  }

  // ---------------------------------------------------------------------------
  // Colours

  const Colors: seq<string> := [
    "hsl(280, 70%, 60%)", "hsl(260, 70%, 65%)", "hsl(300, 70%, 55%)", "hsl(320, 70%, 60%)",
    "hsl(240, 70%, 65%)", "hsl(290, 60%, 70%)", "hsl(270, 65%, 55%)", "hsl(310, 65%, 65%)"
  ]

  /** The fill of the slice at `index`: the palette cycled, `COLORS[index % COLORS.length]`. */
  function CellColor(index: nat): (c: string)
    ensures c in Colors
  {
    Colors[index % |Colors|]
  }

  /** The palette has eight colours and repeats every eight slices; the first
      eight slices get the palette in order. */
  lemma CellColorCycle(index: nat)
    ensures |Colors| == 8
    ensures CellColor(index + 8) == CellColor(index)
    ensures index < 8 ==> CellColor(index) == Colors[index]
  {
  }
}
