/** The weekly study timetable: a list of sessions held in component state, a
    form for the next session, and a grid of 7 days by 17 hourly slots in which
    each session is shown in the cell of its day and time. */
module Timetable {
  import opened Text
  import opened Seqs

  datatype Entry = Entry(id: string, day: string, time: string, subject: string, topic: string)

  /** The "Add Study Session" form. */
  datatype EntryForm = EntryForm(day: string, time: string, subject: string, topic: string)

  const Days: seq<string> := ["Monday", "Tuesday", "Wednesday", "Thursday", "Friday", "Saturday", "Sunday"]

  const TimeSlots: seq<string> := [
    "06:00 AM", "07:00 AM", "08:00 AM", "09:00 AM", "10:00 AM", "11:00 AM",
    "12:00 PM", "01:00 PM", "02:00 PM", "03:00 PM", "04:00 PM", "05:00 PM",
    "06:00 PM", "07:00 PM", "08:00 PM", "09:00 PM", "10:00 PM"
  ]

  /** The form's initial and reset value: first day, first slot, empty texts. */
  const BlankForm: EntryForm := EntryForm(Days[0], TimeSlots[0], "", "")

  /** The entry an add creates from the form, under the given id. */
  function NewEntry(id: string, form: EntryForm): Entry {
    Entry(id, form.day, form.time, form.subject, form.topic)
  }

  /** The filter predicates of `removeEntry` and `getEntriesForDayAndTime`. */
  function IdIsNot(id: string): Entry -> bool {
    (e: Entry) => e.id != id
  }

  function InCell(day: string, time: string): Entry -> bool {
    (e: Entry) => e.day == day && e.time == time
  }

  /** `entries.filter(e => e.id !== id)`. */
  function WithoutId(entries: seq<Entry>, id: string): (r: seq<Entry>)
    ensures |r| <= |entries|
    ensures forall e :: e in r <==> e in entries && e.id != id
  {
    Filter(entries, IdIsNot(id))
  }

  /** Removing distributes over concatenation, so the remaining entries keep
      their order; removing an id no entry has changes nothing. */
  lemma WithoutIdKeepsOrder(a: seq<Entry>, b: seq<Entry>, id: string)
    ensures WithoutId(a + b, id) == WithoutId(a, id) + WithoutId(b, id)
    ensures (forall e :: e in a ==> e.id != id) ==> WithoutId(a, id) == a
  {
    FilterConcat(a, b, IdIsNot(id));
    if forall e :: e in a ==> e.id != id {
      FilterKeepsAll(a, IdIsNot(id));
    }
  }

  /** `getEntriesForDayAndTime`: the entries of one grid cell, in list order. */
  function CellEntries(entries: seq<Entry>, day: string, time: string): (r: seq<Entry>)
    ensures |r| <= |entries|
    ensures forall e :: e in r <==> e in entries && e.day == day && e.time == time
  {
    Filter(entries, InCell(day, time))
  }

  /** A cell's entries keep the order of the list. */
  lemma CellEntriesKeepOrder(a: seq<Entry>, b: seq<Entry>, day: string, time: string)
    ensures CellEntries(a + b, day, time) == CellEntries(a, day, time) + CellEntries(b, day, time)
  {
    FilterConcat(a, b, InCell(day, time));
  }

  /** The days are seven distinct names and the slots seventeen distinct times. */
  lemma GridLabelsDistinct()
    ensures |Days| == 7 && |TimeSlots| == 17
    ensures forall i, j :: 0 <= i < j < |Days| ==> Days[i] != Days[j]
    ensures forall i, j :: 0 <= i < j < |TimeSlots| ==> TimeSlots[i] != TimeSlots[j]
  {
    forall i, j | 0 <= i < j < |Days| ensures Days[i] != Days[j] {
      assert Days[i][0] != Days[j][0] || Days[i][1] != Days[j][1] || |Days[i]| != |Days[j]|;
    }
    forall i, j | 0 <= i < j < |TimeSlots| ensures TimeSlots[i] != TimeSlots[j] {
      assert TimeSlots[i][0] != TimeSlots[j][0] || TimeSlots[i][1] != TimeSlots[j][1]
          || TimeSlots[i][6] != TimeSlots[j][6];
    }
  }

  /** An entry whose day and time come from the grid's labels is shown in
      exactly one cell: the one at its day's column and its time's row. */
  lemma EntryInOneCell(entries: seq<Entry>, e: Entry)
    requires e in entries && e.day in Days && e.time in TimeSlots
    ensures exists i, j :: 0 <= i < |Days| && 0 <= j < |TimeSlots| && e in CellEntries(entries, Days[i], TimeSlots[j])
    ensures forall i, j, i', j' ::
              && 0 <= i < |Days| && 0 <= j < |TimeSlots| && 0 <= i' < |Days| && 0 <= j' < |TimeSlots|
              && e in CellEntries(entries, Days[i], TimeSlots[j])
              && e in CellEntries(entries, Days[i'], TimeSlots[j'])
              ==> i == i' && j == j'
  {
    GridLabelsDistinct();
    var i :| 0 <= i < |Days| && Days[i] == e.day;
    var j :| 0 <= j < |TimeSlots| && TimeSlots[j] == e.time;
    assert e in CellEntries(entries, Days[i], TimeSlots[j]);
  }

  /** The component's state: the session list and the form. */
  class Timetable {
    var entries: seq<Entry>
    var form: EntryForm

    /** The day and slot of the form and of every entry come from the grid's
        labels: the form's two selects offer nothing else. */
    ghost predicate Valid()
      reads this
    {
      && form.day in Days && form.time in TimeSlots
      && forall e :: e in entries ==> e.day in Days && e.time in TimeSlots
    }

    constructor ()
      ensures Valid()
      ensures entries == [] && form == BlankForm
    {
      entries := [];
      form := BlankForm;
    }

    /** The day select's change handler; its options are the days. */
    method SelectDay(day: string)
      requires Valid() && day in Days
      modifies this
      ensures Valid()
      ensures form == old(form).(day := day) && entries == old(entries)
    {
      form := form.(day := day);
    }

    /** The time select's change handler; its options are the slots. */
    method SelectTime(time: string)
      requires Valid() && time in TimeSlots
      modifies this
      ensures Valid()
      ensures form == old(form).(time := time) && entries == old(entries)
    {
      form := form.(time := time);
    }

    /** The subject input's change handler. */
    method SetSubject(subject: string)
      requires Valid()
      modifies this
      ensures Valid()
      ensures form == old(form).(subject := subject) && entries == old(entries)
    {
      form := form.(subject := subject);
    }

    /** The topic input's change handler. */
    method SetTopic(topic: string)
      requires Valid()
      modifies this
      ensures Valid()
      ensures form == old(form).(topic := topic) && entries == old(entries)
    {
      form := form.(topic := topic);
    }

    /** `addEntry` with the id the caller supplies: a blank subject is rejected
        and nothing changes; otherwise the form's entry is appended and the form
        is reset. */
    method AddEntry(id: string) returns (added: bool)
      requires Valid()
      modifies this
      ensures Valid()
      ensures added <==> !IsBlank(old(form).subject)
      ensures added ==> entries == old(entries) + [NewEntry(id, old(form))] && form == BlankForm
      ensures !added ==> entries == old(entries) && form == old(form)
    {
      if IsBlank(form.subject) {
        return false;
      }
      entries := entries + [NewEntry(id, form)];
      form := BlankForm;
      added := true;
    }

    /** `removeEntry`: every entry with that id goes, the rest stay in order. */
    method RemoveEntry(id: string)
      requires Valid()
      modifies this
      ensures Valid()
      ensures entries == WithoutId(old(entries), id) && form == old(form)
    {
      entries := WithoutId(entries, id);
    }

    /** The entries shown in the cell of `day` and `time`. */
    function EntriesAt(day: string, time: string): (r: seq<Entry>)
      reads this
      ensures forall e :: e in r <==> e in entries && e.day == day && e.time == time
    {
      CellEntries(entries, day, time)
    }
  }

  /** In a valid timetable every entry is shown in exactly one grid cell. */
  lemma ValidEntriesInOneCell(t: Timetable, e: Entry)
    requires t.Valid() && e in t.entries
    ensures exists i, j :: 0 <= i < |Days| && 0 <= j < |TimeSlots| && e in t.EntriesAt(Days[i], TimeSlots[j])
    ensures forall i, j, i', j' ::
              && 0 <= i < |Days| && 0 <= j < |TimeSlots| && 0 <= i' < |Days| && 0 <= j' < |TimeSlots|
              && e in t.EntriesAt(Days[i], TimeSlots[j])
              && e in t.EntriesAt(Days[i'], TimeSlots[j'])
              ==> i == i' && j == j'
  {
    EntryInOneCell(t.entries, e);
  }
}
