/** The one record of the timesheet: a day, a project, a number of hours
    and a free-text note. */
module Entries {
  import opened Numbers

  datatype Entry = Entry(date: string, project: string, hours: Number, note: string)

  /** The test both the entry form and the CSV import apply before an entry
      is stored: a date, a project and a number of hours above zero. */
  predicate Acceptable(e: Entry) {
    e.date != "" && e.project != "" && IsPositive(e.hours)
  }

  predicate AllAcceptable(entries: seq<Entry>) {
    forall i | 0 <= i < |entries| :: Acceptable(entries[i])
  }

  /** Acceptable lists stay acceptable when one is appended to the other. */
  lemma AllAcceptableAppend(xs: seq<Entry>, ys: seq<Entry>)
    requires AllAcceptable(xs) && AllAcceptable(ys)
    ensures AllAcceptable(xs + ys)
  {
    forall i | 0 <= i < |xs + ys|
      ensures Acceptable((xs + ys)[i])
    {
      if i >= |xs| {
        assert (xs + ys)[i] == ys[i - |xs|];
      }
    }
  }
}
