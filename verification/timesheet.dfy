/** The in-memory state of the timesheet page and the transitions on it:
    submitting the entry form, starting an edit, importing a CSV document,
    clearing everything and deleting one entry. Persisting the list after
    each change is left out. */
module Timesheet {
  import opened Wrappers
  import opened Text
  import opened Numbers
  import opened Entries
  import opened Csv
  import CsvDocument

  /** The stored entries and the position being edited, if any. */
  datatype Session = Session(entries: seq<Entry>, editing: Option<nat>)

  /** The raw text of the four form inputs. */
  datatype Form = Form(date: string, project: string, hours: string, note: string)

  /** The position being edited, if any, names a stored entry. */
  predicate EditInRange(s: Session) {
    s.editing.Some? ==> s.editing.value < |s.entries|
  }

  /** The state every transition keeps: an edit names a stored entry and
      every stored entry passed the acceptance test. */
  predicate Valid(s: Session) {
    EditInRange(s) && AllAcceptable(s.entries)
  }

  /** The entry the form describes: the date as typed, project and note
      trimmed, the hours through parseFloat. */
  function FormEntry(f: Form): (e: Entry)
    ensures e.date == f.date
    ensures e.project == Trim(f.project) && e.note == Trim(f.note)
    ensures IsTrimmed(e.project) && IsTrimmed(e.note)
    ensures e.hours == ParseFloat(f.hours)
  {
    Entry(f.date, Trim(f.project), ParseFloat(f.hours), Trim(f.note))
  }

  /** The edit position, if any, is at most one past the last entry: the
      positions an array assignment can write without leaving holes. */
  predicate EditAssignable(s: Session) {
    s.editing.Some? ==> s.editing.value <= |s.entries|
  }

  /** Submitting the form: a rejected entry changes nothing; otherwise it
      is written at the position being edited, or appended when none is,
      and the edit ends. Writing one past the last entry appends, as an
      array assignment does. */
  function Submit(s: Session, f: Form): (r: Session)
    requires EditAssignable(s)
    ensures !Acceptable(FormEntry(f)) ==> r == s
    ensures Acceptable(FormEntry(f)) ==> r.editing == None
    ensures Acceptable(FormEntry(f)) && s.editing.Some? && s.editing.value < |s.entries| ==>
              && |r.entries| == |s.entries|
              && r.entries[s.editing.value] == FormEntry(f)
              && forall i | 0 <= i < |s.entries| && i != s.editing.value :: r.entries[i] == s.entries[i]
    ensures Acceptable(FormEntry(f)) && (s.editing.None? || s.editing.value == |s.entries|) ==>
              && |r.entries| == |s.entries| + 1
              && r.entries[..|s.entries|] == s.entries
              && r.entries[|s.entries|] == FormEntry(f)
  {
    var item := FormEntry(f);
    if !Acceptable(item) then s
    else
      match s.editing
      case Some(k) =>
        if k < |s.entries| then Session(s.entries[k := item], None)
        else Session(s.entries + [item], None)
      case None => Session(s.entries + [item], None)
  }

  /** Resetting the form ends any edit and keeps the entries. */
  function ResetForm(s: Session): (r: Session)
    ensures r.entries == s.entries && r.editing.None?
    ensures Valid(s) ==> Valid(r)
  {
    Session(s.entries, None)
  }

  /** The edit button of the stored entry at `k`. */
  function BeginEdit(s: Session, k: nat): (r: Session)
    requires k < |s.entries|
    ensures r.entries == s.entries && r.editing == Some(k)
    ensures EditInRange(r)
  {
    Session(s.entries, Some(k))
  }

  /** Importing a document: the entries read from it are appended after the
      stored ones; when none is read nothing changes. app.js reads with
      `AsWritten` line breaks. */
  function Import(s: Session, text: string, b: Breaks): (r: Session)
    ensures r.editing == s.editing
    ensures |r.entries| >= |s.entries| && r.entries[..|s.entries|] == s.entries
    ensures FromCSV(text, b) == [] ==> r == s
    ensures r.entries[|s.entries|..] == FromCSV(text, b)
  {
    var items := FromCSV(text, b);
    if |items| == 0 then s else Session(s.entries + items, s.editing)
  }

  /** Clear-all as app.js writes it: after confirmation the list is
      emptied, but the edit position is kept. */
  function ClearAllAsWritten(s: Session, confirmed: bool): (r: Session)
    ensures !confirmed ==> r == s
    ensures confirmed ==> r.entries == [] && r.editing == s.editing
  {
    if confirmed then Session([], s.editing) else s
  }

  /** Clear-all as intended: after confirmation the list is emptied and any
      edit ends with it. */
  function ClearAll(s: Session, confirmed: bool): (r: Session)
    ensures !confirmed ==> r == s
    ensures confirmed ==> r.entries == [] && r.editing == None
    ensures Valid(s) ==> Valid(r)
  {
    if confirmed then Session([], None) else s
  }

  /** The list without its entry at `k`: splice(k, 1). */
  function RemoveAt(entries: seq<Entry>, k: nat): (r: seq<Entry>)
    requires k < |entries|
    ensures |r| == |entries| - 1
    ensures forall i | 0 <= i < k :: r[i] == entries[i]
    ensures forall i | k <= i < |r| :: r[i] == entries[i + 1]
    ensures multiset(r) + multiset{entries[k]} == multiset(entries)
  {
    assert entries == entries[..k] + [entries[k]] + entries[k + 1..];
    entries[..k] + entries[k + 1..]
  }

  /** Deleting the stored entry at `k` as app.js writes it: the edit
      position is kept as it was. */
  function DeleteAsWritten(s: Session, k: nat, confirmed: bool): (r: Session)
    requires k < |s.entries|
    ensures !confirmed ==> r == s
    ensures confirmed ==> r.entries == RemoveAt(s.entries, k) && r.editing == s.editing
  {
    if confirmed then Session(RemoveAt(s.entries, k), s.editing) else s
  }

  /** Where an edit position lands when the entry at `k` is removed: the
      edit of the removed entry ends, later positions move down by one. */
  function Follow(editing: Option<nat>, k: nat): (r: Option<nat>)
    ensures editing == None || editing == Some(k) ==> r == None
    ensures editing.Some? && editing.value < k ==> r == editing
    ensures editing.Some? && editing.value > k ==> r == Some(editing.value - 1)
  {
    match editing
    case None => None
    case Some(j) => if j == k then None else if j > k then Some(j - 1) else Some(j)
  }

  /** Deleting the stored entry at `k` as intended: the edit keeps naming
      the same entry, or ends when that entry is the one removed. */
  function Delete(s: Session, k: nat, confirmed: bool): (r: Session)
    requires k < |s.entries|
    ensures !confirmed ==> r == s
    ensures confirmed ==> r.entries == RemoveAt(s.entries, k)
    ensures confirmed ==> r.editing == Follow(s.editing, k)
  {
    if confirmed then Session(RemoveAt(s.entries, k), Follow(s.editing, k)) else s
  }

  // ---- Invariants ----

  /** Submitting keeps the state valid. */
  lemma SubmitValid(s: Session, f: Form)
    requires Valid(s)
    ensures Valid(Submit(s, f))
  {
    var r := Submit(s, f);
    if Acceptable(FormEntry(f)) {
      forall i | 0 <= i < |r.entries|
        ensures Acceptable(r.entries[i])
      {
        if s.editing.None? && i == |s.entries| {
        } else if s.editing.Some? && i == s.editing.value {
        } else {
          assert r.entries[i] == s.entries[i];
        }
      }
    }
  }

  /** Importing keeps the state valid. */
  lemma ImportValid(s: Session, text: string, b: Breaks)
    requires Valid(s)
    ensures Valid(Import(s, text, b))
  {
    var items := FromCSV(text, b);
    if |items| > 0 {
      AllAcceptableAppend(s.entries, items);
    }
  }

  /** Deleting keeps the state valid, and an edit that survives the
      deletion still names the entry it named before. */
  lemma DeleteValid(s: Session, k: nat, confirmed: bool)
    requires Valid(s) && k < |s.entries|
    ensures Valid(Delete(s, k, confirmed))
    ensures confirmed && s.editing.Some? && s.editing.value != k ==>
              && Delete(s, k, confirmed).editing.Some?
              && Delete(s, k, confirmed).entries[Delete(s, k, confirmed).editing.value] == s.entries[s.editing.value]
  {
    var r := Delete(s, k, confirmed);
    if confirmed {
      forall i | 0 <= i < |r.entries|
        ensures Acceptable(r.entries[i])
      {
        if i >= k {
          assert r.entries[i] == s.entries[i + 1];
        }
      }
    }
  }

  /** An edit of any entry but the last outlives the deletion of the last
      entry in the code as written: deleting is fine when the edit is not
      at the end. The as-written delete keeps the state valid exactly when
      the edit still names a stored entry afterwards. */
  lemma DeleteAsWrittenValid(s: Session, k: nat)
    requires Valid(s) && k < |s.entries|
    ensures Valid(DeleteAsWritten(s, k, true)) <==> (s.editing.Some? ==> s.editing.value < |s.entries| - 1)
  {
    var r := DeleteAsWritten(s, k, true);
    forall i | 0 <= i < |r.entries|
      ensures Acceptable(r.entries[i])
    {
      if i >= k {
        assert r.entries[i] == s.entries[i + 1];
      }
    }
  }

  // ---- The stale edit position ----

  /** Editing the first of two entries and deleting it: as written the
      edit stays at position 0, now the second entry; as intended it ends. */
  lemma DeleteEditedFirst(a: Entry, b: Entry)
    ensures DeleteAsWritten(BeginEdit(Session([a, b], None), 0), 0, true) == Session([b], Some(0))
    ensures Delete(BeginEdit(Session([a, b], None), 0), 0, true) == Session([b], None)
  {
    assert RemoveAt([a, b], 0) == [b] by {
      assert |RemoveAt([a, b], 0)| == 1 && RemoveAt([a, b], 0)[0] == b;
    }
  }

  /** Submitting while the only entry is being edited replaces it. */
  lemma SubmitOverOne(b: Entry, f: Form)
    requires Acceptable(FormEntry(f))
    ensures Submit(Session([b], Some(0)), f).entries == [FormEntry(f)]
  {
    var r := Submit(Session([b], Some(0)), f);
    assert |r.entries| == 1 && r.entries[0] == FormEntry(f);
  }

  /** Submitting with no edit appends after the only entry. */
  lemma SubmitAfterOne(b: Entry, f: Form)
    requires Acceptable(FormEntry(f))
    ensures Submit(Session([b], None), f).entries == [b, FormEntry(f)]
  {
    var r := Submit(Session([b], None), f);
    assert |r.entries| == 2 && r.entries[..1] == [b] && r.entries[1] == FormEntry(f);
    assert r.entries[0] == b;
  }

  /** With the edit position left in place, editing the first of two
      entries, deleting it and submitting the form overwrites the second
      entry: the list ends up holding only the submitted one. */
  lemma StaleEditOverwrites(a: Entry, b: Entry, f: Form)
    requires Acceptable(a) && Acceptable(b) && Acceptable(FormEntry(f))
    ensures Submit(DeleteAsWritten(BeginEdit(Session([a, b], None), 0), 0, true), f).entries == [FormEntry(f)]
  {
    calc {
      Submit(DeleteAsWritten(BeginEdit(Session([a, b], None), 0), 0, true), f).entries;
      { DeleteEditedFirst(a, b); }
      Submit(Session([b], Some(0)), f).entries;
      { SubmitOverOne(b, f); }
      [FormEntry(f)];
    }
  }

  /** With the edit following the entry, the same steps keep the second
      entry and append the submitted one. */
  lemma FollowedEditKeepsOthers(a: Entry, b: Entry, f: Form)
    requires Acceptable(a) && Acceptable(b) && Acceptable(FormEntry(f))
    ensures Submit(Delete(BeginEdit(Session([a, b], None), 0), 0, true), f).entries == [b, FormEntry(f)]
  {
    calc {
      Submit(Delete(BeginEdit(Session([a, b], None), 0), 0, true), f).entries;
      { DeleteEditedFirst(a, b); }
      Submit(Session([b], None), f).entries;
      { SubmitAfterOne(b, f); }
      [b, FormEntry(f)];
    }
  }

  /** Clearing during an edit leaves, as written, an edit position the now
      empty list does not hold: a later submit writes the entry there, and
      for any position but 0 that leaves holes in front of it. */
  lemma ClearAllAsWrittenBreaksEdit(s: Session)
    requires s.editing.Some?
    ensures !EditInRange(ClearAllAsWritten(s, true))
    ensures EditInRange(ClearAll(s, true))
  {
  }

  // ---- Import and export together ----

  /** As app.js is written, importing the page's own export adds nothing. */
  lemma ImportOwnExportAsWritten(s: Session, show: Number -> string)
    requires forall i | 0 <= i < |s.entries| :: CsvDocument.NoBackslash(s.entries[i], show)
    ensures Import(s, ToCSV(s.entries, show, AsWritten), AsWritten) == s
  {
    CsvDocument.ExportImportAsWrittenLosesAll(s.entries, show);
  }

  /** With real line breaks, importing the page's own export appends a copy
      of every entry. */
  lemma ImportOwnExport(s: Session, show: Number -> string)
    requires forall i | 0 <= i < |s.entries| :: Exportable(s.entries[i], show)
    ensures Import(s, ToCSV(s.entries, show, Newline), Newline).entries == s.entries + s.entries
  {
    CsvDocument.ExportImportRoundTrip(s.entries, show);
  }
}
