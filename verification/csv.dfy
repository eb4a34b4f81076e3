/** The CSV document codec of the timesheet. toCSV writes a fixed header
    and one row per entry; fromCSV splits the text into lines, drops the
    empty ones, finds the columns by their header names and keeps the rows
    that pass the acceptance test. */
module Csv {
  import opened Wrappers
  import opened Text
  import opened Numbers
  import opened Entries
  import opened CsvLine

  /** The column names, in the order toCSV writes them. */
  const Names: seq<string> := ["date", "project", "hours", "note"]

  /** The header line toCSV writes. */
  const Header: string := "date,project,hours,note"

  // ---- Line breaks ----

  /** How lines are broken. `AsWritten` is what app.js does: rows are
      joined with the two characters backslash and n, and the text is split
      where a backslash, an optional r, another backslash and an n occur.
      `Newline` is the evident intent: join with a line feed, split at a
      line feed or a carriage return and line feed. */
  datatype Breaks = AsWritten | Newline

  /** The text toCSV places between lines. */
  function JoinText(b: Breaks): string {
    match b
    case AsWritten => "\\n"
    case Newline => "\n"
  }

  /** The length of the line break the split pattern matches at the start
      of `s`, or 0 when it matches none there. */
  function BreakAt(s: string, b: Breaks): (k: nat)
    ensures k <= |s|
    ensures k > 0 ==> s[..k] in Separators(b)
  {
    match b
    case AsWritten =>
      if |s| >= 3 && s[0] == '\\' && s[1] == '\\' && s[2] == 'n' then
        assert s[..3] == "\\\\n"; 3
      else if |s| >= 4 && s[0] == '\\' && s[1] == 'r' && s[2] == '\\' && s[3] == 'n' then
        assert s[..4] == "\\r\\n"; 4
      else 0
    case Newline =>
      if |s| >= 1 && s[0] == '\n' then
        assert s[..1] == "\n"; 1
      else if |s| >= 2 && s[0] == '\r' && s[1] == '\n' then
        assert s[..2] == "\r\n"; 2
      else 0
  }

  /** The texts the split pattern matches as one line break: as written, a
      backslash, an optional r, a backslash and an n; with real line breaks,
      a line feed, optionally after a carriage return. */
  function Separators(b: Breaks): set<string> {
    match b
    case AsWritten => {"\\\\n", "\\r\\n"}
    case Newline => {"\n", "\r\n"}
  }

  /** Text in which no line break of the pattern can start. */
  predicate Unbroken(t: string, b: Breaks) {
    match b
    case AsWritten => '\\' !in t
    case Newline => '\n' !in t && '\r' !in t
  }

  /** String.prototype.split with the line-break pattern, scanning from the
      left; `cur` is the line read so far. */
  function SplitLinesFrom(s: string, b: Breaks, cur: string): (lines: seq<string>)
    ensures |lines| >= 1
    ensures |lines[0]| >= |cur| && lines[0][..|cur|] == cur
    ensures b == Newline && '\n' !in cur ==> forall i | 0 <= i < |lines| :: '\n' !in lines[i]
    decreases |s|
  {
    if |s| == 0 then [cur]
    else if BreakAt(s, b) > 0 then [cur] + SplitLinesFrom(s[BreakAt(s, b)..], b, "")
    else SplitLinesFrom(s[1..], b, cur + [s[0]])
  }

  /** The lines of a text: at least one, and with real line breaks none of
      them holds a line feed. */
  function SplitLines(text: string, b: Breaks): (lines: seq<string>)
    ensures |lines| >= 1
    ensures b == Newline ==> forall i | 0 <= i < |lines| :: '\n' !in lines[i]
  {
    SplitLinesFrom(text, b, "")
  }

  /** filter(Boolean): the lines that are not empty, in order. */
  function NonEmpty(lines: seq<string>): (kept: seq<string>)
    ensures |kept| <= |lines|
    ensures forall i | 0 <= i < |kept| :: kept[i] != ""
    ensures forall x :: x in kept <==> x in lines && x != ""
    decreases |lines|
  {
    if |lines| == 0 then []
    else (if lines[0] == "" then [] else [lines[0]]) + NonEmpty(lines[1..])
  }

  // ---- Writing ----

  /** The cells of an entry as toCSV writes them: date, project and note
      quoted, hours bare as `show` prints the number. */
  function RowFields(e: Entry, show: Number -> string): seq<Field> {
    [Quoted(e.date), Quoted(e.project), Bare(show(e.hours)), Quoted(e.note)]
  }

  function EncodeRow(e: Entry, show: Number -> string): string {
    Join(EncodeAll(RowFields(e, show)), ",")
  }

  /** One row per entry, in the order given. */
  function Rows(entries: seq<Entry>, show: Number -> string): (rows: seq<string>)
    ensures |rows| == |entries|
    ensures forall i | 0 <= i < |entries| :: rows[i] == EncodeRow(entries[i], show)
  {
    seq(|entries|, i requires 0 <= i < |entries| => EncodeRow(entries[i], show))
  }

  /** The lines of the document: the header, then the rows. */
  function Lines(entries: seq<Entry>, show: Number -> string): seq<string> {
    [Header] + Rows(entries, show)
  }

  /** toCSV, with the given line breaks; app.js uses `AsWritten`. */
  function ToCSV(entries: seq<Entry>, show: Number -> string, b: Breaks): (text: string)
    ensures |text| >= |Header| && text[..|Header|] == Header
  {
    JoinStartsWith(Lines(entries, show), JoinText(b));
    Join(Lines(entries, show), JoinText(b))
  }

  // ---- Reading ----

  /** Where the header puts each column; -1 for a missing one. */
  datatype Columns = Columns(date: int, project: int, hours: int, note: int)

  /** Array.prototype.indexOf: the first position of `name`, or -1. */
  function IndexOf(names: seq<string>, name: string): (k: int)
    ensures -1 <= k < |names|
    ensures k == -1 <==> name !in names
    ensures k >= 0 ==> names[k] == name && name !in names[..k]
    decreases |names|
  {
    if |names| == 0 then -1
    else if names[0] == name then 0
    else
      var k := IndexOf(names[1..], name);
      assert names[1..][..if k < 0 then 0 else k] == names[1..if k < 0 then 1 else k + 1];
      if k == -1 then -1 else k + 1
  }

  /** The column names of a header line: lower-cased, split at every
      comma (quotes are not special here), each trimmed. */
  function HeaderNames(header: string): (names: seq<string>)
    ensures |names| >= 1
    ensures forall i | 0 <= i < |names| :: IsTrimmed(names[i]) && ',' !in names[i]
  {
    TrimAll(Split(ToLower(header), ','))
  }

  function Locate(names: seq<string>): Columns {
    Columns(IndexOf(names, "date"), IndexOf(names, "project"), IndexOf(names, "hours"), IndexOf(names, "note"))
  }

  /** `cells[k] || ''`: a missing cell reads as empty. */
  function CellAt(cells: seq<string>, k: int): (cell: string)
    ensures 0 <= k < |cells| ==> cell == cells[k]
    ensures !(0 <= k < |cells|) ==> cell == ""
  {
    if 0 <= k < |cells| then cells[k] else ""
  }

  /** The entry a row of cells describes, before the acceptance test; the
      hours cell reads as `parseFloat(cell || '0') || 0`. */
  function RowItem(at: Columns, cells: seq<string>): Entry {
    var hours := CellAt(cells, at.hours);
    Entry(CellAt(cells, at.date), CellAt(cells, at.project),
          OrZero(ParseFloat(if hours == "" then "0" else hours)), CellAt(cells, at.note))
  }

  /** One data line: its entry, if that entry passes the acceptance test. */
  function DecodeRow(at: Columns, line: string): Option<Entry> {
    var item := RowItem(at, ParseLine(line));
    if Acceptable(item) then Some(item) else None
  }

  /** The result of each data line, in order. */
  function DecodeEach(at: Columns, rows: seq<string>): (each: seq<Option<Entry>>)
    ensures |each| == |rows|
    ensures forall i | 0 <= i < |rows| :: each[i] == DecodeRow(at, rows[i])
  {
    seq(|rows|, i requires 0 <= i < |rows| => DecodeRow(at, rows[i]))
  }

  /** The loop of fromCSV over the data lines: the entries of the lines
      that pass the acceptance test. */
  function DecodeRows(at: Columns, rows: seq<string>): (out: seq<Entry>)
    ensures |out| <= |rows|
    ensures AllAcceptable(out)
  {
    var each := DecodeEach(at, rows);
    SomesKeep(each, Acceptable);
    Somes(each)
  }

  /** fromCSV after the split into lines: the first non-empty line is the
      header, the other non-empty lines are data. */
  function FromLines(lines: seq<string>): (out: seq<Entry>)
    ensures AllAcceptable(out)
    ensures |NonEmpty(lines)| <= 1 ==> out == []
    ensures |NonEmpty(lines)| >= 1 ==> |out| <= |NonEmpty(lines)| - 1
  {
    var kept := NonEmpty(lines);
    if |kept| == 0 then [] else DecodeRows(Locate(HeaderNames(kept[0])), kept[1..])
  }

  /** fromCSV, with the given line breaks; app.js uses `AsWritten`. */
  function FromCSV(text: string, b: Breaks): (out: seq<Entry>)
    ensures AllAcceptable(out)
  {
    FromLines(SplitLines(text, b))
  }

  // ---- Joining ----

  /** A join starts with its first part. */
  lemma {:induction false} JoinStartsWith(parts: seq<string>, sep: string)
    requires |parts| >= 1
    ensures |Join(parts, sep)| >= |parts[0]| && Join(parts, sep)[..|parts[0]|] == parts[0]
  {
    if |parts| > 1 {
      assert Join(parts, sep) == parts[0] + (sep + Join(parts[1..], sep));
    }
  }

  /** A character in neither the parts nor the separator is not in the
      join. */
  lemma {:induction false} JoinAvoids(parts: seq<string>, sep: string, c: char)
    requires c !in sep
    requires forall i | 0 <= i < |parts| :: c !in parts[i]
    ensures c !in Join(parts, sep)
    decreases |parts|
  {
    if |parts| > 1 {
      JoinAvoids(parts[1..], sep, c);
    }
  }

  // ---- Reading back what was written ----

  lemma JoinFour(a: string, b: string, c: string, d: string, sep: string)
    ensures Join([a, b, c, d], sep) == a + sep + b + sep + c + sep + d
  {
    assert [c, d][1..] == [d];
    assert Join([c, d], sep) == c + sep + d;
    assert [b, c, d][1..] == [c, d];
    assert Join([b, c, d], sep) == b + sep + (c + sep + d);
    assert [a, b, c, d][1..] == [b, c, d];
    assert Join([a, b, c, d], sep) == a + sep + (b + sep + (c + sep + d));
  }

  lemma HeaderIsJoinOfNames()
    ensures Header == Join(Names, ",")
  {
    JoinFour("date", "project", "hours", "note", ",");
  }

  lemma HeaderIsLowerCase()
    ensures ToLower(Header) == Header
  {
    assert forall i | 0 <= i < |Header| :: !('A' <= Header[i] <= 'Z');
    ToLowerUnchanged(Header);
  }

  lemma NamesTrimmed()
    ensures TrimAll(Names) == Names
  {
    assert IsTrimmed("date") && IsTrimmed("project") && IsTrimmed("hours") && IsTrimmed("note");
    TrimAllTrimmed("date", "project", "hours", "note");
  }

  lemma LocateNames()
    ensures Locate(Names) == Columns(0, 1, 2, 3)
  {
    assert Names[1..][1..][1..] == ["note"];
  }

  lemma NamesHaveNoComma()
    ensures forall i | 0 <= i < |Names| :: ',' !in Names[i]
  {
  }

  /** The header line names the four columns in order. */
  lemma HeaderColumns()
    ensures Locate(HeaderNames(Header)) == Columns(0, 1, 2, 3)
  {
    calc {
      HeaderNames(Header);
      TrimAll(Split(ToLower(Header), ','));
      { HeaderIsLowerCase(); }
      TrimAll(Split(Header, ','));
      { HeaderIsJoinOfNames(); NamesHaveNoComma(); SplitJoin(Names, ','); }
      TrimAll(Names);
      { NamesTrimmed(); }
      Names;
    }
    LocateNames();
  }

  /** The names of a header of comma-free parts are the parts, each
      lower-cased and trimmed. */
  lemma HeaderNamesOfParts(parts: seq<string>)
    requires |parts| >= 1
    requires forall i | 0 <= i < |parts| :: ',' !in parts[i]
    ensures |HeaderNames(Join(parts, ","))| == |parts|
    ensures forall i | 0 <= i < |parts| :: HeaderNames(Join(parts, ","))[i] == Trim(ToLower(parts[i]))
  {
    ToLowerJoin(parts);
    var lowered := LowerAll(parts);
    forall i | 0 <= i < |lowered|
      ensures ',' !in lowered[i]
    {
      LowerKeepsNoComma(parts[i]);
    }
    SplitJoin(lowered, ',');
  }

  lemma LowerKeepsNoComma(t: string)
    requires ',' !in t
    ensures ',' !in ToLower(t)
  {
    forall j | 0 <= j < |t|
      ensures ToLower(t)[j] != ','
    {
      assert t[j] != ',';
    }
  }

  lemma SameNames(names: seq<string>, parts: seq<string>)
    requires |names| == |parts| == 4
    requires forall i | 0 <= i < 4 :: names[i] == Trim(ToLower(parts[i])) && Trim(ToLower(parts[i])) == Names[i]
    ensures names == Names
  {
    assert forall i | 0 <= i < 4 :: names[i] == Names[i];
  }

  /** Any header whose four comma-free parts lower-case and trim to the
      names toCSV writes locates the columns at 0 to 3, whatever their case
      and surrounding spaces. */
  lemma HeaderMatched(parts: seq<string>)
    requires |parts| == 4
    requires forall i | 0 <= i < 4 :: ',' !in parts[i] && Trim(ToLower(parts[i])) == Names[i]
    ensures Locate(HeaderNames(Join(parts, ","))) == Columns(0, 1, 2, 3)
  {
    HeaderNamesOfParts(parts);
    SameNames(HeaderNames(Join(parts, ",")), parts);
    LocateNames();
  }

  /** Joining one more part onto a non-empty list of parts. */
  lemma {:induction false} JoinSnoc(parts: seq<string>, x: string, sep: string)
    requires |parts| >= 1
    ensures Join(parts + [x], sep) == Join(parts, sep) + sep + x
    decreases |parts|
  {
    if |parts| == 1 {
      assert (parts + [x])[1..] == [x];
    } else {
      JoinSnoc(parts[1..], x, sep);
      assert (parts + [x])[1..] == parts[1..] + [x];
    }
  }

  /** toCSV for any line break: the header alone for no entries, and each
      further entry adds the line break and that entry's row at the end. */
  lemma ToCSVPushes(entries: seq<Entry>, e: Entry, show: Number -> string, b: Breaks)
    ensures ToCSV([], show, b) == Header
    ensures ToCSV(entries + [e], show, b) == ToCSV(entries, show, b) + JoinText(b) + EncodeRow(e, show)
  {
    assert Lines([], show) == [Header];
    assert Lines(entries + [e], show) == Lines(entries, show) + [EncodeRow(e, show)];
    JoinSnoc(Lines(entries, show), EncodeRow(e, show), JoinText(b));
  }

  /** What toCSV can write so that fromCSV reads it back: an acceptable
      entry with trimmed text fields free of line-break characters, whose
      hours `show` prints as trimmed text without quotes or commas that
      parseFloat reads back as the same number. */
  predicate Exportable(e: Entry, show: Number -> string) {
    && Acceptable(e)
    && IsTrimmed(e.date) && IsTrimmed(e.project) && IsTrimmed(e.note)
    && IsTrimmed(show(e.hours)) && '"' !in show(e.hours) && ',' !in show(e.hours)
    && ParseFloat(show(e.hours)) == e.hours
    && OneLine(e.date) && OneLine(e.project) && OneLine(show(e.hours)) && OneLine(e.note)
  }

  /** Free of line-break characters. */
  predicate OneLine(t: string) {
    Unbroken(t, Newline)
  }

  lemma RowTexts(a: string, b: string, c: string, d: string)
    ensures Texts([Quoted(a), Quoted(b), Bare(c), Quoted(d)]) == [a, b, c, d]
  {
    var t := Texts([Quoted(a), Quoted(b), Bare(c), Quoted(d)]);
    assert t[0] == a && t[1] == b && t[2] == c && t[3] == d;
  }

  lemma TrimAllTrimmed(a: string, b: string, c: string, d: string)
    requires IsTrimmed(a) && IsTrimmed(b) && IsTrimmed(c) && IsTrimmed(d)
    ensures TrimAll([a, b, c, d]) == [a, b, c, d]
  {
    var raw := [a, b, c, d];
    var t := TrimAll(raw);
    forall i | 0 <= i < 4
      ensures t[i] == raw[i]
    {
      assert IsTrimmed(raw[i]);
    }
  }

  lemma RowCells(d: string, p: string, h: string, n: string)
    requires IsTrimmed(d) && IsTrimmed(p) && IsTrimmed(h) && IsTrimmed(n)
    requires '"' !in h && ',' !in h
    ensures ParseLine(Join(EncodeAll([Quoted(d), Quoted(p), Bare(h), Quoted(n)]), ",")) == [d, p, h, n]
  {
    var fields := [Quoted(d), Quoted(p), Bare(h), Quoted(n)];
    assert forall i | 0 <= i < |fields| :: Writable(fields[i]);
    calc {
      ParseLine(Join(EncodeAll(fields), ","));
      { RowRoundTrip(fields); }
      TrimAll(Texts(fields));
      { RowTexts(d, p, h, n); }
      TrimAll([d, p, h, n]);
      { TrimAllTrimmed(d, p, h, n); }
      [d, p, h, n];
    }
  }

  /** The cells parseCSVLine reads from a row toCSV wrote. */
  lemma EncodedRowCells(e: Entry, show: Number -> string)
    requires Exportable(e, show)
    ensures ParseLine(EncodeRow(e, show)) == [e.date, e.project, show(e.hours), e.note]
  {
    RowCells(e.date, e.project, show(e.hours), e.note);
  }

  /** The cells of a written row describe the entry again. */
  lemma RowItemOfCells(e: Entry, show: Number -> string)
    requires Exportable(e, show)
    ensures RowItem(Columns(0, 1, 2, 3), [e.date, e.project, show(e.hours), e.note]) == e
  {
    var h := show(e.hours);
    assert h != "";
    assert OrZero(ParseFloat(h)) == e.hours;
  }

  /** Entry round trip: the row toCSV writes for an exportable entry is
      read back, under the header toCSV writes, as that entry. */
  lemma DecodeEncodedRow(e: Entry, show: Number -> string)
    requires Exportable(e, show)
    ensures DecodeRow(Locate(HeaderNames(Header)), EncodeRow(e, show)) == Some(e)
  {
    HeaderColumns();
    EncodedRowCells(e, show);
    RowItemOfCells(e, show);
  }

  /** The rows toCSV writes for exportable entries are read back as those
      entries, in order. */
  lemma DecodeEncodedRows(entries: seq<Entry>, show: Number -> string)
    requires forall i | 0 <= i < |entries| :: Exportable(entries[i], show)
    ensures DecodeRows(Locate(HeaderNames(Header)), Rows(entries, show)) == entries
  {
    var at := Locate(HeaderNames(Header));
    var each := DecodeEach(at, Rows(entries, show));
    forall i | 0 <= i < |entries|
      ensures each[i] == Some(entries[i])
    {
      DecodeEncodedRow(entries[i], show);
    }
    SomesAll(each, entries);
  }

  // ---- What fromCSV keeps ----

  /** fromCSV keeps an order-preserving selection of the data lines with at
      most one entry per line: `ix` names the line each entry came from, in
      increasing order, and every line whose row passes the acceptance test
      is named. */
  lemma DecodeRowsSelects(at: Columns, rows: seq<string>) returns (ix: seq<nat>)
    ensures |ix| == |DecodeRows(at, rows)|
    ensures forall j | 0 <= j < |ix| :: ix[j] < |rows| && DecodeRow(at, rows[ix[j]]) == Some(DecodeRows(at, rows)[j])
    ensures forall j, k | 0 <= j < k < |ix| :: ix[j] < ix[k]
    ensures forall i | 0 <= i < |rows| && DecodeRow(at, rows[i]).Some? :: i in ix
  {
    var each := DecodeEach(at, rows);
    ix := SomesSelects(each);
    assert Picks(each, DecodeRows(at, rows), ix) && Increasing(ix) && Covers(each, ix);
    forall i | 0 <= i < |rows| && DecodeRow(at, rows[i]).Some?
      ensures i in ix
    {
      assert each[i] == DecodeRow(at, rows[i]);
    }
  }

  /** A data line is dropped when the header lacks the date, project or
      hours column: the missing cell reads as empty, or as 0 hours. */
  lemma MissingColumnDropsRow(names: seq<string>, line: string)
    requires "date" !in names || "project" !in names || "hours" !in names
    ensures DecodeRow(Locate(names), line) == None
  {
    var at := Locate(names);
    var item := RowItem(at, ParseLine(line));
    if "hours" !in names {
      assert at.hours == -1;
      ParseFloatZero();
      assert item.hours == Finite(0.0);
    } else if "date" !in names {
      assert item.date == "";
    } else {
      assert item.project == "";
    }
  }

  /** A data line too short to reach the date, project or hours column is
      dropped: the missing cell reads as empty, or as 0 hours. */
  lemma ShortRowDropped(at: Columns, line: string)
    requires at.date >= |ParseLine(line)| || at.project >= |ParseLine(line)| || at.hours >= |ParseLine(line)|
    ensures DecodeRow(at, line) == None
  {
    var cells := ParseLine(line);
    var item := RowItem(at, cells);
    if at.hours >= |cells| {
      ParseFloatZero();
      assert item.hours == Finite(0.0);
    } else if at.date >= |cells| {
      assert item.date == "";
    } else {
      assert item.project == "";
    }
  }

  /** Without a note column every entry read has an empty note. */
  lemma MissingNoteReadsEmpty(names: seq<string>, line: string)
    requires "note" !in names
    ensures DecodeRow(Locate(names), line).Some? ==> DecodeRow(Locate(names), line).value.note == ""
  {
  }

  /** `xs` reordered: position `i` holds `xs[p[i]]`. */
  function Permute<T>(xs: seq<T>, p: seq<nat>): (ys: seq<T>)
    requires forall i | 0 <= i < |p| :: p[i] < |xs|
    ensures |ys| == |p|
    ensures forall i | 0 <= i < |p| :: ys[i] == xs[p[i]]
  {
    seq(|p|, i requires 0 <= i < |p| => xs[p[i]])
  }

  /** `p` and `q` are inverse permutations of the positions below |p|. */
  predicate Inverse(p: seq<nat>, q: seq<nat>) {
    && |p| == |q|
    && (forall i | 0 <= i < |p| :: p[i] < |q| && q[p[i]] == i)
    && (forall j | 0 <= j < |q| :: q[j] < |p| && p[q[j]] == j)
  }

  /** `name` occurs at most once among the header names. */
  predicate AtMostOnce(names: seq<string>, name: string) {
    forall i, j | 0 <= i < j < |names| :: names[i] == name ==> names[j] != name
  }

  lemma LookupPermuted(names: seq<string>, cells: seq<string>, p: seq<nat>, q: seq<nat>, name: string)
    requires |names| == |cells| == |p| && Inverse(p, q)
    requires AtMostOnce(names, name)
    ensures CellAt(Permute(cells, p), IndexOf(Permute(names, p), name)) == CellAt(cells, IndexOf(names, name))
  {
    var moved := Permute(names, p);
    var k := IndexOf(names, name);
    if k == -1 {
      assert name !in moved by {
        forall i | 0 <= i < |moved|
          ensures moved[i] != name
        {
          assert moved[i] == names[p[i]];
        }
      }
    } else {
      assert moved[q[k]] == name;
      var m := IndexOf(moved, name);
      assert names[p[m]] == name;
      assert p[m] == k;
      assert m == q[k];
    }
  }

  /** Header lookup is by name: reordering the header names and the cells
      of a row the same way describes the same entry, provided no
      recognised name occurs twice (the first occurrence would then depend
      on the order). */
  lemma ColumnOrderIrrelevant(names: seq<string>, cells: seq<string>, p: seq<nat>, q: seq<nat>)
    requires |names| == |cells| == |p| && Inverse(p, q)
    requires AtMostOnce(names, "date") && AtMostOnce(names, "project")
    requires AtMostOnce(names, "hours") && AtMostOnce(names, "note")
    ensures RowItem(Locate(Permute(names, p)), Permute(cells, p)) == RowItem(Locate(names), cells)
  {
    LookupPermuted(names, cells, p, q, "date");
    LookupPermuted(names, cells, p, q, "project");
    LookupPermuted(names, cells, p, q, "hours");
    LookupPermuted(names, cells, p, q, "note");
  }

  /** filter(Boolean) distributes over concatenation. */
  lemma {:induction false} NonEmptyAppend(a: seq<string>, b: seq<string>)
    ensures NonEmpty(a + b) == NonEmpty(a) + NonEmpty(b)
    decreases |a|
  {
    if |a| == 0 {
      assert a + b == b;
    } else {
      assert (a + b)[1..] == a[1..] + b;
      NonEmptyAppend(a[1..], b);
    }
  }

  /** Empty lines anywhere in the document change nothing. */
  lemma BlankLineIgnored(before: seq<string>, after: seq<string>)
    ensures FromLines(before + [""] + after) == FromLines(before + after)
  {
    calc {
      NonEmpty(before + [""] + after);
      { NonEmptyAppend(before + [""], after); }
      NonEmpty(before + [""]) + NonEmpty(after);
      { NonEmptyAppend(before, [""]); assert NonEmpty([""]) == []; assert NonEmpty(before) + [] == NonEmpty(before); }
      NonEmpty(before) + NonEmpty(after);
      { NonEmptyAppend(before, after); }
      NonEmpty(before + after);
    }
  }

  /** fromCSV of the empty text is empty. */
  lemma EmptyText(b: Breaks)
    ensures FromCSV("", b) == []
  {
    assert SplitLines("", b) == [""];
    assert NonEmpty([""]) == [];
  }
}
