/** Whole documents: what fromCSV makes of the text toCSV writes, once with
    the line breaks app.js uses and once with real line breaks. */
module CsvDocument {
  import opened Text
  import opened Numbers
  import opened Entries
  import opened CsvLine
  import opened Csv

  // ---- Rows are single lines ----

  /** Quoting adds only quote characters. */
  lemma QuoteAvoids(t: string, c: char)
    requires c != '"' && c !in t
    ensures c !in Quote(t)
  {
    var r := ReplaceAll(t, '"', "\"\"");
    assert c !in r by {
      if c in r {
        ReplaceAllChars(t, '"', "\"\"", c);
      }
    }
    assert Quote(t) == "\"" + r + "\"";
  }

  /** A character that is neither a quote nor a comma appears in a row only
      if it appears in one of the entry's texts. */
  lemma RowAvoids(e: Entry, show: Number -> string, c: char)
    requires c != '"' && c != ','
    requires c !in e.date && c !in e.project && c !in show(e.hours) && c !in e.note
    ensures c !in EncodeRow(e, show)
  {
    var cells := EncodeAll(RowFields(e, show));
    QuoteAvoids(e.date, c);
    QuoteAvoids(e.project, c);
    QuoteAvoids(e.note, c);
    assert cells == [Quote(e.date), Quote(e.project), show(e.hours), Quote(e.note)];
    JoinAvoids(cells, ",", c);
  }

  /** A row is never empty: it starts with the quoted date. */
  lemma RowNotEmpty(e: Entry, show: Number -> string)
    ensures EncodeRow(e, show) != ""
  {
    var cells := EncodeAll(RowFields(e, show));
    assert cells[0] == Quote(e.date);
    JoinStartsWith(cells, ",");
  }

  // ---- Real line breaks ----

  /** filter(Boolean) keeps a list without empty lines as it is. */
  lemma {:induction false} NonEmptyKeepsAll(lines: seq<string>)
    requires forall i | 0 <= i < |lines| :: lines[i] != ""
    ensures NonEmpty(lines) == lines
    decreases |lines|
  {
    if |lines| > 0 {
      NonEmptyKeepsAll(lines[1..]);
      assert [lines[0]] + lines[1..] == lines;
    }
  }

  /** The row of an exportable entry is a non-empty single line. */
  lemma RowPlain(e: Entry, show: Number -> string)
    requires Exportable(e, show)
    ensures OneLine(EncodeRow(e, show)) && EncodeRow(e, show) != ""
  {
    RowAvoids(e, show, '\n');
    RowAvoids(e, show, '\r');
    RowNotEmpty(e, show);
  }

  lemma HeaderPlain()
    ensures OneLine(Header) && Header != ""
  {
  }

  /** The lines toCSV writes for exportable entries are non-empty and hold
      no line-break character. */
  lemma LinesArePlain(entries: seq<Entry>, show: Number -> string)
    requires forall i | 0 <= i < |entries| :: Exportable(entries[i], show)
    ensures forall i | 0 <= i < |Lines(entries, show)| :: OneLine(Lines(entries, show)[i]) && Lines(entries, show)[i] != ""
  {
    var lines := Lines(entries, show);
    var rows := Rows(entries, show);
    assert lines == [Header] + rows;
    HeaderPlain();
    forall i | 0 <= i < |rows|
      ensures OneLine(rows[i]) && rows[i] != ""
    {
      RowPlain(entries[i], show);
    }
    forall i | 0 <= i < |lines|
      ensures OneLine(lines[i]) && lines[i] != ""
    {
      if i > 0 {
        assert lines[i] == rows[i - 1];
      }
    }
  }

  /** With real line breaks the document splits back into the lines
      toCSV joined. */
  lemma SplitsIntoLines(entries: seq<Entry>, show: Number -> string)
    requires forall i | 0 <= i < |entries| :: Exportable(entries[i], show)
    ensures SplitLines(ToCSV(entries, show, Newline), Newline) == Lines(entries, show)
  {
    var lines := Lines(entries, show);
    LinesArePlain(entries, show);
    SplitJoinedLines(lines, Newline, "\n", "");
    assert "" + lines[0] == lines[0];
    assert [lines[0]] + lines[1..] == lines;
  }

  /** The lines toCSV joins are read back as the entries written. */
  lemma ReadLines(entries: seq<Entry>, show: Number -> string)
    requires forall i | 0 <= i < |entries| :: Exportable(entries[i], show)
    ensures FromLines(Lines(entries, show)) == entries
  {
    var lines := Lines(entries, show);
    LinesArePlain(entries, show);
    NonEmptyKeepsAll(lines);
    assert lines[0] == Header && lines[1..] == Rows(entries, show);
    DecodeEncodedRows(entries, show);
  }

  /** With real line breaks, reading what toCSV wrote gives back exactly the
      entries written, in order, for entries whose texts survive the
      trimming of the reader and hold no line break. */
  lemma ExportImportRoundTrip(entries: seq<Entry>, show: Number -> string)
    requires forall i | 0 <= i < |entries| :: Exportable(entries[i], show)
    ensures FromCSV(ToCSV(entries, show, Newline), Newline) == entries
  {
    calc {
      FromCSV(ToCSV(entries, show, Newline), Newline);
      FromLines(SplitLines(ToCSV(entries, show, Newline), Newline));
      { SplitsIntoLines(entries, show); }
      FromLines(Lines(entries, show));
      { ReadLines(entries, show); }
      entries;
    }
  }

  // ---- Either pattern ----

  /** Each separator of the pattern is matched as one whole line break. */
  lemma BreakAtSeparator(sep: string, rest: string, b: Breaks)
    requires sep in Separators(b)
    ensures BreakAt(sep + rest, b) == |sep|
  {
  }

  /** No line break starts at a character of unbroken text. */
  lemma NoBreakAtStart(l: string, rest: string, b: Breaks)
    requires |l| > 0 && Unbroken(l, b)
    ensures BreakAt(l + rest, b) == 0
  {
    assert (l + rest)[0] == l[0];
  }

  lemma UnbrokenTail(l: string, b: Breaks)
    requires |l| > 0 && Unbroken(l, b)
    ensures Unbroken(l[1..], b)
  {
    assert forall c | c in l[1..] :: c in l;
  }

  /** Text in which no line break can start is read into the current line
      whole. */
  lemma {:induction false} SplitUnbroken(l: string, rest: string, b: Breaks, cur: string)
    requires Unbroken(l, b)
    ensures SplitLinesFrom(l + rest, b, cur) == SplitLinesFrom(rest, b, cur + l)
    decreases |l|
  {
    if |l| == 0 {
      assert l + rest == rest;
      assert cur + l == cur;
    } else {
      var s := l + rest;
      NoBreakAtStart(l, rest, b);
      assert s[1..] == l[1..] + rest;
      UnbrokenTail(l, b);
      SplitUnbroken(l[1..], rest, b, cur + [l[0]]);
      assert cur + [l[0]] + l[1..] == cur + l;
    }
  }

  /** A line followed by a separator ends there. */
  lemma SplitAtSeparator(l: string, sep: string, rest: string, b: Breaks, cur: string)
    requires Unbroken(l, b) && sep in Separators(b)
    ensures SplitLinesFrom(l + (sep + rest), b, cur) == [cur + l] + SplitLinesFrom(rest, b, "")
  {
    SplitUnbroken(l, sep + rest, b, cur);
    BreakAtSeparator(sep, rest, b);
    assert (sep + rest)[|sep|..] == rest;
  }

  /** For either pattern, splitting undoes joining with any separator the
      pattern matches, when no line holds a character a line break starts
      with. */
  lemma {:induction false} SplitJoinedLines(lines: seq<string>, b: Breaks, sep: string, cur: string)
    requires |lines| >= 1 && sep in Separators(b)
    requires forall i | 0 <= i < |lines| :: Unbroken(lines[i], b)
    ensures SplitLinesFrom(Join(lines, sep), b, cur) == [cur + lines[0]] + lines[1..]
    decreases |lines|
  {
    if |lines| == 1 {
      SplitUnbroken(lines[0], "", b, cur);
      assert lines[0] + "" == lines[0];
    } else {
      var rest := Join(lines[1..], sep);
      assert Join(lines, sep) == lines[0] + (sep + rest);
      SplitAtSeparator(lines[0], sep, rest, b, cur);
      SplitJoinedLines(lines[1..], b, sep, "");
      assert "" + lines[1] == lines[1];
      assert [lines[1]] + lines[2..] == lines[1..];
    }
  }

  // ---- The line breaks of app.js ----

  /** Every backslash is followed by an n: the split pattern of app.js,
      which needs a backslash followed by a backslash or an r, never
      matches. */
  predicate OnlyBackslashN(s: string) {
    forall i | 0 <= i < |s| && s[i] == '\\' :: i + 1 < |s| && s[i + 1] == 'n'
  }

  /** Text the split pattern of app.js never matches is read as one line. */
  lemma {:induction false} SplitAsWrittenWhole(s: string, cur: string)
    requires OnlyBackslashN(s)
    ensures SplitLinesFrom(s, AsWritten, cur) == [cur + s]
    decreases |s|
  {
    if |s| == 0 {
      assert cur + s == cur;
    } else {
      assert BreakAt(s, AsWritten) == 0;
      assert OnlyBackslashN(s[1..]) by {
        forall i | 0 <= i < |s[1..]| && s[1..][i] == '\\'
          ensures i + 1 < |s[1..]| && s[1..][i + 1] == 'n'
        {
          assert s[i + 1] == '\\';
        }
      }
      SplitAsWrittenWhole(s[1..], cur + [s[0]]);
      assert cur + [s[0]] + s[1..] == cur + s;
    }
  }

  /** Joining backslash-free parts with the two characters backslash and n
      leaves every backslash followed by an n. */
  lemma {:induction false} JoinBackslashN(parts: seq<string>)
    requires forall i | 0 <= i < |parts| :: '\\' !in parts[i]
    ensures OnlyBackslashN(Join(parts, "\\n"))
    decreases |parts|
  {
    if |parts| > 1 {
      JoinBackslashN(parts[1..]);
      var rest := Join(parts[1..], "\\n");
      var s := parts[0] + "\\n" + rest;
      assert Join(parts, "\\n") == s;
      forall i | 0 <= i < |s| && s[i] == '\\'
        ensures i + 1 < |s| && s[i + 1] == 'n'
      {
        if i >= |parts[0]| + 2 {
          assert s[i] == rest[i - |parts[0]| - 2];
          assert s[i + 1] == rest[i - |parts[0]| - 1];
        }
      }
    } else if |parts| == 1 {
      assert Join(parts, "\\n") == parts[0];
    }
  }

  /** No backslash in the texts toCSV writes for the entry. */
  predicate NoBackslash(e: Entry, show: Number -> string) {
    '\\' !in e.date && '\\' !in e.project && '\\' !in show(e.hours) && '\\' !in e.note
  }

  /** As app.js is written, the document toCSV writes is read as one line. */
  lemma SplitsIntoOneLine(entries: seq<Entry>, show: Number -> string)
    requires forall i | 0 <= i < |entries| :: NoBackslash(entries[i], show)
    ensures |SplitLines(ToCSV(entries, show, AsWritten), AsWritten)| == 1
  {
    var lines := Lines(entries, show);
    forall i | 0 <= i < |lines|
      ensures '\\' !in lines[i]
    {
      if i > 0 {
        var e := entries[i - 1];
        assert lines[i] == EncodeRow(e, show);
        RowAvoids(e, show, '\\');
      } else {
        assert lines[0] == Header;
      }
    }
    JoinBackslashN(lines);
    SplitAsWrittenWhole(Join(lines, "\\n"), "");
  }

  /** As app.js is written, no exported entry is ever imported back: toCSV
      separates the lines with a backslash and an n, which the split pattern
      of fromCSV does not match, so the whole document is one line, taken
      for the header. */
  lemma ExportImportAsWrittenLosesAll(entries: seq<Entry>, show: Number -> string)
    requires forall i | 0 <= i < |entries| :: NoBackslash(entries[i], show)
    ensures FromCSV(ToCSV(entries, show, AsWritten), AsWritten) == []
  {
    SplitsIntoOneLine(entries, show);
  }
}
