/** One line of CSV: the quote-aware splitter that reads it into cells
    (parseCSVLine in app.js) and the quoting that writes a cell. */
module CsvLine {
  import opened Text

  /** The splitter loop of parseCSVLine, one character per step, over the
      rest of the line. Its state is the cells finished so far (`res`), the
      cell being read (`cur`) and whether a quoted span is open (`quoted`).
      A quote inside a quoted span that is followed by another quote adds
      one quote to the cell and consumes both; any other quote toggles the
      span; a comma outside a span ends the cell; anything else is text. */
  function Scan(line: string, quoted: bool, cur: string, res: seq<string>): (cells: seq<string>)
    ensures |cells| > |res| && cells[..|res|] == res
    decreases |line|
  {
    if |line| == 0 then res + [cur]
    else if line[0] == '"' then
      if quoted && |line| > 1 && line[1] == '"' then Scan(line[2..], quoted, cur + ['"'], res)
      else Scan(line[1..], !quoted, cur, res)
    else if line[0] == ',' && !quoted then Scan(line[1..], quoted, "", res + [cur])
    else Scan(line[1..], quoted, cur + [line[0]], res)
  }

  /** parseCSVLine: the cells of a line, each trimmed of whitespace. */
  function ParseLine(line: string): (cells: seq<string>)
    ensures |cells| >= 1
    ensures forall i | 0 <= i < |cells| :: IsTrimmed(cells[i])
  {
    TrimAll(Scan(line, false, "", []))
  }

  function TrimAll(raw: seq<string>): (cells: seq<string>)
    ensures |cells| == |raw|
    ensures forall i | 0 <= i < |raw| :: cells[i] == Trim(raw[i])
  {
    seq(|raw|, i requires 0 <= i < |raw| => Trim(raw[i]))
  }

  // ---- A reference reading of a line: tokens, then cuts ----

  /** What a character of the line means to the splitter: a separating
      comma, or a character of text. */
  datatype Token = Separator | Text(c: char)

  /** The tokens of a line: a comma outside a quoted span separates; a
      doubled quote inside a span is one quote of text; any other quote only
      opens or closes a span and yields nothing; everything else is text. */
  function Lex(line: string, quoted: bool): seq<Token>
    decreases |line|
  {
    if |line| == 0 then []
    else if line[0] == '"' then
      if quoted && |line| > 1 && line[1] == '"' then [Text('"')] + Lex(line[2..], quoted)
      else Lex(line[1..], !quoted)
    else if line[0] == ',' && !quoted then [Separator] + Lex(line[1..], quoted)
    else [Text(line[0])] + Lex(line[1..], quoted)
  }

  function SeparatorCount(ts: seq<Token>): nat
    decreases |ts|
  {
    if |ts| == 0 then 0 else (if ts[0] == Separator then 1 else 0) + SeparatorCount(ts[1..])
  }

  /** The texts between separators of a token stream: one more than there
      are separators. */
  function Cut(ts: seq<Token>): (cells: seq<string>)
    ensures |cells| == 1 + SeparatorCount(ts)
    decreases |ts|
  {
    if |ts| == 0 then [""]
    else
      var rest := Cut(ts[1..]);
      match ts[0]
      case Separator => [""] + rest
      case Text(c) => [[c] + rest[0]] + rest[1..]
  }

  /** `cells` with `cur` put in front of its first cell. */
  function Prepend(cur: string, cells: seq<string>): seq<string>
    requires |cells| >= 1
  {
    [cur + cells[0]] + cells[1..]
  }

  lemma PrependEmpty(cells: seq<string>)
    requires |cells| >= 1
    ensures Prepend("", cells) == cells
  {
    assert "" + cells[0] == cells[0];
    assert [cells[0]] + cells[1..] == cells;
  }

  lemma PrependTwice(a: string, b: string, cells: seq<string>)
    requires |cells| >= 1
    ensures Prepend(a, Prepend(b, cells)) == Prepend(a + b, cells)
  {
    assert a + (b + cells[0]) == a + b + cells[0];
  }

  lemma CutText(c: char, ts: seq<Token>)
    ensures Cut([Text(c)] + ts) == Prepend([c], Cut(ts))
  {
    assert ([Text(c)] + ts)[1..] == ts;
  }

  lemma CutSeparator(ts: seq<Token>)
    ensures Cut([Separator] + ts) == [""] + Cut(ts)
  {
    assert ([Separator] + ts)[1..] == ts;
  }

  /** The splitter loop computes exactly the cuts of the tokens. */
  lemma {:induction false} ScanIsCutOfLex(line: string, quoted: bool, cur: string, res: seq<string>)
    ensures Scan(line, quoted, cur, res) == res + Prepend(cur, Cut(Lex(line, quoted)))
    decreases |line|, 1
  {
    if |line| == 0 {
      assert cur + "" == cur;
    } else if line[0] == '"' {
      if quoted && |line| > 1 && line[1] == '"' {
        ScanEscapedQuote(line, quoted, cur, res);
      } else {
        ScanIsCutOfLex(line[1..], !quoted, cur, res);
      }
    } else if line[0] == ',' && !quoted {
      ScanSeparator(line, quoted, cur, res);
    } else {
      ScanText(line, quoted, cur, res);
    }
  }

  lemma {:induction false} ScanEscapedQuote(line: string, quoted: bool, cur: string, res: seq<string>)
    requires |line| > 1 && line[0] == '"' && quoted && line[1] == '"'
    ensures Scan(line, quoted, cur, res) == res + Prepend(cur, Cut(Lex(line, quoted)))
    decreases |line|, 0
  {
    ScanIsCutOfLex(line[2..], quoted, cur + ['"'], res);
    CutText('"', Lex(line[2..], quoted));
    PrependTwice(cur, ['"'], Cut(Lex(line[2..], quoted)));
  }

  lemma {:induction false} ScanSeparator(line: string, quoted: bool, cur: string, res: seq<string>)
    requires |line| > 0 && line[0] == ',' && !quoted
    ensures Scan(line, quoted, cur, res) == res + Prepend(cur, Cut(Lex(line, quoted)))
    decreases |line|, 0
  {
    var ts := Lex(line[1..], quoted);
    var c := Cut(ts);
    calc {
      Scan(line, quoted, cur, res);
      Scan(line[1..], quoted, "", res + [cur]);
      { ScanIsCutOfLex(line[1..], quoted, "", res + [cur]); }
      res + [cur] + Prepend("", c);
      { PrependEmpty(c); }
      res + [cur] + c;
      { assert ([""] + c)[1..] == c; assert cur + "" == cur; }
      res + Prepend(cur, [""] + c);
      { CutSeparator(ts); }
      res + Prepend(cur, Cut([Separator] + ts));
      { assert Lex(line, quoted) == [Separator] + ts; }
      res + Prepend(cur, Cut(Lex(line, quoted)));
    }
  }

  lemma {:induction false} ScanText(line: string, quoted: bool, cur: string, res: seq<string>)
    requires |line| > 0 && line[0] != '"' && !(line[0] == ',' && !quoted)
    ensures Scan(line, quoted, cur, res) == res + Prepend(cur, Cut(Lex(line, quoted)))
    decreases |line|, 0
  {
    ScanIsCutOfLex(line[1..], quoted, cur + [line[0]], res);
    CutText(line[0], Lex(line[1..], quoted));
    PrependTwice(cur, [line[0]], Cut(Lex(line[1..], quoted)));
  }

  /** parseCSVLine is the trimmed cuts of the tokens of the line. */
  lemma ParseLineIsCutOfLex(line: string)
    ensures ParseLine(line) == TrimAll(Cut(Lex(line, false)))
  {
    ScanIsCutOfLex(line, false, "", []);
    var c := Cut(Lex(line, false));
    PrependEmpty(c);
    assert [] + c == c;
  }

  /** parseCSVLine returns one cell more than the line has commas outside
      quoted spans. */
  lemma ParseLineCount(line: string)
    ensures |ParseLine(line)| == 1 + SeparatorCount(Lex(line, false))
  {
    ParseLineIsCutOfLex(line);
  }

  // ---- Lines without quotes ----

  /** Without quotes every comma separates and every other character is
      text. */
  lemma {:induction false} CutLexUnquoted(line: string)
    requires '"' !in line
    ensures Cut(Lex(line, false)) == Split(line, ',')
    decreases |line|
  {
    if |line| > 0 {
      CutLexUnquoted(line[1..]);
      if line[0] == ',' {
        assert ([Separator] + Lex(line[1..], false))[1..] == Lex(line[1..], false);
      } else {
        assert ([Text(line[0])] + Lex(line[1..], false))[1..] == Lex(line[1..], false);
      }
    }
  }

  /** A line without quotes is read as a plain comma split of its text,
      each piece trimmed: the same reading the header line gets. */
  lemma ParseLineUnquoted(line: string)
    requires '"' !in line
    ensures ParseLine(line) == TrimAll(Split(line, ','))
  {
    ParseLineIsCutOfLex(line);
    CutLexUnquoted(line);
  }

  // ---- Quotes never leak into cells ----

  /** No two quotes next to each other. */
  predicate NoDoubledQuote(line: string) {
    forall i | 0 <= i < |line| - 1 :: !(line[i] == '"' && line[i + 1] == '"')
  }

  lemma {:induction false} LexNoQuoteText(line: string, quoted: bool)
    requires NoDoubledQuote(line)
    ensures Text('"') !in Lex(line, quoted)
    decreases |line|
  {
    if |line| > 0 {
      assert NoDoubledQuote(line[1..]) by {
        forall i | 0 <= i < |line[1..]| - 1
          ensures !(line[1..][i] == '"' && line[1..][i + 1] == '"')
        {
          assert line[1..][i] == line[i + 1] && line[1..][i + 1] == line[i + 2];
        }
      }
      if line[0] == '"' {
        LexNoQuoteText(line[1..], !quoted);
      } else {
        LexNoQuoteText(line[1..], quoted);
      }
    }
  }

  lemma {:induction false} CutChars(ts: seq<Token>, c: char)
    requires Text(c) !in ts
    ensures forall i | 0 <= i < |Cut(ts)| :: c !in Cut(ts)[i]
    decreases |ts|
  {
    if |ts| > 0 {
      CutChars(ts[1..], c);
    }
  }

  /** A quote reaches a cell only as the first of two quotes inside a
      quoted span: in a line with no doubled quote, every quote only opens
      or closes a span, and no cell holds a quote. */
  lemma ParseLineDropsLoneQuotes(line: string)
    requires NoDoubledQuote(line)
    ensures forall i | 0 <= i < |ParseLine(line)| :: '"' !in ParseLine(line)[i]
  {
    LexNoQuoteText(line, false);
    CutChars(Lex(line, false), '"');
    ParseLineIsCutOfLex(line);
    forall i | 0 <= i < |ParseLine(line)|
      ensures '"' !in ParseLine(line)[i]
    {
      if '"' in ParseLine(line)[i] {
        TrimChars(Cut(Lex(line, false))[i], '"');
      }
    }
  }

  // ---- Writing cells, and reading them back ----

  /** The `esc` of toCSV: the text in quotes, each quote in it doubled. */
  function Quote(t: string): (q: string)
    ensures |q| >= 2 && q[0] == '"' && q[|q| - 1] == '"'
  {
    "\"" + ReplaceAll(t, '"', "\"\"") + "\""
  }

  /** A cell as written: quoted, or bare (`hours` is written bare). */
  datatype Field = Quoted(text: string) | Bare(text: string)

  /** A bare cell reads back only if it holds no quote and no comma. */
  predicate Writable(f: Field) {
    f.Bare? ==> '"' !in f.text && ',' !in f.text
  }

  function Encode(f: Field): string {
    match f
    case Quoted(t) => Quote(t)
    case Bare(t) => t
  }

  function EncodeAll(fields: seq<Field>): (cells: seq<string>)
    ensures |cells| == |fields|
    ensures forall i | 0 <= i < |fields| :: cells[i] == Encode(fields[i])
  {
    seq(|fields|, i requires 0 <= i < |fields| => Encode(fields[i]))
  }

  function Texts(fields: seq<Field>): (texts: seq<string>)
    ensures |texts| == |fields|
    ensures forall i | 0 <= i < |fields| :: texts[i] == fields[i].text
  {
    seq(|fields|, i requires 0 <= i < |fields| => fields[i].text)
  }

  /** Inside a quoted span, one character as Quote writes it is read as
      that character. */
  lemma ScanQuotedChar(c: char, tail: string, cur: string, res: seq<string>)
    ensures Scan((if c == '"' then "\"\"" else [c]) + tail, true, cur, res) == Scan(tail, true, cur + [c], res)
  {
    if c == '"' {
      assert ("\"\"" + tail)[2..] == tail;
    } else {
      assert ([c] + tail)[1..] == tail;
    }
  }

  /** Inside a quoted span, the doubled-quote text of `t` and the closing
      quote read as `t` itself, and the span is closed. */
  lemma {:induction false} ScanInsideQuotes(t: string, rest: string, cur: string, res: seq<string>)
    requires |rest| == 0 || rest[0] != '"'
    ensures Scan(ReplaceAll(t, '"', "\"\"") + "\"" + rest, true, cur, res) == Scan(rest, false, cur + t, res)
    decreases |t|
  {
    if |t| == 0 {
      assert ReplaceAll(t, '"', "\"\"") + "\"" + rest == "\"" + rest;
      assert ("\"" + rest)[1..] == rest;
      assert cur + t == cur;
    } else {
      var head := if t[0] == '"' then "\"\"" else [t[0]];
      var tail := ReplaceAll(t[1..], '"', "\"\"") + "\"" + rest;
      calc {
        Scan(ReplaceAll(t, '"', "\"\"") + "\"" + rest, true, cur, res);
        { assert ReplaceAll(t, '"', "\"\"") + "\"" + rest == head + tail; }
        Scan(head + tail, true, cur, res);
        { ScanQuotedChar(t[0], tail, cur, res); }
        Scan(tail, true, cur + [t[0]], res);
        { ScanInsideQuotes(t[1..], rest, cur + [t[0]], res); }
        Scan(rest, false, cur + [t[0]] + t[1..], res);
        { assert cur + [t[0]] + t[1..] == cur + t; }
        Scan(rest, false, cur + t, res);
      }
    }
  }

  /** A written cell followed by the end of the line or a comma is read as
      its text. */
  lemma ScanField(f: Field, rest: string, cur: string, res: seq<string>)
    requires Writable(f)
    requires |rest| == 0 || rest[0] == ','
    ensures Scan(Encode(f) + rest, false, cur, res) == Scan(rest, false, cur + f.text, res)
  {
    match f
    case Quoted(t) =>
      var inner := ReplaceAll(t, '"', "\"\"") + "\"" + rest;
      assert Encode(f) + rest == "\"" + inner;
      assert ("\"" + inner)[1..] == inner;
      ScanInsideQuotes(t, rest, cur, res);
    case Bare(t) =>
      ScanBare(t, rest, cur, res);
  }

  lemma {:induction false} ScanBare(t: string, rest: string, cur: string, res: seq<string>)
    requires '"' !in t && ',' !in t
    ensures Scan(t + rest, false, cur, res) == Scan(rest, false, cur + t, res)
    decreases |t|
  {
    if |t| == 0 {
      assert t + rest == rest;
      assert cur + t == cur;
    } else {
      assert (t + rest)[1..] == t[1..] + rest;
      assert t[0] != '"' && t[0] != ',';
      assert '"' !in t[1..] && ',' !in t[1..] by {
        assert forall k | 0 <= k < |t[1..]| :: t[1..][k] == t[k + 1];
      }
      ScanBare(t[1..], rest, cur + [t[0]], res);
      assert cur + [t[0]] + t[1..] == cur + t;
    }
  }

  /** The first written cell of a row, then its comma, are read as the
      first text. */
  lemma ScanRowStep(head: Field, tail: string, res: seq<string>)
    requires Writable(head)
    ensures Scan(Encode(head) + ("," + tail), false, "", res) == Scan(tail, false, "", res + [head.text])
  {
    ScanField(head, "," + tail, "", res);
    assert "" + head.text == head.text;
    assert ("," + tail)[1..] == tail;
  }

  lemma JoinEncodedCons(fields: seq<Field>)
    requires |fields| >= 2
    ensures Join(EncodeAll(fields), ",") == Encode(fields[0]) + ("," + Join(EncodeAll(fields[1..]), ","))
  {
    assert EncodeAll(fields)[1..] == EncodeAll(fields[1..]);
  }

  lemma ScanRowOne(fields: seq<Field>, res: seq<string>)
    requires |fields| == 1 && Writable(fields[0])
    ensures Scan(Join(EncodeAll(fields), ","), false, "", res) == res + Texts(fields)
  {
    assert Join(EncodeAll(fields), ",") == Encode(fields[0]) + "";
    ScanField(fields[0], "", "", res);
    assert "" + fields[0].text == fields[0].text;
    assert Texts(fields) == [fields[0].text];
  }

  /** The inductive step of ScanRow: a written cell and a comma in front of
      a row add the cell's text in front of what the row reads as. */
  lemma ScanRowCons(head: Field, line: string, texts: seq<string>, res: seq<string>)
    requires Writable(head)
    requires Scan(line, false, "", res + [head.text]) == res + [head.text] + texts
    ensures Scan(Encode(head) + ("," + line), false, "", res) == res + ([head.text] + texts)
  {
    calc {
      Scan(Encode(head) + ("," + line), false, "", res);
      { ScanRowStep(head, line, res); }
      Scan(line, false, "", res + [head.text]);
      res + [head.text] + texts;
      res + ([head.text] + texts);
    }
  }

  lemma TextsCons(fields: seq<Field>)
    requires |fields| >= 1
    ensures Texts(fields) == [fields[0].text] + Texts(fields[1..])
  {
  }

  /** Reading a comma-joined row of written cells gives back their texts. */
  lemma {:induction false} ScanRow(fields: seq<Field>, res: seq<string>)
    requires |fields| >= 1
    requires forall i | 0 <= i < |fields| :: Writable(fields[i])
    ensures Scan(Join(EncodeAll(fields), ","), false, "", res) == res + Texts(fields)
    decreases |fields|
  {
    if |fields| == 1 {
      ScanRowOne(fields, res);
    } else {
      var head, rest := fields[0], fields[1..];
      ScanRow(rest, res + [head.text]);
      JoinEncodedCons(fields);
      ScanRowCons(head, Join(EncodeAll(rest), ","), Texts(rest), res);
      TextsCons(fields);
    }
  }

  /** Row round trip: parseCSVLine of the comma-join of written cells gives
      back each cell's text, trimmed. */
  lemma RowRoundTrip(fields: seq<Field>)
    requires |fields| >= 1
    requires forall i | 0 <= i < |fields| :: Writable(fields[i])
    ensures ParseLine(Join(EncodeAll(fields), ",")) == TrimAll(Texts(fields))
  {
    ScanRow(fields, []);
    assert [] + Texts(fields) == Texts(fields);
  }
}
