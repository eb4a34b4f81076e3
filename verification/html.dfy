/** The HTML escaping the table rows apply to project names and notes. */
module Html {
  import opened Text

  /** What one character becomes in the escaped text. */
  function EscapeChar(c: char): string {
    if c == '&' then "&amp;"
    else if c == '<' then "&lt;"
    else if c == '>' then "&gt;"
    else [c]
  }

  /** Escaping character by character: the reference reading. */
  function EscapeEach(s: string): string
    decreases |s|
  {
    if |s| == 0 then "" else EscapeChar(s[0]) + EscapeEach(s[1..])
  }

  /** escapeHtml: every ampersand replaced first, then every less-than sign,
      then every greater-than sign. The result holds no angle bracket, and
      text with none of the three characters is left as it is. */
  function EscapeHtml(s: string): (r: string)
    ensures '<' !in r && '>' !in r
    ensures '&' !in s && '<' !in s && '>' !in s ==> r == s
  {
    var amp := ReplaceAll(s, '&', "&amp;");
    var lt := ReplaceAll(amp, '<', "&lt;");
    var gt := ReplaceAll(lt, '>', "&gt;");
    assert '<' !in lt by {
      if '<' in lt {
        ReplaceAllChars(amp, '<', "&lt;", '<');
      }
    }
    assert '<' !in gt && '>' !in gt by {
      if '<' in gt {
        ReplaceAllChars(lt, '>', "&gt;", '<');
      }
      if '>' in gt {
        ReplaceAllChars(lt, '>', "&gt;", '>');
      }
    }
    gt
  }

  /** Escaping commutes with concatenation. */
  lemma EscapeHtmlAppend(a: string, b: string)
    ensures EscapeHtml(a + b) == EscapeHtml(a) + EscapeHtml(b)
  {
    var amp := ReplaceAll(a + b, '&', "&amp;");
    ReplaceAllAppend(a, b, '&', "&amp;");
    var a1, b1 := ReplaceAll(a, '&', "&amp;"), ReplaceAll(b, '&', "&amp;");
    ReplaceAllAppend(a1, b1, '<', "&lt;");
    var a2, b2 := ReplaceAll(a1, '<', "&lt;"), ReplaceAll(b1, '<', "&lt;");
    ReplaceAllAppend(a2, b2, '>', "&gt;");
  }

  /** Replacing in a one-character text. */
  lemma ReplaceAllOne(c: char, x: char, rep: string)
    ensures ReplaceAll([c], x, rep) == if c == x then rep else [c]
  {
    assert [c][1..] == "";
    assert rep + "" == rep;
  }

  /** One character is escaped as its entity. */
  lemma EscapeHtmlChar(c: char)
    ensures EscapeHtml([c]) == EscapeChar(c)
  {
    ReplaceAllOne(c, '&', "&amp;");
    if c == '&' {
      assert '<' !in "&amp;" && '>' !in "&amp;";
    } else {
      ReplaceAllOne(c, '<', "&lt;");
      if c == '<' {
        assert '>' !in "&lt;";
      } else {
        ReplaceAllOne(c, '>', "&gt;");
      }
    }
  }

  /** The three replacements in a row escape each character on its own, as
      long as the ampersand goes first: the entities the later steps
      introduce are not escaped again. */
  lemma {:induction false} EscapeHtmlIsEach(s: string)
    ensures EscapeHtml(s) == EscapeEach(s)
    decreases |s|
  {
    if |s| == 0 {
      assert EscapeHtml(s) == "";
    } else {
      assert s == [s[0]] + s[1..];
      EscapeHtmlAppend([s[0]], s[1..]);
      EscapeHtmlChar(s[0]);
      EscapeHtmlIsEach(s[1..]);
    }
  }

  /** Reading the three entities back as the characters they stand for. */
  function Unescape(s: string): string
    decreases |s|
  {
    if |s| == 0 then ""
    else if |s| >= 5 && s[..5] == "&amp;" then "&" + Unescape(s[5..])
    else if |s| >= 4 && s[..4] == "&lt;" then "<" + Unescape(s[4..])
    else if |s| >= 4 && s[..4] == "&gt;" then ">" + Unescape(s[4..])
    else [s[0]] + Unescape(s[1..])
  }

  lemma UnescapeChar(c: char, rest: string)
    ensures Unescape(EscapeChar(c) + rest) == [c] + Unescape(rest)
  {
    var t := EscapeChar(c) + rest;
    if c == '&' {
      assert t[..5] == "&amp;" && t[5..] == rest;
    } else if c == '<' {
      assert t[..4] == "&lt;" && t[4..] == rest;
      if |t| >= 5 {
        assert t[..5][1] == 'l';
      }
    } else if c == '>' {
      assert t[..4] == "&gt;" && t[4..] == rest;
      if |t| >= 5 {
        assert t[..5][1] == 'g';
      }
    } else {
      assert t[0] == c && t[1..] == rest;
      if |t| >= 5 {
        assert t[..5][0] == c;
      }
      if |t| >= 4 {
        assert t[..4][0] == c;
      }
    }
  }

  /** Escaping loses nothing: the original text can be read back, so
      different texts are shown differently. */
  lemma {:induction false} UnescapeEscapeEach(s: string)
    ensures Unescape(EscapeEach(s)) == s
    decreases |s|
  {
    if |s| > 0 {
      calc {
        Unescape(EscapeEach(s));
        Unescape(EscapeChar(s[0]) + EscapeEach(s[1..]));
        { UnescapeChar(s[0], EscapeEach(s[1..])); }
        [s[0]] + Unescape(EscapeEach(s[1..]));
        { UnescapeEscapeEach(s[1..]); }
        [s[0]] + s[1..];
        s;
      }
    }
  }

  lemma UnescapeEscapeHtml(s: string)
    ensures Unescape(EscapeHtml(s)) == s
  {
    EscapeHtmlIsEach(s);
    UnescapeEscapeEach(s);
  }
}
