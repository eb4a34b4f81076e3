/** String helpers the timesheet code borrows from JavaScript's String
    prototype: trim, toLowerCase, split on one character, join, and
    replaceAll of one character. Whitespace and case are ASCII only. */
module Text {

  /** The ASCII characters String.prototype.trim removes: space, tab, line
      feed, vertical tab, form feed and carriage return. */
  predicate IsSpace(c: char) {
    c == ' ' || c == '\t' || c == '\n' || c == '\U{B}' || c == '\U{C}' || c == '\r'
  }

  predicate AllSpace(s: string) {
    forall i | 0 <= i < |s| :: IsSpace(s[i])
  }

  /** Neither starts nor ends with whitespace. */
  predicate IsTrimmed(s: string) {
    |s| == 0 || (!IsSpace(s[0]) && !IsSpace(s[|s| - 1]))
  }

  /** The number of whitespace characters `s` starts with. */
  function LeadingSpace(s: string): (n: nat)
    ensures n <= |s|
    ensures forall i | 0 <= i < n :: IsSpace(s[i])
    ensures n == |s| || !IsSpace(s[n])
    decreases |s|
  {
    if |s| > 0 && IsSpace(s[0]) then 1 + LeadingSpace(s[1..]) else 0
  }

  /** The number of whitespace characters `s` ends with. */
  function TrailingSpace(s: string): (n: nat)
    ensures n <= |s|
    ensures forall i | |s| - n <= i < |s| :: IsSpace(s[i])
    ensures n == |s| || !IsSpace(s[|s| - n - 1])
    decreases |s|
  {
    if |s| > 0 && IsSpace(s[|s| - 1]) then 1 + TrailingSpace(s[..|s| - 1]) else 0
  }

  /** Drops leading whitespace. */
  function TrimStart(s: string): (r: string)
    ensures |r| <= |s| && r == s[|s| - |r|..]
    ensures AllSpace(s[..|s| - |r|])
    ensures |r| == 0 || !IsSpace(r[0])
  {
    s[LeadingSpace(s)..]
  }

  /** String.prototype.trim: the longest infix that neither starts nor ends
      with whitespace, cut out of `s` by removing whitespace only. */
  function Trim(s: string): (r: string)
    ensures IsTrimmed(r)
    ensures exists i, j :: 0 <= i <= j <= |s| && r == s[i..j] && AllSpace(s[..i]) && AllSpace(s[j..])
    ensures IsTrimmed(s) ==> r == s
  {
    var i := LeadingSpace(s);
    var j := |s| - TrailingSpace(s[i..]);
    assert AllSpace(s[j..]) by {
      forall k | 0 <= k < |s| - j
        ensures IsSpace(s[j..][k])
      {
        assert s[j..][k] == s[i..][j - i + k];
      }
    }
    s[i..j]
  }

  /** Every character of the trimmed text comes from `s`. */
  lemma TrimChars(s: string, c: char)
    requires c in Trim(s)
    ensures c in s
  {
    var k :| 0 <= k < |Trim(s)| && Trim(s)[k] == c;
    assert s[LeadingSpace(s) + k] == c;
  }

  function ToLowerChar(c: char): char {
    if 'A' <= c <= 'Z' then (c as int - 'A' as int + 'a' as int) as char else c
  }

  /** String.prototype.toLowerCase restricted to ASCII letters. */
  function ToLower(s: string): (r: string)
    ensures |r| == |s|
    ensures forall i | 0 <= i < |s| :: r[i] == ToLowerChar(s[i])
    decreases |s|
  {
    if |s| == 0 then "" else [ToLowerChar(s[0])] + ToLower(s[1..])
  }

  /** Text with no upper-case ASCII letter is its own lower-case form. */
  lemma ToLowerUnchanged(s: string)
    requires forall i | 0 <= i < |s| :: !('A' <= s[i] <= 'Z')
    ensures ToLower(s) == s
  {
  }

  lemma ToLowerAppend(a: string, b: string)
    ensures ToLower(a + b) == ToLower(a) + ToLower(b)
  {
    var l, r := ToLower(a + b), ToLower(a) + ToLower(b);
    forall i | 0 <= i < |l|
      ensures l[i] == r[i]
    {
      if i < |a| {
        assert (a + b)[i] == a[i];
        assert r[i] == ToLower(a)[i];
      } else {
        assert (a + b)[i] == b[i - |a|];
        assert r[i] == ToLower(b)[i - |a|];
      }
    }
    assert l == r;
  }

  /** Each part lower-cased. */
  function LowerAll(parts: seq<string>): (lowered: seq<string>)
    ensures |lowered| == |parts|
    ensures forall i | 0 <= i < |parts| :: lowered[i] == ToLower(parts[i])
  {
    seq(|parts|, i requires 0 <= i < |parts| => ToLower(parts[i]))
  }

  /** Array.prototype.join: the parts with `sep` between neighbours. */
  function Join(parts: seq<string>, sep: string): string
    decreases |parts|
  {
    if |parts| == 0 then ""
    else if |parts| == 1 then parts[0]
    else parts[0] + sep + Join(parts[1..], sep)
  }

  /** String.prototype.split with a one-character separator: the pieces
      between separators, none of them holding it, which join back to `s`. */
  function Split(s: string, sep: char): (parts: seq<string>)
    ensures |parts| >= 1
    ensures forall i | 0 <= i < |parts| :: sep !in parts[i]
    ensures Join(parts, [sep]) == s
    decreases |s|
  {
    if |s| == 0 then [""]
    else
      var rest := Split(s[1..], sep);
      if s[0] == sep then
        assert ([""] + rest)[1..] == rest;
        [""] + rest
      else
        var parts := [[s[0]] + rest[0]] + rest[1..];
        assert parts[1..] == rest[1..];
        assert s == [s[0]] + s[1..];
        parts
  }

  /** The piece before the first separator comes off whole. */
  lemma {:induction false} SplitFirst(a: string, b: string, sep: char)
    requires sep !in a
    ensures Split(a + [sep] + b, sep) == [a] + Split(b, sep)
    decreases |a|
  {
    if |a| == 0 {
      assert a + [sep] + b == [sep] + b;
      assert ([sep] + b)[1..] == b;
    } else {
      assert (a + [sep] + b)[1..] == a[1..] + [sep] + b;
      SplitFirst(a[1..], b, sep);
      assert [a[0]] + a[1..] == a;
    }
  }

  /** Text without the separator is one piece. */
  lemma {:induction false} SplitNone(a: string, sep: char)
    requires sep !in a
    ensures Split(a, sep) == [a]
    decreases |a|
  {
    if |a| > 0 {
      SplitNone(a[1..], sep);
      assert [a[0]] + a[1..] == a;
    }
  }

  /** Splitting undoes joining when no part holds the separator. */
  /** Lower-casing a comma-join lower-cases each part. */
  lemma {:induction false} ToLowerJoin(parts: seq<string>)
    requires |parts| >= 1
    ensures ToLower(Join(parts, ",")) == Join(LowerAll(parts), ",")
    decreases |parts|
  {
    if |parts| > 1 {
      ToLowerJoin(parts[1..]);
      assert LowerAll(parts)[1..] == LowerAll(parts[1..]);
      ToLowerAppend(parts[0] + ",", Join(parts[1..], ","));
      ToLowerAppend(parts[0], ",");
      assert ToLower(",") == ",";
    }
  }

  lemma {:induction false} SplitJoin(parts: seq<string>, sep: char)
    requires |parts| >= 1
    requires forall i | 0 <= i < |parts| :: sep !in parts[i]
    ensures Split(Join(parts, [sep]), sep) == parts
    decreases |parts|
  {
    if |parts| == 1 {
      SplitNone(parts[0], sep);
    } else {
      SplitJoin(parts[1..], sep);
      SplitFirst(parts[0], Join(parts[1..], [sep]), sep);
      assert [parts[0]] + parts[1..] == parts;
    }
  }

  /** String.prototype.replaceAll with a one-character pattern. */
  function ReplaceAll(s: string, c: char, rep: string): (r: string)
    ensures c !in s ==> r == s
    decreases |s|
  {
    if |s| == 0 then ""
    else (if s[0] == c then rep else [s[0]]) + ReplaceAll(s[1..], c, rep)
  }

  /** Every character of the result comes from the replacement or is a
      character of `s` other than `c`. */
  lemma {:induction false} ReplaceAllChars(s: string, c: char, rep: string, x: char)
    requires x in ReplaceAll(s, c, rep)
    ensures x in rep || (x in s && x != c)
    decreases |s|
  {
    if |s| > 0 {
      var rest := ReplaceAll(s[1..], c, rep);
      if x in rest {
        ReplaceAllChars(s[1..], c, rep, x);
      }
    }
  }

  /** Replacing characters commutes with concatenation. */
  lemma {:induction false} ReplaceAllAppend(a: string, b: string, c: char, rep: string)
    ensures ReplaceAll(a + b, c, rep) == ReplaceAll(a, c, rep) + ReplaceAll(b, c, rep)
    decreases |a|
  {
    if |a| > 0 {
      assert (a + b)[1..] == a[1..] + b;
      ReplaceAllAppend(a[1..], b, c, rep);
    } else {
      assert a + b == b;
    }
  }
}
