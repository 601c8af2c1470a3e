/** The signed-file convention of the front end: the writer appends one line
    `r + " " + s` after the content, and the reader splits off the last line (whatever
    its line ending) and parses the two numbers back. */
module SignedFile {
  import opened Wrappers

  predicate IsBreak(c: char) {
    c == '\n' || c == '\r'
  }

  /** No line-break character anywhere in `s`. */
  predicate NoBreaks(s: string) {
    forall i :: 0 <= i < |s| ==> !IsBreak(s[i])
  }

  predicate EndsWithCR(s: string) {
    |s| > 0 && s[|s| - 1] == '\r'
  }

  /** The three line endings the reader recognises. */
  predicate IsSeparator(sep: string) {
    sep == "\n" || sep == "\r" || sep == "\r\n"
  }

  /** `text` is `prefix`, one line ending, and a final line without breaks; a `"\n"` right
      after a `'\r'` belongs to a `"\r\n"` ending, never to a lone `"\n"`. */
  predicate SplitsAs(text: string, prefix: string, sep: string, last: string) {
    && text == prefix + sep + last
    && IsSeparator(sep)
    && NoBreaks(last)
    && !(sep == "\n" && EndsWithCR(prefix))
  }

  /** Position of the last line-break character, or -1 when there is none. */
  function LastBreak(text: string): (i: int)
    ensures -1 <= i < |text|
    ensures i >= 0 ==> IsBreak(text[i])
    ensures NoBreaks(text[i + 1..])
    decreases |text|
  {
    if |text| == 0 then
      -1
    else if IsBreak(text[|text| - 1]) then
      |text| - 1
    else
      var i := LastBreak(text[..|text| - 1]);
      NoBreaksExtend(text, i);
      i
  }

  lemma NoBreaksExtend(text: string, i: int)
    requires |text| > 0 && -1 <= i < |text| - 1
    requires NoBreaks(text[..|text| - 1][i + 1..]) && !IsBreak(text[|text| - 1])
    ensures NoBreaks(text[i + 1..])
  {
    assert text[i + 1..] == text[..|text| - 1][i + 1..] + [text[|text| - 1]];
  }

  /** A break character followed only by non-breaks is the last break. */
  lemma LastBreakIs(text: string, i: int)
    requires 0 <= i < |text| && IsBreak(text[i]) && NoBreaks(text[i + 1..])
    ensures LastBreak(text) == i
  {
    var j := LastBreak(text);
    if j > i {
      BreakAfter(text, i, j);
    } else if j < i {
      BreakAfter(text, j, i);
    }
  }

  /** A later break than `i` would contradict `NoBreaks(text[i + 1..])`. */
  lemma BreakAfter(text: string, i: int, j: int)
    requires -1 <= i < j < |text| && NoBreaks(text[i + 1..])
    ensures !IsBreak(text[j])
  {
    assert text[i + 1..][j - i - 1] == text[j];
  }

  /** `RemoveLastLine`: split `text` into everything before its last line ending and the
      line after it; with no line break at all the whole text is the last line. */
  function RemoveLastLine(text: string): (res: (string, string))
    ensures text == "" ==> res == ("", "")
    ensures NoBreaks(text) ==> res == ("", text)
    ensures NoBreaks(res.1)
    ensures !NoBreaks(text) ==>
              |res.0| + |res.1| < |text|
              && SplitsAs(text, res.0, text[|res.0|..|text| - |res.1|], res.1)
  {
    if |text| == 0 then
      ("", "")
    else
      var j := LastBreak(text);
      if j == -1 then
        assert text[0..] == text;
        ("", text)
      else
        var start := if text[j] == '\n' && j > 0 && text[j - 1] == '\r' then j - 1 else j;
        assert text == text[..start] + text[start..j + 1] + text[j + 1..];
        (text[..start], text[j + 1..])
  }

  /** The split is unique: any decomposition into prefix, one line ending and a final
      line without breaks is the one `RemoveLastLine` finds. */
  lemma SplitIsUnique(text: string, prefix: string, sep: string, last: string)
    requires SplitsAs(text, prefix, sep, last)
    ensures RemoveLastLine(text) == (prefix, last)
  {
    var j := |text| - |last| - 1;
    assert text[j] == sep[|sep| - 1];
    assert text[j + 1..] == last;
    LastBreakIs(text, j);
    if sep == "\r\n" {
      assert text[j - 1] == '\r';
    }
    assert text[..|prefix|] == prefix;
  }

  /** Reading back what the writer wrote: a content that does not end in `'\r'` followed
      by `"\n"` and a line without breaks splits into exactly that content and line. */
  lemma AppendedLineRoundTrip(content: string, line: string)
    requires !EndsWithCR(content) && NoBreaks(line)
    ensures RemoveLastLine(content + "\n" + line) == (content, line)
  {
    SplitIsUnique(content + "\n" + line, content, "\n", line);
  }

  /** A content ending in `'\r'` does not survive: the writer's `"\n"` joins that `'\r'`
      into one `"\r\n"` ending and the reader drops it from the content. */
  lemma TrailingCarriageReturnLost(content: string, line: string)
    requires EndsWithCR(content) && NoBreaks(line)
    ensures RemoveLastLine(content + "\n" + line) == (content[..|content| - 1], line)
  {
    var kept := content[..|content| - 1];
    assert content == kept + "\r";
    assert content + "\n" + line == kept + "\r\n" + line;
    SplitIsUnique(content + "\n" + line, kept, "\r\n", line);
  }

  /** The reader's backward scan as written: stop at the first `'\n'` (taking a `'\r'`
      before it along) or `'\r'` from the end, then cut out a one- or two-character ending. */
  method ScanLastLine(text: string) returns (prefix: string, lastLine: string)
    ensures (prefix, lastLine) == RemoveLastLine(text)
  {
    if |text| == 0 {
      return "", "";
    }
    // The backward scan stops at the last break character; the break statements of
    // the loop become its guard.
    var i := |text| - 1;
    while i >= 0 && text[i] != '\n' && text[i] != '\r'
      invariant -1 <= i < |text|
      invariant NoBreaks(text[i + 1..])
      decreases i
    {
      NoBreaksExtendFront(text, i);
      i := i - 1;
    }
    var lastNewLinePos := -1;
    if i >= 0 {
      if text[i] == '\n' {
        if i > 0 && text[i - 1] == '\r' {
          lastNewLinePos := i - 1;
        } else {
          lastNewLinePos := i;
        }
      } else {
        lastNewLinePos := i;
      }
    }
    if lastNewLinePos == -1 {
      assert text[0..] == text;
      LastBreakNone(text);
      return "", text;
    }
    ghost var found := i;
    LastBreakIs(text, found);
    var newLineLength :=
      if text[lastNewLinePos] == '\r' && lastNewLinePos + 1 < |text| && text[lastNewLinePos + 1] == '\n'
      then 2 else 1;
    ScanResult(text, found, lastNewLinePos);
    prefix := text[..lastNewLinePos];
    lastLine := text[lastNewLinePos + newLineLength..];
  }

  /** Where the scan stopped decides the cut: the ending is two characters exactly when a
      `'\r'` was taken along with the `'\n'`. */
  lemma ScanResult(text: string, found: int, pos: int)
    requires 0 <= found < |text| && IsBreak(text[found]) && NoBreaks(text[found + 1..])
    requires pos == if text[found] == '\n' && found > 0 && text[found - 1] == '\r' then found - 1 else found
    ensures var len := if text[pos] == '\r' && pos + 1 < |text| && text[pos + 1] == '\n' then 2 else 1;
            pos + len == found + 1 && RemoveLastLine(text) == (text[..pos], text[found + 1..])
  {
    LastBreakIs(text, found);
    if text[found] == '\r' && found + 1 < |text| {
      assert text[found + 1] == text[found + 1..][0];
    }
  }

  lemma NoBreaksExtendFront(text: string, i: int)
    requires 0 <= i < |text| && !IsBreak(text[i]) && NoBreaks(text[i + 1..])
    ensures NoBreaks(text[i..])
  {
    assert text[i..] == [text[i]] + text[i + 1..];
  }

  lemma LastBreakNone(text: string)
    requires NoBreaks(text)
    ensures LastBreak(text) == -1
  {
    var j := LastBreak(text);
    if j >= 0 {
      BreakAfter(text, -1, j);
    }
  }

  // ---------------------------------------------------------------------------------
  // Decimal numbers

  predicate IsDigit(c: char) {
    '0' <= c <= '9'
  }

  predicate AllDigits(s: string) {
    forall i :: 0 <= i < |s| ==> IsDigit(s[i])
  }

  function DigitChar(d: int): (c: char)
    requires 0 <= d < 10
    ensures IsDigit(c) && c as int - '0' as int == d
  {
    ('0' as int + d) as char
  }

  /** The value of a string of decimal digits, most significant first. */
  function DigitsValue(s: string): nat
    requires AllDigits(s)
    decreases |s|
  {
    if |s| == 0 then 0 else 10 * DigitsValue(s[..|s| - 1]) + (s[|s| - 1] as int - '0' as int)
  }

  /** The decimal digits of a natural number, without leading zeros. */
  function NatDigits(n: nat): (s: string)
    ensures |s| > 0 && AllDigits(s) && DigitsValue(s) == n
    decreases n
  {
    var last := [DigitChar(n % 10)];
    var s := if n < 10 then last else NatDigits(n / 10) + last;
    assert s[..|s| - 1] == (if n < 10 then "" else NatDigits(n / 10));
    s
  }

  /** An integer in decimal, with a leading `'-'` when negative, as the writer formats
      the signature numbers. */
  function Dec(n: int): (s: string)
    ensures |s| > 0 && ' ' !in s && NoBreaks(s)
    ensures s[0] == '-' <==> n < 0
  {
    var s := if n < 0 then "-" + NatDigits(-n) else NatDigits(n);
    NoSpaceInNumber(s);
    s
  }

  lemma NoSpaceInNumber(s: string)
    requires |s| > 0 && (AllDigits(s) || (s[0] == '-' && AllDigits(s[1..])))
    ensures ' ' !in s && NoBreaks(s)
  {
    if s[0] == '-' {
      assert forall i :: 1 <= i < |s| ==> s[i] == s[1..][i - 1];
    }
  }

  /** The reader's number parser: an optional `'-'` followed by one or more decimal digits. */
  function ParseInt(s: string): (r: Option<int>)
    ensures r.Some? ==> |s| > 0 && ' ' !in s && NoBreaks(s)
    ensures r.Some? && r.value < 0 ==> s[0] == '-'
    ensures |s| > 0 && s[0] != '-' && !AllDigits(s) ==> r.None?
  {
    if |s| > 1 && s[0] == '-' && AllDigits(s[1..]) then
      Some(-(DigitsValue(s[1..]) as int))
    else if |s| > 0 && AllDigits(s) then
      Some(DigitsValue(s))
    else
      None
  }

  /** Parsing what `Dec` prints gives the number back. */
  lemma ParseDec(n: int)
    ensures ParseInt(Dec(n)) == Some(n)
  {
    var d := Dec(n);
    if n < 0 {
      assert d[1..] == NatDigits(-n);
    } else {
      assert d[0] != '-';
    }
  }

  // ---------------------------------------------------------------------------------
  // Splitting on a separator character

  /** `s.Split(c)`: the pieces between occurrences of `c`, empty pieces included. */
  function SplitOn(s: string, c: char): (pieces: seq<string>)
    ensures |pieces| > 0
    ensures forall k :: 0 <= k < |pieces| ==> c !in pieces[k]
    ensures Join(pieces, c) == s
    decreases |s|
  {
    if |s| == 0 then
      [""]
    else if s[0] == c then
      var rest := SplitOn(s[1..], c);
      assert s == [c] + s[1..];
      [""] + rest
    else
      var rest := SplitOn(s[1..], c);
      assert s == [s[0]] + s[1..];
      [[s[0]] + rest[0]] + rest[1..]
  }

  /** The pieces glued back together with `c` between neighbours. */
  function Join(pieces: seq<string>, c: char): string
    requires |pieces| > 0
    decreases |pieces|
  {
    if |pieces| == 1 then pieces[0] else pieces[0] + [c] + Join(pieces[1..], c)
  }

  lemma {:induction false} SplitWithout(s: string, c: char)
    requires c !in s
    ensures SplitOn(s, c) == [s]
    decreases |s|
  {
    if |s| > 0 {
      SplitWithout(s[1..], c);
      assert [s[0]] + s[1..] == s;
    }
  }

  /** A split into exactly two pieces means one `c`, between the pieces. */
  lemma TwoPieces(s: string, c: char)
    requires |SplitOn(s, c)| == 2
    ensures var parts := SplitOn(s, c);
            var i := |parts[0]|;
            i < |s| && s[i] == c && s[..i] == parts[0] && s[i + 1..] == parts[1]
  {
    var parts := SplitOn(s, c);
    assert Join(parts[1..], c) == parts[1];
    assert s == parts[0] + [c] + parts[1];
  }

  /** Two pieces without `c`, joined by one `c`, split back into exactly those pieces. */
  lemma {:induction false} SplitTwo(a: string, b: string, c: char)
    requires c !in a && c !in b
    ensures SplitOn(a + [c] + b, c) == [a, b]
    decreases |a|
  {
    var s := a + [c] + b;
    if |a| == 0 {
      assert s[1..] == b;
      SplitWithout(b, c);
    } else {
      assert s[1..] == a[1..] + [c] + b;
      SplitTwo(a[1..], b, c);
      assert [a[0]] + a[1..] == a;
    }
  }

  // ---------------------------------------------------------------------------------
  // Writing and reading a signed file

  /** `WriteFileWithSignarure`: the content, a `"\n"`, then `r` and `s` in decimal
      separated by one space. */
  function SignedText(content: string, r: int, s: int): (text: string)
    ensures |text| > |content| + 1 && text[..|content|] == content && text[|content|] == '\n'
  {
    content + "\n" + Dec(r) + " " + Dec(s)
  }

  /** What `TrimSignatureFromFile` returns: the content without its last line, the two
      numbers (0 where not parsed) and whether both parsed. */
  datatype Trimmed = Trimmed(content: string, r: int, s: int, success: bool)

  /** `TrimSignatureFromFile`: split off the last line, which must be two pieces around a
      single space that both parse as integers.  When only the first parses, its value is
      kept in `r` and `s` stays 0. */
  function TrimSignatureFromFile(text: string): (res: Trimmed)
    ensures res.content == RemoveLastLine(text).0
    ensures res.success ==>
              var line := RemoveLastLine(text).1;
              exists i :: 0 <= i < |line| && line[i] == ' '
                          && ParseInt(line[..i]) == Some(res.r)
                          && ParseInt(line[i + 1..]) == Some(res.s)
    ensures !res.success ==> res.s == 0
    ensures |SplitOn(RemoveLastLine(text).1, ' ')| != 2 ==> !res.success && res.r == 0
  {
    var (prefix, line) := RemoveLastLine(text);
    var parts := SplitOn(line, ' ');
    if |parts| != 2 then
      Trimmed(prefix, 0, 0, false)
    else
      match ParseInt(parts[0])
      case None => Trimmed(prefix, 0, 0, false)
      case Some(r) =>
        match ParseInt(parts[1])
        case None => Trimmed(prefix, r, 0, false)
        case Some(s) =>
          TwoPieces(line, ' ');
          Trimmed(prefix, r, s, true)
  }

  /** Conversely, a last line made of exactly two pieces around one space, both of which
      parse, is always accepted, with those two numbers. */
  lemma TrimAccepts(text: string, a: string, b: string, r: int, s: int)
    requires RemoveLastLine(text).1 == a + " " + b
    requires ' ' !in a && ' ' !in b
    requires ParseInt(a) == Some(r) && ParseInt(b) == Some(s)
    ensures TrimSignatureFromFile(text) == Trimmed(RemoveLastLine(text).0, r, s, true)
  {
    SplitTwo(a, b, ' ');
  }

  /** A last line with a piece that does not parse is rejected and `s` is reported as 0;
      `r` is 0 when the first piece fails and keeps its parsed value when only the second
      does. */
  lemma TrimRejects(text: string, a: string, b: string)
    requires RemoveLastLine(text).1 == a + " " + b
    requires ' ' !in a && ' ' !in b
    requires ParseInt(a).None? || ParseInt(b).None?
    ensures var res := TrimSignatureFromFile(text);
            && res.content == RemoveLastLine(text).0
            && !res.success && res.s == 0
            && res.r == (if ParseInt(a).Some? then ParseInt(a).value else 0)
  {
    SplitTwo(a, b, ' ');
  }

  /** Writer and reader agree: a file written as content, `"\n"`, `r`, `" "`, `s` is read
      back as exactly that content and signature, for any content not ending in `'\r'`. */
  lemma WriteThenTrim(content: string, r: int, s: int)
    requires !EndsWithCR(content)
    ensures TrimSignatureFromFile(SignedText(content, r, s)) == Trimmed(content, r, s, true)
  {
    var line := Dec(r) + " " + Dec(s);
    assert SignedText(content, r, s) == content + "\n" + line;
    SignatureLineHasNoBreaks(Dec(r), Dec(s));
    AppendedLineRoundTrip(content, line);
    ParseDec(r);
    ParseDec(s);
    TrimAccepts(SignedText(content, r, s), Dec(r), Dec(s), r, s);
  }

  /** The other side of the round trip: a content ending in `'\r'` is read back without
      that character, although the signature itself still comes back intact. */
  lemma WriteThenTrimDropsCR(content: string, r: int, s: int)
    requires EndsWithCR(content)
    ensures TrimSignatureFromFile(SignedText(content, r, s))
            == Trimmed(content[..|content| - 1], r, s, true)
  {
    var line := Dec(r) + " " + Dec(s);
    assert SignedText(content, r, s) == content + "\n" + line;
    SignatureLineHasNoBreaks(Dec(r), Dec(s));
    TrailingCarriageReturnLost(content, line);
    ParseDec(r);
    ParseDec(s);
    TrimAccepts(SignedText(content, r, s), Dec(r), Dec(s), r, s);
  }

  lemma SignatureLineHasNoBreaks(a: string, b: string)
    requires NoBreaks(a) && NoBreaks(b)
    ensures NoBreaks(a + " " + b)
  {
    var line := a + " " + b;
    forall i | 0 <= i < |line|
      ensures !IsBreak(line[i])
    {
      if i < |a| {
        assert line[i] == a[i];
      } else if i > |a| {
        assert line[i] == b[i - |a| - 1];
      }
    }
  }

  /** A sample file: a `"\r\n"` ending and a negative first number. */
  lemma ReaderAcceptsCrLf()
    ensures TrimSignatureFromFile("A\r\n-8 5") == Trimmed("A", -8, 5, true)
  {
    assert DigitsValue("8") == 8 && DigitsValue("5") == 5;
    assert "-8"[1..] == "8";
    assert ParseInt("-8") == Some(-8);
    SplitIsUnique("A\r\n-8 5", "A", "\r\n", "-8 5");
    TrimAccepts("A\r\n-8 5", "-8", "5", -8, 5);
  }

  /** A sample rejection: the second number does not parse, and the first is still
      reported. */
  lemma ReaderRejectsBadNumber()
    ensures TrimSignatureFromFile("A\n8 x") == Trimmed("A", 8, 0, false)
  {
    assert DigitsValue("8") == 8;
    assert !IsDigit("x"[0]);
    assert ParseInt("8") == Some(8) && ParseInt("x") == None;
    SplitIsUnique("A\n8 x", "A", "\n", "8 x");
    TrimRejects("A\n8 x", "8", "x");
  }

  /** A sample rejection: a doubled space makes three pieces. */
  lemma ReaderRejectsDoubleSpace()
    ensures TrimSignatureFromFile("A\n8  5") == Trimmed("A", 0, 0, false)
  {
    SplitIsUnique("A\n8  5", "A", "\n", "8  5");
    DoubleSpaceSplit();
  }

  lemma DoubleSpaceSplit()
    ensures |SplitOn("8  5", ' ')| == 3
  {
    var line := "8  5";
    assert line[1..] == "  5" && line[2..] == " 5" && line[3..] == "5";
    assert SplitOn("5", ' ') == ["5"];
  }
}
