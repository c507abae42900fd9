/**
 * The subset of `std::format` that the two dumpers use: an unsigned number
 * in decimal (`{}`) or upper-case hexadecimal (`{:X}`), padded to a minimum
 * width (`{:<10}` left-aligned with spaces, `{:09X}` zero-filled,
 * `{:12X}` right-aligned with spaces) and never truncated. A reader for the
 * resulting lines is the partner that shows nothing is lost in the text.
 */
module TextFormat {
  import opened Wrappers

  /** `0`-`9`, then upper-case `A`-`F`. */
  function DigitChar(d: nat): (c: char)
    requires d < 16
    ensures c != ' ' && c != '\t' && c != '\n' && c != '-'
  {
    if d < 10 then ('0' as int + d) as char else ('A' as int + d - 10) as char
  }

  /** The value of one digit character in `base`, if it is one. */
  function DigitValue(c: char, base: nat): (r: Option<nat>)
    ensures r.Some? ==> r.value < base && r.value < 16 && DigitChar(r.value) == c
  {
    var d := if '0' <= c <= '9' then c as int - '0' as int
             else if 'A' <= c <= 'F' then c as int - 'A' as int + 10
             else 16;
    if d < base && d < 16 then Some(d) else None
  }

  /** Digits of `n` in `base`, most significant first, without leading zeros. */
  function Render(n: nat, base: nat): (s: string)
    requires 2 <= base <= 16
    ensures |s| >= 1
    ensures ' ' !in s && '\t' !in s && '\n' !in s && '-' !in s
    decreases n
  {
    if n < base then [DigitChar(n)]
    else
      DivStep(n, base);
      Render(n / base, base) + [DigitChar(n % base)]
  }

  /** Numeric value of a string of digits in `base`; `None` on any other character. */
  function Value(s: string, base: nat): Option<nat>
    decreases |s|
  {
    if s == [] then Some(0)
    else Shift(Value(s[..|s| - 1], base), DigitValue(s[|s| - 1], base), base)
  }

  /** The value of the higher digits, times the base, plus the lowest digit. */
  function Shift(high: Option<nat>, low: Option<nat>, base: nat): Option<nat>
  {
    if high.Some? && low.Some? then Some(high.value * base + low.value) else None
  }

  lemma DivStep(n: nat, base: nat)
    requires 2 <= base <= n
    ensures n / base < n && (n / base) * base + n % base == n
  {
    var q := n / base;
    MulAtLeastDouble(q, base);
  }

  lemma {:induction false} MulAtLeastDouble(q: nat, b: nat)
    requires b >= 2
    ensures q * b >= q + q
  {
    if q > 0 {
      MulAtLeastDouble(q - 1, b);
      assert q * b == (q - 1) * b + b;
    }
  }

  lemma {:induction false} RenderValue(n: nat, base: nat)
    requires 2 <= base <= 16
    ensures Value(Render(n, base), base) == Some(n)
    decreases n
  {
    if n < base {
      OneDigit(n, base);
    } else {
      DivStep(n, base);
      RenderValue(n / base, base);
      MoreDigits(n, base);
    }
  }

  lemma OneDigit(n: nat, base: nat)
    requires 2 <= base && n < base <= 16
    ensures Value(Render(n, base), base) == Some(n)
  {
    DigitRoundTrip(n, base);
    ValueSnoc([], DigitChar(n), base, 0, n);
    assert [] + [DigitChar(n)] == Render(n, base);
  }

  lemma MoreDigits(n: nat, base: nat)
    requires 2 <= base <= 16 && base <= n
    requires Value(Render(n / base, base), base) == Some(n / base)
    ensures Value(Render(n, base), base) == Some(n)
  {
    var high, low := n / base, n % base;
    DivStep(n, base);
    DigitRoundTrip(low, base);
    ValueSnoc(Render(high, base), DigitChar(low), base, high, low);
    assert Render(n, base) == Render(high, base) + [DigitChar(low)];
  }

  lemma DigitRoundTrip(d: nat, base: nat)
    requires d < base <= 16
    ensures DigitValue(DigitChar(d), base) == Some(d)
  {
  }

  /** One more digit at the end: the value so far times the base, plus the digit. */
  lemma ValueSnoc(t: string, c: char, base: nat, high: nat, low: nat)
    requires Value(t, base) == Some(high) && DigitValue(c, base) == Some(low)
    ensures Value(t + [c], base) == Some(high * base + low)
  {
    var u := t + [c];
    assert u[..|u| - 1] == t;
    assert u[|u| - 1] == c;
  }

  function Repeat(c: char, n: nat): (s: string)
    ensures |s| == n && forall i :: 0 <= i < n ==> s[i] == c
    ensures forall d :: d in s ==> d == c
  {
    if n == 0 then [] else [c] + Repeat(c, n - 1)
  }

  /** `{:<w}`: the text, then fill up to width `w`. */
  function PadRight(s: string, w: nat, fill: char): string
  {
    if |s| < w then s + Repeat(fill, w - |s|) else s
  }

  /** `{:w}` / `{:0w}` on a number: fill, then the text, up to width `w`. */
  function PadLeft(s: string, w: nat, fill: char): string
  {
    if |s| < w then Repeat(fill, w - |s|) + s else s
  }

  /** The last character of a nonempty digit string is its lowest digit. */
  lemma ValueLast(t: string, base: nat)
    requires t != []
    ensures Value(t, base) == Shift(Value(t[..|t| - 1], base), DigitValue(t[|t| - 1], base), base)
  {
  }

  lemma {:induction false} ZerosValue(k: nat, base: nat)
    requires 2 <= base
    ensures Value(Repeat('0', k), base) == Some(0)
  {
    if k > 0 {
      var z := Repeat('0', k);
      assert z[..k - 1] == Repeat('0', k - 1);
      ZerosValue(k - 1, base);
      ValueLast(z, base);
    }
  }

  lemma {:induction false} LeadingZeros(k: nat, s: string, base: nat)
    requires 2 <= base
    ensures Value(Repeat('0', k) + s, base) == Value(s, base)
    decreases |s|
  {
    if s == [] {
      assert Repeat('0', k) + s == Repeat('0', k);
      ZerosValue(k, base);
    } else {
      var t := Repeat('0', k) + s;
      assert t[..|t| - 1] == Repeat('0', k) + s[..|s| - 1];
      assert t[|t| - 1] == s[|s| - 1];
      LeadingZeros(k, s[..|s| - 1], base);
      ValueLast(t, base);
      ValueLast(s, base);
    }
  }

  /** Index of the first occurrence of `c`. */
  function IndexOf(s: string, c: char): (r: Option<nat>)
    ensures r.Some? ==> r.value < |s| && s[r.value] == c && c !in s[..r.value]
    ensures r.None? ==> c !in s
  {
    if s == [] then None
    else if s[0] == c then Some(0)
    else match IndexOf(s[1..], c)
      case Some(i) => assert s[..i + 1] == [s[0]] + s[1..][..i]; Some(i + 1)
      case None => None
  }

  lemma IndexOfAfter(p: string, c: char, rest: string)
    requires c !in p
    ensures IndexOf(p + [c] + rest, c) == Some(|p|)
  {
    var s := p + [c] + rest;
    assert s[|p|] == c;
    assert s[..|p|] == p;
  }

  function TrimRight(s: string, c: char): string
  {
    if s != [] && s[|s| - 1] == c then TrimRight(s[..|s| - 1], c) else s
  }

  function TrimLeft(s: string, c: char): string
  {
    if s != [] && s[0] == c then TrimLeft(s[1..], c) else s
  }

  lemma {:induction false} TrimRightPadding(s: string, c: char, k: nat)
    requires s != [] && s[|s| - 1] != c
    ensures TrimRight(s + Repeat(c, k), c) == s
  {
    if k > 0 {
      var t := s + Repeat(c, k);
      assert t[..|t| - 1] == s + Repeat(c, k - 1);
      TrimRightPadding(s, c, k - 1);
    } else {
      assert s + Repeat(c, 0) == s;
    }
  }

  lemma {:induction false} TrimLeftPadding(s: string, c: char, k: nat)
    requires s != [] && s[0] != c
    ensures TrimLeft(Repeat(c, k) + s, c) == s
  {
    if k > 0 {
      assert (Repeat(c, k) + s)[1..] == Repeat(c, k - 1) + s;
      TrimLeftPadding(s, c, k - 1);
    } else {
      assert Repeat(c, 0) + s == s;
    }
  }

  /**
   * One dump line: `id` left-aligned in 10 columns, a tab, then `0x` and the
   * offset in upper-case hex filled on the left to `hexWidth` with `fill`.
   */
  function DumpLine(id: nat, offset: nat, hexWidth: nat, fill: char): string
  {
    PadRight(Render(id, 10), 10, ' ') + "\t0x" + PadLeft(Render(offset, 16), hexWidth, fill) + "\n"
  }

  /** Reads back one line written by DumpLine (with either fill). */
  function ParseLine(line: string): Option<(nat, nat)>
  {
    if line == [] || line[|line| - 1] != '\n' then None
    else ParseBody(line[..|line| - 1])
  }

  /** The text before the newline: the id column, a tab, then the hex column. */
  function ParseBody(body: string): Option<(nat, nat)>
  {
    match IndexOf(body, '\t')
    case None => None
    case Some(t) => ParseColumns(body[..t], body[t + 1..])
  }

  /** The id column, and what follows the tab: `0x`, then the hex column. */
  function ParseColumns(idColumn: string, rest: string): Option<(nat, nat)>
  {
    if |rest| < 2 || rest[..2] != "0x" then None
    else ParseFields(TrimRight(idColumn, ' '), TrimLeft(rest[2..], ' '))
  }

  /** The two numbers, once the padding is stripped. */
  function ParseFields(idField: string, hexField: string): Option<(nat, nat)>
  {
    if idField == [] || hexField == [] then None
    else if Value(idField, 10).Some? && Value(hexField, 16).Some? then
      Some((Value(idField, 10).value, Value(hexField, 16).value))
    else None
  }

  /** Reads back a whole dump, one entry per newline-terminated line. */
  function ParseDump(text: string): Option<seq<(nat, nat)>>
    decreases |text|
  {
    if text == [] then Some([])
    else match IndexOf(text, '\n')
      case None => None
      case Some(k) => ConsEntry(ParseLine(text[..k + 1]), ParseDump(text[k + 1..]))
  }

  function ConsEntry(e: Option<(nat, nat)>, es: Option<seq<(nat, nat)>>): Option<seq<(nat, nat)>>
  {
    if e.Some? && es.Some? then Some([e.value] + es.value) else None
  }

  lemma DumpLineParts(id: nat, offset: nat, hexWidth: nat, fill: char)
    requires fill == '0' || fill == ' '
    ensures var idText := PadRight(Render(id, 10), 10, ' ');
            var body := idText + ['\t'] + ("0x" + PadLeft(Render(offset, 16), hexWidth, fill));
            && DumpLine(id, offset, hexWidth, fill) == body + ['\n']
            && '\t' !in idText && '\n' !in body
  {
    DumpLineSplit(id, offset, hexWidth, fill);
    PadClean(Render(id, 10), 10, ' ', '\t');
    PadClean(Render(id, 10), 10, ' ', '\n');
    PadClean(Render(offset, 16), hexWidth, fill, '\n');
    ColumnsClean(PadRight(Render(id, 10), 10, ' '), PadLeft(Render(offset, 16), hexWidth, fill));
  }

  /** A dump line is its body, then the newline. */
  lemma DumpLineSplit(id: nat, offset: nat, hexWidth: nat, fill: char)
    ensures DumpLine(id, offset, hexWidth, fill)
         == PadRight(Render(id, 10), 10, ' ') + ['\t'] + ("0x" + PadLeft(Render(offset, 16), hexWidth, fill)) + ['\n']
  {
    var idText := PadRight(Render(id, 10), 10, ' ');
    var hexText := PadLeft(Render(offset, 16), hexWidth, fill);
    assert "\t0x" == ['\t'] + "0x";
    assert idText + "\t0x" + hexText == idText + ['\t'] + ("0x" + hexText);
  }

  /** The body of a line holds no newline when its two columns hold none. */
  lemma ColumnsClean(idText: string, hexText: string)
    requires '\n' !in idText && '\n' !in hexText
    ensures '\n' !in idText + ['\t'] + ("0x" + hexText)
  {
    NoneIn4(idText, ['\t'], "0x", hexText, '\n');
    assert idText + ['\t'] + ("0x" + hexText) == idText + ['\t'] + "0x" + hexText;
  }

  /** Padding adds no character other than the fill. */
  lemma PadClean(s: string, w: nat, fill: char, c: char)
    requires c !in s && c != fill
    ensures c !in PadRight(s, w, fill) && c !in PadLeft(s, w, fill)
  {
    if |s| < w {
      assert c !in Repeat(fill, w - |s|);
    }
  }

  lemma NoneIn4(a: string, b: string, c: string, d: string, x: char)
    requires x !in a && x !in b && x !in c && x !in d
    ensures x !in a + b + c + d
  {
  }

  /** The id column reads back as the id. */
  lemma IdFieldRoundTrip(id: nat)
    ensures TrimRight(PadRight(Render(id, 10), 10, ' '), ' ') == Render(id, 10)
    ensures Value(Render(id, 10), 10) == Some(id)
  {
    var r := Render(id, 10);
    assert r[|r| - 1] in r;
    if |r| < 10 {
      TrimRightPadding(r, ' ', 10 - |r|);
    }
    RenderValue(id, 10);
  }

  /** The hex column reads back as the offset, whether filled with zeros or spaces. */
  lemma HexFieldRoundTrip(offset: nat, hexWidth: nat, fill: char)
    requires fill == '0' || fill == ' '
    ensures var field := TrimLeft(PadLeft(Render(offset, 16), hexWidth, fill), ' ');
            field != [] && Value(field, 16) == Some(offset)
  {
    var h := Render(offset, 16);
    RenderValue(offset, 16);
    assert h[0] in h;
    PaddedDigits(h, hexWidth, fill);
  }

  /** Stripping the spaces of a padded digit string keeps its value. */
  lemma PaddedDigits(h: string, w: nat, fill: char)
    requires fill == '0' || fill == ' '
    requires h != [] && h[0] != ' '
    ensures var field := TrimLeft(PadLeft(h, w, fill), ' ');
            field != [] && Value(field, 16) == Value(h, 16)
  {
    var padded := PadLeft(h, w, fill);
    if |h| >= w {
      assert padded == h;
      TrimLeftNone(h, ' ');
    } else if fill == ' ' {
      assert padded == Repeat(' ', w - |h|) + h;
      TrimLeftPadding(h, ' ', w - |h|);
    } else {
      assert padded == Repeat('0', w - |h|) + h;
      ZeroPadded(h, w - |h|);
    }
  }

  lemma TrimLeftNone(s: string, c: char)
    requires s != [] && s[0] != c
    ensures TrimLeft(s, c) == s
  {
  }

  lemma ZeroPadded(h: string, k: nat)
    requires h != [] && h[0] != ' '
    ensures var field := TrimLeft(Repeat('0', k) + h, ' ');
            field != [] && Value(field, 16) == Value(h, 16)
  {
    var z := Repeat('0', k) + h;
    assert z[0] == if k > 0 then '0' else h[0];
    TrimLeftNone(z, ' ');
    LeadingZeros(k, h, 16);
  }

  lemma DumpLineRoundTrip(id: nat, offset: nat, hexWidth: nat, fill: char)
    requires fill == '0' || fill == ' '
    ensures ParseLine(DumpLine(id, offset, hexWidth, fill)) == Some((id, offset))
  {
    var idText := PadRight(Render(id, 10), 10, ' ');
    var hexText := PadLeft(Render(offset, 16), hexWidth, fill);
    DumpLineParts(id, offset, hexWidth, fill);
    var body := idText + ['\t'] + ("0x" + hexText);
    LineBody(body);
    BodyColumns(idText, "0x" + hexText);
    ColumnsFields(idText, hexText);
    IdFieldRoundTrip(id);
    HexFieldRoundTrip(offset, hexWidth, fill);
  }

  lemma LineBody(body: string)
    ensures ParseLine(body + ['\n']) == ParseBody(body)
  {
    var line := body + ['\n'];
    assert line[..|line| - 1] == body;
  }

  lemma BodyColumns(idColumn: string, rest: string)
    requires '\t' !in idColumn
    ensures ParseBody(idColumn + ['\t'] + rest) == ParseColumns(idColumn, rest)
  {
    var body := idColumn + ['\t'] + rest;
    IndexOfAfter(idColumn, '\t', rest);
    assert body[..|idColumn|] == idColumn;
    assert body[|idColumn| + 1..] == rest;
  }

  lemma ColumnsFields(idColumn: string, hexColumn: string)
    ensures ParseColumns(idColumn, "0x" + hexColumn)
         == ParseFields(TrimRight(idColumn, ' '), TrimLeft(hexColumn, ' '))
  {
    var rest := "0x" + hexColumn;
    assert rest[..2] == "0x";
    assert rest[2..] == hexColumn;
  }

  /** Concatenation of the dump lines of `entries`, in order. */
  function DumpLines(entries: seq<(nat, nat)>, hexWidth: nat, fill: char): string
  {
    if entries == [] then []
    else DumpLine(entries[0].0, entries[0].1, hexWidth, fill) + DumpLines(entries[1..], hexWidth, fill)
  }

  lemma {:induction false} DumpLinesRoundTrip(entries: seq<(nat, nat)>, hexWidth: nat, fill: char)
    requires fill == '0' || fill == ' '
    ensures ParseDump(DumpLines(entries, hexWidth, fill)) == Some(entries)
  {
    if entries != [] {
      DumpLinesRoundTrip(entries[1..], hexWidth, fill);
      RoundTripStep(entries[0], entries[1..], hexWidth, fill);
      assert [entries[0]] + entries[1..] == entries;
    }
  }

  /** One more line in front of a dump that reads back. */
  lemma RoundTripStep(e: (nat, nat), rest: seq<(nat, nat)>, hexWidth: nat, fill: char)
    requires fill == '0' || fill == ' '
    requires ParseDump(DumpLines(rest, hexWidth, fill)) == Some(rest)
    ensures ParseDump(DumpLines([e] + rest, hexWidth, fill)) == Some([e] + rest)
  {
    LineReadsBack(e, hexWidth, fill);
    ParseDumpCons(DumpLine(e.0, e.1, hexWidth, fill), DumpLines(rest, hexWidth, fill), e, rest);
    assert ([e] + rest)[1..] == rest;
  }

  /** A dump line is one line, and it reads back as its entry. */
  lemma LineReadsBack(e: (nat, nat), hexWidth: nat, fill: char)
    requires fill == '0' || fill == ' '
    ensures OneLine(DumpLine(e.0, e.1, hexWidth, fill))
    ensures ParseLine(DumpLine(e.0, e.1, hexWidth, fill)) == Some(e)
  {
    DumpLineShape(e.0, e.1, hexWidth, fill);
    DumpLineRoundTrip(e.0, e.1, hexWidth, fill);
  }

  /** A dump line ends in its only newline. */
  predicate OneLine(line: string)
  {
    line != [] && line[|line| - 1] == '\n' && '\n' !in line[..|line| - 1]
  }

  lemma DumpLineShape(id: nat, offset: nat, hexWidth: nat, fill: char)
    requires fill == '0' || fill == ' '
    ensures OneLine(DumpLine(id, offset, hexWidth, fill))
  {
    DumpLineParts(id, offset, hexWidth, fill);
    var idText := PadRight(Render(id, 10), 10, ' ');
    var body := idText + ['\t'] + ("0x" + PadLeft(Render(offset, 16), hexWidth, fill));
    assert (body + ['\n'])[..|body|] == body;
  }

  /** A line that reads back, followed by a dump that reads back, reads back as one more entry. */
  lemma ParseDumpCons(line: string, tail: string, e: (nat, nat), es: seq<(nat, nat)>)
    requires OneLine(line)
    requires ParseLine(line) == Some(e) && ParseDump(tail) == Some(es)
    ensures ParseDump(line + tail) == Some([e] + es)
  {
    var k := |line| - 1;
    FirstNewline(line, tail);
    ParseDumpAt(line + tail, k);
  }

  lemma FirstNewline(line: string, tail: string)
    requires OneLine(line)
    ensures var text := line + tail;
            && IndexOf(text, '\n') == Some(|line| - 1)
            && text[..|line|] == line && text[|line|..] == tail
  {
    var pre := line[..|line| - 1];
    assert line + tail == pre + ['\n'] + tail;
    IndexOfAfter(pre, '\n', tail);
  }

  /** The unfolding of ParseDump at the first newline. */
  lemma ParseDumpAt(text: string, k: nat)
    requires IndexOf(text, '\n') == Some(k)
    ensures ParseDump(text) == ConsEntry(ParseLine(text[..k + 1]), ParseDump(text[k + 1..]))
  {
  }

  lemma DumpLinesAppend(entries: seq<(nat, nat)>, e: (nat, nat), hexWidth: nat, fill: char)
    ensures DumpLines(entries + [e], hexWidth, fill)
         == DumpLines(entries, hexWidth, fill) + DumpLine(e.0, e.1, hexWidth, fill)
  {
    if entries != [] {
      assert (entries + [e])[1..] == entries[1..] + [e];
      DumpLinesAppend(entries[1..], e, hexWidth, fill);
    } else {
      assert DumpLines([e], hexWidth, fill) == DumpLine(e.0, e.1, hexWidth, fill) + DumpLines([], hexWidth, fill);
    }
  }

  /** Dumping the first `i + 1` entries appends entry `i`'s line to the dump of the first `i`. */
  lemma DumpLinesPrefix(entries: seq<(nat, nat)>, i: nat, hexWidth: nat, fill: char)
    requires i < |entries|
    ensures DumpLines(entries[..i + 1], hexWidth, fill)
         == DumpLines(entries[..i], hexWidth, fill) + DumpLine(entries[i].0, entries[i].1, hexWidth, fill)
  {
    assert entries[..i + 1] == entries[..i] + [entries[i]];
    DumpLinesAppend(entries[..i], entries[i], hexWidth, fill);
  }
}
