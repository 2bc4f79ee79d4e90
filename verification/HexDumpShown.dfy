/** What a reader sees in the hex dump of a packet: every byte in its column, and every run that is left out. */
module HexDumpShown {
  import opened Bytes
  import opened HexDump

  // Numbers as a reader takes them.

  function DigitValue(c: char): int {
    if '0' <= c <= '9' then c as int - 0x30 else c as int - 0x61 + 10
  }

  function NumberIn(s: string, base: nat): int {
    if s == "" then 0 else NumberIn(s[..|s| - 1], base) * base + DigitValue(s[|s| - 1])
  }

  lemma DigitOfValue(v: nat)
    requires v < 16
    ensures DigitValue(HexDigit(v)) == v
  {
  }

  lemma {:induction false} NumberInHex(n: nat, k: nat)
    requires n < Pow16(k)
    ensures NumberIn(Hex(n, k), 16) == n
  {
    if k > 0 {
      var s := Hex(n, k);
      NumberInHex(n / 16, k - 1);
      DigitOfValue(n % 16);
      assert s[..|s| - 1] == Hex(n / 16, k - 1) && s[|s| - 1] == HexDigit(n % 16);
    }
  }

  /** No leading zeros either. */
  lemma {:induction false} NumberInDecimal(n: nat)
    ensures NumberIn(Decimal(n), 10) == n
    ensures Decimal(n)[0] == '0' ==> n == 0
  {
    var s := Decimal(n);
    assert DigitValue('0' + (n % 10) as char) == n % 10;
    if n < 10 {
      assert s[..|s| - 1] == "" && s[|s| - 1] == '0' + (n % 10) as char;
    } else {
      NumberInDecimal(n / 10);
      assert s[..|s| - 1] == Decimal(n / 10) && s[|s| - 1] == '0' + (n % 10) as char;
    }
  }

  // What stands where.

  /** The row of sixteen that byte p belongs to. */
  predicate HasOffset(line: string, p: nat) {
    |line| >= 12 && line[..2] == "  " && NumberIn(line[2..10], 16) == p - p % 16 && line[10..12] == "  "
  }

  predicate ShowsByte(line: string, p: nat, b: Byte) {
    var c := p % 16;
    && |line| > 61 + c && HasOffset(line, p)
    && NumberIn(line[12 + 3 * c..14 + 3 * c], 16) == b
    && line[61 + c] == (if 0x20 <= b <= 0x7E then b as char else '.')
  }

  predicate ShowsBlank(line: string, p: nat) {
    var c := p % 16;
    && |line| > 61 + c && HasOffset(line, p)
    && line[12 + 3 * c..14 + 3 * c] == "XX" && line[61 + c] == 'X'
  }

  function CountLine(n: nat): string {
    if n == 1 then "  (1 byte omitted)\r\n" else "  (" + Decimal(n) + " bytes omitted)\r\n"
  }

  lemma RowHasOffset(start: nat, cells: seq<Mark>)
    requires IsRow(start, cells) && cells != []
    ensures HasOffset(RowText(start, cells) + CRLF, start)
  {
    var s := RowText(start, cells);
    assert s[0] == ' ' && s[1] == ' ' && s[10] == ' ' && s[11] == ' ';
    hide RowText, RowChar, NumberIn, Hex, Pow16;
    OffsetColumns(start, cells);
    Pow16OfEight();
    NumberInHex(start - start % 16, 8);
    FrontColumns(s);
  }

  lemma FrontColumns(s: string)
    requires |s| >= 12 && s[0] == ' ' && s[1] == ' ' && s[10] == ' ' && s[11] == ' '
    ensures var t := s + CRLF;
            t[..2] == "  " && t[2..10] == s[2..10] && t[10..12] == "  "
  {
  }

  lemma NumberInTwo(s: string)
    requires |s| == 2
    ensures NumberIn(s, 16) == 16 * DigitValue(s[0]) + DigitValue(s[1])
  {
    var t := s[..1];
    assert t[..0] == "" && NumberIn(t, 16) == DigitValue(t[0]);
  }

  /** The columns of cell i: two in hex and one in ASCII. */
  lemma CellColumns(start: nat, cells: seq<Mark>, i: nat)
    requires IsRow(start, cells) && i < |cells|
    ensures var s, c := RowText(start, cells) + CRLF, start % 16 + i;
            |s| > 61 + c && s[12 + 3 * c..14 + 3 * c] == HexOf(cells[i]) && s[61 + c] == AsciiOf(cells[i])
  {
    var t, c := RowText(start, cells), start % 16 + i;
    assert c < 16 && |t| == 61 + start % 16 + |cells| && HEX_START == 12;
    hide *;
    HexColumns(start, cells, c);
    ColumnAt(start, cells, 12 + 3 * c);
    ColumnAt(start, cells, 13 + 3 * c);
    ColumnAt(start, cells, 61 + c);
    AsciiColumn(start, cells, i);
    TwoColumns(t, 12 + 3 * c);
  }

  lemma TwoColumns(t: string, j: nat)
    requires j + 2 <= |t|
    ensures (t + CRLF)[j..j + 2] == [t[j], t[j + 1]]
    ensures forall k :: 0 <= k < |t| ==> (t + CRLF)[k] == t[k]
  {
  }

  lemma ColumnAt(start: nat, cells: seq<Mark>, j: nat)
    requires IsRow(start, cells) && j < |RowText(start, cells)|
    ensures j < ROW_END && RowText(start, cells)[j] == RowChar(start, cells, j)
  {
    hide RowChar;
  }

  lemma AsciiColumn(start: nat, cells: seq<Mark>, i: nat)
    requires IsRow(start, cells) && i < |cells|
    ensures RowChar(start, cells, 61 + (start % 16 + i)) == AsciiOf(cells[i])
  {
    hide HexOf, AsciiOf, Hex;
  }

  lemma CellShown(m: Mark)
    requires m != Skipped
    ensures m.Shown? ==> NumberIn(HexOf(m), 16) == m.b && AsciiOf(m) == if 0x20 <= m.b <= 0x7E then m.b as char else '.'
    ensures m.Blanked? ==> HexOf(m) == "XX" && AsciiOf(m) == 'X'
  {
    if m.Shown? {
      var h := HexOf(m);
      NumberInTwo(h);
      DigitOfValue(m.b / 16);
      DigitOfValue(m.b % 16);
      hide NumberIn, DigitValue, HexDigit;
      assert h[0] == HexDigit(m.b / 16) && h[1] == HexDigit(m.b % 16);
      assert m.b == 16 * (m.b / 16) + m.b % 16;
    }
  }

  /** The row of a line shows its bytes. */
  lemma RowShows(start: nat, cells: seq<Mark>, p: nat)
    requires IsRow(start, cells) && start <= p < start + |cells|
    ensures var s, m := RowText(start, cells) + CRLF, cells[p - start];
            && (m.Shown? ==> ShowsByte(s, p, m.b))
            && (m.Blanked? ==> ShowsBlank(s, p))
  {
    var i := p - start;
    var s, m := RowText(start, cells) + CRLF, cells[i];
    assert m != Skipped;
    SameRow(start, |cells|, p);
    hide *;
    RowHasOffset(start, cells);
    CellColumns(start, cells, i);
    CellShown(m);
    CellSeen(s, start, p, m);
  }

  lemma SameRow(start: nat, n: nat, p: nat)
    requires start % 16 + n <= 16 && start <= p < start + n
    ensures p % 16 == start % 16 + (p - start) && p - p % 16 == start - start % 16
  {
    assert p == 16 * (start / 16) + (start % 16 + (p - start));
  }

  lemma CellSeen(s: string, start: nat, p: nat, m: Mark)
    requires HasOffset(s, start) && p - p % 16 == start - start % 16 && |s| > 61 + p % 16
    requires m != Skipped
    requires s[12 + 3 * (p % 16)..14 + 3 * (p % 16)] == HexOf(m) && s[61 + p % 16] == AsciiOf(m)
    requires m.Shown? ==> NumberIn(HexOf(m), 16) == m.b && AsciiOf(m) == if 0x20 <= m.b <= 0x7E then m.b as char else '.'
    requires m.Blanked? ==> HexOf(m) == "XX" && AsciiOf(m) == 'X'
    ensures m.Shown? ==> ShowsByte(s, p, m.b)
    ensures m.Blanked? ==> ShowsBlank(s, p)
  {
    hide NumberIn, HexOf, AsciiOf;
  }

  // Where a byte is found in the dump.

  ghost predicate HasByte(l: Line, ms: seq<Mark>, p: nat)
    requires p < |ms|
  {
    l.Row? && l.start <= p < l.start + |l.cells| && l.cells[p - l.start] == ms[p]
  }

  lemma FirstHasByte(ms: seq<Mark>, q: nat, e: nat, p: nat)
    requires q <= p < e <= |ms|
    ensures HasByte(Row(q, ms[q..e]), ms, p)
  {
  }

  lemma {:induction false} RowOf(ms: seq<Mark>, q: nat, p: nat) returns (i: nat)
    requires q <= p < |ms| <= TWO_32 && ms[p] != Skipped
    ensures i < |Lines(ms, q)| && HasByte(Lines(ms, q)[i], ms, p)
    decreases |ms| - q
  {
    hide *;
    var e := LinesStep(ms, q);
    if ms[q] != Skipped && p < e {
      i := 0;
      FirstHasByte(ms, q, e, p);
    } else {
      i := RowOf(ms, e, p);
      i := i + 1;
    }
  }

  /** The first line, and where the next one starts. */
  lemma LinesStep(ms: seq<Mark>, q: nat) returns (e: nat)
    requires q < |ms|
    ensures q < e <= |ms| && e == if ms[q] == Skipped then SkipEnd(ms, q) else RowEnd(ms, q + 1)
    ensures ms[q] == Skipped ==> forall p :: q <= p < e ==> ms[p] == Skipped
    ensures Lines(ms, q) == [if ms[q] == Skipped then Omitted(e - q) else Row(q, ms[q..e])] + Lines(ms, e)
  {
    e := if ms[q] == Skipped then SkipEnd(ms, q) else RowEnd(ms, q + 1);
  }

  lemma {:induction false} CountOf(ms: seq<Mark>, q: nat, a: nat, b: nat) returns (i: nat)
    requires q <= a < b <= |ms|
    requires forall p :: a <= p < b ==> ms[p] == Skipped
    requires a == q || ms[a - 1] != Skipped
    requires b == |ms| || ms[b] != Skipped
    ensures i < |Lines(ms, q)| && Lines(ms, q)[i] == Omitted(b - a)
    decreases |ms| - q
  {
    if q == a {
      assert SkipEnd(ms, q) == b;
      var e := LinesStep(ms, q);
      i := 0;
    } else {
      var e := LinesStep(ms, q);
      assert RowEndsAt(ms, a);
      hide Lines, SkipEnd, RowEnd;
      i := CountOf(ms, e, a, b);
      i := i + 1;
    }
  }

  /** The areas say what becomes of byte p; what no area holds is shown. */
  ghost predicate IsMode(areas: seq<Area>, p: nat, mode: LogMode) {
    || (exists i :: 0 <= i < |areas| && areas[i].offset <= p < areas[i].offset + areas[i].len && areas[i].mode == mode)
    || (mode == Emit && forall i :: 0 <= i < |areas| ==> !(areas[i].offset <= p < areas[i].offset + areas[i].len))
  }

  lemma ModeIs(areas: seq<Area>, p: nat, mode: LogMode)
    requires Sorted(areas)
    ensures IsMode(areas, p, mode) <==> ModeOf(areas, p) == mode
  {
    if i :| 0 <= i < |areas| && areas[i].offset <= p < areas[i].offset + areas[i].len {
      ModeOfArea(areas, p, i);
    } else {
      ModeOfNone(areas, p);
    }
  }

  lemma LineText(ms: seq<Mark>, i: nat)
    requires |ms| <= TWO_32 && i < |Lines(ms, 0)|
    ensures Printable(Lines(ms, 0)[i]) && |Dump(ms)| == |Lines(ms, 0)| && Dump(ms)[i] == Text(Lines(ms, 0)[i])
  {
    LinesPrintable(ms, 0);
  }

  /**
   * Each byte of the packet that is not left out is seen in the row of its offset: in hex and as a
   * character if it is to be shown, and as XX and X if it is to be blanked.
   */
  lemma ByteIsSeen(data: seq<Byte>, areas: seq<Area>, p: nat, mode: LogMode) returns (i: nat)
    requires |data| <= TWO_32 && Sorted(areas) && p < |data| && IsMode(areas, p, mode) && mode != Omit
    ensures i < |Dump(Marks(data, areas))|
    ensures var line := Dump(Marks(data, areas))[i];
            if mode == Emit then ShowsByte(line, p, data[p]) else ShowsBlank(line, p)
  {
    var ms := Marks(data, areas);
    ModeIs(areas, p, mode);
    assert ms[p] == if mode == Emit then Shown(data[p]) else Blanked;
    i := RowOf(ms, 0, p);
    var l := Lines(ms, 0)[i];
    assert HasByte(l, ms, p);
    LineText(ms, i);
    assert l.Row? && l.start <= p < l.start + |l.cells| && l.cells[p - l.start] == ms[p];
    assert IsRow(l.start, l.cells) && Text(l) == RowText(l.start, l.cells) + CRLF;
    hide *;
    RowShows(l.start, l.cells, p);
  }

  lemma OneInDecimal()
    ensures Decimal(1) == "1"
  {
  }

  lemma CountText(n: nat)
    ensures Text(Omitted(n)) == CountLine(n)
  {
    assert Text(Omitted(n)) == OmittedText(n) + CRLF;
    if n == 1 {
      OneInDecimal();
      OneText();
    } else {
      hide Decimal;
      ManyText(n);
    }
  }

  lemma OneText()
    requires Decimal(1) == "1"
    ensures OmittedText(1) + CRLF == CountLine(1)
  {
    hide Decimal;
    var s: string := "  (";
    assert OmittedText(1) == s + "1" + " byte" + " omitted)";
  }

  lemma ManyText(n: nat)
    requires n != 1
    ensures OmittedText(n) + CRLF == CountLine(n)
  {
    hide Decimal;
    var d, a, b, c, e: string := Decimal(n), "  (", " bytes", " omitted)", CRLF;
    assert b + c + e == " bytes omitted)\r\n";
    assert OmittedText(n) + e == a + d + (b + c + e);
  }

  lemma MarkSkipped(data: seq<Byte>, areas: seq<Area>, p: nat)
    requires Sorted(areas) && p < |data|
    ensures Marks(data, areas)[p] == Skipped <==> IsMode(areas, p, Omit)
  {
    ModeIs(areas, p, Omit);
    hide IsMode, ModeOf;
  }

  /** Each longest run of bytes that are left out is counted, on a line of its own. */
  lemma RunIsCounted(data: seq<Byte>, areas: seq<Area>, a: nat, b: nat) returns (i: nat)
    requires |data| <= TWO_32 && Sorted(areas) && a < b <= |data|
    requires forall p :: a <= p < b ==> IsMode(areas, p, Omit)
    requires a > 0 ==> !IsMode(areas, a - 1, Omit)
    requires b < |data| ==> !IsMode(areas, b, Omit)
    ensures i < |Dump(Marks(data, areas))| && Dump(Marks(data, areas))[i] == CountLine(b - a)
  {
    hide *;
    var ms := Marks(data, areas);
    forall p: nat | a <= p < b
      ensures ms[p] == Skipped
    {
      MarkSkipped(data, areas, p);
    }
    if a > 0 {
      MarkSkipped(data, areas, a - 1);
    }
    if b < |data| {
      MarkSkipped(data, areas, b);
    }
    i := CountOf(ms, 0, a, b);
    LineText(ms, i);
    CountText(b - a);
  }
}
