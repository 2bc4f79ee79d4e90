/** The hex dump of a packet in the session log, with parts blanked or left out. */
module HexDump {
  import opened Bytes

  // What to do with each byte of the packet.

  datatype LogMode = Emit | Blank | Omit

  datatype Area = Area(offset: nat, len: nat, mode: LogMode) {
    predicate Contains(p: nat) {
      offset <= p < offset + len
    }
  }

  /** The areas come in increasing order and do not overlap. */
  ghost predicate Sorted(areas: seq<Area>) {
    forall i, j :: 0 <= i < j < |areas| ==> areas[i].offset + areas[i].len <= areas[j].offset
  }

  /** The mode of the area a byte is in. */
  function ModeOf(areas: seq<Area>, p: nat): LogMode {
    if areas == [] then Emit
    else if areas[0].Contains(p) then areas[0].mode
    else ModeOf(areas[1..], p)
  }

  /** The one area that holds p, wherever it stands in the list. */
  lemma {:induction false} ModeOfArea(areas: seq<Area>, p: nat, i: nat)
    requires Sorted(areas) && i < |areas| && areas[i].Contains(p)
    ensures ModeOf(areas, p) == areas[i].mode
    decreases |areas|
  {
    if i > 0 {
      ModeOfArea(areas[1..], p, i - 1);
    }
  }

  lemma {:induction false} ModeOfNone(areas: seq<Area>, p: nat)
    requires forall i :: 0 <= i < |areas| ==> !areas[i].Contains(p)
    ensures ModeOf(areas, p) == Emit
    decreases |areas|
  {
    if areas != [] {
      ModeOfNone(areas[1..], p);
    }
  }

  /** A cursor that has just passed the areas that end by p finds the same mode. */
  lemma CursorFinds(areas: seq<Area>, p: nat, b: nat)
    requires Sorted(areas) && b <= |areas|
    requires forall i :: 0 <= i < b ==> areas[i].offset + areas[i].len <= p
    requires b < |areas| ==> p < areas[b].offset + areas[b].len
    ensures ModeOf(areas, p) == if b < |areas| && areas[b].Contains(p) then areas[b].mode else Emit
  {
    if b < |areas| && areas[b].Contains(p) {
      ModeOfArea(areas, p, b);
    } else {
      ModeOfNone(areas, p);
    }
  }

  /** How a byte appears. */
  datatype Mark = Shown(b: Byte) | Blanked | Skipped

  function Marks(data: seq<Byte>, areas: seq<Area>): (ms: seq<Mark>)
    ensures |ms| == |data|
  {
    seq(|data|, p requires 0 <= p < |data| =>
      match ModeOf(areas, p)
      case Emit => Shown(data[p])
      case Blank => Blanked
      case Omit => Skipped)
  }

  // The lines of the dump.

  /** Bytes of one row of sixteen, or a run of bytes left out. */
  datatype Line = Row(start: nat, cells: seq<Mark>) | Omitted(count: nat)

  function SkipEnd(ms: seq<Mark>, p: nat): (e: nat)
    requires p <= |ms|
    ensures p <= e <= |ms| && (e < |ms| ==> ms[e] != Skipped)
    ensures forall i :: p <= i < e ==> ms[i] == Skipped
    decreases |ms| - p
  {
    if p == |ms| || ms[p] != Skipped then p else SkipEnd(ms, p + 1)
  }

  /** Where a row ends that has got as far as p. */
  predicate RowEndsAt(ms: seq<Mark>, p: nat)
    requires p <= |ms|
  {
    p == |ms| || p % 16 == 0 || ms[p] == Skipped
  }

  function RowEnd(ms: seq<Mark>, p: nat): (e: nat)
    requires p <= |ms|
    ensures p <= e <= |ms| && RowEndsAt(ms, e)
    ensures forall i :: p <= i < e ==> !RowEndsAt(ms, i)
    decreases |ms| - p
  {
    if RowEndsAt(ms, p) then p else RowEnd(ms, p + 1)
  }

  /** The dump from p on: maximal runs that are left out, and rows as long as can be. */
  function Lines(ms: seq<Mark>, p: nat): seq<Line>
    requires p <= |ms|
    decreases |ms| - p
  {
    if p == |ms| then []
    else if ms[p] == Skipped then [Omitted(SkipEnd(ms, p) - p)] + Lines(ms, SkipEnd(ms, p))
    else [Row(p, ms[p..RowEnd(ms, p + 1)])] + Lines(ms, RowEnd(ms, p + 1))
  }

  /** What the lines say about the packet, byte by byte. */
  function Expand(ls: seq<Line>): seq<Mark> {
    if ls == [] then []
    else Said(ls[0]) + Expand(ls[1..])
  }

  /** Every byte appears exactly once, in its place: shown, blanked, or counted as left out. */
  lemma {:induction false} DumpIsFaithful(ms: seq<Mark>, p: nat)
    requires p <= |ms|
    ensures Expand(Lines(ms, p)) == ms[p..]
    decreases |ms| - p
  {
    if p == |ms| {
      assert ms[p..] == [];
    } else {
      var e := if ms[p] == Skipped then SkipEnd(ms, p) else RowEnd(ms, p + 1);
      var l := if ms[p] == Skipped then Omitted(e - p) else Row(p, ms[p..e]);
      hide *;
      FirstLine(ms, p, e);
      DumpIsFaithful(ms, e);
      CutAt(ms, p, e);
      ExpandStep(l, Lines(ms, e));
    }
  }

  lemma CutAt(ms: seq<Mark>, p: nat, e: nat)
    requires p <= e <= |ms|
    ensures ms[p..] == ms[p..e] + ms[e..]
  {
  }

  /** What one line says. */
  function Said(l: Line): seq<Mark> {
    if l.Row? then l.cells else Skips(l.count)
  }

  function Skips(n: nat): (ms: seq<Mark>)
    ensures |ms| == n && forall i :: 0 <= i < n ==> ms[i] == Skipped
  {
    seq(n, _ => Skipped)
  }

  lemma ExpandStep(l: Line, ls: seq<Line>)
    ensures Expand([l] + ls) == Said(l) + Expand(ls)
  {
    assert ([l] + ls)[1..] == ls;
  }

  lemma SkipsAre(ms: seq<Mark>, p: nat, e: nat)
    requires p <= e <= |ms| && forall i :: p <= i < e ==> ms[i] == Skipped
    ensures Skips(e - p) == ms[p..e]
  {
    hide Skips;
    var run := ms[p..e];
    forall i | 0 <= i < |run|
      ensures Skips(e - p)[i] == run[i]
    {
      assert run[i] == ms[p + i];
    }
  }

  lemma {:induction false} SkipLine(ms: seq<Mark>, p: nat)
    requires p < |ms| && ms[p] == Skipped
    ensures p < SkipEnd(ms, p)
    ensures Lines(ms, p) == [Omitted(SkipEnd(ms, p) - p)] + Lines(ms, SkipEnd(ms, p))
  {
    var e := SkipEnd(ms, p + 1);
    assert SkipEnd(ms, p) == e;
  }

  lemma RowLine(ms: seq<Mark>, p: nat)
    requires p < |ms| && ms[p] != Skipped
    ensures Lines(ms, p) == [Row(p, ms[p..RowEnd(ms, p + 1)])] + Lines(ms, RowEnd(ms, p + 1))
  {
    hide RowEnd, RowEndsAt;
  }

  lemma FirstLine(ms: seq<Mark>, p: nat, e: nat)
    requires p < |ms| && e == if ms[p] == Skipped then SkipEnd(ms, p) else RowEnd(ms, p + 1)
    ensures p < e
    ensures var l := if ms[p] == Skipped then Omitted(e - p) else Row(p, ms[p..e]);
            Lines(ms, p) == [l] + Lines(ms, e) && Said(l) == ms[p..e]
  {
    hide RowEnd, SkipEnd, Skips, RowEndsAt, Lines;
    if ms[p] == Skipped {
      SkipLine(ms, p);
      SkipsAre(ms, p, e);
    } else {
      RowLine(ms, p);
    }
  }

  /** A line that stands for bytes from p on: a piece of one row, or a number of bytes. */
  ghost predicate Fits(l: Line, p: nat) {
    if l.Omitted? then l.count > 0
    else
      && l.start == p && 0 < |l.cells| && p % 16 + |l.cells| <= 16
      && forall i :: 0 <= i < |l.cells| ==> l.cells[i] != Skipped
  }

  function Length(l: Line): nat {
    if l.Omitted? then l.count else |l.cells|
  }

  /** The lines fit one after the other from p on, and no two runs that are left out meet. */
  ghost predicate Placed(ls: seq<Line>, p: nat)
    decreases |ls|
  {
    ls == [] || (&& Fits(ls[0], p)
                 && (|ls| > 1 && ls[0].Omitted? ==> ls[1].Row?)
                 && (|ls| > 1 && ls[0].Row? && (p + Length(ls[0])) % 16 != 0 ==> ls[1].Omitted?)
                 && Placed(ls[1..], p + Length(ls[0])))
  }

  lemma RowStaysInRow(ms: seq<Mark>, p: nat)
    requires p < |ms| && ms[p] != Skipped
    ensures p % 16 + (RowEnd(ms, p + 1) - p) <= 16
    ensures forall i :: p <= i < RowEnd(ms, p + 1) ==> ms[i] != Skipped
  {
    var e := RowEnd(ms, p + 1);
    var next := p - p % 16 + 16;
    assert next <= |ms| ==> RowEndsAt(ms, next);
    forall i | p < i < e
      ensures ms[i] != Skipped
    {
      assert !RowEndsAt(ms, i);
    }
  }

  lemma {:induction false} DumpIsPlaced(ms: seq<Mark>, p: nat)
    requires p <= |ms|
    ensures Placed(Lines(ms, p), p)
    decreases |ms| - p
  {
    if p < |ms| {
      var e := if ms[p] == Skipped then SkipEnd(ms, p) else RowEnd(ms, p + 1);
      var l := if ms[p] == Skipped then Omitted(e - p) else Row(p, ms[p..e]);
      hide *;
      FirstLine(ms, p, e);
      DumpIsPlaced(ms, e);
      LineFits(ms, p, e);
      NextLine(ms, p, e);
      PlacedStep(l, Lines(ms, e), p, e);
    }
  }

  lemma LineFits(ms: seq<Mark>, p: nat, e: nat)
    requires p < e <= |ms| && e == if ms[p] == Skipped then SkipEnd(ms, p) else RowEnd(ms, p + 1)
    ensures var l := if ms[p] == Skipped then Omitted(e - p) else Row(p, ms[p..e]);
            Fits(l, p) && Length(l) == e - p
  {
    if ms[p] != Skipped {
      RowStaysInRow(ms, p);
      hide RowEnd;
    }
  }

  /** What kind of line the next one is. */
  lemma NextLine(ms: seq<Mark>, p: nat, e: nat)
    requires p < e <= |ms| && e == if ms[p] == Skipped then SkipEnd(ms, p) else RowEnd(ms, p + 1)
    ensures Lines(ms, e) != [] && ms[p] == Skipped ==> Lines(ms, e)[0].Row?
    ensures Lines(ms, e) != [] && ms[p] != Skipped && e % 16 != 0 ==> Lines(ms, e)[0].Omitted?
  {
    hide RowEnd, SkipEnd;
    assert ms[p] != Skipped ==> RowEndsAt(ms, e);
  }

  lemma PlacedStep(l: Line, ls: seq<Line>, p: nat, e: nat)
    requires Fits(l, p) && Length(l) == e - p && Placed(ls, e)
    requires ls != [] && l.Omitted? ==> ls[0].Row?
    requires ls != [] && l.Row? && e % 16 != 0 ==> ls[0].Omitted?
    ensures Placed([l] + ls, p)
  {
    assert ([l] + ls)[1..] == ls;
  }

  // The text of a line.

  function HexDigit(v: nat): (d: char)
    requires v < 16
    ensures '0' <= d <= '9' || 'a' <= d <= 'f'
  {
    if v < 10 then '0' + v as char else 'a' + (v - 10) as char
  }

  lemma HexDigitInjective(v: nat, w: nat)
    requires v < 16 && w < 16 && HexDigit(v) == HexDigit(w)
    ensures v == w
  {
  }

  function Pow16(k: nat): nat {
    if k == 0 then 1 else 16 * Pow16(k - 1)
  }

  /** %0kx, for a number of at most k digits. */
  function Hex(n: nat, k: nat): (s: string)
    ensures |s| == k && forall i :: 0 <= i < k ==> '0' <= s[i] <= '9' || 'a' <= s[i] <= 'f'
  {
    if k == 0 then [] else Hex(n / 16, k - 1) + [HexDigit(n % 16)]
  }

  lemma {:induction false} HexInjective(n: nat, m: nat, k: nat)
    requires n < Pow16(k) && m < Pow16(k) && Hex(n, k) == Hex(m, k)
    ensures n == m
  {
    if k > 0 {
      var s, t := Hex(n, k), Hex(m, k);
      assert s[..k - 1] == Hex(n / 16, k - 1) && t[..k - 1] == Hex(m / 16, k - 1);
      assert s[k - 1] == HexDigit(n % 16) && t[k - 1] == HexDigit(m % 16);
      HexInjective(n / 16, m / 16, k - 1);
      HexDigitInjective(n % 16, m % 16);
    }
  }

  /** %zu. */
  function Decimal(n: nat): (s: string)
    ensures |s| > 0 && forall i :: 0 <= i < |s| ==> '0' <= s[i] <= '9'
  {
    (if n < 10 then "" else Decimal(n / 10)) + ['0' + (n % 10) as char]
  }

  lemma {:induction false} DecimalInjective(n: nat, m: nat)
    requires Decimal(n) == Decimal(m)
    ensures n == m
  {
    var s, t := Decimal(n), Decimal(m);
    assert s[|s| - 1] == '0' + (n % 10) as char && t[|t| - 1] == '0' + (m % 10) as char;
    assert n % 10 == m % 10;
    if n >= 10 && m >= 10 {
      assert s[..|s| - 1] == Decimal(n / 10) && t[..|t| - 1] == Decimal(m / 10);
      DecimalInjective(n / 10, m / 10);
    }
  }

  const OFFSET_DIGITS := 8
  const HEX_START := 12
  const ASCII_START := 61
  const ROW_END := 77

  /** The two characters of a byte in the hex part. */
  function HexOf(m: Mark): (s: string)
    requires m != Skipped
    ensures |s| == 2 && s[0] != ' ' && s[1] != ' '
  {
    if m == Blanked then "XX" else [HexDigit(m.b / 16), HexDigit(m.b % 16)]
  }

  /** Its character in the ASCII part. */
  function AsciiOf(m: Mark): (c: char)
    requires m != Skipped
    ensures ' ' <= c <= '~'
  {
    if m == Blanked then 'X' else if 0x20 <= m.b < 0x7F then m.b as char else '.'
  }

  predicate IsRow(start: nat, cells: seq<Mark>) {
    start < TWO_32 && start % 16 + |cells| <= 16 && forall i :: 0 <= i < |cells| ==> cells[i] != Skipped
  }

  /** Column j of a row: the offset, three columns a byte in hex, and one a byte in ASCII. */
  function RowChar(start: nat, cells: seq<Mark>, j: nat): (c: char)
    requires IsRow(start, cells) && j < ROW_END
    ensures c != '\0'
  {
    var lo := start % 16;
    if 2 <= j < 10 then Hex(start - lo, OFFSET_DIGITS)[j - 2]
    else if HEX_START <= j < HEX_START + 48 && lo <= (j - HEX_START) / 3 < lo + |cells| && (j - HEX_START) % 3 < 2 then
      HexOf(cells[(j - HEX_START) / 3 - lo])[(j - HEX_START) % 3]
    else if ASCII_START <= j && lo <= j - ASCII_START < lo + |cells| then AsciiOf(cells[j - ASCII_START - lo])
    else ' '
  }

  /** The columns up to the last byte of the row. */
  function RowText(start: nat, cells: seq<Mark>): (s: string)
    requires IsRow(start, cells)
    ensures |s| == ASCII_START + start % 16 + |cells|
  {
    seq(ASCII_START + start % 16 + |cells|,
        j requires 0 <= j < ASCII_START + start % 16 + |cells| => RowChar(start, cells, j))
  }

  const CRLF := "\r\n"

  function OmittedText(n: nat): string {
    "  (" + Decimal(n) + (if n == 1 then " byte" else " bytes") + " omitted)"
  }

  predicate Printable(l: Line) {
    l.Row? ==> l.cells != [] && IsRow(l.start, l.cells)
  }

  function Text(l: Line): string
    requires Printable(l)
  {
    (if l.Row? then RowText(l.start, l.cells) else OmittedText(l.count)) + CRLF
  }

  function Texts(ls: seq<Line>): seq<string>
    requires forall i :: 0 <= i < |ls| ==> Printable(ls[i])
  {
    seq(|ls|, i requires 0 <= i < |ls| => Text(ls[i]))
  }

  // A dump can be read back.

  lemma MarkFromHex(m: Mark, n: Mark)
    requires m != Skipped && n != Skipped && HexOf(m) == HexOf(n)
    ensures m == n
  {
    assert HexOf(m)[0] == HexOf(n)[0] && HexOf(m)[1] == HexOf(n)[1];
    if m.Shown? && n.Shown? {
      HexDigitInjective(m.b / 16, n.b / 16);
      HexDigitInjective(m.b % 16, n.b % 16);
    }
  }

  /** The hex columns of byte i. */
  lemma HexColumns(start: nat, cells: seq<Mark>, c: nat)
    requires IsRow(start, cells) && c < 16
    ensures var a, b := RowChar(start, cells, HEX_START + 3 * c), RowChar(start, cells, HEX_START + 3 * c + 1);
            if start % 16 <= c < start % 16 + |cells| then [a, b] == HexOf(cells[c - start % 16])
            else a == ' ' && b == ' '
  {
    assert (3 * c) / 3 == c && (3 * c + 1) / 3 == c;
    if start % 16 <= c < start % 16 + |cells| {
      var h := HexOf(cells[c - start % 16]);
      assert h == [h[0], h[1]];
    }
  }

  lemma OffsetColumns(start: nat, cells: seq<Mark>)
    requires IsRow(start, cells)
    ensures RowText(start, cells)[2..10] == Hex(start - start % 16, OFFSET_DIGITS)
  {
  }

  lemma Pow16OfEight()
    ensures Pow16(OFFSET_DIGITS) == TWO_32
  {
  }

  lemma SameOffset(s: nat, a: seq<Mark>, t: nat, b: seq<Mark>)
    requires IsRow(s, a) && IsRow(t, b) && RowText(s, a) == RowText(t, b)
    ensures s - s % 16 == t - t % 16
  {
    Pow16OfEight();
    hide RowText, Hex, Pow16;
    OffsetColumns(s, a);
    OffsetColumns(t, b);
    HexInjective(s - s % 16, t - t % 16, OFFSET_DIGITS);
  }

  /** The text of a row determines the row. */
  lemma RowTextInjective(s: nat, a: seq<Mark>, t: nat, b: seq<Mark>)
    requires IsRow(s, a) && IsRow(t, b) && a != [] && b != [] && RowText(s, a) == RowText(t, b)
    ensures s == t && a == b
  {
    var lo, hi := s % 16, t % 16;
    SameOffset(s, a, t, b);
    assert |RowText(s, a)| == |RowText(t, b)|;
    hide RowChar, RowText, HexOf, Hex;
    SameColumns(s, a, t, b, lo);
    SameColumns(s, a, t, b, hi);
    assert lo == hi && |a| == |b|;
    forall i | 0 <= i < |a|
      ensures a[i] == b[i]
    {
      SameColumns(s, a, t, b, lo + i);
      MarkFromHex(a[i], b[i]);
    }
  }

  /** Equal rows have the same byte, or none, in every column. */
  lemma SameColumns(s: nat, a: seq<Mark>, t: nat, b: seq<Mark>, c: nat)
    requires IsRow(s, a) && IsRow(t, b) && RowText(s, a) == RowText(t, b) && c < 16
    ensures s % 16 <= c < s % 16 + |a| <==> t % 16 <= c < t % 16 + |b|
    ensures s % 16 <= c < s % 16 + |a| ==> HexOf(a[c - s % 16]) == HexOf(b[c - t % 16])
  {
    var j := HEX_START + 3 * c;
    assert RowText(s, a)[j] == RowChar(s, a, j) && RowText(s, a)[j + 1] == RowChar(s, a, j + 1);
    assert RowText(t, b)[j] == RowChar(t, b, j) && RowText(t, b)[j + 1] == RowChar(t, b, j + 1);
    hide RowChar, RowText, HexOf;
    HexColumns(s, a, c);
    HexColumns(t, b, c);
  }

  /** The count ends at the first blank after it. */
  lemma CountColumns(n: nat)
    ensures var d, s := Decimal(n), OmittedText(n);
            && |s| > 3 + |d| && s[3 + |d|] == ' ' && s[3..3 + |d|] == d
            && forall i :: 3 <= i < 3 + |d| ==> s[i] != ' '
  {
    var d, s := Decimal(n), OmittedText(n);
    forall i | 3 <= i < 3 + |d|
      ensures s[i] == d[i - 3]
    {
    }
  }

  lemma OmittedTextInjective(n: nat, m: nat)
    requires OmittedText(n) == OmittedText(m)
    ensures n == m
  {
    hide OmittedText;
    CountColumns(n);
    CountColumns(m);
    assert |Decimal(n)| == |Decimal(m)|;
    DecimalInjective(n, m);
  }

  lemma ThirdColumn(l: Line)
    requires Printable(l)
    ensures |Text(l)| > 2 && (Text(l)[2] == '(' <==> l.Omitted?)
  {
    if l.Row? {
      assert Text(l)[2] == Hex(l.start - l.start % 16, OFFSET_DIGITS)[0];
    }
  }

  lemma TextInjective(l: Line, m: Line)
    requires Printable(l) && Printable(m) && Text(l) == Text(m)
    ensures l == m
  {
    var s, t := Text(l), Text(m);
    ThirdColumn(l);
    ThirdColumn(m);
    if l.Row? {
      assert s[..|s| - 2] == RowText(l.start, l.cells) && t[..|t| - 2] == RowText(m.start, m.cells);
      RowTextInjective(l.start, l.cells, m.start, m.cells);
    } else {
      assert s[..|s| - 2] == OmittedText(l.count) && t[..|t| - 2] == OmittedText(m.count);
      OmittedTextInjective(l.count, m.count);
    }
  }

  lemma {:induction false} LinesPrintable(ms: seq<Mark>, p: nat)
    requires p <= |ms| <= TWO_32
    ensures forall i :: 0 <= i < |Lines(ms, p)| ==> Printable(Lines(ms, p)[i])
    decreases |ms| - p
  {
    if p < |ms| {
      if ms[p] == Skipped {
        LinesPrintable(ms, SkipEnd(ms, p));
      } else {
        RowStaysInRow(ms, p);
        LinesPrintable(ms, RowEnd(ms, p + 1));
      }
    }
  }

  /** The text that is logged for a packet. */
  function Dump(ms: seq<Mark>): seq<string>
    requires |ms| <= TWO_32
  {
    LinesPrintable(ms, 0);
    Texts(Lines(ms, 0))
  }

  /** The dump tells what the packet was, down to every byte that is not blanked or left out. */
  lemma DumpDetermines(ms: seq<Mark>, ns: seq<Mark>)
    requires |ms| <= TWO_32 && |ns| <= TWO_32 && Dump(ms) == Dump(ns)
    ensures ms == ns
  {
    LinesPrintable(ms, 0);
    LinesPrintable(ns, 0);
    var a, b := Lines(ms, 0), Lines(ns, 0);
    assert |a| == |Dump(ms)| == |Dump(ns)| == |b|;
    forall i | 0 <= i < |a|
      ensures a[i] == b[i]
    {
      assert Dump(ms)[i] == Text(a[i]) && Dump(ns)[i] == Text(b[i]);
      TextInjective(a[i], b[i]);
    }
    assert a == b;
    DumpIsFaithful(ms, 0);
    DumpIsFaithful(ns, 0);
    assert ms[0..] == ms && ns[0..] == ns;
  }

  /** Packets whose dumps are the same agree on every byte that is shown, and on where the others are. */
  lemma SameDumpSamePacket(data: seq<Byte>, areas: seq<Area>, data': seq<Byte>, areas': seq<Area>, p: nat)
    requires |data| <= TWO_32 && |data'| <= TWO_32 && Dump(Marks(data, areas)) == Dump(Marks(data', areas'))
    ensures |data| == |data'|
    ensures p < |data| ==> ModeOf(areas, p) == ModeOf(areas', p)
    ensures p < |data| && ModeOf(areas, p) == Emit ==> data[p] == data'[p]
  {
    DumpDetermines(Marks(data, areas), Marks(data', areas'));
    assert p < |data| ==> Marks(data, areas)[p] == Marks(data', areas')[p];
  }

  // The loop of log_packet, with its row buffer.

  const DUMPDATA_SIZE := 128

  /** strcpy, or sprintf of a string, to some place in a buffer. */
  method StrCpy(d: array<char>, at: nat, s: string)
    requires at + |s| < d.Length
    modifies d
    ensures forall j :: 0 <= j < at || at + |s| < j < d.Length ==> d[j] == old(d[j])
    ensures forall j :: at <= j < at + |s| ==> d[j] == s[j - at]
    ensures d[at + |s|] == '\0'
  {
    var i := 0;
    while i < |s|
      invariant 0 <= i <= |s|
      invariant forall j :: 0 <= j < at || at + i <= j < d.Length ==> d[j] == old(d[j])
      invariant forall j :: at <= j < at + i ==> d[j] == s[j - at]
    {
      d[at + i] := s[i];
      i := i + 1;
    }
    d[at + |s|] := '\0';
  }

  /** ptrlen_from_asciz: the characters before the first NUL. */
  method FromAsciz(d: array<char>, ghost len: nat) returns (s: string)
    requires len < d.Length && d[len] == '\0' && forall j :: 0 <= j < len ==> d[j] != '\0'
    ensures s == d[..len]
  {
    var i := 0;
    while d[i] != '\0'
      invariant 0 <= i <= len
      decreases len - i
    {
      i := i + 1;
    }
    s := d[..i];
  }

  /** The buffer holds the row so far. */
  ghost predicate HasRow(d: array<char>, start: nat, cells: seq<Mark>)
    requires IsRow(start, cells)
    reads d
  {
    d.Length == DUMPDATA_SIZE && forall j :: 0 <= j < ROW_END ==> d[j] == RowChar(start, cells, j)
  }

  function Spaces(n: nat): (s: string)
    ensures |s| == n && forall i :: 0 <= i < n ==> s[i] == ' '
  {
    seq(n, _ => ' ')
  }

  method InitRow(d: array<char>, p: nat)
    requires d.Length == DUMPDATA_SIZE && p < TWO_32
    modifies d
    ensures IsRow(p, []) && HasRow(d, p, [])
  {
    var s := "  " + Hex(p - p % 16, OFFSET_DIGITS) + Spaces(1 + 3 * 16 + 2 + 16) + CRLF;
    StrCpy(d, 0, s);
    forall j | 0 <= j < ROW_END
      ensures s[j] == RowChar(p, [], j)
    {
    }
  }

  /** Puts byte p into its columns. */
  method PutCell(d: array<char>, p: nat, m: Mark, ghost start: nat, ghost cells: seq<Mark>)
    requires IsRow(start, cells) && HasRow(d, start, cells) && p == start + |cells|
    requires start % 16 + |cells| < 16 && m != Skipped
    modifies d
    ensures IsRow(start, cells + [m]) && HasRow(d, start, cells + [m])
  {
    ghost var lo := start % 16;
    assert p % 16 == lo + |cells|;
    var smalldata := HexOf(m);
    d[10 + 2 + 3 * (p % 16)] := smalldata[0];
    d[10 + 2 + 3 * (p % 16) + 1] := smalldata[1];
    d[10 + 1 + 3 * 16 + 2 + (p % 16)] := AsciiOf(m);
    forall j | 0 <= j < ROW_END
      ensures d[j] == RowChar(start, cells + [m], j)
    {
      RowCharGrows(start, cells, m, j);
    }
  }

  /** One more byte changes its own three columns only. */
  lemma RowCharGrows(start: nat, cells: seq<Mark>, m: Mark, j: nat)
    requires IsRow(start, cells) && start % 16 + |cells| < 16 && m != Skipped && j < ROW_END
    ensures IsRow(start, cells + [m])
    ensures var c := start % 16 + |cells|;
            RowChar(start, cells + [m], j)
            == if j == HEX_START + 3 * c then HexOf(m)[0]
               else if j == HEX_START + 3 * c + 1 then HexOf(m)[1]
               else if j == ASCII_START + c then AsciiOf(m)
               else RowChar(start, cells, j)
  {
    hide Hex, HexOf, AsciiOf;
    var more := cells + [m];
    assert forall i :: 0 <= i < |cells| ==> more[i] == cells[i];
  }

  /** Ends the row and hands it on. */
  method EndRow(d: array<char>, outputPos: nat, ghost start: nat, ghost cells: seq<Mark>) returns (s: string)
    requires IsRow(start, cells) && cells != [] && HasRow(d, start, cells) && outputPos == start % 16 + |cells|
    modifies d
    ensures s == Text(Row(start, cells))
  {
    ghost var row := RowText(start, cells);
    hide RowChar;
    assert forall j :: 0 <= j < |row| ==> row[j] == RowChar(start, cells, j) != '\0';
    hide RowText;
    StrCpy(d, 10 + 1 + 3 * 16 + 2 + outputPos, CRLF);
    assert forall j :: 0 <= j < |row| + 2 ==> d[j] == (row + CRLF)[j] != '\0';
    s := FromAsciz(d, |row| + 2);
    assert s == row + CRLF;
  }

  // Lines done so far, and the bytes since then.

  ghost predicate AllPrintable(ls: seq<Line>) {
    forall i :: 0 <= i < |ls| ==> Printable(ls[i])
  }

  lemma TextsSnoc(ls: seq<Line>, l: Line)
    requires AllPrintable(ls) && Printable(l)
    ensures AllPrintable(ls + [l]) && Texts(ls + [l]) == Texts(ls) + [Text(l)]
  {
  }

  /** The bytes from s to p belong to one line, which goes on at least to p. */
  ghost predicate PendingRow(ms: seq<Mark>, s: nat, p: nat) {
    && s < p <= |ms| && ms[s] != Skipped
    && forall i :: s < i < p ==> !RowEndsAt(ms, i)
  }

  ghost predicate PendingSkip(ms: seq<Mark>, s: nat, p: nat) {
    s < p <= |ms| && forall i :: s <= i < p ==> ms[i] == Skipped
  }

  lemma RowDone(ms: seq<Mark>, s: nat, p: nat)
    requires |ms| <= TWO_32 && PendingRow(ms, s, p) && RowEndsAt(ms, p)
    ensures Lines(ms, s) == [Row(s, ms[s..p])] + Lines(ms, p) && Printable(Row(s, ms[s..p]))
  {
    var e := RowEnd(ms, s + 1);
    assert e <= p;
    assert RowEndsAt(ms, e);
    assert e == p;
    RowStaysInRow(ms, s);
  }

  lemma SkipDone(ms: seq<Mark>, s: nat, p: nat)
    requires PendingSkip(ms, s, p) && (p < |ms| ==> ms[p] != Skipped)
    ensures Lines(ms, s) == [Omitted(p - s)] + Lines(ms, p)
  {
    var e := SkipEnd(ms, s);
    assert e == p;
  }

  lemma PendingRowFits(ms: seq<Mark>, s: nat, p: nat)
    requires |ms| <= TWO_32 && PendingRow(ms, s, p)
    ensures IsRow(s, ms[s..p])
  {
    RowStaysInRow(ms, s);
    var e := RowEnd(ms, s + 1);
    assert RowEndsAt(ms, e);
    assert p <= e;
  }

  /** What has been written, and what the buffer and the count of omitted bytes stand for. */
  ghost predicate SoFar(ms: seq<Mark>, out: seq<string>, done: seq<Line>, s: nat, p: nat, omitted: nat, outputPos: nat) {
    && s <= p <= |ms| <= TWO_32
    && AllPrintable(done) && out == Texts(done) && done + Lines(ms, s) == Lines(ms, 0)
    && (omitted == 0 && outputPos == 0 ==> s == p)
    && (omitted > 0 ==> outputPos == 0 && PendingSkip(ms, s, p) && omitted == p - s)
    && (outputPos > 0 ==> PendingRow(ms, s, p) && outputPos == s % 16 + (p - s))
  }

  ghost predicate Buffered(d: array<char>, ms: seq<Mark>, s: nat, p: nat)
    reads d
  {
    s <= p <= |ms| && IsRow(s, ms[s..p]) && HasRow(d, s, ms[s..p])
  }

  lemma LineDone(ms: seq<Mark>, done: seq<Line>, l: Line, s: nat, p: nat)
    requires s <= p <= |ms| && AllPrintable(done) && Printable(l) && done + Lines(ms, s) == Lines(ms, 0)
    requires Lines(ms, s) == [l] + Lines(ms, p)
    ensures AllPrintable(done + [l]) && Texts(done + [l]) == Texts(done) + [Text(l)]
    ensures (done + [l]) + Lines(ms, p) == Lines(ms, 0)
  {
    TextsSnoc(done, l);
    Assoc(done, [l], Lines(ms, p));
  }

  /** The cursor has left behind areas that end by p only. */
  ghost predicate Passed(areas: seq<Area>, p: nat, b: nat) {
    b <= |areas| && forall i :: 0 <= i < b ==> areas[i].offset + areas[i].len <= p
  }

  /** The mode of byte p, found by moving the cursor b on. */
  method Advance(areas: seq<Area>, p: nat, b: nat) returns (b': nat, blktype: LogMode)
    requires Sorted(areas) && Passed(areas, p, b)
    ensures Passed(areas, p + 1, b')
    ensures blktype == ModeOf(areas, p)
  {
    b' := b;
    while b' < |areas| && p >= areas[b'].offset + areas[b'].len
      invariant Passed(areas, p, b')
    {
      b' := b' + 1;
    }
    CursorFinds(areas, p, b');
    blktype := Emit;
    if b' < |areas| && p >= areas[b'].offset && p < areas[b'].offset + areas[b'].len {
      blktype := areas[b'].mode;
    }
  }

  /** About to stop omitting: it is time to say how much was omitted. */
  method EndOmission(ghost ms: seq<Mark>, out: seq<string>, ghost done: seq<Line>, ghost s: nat, ghost p: nat, omitted: nat)
    returns (out': seq<string>, ghost done': seq<Line>)
    requires SoFar(ms, out, done, s, p, omitted, 0) && omitted > 0 && (p < |ms| ==> ms[p] != Skipped)
    ensures SoFar(ms, out', done', p, p, 0, 0)
    ensures out' == out + [Text(Omitted(omitted))]
  {
    hide Lines, Texts, AllPrintable;
    SkipDone(ms, s, p);
    LineDone(ms, done, Omitted(omitted), s, p);
    out' := out + [OmittedText(omitted) + CRLF];
    done' := done + [Omitted(omitted)];
  }

  /** The row that was pending up to e is written. */
  method FlushRow(d: array<char>, ghost ms: seq<Mark>, out: seq<string>, ghost done: seq<Line>, ghost s: nat, ghost e: nat,
                  outputPos: nat)
    returns (out': seq<string>, ghost done': seq<Line>)
    requires SoFar(ms, out, done, s, e, 0, outputPos) && outputPos > 0 && RowEndsAt(ms, e) && Buffered(d, ms, s, e)
    modifies d
    ensures SoFar(ms, out', done', e, e, 0, 0)
  {
    hide Lines, Texts, AllPrintable, HasRow, IsRow, Text;
    RowDone(ms, s, e);
    ghost var l := Row(s, ms[s..e]);
    LineDone(ms, done, l, s, e);
    var text := EndRow(d, outputPos, s, ms[s..e]);
    out' := out + [text];
    done' := done + [l];
  }

  /** One byte is put into the row. */
  method AddToRow(d: array<char>, ghost ms: seq<Mark>, ghost out: seq<string>, ghost done: seq<Line>, ghost s: nat, p: nat,
                  m: Mark, ghost outputPos: nat)
    requires SoFar(ms, out, done, s, p, 0, outputPos) && Buffered(d, ms, s, p)
    requires p < |ms| && m == ms[p] != Skipped && (outputPos > 0 ==> p % 16 != 0)
    modifies d
    ensures SoFar(ms, out, done, s, p + 1, 0, p % 16 + 1) && Buffered(d, ms, s, p + 1)
  {
    hide Lines, Texts, AllPrintable;
    assert PendingRow(ms, s, p + 1);
    PendingRowFits(ms, s, p + 1);
    assert ms[s..p] + [m] == ms[s..p + 1];
    assert |ms[s..p]| == p - s && |ms[s..p + 1]| == p + 1 - s;
    hide HasRow, PendingRow;
    PutCell(d, p, m, s, ms[s..p]);
  }

  lemma SkipOne(ms: seq<Mark>, out: seq<string>, done: seq<Line>, s: nat, p: nat, omitted: nat)
    requires SoFar(ms, out, done, s, p, omitted, 0) && p < |ms| && ms[p] == Skipped
    ensures SoFar(ms, out, done, s, p + 1, omitted + 1, 0)
  {
    hide Lines, Texts, AllPrintable;
  }

  lemma NothingYet(ms: seq<Mark>)
    requires |ms| <= TWO_32
    ensures SoFar(ms, [], [], 0, 0, 0, 0)
  {
    assert [] + Lines(ms, 0) == Lines(ms, 0);
  }

  lemma AllDone(ms: seq<Mark>, out: seq<string>, done: seq<Line>, s: nat)
    requires SoFar(ms, out, done, s, |ms|, 0, 0)
    ensures out == Dump(ms)
  {
    EndOfLines(ms, done, s);
  }

  /** Deals with the current byte, and flushes the row if necessary. */
  method TakeByte(d: array<char>, ghost ms: seq<Mark>, out: seq<string>, ghost done: seq<Line>, ghost s: nat,
                  data: seq<Byte>, p: nat, blktype: LogMode, omitted: nat, outputPos: nat)
    returns (out': seq<string>, ghost done': seq<Line>, ghost s': nat, omitted': nat, outputPos': nat)
    requires |ms| == |data| && p < |data| && SoFar(ms, out, done, s, p, omitted, outputPos)
    requires ms[p] == (if blktype == Omit then Skipped else if blktype == Blank then Blanked else Shown(data[p]))
    requires omitted == 0 || (outputPos == 0 && blktype == Omit)
    requires omitted == 0 ==> Buffered(d, ms, s, p)
    requires outputPos > 0 ==> p % 16 != 0
    modifies d
    ensures SoFar(ms, out', done', s', p + 1, omitted', outputPos') && (omitted' == 0 || outputPos' == 0)
    ensures outputPos' > 0 ==> p + 1 < |data| && (p + 1) % 16 != 0 && Buffered(d, ms, s', p + 1)
  {
    hide SoFar, Buffered, RowEndsAt;
    out', done', s', omitted', outputPos' := out, done, s, omitted, outputPos;
    ghost var e := p;
    if blktype == Omit {
      omitted' := omitted' + 1;
    } else {
      AddToRow(d, ms, out, done, s, p, if blktype == Blank then Blanked else Shown(data[p]), outputPos);
      outputPos' := (p % 16) + 1;
      e := p + 1;
    }
    if (p + 1) % 16 == 0 || p + 1 == |data| || omitted' > 0 {
      if outputPos' > 0 {
        RowMayEnd(ms, e);
        out', done' := FlushRow(d, ms, out, done, s, e, outputPos');
        s' := e;
        outputPos' := 0;
      }
    }
    if blktype == Omit {
      SkipOne(ms, out', done', s', e, omitted);
    }
  }

  lemma MarkAt(data: seq<Byte>, areas: seq<Area>, p: nat)
    requires p < |data|
    ensures Marks(data, areas)[p] == match ModeOf(areas, p)
                                     case Emit => Shown(data[p])
                                     case Blank => Blanked
                                     case Omit => Skipped
  {
  }

  /** The dump of a packet body: each byte is looked at once, and the lines come out as specified. */
  method LogPacket(data: seq<Byte>, areas: seq<Area>) returns (out: seq<string>)
    requires Sorted(areas) && |data| <= TWO_32
    ensures out == Dump(Marks(data, areas))
  {
    ghost var ms := Marks(data, areas);
    ghost var done: seq<Line> := [];
    ghost var s: nat := 0;
    var dumpdata := new char[DUMPDATA_SIZE](_ => '\0');
    var p: nat, b: nat, omitted: nat, outputPos: nat := 0, 0, 0, 0;
    out := [];
    NothingYet(ms);
    hide SoFar, Buffered, Sorted, Dump, Passed, HasRow, Marks, ModeOf;
    while p < |data|
      invariant 0 <= p <= |data| && Passed(areas, p, b)
      invariant SoFar(ms, out, done, s, p, omitted, outputPos) && (omitted == 0 || outputPos == 0)
      invariant outputPos > 0 ==> p % 16 != 0 && Buffered(dumpdata, ms, s, p)
      invariant outputPos > 0 ==> p < |data|
    {
      var blktype;
      b, blktype := Advance(areas, p, b);
      MarkAt(data, areas, p);
      if blktype != Omit && omitted > 0 {
        out, done := EndOmission(ms, out, done, s, p, omitted);
        s := p;
        omitted := 0;
      }
      if outputPos == 0 && omitted == 0 {
        InitRow(dumpdata, p);
        EmptyRow(dumpdata, ms, out, done, s, p);
      }
      out, done, s, omitted, outputPos :=
        TakeByte(dumpdata, ms, out, done, s, data, p, blktype, omitted, outputPos);
      p := p + 1;
    }
    if omitted > 0 {
      out, done := EndOmission(ms, out, done, s, p, omitted);
      s := p;
    }
    AllDone(ms, out, done, s);
  }

  lemma RowMayEnd(ms: seq<Mark>, e: nat)
    requires e <= |ms| && (e == |ms| || e % 16 == 0 || ms[e] == Skipped)
    ensures RowEndsAt(ms, e)
  {
  }

  lemma EmptyRow(d: array<char>, ms: seq<Mark>, out: seq<string>, done: seq<Line>, s: nat, p: nat)
    requires SoFar(ms, out, done, s, p, 0, 0) && IsRow(p, []) && HasRow(d, p, [])
    ensures s == p && Buffered(d, ms, s, p)
  {
    assert ms[p..p] == [];
  }

  lemma EndOfLines(ms: seq<Mark>, done: seq<Line>, s: nat)
    requires s == |ms| && done + Lines(ms, s) == Lines(ms, 0)
    ensures done == Lines(ms, 0)
  {
    assert done + [] == done;
  }
}
