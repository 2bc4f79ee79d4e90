/** The line discipline's local editor: a line buffer and the screen row that echoes it. */
module LineEditor {
  import opened Bytes
  import opened InputQueue

  datatype Protocol = RawProtocol | Telnet | OtherProtocol

  datatype Config = Config(utf: bool, echo: bool, protocol: Protocol, telnetKeyboard: bool, telnetNewline: bool)

  // The session specials the editor sends.
  const SS_EOF := 1
  const SS_EL := 7
  const SS_ABORT := 9
  const SS_IP := 11
  const SS_SUSP := 12
  const SS_EOL := 14

  // The keys it acts on; those from 0x100 up come from special key strings.
  const CTRL_C := 0x03
  const CTRL_D := 0x04
  const CTRL_J := 0x0A
  const CTRL_R := 0x12
  const CTRL_U := 0x15
  const CTRL_V := 0x16
  const CTRL_W := 0x17
  const CTRL_Z := 0x1A
  const CTRL_BACKSLASH := 0x1C
  const KEY_BACKSPACE := 0x108
  const KEY_ENTER := 0x10D
  const KEY_DELETE := 0x17F

  /** A UTF-8 continuation byte, in UTF-8 mode. */
  predicate IsFollow(utf: bool, c: Byte) {
    utf && 0x80 <= c < 0xC0
  }

  /** char_start. */
  predicate CharStart(utf: bool, c: Byte) {
    if utf then c < 0x80 || c >= 0xC0 else true
  }

  /** plen: the cells a byte of the buffer takes up. */
  function Plen(utf: bool, c: Byte): nat {
    if 32 <= c <= 126 || (c >= 160 && !utf) then 1
    else if c < 128 then 2
    else if utf && c >= 0xC0 then 1
    else if utf && 0x80 <= c < 0xC0 then 0
    else 4
  }

  /** pwrite: the bytes written to the terminal for it. */
  function Pwrite(utf: bool, c: Byte): seq<Byte> {
    if 32 <= c <= 126 || (!utf && c >= 0xA0) || (utf && c >= 0x80) then [c]
    else if c < 128 then ['^' as int, if c == 127 then '?' as int else c + 0x40]
    else ['<' as int, UpperHex(c / 16), UpperHex(c % 16), '>' as int]
  }

  function UpperHex(v: int): (d: Byte)
    requires 0 <= v < 16
    ensures 48 <= d <= 57 || 65 <= d <= 70
  {
    if v < 10 then v + 48 else v + 55
  }

  // The terminal row since the line mark.

  /** A cell holds one character: a byte, or a UTF-8 sequence. */
  type Cell = seq<Byte>

  const BLANK: Cell := [32]

  /** The cells before the cursor, and those from the cursor on. */
  datatype Screen = Screen(left: seq<Cell>, right: seq<Cell>) {
    ghost predicate BlankAfterCursor() {
      forall i :: 0 <= i < |right| ==> right[i] == BLANK
    }
  }

  /** The terminal's response to one byte. Long lines are not wrapped. */
  function Show(utf: bool, s: Screen, c: Byte): Screen {
    if c == 8 then
      if s.left == [] then s else Screen(s.left[..|s.left| - 1], [s.left[|s.left| - 1]] + s.right)
    else if c == 10 then Screen([], [])
    else if c == 13 then Screen([], s.left + s.right)
    else if c < 32 then s
    else if IsFollow(utf, c) then
      if s.left == [] then s else s.(left := s.left[..|s.left| - 1] + [s.left[|s.left| - 1] + [c]])
    else Screen(s.left + [[c]], if s.right == [] then [] else s.right[1..])
  }

  function ShowAll(utf: bool, s: Screen, data: seq<Byte>): Screen
    decreases |data|
  {
    if data == [] then s else ShowAll(utf, Show(utf, s, data[0]), data[1..])
  }

  // What the row ought to show.

  /** The cells of one byte that starts a character. */
  function CellsOf(utf: bool, c: Byte): (cells: seq<Cell>)
    requires CharStart(utf, c)
    ensures |cells| == Plen(utf, c)
  {
    if 32 <= c <= 126 || (!utf && c >= 0xA0) || (utf && c >= 0x80) then [[c]]
    else if c < 128 then [['^' as int], [if c == 127 then '?' as int else c + 0x40]]
    else [['<' as int], [UpperHex(c / 16)], [UpperHex(c % 16)], ['>' as int]]
  }

  /** One more byte: a new character, or the continuation of the last one. */
  function AddByte(utf: bool, cells: seq<Cell>, c: Byte): seq<Cell> {
    if IsFollow(utf, c) then
      if cells == [] then cells else cells[..|cells| - 1] + [cells[|cells| - 1] + [c]]
    else cells + CellsOf(utf, c)
  }

  /** The row that shows a buffer. */
  function Render(utf: bool, buf: seq<Byte>): seq<Cell> {
    if buf == [] then [] else AddByte(utf, Render(utf, buf[..|buf| - 1]), buf[|buf| - 1])
  }

  function TotalPlen(utf: bool, buf: seq<Byte>): nat {
    if buf == [] then 0 else TotalPlen(utf, buf[..|buf| - 1]) + Plen(utf, buf[|buf| - 1])
  }

  /** plen agrees with pwrite: the row is as wide as the plens add up to. */
  lemma {:induction false} RenderWidth(utf: bool, buf: seq<Byte>)
    ensures |Render(utf, buf)| == TotalPlen(utf, buf)
    decreases |buf|
  {
    if buf != [] {
      RenderWidth(utf, buf[..|buf| - 1]);
    }
  }

  lemma RenderSnoc(utf: bool, buf: seq<Byte>, c: Byte)
    ensures Render(utf, buf + [c]) == AddByte(utf, Render(utf, buf), c)
  {
    assert (buf + [c])[..|buf|] == buf;
  }

  /** Dropping whole characters drops whole cells. */
  lemma RenderPrefix(utf: bool, buf: seq<Byte>, n: nat)
    requires n <= |buf|
    requires n < |buf| ==> !IsFollow(utf, buf[n])
    ensures Render(utf, buf[..n]) <= Render(utf, buf)
    decreases |buf|
  {
    if n == |buf| {
      assert buf[..n] == buf;
    } else {
      RenderUpTo(utf, buf[..n], buf[n..]);
      assert buf[..n] + buf[n..] == buf;
    }
  }

  lemma {:induction false} RenderUpTo(utf: bool, front: seq<Byte>, back: seq<Byte>)
    requires back != [] && !IsFollow(utf, back[0])
    ensures Render(utf, front) <= Render(utf, front + back)
    ensures |Render(utf, front)| < |Render(utf, front + back)|
    decreases |back|
  {
    var last := back[|back| - 1];
    var init := back[..|back| - 1];
    assert front + back == (front + init) + [last];
    RenderSnoc(utf, front + init, last);
    if |back| > 1 {
      RenderUpTo(utf, front, init);
    } else {
      assert front + init == front;
    }
  }

  /** No continuation byte starts the buffer or follows a space. */
  ghost predicate WellFormed(utf: bool, buf: seq<Byte>) {
    forall i :: 0 <= i < |buf| && IsFollow(utf, buf[i]) ==> i > 0 && !IsSpace(buf[i - 1])
  }

  /** Something that a continuation byte may follow. */
  predicate Continuable(buf: seq<Byte>) {
    buf != [] && !IsSpace(buf[|buf| - 1])
  }

  /** A byte that is entered whatever the editor is doing, and that is no space. */
  predicate IsVisible(c: Byte) {
    c > 32 && c != 127
  }

  /** Each continuation byte of the data follows a byte that is entered, or continues the buffer. */
  ghost predicate Continues(utf: bool, buf: seq<Byte>, data: seq<Byte>) {
    forall i :: 0 <= i < |data| && IsFollow(utf, data[i]) ==> if i == 0 then Continuable(buf) else IsVisible(data[i - 1])
  }

  // The terminal does what the row ought to show.

  lemma ShowTwo(utf: bool, s: Screen, a: Byte, b: Byte)
    ensures ShowAll(utf, s, [a, b]) == Show(utf, Show(utf, s, a), b)
  {
    assert [a, b][1..] == [b] && [b][1..] == [];
    assert ShowAll(utf, Show(utf, s, a), [b]) == ShowAll(utf, Show(utf, Show(utf, s, a), b), []);
  }

  lemma {:induction false} ShowAllAppend(utf: bool, s: Screen, a: seq<Byte>, b: seq<Byte>)
    ensures ShowAll(utf, s, a + b) == ShowAll(utf, ShowAll(utf, s, a), b)
    decreases |a|
  {
    if a == [] {
      assert a + b == b;
    } else {
      assert (a + b)[1..] == a[1..] + b;
      ShowAllAppend(utf, Show(utf, s, a[0]), a[1..], b);
    }
  }

  lemma ShowOne(utf: bool, s: Screen, c: Byte)
    ensures ShowAll(utf, s, [c]) == Show(utf, s, c)
  {
    assert [c][1..] == [];
    assert ShowAll(utf, Show(utf, s, c), []) == Show(utf, s, c);
  }

  /** A printable ASCII byte fills one cell. */
  lemma ShowAscii(utf: bool, s: Screen, c: Byte)
    requires s.BlankAfterCursor() && 32 <= c <= 126
    ensures Show(utf, s, c).left == s.left + [[c]] && Show(utf, s, c).BlankAfterCursor()
  {
  }

  lemma ShowAsciis(utf: bool, s: Screen, a: Byte, b: Byte)
    requires s.BlankAfterCursor() && 32 <= a <= 126 && 32 <= b <= 126
    ensures ShowAll(utf, s, [a, b]).left == s.left + [[a], [b]] && ShowAll(utf, s, [a, b]).BlankAfterCursor()
  {
    ShowTwo(utf, s, a, b);
    hide Show, ShowAll, Screen.BlankAfterCursor;
    ShowAscii(utf, s, a);
    ShowAscii(utf, Show(utf, s, a), b);
  }

  lemma ShowHex(utf: bool, s: Screen, h: Byte, l: Byte)
    requires s.BlankAfterCursor() && 32 <= h <= 126 && 32 <= l <= 126
    ensures var t := ShowAll(utf, s, ['<' as int, h, l, '>' as int]);
            t.left == s.left + [['<' as int], [h], [l], ['>' as int]] && t.BlankAfterCursor()
  {
    hide Show, ShowAll, Screen.BlankAfterCursor;
    ShowAsciis(utf, s, '<' as int, h);
    ShowAsciis(utf, ShowAll(utf, s, ['<' as int, h]), l, '>' as int);
    ShowAllAppend(utf, s, ['<' as int, h], [l, '>' as int]);
    assert ['<' as int, h] + [l, '>' as int] == ['<' as int, h, l, '>' as int];
  }

  /** Echoing a byte adds it to the row, whatever kind of byte it is. */
  lemma ShowPwrite(utf: bool, s: Screen, c: Byte)
    requires s.BlankAfterCursor()
    ensures ShowAll(utf, s, Pwrite(utf, c)).left == AddByte(utf, s.left, c)
    ensures ShowAll(utf, s, Pwrite(utf, c)).BlankAfterCursor()
  {
    hide ShowAll;
    if 32 <= c <= 126 || (!utf && c >= 0xA0) || (utf && c >= 0x80) {
      ShowOne(utf, s, c);
    } else if c < 128 {
      hide Show, Screen.BlankAfterCursor;
      ShowAsciis(utf, s, '^' as int, if c == 127 then '?' as int else c + 0x40);
    } else {
      hide Show, Screen.BlankAfterCursor;
      ShowHex(utf, s, UpperHex(c / 16), UpperHex(c % 16));
    }
  }

  const RUBOUT: seq<Byte> := [8, 32, 8]

  /** Backspace, space, backspace blanks the cell before the cursor. */
  lemma ShowRubout(utf: bool, s: Screen)
    requires s.BlankAfterCursor() && s.left != []
    ensures ShowAll(utf, s, RUBOUT).left == s.left[..|s.left| - 1]
    ensures ShowAll(utf, s, RUBOUT).BlankAfterCursor()
  {
    var s1 := Show(utf, s, 8);
    var s2 := Show(utf, s1, 32);
    var s3 := Show(utf, s2, 8);
    assert RUBOUT == [8, 32] + [8];
    ShowAllAppend(utf, s, [8, 32], [8]);
    ShowTwo(utf, s, 8, 32);
    assert [8][1..] == [];
    assert ShowAll(utf, s2, [8]) == ShowAll(utf, s3, []) == s3;
    assert s2.left == s1.left + [BLANK] && s2.right == s.right;
    assert s3.left == s1.left && s3.right == [BLANK] + s.right;
  }

  lemma ShowNewline(utf: bool, s: Screen, before: seq<Byte>)
    ensures ShowAll(utf, s, before + [13, 10]) == Screen([], [])
  {
    ShowAllAppend(utf, s, before, [13, 10]);
    ShowTwo(utf, ShowAll(utf, s, before), 13, 10);
  }

  // What each key does to the line, said without the loops.

  /** The buffer without its last character. */
  function DropChar(utf: bool, buf: seq<Byte>): seq<Byte> {
    if buf == [] then []
    else if CharStart(utf, buf[|buf| - 1]) then buf[..|buf| - 1]
    else DropChar(utf, buf[..|buf| - 1])
  }

  /** The bytes of one character: a start and any continuation bytes. */
  ghost predicate IsChar(utf: bool, ch: seq<Byte>) {
    ch != [] && CharStart(utf, ch[0]) && forall i :: 1 <= i < |ch| ==> IsFollow(utf, ch[i])
  }

  /** Backspace undoes typing one character, however many bytes it has. */
  lemma {:induction false} DropCharOfTyped(utf: bool, buf: seq<Byte>, ch: seq<Byte>)
    requires IsChar(utf, ch)
    ensures DropChar(utf, buf + ch) == buf
    decreases |ch|
  {
    var all := buf + ch;
    assert all[..|all| - 1] == buf + ch[..|ch| - 1];
    if |ch| > 1 {
      DropCharOfTyped(utf, buf, ch[..|ch| - 1]);
    }
  }

  /** A place where a word starts: after a space and before a non-space. */
  predicate WordStart(buf: seq<Byte>, n: nat)
    requires n < |buf|
  {
    n > 0 && IsSpace(buf[n - 1]) && !IsSpace(buf[n])
  }

  function KillWord(buf: seq<Byte>): (r: seq<Byte>)
    ensures |r| <= |buf|
  {
    if |buf| <= 1 then []
    else if WordStart(buf, |buf| - 1) then buf[..|buf| - 1]
    else KillWord(buf[..|buf| - 1])
  }

  /** ^W leaves the longest proper prefix that is empty or ends where a word starts. */
  lemma {:induction false} KillWordIsLongest(buf: seq<Byte>)
    requires buf != []
    ensures var n := |KillWord(buf)|;
            && n < |buf| && KillWord(buf) == buf[..n]
            && (n == 0 || WordStart(buf, n))
            && forall k :: n < k < |buf| ==> !WordStart(buf, k)
    decreases |buf|
  {
    if |buf| > 1 && !WordStart(buf, |buf| - 1) {
      var p := buf[..|buf| - 1];
      KillWordIsLongest(p);
      var n := |KillWord(p)|;
      assert p[..n] == buf[..n];
      forall k | n < k < |buf|
        ensures !WordStart(buf, k)
      {
        if k < |p| {
          assert !WordStart(p, k) && p[k] == buf[k] && p[k - 1] == buf[k - 1];
        }
      }
    }
  }

  /** What a key leaves in the buffer, whether the next key is quoted, and what is sent. */
  datatype Outcome = Outcome(buf: seq<Byte>, quotenext: bool, sent: seq<Write>)

  function Insert(buf: seq<Byte>, c: int): Outcome
    requires 0 <= c
  {
    Outcome(buf + [c % 256], false, [])
  }

  /** The line, if there is one, and then the protocol's end of line. */
  function EndLine(cfg: Config, buf: seq<Byte>): Outcome {
    Outcome([], false,
            (if buf == [] then [] else [Raw(buf)])
            + [if cfg.protocol == RawProtocol then Raw([13, 10])
               else if cfg.protocol == Telnet && cfg.telnetNewline then Command(SS_EOL, 0)
               else Raw([13])])
  }

  function Interrupt(c: int): Write {
    if c == CTRL_C then Command(SS_IP, 0) else if c == CTRL_Z then Command(SS_SUSP, 0) else Command(SS_ABORT, 0)
  }

  function Key(cfg: Config, buf: seq<Byte>, quotenext: bool, c: int): Outcome
    requires 0 <= c
  {
    if quotenext then Insert(buf, c)
    else if c == KEY_BACKSPACE || c == KEY_DELETE then Outcome(DropChar(cfg.utf, buf), false, [])
    else if c == CTRL_W then Outcome(KillWord(buf), false, [])
    else if c == CTRL_U then Outcome([], false, [])
    else if c == CTRL_C || c == CTRL_BACKSLASH || c == CTRL_Z then
      if cfg.telnetKeyboard then Outcome([], false, [Command(SS_EL, 0), Interrupt(c)])
      else Outcome([c], false, [Command(SS_EL, 0)])
    else if c == CTRL_R then Outcome(buf, false, [])
    else if c == CTRL_V then Outcome(buf, true, [])
    else if c == CTRL_D then Outcome([], false, [if buf == [] then Command(SS_EOF, 0) else Raw(buf)])
    else if c == CTRL_J && cfg.protocol == RawProtocol && buf != [] && buf[|buf| - 1] == 13 then
      EndLine(cfg, buf[..|buf| - 1])
    else if c == KEY_ENTER then EndLine(cfg, buf)
    else Insert(buf, c)
  }

  /** Keys in a row. */
  function Keys(cfg: Config, o: Outcome, cs: seq<int>): Outcome
    requires forall i :: 0 <= i < |cs| ==> 0 <= cs[i]
    decreases |cs|
  {
    if cs == [] then o
    else
      var k := Key(cfg, o.buf, o.quotenext, cs[0]);
      Keys(cfg, Outcome(k.buf, k.quotenext, o.sent + k.sent), cs[1..])
  }

  lemma {:induction false} KeysAppend(cfg: Config, o: Outcome, a: seq<int>, b: seq<int>)
    requires forall i :: 0 <= i < |a| ==> 0 <= a[i]
    requires forall i :: 0 <= i < |b| ==> 0 <= b[i]
    ensures Keys(cfg, o, a + b) == Keys(cfg, Keys(cfg, o, a), b)
    decreases |a|
  {
    if a == [] {
      assert a + b == b;
    } else {
      var k := Key(cfg, o.buf, o.quotenext, a[0]);
      assert (a + b)[1..] == a[1..] + b;
      KeysAppend(cfg, Outcome(k.buf, k.quotenext, o.sent + k.sent), a[1..], b);
    }
  }

  lemma KeysOne(cfg: Config, o: Outcome, c: int)
    requires 0 <= c
    ensures var k := Key(cfg, o.buf, o.quotenext, c);
            Keys(cfg, o, [c]) == Outcome(k.buf, k.quotenext, o.sent + k.sent)
  {
    assert [c][1..] == [];
  }

  /** A key string that enters any bytes at all: each is quoted. */
  function Quoted(text: seq<Byte>): (cs: seq<int>)
    ensures forall i :: 0 <= i < |cs| ==> 0 <= cs[i]
  {
    if text == [] then [] else Quoted(text[..|text| - 1]) + [CTRL_V, text[|text| - 1]]
  }

  lemma {:induction false} QuotedEntersText(cfg: Config, text: seq<Byte>)
    ensures Keys(cfg, Outcome([], false, []), Quoted(text)) == Outcome(text, false, [])
    decreases |text|
  {
    if text != [] {
      var init, c := text[..|text| - 1], text[|text| - 1];
      QuotedEntersText(cfg, init);
      KeysAppend(cfg, Outcome([], false, []), Quoted(init), [CTRL_V, c]);
      assert init + [c] == text && Quoted(text) == Quoted(init) + [CTRL_V, c];
      hide Keys, Quoted;
      QuotedKeys(cfg, init, c);
    }
  }

  /** ^V and then any byte enter that byte. */
  lemma QuotedKeys(cfg: Config, buf: seq<Byte>, c: Byte)
    ensures Keys(cfg, Outcome(buf, false, []), [CTRL_V, c]) == Outcome(buf + [c], false, [])
  {
    var keys: seq<int> := [CTRL_V, c];
    var o := Outcome(buf, true, []);
    assert Key(cfg, buf, false, CTRL_V) == o && Key(cfg, buf, true, c) == Outcome(buf + [c], false, []);
    assert keys[1..] == [c] && o.sent + o.sent == o.sent;
    KeysOne(cfg, o, c);
    assert Keys(cfg, Outcome(buf, false, []), keys) == Keys(cfg, Outcome(buf, true, o.sent + o.sent), [c]);
  }

  /** Any line can be entered and sent as it is. */
  lemma QuotedLineIsSent(cfg: Config, text: seq<Byte>)
    requires text != []
    ensures Keys(cfg, Outcome([], false, []), Quoted(text) + [KEY_ENTER]) == EndLine(cfg, text)
    ensures EndLine(cfg, text).sent[0] == Raw(text)
  {
    var start := Outcome([], false, []);
    QuotedEntersText(cfg, text);
    KeysAppend(cfg, start, Quoted(text), [KEY_ENTER]);
    KeysOne(cfg, Outcome(text, false, []), KEY_ENTER);
  }

  /** The key codes of a call to ldisc_send: those of a special string and a pasted CR are flagged. */
  function KeyCode(flagged: bool, interactive: bool, b: Byte): (c: int)
    ensures 0 <= c && c % 256 == b
  {
    var c := if flagged then b + 0x100 else b as int;
    if !interactive && c == 13 then c + 0x100 else c
  }

  function KeyCodes(flagged: bool, interactive: bool, data: seq<Byte>): (cs: seq<int>)
    ensures |cs| == |data|
    ensures forall i :: 0 <= i < |cs| ==> 0 <= cs[i]
  {
    seq(|data|, i requires 0 <= i < |data| => KeyCode(flagged, interactive, data[i]))
  }

  lemma WellFormedPrefix(utf: bool, buf: seq<Byte>, n: nat)
    requires n <= |buf| && WellFormed(utf, buf)
    ensures WellFormed(utf, buf[..n])
  {
  }

  /** A place where the deletion loops may stop: no character is cut there. */
  lemma StopIsCharStart(utf: bool, buf: seq<Byte>, n: nat)
    requires WellFormed(utf, buf) && n < |buf|
    requires n == 0 || WordStart(buf, n)
    ensures CharStart(utf, buf[n])
  {
  }

  /** Backspace stops at the first character start from the end. */
  lemma {:induction false} DropCharAt(utf: bool, buf: seq<Byte>, n: nat)
    requires n < |buf| && CharStart(utf, buf[n])
    requires forall i :: n < i < |buf| ==> !CharStart(utf, buf[i])
    ensures DropChar(utf, buf) == buf[..n]
    decreases |buf|
  {
    if n < |buf| - 1 {
      DropCharAt(utf, buf[..|buf| - 1], n);
      assert buf[..|buf| - 1][..n] == buf[..n];
    }
  }

  lemma {:induction false} KillWordAt(buf: seq<Byte>, n: nat)
    requires n < |buf| && (n == 0 || WordStart(buf, n))
    requires forall i :: n < i < |buf| ==> !WordStart(buf, i)
    ensures KillWord(buf) == buf[..n]
    decreases |buf|
  {
    if n < |buf| - 1 {
      var p := buf[..|buf| - 1];
      assert p[..n] == buf[..n];
      assert forall i :: 0 < i < |p| ==> WordStart(p, i) == WordStart(buf, i);
      KillWordAt(p, n);
    }
  }

  // What each key writes to the terminal, if there is echo.

  function Rub(n: nat): seq<Byte> {
    if n == 0 then [] else Rub(n - 1) + RUBOUT
  }

  lemma {:induction false} RubMore(a: nat, b: nat)
    ensures Rub(a) + Rub(b) == Rub(a + b)
  {
    if b == 0 {
      assert Rub(a) + [] == Rub(a);
    } else {
      RubMore(a, b - 1);
      Assoc(Rub(a), Rub(b - 1), RUBOUT);
    }
  }

  /** The rubbing out of cells, from one buffer to a shorter one. */
  function Erase(cfg: Config, from: seq<Byte>, to: seq<Byte>): seq<Byte> {
    var a, b := TotalPlen(cfg.utf, from), TotalPlen(cfg.utf, to);
    if cfg.echo && a >= b then Rub(a - b) else []
  }

  lemma EraseNothing(cfg: Config, buf: seq<Byte>)
    ensures Erase(cfg, buf, buf) == []
  {
  }

  function PwriteAll(utf: bool, buf: seq<Byte>): seq<Byte> {
    if buf == [] then [] else PwriteAll(utf, buf[..|buf| - 1]) + Pwrite(utf, buf[|buf| - 1])
  }

  lemma PwriteSnoc(utf: bool, buf: seq<Byte>, c: Byte)
    ensures PwriteAll(utf, buf + [c]) == PwriteAll(utf, buf) + Pwrite(utf, c)
  {
    assert (buf + [c])[..|buf|] == buf;
  }

  const REDRAW: seq<Byte> := ['^' as int, 'R' as int, 13, 10]

  const NEWLINE: seq<Byte> := [13, 10]

  function IfEcho(cfg: Config, data: seq<Byte>): seq<Byte> {
    if cfg.echo then data else []
  }

  function Echo(cfg: Config, buf: seq<Byte>, quotenext: bool, c: int): seq<Byte>
    requires 0 <= c
  {
    var after := Key(cfg, buf, quotenext, c).buf;
    if quotenext then IfEcho(cfg, Pwrite(cfg.utf, c % 256))
    else if c == KEY_BACKSPACE || c == KEY_DELETE || c == CTRL_W || c == CTRL_U then Erase(cfg, buf, after)
    else if c == CTRL_C || c == CTRL_BACKSLASH || c == CTRL_Z then
      Erase(cfg, buf, []) + if cfg.telnetKeyboard then [] else IfEcho(cfg, Pwrite(cfg.utf, c))
    else if c == CTRL_R then IfEcho(cfg, REDRAW + PwriteAll(cfg.utf, buf))
    else if c == CTRL_V || c == CTRL_D then []
    else if c == CTRL_J && cfg.protocol == RawProtocol && buf != [] && buf[|buf| - 1] == 13 then
      Erase(cfg, buf, buf[..|buf| - 1]) + IfEcho(cfg, NEWLINE)
    else if c == KEY_ENTER then IfEcho(cfg, NEWLINE)
    else IfEcho(cfg, Pwrite(cfg.utf, c % 256))
  }

  lemma RubAfter(start: seq<Byte>, done: nat, n: nat)
    ensures start + Rub(done) + Rub(n) == start + Rub(done + n)
  {
    RubMore(done, n);
    hide Rub;
    Assoc(start, Rub(done), Rub(n));
  }

  lemma TotalPlenStep(utf: bool, buf: seq<Byte>)
    requires buf != []
    ensures TotalPlen(utf, buf) == TotalPlen(utf, buf[..|buf| - 1]) + Plen(utf, buf[|buf| - 1])
  {
    hide Plen;
  }

  lemma {:induction false} EraseStep(cfg: Config, whole: seq<Byte>, buf: seq<Byte>, start: seq<Byte>)
    requires buf != [] && TotalPlen(cfg.utf, buf) <= TotalPlen(cfg.utf, whole)
    ensures start + Erase(cfg, whole, buf[..|buf| - 1])
         == start + Erase(cfg, whole, buf) + IfEcho(cfg, Rub(Plen(cfg.utf, buf[|buf| - 1])))
  {
    var utf, shorter, n := cfg.utf, buf[..|buf| - 1], Plen(cfg.utf, buf[|buf| - 1]);
    hide *;
    TotalPlenStep(utf, buf);
    var x, y := TotalPlen(utf, whole) - TotalPlen(utf, buf), TotalPlen(utf, whole) - TotalPlen(utf, shorter);
    assert y == x + n;
    EraseIs(cfg, whole, buf);
    EraseIs(cfg, whole, shorter);
    EchoIs(cfg, Rub(n));
    if cfg.echo {
      RubAfter(start, x, n);
      assert Erase(cfg, whole, shorter) == Rub(y) == Rub(x + n);
      assert Erase(cfg, whole, buf) == Rub(x);
      assert start + Rub(x) + Rub(n) == start + Rub(y);
    } else {
      NothingAdded(start);
    }
  }

  /** Dropping a byte takes away as many cells as its plen says. */
  lemma RenderShrinks(utf: bool, whole: seq<Byte>, buf: seq<Byte>)
    requires buf != [] && |Render(utf, buf)| <= |Render(utf, whole)|
    ensures |Render(utf, buf[..|buf| - 1])| + Plen(utf, buf[|buf| - 1]) == |Render(utf, buf)|
    ensures TotalPlen(utf, buf) <= TotalPlen(utf, whole)
  {
    RenderWidth(utf, buf);
    RenderWidth(utf, buf[..|buf| - 1]);
    RenderWidth(utf, whole);
    TotalPlenStep(utf, buf);
    hide Render, TotalPlen, Plen;
  }

  lemma CellsLeft(utf: bool, whole: seq<Byte>, buf: seq<Byte>)
    requires buf != [] && |Render(utf, buf)| <= |Render(utf, whole)|
    ensures var n, row := Plen(utf, buf[|buf| - 1]), Render(utf, whole)[..|Render(utf, buf)|];
            n <= |row| && row[..|row| - n] == Render(utf, whole)[..|Render(utf, buf[..|buf| - 1])|]
  {
    RenderShrinks(utf, whole, buf);
    hide Render, TotalPlen, Plen;
  }

  lemma EraseIs(cfg: Config, from: seq<Byte>, to: seq<Byte>)
    requires TotalPlen(cfg.utf, to) <= TotalPlen(cfg.utf, from)
    ensures Erase(cfg, from, to)
         == if cfg.echo then Rub(TotalPlen(cfg.utf, from) - TotalPlen(cfg.utf, to)) else []
  {
    hide TotalPlen, Rub;
  }

  lemma EchoIs(cfg: Config, data: seq<Byte>)
    ensures IfEcho(cfg, data) == if cfg.echo then data else []
  {
  }

  lemma NothingAdded(s: seq<Byte>)
    ensures s + [] == s
  {
  }

  /** Keys in a row. */
  function Echoes(cfg: Config, o: Outcome, cs: seq<int>): seq<Byte>
    requires forall i :: 0 <= i < |cs| ==> 0 <= cs[i]
    decreases |cs|
  {
    if cs == [] then []
    else
      var k := Key(cfg, o.buf, o.quotenext, cs[0]);
      Echo(cfg, o.buf, o.quotenext, cs[0]) + Echoes(cfg, Outcome(k.buf, k.quotenext, o.sent + k.sent), cs[1..])
  }

  /** The editing half of the line discipline, with echo and charset fixed. */
  class Editor {
    const cfg: Config
    var buf: seq<Byte>
    var quotenext: bool
    var sent: seq<Write>
    /** What has been written to the terminal, and the row it makes. */
    var out: seq<Byte>
    var screen: Screen

    /** With echo, the row since the line mark shows the buffer and nothing after it. */
    ghost predicate Valid()
      reads this
    {
      && WellFormed(cfg.utf, buf)
      && (cfg.echo ==> screen.BlankAfterCursor() && screen.left == Render(cfg.utf, buf))
    }

    ghost function State(): Outcome
      reads this
    {
      Outcome(buf, quotenext, sent)
    }

    constructor (cfg: Config)
      ensures Valid() && this.cfg == cfg && State() == Outcome([], false, []) && out == []
    {
      this.cfg := cfg;
      buf, quotenext, sent := [], false, [];
      out, screen := [], Screen([], []);
    }

    method CWrite(data: seq<Byte>)
      modifies this`out, this`screen
      ensures out == old(out) + data && screen == ShowAll(cfg.utf, old(screen), data)
    {
      out := out + data;
      screen := ShowAll(cfg.utf, screen, data);
    }

    method PWrite(c: Byte)
      modifies this`out, this`screen
      ensures out == old(out) + Pwrite(cfg.utf, c)
      ensures screen == ShowAll(cfg.utf, old(screen), Pwrite(cfg.utf, c))
    {
      if 32 <= c <= 126 || (!cfg.utf && c >= 0xA0) || (cfg.utf && c >= 0x80) {
        CWrite([c]);
      } else if c < 128 {
        CWrite(['^' as int, if c == 127 then '?' as int else c + 0x40]);
      } else {
        CWrite(['<' as int, UpperHex(c / 16), UpperHex(c % 16), '>' as int]);
      }
    }

    method Bsb(n: nat)
      requires screen.BlankAfterCursor() && n <= |screen.left|
      modifies this`out, this`screen
      ensures screen.BlankAfterCursor() && out == old(out) + Rub(n)
      ensures screen.left == old(screen.left)[..|old(screen.left)| - n]
    {
      assert out + [] == out;
      var m: nat := n;
      while m > 0
        invariant screen.BlankAfterCursor() && 0 <= m <= n
        invariant screen.left == old(screen.left)[..|old(screen.left)| - (n - m)]
        invariant out == old(out) + Rub(n - m)
      {
        ShowRubout(cfg.utf, screen);
        Assoc(old(out), Rub(n - m), RUBOUT);
        CWrite(RUBOUT);
        m := m - 1;
      }
    }

    /** Part of a line has been deleted: the row shows as many cells as are left. */
    ghost predicate Deleting(whole: seq<Byte>)
      reads this
    {
      && buf <= whole
      && |Render(cfg.utf, buf)| <= |Render(cfg.utf, whole)|
      && (cfg.echo ==>
            && screen.BlankAfterCursor()
            && screen.left == Render(cfg.utf, whole)[..|Render(cfg.utf, buf)|])
    }

    /** What has been written since then. */
    ghost predicate Erased(start: seq<Byte>, whole: seq<Byte>)
      reads this
    {
      out == start + Erase(cfg, whole, buf)
    }

    /** The step the three deletion loops share. */
    method DropByte(ghost whole: seq<Byte>, ghost start: seq<Byte>)
      requires buf != [] && Deleting(whole) && Erased(start, whole)
      modifies this`buf, this`out, this`screen
      ensures Deleting(whole) && Erased(start, whole) && buf == old(buf)[..|old(buf)| - 1]
    {
      ghost var shorter := buf[..|buf| - 1];
      RenderShrinks(cfg.utf, whole, buf);
      EraseStep(cfg, whole, buf, start);
      CellsLeft(cfg.utf, whole, buf);
      hide Render, TotalPlen, Plen, Show, ShowAll, Rub, Erase, Screen.BlankAfterCursor;
      if cfg.echo {
        Bsb(Plen(cfg.utf, buf[|buf| - 1]));
      } else {
        NothingAdded(out);
      }
      buf := buf[..|buf| - 1];
    }

    /** Once the loop has stopped between two characters, the row is right again. */
    lemma Deleted(whole: seq<Byte>)
      requires Deleting(whole) && WellFormed(cfg.utf, whole)
      requires |buf| < |whole| ==> CharStart(cfg.utf, whole[|buf|])
      ensures Valid()
    {
      WellFormedPrefix(cfg.utf, whole, |buf|);
      RenderPrefix(cfg.utf, whole, |buf|);
      assert whole[..|buf|] == buf;
    }

    lemma NothingErased()
      ensures Erased(out, buf)
    {
      EraseNothing(cfg, buf);
      assert out + [] == out;
    }

    method DeleteChar()
      requires Valid()
      modifies this`buf, this`out, this`screen
      ensures Valid() && buf == DropChar(cfg.utf, old(buf)) && out == old(out) + Erase(cfg, old(buf), buf)
    {
      ghost var whole, start := buf, out;
      NothingErased();
      if whole != [] {
        StopIsCharStart(cfg.utf, whole, 0);
      }
      hide Show, ShowAll, Pwrite, Render, AddByte, TotalPlen, WellFormed, DropChar, Erase;
      if |buf| > 0 {
        var gone := buf[|buf| - 1];
        DropByte(whole, start);
        while !CharStart(cfg.utf, gone)
          invariant Deleting(whole) && Erased(start, whole) && |buf| < |whole| && gone == whole[|buf|]
          invariant forall i :: |buf| < i < |whole| ==> !CharStart(cfg.utf, whole[i])
          decreases |buf|
        {
          gone := buf[|buf| - 1];
          DropByte(whole, start);
        }
        DropCharAt(cfg.utf, whole, |buf|);
      }
      Deleted(whole);
    }

    method DeleteWord()
      requires Valid()
      modifies this`buf, this`out, this`screen
      ensures Valid() && buf == KillWord(old(buf)) && out == old(out) + Erase(cfg, old(buf), buf)
    {
      ghost var whole, start := buf, out;
      NothingErased();
      hide Show, ShowAll, Pwrite, Render, AddByte, TotalPlen, WellFormed, Erase;
      while |buf| > 0
        invariant Deleting(whole) && Erased(start, whole)
        invariant forall i :: |buf| <= i < |whole| ==> !WordStart(whole, i)
      {
        var gone := buf[|buf| - 1];
        DropByte(whole, start);
        if |buf| > 0 && IsSpace(buf[|buf| - 1]) && !IsSpace(gone) {
          break;
        }
      }
      if whole != [] {
        KillWordAt(whole, |buf|);
        StopIsCharStart(cfg.utf, whole, |buf|);
      }
      Deleted(whole);
    }

    method DeleteLine()
      requires Valid()
      modifies this`buf, this`out, this`screen
      ensures Valid() && buf == [] && out == old(out) + Erase(cfg, old(buf), [])
    {
      ghost var whole, start := buf, out;
      NothingErased();
      hide Show, ShowAll, Pwrite, Render, AddByte, TotalPlen, WellFormed, Erase;
      while |buf| > 0
        invariant Deleting(whole) && Erased(start, whole)
      {
        DropByte(whole, start);
      }
      if whole != [] {
        StopIsCharStart(cfg.utf, whole, 0);
      }
      Deleted(whole);
    }

    method Redraw()
      requires Valid()
      modifies this`out, this`screen
      ensures Valid() && out == old(out) + IfEcho(cfg, REDRAW + PwriteAll(cfg.utf, buf))
    {
      if !cfg.echo {
        assert out + [] == out;
        return;
      }
      assert REDRAW == ['^' as int, 'R' as int] + NEWLINE;
      ShowNewline(cfg.utf, screen, ['^' as int, 'R' as int]);
      CWrite(REDRAW);
      ghost var start := out;
      assert start + [] == start && Render(cfg.utf, buf[..0]) == [] && PwriteAll(cfg.utf, buf[..0]) == [];
      assert screen.BlankAfterCursor();
      hide Show, ShowAll, Pwrite, AddByte, Render, PwriteAll, Screen.BlankAfterCursor;
      var i := 0;
      while i < |buf|
        invariant 0 <= i <= |buf| && screen.BlankAfterCursor()
        invariant screen.left == Render(cfg.utf, buf[..i]) && out == start + PwriteAll(cfg.utf, buf[..i])
      {
        DrawByte(cfg.utf, screen, buf, i, start);
        PWrite(buf[i]);
        i := i + 1;
      }
      assert buf[..i] == buf;
      Assoc(old(out), REDRAW, PwriteAll(cfg.utf, buf));
    }

    /** One more byte of the buffer on the row. */
    static lemma DrawByte(utf: bool, screen: Screen, buf: seq<Byte>, i: nat, start: seq<Byte>)
      requires i < |buf| && screen.BlankAfterCursor() && screen.left == Render(utf, buf[..i])
      ensures var next := ShowAll(utf, screen, Pwrite(utf, buf[i]));
              next.BlankAfterCursor() && next.left == Render(utf, buf[..i + 1])
      ensures start + PwriteAll(utf, buf[..i]) + Pwrite(utf, buf[i]) == start + PwriteAll(utf, buf[..i + 1])
    {
      hide *;
      ShowPwrite(utf, screen, buf[i]);
      RenderSnoc(utf, buf[..i], buf[i]);
      PwriteSnoc(utf, buf[..i], buf[i]);
      Assoc(start, PwriteAll(utf, buf[..i]), Pwrite(utf, buf[i]));
      assert buf[..i + 1] == buf[..i] + [buf[i]];
    }

    method InsertByte(c: int)
      requires Valid() && 0 <= c
      requires IsFollow(cfg.utf, c % 256) ==> Continuable(buf)
      modifies this`buf, this`out, this`screen, this`quotenext
      ensures Valid() && buf == old(buf) + [c % 256] && !quotenext
      ensures out == old(out) + IfEcho(cfg, Pwrite(cfg.utf, c % 256))
    {
      NothingAdded(out);
      hide Show, ShowAll, Pwrite, Render, AddByte;
      var b: Byte := c % 256;
      buf := buf + [b];
      if cfg.echo {
        ShowPwrite(cfg.utf, screen, b);
        PWrite(b);
      }
      RenderSnoc(cfg.utf, old(buf), b);
      quotenext := false;
    }

    method ToBackendRaw(data: seq<Byte>)
      modifies this`sent
      ensures sent == old(sent) + [Raw(data)]
    {
      sent := sent + [Raw(data)];
    }

    method ToBackendSpecial(code: nat)
      modifies this`sent
      ensures sent == old(sent) + [Command(code, 0)]
    {
      sent := sent + [Command(code, 0)];
    }

    method SendLine()
      requires Valid() && !quotenext
      modifies this`buf, this`out, this`screen, this`sent
      ensures Valid()
      ensures buf == [] && sent == old(sent) + EndLine(cfg, old(buf)).sent
      ensures out == old(out) + IfEcho(cfg, NEWLINE)
    {
      if |buf| > 0 {
        ToBackendRaw(buf);
      }
      if cfg.protocol == RawProtocol {
        ToBackendRaw([13, 10]);
      } else if cfg.protocol == Telnet && cfg.telnetNewline {
        ToBackendSpecial(SS_EOL);
      } else {
        ToBackendRaw([13]);
      }
      if cfg.echo {
        ShowNewline(cfg.utf, screen, []);
        assert [] + NEWLINE == NEWLINE;
        CWrite(NEWLINE);
      } else {
        assert out + [] == out;
      }
      buf := [];
    }

    /** One key: a pass of the loop in ldisc_send. */
    method HandleKey(c: int)
      requires Valid() && 0 <= c
      requires IsFollow(cfg.utf, c % 256) ==> Continuable(buf)
      modifies this
      ensures Valid()
      ensures buf == Key(cfg, old(buf), old(quotenext), c).buf
      ensures quotenext == Key(cfg, old(buf), old(quotenext), c).quotenext
      ensures sent == old(sent) + Key(cfg, old(buf), old(quotenext), c).sent
      ensures out == old(out) + Echo(cfg, old(buf), old(quotenext), c)
    {
      hide Show, ShowAll, Pwrite, Render, AddByte, WellFormed, DropChar, KillWord, Erase, IfEcho, PwriteAll;
      assert out + [] == out;
      if quotenext {
        InsertByte(c);
      } else if c == KEY_BACKSPACE || c == KEY_DELETE {
        DeleteChar();
      } else if c == CTRL_W {
        DeleteWord();
      } else if c == CTRL_U {
        DeleteLine();
      } else if c == CTRL_C || c == CTRL_BACKSLASH || c == CTRL_Z {
        InterruptLine(c);
      } else if c == CTRL_R {
        Redraw();
      } else if c == CTRL_V {
        quotenext := true;
      } else if c == CTRL_D {
        Logout();
      } else if c == CTRL_J && cfg.protocol == RawProtocol && |buf| > 0 && buf[|buf| - 1] == 13 {
        DeleteReturn();
        Assoc(old(out), Erase(cfg, old(buf), buf), IfEcho(cfg, NEWLINE));
        SendLine();
      } else if c == KEY_ENTER {
        SendLine();
      } else {
        InsertByte(c);
      }
    }

    /** ^C, ^\ and ^Z delete the line, and then they are a special, or a character of their own. */
    method InterruptLine(c: int)
      requires Valid() && !quotenext && (c == CTRL_C || c == CTRL_BACKSLASH || c == CTRL_Z)
      modifies this
      ensures Valid()
      ensures State() == (var k := Key(cfg, old(buf), false, c); Outcome(k.buf, k.quotenext, old(sent) + k.sent))
      ensures out == old(out) + Echo(cfg, old(buf), false, c)
    {
      hide Show, ShowAll, Pwrite, Render, AddByte, WellFormed, DropChar, KillWord, Erase, IfEcho, PwriteAll;
      DeleteLine();
      ghost var erased := Erase(cfg, old(buf), []);
      NothingAdded(erased);
      Assoc(old(out), erased, IfEcho(cfg, Pwrite(cfg.utf, c)));
      ToBackendSpecial(SS_EL);
      if !cfg.telnetKeyboard {
        InsertByte(c);
      } else if c == CTRL_C {
        ToBackendSpecial(SS_IP);
      } else if c == CTRL_Z {
        ToBackendSpecial(SS_SUSP);
      } else {
        ToBackendSpecial(SS_ABORT);
      }
    }

    method Logout()
      requires Valid()
      modifies this`buf, this`screen, this`sent
      ensures Valid() && buf == []
      ensures sent == old(sent) + [if old(buf) == [] then Command(SS_EOF, 0) else Raw(old(buf))]
    {
      if |buf| == 0 {
        ToBackendSpecial(SS_EOF);
      } else {
        ToBackendRaw(buf);
        buf := [];
        // The echoed text stays where it is, and the line mark moves behind it.
        screen := screen.(left := []);
      }
    }

    /** The literal carriage return before a line feed. */
    method DeleteReturn()
      requires Valid() && buf != [] && buf[|buf| - 1] == 13
      modifies this`buf, this`out, this`screen
      ensures Valid() && buf == old(buf)[..|old(buf)| - 1] && out == old(out) + Erase(cfg, old(buf), buf)
    {
      ghost var whole, start := buf, out;
      NothingErased();
      hide Show, ShowAll, Pwrite, Render, AddByte, TotalPlen, Erase;
      DropByte(whole, start);
      Deleted(whole);
    }

    /**
     * ldisc_send while editing. In UTF-8 mode a continuation byte must continue something, perhaps from
     * an earlier call. The screen shows the line after every key, and what was sent is what the keys mean.
     */
    method Send(data: seq<Byte>, flagged: bool, interactive: bool)
      requires Valid() && Continues(cfg.utf, buf, data)
      modifies this
      ensures Valid()
      ensures State() == Keys(cfg, old(State()), KeyCodes(flagged, interactive, data))
      ensures out == old(out) + Echoes(cfg, old(State()), KeyCodes(flagged, interactive, data))
    {
      hide Valid, Key, Keys, Echo, Echoes, KeyCodes, KeyCode, Continues, Entered, IsFollow;
      ghost var all := KeyCodes(flagged, interactive, data);
      var i := 0;
      StartEntering(cfg, State(), data, all);
      while i < |data|
        invariant 0 <= i <= |data| && Valid() && Entered(data, i, old(buf), buf)
        invariant Keys(cfg, State(), all[i..]) == Keys(cfg, old(State()), all)
        invariant out + Echoes(cfg, State(), all[i..]) == old(out) + Echoes(cfg, old(State()), all)
      {
        var c := if flagged then data[i] + 0x100 else data[i] as int;
        if !interactive && c == 13 {
          c := c + 0x100;
        }
        CodeIsKey(flagged, interactive, data, i);
        KeysStep(cfg, State(), all, i, out);
        EnterOne(cfg, State(), old(buf), data, i, c);
        HandleKey(c);
        i := i + 1;
      }
      KeysEnd(cfg, State(), all, i, out);
    }
  }

  /** Keys, one key at a time. */
  lemma KeysStep(cfg: Config, o: Outcome, all: seq<int>, i: nat, out: seq<Byte>)
    requires i < |all| && forall j :: 0 <= j < |all| ==> 0 <= all[j]
    ensures var k := Key(cfg, o.buf, o.quotenext, all[i]);
            var next := Outcome(k.buf, k.quotenext, o.sent + k.sent);
            && Keys(cfg, o, all[i..]) == Keys(cfg, next, all[i + 1..])
            && out + Echoes(cfg, o, all[i..])
               == out + Echo(cfg, o.buf, o.quotenext, all[i]) + Echoes(cfg, next, all[i + 1..])
  {
    hide Key, Echo;
    assert all[i..][1..] == all[i + 1..];
    var k := Key(cfg, o.buf, o.quotenext, all[i]);
    Assoc(out, Echo(cfg, o.buf, o.quotenext, all[i]),
          Echoes(cfg, Outcome(k.buf, k.quotenext, o.sent + k.sent), all[i + 1..]));
  }

  /** After the last key. */
  lemma KeysEnd(cfg: Config, o: Outcome, all: seq<int>, i: nat, out: seq<Byte>)
    requires i == |all| && forall j :: 0 <= j < |all| ==> 0 <= all[j]
    ensures Keys(cfg, o, all[i..]) == o && out + Echoes(cfg, o, all[i..]) == out
  {
    assert out + [] == out;
  }

  lemma CodeIsKey(flagged: bool, interactive: bool, data: seq<Byte>, i: nat)
    requires i < |data|
    ensures var c := if flagged then data[i] + 0x100 else data[i] as int;
            var code := if !interactive && c == 13 then c + 0x100 else c;
            KeyCodes(flagged, interactive, data)[i] == code && 0 <= code && code % 256 == data[i]
  {
  }

  /** Before byte `i`: a visible byte has just been entered, or the buffer is as it was. */
  ghost predicate Entered(data: seq<Byte>, i: nat, before: seq<Byte>, buf: seq<Byte>)
    requires i <= |data|
  {
    if i == 0 then buf == before else IsVisible(data[i - 1]) ==> Continuable(buf)
  }

  lemma StartEntering(cfg: Config, o: Outcome, data: seq<Byte>, all: seq<int>)
    ensures Entered(data, 0, o.buf, o.buf) && all[0..] == all
  {
  }

  lemma EnterOne(cfg: Config, o: Outcome, before: seq<Byte>, data: seq<Byte>, i: nat, c: int)
    requires i < |data| && Continues(cfg.utf, before, data) && Entered(data, i, before, o.buf)
    requires 0 <= c && c % 256 == data[i]
    ensures IsFollow(cfg.utf, c % 256) ==> Continuable(o.buf)
    ensures Entered(data, i + 1, before, Key(cfg, o.buf, o.quotenext, c).buf)
  {
    if IsVisible(data[i]) {
      VisibleIsInserted(cfg, o, c);
    }
    hide Key;
  }

  lemma VisibleIsInserted(cfg: Config, o: Outcome, c: int)
    requires 0 <= c && IsVisible(c % 256)
    ensures Key(cfg, o.buf, o.quotenext, c) == Insert(o.buf, c)
    ensures Continuable(Insert(o.buf, c).buf)
  {
  }
}
