/** What the user's keys mean while a line is edited: what is entered, taken back and sent. */
module LineKeys {
  import opened Bytes
  import opened InputQueue
  import opened LineEditor

  // Entering and taking back.

  /** ^V before every byte. */
  function Verbatim(text: seq<Byte>): (cs: seq<int>)
    ensures |cs| == 2 * |text|
    ensures forall i :: 0 <= i < |cs| ==> 0 <= cs[i] < 256
  {
    if text == [] then [] else [0x16, text[0]] + Verbatim(text[1..])
  }

  lemma KeysFirst(cfg: Config, o: Outcome, c: int, cs: seq<int>)
    requires 0 <= c && forall i :: 0 <= i < |cs| ==> 0 <= cs[i]
    ensures Keys(cfg, o, [c] + cs) == Keys(cfg, Keys(cfg, o, [c]), cs)
  {
    hide Key;
    KeysAppend(cfg, o, [c], cs);
  }

  /** Whatever key follows ^V, it is entered. */
  lemma QuotedKey(cfg: Config, o: Outcome, c: int)
    requires 0 <= c && !o.quotenext
    ensures Keys(cfg, o, [0x16]) == o.(quotenext := true)
    ensures Keys(cfg, o, [0x16] + [c]) == o.(buf := o.buf + [c % 256])
  {
    KeysOne(cfg, o, 0x16);
    KeysOne(cfg, o.(quotenext := true), c);
    KeysFirst(cfg, o, 0x16, [c]);
    hide Keys, DropChar, KillWord;
    assert o.sent + [] == o.sent;
  }

  lemma {:induction false} VerbatimEnters(cfg: Config, o: Outcome, text: seq<Byte>)
    requires !o.quotenext
    ensures Keys(cfg, o, Verbatim(text)) == o.(buf := o.buf + text)
    decreases |text|
  {
    if text == [] {
      assert o.buf + text == o.buf;
    } else {
      var next := o.(buf := o.buf + [text[0]]);
      var front: seq<int> := [0x16] + [text[0]];
      assert Verbatim(text) == front + Verbatim(text[1..]);
      assert [text[0]] + text[1..] == text;
      hide *;
      QuotedKey(cfg, o, text[0]);
      KeysAppend(cfg, o, front, Verbatim(text[1..]));
      VerbatimEnters(cfg, next, text[1..]);
      Assoc(o.buf, [text[0]], text[1..]);
    }
  }

  /** A byte, or in UTF-8 a byte that does not continue and then any that do. */
  ghost predicate IsCharacter(utf: bool, ch: seq<Byte>) {
    if !utf then |ch| == 1
    else ch != [] && !(0x80 <= ch[0] <= 0xBF) && forall i :: 1 <= i < |ch| ==> 0x80 <= ch[i] <= 0xBF
  }

  /** Backspace and delete take back any one character, and nothing but that. */
  lemma BackspaceTakesBack(cfg: Config, o: Outcome, ch: seq<Byte>, key: int)
    requires !o.quotenext && IsCharacter(cfg.utf, ch) && (key == 0x108 || key == 0x17F)
    ensures Keys(cfg, o, Verbatim(ch) + [key]) == o
  {
    var typed := o.(buf := o.buf + ch);
    VerbatimEnters(cfg, o, ch);
    KeysAppend(cfg, o, Verbatim(ch), [key]);
    KeysOne(cfg, typed, key);
    assert IsChar(cfg.utf, ch);
    hide Keys, DropChar, KillWord, IsChar;
    DropCharOfTyped(cfg.utf, o.buf, ch);
    assert o.sent + [] == o.sent;
  }

  lemma BackspaceOnEmptyLine(cfg: Config, o: Outcome, key: int)
    requires !o.quotenext && o.buf == [] && (key == 0x108 || key == 0x17F)
    ensures Keys(cfg, o, [key]) == o
  {
    KeysOne(cfg, o, key);
    hide Keys, KillWord;
    assert o.sent + [] == o.sent;
  }

  predicate IsBlank(c: Byte) {
    c in [9, 10, 11, 12, 13, 32]
  }

  predicate WordStartsAt(buf: seq<Byte>, n: nat)
    requires 0 < n < |buf|
  {
    IsBlank(buf[n - 1]) && !IsBlank(buf[n])
  }

  /** ^W leaves the longest proper prefix that is empty or has a word starting behind it. */
  lemma WordIsKilled(cfg: Config, o: Outcome)
    requires !o.quotenext
    ensures var r := Keys(cfg, o, [0x17]);
            && r.sent == o.sent && !r.quotenext && r.buf <= o.buf
            && (o.buf != [] ==> |r.buf| < |o.buf|)
            && (0 < |r.buf| < |o.buf| ==> WordStartsAt(o.buf, |r.buf|))
            && forall k :: |r.buf| < k < |o.buf| ==> !WordStartsAt(o.buf, k)
  {
    KeysOne(cfg, o, 0x17);
    assert forall c: Byte :: IsBlank(c) == IsSpace(c);
    assert o.sent + [] == o.sent;
    if o.buf != [] {
      KillWordIsLongest(o.buf);
      var n := |KillWord(o.buf)|;
      hide Keys, DropChar, KillWord;
      forall k | n < k < |o.buf|
        ensures !WordStartsAt(o.buf, k)
      {
        assert !WordStart(o.buf, k);
      }
    }
  }

  /** ^U empties the line, and ^R leaves it as it is; neither sends anything. */
  lemma LineIsKilledOrShown(cfg: Config, o: Outcome)
    requires !o.quotenext
    ensures Keys(cfg, o, [0x15]) == o.(buf := [])
    ensures Keys(cfg, o, [0x12]) == o
  {
    KeysOne(cfg, o, 0x15);
    KeysOne(cfg, o, 0x12);
    hide Keys, DropChar, KillWord;
    assert o.sent + [] == o.sent;
  }

  /** Any other key is a character. */
  predicate IsOrdinary(cfg: Config, buf: seq<Byte>, c: int) {
    && c !in [0x108, 0x17F, 0x10D, 0x03, 0x04, 0x12, 0x15, 0x16, 0x17, 0x1A, 0x1C]
    && !(c == 10 && cfg.protocol.RawProtocol? && buf != [] && buf[|buf| - 1] == 13)
  }

  lemma OrdinaryIsEntered(cfg: Config, o: Outcome, c: int)
    requires 0 <= c && !o.quotenext && IsOrdinary(cfg, o.buf, c)
    ensures Keys(cfg, o, [c]) == o.(buf := o.buf + [c % 256])
  {
    KeysOne(cfg, o, c);
    hide Keys, DropChar, KillWord;
    assert o.sent + [] == o.sent;
  }

  // Sending.

  /** ^D sends the line as it is, or ends the session's input if there is none. */
  lemma LogoutSends(cfg: Config, o: Outcome)
    requires !o.quotenext
    ensures Keys(cfg, o, [0x04])
         == Outcome([], false, o.sent + [if o.buf != [] then Raw(o.buf) else Command(1, 0)])
  {
    KeysOne(cfg, o, 0x04);
    hide Keys, DropChar, KillWord;
  }

  /**
   * ^C, ^Z and ^\ give up the line, and say so with the special 7, erase line. They interrupt (11),
   * suspend (12) or abort (9), unless these keys are off: then each is a character.
   */
  lemma InterruptSends(cfg: Config, o: Outcome, key: int, code: nat)
    requires !o.quotenext
    requires (key == 0x03 && code == 11) || (key == 0x1A && code == 12) || (key == 0x1C && code == 9)
    ensures cfg.telnetKeyboard ==>
              Keys(cfg, o, [key]) == Outcome([], false, o.sent + [Command(7, 0), Command(code, 0)])
    ensures !cfg.telnetKeyboard ==> Keys(cfg, o, [key]) == Outcome([key], false, o.sent + [Command(7, 0)])
  {
    KeysOne(cfg, o, key);
    hide Keys, DropChar, KillWord;
  }

  /** What ends a line: CR LF, the special 14 of Telnet, or CR. */
  function LineEnd(cfg: Config): Write {
    match cfg.protocol
    case RawProtocol => Raw([0x0D, 0x0A])
    case Telnet => if cfg.telnetNewline then Command(14, 0) else Raw([0x0D])
    case OtherProtocol => Raw([0x0D])
  }

  function SentLine(cfg: Config, line: seq<Byte>): seq<Write> {
    (if line == [] then [] else [Raw(line)]) + [LineEnd(cfg)]
  }

  lemma EnterSends(cfg: Config, o: Outcome)
    requires !o.quotenext
    ensures Keys(cfg, o, [0x10D]) == Outcome([], false, o.sent + SentLine(cfg, o.buf))
  {
    KeysOne(cfg, o, 0x10D);
    hide Keys, DropChar, KillWord;
  }

  /** In a raw session, ^J behind a literal CR does the same for the line before the CR. */
  lemma LineFeedSends(cfg: Config, o: Outcome, line: seq<Byte>)
    requires !o.quotenext && cfg.protocol.RawProtocol? && o.buf == line + [0x0D]
    ensures Keys(cfg, o, [0x0A]) == Outcome([], false, o.sent + SentLine(cfg, line))
  {
    KeysOne(cfg, o, 0x0A);
    hide Keys, DropChar, KillWord;
    assert (line + [0x0D])[..|line|] == line;
  }

  // Whole strings.

  /** No byte of the text is a key of its own. */
  ghost predicate IsPlain(text: seq<Byte>) {
    forall i :: 0 <= i < |text| ==> text[i] !in [0x03, 0x04, 0x0A, 0x0D, 0x12, 0x15, 0x16, 0x17, 0x1A, 0x1C]
  }

  lemma {:induction false} PlainIsEntered(cfg: Config, o: Outcome, text: seq<Byte>)
    requires !o.quotenext && IsPlain(text)
    ensures Keys(cfg, o, text) == o.(buf := o.buf + text)
    decreases |text|
  {
    if text == [] {
      assert o.buf + text == o.buf;
    } else {
      var c, more := text[0], text[1..];
      assert IsOrdinary(cfg, o.buf, c) && IsPlain(more) && [c] + more == text;
      hide *;
      OrdinaryIsEntered(cfg, o, c);
      KeysFirst(cfg, o, c, more);
      PlainIsEntered(cfg, o.(buf := o.buf + [c]), more);
      Assoc(o.buf, [c], more);
    }
  }

  /** Lines, each with a CR behind it. */
  function WithReturns(lines: seq<seq<Byte>>): seq<Byte> {
    if lines == [] then [] else lines[0] + [0x0D] + WithReturns(lines[1..])
  }

  function SentLines(cfg: Config, lines: seq<seq<Byte>>): seq<Write> {
    if lines == [] then [] else SentLine(cfg, lines[0]) + SentLines(cfg, lines[1..])
  }

  /** The keys of a string: its bytes, or with 0x100 added if it names special keys; a CR that was not typed is Enter. */
  lemma KeysOfString(flagged: bool, interactive: bool, data: seq<Byte>, i: nat)
    requires i < |data|
    ensures |KeyCodes(flagged, interactive, data)| == |data|
    ensures KeyCodes(flagged, interactive, data)[i]
         == (data[i] as int) + if flagged || (data[i] == 0x0D && !interactive) then 0x100 else 0
  {
  }

  lemma PastedLine(line: seq<Byte>, rest: seq<Byte>)
    requires IsPlain(line)
    ensures KeyCodes(false, false, line + [0x0D] + rest) == line + [0x10D] + KeyCodes(false, false, rest)
  {
    var all := line + [0x0D] + rest;
    forall i | 0 <= i < |all|
      ensures KeyCodes(false, false, all)[i] == (line + [0x10D] + KeyCodes(false, false, rest))[i]
    {
      KeysOfString(false, false, all, i);
    }
  }

  /** Pasted lines are sent one after the other, each with its end; what follows the last one stays to be edited. */
  lemma {:induction false} PasteSendsLines(cfg: Config, o: Outcome, lines: seq<seq<Byte>>, last: seq<Byte>)
    requires !o.quotenext && o.buf == [] && IsPlain(last)
    requires forall i :: 0 <= i < |lines| ==> IsPlain(lines[i])
    ensures Keys(cfg, o, KeyCodes(false, false, WithReturns(lines) + last))
         == Outcome(last, false, o.sent + SentLines(cfg, lines))
    decreases |lines|
  {
    if lines == [] {
      assert WithReturns(lines) + last == last && KeyCodes(false, false, last) == last;
      assert o.sent + SentLines(cfg, lines) == o.sent && o.buf + last == last;
      hide *;
      PlainIsEntered(cfg, o, last);
    } else {
      var line, rest := lines[0], WithReturns(lines[1..]) + last;
      var typed := o.(buf := line);
      var next := Outcome([], false, o.sent + SentLine(cfg, line));
      assert IsPlain(line) && o.buf + line == line;
      assert WithReturns(lines) + last == line + [0x0D] + rest;
      assert o.sent + SentLines(cfg, lines) == next.sent + SentLines(cfg, lines[1..]);
      hide *;
      var codes: seq<int> := KeyCodes(false, false, rest);
      var front: seq<int> := line;
      PastedLine(line, rest);
      Assoc(front, [0x10D], codes);
      KeysAppend(cfg, o, front, [0x10D] + codes);
      PlainIsEntered(cfg, o, line);
      KeysFirst(cfg, typed, 0x10D, codes);
      EnterSends(cfg, typed);
      PasteSendsLines(cfg, next, lines[1..], last);
    }
  }

  // What is written.

  /** Without echo nothing is written, whatever the keys. */
  lemma {:induction false} NothingIsEchoed(cfg: Config, o: Outcome, cs: seq<int>)
    requires !cfg.echo && forall i :: 0 <= i < |cs| ==> 0 <= cs[i]
    ensures Echoes(cfg, o, cs) == []
    decreases |cs|
  {
    hide Key;
    if cs != [] {
      var k := Key(cfg, o.buf, o.quotenext, cs[0]);
      assert Echo(cfg, o.buf, o.quotenext, cs[0]) == [];
      NothingIsEchoed(cfg, Outcome(k.buf, k.quotenext, o.sent + k.sent), cs[1..]);
    }
  }

  function HexValue(d: Byte): int {
    if 0x30 <= d <= 0x39 then d - 0x30 else d - 0x41 + 10
  }

  /** A byte shows as itself, behind a caret, or as two hexadecimal digits in angle brackets. */
  lemma BytesAreShown(utf: bool, c: Byte)
    ensures c < 0x20 ==> Pwrite(utf, c) == [0x5E, c + 0x40]
    ensures c == 0x7F ==> Pwrite(utf, c) == [0x5E, 0x3F]
    ensures 0x20 <= c < 0x7F || c >= 0xA0 || (utf && c >= 0x80) ==> Pwrite(utf, c) == [c]
    ensures !utf && 0x80 <= c < 0xA0 ==>
              var w := Pwrite(utf, c);
              |w| == 4 && w[0] == 0x3C && w[3] == 0x3E && 16 * HexValue(w[1]) + HexValue(w[2]) == c
  {
  }

  /** ^R writes its own mark, a line break and the line once more; Enter only a line break. */
  lemma LineIsShownAgain(cfg: Config, buf: seq<Byte>)
    requires cfg.echo
    ensures Echo(cfg, buf, false, 0x12) == [0x5E, 0x52, 0x0D, 0x0A] + PwriteAll(cfg.utf, buf)
    ensures Echo(cfg, buf, false, 0x10D) == [0x0D, 0x0A] && Echo(cfg, buf, false, 0x04) == []
  {
    hide Key, PwriteAll;
  }
}
