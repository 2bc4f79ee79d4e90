/** Base64 (section 4 of RFC 4648): the line-wrapping encoder and the decoder whose atoms may span lines. */
module Base64 {
  import opened Base64Words
  import opened Bytes

  /** The characters the key loaders collect, the padding character included. */
  predicate IsBase64(c: char) {
    'A' <= c <= 'Z' || 'a' <= c <= 'z' || '0' <= c <= '9' || c == '+' || c == '/' || c == '='
  }

  function Digit(i: int): (c: char)
    requires 0 <= i < 64
    ensures IsBase64(c) && c != '='
  {
    if i < 26 then (i + 65) as char
    else if i < 52 then (i + 71) as char
    else if i < 62 then (i - 4) as char
    else if i == 62 then '+' else '/'
  }

  /** base64_encode_atom: one to three bytes become four characters. */
  function EncodeAtom(d: seq<Byte>): (s: string)
    requires 1 <= |d| <= 3
    ensures |s| == 4 && forall i :: 0 <= i < 4 ==> IsBase64(s[i])
  {
    var word := d[0] as int * 0x10000 + (if |d| > 1 then d[1] as int * 0x100 else 0) + (if |d| > 2 then d[2] else 0);
    [Digit(word / 0x40000 % 64), Digit(word / 0x1000 % 64),
     if |d| > 1 then Digit(word / 64 % 64) else '=', if |d| > 2 then Digit(word % 64) else '=']
  }

  /** The value of a character, -1 for padding; None for any other character. */
  function DigitValue(c: char): (v: Option<int>)
    ensures v.Some? ==> -1 <= v.value < 64
  {
    if 'A' <= c <= 'Z' then Some(c as int - 65)
    else if 'a' <= c <= 'z' then Some(c as int - 71)
    else if '0' <= c <= '9' then Some(c as int + 4)
    else if c == '+' then Some(62)
    else if c == '/' then Some(63)
    else if c == '=' then Some(-1)
    else None
  }

  /** base64_decode_atom; None where it returns 0. */
  function DecodeAtom(s: string): (d: Option<seq<Byte>>)
    requires |s| == 4
    ensures d.Some? ==> 1 <= |d.value| <= 3
  {
    var v0, v1, v2, v3 := DigitValue(s[0]), DigitValue(s[1]), DigitValue(s[2]), DigitValue(s[3]);
    if v0.None? || v1.None? || v2.None? || v3.None? then None
    else if v0.value == -1 || v1.value == -1 then None
    else if v2.value == -1 && v3.value != -1 then None
    else
      var word := v0.value * 0x40000 + v1.value * 0x1000 + v2.value % 64 * 64 + v3.value % 64;
      var out := OutBytes(word);
      Some(if v3.value != -1 then out else if v2.value != -1 then out[..2] else out[..1])
  }

  function OutBytes(word: int): (out: seq<Byte>)
    ensures |out| == 3
  {
    [word / 0x10000 % 0x100, word / 0x100 % 0x100, word % 0x100]
  }

  lemma DigitValueOfDigit(i: int)
    requires 0 <= i < 64
    ensures DigitValue(Digit(i)) == Some(i)
  {
  }

  lemma DecodeAtomOfEncode(d: seq<Byte>)
    requires 1 <= |d| <= 3
    ensures DecodeAtom(EncodeAtom(d)) == Some(d)
  {
    if |d| == 1 {
      DecodeOneByte(d[0]);
      assert d == [d[0]];
    } else if |d| == 2 {
      DecodeTwoBytes(d[0], d[1]);
      assert d == [d[0], d[1]];
    } else {
      DecodeThreeBytes(d[0], d[1], d[2]);
      assert d == [d[0], d[1], d[2]];
    }
  }

  lemma DecodeOneByte(b0: Byte)
    ensures DecodeAtom(EncodeAtom([b0])) == Some([b0])
  {
    hide DecodeAtom, EncodeAtom, Digit;
    var t0, t1 := EncodeOneByte(b0);
    AtomWord(t0, t1, -1, -1, b0, 0xF, 0xFF);
    assert [b0, 0xF, 0xFF][..1] == [b0];
  }

  lemma EncodeOneByte(b0: Byte) returns (t0: int, t1: int)
    ensures 0 <= t0 < 64 && 0 <= t1 < 64
    ensures EncodeAtom([b0]) == [Digit(t0), Digit(t1), '=', '=']
    ensures (t0 * 64 + t1) * 0x1000 == b0 as int * 0x10000
  {
    var word := b0 as int * 0x10000;
    t0, t1 := word / 0x40000 % 64, word / 0x1000 % 64;
    OneByteWord(b0);
  }

  lemma DecodeTwoBytes(b0: Byte, b1: Byte)
    ensures DecodeAtom(EncodeAtom([b0, b1])) == Some([b0, b1])
  {
    hide DecodeAtom, EncodeAtom, Digit;
    var t0, t1, t2 := EncodeTwoBytes(b0, b1);
    AtomWord(t0, t1, t2, -1, b0, b1, 63);
    assert [b0, b1, 63][..2] == [b0, b1];
  }

  lemma EncodeTwoBytes(b0: Byte, b1: Byte) returns (t0: int, t1: int, t2: int)
    ensures 0 <= t0 < 64 && 0 <= t1 < 64 && 0 <= t2 < 64
    ensures EncodeAtom([b0, b1]) == [Digit(t0), Digit(t1), Digit(t2), '=']
    ensures ((t0 * 64 + t1) * 64 + t2) * 64 == b0 as int * 0x10000 + b1 as int * 0x100
  {
    var word := b0 as int * 0x10000 + b1 as int * 0x100;
    t0, t1, t2 := word / 0x40000 % 64, word / 0x1000 % 64, word / 64 % 64;
    TwoByteWord(b0, b1);
  }

  lemma DecodeThreeBytes(b0: Byte, b1: Byte, b2: Byte)
    ensures DecodeAtom(EncodeAtom([b0, b1, b2])) == Some([b0, b1, b2])
  {
    hide DecodeAtom, EncodeAtom, Digit;
    var t0, t1, t2, t3 := EncodeThreeBytes(b0, b1, b2);
    AtomWord(t0, t1, t2, t3, b0, b1, b2);
  }

  lemma EncodeThreeBytes(b0: Byte, b1: Byte, b2: Byte) returns (t0: int, t1: int, t2: int, t3: int)
    ensures 0 <= t0 < 64 && 0 <= t1 < 64 && 0 <= t2 < 64 && 0 <= t3 < 64
    ensures EncodeAtom([b0, b1, b2]) == [Digit(t0), Digit(t1), Digit(t2), Digit(t3)]
    ensures ((t0 * 64 + t1) * 64 + t2) * 64 + t3 == b0 as int * 0x10000 + b1 as int * 0x100 + b2
  {
    var word := b0 as int * 0x10000 + b1 as int * 0x100 + b2;
    t0, t1, t2, t3 := word / 0x40000 % 64, word / 0x1000 % 64, word / 64 % 64, word % 64;
    FourDigits(word);
  }

  function DigitOrPad(v: int): char
    requires -1 <= v < 64
  {
    if v == -1 then '=' else Digit(v)
  }

  /** The word the decoder assembles, as the three bytes it is cut into. */
  lemma AtomWord(v0: int, v1: int, v2: int, v3: int, b0: Byte, b1: Byte, b2: Byte)
    requires 0 <= v0 < 64 && 0 <= v1 < 64 && -1 <= v2 < 64 && -1 <= v3 < 64 && (v2 == -1 ==> v3 == -1)
    requires ((v0 * 64 + v1) * 64 + v2 % 64) * 64 + v3 % 64 == b0 as int * 0x10000 + b1 as int * 0x100 + b2
    ensures DecodeAtom([DigitOrPad(v0), DigitOrPad(v1), DigitOrPad(v2), DigitOrPad(v3)])
         == Some(if v3 != -1 then [b0, b1, b2] else if v2 != -1 then [b0, b1, b2][..2] else [b0, b1, b2][..1])
  {
    Octets(b0, b1, b2);
    DigitValueOfDigit(v0);
    DigitValueOfDigit(v1);
    if v2 != -1 {
      DigitValueOfDigit(v2);
    }
    if v3 != -1 {
      DigitValueOfDigit(v3);
    }
  }

  // Which atoms there are, whoever wrote them.

  function Quarter(k: nat): (s: string)
    requires k < 4
    ensures |s| == 16
  {
    if k == 0 then "ABCDEFGHIJKLMNOP" else if k == 1 then "QRSTUVWXYZabcdef"
    else if k == 2 then "ghijklmnopqrstuv" else "wxyz0123456789+/"
  }

  function Alphabet(): (s: string)
    ensures |s| == 64
  {
    Quarter(0) + Quarter(1) + Quarter(2) + Quarter(3)
  }

  lemma QuarterIs(i: int)
    requires 0 <= i < 16
    ensures Quarter(0)[i] == Digit(i) && Quarter(1)[i] == Digit(16 + i)
    ensures Quarter(2)[i] == Digit(32 + i) && Quarter(3)[i] == Digit(48 + i)
  {
  }

  lemma AlphabetIs(i: int)
    requires 0 <= i < 64
    ensures Alphabet()[i] == Digit(i)
  {
    hide *;
    QuarterIs(i % 16);
    AlphabetParts();
    InQuarters(Quarter(0), Quarter(1), Quarter(2), Quarter(3), i);
  }

  lemma AlphabetParts()
    ensures Alphabet() == Quarter(0) + Quarter(1) + Quarter(2) + Quarter(3)
  {
    hide Quarter;
  }

  lemma InQuarters(a: string, b: string, c: string, d: string, i: int)
    requires |a| == 16 && |b| == 16 && |c| == 16 && |d| == 16 && 0 <= i < 64
    ensures (a + b + c + d)[i] == (if i < 16 then a else if i < 32 then b else if i < 48 then c else d)[i % 16]
    ensures i % 16 == (if i < 16 then i else if i < 32 then i - 16 else if i < 48 then i - 32 else i - 48)
  {
  }

  lemma InAlphabet(c: char) returns (i: int)
    requires DigitValue(c).Some? && c != '='
    ensures 0 <= i < 64 && DigitValue(c) == Some(i) && c == Digit(i)
  {
    i := DigitValue(c).value;
  }

  predicate IsDigit(c: char) {
    c in Alphabet()
  }

  lemma DigitsAre(c: char)
    ensures IsDigit(c) <==> DigitValue(c).Some? && c != '='
    ensures DigitValue('=') == Some(-1) && (DigitValue(c) == Some(-1) ==> c == '=')
  {
    hide Alphabet;
    AlphabetIs(0);
    if DigitValue(c).Some? && c != '=' {
      var i := InAlphabet(c);
      AlphabetIs(i);
    }
    if IsDigit(c) {
      var i :| 0 <= i < |Alphabet()| && c == Alphabet()[i];
      AlphabetIs(i);
      DigitValueOfDigit(i);
    }
  }

  /** Padding stands in the last place, or in the last two, and everything else is a digit. */
  lemma AtomIsGoodIff(s: string)
    requires |s| == 4
    ensures DecodeAtom(s).Some? <==> IsDigit(s[0]) && IsDigit(s[1]) && (if s[2] == '=' then s[3] == '=' else IsDigit(s[2]))
                                     && (s[3] == '=' || IsDigit(s[3]))
  {
    DigitsAre(s[0]);
    DigitsAre(s[1]);
    DigitsAre(s[2]);
    DigitsAre(s[3]);
    hide DigitValue, IsDigit;
  }

  /** Four digits of six bits, cut into three bytes. */
  function Cut(a: nat, b: nat, c: nat, d: nat): (q: seq<Byte>)
    requires a < 64 && b < 64 && c < 64 && d < 64
    ensures |q| == 3
  {
    [a * 4 + b / 16, b % 16 * 16 + c / 4, c % 4 * 64 + d]
  }

  lemma CutWord(a: nat, b: nat, c: nat, d: nat)
    requires a < 64 && b < 64 && c < 64 && d < 64
    ensures var q := Cut(a, b, c, d);
            ((a * 64 + b) * 64 + c) * 64 + d == q[0] as int * 0x10000 + q[1] as int * 0x100 + q[2]
  {
    assert b == b / 16 * 16 + b % 16 && c == c / 4 * 4 + c % 4;
  }

  lemma CutFront(a: nat, b: nat, c: nat, d: nat)
    requires a < 64 && b < 64 && c < 64 && d < 64
    ensures Cut(a, b, c, d)[..2] == Cut(a, b, c, 0)[..2] && Cut(a, b, c, d)[..1] == Cut(a, b, 0, 0)[..1]
  {
  }

  lemma PlaceInAlphabet(a: int)
    requires -1 <= a < 64
    ensures DigitOrPad(a) == if a == -1 then '=' else Alphabet()[a]
  {
    hide Alphabet, Digit;
    if a >= 0 {
      AlphabetIs(a);
    }
  }

  lemma AtomByDigits(a: nat, b: nat, c: int, d: int, c': nat, d': nat)
    requires a < 64 && b < 64 && -1 <= c < 64 && -1 <= d < 64 && (c == -1 ==> d == -1)
    requires c' == (if c == -1 then 63 else c) && d' == (if d == -1 then 63 else d)
    ensures var q := Cut(a, b, c', d');
            DecodeAtom([DigitOrPad(a), DigitOrPad(b), DigitOrPad(c), DigitOrPad(d)])
            == Some(if d != -1 then q else if c != -1 then q[..2] else q[..1])
  {
    hide *;
    var q := Cut(a, b, c', d');
    CutWord(a, b, c', d');
    assert q == [q[0], q[1], q[2]];
    AtomWord(a, b, c, d, q[0], q[1], q[2]);
  }

  /** What an atom says, bit for bit; with padding its last digit may hold bits that are dropped. */
  lemma AtomSays(a: nat, b: nat, c: nat, d: nat)
    requires a < 64 && b < 64 && c < 64 && d < 64
    ensures var A, B, C, D := Alphabet()[a], Alphabet()[b], Alphabet()[c], Alphabet()[d];
            && DecodeAtom([A, B, C, D]) == Some(Cut(a, b, c, d))
            && DecodeAtom([A, B, C, '=']) == Some(Cut(a, b, c, 0)[..2])
            && DecodeAtom([A, B, '=', '=']) == Some(Cut(a, b, 0, 0)[..1])
  {
    hide *;
    PlaceInAlphabet(a);
    PlaceInAlphabet(b);
    PlaceInAlphabet(c);
    PlaceInAlphabet(d);
    PlaceInAlphabet(-1);
    AtomByDigits(a, b, c, d, c, d);
    AtomByDigits(a, b, c, -1, c, 63);
    AtomByDigits(a, b, -1, -1, 63, 63);
    CutFront(a, b, c, 63);
    CutFront(a, b, 63, 63);
  }

  /** All the characters of an encoding, before line breaks. */
  function EncodeChars(data: seq<Byte>): (s: string)
    ensures forall i :: 0 <= i < |s| ==> IsBase64(s[i])
  {
    if data == [] then ""
    else
      var n := if |data| < 3 then |data| else 3;
      EncodeAtom(data[..n]) + EncodeChars(data[n..])
  }

  /** Text cut into lines of `cpl` characters, each ended by a newline. */
  function WrapLines(s: string, cpl: nat): string
    requires cpl > 0
    decreases |s|
  {
    if |s| <= cpl then s + "\n" else s[..cpl] + "\n" + WrapLines(s[cpl..], cpl)
  }

  /** The encoder's character-at-a-time wrapping, `linelen` characters into a line; a width of 0 means no wrapping. */
  function Wrap(s: string, linelen: nat, cpl: nat): string {
    if s == "" then ""
    else if cpl > 0 && linelen >= cpl then "\n" + [s[0]] + Wrap(s[1..], 1, cpl)
    else [s[0]] + Wrap(s[1..], linelen + 1, cpl)
  }

  lemma {:induction false} WrapMakesLines(s: string, linelen: nat, cpl: nat)
    requires 0 < cpl && linelen <= cpl
    ensures Wrap(s, linelen, cpl) + "\n"
         == if |s| <= cpl - linelen then s + "\n"
            else s[..cpl - linelen] + "\n" + WrapLines(s[cpl - linelen..], cpl)
    decreases |s|
  {
    if s == "" {
    } else if linelen == cpl {
      WrapMakesLines(s[1..], 1, cpl);
      WrapFullLine(s, cpl);
    } else {
      WrapMakesLines(s[1..], linelen + 1, cpl);
      assert Wrap(s, linelen, cpl) == [s[0]] + Wrap(s[1..], linelen + 1, cpl);
      hide Wrap, WrapLines;
      Assoc([s[0]], Wrap(s[1..], linelen + 1, cpl), "\n");
      PrependToPart(s, cpl - linelen, cpl);
    }
  }

  /** A character put in front of the rest of a line that has room for it. */
  lemma PrependToPart(s: string, room: nat, cpl: nat)
    requires s != "" && 0 < room && 0 < cpl
    ensures [s[0]] + (if |s[1..]| <= room - 1 then s[1..] + "\n"
                      else s[1..][..room - 1] + "\n" + WrapLines(s[1..][room - 1..], cpl))
         == if |s| <= room then s + "\n" else s[..room] + "\n" + WrapLines(s[room..], cpl)
  {
    hide WrapLines;
    if |s| > room {
      assert s[..room] == [s[0]] + s[1..][..room - 1];
      assert s[1..][room - 1..] == s[room..];
      Assoc([s[0]], s[1..][..room - 1], "\n");
      Assoc([s[0]], s[1..][..room - 1] + "\n", WrapLines(s[room..], cpl));
    } else {
      assert s == [s[0]] + s[1..];
      Assoc([s[0]], s[1..], "\n");
    }
  }

  lemma WrapFromStart(s: string, cpl: nat)
    requires 0 < cpl
    ensures Wrap(s, 0, cpl) + "\n" == WrapLines(s, cpl)
  {
    WrapMakesLines(s, 0, cpl);
  }

  lemma WrapFullLine(s: string, cpl: nat)
    requires 0 < cpl && s != ""
    requires Wrap(s[1..], 1, cpl) + "\n"
          == if |s[1..]| <= cpl - 1 then s[1..] + "\n"
             else s[1..][..cpl - 1] + "\n" + WrapLines(s[1..][cpl - 1..], cpl)
    ensures Wrap(s, cpl, cpl) + "\n" == s[..0] + "\n" + WrapLines(s[0..], cpl)
  {
    var t := s[1..];
    assert s == [s[0]] + t && s[..0] == "" && s[0..] == s;
    PrependToLines(s[0], t, cpl);
    assert "\n" + [s[0]] + Wrap(t, 1, cpl) == Wrap(s, cpl, cpl);
    hide Wrap, WrapLines;
    Assoc("\n" + [s[0]], Wrap(t, 1, cpl), "\n");
    Assoc("\n", [s[0]], Wrap(t, 1, cpl) + "\n");
  }

  /** A character put in front of a first line that was one short. */
  lemma PrependToLines(c: char, t: string, cpl: nat)
    requires 0 < cpl
    ensures [c] + (if |t| <= cpl - 1 then t + "\n" else t[..cpl - 1] + "\n" + WrapLines(t[cpl - 1..], cpl))
         == WrapLines([c] + t, cpl)
  {
    var s := [c] + t;
    if |s| > cpl {
      assert s[..cpl] == [c] + t[..cpl - 1] && s[cpl..] == t[cpl - 1..];
      Assoc([c], t[..cpl - 1], "\n");
      Assoc([c], t[..cpl - 1] + "\n", WrapLines(s[cpl..], cpl));
    } else {
      Assoc([c], t, "\n");
    }
  }

  /** A loader's carry: up to three characters of an unfinished atom, and the bytes decoded so far. */
  datatype Body = Body(bit: string, blob: seq<Byte>) {
    ghost predicate Valid() {
      |bit| < 4
    }
  }

  /** The base64 prefix of one line is fed to the carry; None for an invalid atom. */
  function Feed(b: Body, line: string): (r: Option<Body>)
    requires b.Valid()
    ensures r.Some? ==> r.value.Valid()
    decreases |line|
  {
    if line == "" || !IsBase64(line[0]) then Some(b)
    else
      var bit := b.bit + [line[0]];
      if |bit| < 4 then Feed(Body(bit, b.blob), line[1..])
      else
        match DecodeAtom(bit)
        case None => None
        case Some(out) => Feed(Body("", b.blob + out), line[1..])
  }

  ghost predicate AllBase64(s: string) {
    forall i :: 0 <= i < |s| ==> IsBase64(s[i])
  }

  /** Line breaks do not matter: feeding two lines is feeding their concatenation. */
  lemma {:induction false} FeedTwoLines(b: Body, s: string, t: string)
    requires b.Valid() && AllBase64(s)
    ensures Feed(b, s + t) == match Feed(b, s) case None => None case Some(c) => Feed(c, t)
    decreases |s|
  {
    if s == "" {
      assert s + t == t;
    } else {
      assert (s + t)[1..] == s[1..] + t;
      var bit := b.bit + [s[0]];
      if |bit| < 4 {
        FeedTwoLines(Body(bit, b.blob), s[1..], t);
      } else if DecodeAtom(bit).Some? {
        FeedTwoLines(Body("", b.blob + DecodeAtom(bit).value), s[1..], t);
      }
    }
  }

  lemma FeedAtom(blob: seq<Byte>, d: seq<Byte>)
    requires 1 <= |d| <= 3
    ensures Feed(Body("", blob), EncodeAtom(d)) == Some(Body("", blob + d))
  {
    var s := EncodeAtom(d);
    DecodeAtomOfEncode(d);
    hide *;
    FeedFills(Body("", blob), s);
    assert "" + s == s;
  }

  /** Characters that fill up an atom. */
  lemma {:induction false} FeedFills(b: Body, s: string)
    requires b.Valid() && AllBase64(s) && |b.bit| + |s| == 4
    ensures Feed(b, s) == match DecodeAtom(b.bit + s)
                          case None => None
                          case Some(out) => Some(Body("", b.blob + out))
    decreases |s|
  {
    hide DecodeAtom, IsBase64;
    var bit, rest := b.bit + [s[0]], s[1..];
    assert bit + rest == b.bit + s && IsBase64(s[0]);
    if rest == "" {
      assert bit == b.bit + s;
    } else {
      FeedFills(Body(bit, b.blob), rest);
    }
  }

  /** The loader's carry recovers exactly the encoded bytes. */
  lemma {:induction false} FeedOfEncode(blob: seq<Byte>, data: seq<Byte>)
    ensures Feed(Body("", blob), EncodeChars(data)) == Some(Body("", blob + data))
    decreases |data|
  {
    if data == [] {
      assert blob + data == blob;
    } else {
      var n := if |data| < 3 then |data| else 3;
      FeedTwoLines(Body("", blob), EncodeAtom(data[..n]), EncodeChars(data[n..]));
      FeedAtom(blob, data[..n]);
      FeedOfEncode(blob + data[..n], data[n..]);
      Assoc(blob, data[..n], data[n..]);
      assert data[..n] + data[n..] == data;
    }
  }

  /** The inner loop of base64_encode_bs; `rest` is what will be written after this atom. */
  method PutAtom(text: string, atom: string, linelen: nat, cpl: nat, ghost rest: string)
    returns (text': string, linelen': nat)
    requires cpl > 0 ==> linelen <= cpl
    ensures cpl > 0 ==> linelen' <= cpl
    ensures text' + Wrap(rest, linelen', cpl) == text + Wrap(atom + rest, linelen, cpl)
  {
    text', linelen' := text, linelen;
    var i := 0;
    assert atom[0..] == atom;
    while i < |atom|
      invariant 0 <= i <= |atom| && (cpl > 0 ==> linelen' <= cpl)
      invariant text' + Wrap(atom[i..] + rest, linelen', cpl) == text + Wrap(atom + rest, linelen, cpl)
    {
      ghost var tail := atom[i + 1..] + rest;
      assert atom[i..] + rest == [atom[i]] + tail;
      WrapStep(text', atom[i], tail, linelen', cpl);
      if cpl > 0 && linelen' >= cpl {
        linelen' := 0;
        text' := text' + "\n";
      }
      text' := text' + [atom[i]];
      linelen' := linelen' + 1;
      i := i + 1;
    }
    assert atom[|atom|..] + rest == rest;
  }

  lemma WrapStep(text: string, c: char, tail: string, linelen: nat, cpl: nat)
    ensures text + Wrap([c] + tail, linelen, cpl)
         == if cpl > 0 && linelen >= cpl then text + "\n" + [c] + Wrap(tail, 1, cpl)
            else text + [c] + Wrap(tail, linelen + 1, cpl)
  {
    assert ([c] + tail)[1..] == tail;
    if cpl > 0 && linelen >= cpl {
      Assoc(text + "\n", [c], Wrap(tail, 1, cpl));
      Assoc(text, "\n", [c] + Wrap(tail, 1, cpl));
      Assoc("\n", [c], Wrap(tail, 1, cpl));
    } else {
      Assoc(text, [c], Wrap(tail, linelen + 1, cpl));
    }
  }

  lemma EncodeStep(data: seq<Byte>, pos: nat, n: nat)
    requires pos < |data| && n == if |data| - pos < 3 then |data| - pos else 3
    ensures EncodeChars(data[pos..]) == EncodeAtom(data[pos..pos + n]) + EncodeChars(data[pos + n..])
  {
    assert data[pos..][..n] == data[pos..pos + n] && data[pos..][n..] == data[pos + n..];
  }

  lemma NothingToWrap(data: seq<Byte>, pos: nat, text: string, linelen: nat, cpl: nat)
    requires pos == |data|
    ensures text + Wrap(EncodeChars(data[pos..]), linelen, cpl) == text
  {
    assert text + "" == text;
  }

  /** A width of 0 leaves the text in one piece. */
  lemma {:induction false} WrapNothing(s: string, linelen: nat)
    ensures Wrap(s, linelen, 0) == s
    decreases |s|
  {
    if s != "" {
      WrapNothing(s[1..], linelen + 1);
    }
  }

  /** base64_encode_bs. */
  method Encode(data: seq<Byte>, cpl: nat) returns (text: string)
    ensures text == if cpl == 0 then EncodeChars(data) else WrapLines(EncodeChars(data), cpl)
  {
    text := "";
    var linelen := 0;
    var pos := 0;
    assert data[0..] == data;
    assert text + Wrap(EncodeChars(data), 0, cpl) == Wrap(EncodeChars(data), 0, cpl);
    hide *;
    while pos < |data|
      invariant 0 <= pos <= |data| && 0 <= linelen && (cpl > 0 ==> linelen <= cpl)
      invariant text + Wrap(EncodeChars(data[pos..]), linelen, cpl) == Wrap(EncodeChars(data), 0, cpl)
    {
      var n := if |data| - pos < 3 then |data| - pos else 3;
      EncodeStep(data, pos, n);
      ghost var rest := EncodeChars(data[pos + n..]);
      var atom := EncodeAtom(data[pos..pos + n]);
      text, linelen := PutAtom(text, atom, linelen, cpl, rest);
      pos := pos + n;
    }
    NothingToWrap(data, pos, text, linelen, cpl);
    if cpl > 0 {
      text := text + "\n";
      WrapFromStart(EncodeChars(data), cpl);
    } else {
      WrapNothing(EncodeChars(data), 0);
    }
  }

  /** The character loop that every loader runs over a line of the body. */
  method FeedLine(bit: string, blob: seq<Byte>, line: string) returns (ok: bool, bit': string, blob': seq<Byte>)
    requires |bit| < 4
    ensures |bit'| < 4
    ensures Feed(Body(bit, blob), line) == if ok then Some(Body(bit', blob')) else None
  {
    bit', blob' := bit, blob;
    var p := 0;
    assert line[0..] == line;
    while p < |line| && IsBase64(line[p])
      invariant 0 <= p <= |line| && |bit'| < 4
      invariant Feed(Body(bit', blob'), line[p..]) == Feed(Body(bit, blob), line)
    {
      assert line[p..][0] == line[p] && line[p..][1..] == line[p + 1..];
      bit' := bit' + [line[p]];
      if |bit'| == 4 {
        var out := DecodeAtom(bit');
        bit' := "";
        if out.None? {
          return false, bit', blob';
        }
        blob' := blob' + out.value;
      }
      p := p + 1;
    }
    ok := true;
  }
}
