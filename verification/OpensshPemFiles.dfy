/** PEM files that other programs write: either cipher, any line width, and headers the loader does not know. */
module OpensshPemFiles {
  import opened Bytes
  import opened Marshal
  import opened Ber
  import opened Base64
  import opened KeyText
  import opened Keys
  import opened OpensshPem
  import opened OpensshPemRoundTrip

  // The text of an encrypted file.

  function KindName(parts: Parts): string {
    match parts
    case RsaParts(_, _, _, _, _, _) => "RSA"
    case DsaParts(_, _, _, _, _) => "DSA"
    case EcParts(_, _, _) => "EC"
  }

  function CipherName(e: Encryption): string {
    if e == Des3 then "DES-EDE3-CBC," else "AES-128-CBC,"
  }

  /** The bytes of an iv, which is also the length of a block. */
  function IvLength(e: Encryption): nat {
    if e == Des3 then 8 else 16
  }

  predicate IsHexDigit(c: char, v: int)
    requires 0 <= v < 16
  {
    c == "0123456789ABCDEF"[v] || c == "0123456789abcdef"[v]
  }

  /** Hexadecimal in either case. */
  predicate IsHexOf(hex: string, b: seq<Byte>) {
    if b == [] then hex == ""
    else |hex| >= 2 && IsHexDigit(hex[0], b[0] / 16) && IsHexDigit(hex[1], b[0] % 16) && IsHexOf(hex[2..], b[1..])
  }

  function EncryptedFile(parts: Parts, e: Encryption, hex: string, body: seq<Byte>, cpl: nat): string
    requires cpl > 0
  {
    "-----BEGIN " + (KindName(parts) + " PRIVATE KEY-----") + "\n"
    + ("Proc-Type" + ": " + "4,ENCRYPTED" + "\n"
       + ("DEK-Info" + ": " + (CipherName(e) + hex) + "\n"
          + ("" + "\n"
             + (WrapLines(EncodeChars(body), cpl)
                + ("-----END " + (KindName(parts) + " PRIVATE KEY-----") + "\n")))))
  }

  // Reading it.

  lemma HexDigitHasValue(c: char, v: int)
    requires 0 <= v < 16 && IsHexDigit(c, v)
    ensures HexValue(c) == Some(v)
  {
  }

  lemma Nibbles(b: Byte)
    ensures b / 16 * 16 + b % 16 == b
  {
  }

  lemma {:induction false} ReadHexOf(hex: string, b: seq<Byte>)
    requires IsHexOf(hex, b)
    ensures ReadHex(hex, |b|) == Some((b, ""))
    decreases |b|
  {
    if b != [] {
      HexDigitHasValue(hex[0], b[0] / 16);
      HexDigitHasValue(hex[1], b[0] % 16);
      hide HexValue, IsHexDigit;
      Nibbles(b[0]);
      ReadHexOf(hex[2..], b[1..]);
      assert b == [b[0]] + b[1..];
    }
  }

  lemma {:induction false} HexIsClean(hex: string, b: seq<Byte>)
    requires IsHexOf(hex, b)
    ensures forall i :: 0 <= i < |hex| ==> HexValue(hex[i]).Some?
  {
    if b != [] {
      HexDigitHasValue(hex[0], b[0] / 16);
      HexDigitHasValue(hex[1], b[0] % 16);
      hide HexValue, IsHexDigit;
      HexIsClean(hex[2..], b[1..]);
      forall i | 0 <= i < |hex|
        ensures HexValue(hex[i]).Some?
      {
        assert i >= 2 ==> hex[2..][i - 2] == hex[i];
      }
    }
  }

  lemma DekHeader(st: Loaded, e: Encryption, hex: string, iv: seq<Byte>)
    requires st.Valid() && |iv| == IvLength(e) && IsHexOf(hex, iv)
    ensures HeaderField(st, "DEK-Info", CipherName(e) + hex)
         == Success(st.(encryption := e, iv := iv + st.iv[|iv|..]))
  {
    var value := CipherName(e) + hex;
    var n := |CipherName(e)|;
    assert value[..n] == CipherName(e) && value[n..] == hex;
    assert e == Aes ==> value[0] == 'A' && DES_CBC[0] == 'D';
    hide IsHexOf, ReadHex;
    ReadHexOf(hex, iv);
  }

  /** A header line of one known name. */
  lemma HeaderLine(st: Loaded, name: string, value: string)
    requires st.Valid() && !st.headersDone
    requires Find(name, ':') == |name| && name != "" && name[0] != '-'
    requires value != "" && !IsSpace(value[0] as int)
    ensures !IsEnd(name + ": " + value)
    ensures Line(st, name + ": " + value) == HeaderField(st, name, value)
  {
    hide *;
    var line := name + ": " + value;
    NotEnd(line);
    SplitHeader(name, value);
    LineAtColon(st, line, |name|);
  }

  lemma LineAtColon(st: Loaded, line: string, colon: nat)
    requires st.Valid() && !st.headersDone && Find(line, ':') == colon < |line|
    ensures Line(st, line) == HeaderField(st, line[..colon], SkipSpaces(line[colon + 1..]))
  {
    hide HeaderField, SkipSpaces, Find;
  }

  /** Reading one header line off the text. */
  lemma HeaderTurn(st: Loaded, name: string, value: string, tail: string)
    requires st.Valid() && !st.headersDone
    requires Find(name, ':') == |name| && name != "" && name[0] != '-'
    requires value != "" && !IsSpace(value[0] as int) && Clean(name + ": " + value)
    ensures Lines(st, name + ": " + value + "\n" + tail)
         == var h := HeaderField(st, name, value); if h.Failure? then h else Lines(h.value, tail)
  {
    HeaderLine(st, name, value);
    NextLineOfWritten(name + ": " + value, tail);
    hide NextLine, IsEnd, HeaderField, Line, Clean;
  }

  /** The blank line, the body in lines of any width, and the END line. */
  lemma BodyIsLoaded(st: Loaded, kt: KeyType, body: seq<Byte>, cpl: nat)
    requires st.Valid() && st.body == Body("", []) && cpl > 0
    ensures Lines(st, WrapLines(EncodeChars(body), cpl) + (EndLine(kt) + "\n"))
         == Success(st.(headersDone := true, body := Body("", body)))
  {
    assert AllBase64(EncodeChars(body)) && st.(headersDone := true, body := Body("", body)).Valid();
    hide *;
    BodyLines(st, EncodeChars(body), cpl, EndLine(kt) + "\n");
    FeedOfEncode([], body);
    assert [] + body == body;
    EndStops(st.(headersDone := true, body := Body("", body)), kt);
  }

  lemma BlankLine(st: Loaded, tail: string)
    requires st.Valid()
    ensures Lines(st, "" + "\n" + tail) == Lines(st.(headersDone := true), tail)
  {
    hide Lines;
    BodyLine(st, "", tail);
  }

  lemma NoColon(s: string)
    requires ':' !in s
    ensures Find(s, ':') == |s|
  {
    FindIs(s, ':', |s|);
  }

  lemma EncryptedHeader(st: Loaded)
    requires st.Valid()
    ensures HeaderField(st, "Proc-Type", "4,ENCRYPTED") == Success(st.(encrypted := true))
  {
    ProcTypeValue(st);
  }

  lemma ProcTypeTurn(st: Loaded, tail: string)
    requires st.Valid() && !st.headersDone
    ensures Lines(st, "Proc-Type" + ": " + "4,ENCRYPTED" + "\n" + tail) == Lines(st.(encrypted := true), tail)
  {
    var name, value := "Proc-Type", "4,ENCRYPTED";
    assert ':' !in name && name[0] == 'P' && value[0] == '4';
    hide *;
    NoColon(name);
    CleanHeaders();
    EncryptedHeader(st);
    HeaderTurn(st, name, value, tail);
  }

  lemma DekTurn(st: Loaded, e: Encryption, hex: string, iv: seq<Byte>, tail: string)
    requires st.Valid() && !st.headersDone && |iv| == IvLength(e) && IsHexOf(hex, iv)
    ensures Lines(st, "DEK-Info" + ": " + (CipherName(e) + hex) + "\n" + tail)
         == Lines(st.(encryption := e, iv := iv + st.iv[|iv|..]), tail)
  {
    var st' := st.(encryption := e, iv := iv + st.iv[|iv|..]);
    assert st'.Valid();
    var name, value := "DEK-Info", CipherName(e) + hex;
    hide *;
    DekName();
    CipherNames(e);
    NoColon(name);
    DekHeader(st, e, hex, iv);
    HexIsClean(hex, iv);
    CleanHex(CipherName(e), hex);
    CleanParts(name, ": ", value);
    HeaderTurn(st, name, value, tail);
  }

  lemma DekName()
    ensures ':' !in "DEK-Info" && "DEK-Info"[0] == 'D' && Clean("DEK-Info") && Clean(": ")
  {
  }

  lemma CipherNames(e: Encryption)
    ensures Clean(CipherName(e)) && CipherName(e) != "" && !IsSpace(CipherName(e)[0] as int)
    ensures CipherName(e)[0] != '-'
  {
  }

  /** What the loader finds in such a file. */
  lemma LinesOfEncrypted(parts: Parts, e: Encryption, hex: string, iv: seq<Byte>, body: seq<Byte>, cpl: nat)
    requires |iv| == IvLength(e) && IsHexOf(hex, iv) && cpl > 0
    ensures var st := Loaded(true, true, e, iv + Repeat(IV_BYTES - |iv|, 0), Body("", body));
            && st.Valid()
            && Lines(Start(), "Proc-Type" + ": " + "4,ENCRYPTED" + "\n"
                              + ("DEK-Info" + ": " + (CipherName(e) + hex) + "\n"
                                 + ("" + "\n"
                                    + (WrapLines(EncodeChars(body), cpl) + (EndLine(TypeOf(parts)) + "\n")))))
               == Success(st)
  {
    var st1 := Start().(encrypted := true);
    assert st1.iv[|iv|..] == Repeat(IV_BYTES - |iv|, 0);
    var st2 := Loaded(false, true, e, iv + Repeat(IV_BYTES - |iv|, 0), Body("", []));
    assert st2 == st1.(encryption := e, iv := iv + st1.iv[|iv|..]) && st2.Valid();
    assert !Start().headersDone;
    hide *;
    var text := WrapLines(EncodeChars(body), cpl) + (EndLine(TypeOf(parts)) + "\n");
    var dek := "DEK-Info" + ": " + (CipherName(e) + hex) + "\n" + ("" + "\n" + text);
    ProcTypeTurn(Start(), dek);
    DekTurn(st1, e, hex, iv, "" + "\n" + text);
    BlankLine(st2, text);
    BodyIsLoaded(st2.(headersDone := true), TypeOf(parts), body, cpl);
  }

  /** The BEGIN and END lines, letter by letter. */
  lemma Markers(parts: Parts)
    ensures "-----BEGIN " + (KindName(parts) + " PRIVATE KEY-----") == BeginLine(TypeOf(parts))
    ensures "-----END " + (KindName(parts) + " PRIVATE KEY-----") == EndLine(TypeOf(parts))
  {
    var kind := Kind(TypeOf(parts));
    assert KindName(parts) + " " == kind && PRIVATE == "PRIVATE KEY-----";
    hide KindName, Kind;
    SpaceMoves(KindName(parts), " ", "PRIVATE KEY-----", " PRIVATE KEY-----");
    Assoc(BEGIN, kind, PRIVATE);
    Assoc(END, kind, PRIVATE);
  }

  lemma SpaceMoves(a: string, b: string, c: string, bc: string)
    requires bc == b + c
    ensures a + bc == (a + b) + c
  {
  }

  lemma LoadOfEncrypted(parts: Parts, e: Encryption, hex: string, iv: seq<Byte>, body: seq<Byte>, cpl: nat)
    requires |iv| == IvLength(e) && IsHexOf(hex, iv) && cpl > 0 && body != [] && |body| % 8 == 0
    ensures var st := Loaded(true, true, e, iv + Repeat(IV_BYTES - |iv|, 0), Body("", body));
            st.Valid() && Load(EncryptedFile(parts, e, hex, body, cpl)) == Success((TypeOf(parts), st))
  {
    var kt := TypeOf(parts);
    Markers(parts);
    FirstLine(kt);
    LinesOfEncrypted(parts, e, hex, iv, body, cpl);
    hide BeginLine, EndLine, Lines, NextLine, ParseBegin, WrapLines, EncodeChars, Clean, CipherName, IsHexOf, Start;
    var tail := "Proc-Type" + ": " + "4,ENCRYPTED" + "\n"
                + ("DEK-Info" + ": " + (CipherName(e) + hex) + "\n"
                   + ("" + "\n" + (WrapLines(EncodeChars(body), cpl) + (EndLine(kt) + "\n"))));
    assert EncryptedFile(parts, e, hex, body, cpl) == BeginLine(kt) + "\n" + tail;
    hide EncryptedFile;
    NextLineOfWritten(BeginLine(kt), tail);
  }

  /** The key that the passphrase gives: MD5 of it and the first half of the iv, twice. */
  function KeyFor(suite: Suite, passphrase: seq<Byte>, iv: seq<Byte>): seq<Byte>
    requires |iv| >= 8
  {
    suite.md5(passphrase + iv[..8]) + suite.md5(suite.md5(passphrase + iv[..8]) + passphrase + iv[..8])
  }

  function Encrypted(suite: Suite, e: Encryption, key: seq<Byte>, iv: seq<Byte>, plain: seq<Byte>): seq<Byte> {
    if e == Des3 then suite.des3Encrypt(key, iv, plain) else suite.aes128CbcEncrypt(key, iv, plain)
  }

  lemma DecryptOfEncrypted(suite: Suite, e: Encryption, passphrase: seq<Byte>, iv: seq<Byte>, plain: seq<Byte>,
                           body: seq<Byte>)
    requires suite.Sound() && |iv| == IvLength(e) && |plain| % IvLength(e) == 0
    requires body == Encrypted(suite, e, KeyFor(suite, passphrase, iv), iv, plain)
    ensures |body| == |plain|
    ensures var st := Loaded(true, true, e, iv + Repeat(IV_BYTES - |iv|, 0), Body("", body));
            st.Valid() && Decrypt(suite, st, passphrase) == plain
  {
    var all := iv + Repeat(IV_BYTES - |iv|, 0);
    assert all[..8] == iv[..8] && all[..|iv|] == iv;
    var key := KeyFor(suite, passphrase, iv);
    assert DeriveKey(suite, passphrase, all) == key;
    hide DeriveKey, KeyFor;
    if e == Des3 {
      assert suite.des3Decrypt(key, iv, suite.des3Encrypt(key, iv, plain)) == plain;
    } else {
      assert suite.aes128CbcDecrypt(key, iv, suite.aes128CbcEncrypt(key, iv, plain)) == plain;
    }
  }

  lemma WholeBlocks(suite: Suite, parts: Parts, e: Encryption, pad: seq<Byte>)
    requires suite.Sound() && parts.Fits() && |Outer(suite, parts) + pad| % IvLength(e) == 0
    ensures var n := |Outer(suite, parts) + pad|; n > 0 && n % 8 == 0
  {
    OuterIsNotEmpty(suite, parts);
    hide Outer;
    if e == Aes {
      TwoHalfBlocks(|Outer(suite, parts) + pad|);
    }
  }

  lemma OuterIsNotEmpty(suite: Suite, parts: Parts)
    requires suite.Sound() && parts.Fits()
    ensures |Outer(suite, parts)| > 0
  {
    hide Inner, LengthHeader;
  }

  lemma TwoHalfBlocks(n: nat)
    requires n % 16 == 0
    ensures n % 8 == 0
  {
  }

  /**
   * A key that was encrypted with triple DES or with AES-128, under a key made from the passphrase and
   * the iv, reads back with that passphrase, whatever the padding, the width of the lines and the case
   * of the hex digits.
   */
  lemma ReadOfEncrypted(suite: Suite, parts: Parts, e: Encryption, passphrase: seq<Byte>, iv: seq<Byte>, hex: string,
                        pad: seq<Byte>, cpl: nat)
    requires suite.Sound() && parts.Fits() && |iv| == IvLength(e) && IsHexOf(hex, iv) && cpl > 0
    requires |Outer(suite, parts) + pad| % IvLength(e) == 0
    ensures var body := Encrypted(suite, e, KeyFor(suite, passphrase, iv), iv, Outer(suite, parts) + pad);
            Read(suite, EncryptedFile(parts, e, hex, body, cpl), passphrase)
            == Success(UserKey(parts.Canonicalised().Key(), "imported-openssh-key"))
  {
    WholeBlocks(suite, parts, e, pad);
    assert |iv| >= 8;
    hide *;
    var plain := Outer(suite, parts) + pad;
    var body := Encrypted(suite, e, KeyFor(suite, passphrase, iv), iv, plain);
    DecryptOfEncrypted(suite, e, passphrase, iv, plain, body);
    OuterIsElement(suite, parts, pad);
    LoadOfEncrypted(parts, e, hex, iv, body, cpl);
    SequenceIsRead(suite, parts, true);
    ReadFromParts(suite, EncryptedFile(parts, e, hex, body, cpl), passphrase, TypeOf(parts),
                  Loaded(true, true, e, iv + Repeat(IV_BYTES - |iv|, 0), Body("", body)),
                  Inner(suite, parts), pad, parts.Canonicalised().Key());
  }

  // The writer's own files are such files.

  lemma HexDigitIsHex(v: int)
    requires 0 <= v < 16
    ensures IsHexDigit(HexDigit(v), v)
  {
  }

  lemma {:induction false} HexIsHexOf(b: seq<Byte>)
    ensures IsHexOf(Hex(b), b)
  {
    if b != [] {
      HexDigitIsHex(b[0] / 16);
      HexDigitIsHex(b[0] % 16);
      hide HexDigit, IsHexDigit;
      HexIsHexOf(b[1..]);
      assert Hex(b)[2..] == Hex(b[1..]);
    }
  }

  lemma DerivedKey(suite: Suite, passphrase: seq<Byte>, iv: seq<Byte>)
    requires |iv| >= 8
    ensures DeriveKey(suite, passphrase, iv) == KeyFor(suite, passphrase, iv)
  {
  }

  lemma TextOfFile(suite: Suite, parts: Parts, passphrase: seq<Byte>, iv: seq<Byte>)
    requires suite.Sound() && parts.Fits() && |iv| == 8
    ensures File(suite, parts, Some(passphrase), iv)
         == EncryptedFile(parts, Des3, Hex(iv), EncryptedBlob(suite, Outer(suite, parts), passphrase, iv), 64)
  {
    Markers(parts);
    assert PROC_TYPE == "Proc-Type" && DEK_INFO == "DEK-Info" && ENCRYPTED == "4,ENCRYPTED" && DES_CBC == CipherName(Des3);
    hide Outer, EncryptedBlob, WrapLines, EncodeChars, HeaderLines, Hex, BeginLine, EndLine, KindName, CipherName;
    var kt := TypeOf(parts);
    var body := WrapLines(EncodeChars(EncryptedBlob(suite, Outer(suite, parts), passphrase, iv)), 64);
    var end := EndLine(kt) + "\n";
    Assoc(BeginLine(kt) + "\n", HeaderLines(iv) + body, end);
    Assoc(HeaderLines(iv), body, end);
    HeaderLinesAre(iv, body + end);
  }

  /** With a passphrase the writer pads with 1 to 8 bytes that say how many they are, and encrypts with triple DES. */
  lemma WrittenFile(suite: Suite, parts: Parts, passphrase: seq<Byte>, iv: seq<Byte>) returns (pad: seq<Byte>)
    requires suite.Sound() && parts.Fits() && |iv| == 8
    ensures 1 <= |pad| <= 8 && |Outer(suite, parts) + pad| % 8 == 0 && forall i :: 0 <= i < |pad| ==> pad[i] == |pad|
    ensures IsHexOf(Hex(iv), iv)
    ensures File(suite, parts, Some(passphrase), iv)
         == EncryptedFile(parts, Des3, Hex(iv),
                          suite.des3Encrypt(KeyFor(suite, passphrase, iv), iv, Outer(suite, parts) + pad), 64)
  {
    var blob := Outer(suite, parts);
    pad := Padding(|blob|);
    HexIsHexOf(iv);
    DerivedKey(suite, passphrase, iv);
    TextOfFile(suite, parts, passphrase, iv);
    hide Outer, File, EncryptedFile, KeyFor, DeriveKey, Hex, IsHexOf, Padding;
  }

  // The ASN.1 that other programs find in them.

  lemma NextInteger(ns: seq<seq<Byte>>, k: nat)
    requires k < |ns| && AllShort(ns)
    ensures AllShort(ns[k..]) && AllShort(ns[k + 1..])
    ensures IntegerElements(ns[k..]) == Element(2, 0, ns[k]) + IntegerElements(ns[k + 1..])
  {
    assert ns[k..][0] == ns[k] && ns[k..][1..] == ns[k + 1..];
    hide Element;
  }

  /** RSAPrivateKey of section A.1.2 of RFC 8017: d modulo p - 1 and d modulo q - 1 come before the coefficient. */
  lemma RsaContents(suite: Suite, parts: Parts)
    requires suite.Sound() && parts.Fits() && parts.RsaParts?
    ensures var dmp1, dmq1 := suite.reduce(parts.d, parts.p), suite.reduce(parts.d, parts.q);
            && |dmp1| < TWO_32 && |dmq1| < TWO_32
            && Inner(suite, parts)
               == Element(2, 0, [0])
                  + (Element(2, 0, parts.n) + (Element(2, 0, parts.e) + (Element(2, 0, parts.d) + (Element(2, 0, parts.p)
                  + (Element(2, 0, parts.q) + (Element(2, 0, dmp1) + (Element(2, 0, dmq1) + Element(2, 0, parts.iqmp))))))))
  {
    var ns := Numbers(suite, parts);
    assert AllShort(ns) && Inner(suite, parts) == IntegerElements(ns) && |ns| == 9;
    assert ns[..] == [[0], parts.n, parts.e, parts.d, parts.p, parts.q,
                      suite.reduce(parts.d, parts.p), suite.reduce(parts.d, parts.q), parts.iqmp];
    hide *;
    NineElements(ns);
  }

  lemma NineElements(ns: seq<seq<Byte>>)
    requires AllShort(ns) && |ns| == 9
    ensures forall i :: 0 <= i < 9 ==> |ns[i]| < TWO_32
    ensures IntegerElements(ns)
         == Element(2, 0, ns[0]) + (Element(2, 0, ns[1]) + (Element(2, 0, ns[2]) + (Element(2, 0, ns[3])
            + (Element(2, 0, ns[4]) + (Element(2, 0, ns[5]) + (Element(2, 0, ns[6]) + (Element(2, 0, ns[7])
            + Element(2, 0, ns[8]))))))))
  {
    hide IntegerElements, Element;
    NoIntegers();
    assert ns[0..] == ns && ns[9..] == [];
    NextInteger(ns, 0); NextInteger(ns, 1); NextInteger(ns, 2);
    NextInteger(ns, 3); NextInteger(ns, 4); NextInteger(ns, 5);
    NextInteger(ns, 6); NextInteger(ns, 7); NextInteger(ns, 8);
    assert Element(2, 0, ns[8]) + [] == Element(2, 0, ns[8]);
  }

  lemma NoIntegers()
    ensures IntegerElements([]) == []
  {
  }

  /** Tags of an INTEGER, an OCTET STRING and a SEQUENCE, and of the two wrappers of an ECDSA key, with a short length. */
  lemma ShortElement(id: nat, flags: Byte, data: seq<Byte>)
    requires id <= 30 && IsFlags(flags) && |data| < 128
    ensures Element(id, flags, data) == [flags + id, |data|] + data
  {
  }

  /** ECPrivateKey of section 3 of RFC 5915. */
  lemma EcdsaContents(suite: Suite, parts: Parts)
    requires suite.Sound() && parts.Fits() && parts.EcParts?
    ensures var oid, point := Element(6, 0, parts.curve.Oid()), [0] + parts.point;
            && |point| < TWO_32 && |oid| < TWO_32 && |Element(3, 0, point)| < TWO_32
            && Inner(suite, parts)
               == Element(2, 0, [1]) + Element(4, 0, parts.scalar) + Element(0, 0xA0, oid)
                  + Element(1, 0xA0, Element(3, 0, point))
  {
    HeaderIsSmall(6, |parts.curve.Oid()|, 0);
    HeaderIsSmall(3, |parts.point| + 1, 0);
    hide Header, Curve.Oid;
  }

  // Other headers, and what is refused.

  /** Lines, each with its line break. */
  function Joined(ls: seq<string>): string {
    if ls == [] then "" else ls[0] + "\n" + Joined(ls[1..])
  }

  ghost predicate AreHeaders(ls: seq<string>) {
    forall i :: 0 <= i < |ls| ==> Clean(ls[i]) && ':' in ls[i]
  }

  /** A header of some other name says nothing to the loader. */
  ghost predicate IsOtherHeader(line: string) {
    && Clean(line) && !("-----END " <= line)
    && exists name: string, value: string ::
         line == name + ":" + value && ':' !in name && name != "Proc-Type" && name != "DEK-Info"
  }

  lemma OtherHeaderTurn(st: Loaded, line: string, tail: string)
    requires st.Valid() && !st.headersDone && IsOtherHeader(line)
    ensures Lines(st, line + "\n" + tail) == Lines(st, tail)
  {
    var name: string, value: string :|
      line == name + ":" + value && ':' !in name && name != "Proc-Type" && name != "DEK-Info";
    FindIs(line, ':', |name|);
    assert line[..|name|] == name;
    assert !IsEnd(line);
    NextLineOfWritten(line, tail);
    hide NextLine, IsEnd, Clean, SkipSpaces, Find;
    LineAtColon(st, line, |name|);
  }

  lemma HeaderKeepsHeaders(st: Loaded, line: string)
    requires st.Valid() && !st.headersDone && ':' in line && Line(st, line).Success?
    ensures !Line(st, line).value.headersDone
  {
    hide ReadHex, SkipSpaces;
  }

  /** Wherever such a line is put among the headers of a file, it makes no difference. */
  lemma {:induction false} OtherHeaderIsIgnored(st: Loaded, ls: seq<string>, line: string, tail: string)
    requires st.Valid() && !st.headersDone && AreHeaders(ls) && IsOtherHeader(line)
    ensures Lines(st, Joined(ls) + (line + "\n" + tail)) == Lines(st, Joined(ls) + tail)
    decreases |ls|
  {
    if ls == [] {
      assert Joined(ls) == "" && "" + (line + "\n" + tail) == line + "\n" + tail && "" + tail == tail;
      OtherHeaderTurn(st, line, tail);
    } else {
      var more := Joined(ls[1..]);
      assert Joined(ls) == ls[0] + "\n" + more;
      assert AreHeaders(ls[1..]);
      hide IsOtherHeader, Line, IsEnd, NextLine, Clean, Joined;
      Assoc(ls[0] + "\n", more, line + "\n" + tail);
      Assoc(ls[0] + "\n", more, tail);
      NextLineOfWritten(ls[0], more + (line + "\n" + tail));
      NextLineOfWritten(ls[0], more + tail);
      if Line(st, ls[0]).Success? {
        HeaderKeepsHeaders(st, ls[0]);
        OtherHeaderIsIgnored(Line(st, ls[0]).value, ls[1..], line, tail);
      }
    }
  }

  lemma LoadWithHeader(kt: KeyType, ls: seq<string>, line: string, tail: string)
    requires AreHeaders(ls) && IsOtherHeader(line)
    ensures Load(BeginLine(kt) + "\n" + (Joined(ls) + (line + "\n" + tail)))
         == Load(BeginLine(kt) + "\n" + (Joined(ls) + tail))
  {
    assert !Start().headersDone;
    FirstLine(kt);
    hide ParseBegin, NextLine, Lines, Joined, IsOtherHeader, AreHeaders, Clean, BeginLine, Start;
    NextLineOfWritten(BeginLine(kt), Joined(ls) + (line + "\n" + tail));
    NextLineOfWritten(BeginLine(kt), Joined(ls) + tail);
    OtherHeaderIsIgnored(Start(), ls, line, tail);
  }

  lemma ProcTypeField(st: Loaded, value: string)
    requires st.Valid()
    ensures HeaderField(st, "Proc-Type", value)
         == if "4," <= value then Success(st.(encrypted := st.encrypted || value == "4,ENCRYPTED")) else Failure(BadProcType)
  {
    if "4," <= value {
      assert value == "4," + value[2..];
      assert "4,ENCRYPTED"[2..] == "ENCRYPTED";
    }
  }

  /** Only Proc-Type 4 is known, and of that only ENCRYPTED means anything. */
  lemma ProcTypeOf(st: Loaded, value: string, tail: string)
    requires st.Valid() && !st.headersDone && value != "" && Clean(value) && !IsSpace(value[0] as int)
    ensures Lines(st, "Proc-Type" + ": " + value + "\n" + tail)
         == if "4," <= value then Lines(st.(encrypted := st.encrypted || value == "4,ENCRYPTED"), tail)
            else Failure(BadProcType)
  {
    var name := "Proc-Type";
    assert ':' !in name && name[0] == 'P' && Clean(name) && Clean(": ");
    hide *;
    NoColon(name);
    CleanParts(name, ": ", value);
    ProcTypeField(st, value);
    HeaderTurn(st, name, value, tail);
  }

  lemma DekField(st: Loaded, value: string)
    requires st.Valid() && !("DES-EDE3-CBC," <= value) && !("AES-128-CBC," <= value)
    ensures HeaderField(st, "DEK-Info", value) == Failure(BadCipher)
  {
  }

  /** Ciphers of other names are refused. */
  lemma OtherCipherIsRefused(st: Loaded, value: string, tail: string)
    requires st.Valid() && !st.headersDone && value != "" && Clean(value) && !IsSpace(value[0] as int)
    requires !("DES-EDE3-CBC," <= value) && !("AES-128-CBC," <= value)
    ensures Lines(st, "DEK-Info" + ": " + value + "\n" + tail) == Failure(BadCipher)
  {
    var name := "DEK-Info";
    hide *;
    DekName();
    NoColon(name);
    CleanParts(name, ": ", value);
    DekField(st, value);
    HeaderTurn(st, name, value, tail);
  }

  /** What has been loaded is not empty, and in whole blocks if it is encrypted; otherwise the file is refused for that. */
  lemma LoadedIsWhole(t: string)
    ensures Load(t).Success? ==>
              var st := Load(t).value.1; st.body.blob != [] && (st.encrypted ==> |st.body.blob| % 8 == 0)
  {
    hide Lines, NextLine, ParseBegin;
  }

  /** An iv: as many pairs as the cipher needs, and each starts with a hex digit. */
  ghost predicate IsIvText(hex: string, n: nat) {
    |hex| == 2 * n && forall i :: 0 <= i < n ==> IsHex(hex[2 * i])
  }

  predicate IsHex(c: char) {
    c in "0123456789ABCDEFabcdef"
  }

  lemma HexDigits(c: char)
    ensures HexValue(c).Some? <==> IsHex(c)
  {
  }

  lemma IvTextStep(s: string, n: nat)
    requires n > 0 && |s| >= 2
    ensures IsIvText(s, n) <==> IsHex(s[0]) && IsIvText(s[2..], n - 1)
  {
    hide IsHex;
    if IsHex(s[0]) && IsIvText(s[2..], n - 1) {
      forall i | 0 <= i < n
        ensures IsHex(s[2 * i])
      {
        assert i > 0 ==> s[2..][2 * (i - 1)] == s[2 * i];
      }
    }
    if IsIvText(s, n) {
      assert IsHex(s[2 * 0]);
      forall i | 0 <= i < n - 1
        ensures IsHex(s[2..][2 * i])
      {
        assert s[2..][2 * i] == s[2 * (i + 1)];
      }
    }
  }

  lemma {:induction false} ReadHexIff(s: string, n: nat)
    ensures var r := ReadHex(s, n); IsIvText(s, n) <==> r.Some? && r.value.1 == ""
    decreases n
  {
    if n > 0 && |s| >= 2 {
      HexDigits(s[0]);
      IvTextStep(s, n);
      hide IsIvText, HexValue, IsHex;
      ReadHexIff(s[2..], n - 1);
    }
  }

  lemma DekIff(st: Loaded, e: Encryption, hex: string)
    requires st.Valid() && !IsIvText(hex, IvLength(e))
    ensures HeaderField(st, "DEK-Info", CipherName(e) + hex) == Failure(BadIv)
  {
    var value := CipherName(e) + hex;
    var n := |CipherName(e)|;
    assert value[..n] == CipherName(e) && value[n..] == hex;
    assert e == Aes ==> value[0] == 'A' && DES_CBC[0] == 'D';
    hide IsIvText, ReadHex, IsHex;
    ReadHexIff(hex, IvLength(e));
  }

  /** An iv of any other length is refused, and so is one with something else for a digit. */
  lemma OtherIvIsRefused(st: Loaded, e: Encryption, hex: string, tail: string)
    requires st.Valid() && !st.headersDone && Clean(CipherName(e) + hex) && !IsIvText(hex, IvLength(e))
    ensures Lines(st, "DEK-Info" + ": " + (CipherName(e) + hex) + "\n" + tail) == Failure(BadIv)
  {
    var name, value := "DEK-Info", CipherName(e) + hex;
    hide *;
    DekName();
    CipherNames(e);
    NoColon(name);
    DekIff(st, e, hex);
    CleanParts(name, ": ", value);
    HeaderTurn(st, name, value, tail);
  }

  // The first line.

  function LineOfKind(kind: string): string {
    "-----BEGIN " + kind + "PRIVATE KEY-----"
  }

  predicate IsFirstLine(line: string) {
    && "-----BEGIN " <= line
    && |line| >= |"PRIVATE KEY-----"| && line[|line| - |"PRIVATE KEY-----"|..] == "PRIVATE KEY-----"
  }

  lemma KindsDiffer(a: string, b: string)
    requires a != b
    ensures LineOfKind(a) != LineOfKind(b)
  {
    var p, q: string := "-----BEGIN ", "PRIVATE KEY-----";
    if |a| == |b| {
      var i :| 0 <= i < |a| && a[i] != b[i];
      assert (p + a + q)[|p| + i] == a[i] && (p + b + q)[|p| + i] == b[i];
    }
  }

  lemma KindsAreFirstLines(kind: string)
    ensures IsFirstLine(LineOfKind(kind))
  {
  }

  /** The kind of key, or why there is none, by the first line. */
  function KindOf(line: string): Result<KeyType, Fault> {
    if line == LineOfKind("RSA ") then Success(OpRsa)
    else if line == LineOfKind("DSA ") then Success(OpDsa)
    else if line == LineOfKind("EC ") then Success(OpEcdsa)
    else if line == LineOfKind("OPENSSH ") then Failure(NewStyleKey)
    else if IsFirstLine(line) then Failure(UnknownKeyType)
    else Failure(BadHeader)
  }

  lemma FirstLineDecides(line: string)
    ensures ParseBegin(line) == KindOf(line)
  {
    KindsAreFirstLines("RSA ");
    KindsAreFirstLines("DSA ");
    KindsAreFirstLines("EC ");
    KindsAreFirstLines("OPENSSH ");
    KindsDiffer("RSA ", "DSA ");
  }

  /** Whatever follows it. */
  lemma FirstLineIsRefused(line: string, tail: string)
    requires Clean(line) && KindOf(line).Failure?
    ensures Load(line + "\n" + tail) == Failure(KindOf(line).error)
  {
    hide ParseBegin, KindOf, Lines, NextLine, Clean;
    FirstLineDecides(line);
    NextLineOfWritten(line, tail);
  }
}
