/** Importing an exported PEM file gives the key back. */
module OpensshPemRoundTrip {
  import opened Bytes
  import opened Marshal
  import opened Ber
  import opened Mpint
  import opened Base64
  import opened KeyText
  import opened Keys
  import opened OpensshPem

  // The text of the file.

  lemma Framed(a: string, b: string, c: string)
    ensures StartsWith(a + b + c, a) && EndsWith(a + b + c, c)
  {
  }

  lemma CleanParts(a: string, b: string, c: string)
    requires Clean(a) && Clean(b) && Clean(c) && c != ""
    ensures Clean(a + b + c)
  {
  }

  lemma CleanMarkers(kt: KeyType)
    ensures Clean(BEGIN) && Clean(END) && Clean(Kind(kt)) && Clean(PRIVATE)
  {
  }

  lemma KindsDiffer(kt: KeyType, other: KeyType)
    requires kt != other
    ensures BeginLine(kt) != BeginLine(other)
  {
    var a, b := BeginLine(kt), BeginLine(other);
    assert a[11] == Kind(kt)[0] && b[11] == Kind(other)[0];
  }

  lemma FirstLine(kt: KeyType)
    ensures Clean(BeginLine(kt)) && ParseBegin(BeginLine(kt)) == Success(kt)
  {
    CleanMarkers(kt);
    CleanParts(BEGIN, Kind(kt), PRIVATE);
    Framed(BEGIN, Kind(kt), PRIVATE);
    if kt != OpRsa {
      KindsDiffer(kt, OpRsa);
      if kt != OpDsa {
        KindsDiffer(kt, OpDsa);
      }
    }
  }

  lemma LastLine(kt: KeyType)
    ensures Clean(EndLine(kt)) && IsEnd(EndLine(kt))
  {
    CleanMarkers(kt);
    CleanParts(END, Kind(kt), PRIVATE);
    Framed(END, Kind(kt), PRIVATE);
  }

  /** A line that does not start with a dash is not the END line. */
  lemma NotEnd(line: string)
    requires line == "" || line[0] != '-'
    ensures !IsEnd(line)
  {
    assert END[0] == '-';
  }

  lemma BodyLine(st: Loaded, line: string, tail: string)
    requires st.Valid() && AllBase64(line)
    ensures Lines(st, line + "\n" + tail)
         == match Feed(st.body, line)
            case None => Failure(BadBase64)
            case Some(body) => Lines(st.(headersDone := true, body := body), tail)
  {
    Base64IsClean(line);
    NextLineOfWritten(line, tail);
    FindIs(line, ':', |line|);
    NotEnd(line);
  }

  /** However the body is cut into lines, the loader feeds its characters in order. */
  lemma {:induction false} BodyLines(st: Loaded, s: string, cpl: nat, tail: string)
    requires st.Valid() && AllBase64(s) && cpl > 0
    ensures Lines(st, WrapLines(s, cpl) + tail)
         == match Feed(st.body, s)
            case None => Failure(BadBase64)
            case Some(body) => Lines(st.(headersDone := true, body := body), tail)
    decreases |s|
  {
    hide Lines, Feed;
    if |s| <= cpl {
      BodyLine(st, s, tail);
    } else {
      var rest := WrapLines(s[cpl..], cpl);
      Assoc(s[..cpl] + "\n", rest, tail);
      BodyLine(st, s[..cpl], rest + tail);
      FeedTwoLines(st.body, s[..cpl], s[cpl..]);
      assert s[..cpl] + s[cpl..] == s;
      match Feed(st.body, s[..cpl])
      case None =>
      case Some(body) => BodyLines(st.(headersDone := true, body := body), s[cpl..], cpl, tail);
    }
  }

  /** Loading the body of a blob, from a state with an empty carry, to the END line. */
  lemma LoadBody(st: Loaded, kt: KeyType, blob: seq<Byte>)
    requires st.Valid() && st.body == Body("", [])
    ensures Lines(st, WrapLines(EncodeChars(blob), 64) + (EndLine(kt) + "\n"))
         == Success(st.(headersDone := true, body := Body("", blob)))
  {
    assert AllBase64(EncodeChars(blob)) && st.(headersDone := true, body := Body("", blob)).Valid();
    hide *;
    BodyLines(st, EncodeChars(blob), 64, EndLine(kt) + "\n");
    FeedOfEncode([], blob);
    assert [] + blob == blob;
    EndStops(st.(headersDone := true, body := Body("", blob)), kt);
  }

  lemma EndStops(st: Loaded, kt: KeyType)
    requires st.Valid()
    ensures Lines(st, EndLine(kt) + "\n") == Success(st)
  {
    LastLine(kt);
    hide IsEnd, Line, NextLine, Clean, EndLine;
    assert EndLine(kt) + "\n" == EndLine(kt) + "\n" + "";
    NextLineOfWritten(EndLine(kt), "");
  }

  /** Splitting "name: value" at its colon. */
  lemma SplitHeader(name: string, value: string)
    requires Find(name, ':') == |name|
    requires value != "" && !IsSpace(value[0] as int)
    ensures var line := name + ": " + value;
            && Find(line, ':') == |name| < |line|
            && line[..|name|] == name
            && SkipSpaces(line[|name| + 1..]) == value
  {
    var line := name + ": " + value;
    FindIs(line, ':', |name|);
    assert line[|name| + 1..] == [' '] + value;
    assert ([' '] + value)[1..] == value;
  }

  lemma CleanHeaders()
    ensures Clean(PROC_TYPE + ": " + ENCRYPTED)
    ensures Clean(DEK_INFO + ": " + DES_CBC)
  {
    assert Clean(PROC_TYPE) && Clean(DEK_INFO) && Clean(": ") && Clean(ENCRYPTED) && Clean(DES_CBC);
    CleanParts(PROC_TYPE, ": ", ENCRYPTED);
    CleanParts(DEK_INFO, ": ", DES_CBC);
  }

  lemma ProcTypeLine(st: Loaded)
    requires st.Valid() && !st.headersDone
    ensures !IsEnd(PROC_TYPE + ": " + ENCRYPTED)
    ensures Line(st, PROC_TYPE + ": " + ENCRYPTED) == Success(st.(encrypted := true))
  {
    NotEnd(PROC_TYPE + ": " + ENCRYPTED);
    FindIs(PROC_TYPE, ':', 9);
    SplitHeader(PROC_TYPE, ENCRYPTED);
    ProcTypeValue(st);
    hide IsEnd, HeaderField, SkipSpaces, Find;
  }

  lemma ProcTypeValue(st: Loaded)
    requires st.Valid()
    ensures HeaderField(st, PROC_TYPE, ENCRYPTED) == Success(st.(encrypted := true))
  {
    hide DekInfo;
    assert ENCRYPTED[2..] == "ENCRYPTED";
  }

  lemma {:induction false} DekLine(st: Loaded, iv: seq<Byte>)
    requires st.Valid() && !st.headersDone && |iv| == 8
    ensures !IsEnd(DEK_INFO + ": " + (DES_CBC + Hex(iv)))
    ensures Line(st, DEK_INFO + ": " + (DES_CBC + Hex(iv)))
         == Success(st.(encryption := Des3, iv := iv + st.iv[8..]))
  {
    var value := DES_CBC + Hex(iv);
    NotEnd(DEK_INFO + ": " + value);
    FindIs(DEK_INFO, ':', 8);
    SplitHeader(DEK_INFO, value);
    DekValue(st, iv);
  }

  lemma DekValue(st: Loaded, iv: seq<Byte>)
    requires st.Valid() && |iv| == 8
    ensures HeaderField(st, DEK_INFO, DES_CBC + Hex(iv)) == Success(st.(encryption := Des3, iv := iv + st.iv[8..]))
  {
    var value := DES_CBC + Hex(iv);
    assert value[..13] == DES_CBC && value[13..] == Hex(iv);
    ReadHexOfHex(iv);
    assert DEK_INFO != "Proc-Type";
  }

  lemma CleanHex(prefix: string, hex: string)
    requires Clean(prefix) && forall i :: 0 <= i < |hex| ==> HexValue(hex[i]).Some?
    ensures Clean(prefix + hex)
  {
  }

  lemma HeadersAreRead(iv: seq<Byte>, tail: string)
    requires |iv| == 8
    ensures Lines(Start(), HeaderLines(iv) + tail)
         == Lines(Start().(headersDone := true, encrypted := true, encryption := Des3, iv := iv + Repeat(24, 0)), tail)
  {
    var proc, dek := PROC_TYPE + ": " + ENCRYPTED, DEK_INFO + ": " + (DES_CBC + Hex(iv));
    var st1 := Start().(encrypted := true);
    var st2 := st1.(encryption := Des3, iv := iv + st1.iv[8..]);
    assert st1.iv[8..] == Repeat(24, 0);
    HeaderLinesAre(iv, tail);
    CleanHeaders();
    ProcTypeLine(Start());
    NextLineOfWritten(proc, dek + "\n" + ("" + "\n" + tail));
    CleanHex(DEK_INFO + ": " + DES_CBC, Hex(iv));
    Assoc(DEK_INFO + ": ", DES_CBC, Hex(iv));
    DekLine(st1, iv);
    NextLineOfWritten(dek, "" + "\n" + tail);
    BodyLine(st2, "", tail);
  }

  lemma HeaderLinesAre(iv: seq<Byte>, tail: string)
    requires |iv| == 8
    ensures HeaderLines(iv) + tail
         == PROC_TYPE + ": " + ENCRYPTED + "\n"
            + (DEK_INFO + ": " + (DES_CBC + Hex(iv)) + "\n" + ("" + "\n" + tail))
  {
  }

  // The ASN.1 of the blob.

  /** The reader's integer loop, on integers already split. */
  function GatherAll(kt: KeyType, i: nat, g: Gathered, ns: seq<seq<Byte>>): Result<Gathered, Fault>
    decreases |ns|
  {
    if ns == [] then Success(g)
    else
      match Gather(kt, i, g, ns[0])
      case Failure(f) => Failure(f)
      case Success(next) => GatherAll(kt, i + 1, next, ns[1..])
  }

  lemma {:induction false} IntegersOfElements(kt: KeyType, encrypted: bool, i: nat, g: Gathered, ns: seq<seq<Byte>>)
    requires i + |ns| == NumIntegers(kt) && AllShort(ns)
    ensures Integers(kt, encrypted, i, g, Input(IntegerElements(ns), false))
         == match GatherAll(kt, i, g, ns)
            case Failure(f) => Failure(KeyError(f, false))
            case Success(all) => Success(all)
    decreases |ns|
  {
    hide GetBer, Element, Gather;
    if ns != [] {
      GetBerOfElement(2, 0, ns[0], IntegerElements(ns[1..]));
      match Gather(kt, i, g, ns[0])
      case Failure(_) =>
      case Success(next) => IntegersOfElements(kt, encrypted, i + 1, next, ns[1..]);
    }
  }

  lemma GatherStep(kt: KeyType, i: nat, g: Gathered, n: seq<Byte>, ns: seq<seq<Byte>>)
    ensures GatherAll(kt, i, g, [n] + ns)
         == match Gather(kt, i, g, n)
            case Failure(f) => Failure(f)
            case Success(next) => GatherAll(kt, i + 1, next, ns)
  {
    assert ([n] + ns)[1..] == ns;
  }

  lemma GatherNothing(kt: KeyType, i: nat, g: Gathered)
    ensures GatherAll(kt, i, g, []) == Success(g)
  {
  }

  /** What the loop makes of an RSA key's nine integers: n and e change places, dmp1 and dmq1 are dropped. */
  lemma GatherRsa(name: seq<Byte>, n: seq<Byte>, e: seq<Byte>, d: seq<Byte>, p: seq<Byte>, q: seq<Byte>,
                  dmp1: seq<Byte>, dmq1: seq<Byte>, iqmp: seq<Byte>, pub: seq<Byte>)
    requires pub == name + MpSsh2(e) + MpSsh2(n)
    ensures GatherAll(OpRsa, 0, Gathered(name, [], 0), [[0], n, e, d, p, q, dmp1, dmq1, iqmp])
         == Success(Gathered(pub + MpSsh2(d) + MpSsh2(p) + MpSsh2(q) + MpSsh2(iqmp), n, |pub|))
  {
    hide GatherAll, MpSsh2;
    var g0 := Gathered(name, [], 0);
    var g2 := Gathered(pub, n, |pub|);
    var g5 := Gathered(pub + MpSsh2(d) + MpSsh2(p) + MpSsh2(q), n, |pub|);
    assert [[0], n, e, d, p, q, dmp1, dmq1, iqmp] == [[0]] + [n, e, d, p, q, dmp1, dmq1, iqmp];
    GatherStep(OpRsa, 0, g0, [0], [n, e, d, p, q, dmp1, dmq1, iqmp]);
    assert [n, e, d, p, q, dmp1, dmq1, iqmp] == [n] + [e, d, p, q, dmp1, dmq1, iqmp];
    GatherStep(OpRsa, 1, g0, n, [e, d, p, q, dmp1, dmq1, iqmp]);
    assert [e, d, p, q, dmp1, dmq1, iqmp] == [e] + [d, p, q, dmp1, dmq1, iqmp];
    GatherStep(OpRsa, 2, g0.(modulus := n), e, [d, p, q, dmp1, dmq1, iqmp]);
    GatherRsaPrivate(g2, d, p, q, dmp1, dmq1, iqmp);
  }

  lemma GatherRsaPrivate(g: Gathered, d: seq<Byte>, p: seq<Byte>, q: seq<Byte>,
                         dmp1: seq<Byte>, dmq1: seq<Byte>, iqmp: seq<Byte>)
    ensures GatherAll(OpRsa, 3, g, [d, p, q, dmp1, dmq1, iqmp])
         == Success(g.(blob := g.blob + MpSsh2(d) + MpSsh2(p) + MpSsh2(q) + MpSsh2(iqmp)))
  {
    hide GatherAll, MpSsh2;
    var g3 := g.(blob := g.blob + MpSsh2(d));
    var g4 := g3.(blob := g3.blob + MpSsh2(p));
    var g5 := g4.(blob := g4.blob + MpSsh2(q));
    assert [d, p, q, dmp1, dmq1, iqmp] == [d] + [p, q, dmp1, dmq1, iqmp];
    GatherStep(OpRsa, 3, g, d, [p, q, dmp1, dmq1, iqmp]);
    assert [p, q, dmp1, dmq1, iqmp] == [p] + [q, dmp1, dmq1, iqmp];
    GatherStep(OpRsa, 4, g3, p, [q, dmp1, dmq1, iqmp]);
    assert [q, dmp1, dmq1, iqmp] == [q] + [dmp1, dmq1, iqmp];
    GatherStep(OpRsa, 5, g4, q, [dmp1, dmq1, iqmp]);
    assert [dmp1, dmq1, iqmp] == [dmp1] + [dmq1, iqmp];
    GatherStep(OpRsa, 6, g5, dmp1, [dmq1, iqmp]);
    assert [dmq1, iqmp] == [dmq1] + [iqmp];
    GatherStep(OpRsa, 7, g5, dmq1, [iqmp]);
    assert [iqmp] == [iqmp] + [];
    GatherStep(OpRsa, 8, g5, iqmp, []);
    GatherNothing(OpRsa, 9, g5.(blob := g5.blob + MpSsh2(iqmp)));
  }

  lemma GatherDsa(name: seq<Byte>, p: seq<Byte>, q: seq<Byte>, g: seq<Byte>, y: seq<Byte>, x: seq<Byte>,
                  pub: seq<Byte>)
    requires pub == name + MpSsh2(p) + MpSsh2(q) + MpSsh2(g) + MpSsh2(y)
    ensures GatherAll(OpDsa, 0, Gathered(name, [], 0), [[0], p, q, g, y, x])
         == Success(Gathered(pub + MpSsh2(x), [], |pub|))
  {
    hide GatherAll, MpSsh2;
    var g0 := Gathered(name, [], 0);
    var g1 := g0.(blob := name + MpSsh2(p));
    var g2 := g1.(blob := g1.blob + MpSsh2(q));
    var g3 := g2.(blob := g2.blob + MpSsh2(g));
    var g4 := Gathered(g3.blob + MpSsh2(y), [], |g3.blob + MpSsh2(y)|);
    assert [[0], p, q, g, y, x] == [[0]] + [p, q, g, y, x];
    GatherStep(OpDsa, 0, g0, [0], [p, q, g, y, x]);
    assert [p, q, g, y, x] == [p] + [q, g, y, x];
    GatherStep(OpDsa, 1, g0, p, [q, g, y, x]);
    assert [q, g, y, x] == [q] + [g, y, x];
    GatherStep(OpDsa, 2, g1, q, [g, y, x]);
    assert [g, y, x] == [g] + [y, x];
    GatherStep(OpDsa, 3, g2, g, [y, x]);
    assert [y, x] == [y] + [x];
    GatherStep(OpDsa, 4, g3, y, [x]);
    assert [x] == [x] + [];
    GatherStep(OpDsa, 5, g4, x, []);
    GatherNothing(OpDsa, 6, g4.(blob := g4.blob + MpSsh2(x)));
  }

  lemma SequenceOfRsa(suite: Suite, parts: Parts, encrypted: bool)
    requires suite.Sound() && parts.Fits() && parts.RsaParts?
    ensures ReadSequence(OpRsa, encrypted, Inner(suite, parts)) == Success(parts.Canonicalised().Key())
  {
    hide Integers, IntegerElements, GatherAll, Strs, Str, Canon;
    var RsaParts(e, n, d, p, q, iqmp) := parts;
    var dmp1, dmq1 := suite.reduce(d, p), suite.reduce(d, q);
    var name := ToBytes("ssh-rsa");
    IntegersOfElements(OpRsa, encrypted, 0, Gathered(Str(name), [], 0), Numbers(suite, parts));
    GatherRsa(Str(name), n, e, d, p, q, dmp1, dmq1, iqmp, Str(name) + MpSsh2(e) + MpSsh2(n));
    RsaBlobs(name, Canon(e), Canon(n), Canon(d), Canon(p), Canon(q), Canon(iqmp));
  }

  lemma RsaBlobs(name: seq<Byte>, e: seq<Byte>, n: seq<Byte>, d: seq<Byte>, p: seq<Byte>, q: seq<Byte>, iqmp: seq<Byte>)
    ensures var pub := Str(name) + Str(e) + Str(n);
            var blob := pub + Str(d) + Str(p) + Str(q) + Str(iqmp);
            blob[..|pub|] == Strs([name, e, n]) && blob[|pub|..] == Strs([d, p, q, iqmp])
  {
    var pub := Str(name) + Str(e) + Str(n);
    StrsOfThree(name, e, n);
    StrsOfFour(d, p, q, iqmp);
    var priv := Str(d) + Str(p) + Str(q) + Str(iqmp);
    Assoc(pub, Str(d), Str(p));
    Assoc(pub, Str(d) + Str(p), Str(q));
    Assoc(pub, Str(d) + Str(p) + Str(q), Str(iqmp));
    assert pub + Str(d) + Str(p) + Str(q) + Str(iqmp) == pub + priv;
  }

  lemma SequenceOfDsa(suite: Suite, parts: Parts, encrypted: bool)
    requires suite.Sound() && parts.Fits() && parts.DsaParts?
    ensures ReadSequence(OpDsa, encrypted, Inner(suite, parts)) == Success(parts.Canonicalised().Key())
  {
    hide Integers, IntegerElements, GatherAll, Strs, Str, Canon;
    var DsaParts(p, q, g, y, x) := parts;
    var name := ToBytes("ssh-dss");
    IntegersOfElements(OpDsa, encrypted, 0, Gathered(Str(name), [], 0), Numbers(suite, parts));
    GatherDsa(Str(name), p, q, g, y, x, Str(name) + MpSsh2(p) + MpSsh2(q) + MpSsh2(g) + MpSsh2(y));
    DsaBlobs(name, Canon(p), Canon(q), Canon(g), Canon(y), Canon(x));
  }

  lemma DsaBlobs(name: seq<Byte>, p: seq<Byte>, q: seq<Byte>, g: seq<Byte>, y: seq<Byte>, x: seq<Byte>)
    ensures var pub := Str(name) + Str(p) + Str(q) + Str(g) + Str(y);
            (pub + Str(x))[..|pub|] == Strs([name, p, q, g, y]) && (pub + Str(x))[|pub|..] == Strs([x])
  {
    StrsOfFive(name, p, q, g, y);
    StrsOfOne(x);
  }

  lemma SequenceOfEcdsa(suite: Suite, parts: Parts, encrypted: bool)
    requires suite.Sound() && parts.Fits() && parts.EcParts?
    ensures ReadSequence(OpEcdsa, encrypted, Inner(suite, parts)) == Success(parts.Canonicalised().Key())
  {
    var EcParts(c, point, scalar) := parts;
    EcdsaIsRead(c, point, scalar, encrypted);
    StrsOfThree(ToBytes(c.SshId()), ToBytes(c.Name()), point);
    StrsOfOne(Canon(scalar));
  }

  lemma EcdsaIsRead(c: Curve, point: seq<Byte>, scalar: seq<Byte>, encrypted: bool)
    requires EcParts(c, point, scalar).Fits()
    ensures ReadEcdsa(encrypted, Input(EcdsaElements(c, point, scalar), false))
         == Success(SshKey(Ecdsa(c), Str(ToBytes(c.SshId())) + Str(ToBytes(c.Name())) + Str(point), MpSsh2(scalar)))
  {
    HeaderIsSmall(6, |c.Oid()|, 0);
    HeaderIsSmall(3, |point| + 1, 0);
    var oid := Element(6, 0, c.Oid());
    var pub := Element(3, 0, [0] + point);
    assert |oid| < TWO_32 && |pub| < TWO_32;
    assert ([0] + point)[1..] == point;
    OidsDiffer(c);
    assert EcdsaKey(encrypted, c.Oid(), [0] + point, scalar)
        == Success(SshKey(Ecdsa(c), Str(ToBytes(c.SshId())) + Str(ToBytes(c.Name())) + Str(point), MpSsh2(scalar)));
    ReadFourElements(encrypted, scalar, oid, pub, c.Oid(), [0] + point);
  }

  /** The SEQUENCE of four elements, two of them wrapping one more, is taken apart as it was put together. */
  lemma ReadFourElements(encrypted: bool, scalar: seq<Byte>, oid: seq<Byte>, pub: seq<Byte>,
                         oidData: seq<Byte>, bits: seq<Byte>)
    requires |scalar| < TWO_32 && |oid| < TWO_32 && |pub| < TWO_32 && |oidData| < TWO_32 && |bits| < TWO_32
    requires oid == Element(6, 0, oidData) && pub == Element(3, 0, bits)
    ensures ReadEcdsa(encrypted, Input(Element(2, 0, [1]) + Element(4, 0, scalar)
                                       + Element(0, 0xA0, oid) + Element(1, 0xA0, pub), false))
         == EcdsaKey(encrypted, oidData, bits, scalar)
  {
    hide GetBer, Element, EcdsaKey;
    var one, key, sub0, sub1 :=
      Element(2, 0, [1]), Element(4, 0, scalar), Element(0, 0xA0, oid), Element(1, 0xA0, pub);
    Assoc(one, key, sub0);
    Assoc(one, key + sub0, sub1);
    Assoc(key, sub0, sub1);
    GetBerOfElement(2, 0, [1], key + (sub0 + sub1));
    GetBerOfElement(4, 0, scalar, sub0 + sub1);
    GetBerOfElement(0, 0xA0, oid, sub1);
    assert sub1 + [] == sub1 && oid + [] == oid && pub + [] == pub;
    GetBerOfElement(1, 0xA0, pub, []);
    GetBerOfElement(6, 0, oidData, []);
    GetBerOfElement(3, 0, bits, []);
  }

  lemma OidsDiffer(c: Curve)
    ensures CurveByOid(c.Oid()) == Some(c)
  {
    assert P384.Oid()[4] != P521.Oid()[4];
  }

  // The whole file.

  lemma SequenceIsRead(suite: Suite, parts: Parts, encrypted: bool)
    requires suite.Sound() && parts.Fits()
    ensures ReadSequence(TypeOf(parts), encrypted, Inner(suite, parts)) == Success(parts.Canonicalised().Key())
  {
    match parts
    case RsaParts(_, _, _, _, _, _) => SequenceOfRsa(suite, parts, encrypted);
    case DsaParts(_, _, _, _, _) => SequenceOfDsa(suite, parts, encrypted);
    case EcParts(_, _, _) => SequenceOfEcdsa(suite, parts, encrypted);
  }

  lemma BlobsAreNotEmpty(suite: Suite, parts: Parts, passphrase: seq<Byte>, iv: seq<Byte>)
    requires suite.Sound() && parts.Fits() && |iv| == 8
    ensures |Outer(suite, parts)| > 0
    ensures var cipher := EncryptedBlob(suite, Outer(suite, parts), passphrase, iv); |cipher| > 0 && |cipher| % 8 == 0
  {
    hide Inner, DeriveKey;
    var blob := Outer(suite, parts);
    assert |blob + Padding(|blob|)| % 8 == 0;
  }

  /** What the loader finds in an exported file. */
  ghost function LoadedFile(suite: Suite, parts: Parts, passphrase: Option<seq<Byte>>, iv: seq<Byte>): (st: Loaded)
    requires suite.Sound() && parts.Fits() && |iv| == 8
    ensures st.Valid()
  {
    var blob := Outer(suite, parts);
    match passphrase
    case None => Start().(headersDone := true, body := Body("", blob))
    case Some(p) => Loaded(true, true, Des3, iv + Repeat(24, 0), Body("", EncryptedBlob(suite, blob, p, iv)))
  }

  lemma LoadOfFile(suite: Suite, parts: Parts, passphrase: Option<seq<Byte>>, iv: seq<Byte>)
    requires suite.Sound() && parts.Fits() && |iv| == 8
    ensures Load(File(suite, parts, passphrase, iv))
         == Success((TypeOf(parts), LoadedFile(suite, parts, passphrase, iv)))
  {
    BlobsAreNotEmpty(suite, parts, if passphrase.Some? then passphrase.value else [], iv);
    hide Outer, EncryptedBlob, WrapLines, EncodeChars, Lines, NextLine, ParseBegin, HeaderLines, Clean, EndLine;
    var kt := TypeOf(parts);
    var end := EndLine(kt) + "\n";
    FirstLine(kt);
    if passphrase.None? {
      var body := WrapLines(EncodeChars(Outer(suite, parts)), 64);
      Assoc(BeginLine(kt) + "\n", body, end);
      NextLineOfWritten(BeginLine(kt), body + end);
      LoadBody(Start(), kt, Outer(suite, parts));
    } else {
      var cipher := EncryptedBlob(suite, Outer(suite, parts), passphrase.value, iv);
      var body := WrapLines(EncodeChars(cipher), 64);
      Assoc(BeginLine(kt) + "\n", HeaderLines(iv) + body, end);
      Assoc(HeaderLines(iv), body, end);
      NextLineOfWritten(BeginLine(kt), HeaderLines(iv) + (body + end));
      HeadersAreRead(iv, body + end);
      LoadBody(Start().(headersDone := true, encrypted := true, encryption := Des3, iv := iv + Repeat(24, 0)),
               kt, cipher);
    }
  }

  /** Decryption undoes encryption, padding included. */
  lemma DecryptOfLoaded(suite: Suite, parts: Parts, passphrase: Option<seq<Byte>>, iv: seq<Byte>, given: seq<Byte>)
    returns (pad: seq<Byte>)
    requires suite.Sound() && parts.Fits() && |iv| == 8
    requires passphrase.Some? ==> given == passphrase.value
    ensures Decrypt(suite, LoadedFile(suite, parts, passphrase, iv), given) == Outer(suite, parts) + pad
  {
    hide Outer;
    var blob := Outer(suite, parts);
    if passphrase.Some? {
      pad := Padding(|blob|);
      assert (iv + Repeat(24, 0))[..8] == iv && iv[..8] == iv;
      var keybuf := DeriveKey(suite, given, iv);
      assert DeriveKey(suite, given, iv + Repeat(24, 0)) == keybuf;
      hide DeriveKey;
      assert |blob + pad| % 8 == 0;
      assert suite.des3Decrypt(keybuf, iv, suite.des3Encrypt(keybuf, iv, blob + pad)) == blob + pad;
    } else {
      pad := [];
      assert blob + pad == blob;
    }
  }

  lemma OuterIsElement(suite: Suite, parts: Parts, pad: seq<Byte>)
    requires suite.Sound() && parts.Fits()
    ensures GetBer(Input(Outer(suite, parts) + pad, false))
         == (Item(16, CONSTRUCTED, Inner(suite, parts)), Input(pad, false))
  {
    hide Inner, GetBer, Element;
    GetBerOfElement(16, CONSTRUCTED, Inner(suite, parts), pad);
  }

  /** The reader's last steps, from a loaded file and a decrypted blob. */
  lemma ReadFromParts(suite: Suite, t: string, given: seq<Byte>, kt: KeyType, st: Loaded,
                      inner: seq<Byte>, pad: seq<Byte>, key: SshKey)
    requires st.Valid() && Load(t) == Success((kt, st))
    requires GetBer(Input(Decrypt(suite, st, given), false)) == (Item(16, CONSTRUCTED, inner), Input(pad, false))
    requires ReadSequence(kt, st.encrypted, inner) == Success(key)
    ensures Read(suite, t, given) == Success(UserKey(key, COMMENT))
  {
    hide Load, GetBer, Decrypt, ReadSequence;
  }

  /**
   * For every RSA, DSA and NIST ECDSA key, with or without a passphrase: reading the exported file with
   * that passphrase gives the key with each integer in its canonical form.
   */
  lemma ReadOfFile(suite: Suite, parts: Parts, passphrase: Option<seq<Byte>>, iv: seq<Byte>, given: seq<Byte>)
    requires suite.Sound() && parts.Fits() && |iv| == 8
    requires passphrase.Some? ==> given == passphrase.value
    ensures Read(suite, File(suite, parts, passphrase, iv), given)
         == Success(UserKey(parts.Canonicalised().Key(), COMMENT))
  {
    hide *;
    LoadOfFile(suite, parts, passphrase, iv);
    var st := LoadedFile(suite, parts, passphrase, iv);
    var pad := DecryptOfLoaded(suite, parts, passphrase, iv, given);
    OuterIsElement(suite, parts, pad);
    SequenceIsRead(suite, parts, st.encrypted);
    ReadFromParts(suite, File(suite, parts, passphrase, iv), given, TypeOf(parts), st,
                  Inner(suite, parts), pad, parts.Canonicalised().Key());
  }

  /** The file gives back the very blobs it was made from exactly when every integer was canonical. */
  lemma RoundTripIffCanonical(suite: Suite, parts: Parts, passphrase: Option<seq<Byte>>, iv: seq<Byte>, given: seq<Byte>)
    requires suite.Sound() && parts.Fits() && |iv| == 8
    requires passphrase.Some? ==> given == passphrase.value
    ensures Read(suite, File(suite, parts, passphrase, iv), given) == Success(UserKey(parts.Key(), COMMENT))
       <==> parts.IsCanonical()
  {
    hide *;
    ReadOfFile(suite, parts, passphrase, iv, given);
    KeyIsCanonical(parts);
  }
}
