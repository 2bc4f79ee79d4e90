/** load_openssh_pem_key, openssh_pem_read and openssh_pem_write as the source runs them. */
module OpensshPemImport {
  import opened Bytes
  import opened Marshal
  import opened Ber
  import opened Mpint
  import opened Base64
  import opened KeyText
  import opened Keys
  import opened OpensshPem
  import opened OpensshPemRoundTrip

  /** The loop that reads `ivlen` pairs of hex digits. */
  method ParseIv(st: Loaded, e: Encryption, ivlen: nat, hex: string) returns (r: Result<Loaded, Fault>)
    requires st.Valid() && ivlen <= IV_BYTES
    ensures r == DekInfo(st, e, ivlen, hex)
  {
    var iv: seq<Byte> := [];
    var p := hex;
    assert ReadHex(p, ivlen).Some? ==> [] + ReadHex(p, ivlen).value.0 == ReadHex(p, ivlen).value.0;
    while |iv| < ivlen
      invariant |iv| <= ivlen
      invariant ReadHex(hex, ivlen) == match ReadHex(p, ivlen - |iv|)
                                       case None => None
                                       case Some((bytes, rest)) => Some((iv + bytes, rest))
    {
      if |p| < 2 || HexValue(p[0]).None? {
        return Failure(BadIv);
      }
      var hi, lo := HexValue(p[0]).value, HexValue(p[1]);
      var byte: Byte := if lo.Some? then hi * 16 + lo.value else hi;
      ghost var before := iv;
      iv := iv + [byte];
      p := p[2..];
      ghost var later := ReadHex(p, ivlen - |iv|);
      if later.Some? {
        Assoc(before, [byte], later.value.0);
      }
    }
    assert iv + [] == iv;
    if p != "" {
      return Failure(BadIv);
    }
    r := Success(st.(encryption := e, iv := iv + st.iv[ivlen..]));
  }

  method ProcessHeader(st: Loaded, name: string, value: string) returns (r: Result<Loaded, Fault>)
    requires st.Valid()
    ensures r == HeaderField(st, name, value)
  {
    hide DekInfo;
    if name == PROC_TYPE {
      if |value| < 2 || value[0] != '4' || value[1] != ',' {
        return Failure(BadProcType);
      }
      return Success(if value[2..] == "ENCRYPTED" then st.(encrypted := true) else st);
    } else if name == DEK_INFO {
      if StartsWith(value, DES_CBC) {
        r := ParseIv(st, Des3, 8, value[13..]);
      } else if StartsWith(value, "AES-128-CBC,") {
        r := ParseIv(st, Aes, 16, value[12..]);
      } else {
        r := Failure(BadCipher);
      }
    } else {
      r := Success(st);
    }
  }

  method ProcessLine(st: Loaded, line: string) returns (r: Result<Loaded, Fault>)
    requires st.Valid()
    ensures r == Line(st, line)
  {
    hide HeaderField, Feed, SkipSpaces;
    var colon := Find(line, ':');
    if colon < |line| {
      if st.headersDone {
        return Failure(HeaderInBody);
      }
      r := ProcessHeader(st, line[..colon], SkipSpaces(line[colon + 1..]));
    } else {
      var ok, bit, blob := FeedLine(st.body.bit, st.body.blob, line);
      r := if ok then Success(st.(headersDone := true, body := Body(bit, blob))) else Failure(BadBase64);
    }
  }

  /**
   * load_openssh_pem_key. A loop that has taken more turns than there are characters never ends
   * (EndOfData.PemAnswersIff).
   */
  method LoadKey(src: TextSource) returns (r: Result<(KeyType, Loaded), Fault>)
    requires src.Valid()
    modifies src
    ensures r == Load(old(src.Rest()))
  {
    hide NextLine, ParseBegin, Line, IsEnd, Lines;
    var line := src.GetLine();
    var begin := ParseBegin(line);
    if begin.Failure? {
      return Failure(begin.error);
    }
    var st := Start();
    var chars := src.Remaining();
    var turns: nat := chars + 1;
    TurnsOfLines(st, src.Rest(), turns);
    ghost var whole := LinesInTurns(st, src.Rest(), turns);
    var done := false;
    while !done
      invariant src.Valid() && st.Valid()
      invariant whole == if done then Some(Success(st)) else LinesInTurns(st, src.Rest(), turns)
      decreases !done, turns
    {
      if turns == 0 {
        return Failure(NoAnswer);
      }
      turns := turns - 1;
      line := src.GetLine();
      if IsEnd(line) {
        done := true;
      } else {
        var step := ProcessLine(st, line);
        if step.Failure? {
          return Failure(step.error);
        }
        st := step.value;
      }
    }
    if st.body.blob == [] {
      return Failure(NoBody);
    }
    if st.encrypted && |st.body.blob| % 8 != 0 {
      return Failure(BadBlockSize);
    }
    r := Success((begin.value, st));
  }

  /** The loop over the INTEGERs of an RSA or DSA key. */
  method ReadIntegers(kt: KeyType, encrypted: bool, src: BinarySource, name: seq<Byte>)
    returns (r: Result<Gathered, KeyError>)
    requires src.Valid() && kt != OpEcdsa
    modifies src
    ensures r == Integers(kt, encrypted, 0, Gathered(name, [], 0), old(src.In()))
  {
    hide GetBer, MpSsh2;
    var blob := new Strbuf();
    blob.PutData(name);
    var modulus: seq<Byte> := [];
    var publen: nat := 0;
    var i: nat := 0;
    assert blob.u == name;
    ghost var whole := Integers(kt, encrypted, 0, Gathered(name, [], 0), src.In());
    while i < NumIntegers(kt)
      invariant 0 <= i <= NumIntegers(kt) && src.Valid() && fresh(blob)
      invariant whole == Integers(kt, encrypted, i, Gathered(blob.u, modulus, publen), src.In())
    {
      var integer := ReadBer(src);
      if src.err || integer.id != 2 {
        return Failure(KeyError(Asn1, encrypted));
      }
      if i == 0 {
        if |integer.data| != 1 || integer.data[0] != 0 {
          return Failure(KeyError(BadVersion, false));
        }
      } else if kt == OpRsa {
        if i == 1 {
          modulus := integer.data;
        } else if i != 6 && i != 7 {
          PutMpSsh2FromString(blob, integer.data);
          if i == 2 {
            PutMpSsh2FromString(blob, modulus);
            publen := |blob.u|;
          }
        }
      } else {
        PutMpSsh2FromString(blob, integer.data);
        if i == 4 {
          publen := |blob.u|;
        }
      }
      i := i + 1;
    }
    r := Success(Gathered(blob.u, modulus, publen));
  }

  /** Building an ECDSA key from the pieces of its SEQUENCE. */
  method BuildEcdsaKey(encrypted: bool, oid: seq<Byte>, pubkey: seq<Byte>, privkey: seq<Byte>)
    returns (r: Result<SshKey, KeyError>)
    ensures r == EcdsaKey(encrypted, oid, pubkey, privkey)
  {
    hide MpSsh2, CurveByOid, ToBytes, Put32;
    var curve := CurveByOid(oid);
    if curve.None? {
      return Failure(KeyError(BadCurve, false));
    }
    var c := curve.value;
    if |pubkey| != c.PointLen() + 2 {
      return Failure(KeyError(Asn1, encrypted));
    }
    var blob := new Strbuf();
    var bits := pubkey[1..];
    assert |bits| < TWO_32;
    blob.PutString(ToBytes(c.SshId()));
    blob.PutString(ToBytes(c.Name()));
    blob.PutString(bits);
    var publen := |blob.u|;
    ghost var pub := Str(ToBytes(c.SshId())) + Str(ToBytes(c.Name())) + Str(bits);
    assert blob.u == pub;
    PutMpSsh2FromString(blob, privkey);
    assert blob.u[..publen] == pub && blob.u[publen..] == MpSsh2(privkey);
    r := Success(SshKey(Ecdsa(c), blob.u[..publen], blob.u[publen..]));
  }

  /** The ECDSA branch of openssh_pem_read: one source is pointed at three blocks in turn. */
  method ReadEcdsaKey(encrypted: bool, inner: seq<Byte>) returns (r: Result<SshKey, KeyError>)
    ensures r == ReadEcdsa(encrypted, Input(inner, false))
  {
    hide GetBer, EcdsaKey;
    var src := new BinarySource(inner);
    var integer := ReadBer(src);
    var privkey := ReadBer(src);
    var sub0 := ReadBer(src);
    var sub1 := ReadBer(src);
    src := new BinarySource(sub0.data);
    var oid := ReadBer(src);
    src := new BinarySource(sub1.data);
    var pubkey := ReadBer(src);
    if src.err || integer.id != 2 || integer.data != [1] || privkey.id != 4
       || sub0.id != 0 || sub1.id != 1 || oid.id != 6 || pubkey.id != 3 {
      return Failure(KeyError(Asn1, encrypted));
    }
    r := BuildEcdsaKey(encrypted, oid.data, pubkey.data, privkey.data);
  }

  function TypeString(kt: KeyType): seq<Byte> {
    Str(ToBytes(if kt == OpDsa then "ssh-dss" else "ssh-rsa"))
  }

  lemma SequenceCases(kt: KeyType, encrypted: bool, inner: seq<Byte>)
    ensures ReadSequence(kt, encrypted, inner)
         == if kt == OpEcdsa then ReadEcdsa(encrypted, Input(inner, false))
            else
              var g := Integers(kt, encrypted, 0, Gathered(TypeString(kt), [], 0), Input(inner, false));
              if g.Failure? then Failure(g.error) else CutKey(kt, g.value)
  {
    hide Integers, ReadEcdsa, ToBytes, Str, CutKey;
  }

  /** The contents of the SEQUENCE. */
  method ReadSequenceKey(kt: KeyType, encrypted: bool, inner: seq<Byte>) returns (key: Result<SshKey, KeyError>)
    ensures key == ReadSequence(kt, encrypted, inner)
  {
    SequenceCases(kt, encrypted, inner);
    var name := TypeString(kt);
    hide *;
    if kt == OpEcdsa {
      key := ReadEcdsaKey(encrypted, inner);
      return;
    }
    var src := new BinarySource(inner);
    var g := ReadIntegers(kt, encrypted, src, name);
    if g.Failure? {
      return Failure(g.error);
    }
    key := Cut(kt, g.value);
  }

  method Cut(kt: KeyType, g: Gathered) returns (key: Result<SshKey, KeyError>)
    ensures key == CutKey(kt, g)
  {
    if g.publen > |g.blob| {
      return Failure(KeyError(BadKeyBlob, false));
    }
    key := Success(SshKey(if kt == OpRsa then Rsa else Dsa, g.blob[..g.publen], g.blob[g.publen..]));
  }

  /** openssh_pem_read. */
  method ReadKey(suite: Suite, text: string, passphrase: seq<Byte>) returns (r: Result<UserKey, KeyError>)
    ensures r == Read(suite, text, passphrase)
  {
    hide Load, ReadSequence, GetBer, Decrypt;
    var filesrc := new TextSource(text);
    var loaded := LoadKey(filesrc);
    if loaded.Failure? {
      return Failure(KeyError(loaded.error, false));
    }
    var (kt, st) := loaded.value;
    var src := new BinarySource(Decrypt(suite, st, passphrase));
    var item := ReadBer(src);
    if src.err || item.id != 16 {
      return Failure(KeyError(Asn1, st.encrypted));
    }
    var key := ReadSequenceKey(kt, st.encrypted, item.data);
    if key.Failure? {
      return Failure(key.error);
    }
    r := Success(UserKey(key.value, COMMENT));
  }

  /** What is still to be read, put behind what has been. */
  ghost predicate Taken(whole: seq<seq<Byte>>, ss: seq<seq<Byte>>, i: Input, n: nat) {
    |ss| <= n && whole == ss + GetStrings(i, n - |ss|).0
  }

  lemma TakeNext(whole: seq<seq<Byte>>, ss: seq<seq<Byte>>, i: Input, n: nat)
    requires Taken(whole, ss, i, n) && |ss| < n
    ensures Taken(whole, ss + [GetString(i).0], GetString(i).1, n)
  {
    var (s, j) := GetString(i);
    hide GetString;
    var rest := GetStrings(j, n - |ss| - 1).0;
    assert GetStrings(i, n - |ss|).0 == [s] + rest;
    Assoc(ss, [s], rest);
  }

  lemma TakeAll(whole: seq<seq<Byte>>, ss: seq<seq<Byte>>, i: Input, n: nat)
    ensures Taken(GetStrings(i, n).0, [], i, n)
    ensures Taken(whole, ss, i, n) && |ss| == n ==> ss == whole
  {
    assert [] + GetStrings(i, n).0 == GetStrings(i, n).0;
    assert ss + [] == ss;
  }

  /** Reading `n` strings off a key's blob, as both writers start. */
  method TakeStrings(blob: seq<Byte>, n: nat) returns (ss: seq<seq<Byte>>)
    ensures ss == GetStrings(Input(blob, false), n).0
  {
    hide *;
    var src := new BinarySource(blob);
    ss := [];
    ghost var whole := GetStrings(src.In(), n).0;
    TakeAll(whole, ss, src.In(), n);
    while |ss| < n
      invariant src.Valid() && |ss| <= n && Taken(whole, ss, src.In(), n)
    {
      TakeNext(whole, ss, src.In(), n);
      var s := src.ReadString();
      ss := ss + [s];
    }
    TakeAll(whole, ss, src.In(), n);
  }

  /** The loop that writes the INTEGERs. */
  method WriteIntegers(seqbuf: Strbuf, numbers: seq<seq<Byte>>)
    requires AllShort(numbers)
    modifies seqbuf
    ensures seqbuf.u == old(seqbuf.u) + IntegerElements(numbers)
  {
    hide Element;
    var i := 0;
    assert numbers[0..] == numbers;
    while i < |numbers|
      invariant 0 <= i <= |numbers|
      invariant seqbuf.u + IntegerElements(numbers[i..]) == old(seqbuf.u) + IntegerElements(numbers)
    {
      ghost var before := seqbuf.u;
      PutElement(seqbuf, 2, numbers[i], 0);
      assert numbers[i..][1..] == numbers[i + 1..];
      Assoc(before, Element(2, 0, numbers[i]), IntegerElements(numbers[i + 1..]));
      i := i + 1;
    }
    assert seqbuf.u + [] == seqbuf.u;
  }

  /** Where the ECDSA writer finds the point and the scalar inside the blobs. */
  lemma EcdsaOffsets(parts: Parts)
    requires parts.Fits() && parts.EcParts?
    ensures |parts.PublicBlob()| == 40 + parts.curve.PointLen() && parts.PublicBlob()[39..] == parts.point
    ensures |parts.PrivateBlob()| >= 4 && parts.PrivateBlob()[4..] == parts.scalar
  {
    var id, name := ToBytes(parts.curve.SshId()), ToBytes(parts.curve.Name());
    hide ToBytes, Put32;
    StrsOfThree(id, name, parts.point);
    assert Str(id) + Str(name) + Str(parts.point) == (Str(id) + Str(name) + Put32(|parts.point|)) + parts.point;
    StrsOfOne(parts.scalar);
  }

  /** What the writer takes from the blobs, and that it fits into lengths. */
  lemma EcdsaPieces(parts: Parts)
    requires parts.Fits() && parts.EcParts?
    ensures var c, key := parts.curve, parts.Key();
            && 40 + c.PointLen() == |key.pub| && key.pub[39..] == parts.point
            && 4 <= |key.priv| && key.priv[4..] == parts.scalar
            && |parts.scalar| < TWO_32 && |c.Oid()| < TWO_32 && |parts.point| + 1 < TWO_32
            && |Element(6, 0, c.Oid())| < TWO_32 && |Element(3, 0, [0] + parts.point)| < TWO_32
  {
    EcdsaOffsets(parts);
    HeaderIsSmall(6, |parts.curve.Oid()|, 0);
    HeaderIsSmall(3, |parts.point| + 1, 0);
    hide Header, Parts.PublicBlob, Parts.PrivateBlob;
  }

  lemma EcdsaElementsAre(c: Curve, point: seq<Byte>, scalar: seq<Byte>)
    requires EcParts(c, point, scalar).Fits()
    requires |Element(6, 0, c.Oid())| < TWO_32 && |Element(3, 0, [0] + point)| < TWO_32
    requires |scalar| < TWO_32 && |c.Oid()| < TWO_32 && |point| + 1 < TWO_32
    ensures EcdsaElements(c, point, scalar)
         == [] + Element(2, 0, [1]) + Element(4, 0, scalar)
            + Element(0, CONTEXT_SPECIFIC + CONSTRUCTED, Element(6, 0, c.Oid()))
            + Element(1, CONTEXT_SPECIFIC + CONSTRUCTED, Element(3, 0, [0] + point))
  {
    hide Element, Curve.Oid;
    assert [] + Element(2, 0, [1]) == Element(2, 0, [1]);
  }

  /** The ECDSA branch of openssh_pem_write. */
  method WriteEcdsa(c: Curve, key: SshKey, ghost parts: Parts) returns (inner: seq<Byte>)
    requires parts.Fits() && parts.EcParts? && parts.curve == c && key == parts.Key()
    ensures inner == EcdsaElements(c, parts.point, parts.scalar)
  {
    EcdsaPieces(parts);
    assert parts == EcParts(c, parts.point, parts.scalar) && IsFlags(0);
    hide *;
    var scalar, point := key.priv[4..], key.pub[39..40 + c.PointLen()];
    assert point == key.pub[39..];
    EcdsaElementsAre(c, point, scalar);
    var seqbuf := new Strbuf();
    PutElement(seqbuf, 2, [1], 0);
    PutElement(seqbuf, 4, scalar, 0);
    PutWrapped(seqbuf, 0, 6, c.Oid());
    PutWrapped(seqbuf, 1, 3, [0] + point);
    inner := seqbuf.u;
  }

  /** An element on its own inside a context-specific one. */
  method PutWrapped(seqbuf: Strbuf, outer: nat, id: nat, data: seq<Byte>)
    requires |data| < TWO_32 && |Element(id, 0, data)| < TWO_32
    modifies seqbuf
    ensures seqbuf.u == old(seqbuf.u) + Element(outer, CONTEXT_SPECIFIC + CONSTRUCTED, Element(id, 0, data))
  {
    hide Element;
    var sub := new Strbuf();
    PutElement(sub, id, data, 0);
    assert sub.u == Element(id, 0, data);
    PutElement(seqbuf, outer, sub.u, CONTEXT_SPECIFIC + CONSTRUCTED);
  }

  /** The branches of openssh_pem_write that fill the SEQUENCE. */
  method WriteInner(suite: Suite, key: SshKey, ghost parts: Parts) returns (inner: seq<Byte>)
    requires suite.Sound() && parts.Fits() && key == parts.Key()
    ensures inner == Inner(suite, parts)
  {
    hide IntegerElements, EcdsaElements, GetStrings, Strs, ToBytes;
    PartsOfKey(parts);
    var seqbuf := new Strbuf();
    match key.alg
    case Rsa =>
      var pub := TakeStrings(key.pub, 3);
      var priv := TakeStrings(key.priv, 4);
      var e, n := pub[1], pub[2];
      var d, p, q, iqmp := priv[0], priv[1], priv[2], priv[3];
      WriteIntegers(seqbuf, [[0], n, e, d, p, q, suite.reduce(d, p), suite.reduce(d, q), iqmp]);
      inner := seqbuf.u;
      assert inner == [] + Inner(suite, parts);
    case Dsa =>
      var pub := TakeStrings(key.pub, 5);
      var priv := TakeStrings(key.priv, 1);
      WriteIntegers(seqbuf, [[0], pub[1], pub[2], pub[3], pub[4], priv[0]]);
      inner := seqbuf.u;
      assert inner == [] + Inner(suite, parts);
    case Ecdsa(c) =>
      inner := WriteEcdsa(c, key, parts);
  }

  /** openssh_pem_write. */
  method WriteKey(suite: Suite, key: SshKey, ghost parts: Parts, passphrase: Option<seq<Byte>>, iv: seq<Byte>)
    returns (text: string)
    requires suite.Sound() && parts.Fits() && key == parts.Key() && |iv| == 8
    ensures text == File(suite, parts, passphrase, iv)
  {
    hide Element, Inner, DeriveKey, WrapLines, EncodeChars, HeaderLines, BeginLine, EndLine,
         Parts.PublicBlob, Parts.PrivateBlob, Parts.Within;
    var inner := WriteInner(suite, key, parts);
    var outblob := new Strbuf();
    PutElement(outblob, 16, inner, CONSTRUCTED);
    ghost var blob := Outer(suite, parts);
    assert outblob.u == blob;
    var kt := match key.alg case Rsa => OpRsa case Dsa => OpDsa case Ecdsa(_) => OpEcdsa;
    text := BeginLine(kt) + "\n";
    if passphrase.Some? {
      var origlen := |outblob.u|;
      var outlen := (origlen + 8) / 8 * 8;
      outblob.PutPadding(outlen - origlen, outlen - origlen);
      assert outblob.u == blob + Padding(|blob|);
      var keybuf := DeriveKey(suite, passphrase.value, iv);
      outblob.u := suite.des3Encrypt(keybuf, iv, outblob.u);
      text := text + HeaderLines(iv);
    }
    var body := Encode(outblob.u, 64);
    text := text + body + (EndLine(kt) + "\n");
    assert passphrase.Some? ==> BeginLine(kt) + "\n" + HeaderLines(iv) + body == BeginLine(kt) + "\n" + (HeaderLines(iv) + body);
  }

  /** Exporting a key and importing the file returns it, with every integer in canonical form. */
  method ExportAndImport(suite: Suite, key: SshKey, ghost parts: Parts, passphrase: Option<seq<Byte>>, iv: seq<Byte>)
    returns (r: Result<UserKey, KeyError>)
    requires suite.Sound() && parts.Fits() && key == parts.Key() && |iv| == 8
    ensures r == Success(UserKey(parts.Canonicalised().Key(), COMMENT))
    ensures parts.IsCanonical() ==> r == Success(UserKey(key, COMMENT))
  {
    hide *;
    var text := WriteKey(suite, key, parts, passphrase, iv);
    var given := if passphrase.Some? then passphrase.value else [];
    r := ReadKey(suite, text, given);
    ReadOfFile(suite, parts, passphrase, iv, given);
    KeyIsCanonical(parts);
  }
}
