/** OpenSSH private keys in the old PEM format: the loader, the reader and the writer. */
module OpensshPem {
  import opened Bytes
  import opened Marshal
  import opened Ber
  import opened Mpint
  import opened Base64
  import opened KeyText
  import opened Keys

  datatype KeyType = OpRsa | OpDsa | OpEcdsa

  datatype Encryption = Des3 | Aes

  const IV_BYTES := 32

  /** What the loader has gathered: the header fields, and the carry of the base64 body. */
  datatype Loaded = Loaded(headersDone: bool, encrypted: bool, encryption: Encryption, iv: seq<Byte>, body: Body) {
    ghost predicate Valid() {
      |iv| == IV_BYTES && body.Valid()
    }
  }

  /** `encryption` is uninitialised in the source until a DEK-Info header is seen; here it starts as Aes. */
  function Start(): (st: Loaded)
    ensures st.Valid()
  {
    Loaded(false, false, Aes, Repeat(IV_BYTES, 0), Body("", []))
  }

  const BEGIN := "-----BEGIN "
  const END := "-----END "
  const PRIVATE := "PRIVATE KEY-----"

  predicate StartsWith(s: string, p: string) {
    |p| <= |s| && s[..|p|] == p
  }

  predicate EndsWith(s: string, p: string) {
    |p| <= |s| && s[|s| - |p|..] == p
  }

  function Kind(t: KeyType): string {
    match t
    case OpRsa => "RSA "
    case OpDsa => "DSA "
    case OpEcdsa => "EC "
  }

  function BeginLine(t: KeyType): string {
    BEGIN + Kind(t) + PRIVATE
  }

  function EndLine(t: KeyType): string {
    END + Kind(t) + PRIVATE
  }

  function ParseBegin(line: string): Result<KeyType, Fault> {
    if !StartsWith(line, BEGIN) || !EndsWith(line, PRIVATE) then Failure(BadHeader)
    else if line == BeginLine(OpRsa) then Success(OpRsa)
    else if line == BeginLine(OpDsa) then Success(OpDsa)
    else if line == BeginLine(OpEcdsa) then Success(OpEcdsa)
    else if line == BEGIN + "OPENSSH " + PRIVATE then Failure(NewStyleKey)
    else Failure(UnknownKeyType)
  }

  function SkipSpaces(s: string): string {
    if s != "" && IsSpace(s[0] as int) then SkipSpaces(s[1..]) else s
  }

  const PROC_TYPE := "Proc-Type"
  const DEK_INFO := "DEK-Info"
  const ENCRYPTED := "4,ENCRYPTED"
  const DES_CBC := "DES-EDE3-CBC,"

  /** A header line: `value` has lost the spaces after the colon. */
  function HeaderField(st: Loaded, name: string, value: string): (r: Result<Loaded, Fault>)
    requires st.Valid()
    ensures r.Success? ==> r.value.Valid()
  {
    if name == PROC_TYPE then
      if |value| < 2 || value[0] != '4' || value[1] != ',' then Failure(BadProcType)
      else if value[2..] == "ENCRYPTED" then Success(st.(encrypted := true))
      else Success(st)
    else if name == DEK_INFO then
      if StartsWith(value, DES_CBC) then DekInfo(st, Des3, 8, value[13..])
      else if StartsWith(value, "AES-128-CBC,") then DekInfo(st, Aes, 16, value[12..])
      else Failure(BadCipher)
    else Success(st)
  }

  function DekInfo(st: Loaded, e: Encryption, ivlen: nat, hex: string): (r: Result<Loaded, Fault>)
    requires st.Valid() && ivlen <= IV_BYTES
    ensures r.Success? ==> r.value.Valid()
  {
    match ReadHex(hex, ivlen)
    case None => Failure(BadIv)
    case Some((iv, rest)) =>
      if rest != "" then Failure(BadIv)
      else Success(st.(encryption := e, iv := iv + st.iv[ivlen..]))
  }

  /** One line after the first: a header, or part of the body. */
  function Line(st: Loaded, line: string): (r: Result<Loaded, Fault>)
    requires st.Valid()
    ensures r.Success? ==> r.value.Valid()
  {
    var colon := Find(line, ':');
    if colon < |line| then
      if st.headersDone then Failure(HeaderInBody)
      else HeaderField(st, line[..colon], SkipSpaces(line[colon + 1..]))
    else
      match Feed(st.body, line)
      case None => Failure(BadBase64)
      case Some(body) => Success(st.(headersDone := true, body := body))
  }

  predicate IsEnd(line: string) {
    StartsWith(line, END) && EndsWith(line, PRIVATE)
  }

  /** The loader's line loop, from some state to the END line, or NoAnswer when there is none. */
  function Lines(st: Loaded, t: string): (r: Result<Loaded, Fault>)
    requires st.Valid()
    ensures r.Success? ==> r.value.Valid()
    decreases |t|
  {
    if t == "" then Failure(NoAnswer)
    else
      var (line, rest) := NextLine(t);
      if IsEnd(line) then Success(st)
      else
        match Line(st, line)
        case Failure(f) => Failure(f)
        case Success(next) => Lines(next, rest)
  }

  /** The loop as written, which has no other end, cut off after `n` turns: None when it has not left by then. */
  function LinesInTurns(st: Loaded, t: string, n: nat): (r: Option<Result<Loaded, Fault>>)
    requires st.Valid()
    decreases n
  {
    if n == 0 then None
    else
      var (line, rest) := NextLine(t);
      if IsEnd(line) then Some(Success(st))
      else
        match Line(st, line)
        case Failure(f) => Some(Failure(f))
        case Success(next) => LinesInTurns(next, rest, n - 1)
  }

  lemma LineAnswers(st: Loaded, line: string)
    requires st.Valid()
    ensures Line(st, line) != Failure(NoAnswer)
  {
    hide ReadHex, SkipSpaces, Feed;
  }

  lemma EmptyLine(st: Loaded)
    requires st.Valid()
    ensures NextLine("") == ("", "") && !IsEnd("") && Line(st, "") == Success(st.(headersDone := true))
  {
  }

  /** At the end of the data the loop goes on reading empty lines. */
  lemma {:induction false} NothingLeft(st: Loaded, n: nat)
    requires st.Valid()
    ensures Lines(st, "") == Failure(NoAnswer) && LinesInTurns(st, "", n) == None
    decreases n
  {
    if n > 0 {
      EmptyLine(st);
      hide NextLine, Line, IsEnd;
      NothingLeft(st.(headersDone := true), n - 1);
    }
  }

  lemma {:induction false} TurnsOfLines(st: Loaded, t: string, n: nat)
    requires st.Valid()
    ensures Lines(st, t) == Failure(NoAnswer) ==> LinesInTurns(st, t, n) == None
    ensures Lines(st, t) != Failure(NoAnswer) && n > |t| ==> LinesInTurns(st, t, n) == Some(Lines(st, t))
    decreases n
  {
    hide *;
    NoTurns(st, t);
    if t == "" {
      NothingLeft(st, n);
    } else if n > 0 {
      OneTurn(st, t, n);
      var (line, rest) := NextLine(t);
      LineAnswers(st, line);
      if !IsEnd(line) && Line(st, line).Success? {
        TurnsOfLines(Line(st, line).value, rest, n - 1);
      }
    }
  }

  lemma NoTurns(st: Loaded, t: string)
    requires st.Valid()
    ensures LinesInTurns(st, t, 0) == None
  {
  }

  lemma OneTurn(st: Loaded, t: string, n: nat)
    requires st.Valid() && t != "" && n > 0
    ensures var (line, rest) := NextLine(t);
            if IsEnd(line) then Lines(st, t) == Success(st) && LinesInTurns(st, t, n) == Some(Lines(st, t))
            else
              match Line(st, line)
              case Failure(f) => Lines(st, t) == Failure(f) && LinesInTurns(st, t, n) == Some(Lines(st, t))
              case Success(next) =>
                Lines(st, t) == Lines(next, rest) && LinesInTurns(st, t, n) == LinesInTurns(next, rest, n - 1)
  {
    hide Line, IsEnd, NextLine;
  }

  /** What the lines came to. */
  function Finish(kt: KeyType, r: Result<Loaded, Fault>): Result<(KeyType, Loaded), Fault> {
    match r
    case Failure(f) => Failure(f)
    case Success(st) =>
      if st.body.blob == [] then Failure(NoBody)
      else if st.encrypted && |st.body.blob| % 8 != 0 then Failure(BadBlockSize)
      else Success((kt, st))
  }

  /** load_openssh_pem_key. */
  function Load(t: string): (r: Result<(KeyType, Loaded), Fault>)
    ensures r.Success? ==> r.value.1.Valid()
  {
    var (line, rest) := NextLine(t);
    match ParseBegin(line)
    case Failure(f) => Failure(f)
    case Success(kt) => Finish(kt, Lines(Start(), rest))
  }

  /** The same with the loop as written, cut off after `n` turns. */
  function LoadInTurns(t: string, n: nat): Option<Result<(KeyType, Loaded), Fault>> {
    var (line, rest) := NextLine(t);
    match ParseBegin(line)
    case Failure(f) => Some(Failure(f))
    case Success(kt) =>
      match LinesInTurns(Start(), rest, n)
      case None => None
      case Some(r) => Some(Finish(kt, r))
  }

  /** openssh_pem_derivekey: only the first eight bytes of the iv are used. */
  function DeriveKey(suite: Suite, passphrase: seq<Byte>, iv: seq<Byte>): seq<Byte>
    requires |iv| >= 8
  {
    var a := suite.md5(passphrase + iv[..8]);
    a + suite.md5(a + passphrase + iv[..8])
  }

  function Decrypt(suite: Suite, st: Loaded, passphrase: seq<Byte>): seq<Byte>
    requires st.Valid()
  {
    if !st.encrypted then st.body.blob
    else
      var keybuf := DeriveKey(suite, passphrase, st.iv);
      if st.encryption == Des3 then suite.des3Decrypt(keybuf, st.iv[..8], st.body.blob)
      else suite.aes128CbcDecrypt(keybuf, st.iv[..16], st.body.blob)
  }

  /** The loop over the INTEGERs: the blob so far, the saved RSA modulus, and where the private half starts. */
  datatype Gathered = Gathered(blob: seq<Byte>, modulus: seq<Byte>, publen: nat)

  function NumIntegers(kt: KeyType): nat {
    match kt case OpRsa => 9 case OpDsa => 6 case OpEcdsa => 0
  }

  /** Integer number `i` of an RSA or DSA key. */
  function Gather(kt: KeyType, i: nat, g: Gathered, data: seq<Byte>): Result<Gathered, Fault> {
    if i == 0 then
      if |data| != 1 || data[0] != 0 then Failure(BadVersion) else Success(g)
    else if kt == OpRsa then
      if i == 1 then Success(g.(modulus := data))
      else if i == 2 then
        var blob := g.blob + MpSsh2(data) + MpSsh2(g.modulus);
        Success(g.(blob := blob, publen := |blob|))
      else if i == 6 || i == 7 then Success(g)
      else Success(g.(blob := g.blob + MpSsh2(data)))
    else
      var blob := g.blob + MpSsh2(data);
      Success(g.(blob := blob, publen := if i == 4 then |blob| else g.publen))
  }

  function Integers(kt: KeyType, encrypted: bool, i: nat, g: Gathered, input: Input): Result<Gathered, KeyError>
    decreases NumIntegers(kt) - i
  {
    if i >= NumIntegers(kt) then Success(g)
    else
      var (item, next) := GetBer(input);
      if next.err || item.id != 2 then Failure(KeyError(Asn1, encrypted))
      else
        match Gather(kt, i, g, item.data)
        case Failure(f) => Failure(KeyError(f, false))
        case Success(g') => Integers(kt, encrypted, i + 1, g', next)
  }

  function CurveByOid(oid: seq<Byte>): Option<Curve> {
    if oid == P256.Oid() then Some(P256)
    else if oid == P384.Oid() then Some(P384)
    else if oid == P521.Oid() then Some(P521)
    else None
  }

  /** The contents of an ECDSA key's SEQUENCE. Only the errors of the last sub-reader are looked at. */
  function ReadEcdsa(encrypted: bool, input: Input): Result<SshKey, KeyError> {
    var (integer, i1) := GetBer(input);
    var (privkey, i2) := GetBer(i1);
    var (sub0, i3) := GetBer(i2);
    var (sub1, i4) := GetBer(i3);
    var (oid, _) := GetBer(Input(sub0.data, false));
    var (pubkey, last) := GetBer(Input(sub1.data, false));
    if last.err || integer.id != 2 || integer.data != [1] || privkey.id != 4
       || sub0.id != 0 || sub1.id != 1 || oid.id != 6 || pubkey.id != 3 then Failure(KeyError(Asn1, encrypted))
    else EcdsaKey(encrypted, oid.data, pubkey.data, privkey.data)
  }

  /** The key for a curve's OID, a BIT STRING whose first byte is skipped, and a private integer. */
  function EcdsaKey(encrypted: bool, oid: seq<Byte>, bits: seq<Byte>, scalar: seq<Byte>): Result<SshKey, KeyError> {
    match CurveByOid(oid)
    case None => Failure(KeyError(BadCurve, false))
    case Some(c) =>
      if |bits| != c.PointLen() + 2 then Failure(KeyError(Asn1, encrypted))
      else Success(SshKey(Ecdsa(c),
                          Str(ToBytes(c.SshId())) + Str(ToBytes(c.Name())) + Str(bits[1..]),
                          MpSsh2(scalar)))
  }

  function ReadSequence(kt: KeyType, encrypted: bool, inner: seq<Byte>): Result<SshKey, KeyError> {
    if kt == OpEcdsa then ReadEcdsa(encrypted, Input(inner, false))
    else
      var name := Str(ToBytes(if kt == OpDsa then "ssh-dss" else "ssh-rsa"));
      match Integers(kt, encrypted, 0, Gathered(name, [], 0), Input(inner, false))
      case Failure(e) => Failure(e)
      case Success(g) => CutKey(kt, g)
  }

  /** The blob is cut into its public and its private half. */
  function CutKey(kt: KeyType, g: Gathered): Result<SshKey, KeyError> {
    if g.publen > |g.blob| then Failure(KeyError(BadKeyBlob, false))
    else Success(SshKey(if kt == OpRsa then Rsa else Dsa, g.blob[..g.publen], g.blob[g.publen..]))
  }

  const COMMENT := "imported-openssh-key"

  /** openssh_pem_read. */
  function Read(suite: Suite, t: string, passphrase: seq<Byte>): Result<UserKey, KeyError> {
    match Load(t)
    case Failure(f) => Failure(KeyError(f, false))
    case Success((kt, st)) =>
      var (item, after) := GetBer(Input(Decrypt(suite, st, passphrase), false));
      if after.err || item.id != 16 then Failure(KeyError(Asn1, st.encrypted))
      else
        match ReadSequence(kt, st.encrypted, item.data)
        case Failure(e) => Failure(e)
        case Success(key) => Success(UserKey(key, COMMENT))
  }

  // The writer.

  function TypeOf(parts: Parts): KeyType {
    match parts
    case RsaParts(_, _, _, _, _, _) => OpRsa
    case DsaParts(_, _, _, _, _) => OpDsa
    case EcParts(_, _, _) => OpEcdsa
  }

  /** The integers of an RSA or DSA key, in file order. */
  function Numbers(suite: Suite, parts: Parts): seq<seq<Byte>>
    requires !parts.EcParts?
  {
    match parts
    case RsaParts(e, n, d, p, q, iqmp) => [[0], n, e, d, p, q, suite.reduce(d, p), suite.reduce(d, q), iqmp]
    case DsaParts(p, q, g, y, x) => [[0], p, q, g, y, x]
  }

  ghost predicate AllShort(ns: seq<seq<Byte>>) {
    forall i :: 0 <= i < |ns| ==> |ns[i]| <= 0x100_0001
  }

  /** INTEGERs one after another. */
  function IntegerElements(ns: seq<seq<Byte>>): (b: seq<Byte>)
    requires AllShort(ns)
    ensures |b| <= |ns| * 0x200_0000
  {
    if ns == [] then []
    else
      HeaderIsSmall(2, |ns[0]|, 0);
      Element(2, 0, ns[0]) + IntegerElements(ns[1..])
  }

  lemma HeaderIsSmall(id: nat, length: nat, flags: Byte)
    requires id <= 30 && length < TWO_32 && IsFlags(flags)
    ensures |Header(id, length, flags)| <= 6
  {
    FourOctets(length);
  }

  /** The contents of an ECDSA key's SEQUENCE. */
  function EcdsaElements(c: Curve, point: seq<Byte>, scalar: seq<Byte>): (b: seq<Byte>)
    requires EcParts(c, point, scalar).Fits()
    ensures |b| <= 0x200_0000
  {
    HeaderIsSmall(6, |c.Oid()|, 0);
    HeaderIsSmall(3, |point| + 1, 0);
    HeaderIsSmall(4, |scalar|, 0);
    var oid := Element(6, 0, c.Oid());
    var pub := Element(3, 0, [0] + point);
    HeaderIsSmall(0, |oid|, 0xA0);
    HeaderIsSmall(1, |pub|, 0xA0);
    Element(2, 0, [1]) + Element(4, 0, scalar) + Element(0, 0xA0, oid) + Element(1, 0xA0, pub)
  }

  function Inner(suite: Suite, parts: Parts): (b: seq<Byte>)
    requires suite.Sound() && parts.Fits()
    ensures |b| <= 9 * 0x200_0000
  {
    match parts
    case EcParts(c, point, scalar) => EcdsaElements(c, point, scalar)
    case _ => IntegerElements(Numbers(suite, parts))
  }

  /** The unencrypted key blob. */
  function Outer(suite: Suite, parts: Parts): seq<Byte>
    requires suite.Sound() && parts.Fits()
  {
    Element(16, CONSTRUCTED, Inner(suite, parts))
  }

  /** One to eight padding bytes, each holding their number. */
  function Padding(origlen: nat): (p: seq<Byte>)
    ensures 1 <= |p| <= 8 && (origlen + |p|) % 8 == 0
    ensures forall i :: 0 <= i < |p| ==> p[i] == |p|
  {
    var outlen := (origlen + 8) / 8 * 8;
    Repeat(outlen - origlen, outlen - origlen)
  }

  function EncryptedBlob(suite: Suite, blob: seq<Byte>, passphrase: seq<Byte>, iv: seq<Byte>): seq<Byte>
    requires |iv| == 8
  {
    suite.des3Encrypt(DeriveKey(suite, passphrase, iv), iv, blob + Padding(|blob|))
  }

  function HeaderLines(iv: seq<Byte>): string {
    PROC_TYPE + ": " + ENCRYPTED + "\n" + (DEK_INFO + ": " + (DES_CBC + Hex(iv)) + "\n") + "\n"
  }

  /** openssh_pem_write: the file for a key, an optional passphrase and a fresh iv. */
  function File(suite: Suite, parts: Parts, passphrase: Option<seq<Byte>>, iv: seq<Byte>): string
    requires suite.Sound() && parts.Fits() && |iv| == 8
  {
    var blob := Outer(suite, parts);
    BeginLine(TypeOf(parts)) + "\n"
    + (match passphrase
       case None => WrapLines(EncodeChars(blob), 64)
       case Some(p) => HeaderLines(iv) + WrapLines(EncodeChars(EncryptedBlob(suite, blob, p, iv)), 64))
    + (EndLine(TypeOf(parts)) + "\n")
  }
}
