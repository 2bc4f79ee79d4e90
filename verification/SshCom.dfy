/** ssh.com private keys: the loader with its folded headers, the reader and the writer. */
module SshCom {
  import opened Bytes
  import opened Marshal
  import opened Mpint
  import opened Base64
  import opened KeyText
  import opened Keys

  const BEGIN := "---- BEGIN SSH2 ENCRYPTED PRIVATE KEY ----"
  const END := "---- END SSH2 ENCRYPTED PRIVATE KEY ----"
  const MAGIC := 0x3f6ff9eb

  /** What the loader has gathered. */
  datatype Loaded = Loaded(headersDone: bool, comment: string, body: Body) {
    ghost predicate Valid() {
      body.Valid()
    }
  }

  function Start(): (st: Loaded)
    ensures st.Valid()
  {
    Loaded(false, "", Body("", []))
  }

  function CountSpaces(s: string): (n: nat)
    ensures n <= |s|
  {
    if s != "" && IsSpace(s[0] as int) then 1 + CountSpaces(s[1..]) else 0
  }

  predicate Continues(line: string) {
    line != "" && line[|line| - 1] == '\\'
  }

  /**
   * A line that ends in a backslash is joined to the next one, and so on. After the last line
   * of the text come empty ones, so that the backslashes at the end go one by one.
   */
  function Unfold(line: string, t: string): (r: (string, string))
    ensures |r.1| <= |t|
    decreases |t|, |line|
  {
    if !Continues(line) then (line, t)
    else
      var (line2, rest) := NextLine(t);
      Unfold(line[..|line| - 1] + line2, rest)
  }

  /** Joining lines never reaches back past a character that is not a backslash. */
  lemma {:induction false} UnfoldKeepsHead(line: string, t: string, k: nat)
    requires 0 < k <= |line| && line[k - 1] != '\\'
    ensures var joined := Unfold(line, t).0; k <= |joined| && joined[..k] == line[..k]
    decreases |t|, |line|
  {
    if Continues(line) {
      var (line2, rest) := NextLine(t);
      UnfoldKeepsHead(line[..|line| - 1] + line2, rest, k);
    }
  }

  /** The spaces after a header's colon. */
  lemma {:induction false} SpacesAreNotBackslashes(s: string)
    ensures forall i :: 0 <= i < CountSpaces(s) ==> s[i] != '\\'
  {
    if s != "" && IsSpace(s[0] as int) {
      SpacesAreNotBackslashes(s[1..]);
      assert forall i :: 0 < i < CountSpaces(s) ==> s[i] == s[1..][i - 1];
    }
  }

  function StripQuotes(v: string): string {
    if v != "" && v[0] == '"' && v[|v| - 1] == '"' then (if |v| == 1 then "" else v[1..|v| - 1]) else v
  }

  /** strncpy into 256 characters, the last of them NUL. */
  function Truncate(v: string): string {
    if |v| > 255 then v[..255] else v
  }

  /** A header line, already joined: its name ends at `colon` and its value starts at `start`. */
  function HeaderField(st: Loaded, line: string, colon: nat, start: nat): (r: Loaded)
    requires colon < start <= |line| && st.Valid()
    ensures r.Valid()
  {
    if line[..colon] == "Comment" then st.(comment := Truncate(StripQuotes(line[start..]))) else st
  }

  /** A header, which may go on over several lines. */
  function Header(st: Loaded, line: string, t: string): (r: (Loaded, string))
    requires st.Valid() && Find(line, ':') < |line|
    ensures r.0.Valid() && |r.1| <= |t|
  {
    var colon := Find(line, ':');
    var start := colon + 1 + CountSpaces(line[colon + 1..]);
    SpacesAreNotBackslashes(line[colon + 1..]);
    UnfoldKeepsHead(line, t, start);
    var (joined, after) := Unfold(line, t);
    (HeaderField(st, joined, colon, start), after)
  }

  /** One turn of the loader's loop, for a line that is not the END line: the state, and the text still to be read. */
  function Turn(st: Loaded, line: string, t: string): (r: Result<(Loaded, string), Fault>)
    requires st.Valid()
    ensures r.Success? ==> r.value.0.Valid() && |r.value.1| <= |t|
    ensures r != Failure(NoAnswer)
  {
    if Find(line, ':') < |line| then
      if st.headersDone then Failure(HeaderInBody) else Success(Header(st, line, t))
    else
      match Feed(st.body, line)
      case None => Failure(BadBase64)
      case Some(body) => Success((st.(headersDone := true, body := body), t))
  }

  /** The loader's line loop, to the END line, or NoAnswer when it is not found. */
  function Lines(st: Loaded, t: string): (r: Result<Loaded, Fault>)
    requires st.Valid()
    ensures r.Success? ==> r.value.Valid()
    decreases |t|
  {
    if t == "" then Failure(NoAnswer)
    else
      var (line, rest) := NextLine(t);
      if line == END then Success(st)
      else
        match Turn(st, line, rest)
        case Failure(f) => Failure(f)
        case Success((next, after)) => Lines(next, after)
  }

  /** The loop as written, which has no other end, cut off after `n` turns: None when it has not left by then. */
  function LinesInTurns(st: Loaded, t: string, n: nat): Option<Result<Loaded, Fault>>
    requires st.Valid()
    decreases n
  {
    if n == 0 then None
    else
      var (line, rest) := NextLine(t);
      if line == END then Some(Success(st))
      else
        match Turn(st, line, rest)
        case Failure(f) => Some(Failure(f))
        case Success((next, after)) => LinesInTurns(next, after, n - 1)
  }

  /** At the end of the data the loop goes on reading empty lines. */
  lemma {:induction false} NothingLeft(st: Loaded, n: nat)
    requires st.Valid()
    ensures Lines(st, "") == Failure(NoAnswer) && LinesInTurns(st, "", n) == None
    decreases n
  {
    if n > 0 {
      var next := st.(headersDone := true);
      assert NextLine("") == ("", "") && Turn(st, "", "") == Success((next, ""));
      hide NextLine, Turn;
      NothingLeft(next, n - 1);
    }
  }

  lemma {:induction false} TurnsOfLines(st: Loaded, t: string, n: nat)
    requires st.Valid()
    ensures Lines(st, t) == Failure(NoAnswer) ==> LinesInTurns(st, t, n) == None
    ensures Lines(st, t) != Failure(NoAnswer) && n > |t| ==> LinesInTurns(st, t, n) == Some(Lines(st, t))
    decreases n
  {
    hide *;
    NoTurns(st, t);
    if t == "" {
      NothingLeft(st, n);
    } else if n > 0 {
      OneTurn(st, t, n);
      var (line, rest) := NextLine(t);
      if line != END && Turn(st, line, rest).Success? {
        var (next, after) := Turn(st, line, rest).value;
        TurnsOfLines(next, after, n - 1);
      }
    }
  }

  lemma NoTurns(st: Loaded, t: string)
    requires st.Valid()
    ensures LinesInTurns(st, t, 0) == None
  {
  }

  lemma OneTurn(st: Loaded, t: string, n: nat)
    requires st.Valid() && t != "" && n > 0
    ensures var (line, rest) := NextLine(t);
            if line == END then Lines(st, t) == Success(st) && LinesInTurns(st, t, n) == Some(Lines(st, t))
            else
              match Turn(st, line, rest)
              case Failure(f) => Lines(st, t) == Failure(f) && LinesInTurns(st, t, n) == Some(Lines(st, t))
              case Success((next, after)) =>
                Lines(st, t) == Lines(next, after) && LinesInTurns(st, t, n) == LinesInTurns(next, after, n - 1)
  {
    hide Turn, NextLine;
  }

  /** What the lines came to. */
  function Finish(r: Result<Loaded, Fault>): Result<(string, seq<Byte>), Fault> {
    match r
    case Failure(f) => Failure(f)
    case Success(st) => if st.body.blob == [] then Failure(NoBody) else Success((st.comment, st.body.blob))
  }

  /** load_sshcom_key: the comment and the key blob. */
  function Load(t: string): Result<(string, seq<Byte>), Fault> {
    var (line, rest) := NextLine(t);
    if line != BEGIN then Failure(BadHeader) else Finish(Lines(Start(), rest))
  }

  /** The same with the loop as written, cut off after `n` turns. */
  function LoadInTurns(t: string, n: nat): Option<Result<(string, seq<Byte>), Fault>> {
    var (line, rest) := NextLine(t);
    if line != BEGIN then Some(Failure(BadHeader))
    else
      match LinesInTurns(Start(), rest, n)
      case None => None
      case Some(r) => Some(Finish(r))
  }

  /** sshcom_derivekey. */
  function DeriveKey(suite: Suite, passphrase: seq<Byte>): seq<Byte> {
    var a := suite.md5(passphrase);
    a + suite.md5(passphrase + a)
  }

  function ZeroIv(): seq<Byte> {
    Repeat(8, 0)
  }

  const RSA_PREFIX := "if-modn{sign{rsa"
  const DSA_PREFIX := "dl-modp{sign{dsa"

  predicate HasPrefix(s: seq<Byte>, prefix: string)
    requires forall i :: 0 <= i < |prefix| ==> prefix[i] as int < 256
  {
    |s| > |prefix| && s[..|prefix|] == ToBytes(prefix)
  }

  function ParseType(s: seq<Byte>): Option<Alg> {
    if HasPrefix(s, RSA_PREFIX) then Some(Rsa) else if HasPrefix(s, DSA_PREFIX) then Some(Dsa) else None
  }

  function ParseCipher(s: seq<Byte>): Option<bool> {
    if s == ToBytes("none") then Some(false) else if s == ToBytes("3des-cbc") then Some(true) else None
  }

  /** ssh.com integers in a row. */
  function GetMps(i: Input, n: nat): (r: (seq<seq<Byte>>, Input))
    ensures |r.0| == n
    decreases n
  {
    if n == 0 then ([], i)
    else
      var (m, j) := GetMpSshcom(i);
      var (ms, k) := GetMps(j, n - 1);
      ([m] + ms, k)
  }

  /** The payload: six integers for RSA; a zero and five integers for DSA. */
  function ReadPayload(alg: Alg, wrong: bool, i: Input): Result<SshKey, KeyError> {
    if alg == Rsa then
      var (ms, j) := GetMps(i, 6);
      if j.err then Failure(KeyError(BadIntegers, wrong)) else Success(RsaKey(ms[0], ms[1], ms[2], ms[3], ms[4], ms[5]))
    else
      var (version, i1) := GetUint32(i);
      if version != 0 then Failure(KeyError(PredefinedParams, wrong))
      else
        var (ms, j) := GetMps(i1, 5);
        if j.err then Failure(KeyError(BadIntegers, wrong)) else Success(DsaKey(ms[0], ms[1], ms[2], ms[3], ms[4]))
  }

  /** In the file p is the smaller prime and q the larger; in an SSH-2 key it is the other way round. */
  function RsaKey(e: seq<Byte>, d: seq<Byte>, n: seq<Byte>, u: seq<Byte>, p: seq<Byte>, q: seq<Byte>): SshKey {
    SshKey(Rsa, Str(ToBytes("ssh-rsa")) + MpSsh2(e) + MpSsh2(n), MpSsh2(d) + MpSsh2(q) + MpSsh2(p) + MpSsh2(u))
  }

  function DsaKey(p: seq<Byte>, g: seq<Byte>, q: seq<Byte>, y: seq<Byte>, x: seq<Byte>): SshKey {
    SshKey(Dsa, Str(ToBytes("ssh-dss")) + MpSsh2(p) + MpSsh2(q) + MpSsh2(g) + MpSsh2(y), MpSsh2(x))
  }

  /** The containing string, once decrypted. */
  function ReadPlain(alg: Alg, wrong: bool, plain: seq<Byte>): Result<SshKey, KeyError> {
    var (payload, i) := GetString(Input(plain, false));
    if i.err then Failure(KeyError(BadContainer, wrong)) else ReadPayload(alg, wrong, Input(payload, false))
  }

  /** The strings around it. */
  datatype Fields = Fields(magic: nat, keyType: seq<Byte>, cipher: seq<Byte>, ciphertext: seq<Byte>)

  function ReadFields(blob: seq<Byte>): Fields {
    var (magic, i1) := GetUint32(Input(blob, false));
    var (length, i2) := GetUint32(i1);
    var (keyType, i3) := GetString(i2);
    var (cipher, i4) := GetString(i3);
    var (ciphertext, i5) := GetString(i4);
    Fields(magic, keyType, cipher, ciphertext)
  }

  function ReadBlob(suite: Suite, f: Fields, passphrase: seq<Byte>): Result<SshKey, KeyError> {
    if f.magic != MAGIC then Failure(KeyError(BadMagic, false))
    else if ParseType(f.keyType).None? then Failure(KeyError(UnknownKeyType, false))
    else if ParseCipher(f.cipher).None? then Failure(KeyError(BadCipher, false))
    else if f.ciphertext == [] then Failure(KeyError(NoKeyData, false))
    else
      var alg := ParseType(f.keyType).value;
      if ParseCipher(f.cipher).value then
        if |f.ciphertext| % 8 != 0 then Failure(KeyError(BadBlockSize, false))
        else ReadPlain(alg, true, suite.des3Decrypt(DeriveKey(suite, passphrase), ZeroIv(), f.ciphertext))
      else ReadPlain(alg, false, f.ciphertext)
  }

  /** sshcom_read. */
  function Read(suite: Suite, t: string, passphrase: seq<Byte>): Result<UserKey, KeyError> {
    match Load(t)
    case Failure(f) => Failure(KeyError(f, false))
    case Success((comment, blob)) =>
      match ReadBlob(suite, ReadFields(blob), passphrase)
      case Failure(e) => Failure(e)
      case Success(key) => Success(UserKey(key, comment))
  }

  // The writer.

  const RSA_SUFFIX := "-pkcs1-sha1},encrypt{rsa-pkcs1v2-oaep}}"
  const DSA_SUFFIX := "-nist-sha1},dh{plain}}"

  lemma NamesAreNarrow()
    ensures IsCString(RSA_PREFIX) && IsCString(DSA_PREFIX)
    ensures IsCString(RSA_SUFFIX) && IsCString(DSA_SUFFIX)
  {
  }

  lemma JoinedIsNarrow(a: string, b: string)
    requires IsCString(a) && IsCString(b)
    ensures IsCString(a + b)
  {
  }

  function TypeName(alg: Alg): (s: string)
    ensures IsCString(s)
    ensures |s| < 64
  {
    NamesAreNarrow();
    JoinedIsNarrow(RSA_PREFIX, RSA_SUFFIX);
    JoinedIsNarrow(DSA_PREFIX, DSA_SUFFIX);
    if alg == Rsa then RSA_PREFIX + RSA_SUFFIX else DSA_PREFIX + DSA_SUFFIX
  }

  function CipherName(encrypted: bool): (s: string)
    ensures IsCString(s)
    ensures |s| < 64
  {
    if encrypted then "3des-cbc" else "none"
  }

  /** The integers of a key in file order. */
  function Numbers(parts: Parts): seq<seq<Byte>>
    requires !parts.EcParts?
  {
    match parts
    case RsaParts(e, n, d, p, q, iqmp) => [e, d, n, iqmp, q, p]
    case DsaParts(p, q, g, y, x) => [p, g, q, y, x]
  }

  function Mps(ns: seq<seq<Byte>>): seq<Byte> {
    if ns == [] then [] else MpSshcom(ns[0]) + Mps(ns[1..])
  }

  function Payload(parts: Parts): seq<Byte>
    requires !parts.EcParts?
  {
    (if parts.DsaParts? then Put32(0) else []) + Mps(Numbers(parts))
  }

  /** How many random bytes bring a length up to whole cipher blocks. */
  function PadLength(len: nat): (n: nat)
    ensures n < 8 && (len + n) % 8 == 0
  {
    (8 - len % 8) % 8
  }

  function Ciphertext(suite: Suite, plain: seq<Byte>, passphrase: Option<seq<Byte>>, noise: seq<Byte>): seq<Byte>
    requires |noise| == 8
  {
    match passphrase
    case None => plain
    case Some(p) => suite.des3Encrypt(DeriveKey(suite, p), ZeroIv(), plain + noise[..PadLength(|plain|)])
  }

  /** The blob: the magic number, its own length, and three strings. */
  function Blob(keyType: seq<Byte>, cipher: seq<Byte>, ciphertext: seq<Byte>): seq<Byte> {
    var rest := Str(keyType) + Str(cipher) + Str(ciphertext);
    Put32(MAGIC) + Put32(|rest| + 8) + rest
  }

  /** The comment is broken after 60 characters and then every 70, and never escaped. */
  function FoldComment(c: string, slen: nat): string
    requires slen > 0
    decreases |c|
  {
    if |c| > slen then c[..slen] + "\\" + "\n" + FoldComment(c[slen..], 70) else c + "\"" + "\n"
  }

  const COMMENT := "Comment: \""

  function FileOf(comment: string, blob: seq<Byte>): string {
    BEGIN + "\n" + (COMMENT + FoldComment(comment, 60)) + WrapLines(EncodeChars(blob), 70) + (END + "\n")
  }

  /** sshcom_write: None for a key type the format does not support. */
  function File(suite: Suite, parts: Parts, comment: string, passphrase: Option<seq<Byte>>, noise: seq<Byte>): Option<string>
    requires |noise| == 8
  {
    if parts.EcParts? then None
    else
      var ciphertext := Ciphertext(suite, Str(Payload(parts)), passphrase, noise);
      Some(FileOf(comment, Blob(ToBytes(TypeName(parts.Alg())), ToBytes(CipherName(passphrase.Some?)), ciphertext)))
  }
}
