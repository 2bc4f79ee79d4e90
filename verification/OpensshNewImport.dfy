/** load_openssh_new_key, openssh_new_read and openssh_new_write as the source runs them. */
module OpensshNewImport {
  import opened Bytes
  import opened Marshal
  import opened Base64
  import opened KeyText
  import opened Keys
  import opened OpensshNew
  import opened OpensshNewRoundTrip

  /**
   * The first half of load_openssh_new_key: the base64 lines. The loop has no other end than its END line and
   * its error; a loop that has taken more turns than there are characters never ends (EndOfData.NewAnswersIff).
   */
  method LoadBlobLines(src: TextSource) returns (r: Result<seq<Byte>, Fault>)
    requires src.Valid()
    modifies src
    ensures r == LoadBlob(old(src.Rest()))
  {
    hide NextLine, Feed, Lines;
    var line := src.GetLine();
    if line != BEGIN {
      return Failure(BadHeader);
    }
    var bit, blob: seq<Byte> := "", [];
    var chars := src.Remaining();
    var turns: nat := chars + 1;
    TurnsOfLines(Body("", []), src.Rest(), turns);
    ghost var whole := LinesInTurns(Body("", []), src.Rest(), turns);
    var done := false;
    while !done
      invariant src.Valid() && |bit| < 4
      invariant whole == if done then Some(Success(Body(bit, blob))) else LinesInTurns(Body(bit, blob), src.Rest(), turns)
      decreases !done, turns
    {
      if turns == 0 {
        return Failure(NoAnswer);
      }
      turns := turns - 1;
      line := src.GetLine();
      if line == END {
        done := true;
      } else {
        var ok;
        ok, bit, blob := FeedLine(bit, blob, line);
        if !ok {
          return Failure(BadBase64);
        }
      }
    }
    if blob == [] {
      return Failure(NoBody);
    }
    r := Success(blob);
  }

  method ReadKdf(name: seq<Byte>, missing: bool, options: seq<Byte>) returns (r: Result<Kdf, Fault>)
    ensures r == ParseKdf(name, missing, options)
  {
    hide GetString, GetUint32, ToBytes;
    if name == ToBytes("none") {
      return if options != [] then Failure(BadKdfOptions) else Success(KdfNone);
    } else if name == ToBytes("bcrypt") {
      var opts := new BinarySource(options);
      var salt := opts.ReadString();
      var rounds := opts.ReadUint32();
      return if opts.err then Failure(BadKdfOptions) else Success(Bcrypt(salt, rounds));
    } else {
      return Failure(if missing then NoKdf else BadKdf);
    }
  }

  /** The second half of load_openssh_new_key: the unencrypted strings, checked as they are read. */
  method ReadContainer(blob: seq<Byte>) returns (r: Result<Container, Fault>)
    ensures r == ParseContainer(blob)
  {
    hide GetString, GetUint32, GetAsciz, IsMagic, ParseCipher, ParseKdf;
    var src := new BinarySource(blob);
    var magic := src.ReadAsciz();
    if !IsMagic(magic) {
      return Failure(BadMagic);
    }
    var cipherName := src.ReadString();
    var cipher := ParseCipher(cipherName);
    if cipher.None? {
      return Failure(if src.err then NoCipher else BadCipher);
    }
    var kdfName := src.ReadString();
    var missing := src.err;
    var options := src.ReadString();
    var kdf := ReadKdf(kdfName, missing, options);
    if kdf.Failure? {
      return Failure(kdf.error);
    }
    var nkeys := src.ReadUint32();
    if nkeys != 1 {
      return Failure(if src.err then NoKeyCount else BadKeyCount);
    }
    var pub := src.ReadString();
    var priv := src.ReadString();
    if src.err {
      return Failure(NoContainer);
    }
    r := Success(Container(cipher.value, kdf.value, priv));
  }

  /** The loop at the end of openssh_new_read. */
  method CheckPadding(src: BinarySource) returns (ok: bool)
    requires src.Valid() && !src.err
    modifies src
    ensures ok == IsPadding(old(src.In()).rest, 1)
  {
    var expected: Byte := 1;
    while src.pos < |src.data|
      invariant src.Valid() && !src.err
      invariant IsPadding(src.In().rest, expected) == IsPadding(old(src.In()).rest, 1)
      decreases |src.data| - src.pos
    {
      ghost var before := src.In().rest;
      var b := src.ReadByte();
      assert b == before[0] && src.In().rest == before[1..];
      if b != expected {
        return false;
      }
      expected := (expected as int + 1) % 256;
    }
    assert src.In().rest == [];
    ok := true;
  }

  /** openssh_new_read, from the decrypted section on; the algorithm's reader is the registry's. */
  method ReadPrivate(reg: Registry, section: seq<Byte>) returns (r: Result<(SshKey, seq<Byte>), Fault>)
    ensures r == ParsePrivate(reg, section)
  {
    hide GetString, GetUint32, IsPadding;
    var src := new BinarySource(section);
    var checkint := src.ReadUint32();
    var again := src.ReadUint32();
    if again != checkint || src.err {
      return Failure(CheckFailed);
    }
    var name := src.ReadString();
    if !reg.known(name) {
      return Failure(UnknownKeyType);
    }
    var (key, after) := reg.parse(name, Input(src.data[src.pos..], src.err));
    if after.err {
      return Failure(BadKeyBlob);
    }
    if key.None? {
      return Failure(NoKey);
    }
    src := new BinarySource(after.rest);
    assert src.In() == after;
    var comment := src.ReadString();
    if src.err {
      return Failure(BadComment);
    }
    var ok := CheckPadding(src);
    r := if ok then Success((key.value, comment)) else Failure(BadPadding);
  }

  /** openssh_new_read. */
  method ReadKey(suite: Suite, reg: Registry, text: string, passphrase: seq<Byte>) returns (r: Result<UserKey, Fault>)
    ensures r == Read(suite, reg, text, passphrase)
  {
    hide LoadBlob, ParseContainer, Decrypt, ParsePrivate, CString, ToText;
    var filesrc := new TextSource(text);
    var blob := LoadBlobLines(filesrc);
    if blob.Failure? {
      return Failure(blob.error);
    }
    var container := ReadContainer(blob.value);
    if container.Failure? {
      return Failure(container.error);
    }
    var section := Decrypt(suite, container.value, passphrase);
    if section.Failure? {
      return Failure(section.error);
    }
    var parsed := ReadPrivate(reg, section.value);
    if parsed.Failure? {
      return Failure(parsed.error);
    }
    var (key, comment) := parsed.value;
    r := Success(UserKey(key, CString(ToText(comment))));
  }

  /** The do-while loop that pads the private section. */
  method PadSection(cpblob: Strbuf)
    modifies cpblob
    ensures cpblob.u == Padded(old(cpblob.u))
  {
    ghost var section := cpblob.u;
    ghost var n := PadLength(|section|);
    var padvalue: Byte := 1;
    cpblob.PutByte(padvalue);
    padvalue := padvalue + 1;
    while |cpblob.u| % 16 != 0
      invariant 2 <= padvalue <= n + 1
      invariant cpblob.u == section + Ramp(n)[..padvalue - 1]
      decreases n + 1 - padvalue
    {
      LeastPad(|section|, padvalue - 1);
      cpblob.PutByte(padvalue);
      padvalue := padvalue + 1;
    }
    LeastPad(|section|, padvalue - 1);
    assert Ramp(n)[..n] == Ramp(n);
  }

  lemma LeastPad(len: nat, k: nat)
    requires 1 <= k <= PadLength(len)
    ensures (len + k) % 16 == 0 <==> k == PadLength(len)
  {
  }

  /** The cleartext private section. */
  method WriteSection(reg: Registry, user: UserKey, checkint: nat) returns (section: seq<Byte>)
    requires forall i :: 0 <= i < |user.comment| ==> user.comment[i] as int < 256
    requires |reg.id(user.key)| < TWO_32 && |user.comment| < TWO_32
    ensures section == Padded(Section(reg, user.key, ToBytes(user.comment), checkint))
  {
    hide Str, Put32, Padded;
    var cpblob := new Strbuf();
    cpblob.PutUint32(checkint);
    cpblob.PutUint32(checkint);
    cpblob.PutString(reg.id(user.key));
    cpblob.PutData(reg.blob(user.key));
    cpblob.PutString(ToBytes(user.comment));
    assert [] + Put32(checkint) == Put32(checkint);
    assert cpblob.u == Section(reg, user.key, ToBytes(user.comment), checkint);
    PadSection(cpblob);
    section := cpblob.u;
  }

  /** The names of the cipher and the key derivation, and its options. */
  method WritePreamble(cblob: Strbuf, encrypted: bool, salt: seq<Byte>)
    requires |salt| == 16
    modifies cblob
    ensures cblob.u == old(cblob.u) + Preamble(encrypted, salt)
  {
    hide Str, Put32, ToBytes;
    ghost var start := cblob.u;
    if !encrypted {
      cblob.PutString(ToBytes("none"));
      cblob.PutString(ToBytes("none"));
      cblob.PutString([]);
    } else {
      cblob.PutString(ToBytes("aes256-ctr"));
      cblob.PutString(ToBytes("bcrypt"));
      var substr := new Strbuf();
      substr.PutString(salt);
      substr.PutUint32(ROUNDS);
      assert substr.u == Str(salt) + Put32(ROUNDS);
      OptionsAreShort(salt);
      cblob.PutString(substr.u);
    }
    assert cblob.u == start + Preamble(encrypted, salt);
  }

  /** openssh_new_write. */
  method WriteKey(suite: Suite, reg: Registry, user: UserKey, passphrase: Option<seq<Byte>>,
                  salt: seq<Byte>, checkint: nat)
    returns (text: string)
    requires forall i :: 0 <= i < |user.comment| ==> user.comment[i] as int < 256
    requires suite.Sound() && |salt| == 16
    requires |user.key.pub| < TWO_32 && |reg.id(user.key)| < TWO_32 && |user.comment| < TWO_32
    requires |Padded(Section(reg, user.key, ToBytes(user.comment), checkint))| < TWO_32
    ensures text == File(suite, reg, user, passphrase, salt, checkint)
  {
    hide Str, Put32, Padded, Section, ToBytes, WrapLines, EncodeChars;
    var cblob := new Strbuf();
    cblob.PutAsciz(ToBytes(MAGIC));
    assert cblob.u == ToBytes(MAGIC) + [0];
    WritePreamble(cblob, passphrase.Some?, salt);
    cblob.PutUint32(1);
    cblob.PutString(user.key.pub);
    var section := WriteSection(reg, user, checkint);
    if passphrase.Some? {
      section := suite.aes256CtrEncrypt(suite.bcrypt(passphrase.value, salt, ROUNDS), section);
    }
    DecryptOfContainer(suite, Section(reg, user.key, ToBytes(user.comment), checkint), passphrase, salt,
                       if passphrase.Some? then passphrase.value else []);
    cblob.PutString(section);
    var body := Encode(cblob.u, 64);
    text := BEGIN + "\n" + body + (END + "\n");
  }

  lemma OptionsAreShort(salt: seq<Byte>)
    requires |salt| == 16
    ensures |Str(salt) + Put32(ROUNDS)| == 24
  {
  }

  /** Exporting a key in the new format and importing the file returns the key and its comment. */
  method ExportAndImport(suite: Suite, reg: Registry, user: UserKey, passphrase: Option<seq<Byte>>,
                         salt: seq<Byte>, checkint: nat)
    returns (r: Result<UserKey, Fault>)
    requires suite.Sound() && reg.SelfDelimiting(user.key) && IsCString(user.comment)
    requires |salt| == 16 && checkint < TWO_32
    requires |user.key.pub| < TWO_32 && |reg.id(user.key)| < TWO_32 && |user.comment| < TWO_32
    requires |Padded(Section(reg, user.key, ToBytes(user.comment), checkint))| < TWO_32
    ensures r == Success(user)
  {
    assert forall i :: 0 <= i < |user.comment| ==> user.comment[i] as int < 256;
    hide *;
    var text := WriteKey(suite, reg, user, passphrase, salt, checkint);
    var given := if passphrase.Some? then passphrase.value else [];
    r := ReadKey(suite, reg, text, given);
    ReadOfFile(suite, reg, user, passphrase, salt, checkint, given);
  }
}
