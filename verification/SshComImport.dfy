/** load_sshcom_key, sshcom_read and sshcom_write as the source runs them. */
module SshComImport {
  import opened Bytes
  import opened Marshal
  import opened Mpint
  import opened Base64
  import opened KeyText
  import opened Keys
  import opened SshCom
  import opened SshComRoundTrip
  import OpensshPemImport

  /** The loop that joins continued header lines. */
  method UnfoldLine(src: TextSource, first: string) returns (line: string)
    requires src.Valid()
    modifies src
    ensures src.Valid() && (line, src.Rest()) == Unfold(first, old(src.Rest()))
  {
    line := first;
    while Continues(line)
      invariant src.Valid()
      invariant Unfold(line, src.Rest()) == Unfold(first, old(src.Rest()))
      decreases |src.Rest()|, |line|
    {
      var line2 := src.GetLine();
      line := line[..|line| - 1] + line2;
    }
  }

  /** One turn of the loop: a header, joined with the lines it continues on, or a line of the body. */
  method TakeTurn(src: TextSource, st: Loaded, line: string) returns (r: Result<Loaded, Fault>)
    requires src.Valid() && st.Valid()
    modifies src
    ensures src.Valid()
    ensures match Turn(st, line, old(src.Rest()))
            case Failure(f) => r == Failure(f)
            case Success((next, after)) => r == Success(next) && src.Rest() == after
  {
    hide NextLine, Feed, Unfold, HeaderField, Find, CountSpaces;
    var colon := Find(line, ':');
    if colon < |line| {
      if st.headersDone {
        return Failure(HeaderInBody);
      }
      var start := colon + 1 + CountSpaces(line[colon + 1..]);
      SpacesAreNotBackslashes(line[colon + 1..]);
      UnfoldKeepsHead(line, src.Rest(), start);
      var joined := UnfoldLine(src, line);
      r := Success(HeaderField(st, joined, colon, start));
    } else {
      var ok, bit, blob := FeedLine(st.body.bit, st.body.blob, line);
      r := if ok then Success(st.(headersDone := true, body := Body(bit, blob))) else Failure(BadBase64);
    }
  }

  /**
   * load_sshcom_key. A loop that has taken more turns than there are characters never ends
   * (EndOfData.SshComAnswersIff).
   */
  method LoadKey(src: TextSource) returns (r: Result<(string, seq<Byte>), Fault>)
    requires src.Valid()
    modifies src
    ensures r == Load(old(src.Rest()))
  {
    hide NextLine, Feed, Turn, Lines;
    var line := src.GetLine();
    if line != BEGIN {
      return Failure(BadHeader);
    }
    var st := Start();
    var chars := src.Remaining();
    var turns: nat := chars + 1;
    TurnsOfLines(st, src.Rest(), turns);
    ghost var whole := LinesInTurns(st, src.Rest(), turns);
    var done := false;
    while !done
      invariant src.Valid() && st.Valid()
      invariant whole == if done then Some(Success(st)) else LinesInTurns(st, src.Rest(), turns)
      decreases !done, turns
    {
      if turns == 0 {
        return Failure(NoAnswer);
      }
      turns := turns - 1;
      line := src.GetLine();
      if line == END {
        done := true;
      } else {
        var step := TakeTurn(src, st, line);
        if step.Failure? {
          return Failure(step.error);
        }
        st := step.value;
      }
    }
    r := if st.body.blob == [] then Failure(NoBody) else Success((st.comment, st.body.blob));
  }

  /** `n` ssh.com integers read one after another. */
  method ReadMps(src: BinarySource, n: nat) returns (ms: seq<seq<Byte>>)
    requires src.Valid()
    modifies src
    ensures src.Valid() && (ms, src.In()) == GetMps(old(src.In()), n)
  {
    hide GetMpSshcom;
    ms := [];
    ghost var all, last := GetMps(src.In(), n).0, GetMps(src.In(), n).1;
    assert [] + all == all;
    while |ms| < n
      invariant src.Valid() && |ms| <= n
      invariant ms + GetMps(src.In(), n - |ms|).0 == all && GetMps(src.In(), n - |ms|).1 == last
    {
      ghost var before, rest := ms, GetMps(src.In(), n - |ms|).0;
      var m := ReadMpSshcomAsString(src);
      ms := ms + [m];
      assert rest == [m] + GetMps(src.In(), n - |ms|).0;
      Assoc(before, [m], GetMps(src.In(), n - |ms|).0);
    }
    assert ms + [] == ms;
  }

  /** The two blobs of an RSA key from the six integers of a file. */
  method BuildRsaKey(e: seq<Byte>, d: seq<Byte>, n: seq<Byte>, u: seq<Byte>, p: seq<Byte>, q: seq<Byte>)
    returns (key: SshKey)
    ensures key == RsaKey(e, d, n, u, p, q)
  {
    hide MpSsh2, Str, ToBytes;
    var blob := new Strbuf();
    blob.PutString(ToBytes("ssh-rsa"));
    assert blob.u == Str(ToBytes("ssh-rsa"));
    PutMpSsh2FromString(blob, e);
    PutMpSsh2FromString(blob, n);
    ghost var pub := blob.u;
    var publen := |blob.u|;
    PutMpSsh2FromString(blob, d);
    PutMpSsh2FromString(blob, q);
    PutMpSsh2FromString(blob, p);
    PutMpSsh2FromString(blob, u);
    assert blob.u == pub + (MpSsh2(d) + MpSsh2(q) + MpSsh2(p) + MpSsh2(u));
    key := SshKey(Rsa, blob.u[..publen], blob.u[publen..]);
  }

  /** The two blobs of a DSA key from the five integers of a file. */
  method BuildDsaKey(p: seq<Byte>, g: seq<Byte>, q: seq<Byte>, y: seq<Byte>, x: seq<Byte>) returns (key: SshKey)
    ensures key == DsaKey(p, g, q, y, x)
  {
    hide MpSsh2, Str, ToBytes;
    var blob := new Strbuf();
    blob.PutString(ToBytes("ssh-dss"));
    assert blob.u == Str(ToBytes("ssh-dss"));
    PutMpSsh2FromString(blob, p);
    PutMpSsh2FromString(blob, q);
    PutMpSsh2FromString(blob, g);
    PutMpSsh2FromString(blob, y);
    ghost var pub := blob.u;
    var publen := |blob.u|;
    PutMpSsh2FromString(blob, x);
    assert blob.u[..publen] == pub && blob.u[publen..] == MpSsh2(x);
    key := SshKey(Dsa, blob.u[..publen], blob.u[publen..]);
  }

  /** The payload of sshcom_read. */
  method ReadPayloadOf(alg: Alg, wrong: bool, payload: seq<Byte>) returns (r: Result<SshKey, KeyError>)
    ensures r == ReadPayload(alg, wrong, Input(payload, false))
  {
    hide GetMps, GetUint32, RsaKey, DsaKey;
    var src := new BinarySource(payload);
    if alg == Rsa {
      var ms := ReadMps(src, 6);
      if src.err {
        return Failure(KeyError(BadIntegers, wrong));
      }
      var key := BuildRsaKey(ms[0], ms[1], ms[2], ms[3], ms[4], ms[5]);
      r := Success(key);
    } else {
      var version := src.ReadUint32();
      if version != 0 {
        return Failure(KeyError(PredefinedParams, wrong));
      }
      var ms := ReadMps(src, 5);
      if src.err {
        return Failure(KeyError(BadIntegers, wrong));
      }
      var key := BuildDsaKey(ms[0], ms[1], ms[2], ms[3], ms[4]);
      r := Success(key);
    }
  }

  /** The strings around the ciphertext, checked as they are read, and the decryption. */
  method ReadKeyBlob(suite: Suite, blob: seq<Byte>, passphrase: seq<Byte>) returns (r: Result<SshKey, KeyError>)
    ensures r == ReadBlob(suite, ReadFields(blob), passphrase)
  {
    hide GetString, GetUint32, ParseType, ParseCipher, ReadPayload, DeriveKey;
    var src := new BinarySource(blob);
    var magic := src.ReadUint32();
    if magic != MAGIC {
      return Failure(KeyError(BadMagic, false));
    }
    var length := src.ReadUint32();
    var str := src.ReadString();
    var alg := ParseType(str);
    if alg.None? {
      return Failure(KeyError(UnknownKeyType, false));
    }
    str := src.ReadString();
    var encrypted := ParseCipher(str);
    if encrypted.None? {
      return Failure(KeyError(BadCipher, false));
    }
    var ciphertext := src.ReadString();
    if ciphertext == [] {
      return Failure(KeyError(NoKeyData, false));
    }
    var wrong := false;
    if encrypted.value {
      if |ciphertext| % 8 != 0 {
        return Failure(KeyError(BadBlockSize, false));
      }
      ciphertext := suite.des3Decrypt(DeriveKey(suite, passphrase), ZeroIv(), ciphertext);
      wrong := true;
    }
    src := new BinarySource(ciphertext);
    var payload := src.ReadString();
    if src.err {
      return Failure(KeyError(BadContainer, wrong));
    }
    r := ReadPayloadOf(alg.value, wrong, payload);
  }

  /** sshcom_read. */
  method ReadKey(suite: Suite, text: string, passphrase: seq<Byte>) returns (r: Result<UserKey, KeyError>)
    ensures r == Read(suite, text, passphrase)
  {
    hide Load, ReadBlob, ReadFields;
    var filesrc := new TextSource(text);
    var loaded := LoadKey(filesrc);
    if loaded.Failure? {
      return Failure(KeyError(loaded.error, false));
    }
    var (comment, blob) := loaded.value;
    var key := ReadKeyBlob(suite, blob, passphrase);
    r := if key.Failure? then Failure(key.error) else Success(UserKey(key.value, comment));
  }

  /** The numbers of a key, in the order the file holds them. */
  method TakeNumbers(key: SshKey, ghost parts: Parts) returns (numbers: seq<seq<Byte>>)
    requires parts.Fits() && key == parts.Key() && !parts.EcParts?
    ensures numbers == Numbers(parts)
  {
    PartsOfKey(parts);
    hide GetStrings, Strs, ToBytes;
    if key.alg == Rsa {
      var pub := OpensshPemImport.TakeStrings(key.pub, 3);
      var priv := OpensshPemImport.TakeStrings(key.priv, 4);
      var e, n := pub[1], pub[2];
      var d, p, q, iqmp := priv[0], priv[1], priv[2], priv[3];
      numbers := [e, d, n, iqmp, q, p];
    } else {
      var pub := OpensshPemImport.TakeStrings(key.pub, 5);
      var priv := OpensshPemImport.TakeStrings(key.priv, 1);
      var p, q, g, y, x := pub[1], pub[2], pub[3], pub[4], priv[0];
      numbers := [p, g, q, y, x];
    }
  }

  /** The loop that writes the integers. */
  method WriteMps(outblob: Strbuf, numbers: seq<seq<Byte>>)
    requires forall i :: 0 <= i < |numbers| ==> |numbers[i]| <= 0x100_0000
    modifies outblob
    ensures outblob.u == old(outblob.u) + Mps(numbers)
  {
    hide MpSshcom;
    var i := 0;
    assert numbers[0..] == numbers;
    while i < |numbers|
      invariant 0 <= i <= |numbers|
      invariant outblob.u + Mps(numbers[i..]) == old(outblob.u) + Mps(numbers)
    {
      ghost var before := outblob.u;
      PutMpSshcomFromString(outblob, numbers[i]);
      assert numbers[i..][1..] == numbers[i + 1..];
      Assoc(before, MpSshcom(numbers[i]), Mps(numbers[i + 1..]));
      i := i + 1;
    }
    assert outblob.u + [] == outblob.u;
  }

  /** Overwriting four placeholder bytes. */
  lemma Patched(a: seq<Byte>, hole: seq<Byte>, b: seq<Byte>, n: int)
    requires |hole| == 4
    ensures (a + hole + b)[..|a|] + Put32(n) + (a + hole + b)[|a| + 4..] == a + Put32(n) + b
  {
  }

  /** Everything before the ciphertext, given its length. */
  ghost function Front(keyType: seq<Byte>, cipher: seq<Byte>, cipherlen: nat): seq<Byte> {
    var names := Str(keyType) + Str(cipher);
    Put32(MAGIC) + Put32(8 + |names| + 4 + cipherlen) + names + Put32(cipherlen)
  }

  lemma BlobOfFront(keyType: seq<Byte>, cipher: seq<Byte>, c: seq<Byte>)
    ensures Blob(keyType, cipher, c) == Front(keyType, cipher, |c|) + c
  {
    hide Put32;
    var names := Str(keyType) + Str(cipher);
    var total := 8 + |names| + 4 + |c|;
    Assoc(names, Put32(|c|), c);
    Assoc(Put32(MAGIC) + Put32(total), names + Put32(|c|), c);
    Assoc(Put32(MAGIC) + Put32(total), names, Put32(|c|));
  }

  /** The unencrypted blob, with its three length fields filled in once what they count has been written. */
  method AssembleBlob(outblob: Strbuf, keyType: seq<Byte>, cipher: seq<Byte>, initialZero: bool,
                      numbers: seq<seq<Byte>>, pad: Option<seq<Byte>>)
    returns (lenpos: nat)
    requires outblob.u == [] && |keyType| < 64 && |cipher| < 64 && (pad.Some? ==> |pad.value| == 8)
    requires forall i :: 0 <= i < |numbers| ==> |numbers[i]| <= 0x100_0000
    modifies outblob
    ensures var plain := Str((if initialZero then Put32(0) else []) + Mps(numbers));
            var padded := if pad.Some? then plain + pad.value[..PadLength(|plain|)] else plain;
            && outblob.u == Front(keyType, cipher, |padded|) + padded
            && lenpos + 4 == |Front(keyType, cipher, |padded|)|
  {
    hide Put32, Mps;
    ghost var names := Str(keyType) + Str(cipher);
    ghost var head := Put32(MAGIC) + Put32(0) + names;
    lenpos := PutPlaceholders(outblob, keyType, cipher);
    if initialZero {
      outblob.PutUint32(0);
    }
    WriteMps(outblob, numbers);
    ghost var payload := (if initialZero then Put32(0) else []) + Mps(numbers);
    assert outblob.u == (head + Put32(0)) + Put32(0) + payload;
    hide Str;
    FillPayloadLength(outblob, lenpos, head, payload);
    ghost var plain := Str(payload);
    if pad.Some? {
      var padding := PadLength(|outblob.u| - (lenpos + 4));
      outblob.PutData(pad.value[..padding]);
      Assoc(head + Put32(0), plain, pad.value[..padding]);
    }
    ghost var padded := if pad.Some? then plain + pad.value[..PadLength(|plain|)] else plain;
    FillOuterLengths(outblob, lenpos, names, padded);
    assert outblob.u == Front(keyType, cipher, |padded|) + padded;
  }

  /** The start of the blob, with zeros where the lengths will go; `lenpos` is where the second of them starts. */
  method PutPlaceholders(outblob: Strbuf, keyType: seq<Byte>, cipher: seq<Byte>) returns (lenpos: nat)
    requires outblob.u == [] && |keyType| < 64 && |cipher| < 64
    modifies outblob
    ensures var names := Str(keyType) + Str(cipher);
            && lenpos == 8 + |names|
            && outblob.u == Put32(MAGIC) + Put32(0) + names + Put32(0) + Put32(0)
  {
    hide Put32, Str;
    outblob.PutUint32(MAGIC);
    outblob.PutUint32(0);
    outblob.PutString(keyType);
    outblob.PutString(cipher);
    assert outblob.u == Put32(MAGIC) + Put32(0) + (Str(keyType) + Str(cipher));
    lenpos := |outblob.u|;
    outblob.PutUint32(0);
    outblob.PutUint32(0);
  }

  method FillPayloadLength(outblob: Strbuf, lenpos: nat, ghost head: seq<Byte>, ghost payload: seq<Byte>)
    requires outblob.u == (head + Put32(0)) + Put32(0) + payload && lenpos == |head|
    modifies outblob
    ensures outblob.u == head + Put32(0) + Str(payload)
  {
    hide Put32;
    Patched(head + Put32(0), Put32(0), payload, |payload|);
    outblob.Patch32(lenpos + 4, |outblob.u| - (lenpos + 8));
    Assoc(head + Put32(0), Put32(|payload|), payload);
  }

  method FillOuterLengths(outblob: Strbuf, lenpos: nat, ghost names: seq<Byte>, ghost padded: seq<Byte>)
    requires outblob.u == (Put32(MAGIC) + Put32(0) + names) + Put32(0) + padded && lenpos == 8 + |names|
    modifies outblob
    ensures outblob.u == Put32(MAGIC) + Put32(8 + |names| + 4 + |padded|) + names + Put32(|padded|) + padded
  {
    hide Put32;
    var cipherlen := |outblob.u| - (lenpos + 4);
    Patched(Put32(MAGIC) + Put32(0) + names, Put32(0), padded, |padded|);
    outblob.Patch32(lenpos, cipherlen);
    ghost var rest := names + Put32(|padded|) + padded;
    ghost var total := 8 + |names| + 4 + |padded|;
    assert outblob.u == Put32(MAGIC) + Put32(0) + rest;
    Patched(Put32(MAGIC), Put32(0), rest, total);
    outblob.Patch32(4, |outblob.u|);
    Assoc(Put32(MAGIC) + Put32(total), names + Put32(|padded|), padded);
    Assoc(Put32(MAGIC) + Put32(total), names, Put32(|padded|));
  }

  ghost function PaddedPlain(parts: Parts, encrypted: bool, noise: seq<Byte>): seq<Byte>
    requires !parts.EcParts? && |noise| == 8
  {
    var plain := Str(Payload(parts));
    if encrypted then plain + noise[..PadLength(|plain|)] else plain
  }

  lemma CiphertextOfPadded(suite: Suite, parts: Parts, passphrase: Option<seq<Byte>>, noise: seq<Byte>)
    requires suite.Sound() && !parts.EcParts? && |noise| == 8
    ensures var padded := PaddedPlain(parts, passphrase.Some?, noise);
            var c := Ciphertext(suite, Str(Payload(parts)), passphrase, noise);
            && |c| == |padded|
            && c == match passphrase
                    case None => padded
                    case Some(p) => suite.des3Encrypt(DeriveKey(suite, p), ZeroIv(), padded)
  {
    hide Payload, Str, DeriveKey;
    var padded := PaddedPlain(parts, passphrase.Some?, noise);
    assert passphrase.Some? ==> |padded| % 8 == 0;
  }

  /** The blob of sshcom_write, its last string encrypted in place. */
  method WriteBlob(suite: Suite, key: SshKey, ghost parts: Parts, passphrase: Option<seq<Byte>>, noise: seq<Byte>)
    returns (blob: seq<Byte>)
    requires suite.Sound() && parts.Fits() && key == parts.Key() && !parts.EcParts? && |noise| == 8
    ensures blob == Blob(ToBytes(TypeName(parts.Alg())), ToBytes(CipherName(passphrase.Some?)),
                         Ciphertext(suite, Str(Payload(parts)), passphrase, noise))
  {
    hide Put32, Mps, ToBytes, TypeName, CipherName, DeriveKey, Front, Str, Blob, Parts.PublicBlob, Parts.PrivateBlob;
    var numbers := TakeNumbers(key, parts);
    assert forall i :: 0 <= i < |numbers| ==> |numbers[i]| <= 0x100_0000;
    ghost var padded := PaddedPlain(parts, passphrase.Some?, noise);
    var outblob := new Strbuf();
    var keyType, cipher := ToBytes(TypeName(key.alg)), ToBytes(CipherName(passphrase.Some?));
    var lenpos := AssembleBlob(outblob, keyType, cipher, key.alg == Dsa, numbers,
                               if passphrase.Some? then Some(noise) else None);
    assert outblob.u == Front(keyType, cipher, |padded|) + padded;
    CiphertextOfPadded(suite, parts, passphrase, noise);
    hide Payload, PaddedPlain, Ciphertext;
    BlobOfFront(keyType, cipher, Ciphertext(suite, Str(Payload(parts)), passphrase, noise));
    blob := outblob.u;
    if passphrase.Some? {
      blob := EncryptTail(suite, passphrase.value, blob, lenpos + 4, Front(keyType, cipher, |padded|), padded);
    }
  }

  /** des3_encrypt_pubkey_ossh on the last part of a buffer. */
  method EncryptTail(suite: Suite, passphrase: seq<Byte>, blob: seq<Byte>, at: nat,
                     ghost front: seq<Byte>, ghost padded: seq<Byte>)
    returns (r: seq<Byte>)
    requires blob == front + padded && |front| == at
    ensures r == front + suite.des3Encrypt(DeriveKey(suite, passphrase), ZeroIv(), padded)
  {
    assert blob[..at] == front && blob[at..] == padded;
    r := blob[..at] + suite.des3Encrypt(DeriveKey(suite, passphrase), ZeroIv(), blob[at..]);
  }

  /** The loop that folds the comment. */
  method WriteComment(comment: string) returns (text: string)
    ensures text == COMMENT + FoldComment(comment, 60)
  {
    text := COMMENT;
    var slen, c := 60, comment;
    while |c| > slen
      invariant slen > 0
      invariant text + FoldComment(c, slen) == COMMENT + FoldComment(comment, 60)
      decreases |c|
    {
      ghost var before := text;
      text := text + c[..slen] + "\\" + "\n";
      assert before + FoldComment(c, slen) == text + FoldComment(c[slen..], 70);
      c := c[slen..];
      slen := 70;
    }
    text := text + (c + "\"" + "\n");
  }

  /** sshcom_write: false for a key type that the format does not support. */
  method WriteKey(suite: Suite, user: UserKey, ghost parts: Parts, passphrase: Option<seq<Byte>>, noise: seq<Byte>)
    returns (text: Option<string>)
    requires suite.Sound() && parts.Fits() && user.key == parts.Key() && |noise| == 8
    ensures text == File(suite, parts, user.comment, passphrase, noise)
  {
    if user.key.alg != Rsa && user.key.alg != Dsa {
      return None;
    }
    hide Blob, Ciphertext, Payload, ToBytes, TypeName, CipherName, Str, FoldComment, WrapLines, EncodeChars;
    var blob := WriteBlob(suite, user.key, parts, passphrase, noise);
    var head := WriteComment(user.comment);
    var body := Encode(blob, 70);
    text := Some(BEGIN + "\n" + head + body + (END + "\n"));
  }

  /**
   * Exporting a key and importing the file returns it, with the integers canonical and the comment
   * cut; an ECDSA key is refused.
   */
  method ExportAndImport(suite: Suite, user: UserKey, ghost parts: Parts, passphrase: Option<seq<Byte>>, noise: seq<Byte>)
    returns (r: Option<Result<UserKey, KeyError>>)
    requires suite.Sound() && parts.Fits() && user.key == parts.Key() && |noise| == 8
    requires OneLine(user.comment)
    ensures r == if parts.EcParts? then None
                 else Some(Success(UserKey(parts.Canonicalised().Key(), Truncate(user.comment))))
    ensures !parts.EcParts? && parts.IsCanonical() && |user.comment| <= 255 ==> r == Some(Success(user))
  {
    assert |user.comment| <= 255 ==> Truncate(user.comment) == user.comment;
    assert File(suite, parts, user.comment, passphrase, noise).None? <==> parts.EcParts?;
    hide *;
    var text := WriteKey(suite, user, parts, passphrase, noise);
    if text.None? {
      return None;
    }
    var given := if passphrase.Some? then passphrase.value else [];
    var read := ReadKey(suite, text.value, given);
    r := Some(read);
    ReadOfFile(suite, parts, user.comment, passphrase, noise, given);
    KeyIsCanonical(parts);
  }
}
