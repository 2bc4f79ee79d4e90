/** What the ssh.com reader can answer, whatever the file. */
module SshComAnswers {
  import opened Bytes
  import opened Marshal
  import opened Mpint
  import opened Base64
  import opened KeyText
  import opened Keys
  import opened SshCom
  import opened SshComRoundTrip
  import opened SshComFiles

  lemma CanonicalisedIsCanonical(parts: Parts)
    ensures parts.Canonicalised().IsCanonical()
  {
    hide Canon, Canonical;
    match parts
    case RsaParts(e, n, d, p, q, iqmp) =>
      CanonIsCanonical(e); CanonIsCanonical(n); CanonIsCanonical(d);
      CanonIsCanonical(p); CanonIsCanonical(q); CanonIsCanonical(iqmp);
    case DsaParts(p, q, g, y, x) =>
      CanonIsCanonical(p); CanonIsCanonical(q); CanonIsCanonical(g); CanonIsCanonical(y); CanonIsCanonical(x);
    case EcParts(c, point, scalar) => CanonIsCanonical(scalar);
  }

  lemma PayloadIsCanonical(alg: Alg, wrong: bool, i: Input) returns (parts: Parts)
    requires (alg == Rsa || alg == Dsa) && ReadPayload(alg, wrong, i).Success?
    ensures parts.IsCanonical() && parts.Alg() == alg && ReadPayload(alg, wrong, i).value == parts.Key()
  {
    hide GetMps, GetUint32, RsaKey, DsaKey, Canon, Parts.Key, Parts.IsCanonical;
    var found: Parts;
    if alg == Rsa {
      var ms := GetMps(i, 6).0;
      found := RsaParts(ms[0], ms[2], ms[1], ms[5], ms[4], ms[3]);
      RsaKeyOfNumbers(found, ms);
    } else {
      var ms := GetMps(GetUint32(i).1, 5).0;
      found := DsaParts(ms[0], ms[2], ms[1], ms[3], ms[4]);
      DsaKeyOfNumbers(found, ms);
    }
    parts := found.Canonicalised();
    CanonicalisedIsCanonical(found);
  }

  lemma BlobIsCanonical(suite: Suite, f: SshCom.Fields, passphrase: seq<Byte>) returns (parts: Parts)
    requires ReadBlob(suite, f, passphrase).Success?
    ensures parts.IsCanonical() && !parts.EcParts? && IsTypeOf(f.keyType, parts)
    ensures ReadBlob(suite, f, passphrase).value == parts.Key()
  {
    hide ReadPayload, GetString, ParseCipher, DeriveKey, Parts.Key, Parts.IsCanonical, ToBytes;
    var alg := ParseType(f.keyType).value;
    var encrypted := ParseCipher(f.cipher).value;
    var plain := if encrypted then suite.des3Decrypt(DeriveKey(suite, passphrase), ZeroIv(), f.ciphertext) else f.ciphertext;
    var payload := GetString(Input(plain, false)).0;
    parts := PayloadIsCanonical(alg, encrypted, Input(payload, false));
  }

  /** Whatever the file, a key that is read is RSA or DSA as its type string says, with canonical integers. */
  lemma EveryKeyIsCanonical(suite: Suite, t: string, passphrase: seq<Byte>) returns (parts: Parts)
    requires Read(suite, t, passphrase).Success?
    ensures parts.IsCanonical() && !parts.EcParts? && Read(suite, t, passphrase).value.key == parts.Key()
    ensures NextLine(t).0 == "---- BEGIN SSH2 ENCRYPTED PRIVATE KEY ----"
  {
    hide Lines, NextLine, ReadBlob, ReadFields, Parts.Key, Parts.IsCanonical;
    parts := BlobIsCanonical(suite, ReadFields(Load(t).value.1), passphrase);
  }

  ghost predicate IsEncrypted(t: string) {
    Load(t).Success? && ReadFields(Load(t).value.1).cipher == CipherBytes(true)
  }

  lemma BlobBlames(suite: Suite, f: SshCom.Fields, passphrase: seq<Byte>)
    ensures var r := ReadBlob(suite, f, passphrase);
            r.Failure? ==>
              (r.error.wrongPassphrase <==>
                 f.cipher == CipherBytes(true) && r.error.fault in {BadContainer, BadIntegers, PredefinedParams})
  {
    NoneIsOther();
    hide GetString, GetMps, GetUint32, ParseType, ToBytes, DeriveKey, RsaKey, DsaKey;
  }

  lemma NoneIsOther()
    ensures ToBytes("none") != ToBytes("3des-cbc")
  {
    assert |ToBytes("none")| != |ToBytes("3des-cbc")|;
  }

  lemma LoadBlamesNoOne(t: string)
    ensures Load(t).Failure? ==> Load(t).error !in {BadContainer, BadIntegers, PredefinedParams}
  {
    var (line, rest) := NextLine(t);
    hide NextLine, Lines;
    LinesBlameNoOne(Start(), rest);
  }

  lemma {:induction false} LinesBlameNoOne(st: Loaded, t: string)
    requires st.Valid()
    ensures Lines(st, t).Failure? ==> Lines(st, t).error in {NoAnswer, HeaderInBody, BadBase64}
    decreases |t|
  {
    hide Header, Feed, NextLine;
    if t != "" {
      var (line, rest) := NextLine(t);
      if line != END && Turn(st, line, rest).Success? {
        var (next, after) := Turn(st, line, rest).value;
        LinesBlameNoOne(next, after);
      }
    }
  }

  /** A body is only taken from behind the right first line, and it is not empty. */
  lemma BodyIsPresent(t: string)
    ensures NextLine(t).0 == "---- BEGIN SSH2 ENCRYPTED PRIVATE KEY ----" <==> Load(t) != Failure(BadHeader)
    ensures Load(t).Success? ==> Load(t).value.1 != []
  {
    var (line, rest) := NextLine(t);
    hide NextLine, Lines;
    LinesBlameNoOne(Start(), rest);
  }

  /** The passphrase is blamed exactly when an encrypted blob, once decrypted, is not what it should be. */
  lemma WhenThePassphraseIsBlamed(suite: Suite, t: string, passphrase: seq<Byte>)
    ensures var r := Read(suite, t, passphrase);
            r.Failure? ==>
              (r.error.wrongPassphrase <==>
                 IsEncrypted(t) && r.error.fault in {BadContainer, BadIntegers, PredefinedParams})
  {
    hide Load, ReadBlob, ReadFields, CipherBytes;
    LoadBlamesNoOne(t);
    if Load(t).Success? {
      BlobBlames(suite, ReadFields(Load(t).value.1), passphrase);
    }
  }

  /** What the strings around the ciphertext are refused for. */
  lemma WhatIsRefused(suite: Suite, f: SshCom.Fields, passphrase: seq<Byte>)
    ensures var r := ReadBlob(suite, f, passphrase);
            if f.magic != 0x3f6ff9eb then r == Failure(KeyError(BadMagic, false))
            else if !IsRsaType(f.keyType) && !IsDsaType(f.keyType) then r == Failure(KeyError(UnknownKeyType, false))
            else if f.cipher != CipherBytes(true) && f.cipher != CipherBytes(false) then r == Failure(KeyError(BadCipher, false))
            else if f.ciphertext == [] then r == Failure(KeyError(NoKeyData, false))
            else f.cipher == CipherBytes(true) && |f.ciphertext| % 8 != 0 ==> r == Failure(KeyError(BadBlockSize, false))
  {
    hide ReadPlain, ToBytes, DeriveKey;
  }

  predicate IsRsaType(s: seq<Byte>) {
    |s| > 16 && s[..16] == ToBytes("if-modn{sign{rsa")
  }

  predicate IsDsaType(s: seq<Byte>) {
    |s| > 16 && s[..16] == ToBytes("dl-modp{sign{dsa")
  }

  // What the plaintext must be.

  /** So many integers in a row: a number of bits, which is rounded up to bytes in 32 bits, and the bytes. */
  predicate HasMps(data: seq<Byte>, n: nat)
    decreases n
  {
    n == 0 || (|data| >= 4 && (var size := (Get32(data[..4]) + 7) % 0x1_0000_0000 / 8;
                               size <= |data| - 4 && HasMps(data[4 + size..], n - 1)))
  }

  lemma MpIsRead(data: seq<Byte>)
    ensures var (_, next) := GetMpSshcom(Input(data, false));
            && (next.err <==> |data| < 4 || |data| - 4 < (Get32(data[..4]) + 7) % 0x1_0000_0000 / 8)
            && (!next.err ==> next.rest == data[4 + (Get32(data[..4]) + 7) % 0x1_0000_0000 / 8..])
  {
  }

  lemma {:induction false} ErrorStays(i: Input, n: nat)
    requires i.err
    ensures GetMps(i, n).1.err
    decreases n
  {
    if n > 0 {
      assert GetMpSshcom(i).1.err;
      hide GetMpSshcom;
      ErrorStays(GetMpSshcom(i).1, n - 1);
    }
  }

  lemma {:induction false} MpsAreRead(data: seq<Byte>, n: nat)
    ensures GetMps(Input(data, false), n).1.err <==> !HasMps(data, n)
    decreases n
  {
    if n > 0 {
      var next := GetMpSshcom(Input(data, false)).1;
      MpIsRead(data);
      hide GetMpSshcom;
      if next.err {
        ErrorStays(next, n - 1);
      } else {
        MpsAreRead(next.rest, n - 1);
        assert next == Input(next.rest, false);
      }
    }
  }

  /** An RSA payload is six integers; a DSA payload is a zero and five integers. */
  lemma PayloadIsRead(alg: Alg, wrong: bool, data: seq<Byte>)
    ensures var r := ReadPayload(alg, wrong, Input(data, false));
            if alg == Rsa then if HasMps(data, 6) then r.Success? else r == Failure(KeyError(BadIntegers, wrong))
            else if |data| >= 4 && Get32(data[..4]) != 0 then r == Failure(KeyError(PredefinedParams, wrong))
            else if |data| >= 4 && HasMps(data[4..], 5) then r.Success?
            else r == Failure(KeyError(BadIntegers, wrong))
  {
    if alg == Rsa {
      MpsAreRead(data, 6);
    } else if |data| >= 4 {
      MpsAreRead(data[4..], 5);
    } else {
      ErrorStays(GetUint32(Input(data, false)).1, 5);
    }
    hide GetMps, HasMps, RsaKey, DsaKey;
  }

  /** Around it there is a string; what follows the string is not looked at. */
  lemma ContainerIsRead(alg: Alg, wrong: bool, plain: seq<Byte>)
    ensures var r := ReadPlain(alg, wrong, plain);
            if |plain| < 4 || |plain| - 4 < Get32(plain[..4]) then r == Failure(KeyError(BadContainer, wrong))
            else r == ReadPayload(alg, wrong, Input(plain[4..4 + Get32(plain[..4])], false))
  {
    hide ReadPayload;
    if |plain| >= 4 && |plain| - 4 >= Get32(plain[..4]) {
      assert plain[4..][..Get32(plain[..4])] == plain[4..4 + Get32(plain[..4])];
    }
  }
}
