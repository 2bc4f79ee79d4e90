/** What the PEM reader can answer, whatever the file. */
module OpensshPemAnswers {
  import opened Bytes
  import opened Marshal
  import opened Ber
  import opened Mpint
  import opened Base64
  import opened KeyText
  import opened Keys
  import opened OpensshPem
  import opened OpensshPemRoundTrip

  // Every key it returns is made of canonical integers.

  /** The integers that the reader's loop went through. */
  lemma {:induction false} IntegersFound(kt: KeyType, encrypted: bool, i: nat, g: Gathered, input: Input)
    returns (ns: seq<seq<Byte>>)
    requires i <= NumIntegers(kt) && Integers(kt, encrypted, i, g, input).Success?
    ensures |ns| == NumIntegers(kt) - i
    ensures GatherAll(kt, i, g, ns) == Success(Integers(kt, encrypted, i, g, input).value)
    decreases NumIntegers(kt) - i
  {
    hide GetBer, Gather;
    if i == NumIntegers(kt) {
      ns := [];
    } else {
      var (item, next) := GetBer(input);
      var more := IntegersFound(kt, encrypted, i + 1, Gather(kt, i, g, item.data).value, next);
      ns := [item.data] + more;
      GatherStep(kt, i, g, item.data, more);
    }
  }

  lemma FirstIsZero(kt: KeyType, g: Gathered, ns: seq<seq<Byte>>)
    requires ns != [] && GatherAll(kt, 0, g, ns).Success?
    ensures ns[0] == [0]
  {
  }

  lemma SequenceByIntegers(kt: KeyType, encrypted: bool, inner: seq<Byte>)
    requires kt != OpEcdsa
    ensures var g := Integers(kt, encrypted, 0, Gathered(Str(ToBytes(if kt == OpDsa then "ssh-dss" else "ssh-rsa")), [], 0),
                              Input(inner, false));
            ReadSequence(kt, encrypted, inner) == if g.Failure? then Failure(g.error) else CutKey(kt, g.value)
  {
    hide Integers, Str, CutKey, ToBytes;
  }

  lemma NineIntegers(ns: seq<seq<Byte>>)
    requires |ns| == 9
    ensures ns == [ns[0], ns[1], ns[2], ns[3], ns[4], ns[5], ns[6], ns[7], ns[8]]
  {
  }

  /** The key that nine gathered integers make. */
  lemma CutOfRsa(ns: seq<seq<Byte>>, g: Gathered) returns (parts: Parts)
    requires |ns| == 9 && GatherAll(OpRsa, 0, Gathered(Str(ToBytes("ssh-rsa")), [], 0), ns) == Success(g)
    ensures parts.RsaParts? && parts.IsCanonical() && CutKey(OpRsa, g) == Success(parts.Key())
  {
    var name := ToBytes("ssh-rsa");
    var n, e, d, p, q, iqmp := ns[1], ns[2], ns[3], ns[4], ns[5], ns[8];
    parts := RsaParts(Canon(e), Canon(n), Canon(d), Canon(p), Canon(q), Canon(iqmp));
    FirstIsZero(OpRsa, Gathered(Str(name), [], 0), ns);
    NineIntegers(ns);
    CanonIsCanonical(e); CanonIsCanonical(n); CanonIsCanonical(d);
    CanonIsCanonical(p); CanonIsCanonical(q); CanonIsCanonical(iqmp);
    RsaBlobs(name, Canon(e), Canon(n), Canon(d), Canon(p), Canon(q), Canon(iqmp));
    hide GatherAll, Gather, Strs, Str, Canon, Canonical, ToBytes;
    GatherRsa(Str(name), n, e, d, p, q, ns[6], ns[7], iqmp, Str(name) + MpSsh2(e) + MpSsh2(n));
  }

  lemma RsaIsCanonical(encrypted: bool, inner: seq<Byte>) returns (parts: Parts)
    requires ReadSequence(OpRsa, encrypted, inner).Success?
    ensures parts.RsaParts? && parts.IsCanonical() && ReadSequence(OpRsa, encrypted, inner).value == parts.Key()
  {
    SequenceByIntegers(OpRsa, encrypted, inner);
    var g0 := Gathered(Str(ToBytes("ssh-rsa")), [], 0);
    assert NumIntegers(OpRsa) == 9;
    hide *;
    var ns := IntegersFound(OpRsa, encrypted, 0, g0, Input(inner, false));
    parts := CutOfRsa(ns, Integers(OpRsa, encrypted, 0, g0, Input(inner, false)).value);
  }

  lemma CutOfDsa(ns: seq<seq<Byte>>, g: Gathered) returns (parts: Parts)
    requires |ns| == 6 && GatherAll(OpDsa, 0, Gathered(Str(ToBytes("ssh-dss")), [], 0), ns) == Success(g)
    ensures parts.DsaParts? && parts.IsCanonical() && CutKey(OpDsa, g) == Success(parts.Key())
  {
    var name := ToBytes("ssh-dss");
    var p, q, g', y, x := ns[1], ns[2], ns[3], ns[4], ns[5];
    parts := DsaParts(Canon(p), Canon(q), Canon(g'), Canon(y), Canon(x));
    FirstIsZero(OpDsa, Gathered(Str(name), [], 0), ns);
    assert ns == [ns[0], p, q, g', y, x];
    CanonIsCanonical(p); CanonIsCanonical(q); CanonIsCanonical(g'); CanonIsCanonical(y); CanonIsCanonical(x);
    DsaBlobs(name, Canon(p), Canon(q), Canon(g'), Canon(y), Canon(x));
    hide GatherAll, Gather, Strs, Str, Canon, Canonical, ToBytes;
    GatherDsa(Str(name), p, q, g', y, x, Str(name) + MpSsh2(p) + MpSsh2(q) + MpSsh2(g') + MpSsh2(y));
  }

  lemma DsaIsCanonical(encrypted: bool, inner: seq<Byte>) returns (parts: Parts)
    requires ReadSequence(OpDsa, encrypted, inner).Success?
    ensures parts.DsaParts? && parts.IsCanonical() && ReadSequence(OpDsa, encrypted, inner).value == parts.Key()
  {
    SequenceByIntegers(OpDsa, encrypted, inner);
    var g0 := Gathered(Str(ToBytes("ssh-dss")), [], 0);
    assert NumIntegers(OpDsa) == 6;
    hide *;
    var ns := IntegersFound(OpDsa, encrypted, 0, g0, Input(inner, false));
    parts := CutOfDsa(ns, Integers(OpDsa, encrypted, 0, g0, Input(inner, false)).value);
  }

  lemma EcdsaIsCanonical(encrypted: bool, inner: seq<Byte>) returns (parts: Parts)
    requires ReadSequence(OpEcdsa, encrypted, inner).Success?
    ensures parts.EcParts? && parts.IsCanonical() && |parts.point| == 1 + parts.curve.PointLen()
    ensures ReadSequence(OpEcdsa, encrypted, inner).value == parts.Key()
  {
    hide GetBer, EcdsaKey;
    var input := Input(inner, false);
    var (integer, i1) := GetBer(input);
    var (privkey, i2) := GetBer(i1);
    var (sub0, i3) := GetBer(i2);
    var (sub1, i4) := GetBer(i3);
    var (oid, _) := GetBer(Input(sub0.data, false));
    var (pubkey, _) := GetBer(Input(sub1.data, false));
    assert ReadSequence(OpEcdsa, encrypted, inner) == EcdsaKey(encrypted, oid.data, pubkey.data, privkey.data);
    parts := EcdsaParts(encrypted, oid.data, pubkey.data, privkey.data);
  }

  lemma EcdsaParts(encrypted: bool, oid: seq<Byte>, bits: seq<Byte>, scalar: seq<Byte>) returns (parts: Parts)
    requires EcdsaKey(encrypted, oid, bits, scalar).Success?
    ensures parts.EcParts? && parts.IsCanonical() && |parts.point| == 1 + parts.curve.PointLen()
    ensures EcdsaKey(encrypted, oid, bits, scalar).value == parts.Key()
  {
    hide CurveByOid, Strs, Str, Canon;
    var c := CurveByOid(oid).value;
    parts := EcParts(c, bits[1..], Canon(scalar));
    CanonIsCanonical(scalar);
    StrsOfThree(ToBytes(c.SshId()), ToBytes(c.Name()), bits[1..]);
    StrsOfOne(Canon(scalar));
  }

  /**
   * Whatever the file, a key that is read has the type of its BEGIN line, canonical integers, a point
   * of its curve's length, and the comment that stands for having none.
   */
  lemma EveryKeyIsCanonical(suite: Suite, t: string, passphrase: seq<Byte>) returns (parts: Parts)
    requires Read(suite, t, passphrase).Success?
    ensures parts.IsCanonical() && Read(suite, t, passphrase).value == UserKey(parts.Key(), "imported-openssh-key")
    ensures parts.EcParts? ==> |parts.point| == 1 + parts.curve.PointLen()
    ensures NextLine(t).0 == BeginLine(TypeOf(parts))
  {
    hide Lines, NextLine, ReadSequence, GetBer, Decrypt, Parts.Key, Parts.IsCanonical, BeginLine;
    var (kt, st) := Load(t).value;
    var inner := GetBer(Input(Decrypt(suite, st, passphrase), false)).0.data;
    if kt == OpRsa {
      parts := RsaIsCanonical(st.encrypted, inner);
    } else if kt == OpDsa {
      parts := DsaIsCanonical(st.encrypted, inner);
    } else {
      parts := EcdsaIsCanonical(st.encrypted, inner);
    }
  }

  // Whom it blames.

  lemma {:induction false} IntegersBlame(kt: KeyType, encrypted: bool, i: nat, g: Gathered, input: Input)
    ensures var r := Integers(kt, encrypted, i, g, input);
            r.Failure? ==> (r.error.wrongPassphrase <==> r.error.fault == Asn1 && encrypted)
    decreases NumIntegers(kt) - i
  {
    hide GetBer;
    if i < NumIntegers(kt) {
      var (item, next) := GetBer(input);
      if Gather(kt, i, g, item.data).Success? {
        IntegersBlame(kt, encrypted, i + 1, Gather(kt, i, g, item.data).value, next);
      }
    }
  }

  lemma SequenceBlames(kt: KeyType, encrypted: bool, inner: seq<Byte>)
    ensures var r := ReadSequence(kt, encrypted, inner);
            r.Failure? ==> (r.error.wrongPassphrase <==> r.error.fault == Asn1 && encrypted)
  {
    hide GetBer, Integers;
    if kt != OpEcdsa {
      var name := Str(ToBytes(if kt == OpDsa then "ssh-dss" else "ssh-rsa"));
      IntegersBlame(kt, encrypted, 0, Gathered(name, [], 0), Input(inner, false));
    }
  }

  /** The passphrase is blamed exactly when an encrypted file, once decrypted, is not the ASN.1 it should be. */
  lemma WhenThePassphraseIsBlamed(suite: Suite, t: string, passphrase: seq<Byte>)
    ensures var r := Read(suite, t, passphrase);
            r.Failure? ==>
              (r.error.wrongPassphrase <==> Load(t).Success? && Load(t).value.1.encrypted && r.error.fault == Asn1)
  {
    hide Load, ReadSequence, GetBer, Decrypt;
    if Load(t).Success? {
      var (kt, st) := Load(t).value;
      SequenceBlames(kt, st.encrypted, GetBer(Input(Decrypt(suite, st, passphrase), false)).0.data);
    }
  }

  // What it takes a file for, once it has been decrypted.

  /** So many INTEGERs in a row. */
  predicate IsIntegers(input: Input, n: nat)
    decreases n
  {
    n == 0 || (var (item, next) := GetBer(input); !next.err && item.id == 2 && IsIntegers(next, n - 1))
  }

  lemma {:induction false} IntegersIff(kt: KeyType, encrypted: bool, i: nat, g: Gathered, input: Input)
    requires 1 <= i <= NumIntegers(kt)
    ensures var r := Integers(kt, encrypted, i, g, input);
            if IsIntegers(input, NumIntegers(kt) - i) then r.Success? else r == Failure(KeyError(Asn1, encrypted))
    decreases NumIntegers(kt) - i
  {
    hide GetBer;
    if i < NumIntegers(kt) {
      var (item, next) := GetBer(input);
      IntegersIff(kt, encrypted, i + 1, Gather(kt, i, g, item.data).value, next);
    }
  }

  /** The version comes first, and has an error of its own. */
  lemma AllIntegers(kt: KeyType, encrypted: bool, g: Gathered, input: Input)
    requires kt != OpEcdsa
    ensures var n := if kt == OpRsa then 9 else 6;
            var r := Integers(kt, encrypted, 0, g, input);
            if !IsIntegers(input, 1) then r == Failure(KeyError(Asn1, encrypted))
            else if GetBer(input).0.data != [0] then r == Failure(KeyError(BadVersion, false))
            else if !IsIntegers(input, n) then r == Failure(KeyError(Asn1, encrypted))
            else r.Success?
  {
    var n := NumIntegers(kt);
    assert n == if kt == OpRsa then 9 else 6;
    FirstInteger(kt, encrypted, g, input);
    IntegersUnfold(input, n);
    IntegersUnfold(input, 1);
    assert IsIntegers(GetBer(input).1, 0);
    hide *;
    if IsIntegers(input, 1) {
      IntegersIff(kt, encrypted, 1, g, GetBer(input).1);
    }
  }

  lemma IntegersUnfold(input: Input, n: nat)
    requires n > 0
    ensures IsIntegers(input, n) <==> !GetBer(input).1.err && GetBer(input).0.id == 2 && IsIntegers(GetBer(input).1, n - 1)
  {
    hide GetBer;
  }

  lemma FirstInteger(kt: KeyType, encrypted: bool, g: Gathered, input: Input)
    requires kt != OpEcdsa
    ensures var r := Integers(kt, encrypted, 0, g, input);
            if GetBer(input).1.err || GetBer(input).0.id != 2 then r == Failure(KeyError(Asn1, encrypted))
            else if GetBer(input).0.data != [0] then r == Failure(KeyError(BadVersion, false))
            else r == Integers(kt, encrypted, 1, g, GetBer(input).1)
  {
    var data := GetBer(input).0.data;
    assert data != [0] <==> |data| != 1 || data[0] != 0;
    hide GetBer;
  }

  lemma GatheredIsCut(kt: KeyType, encrypted: bool, inner: seq<Byte>)
    requires kt != OpEcdsa
    ensures var g := Integers(kt, encrypted, 0, Gathered(Str(ToBytes(if kt == OpDsa then "ssh-dss" else "ssh-rsa")), [], 0),
                              Input(inner, false));
            g.Success? ==> CutKey(kt, g.value).Success?
  {
    var g0 := Gathered(Str(ToBytes(if kt == OpDsa then "ssh-dss" else "ssh-rsa")), [], 0);
    var g := Integers(kt, encrypted, 0, g0, Input(inner, false));
    assert NumIntegers(OpRsa) == 9 && NumIntegers(OpDsa) == 6;
    hide *;
    if g.Success? {
      var ns := IntegersFound(kt, encrypted, 0, g0, Input(inner, false));
      if kt == OpRsa {
        var parts := CutOfRsa(ns, g.value);
      } else {
        var parts := CutOfDsa(ns, g.value);
      }
    }
  }

  /** RSA and DSA keys are so many INTEGERs, the first of them 0; what follows them is not looked at. */
  lemma IntegersAreRead(kt: KeyType, encrypted: bool, inner: seq<Byte>)
    requires kt != OpEcdsa
    ensures var n, input := if kt == OpRsa then 9 else 6, Input(inner, false);
            var r := ReadSequence(kt, encrypted, inner);
            if !IsIntegers(input, 1) then r == Failure(KeyError(Asn1, encrypted))
            else if GetBer(input).0.data != [0] then r == Failure(KeyError(BadVersion, false))
            else if !IsIntegers(input, n) then r == Failure(KeyError(Asn1, encrypted))
            else r.Success?
  {
    hide *;
    SequenceByIntegers(kt, encrypted, inner);
    GatheredIsCut(kt, encrypted, inner);
    AllIntegers(kt, encrypted, Gathered(Str(ToBytes(if kt == OpDsa then "ssh-dss" else "ssh-rsa")), [], 0),
                Input(inner, false));
  }

  /** The bytes of a field element, for the OIDs of the three curves. */
  function FieldBytes(oid: seq<Byte>): Option<nat> {
    if oid == [0x2A, 0x86, 0x48, 0xCE, 0x3D, 0x03, 0x01, 0x07] then Some(32)
    else if oid == [0x2B, 0x81, 0x04, 0x00, 0x22] then Some(48)
    else if oid == [0x2B, 0x81, 0x04, 0x00, 0x23] then Some(66)
    else None
  }

  lemma CurveIsKnown(oid: seq<Byte>)
    ensures FieldBytes(oid).Some? <==> CurveByOid(oid).Some?
    ensures CurveByOid(oid).Some? ==> FieldBytes(oid) == Some(CurveByOid(oid).value.PointLen() / 2)
    ensures CurveByOid(oid).Some? ==> CurveByOid(oid).value.PointLen() % 2 == 0
  {
  }

  /**
   * An ECDSA key is an INTEGER 1, an OCTET STRING, and two elements 0 and 1 around the OID of a curve and
   * a BIT STRING as long as a point of it.
   */
  lemma EcdsaIsRead(encrypted: bool, inner: seq<Byte>)
    ensures var (integer, i1) := GetBer(Input(inner, false));
            var (privkey, i2) := GetBer(i1);
            var (sub0, i3) := GetBer(i2);
            var (sub1, _) := GetBer(i3);
            var (oid, _) := GetBer(Input(sub0.data, false));
            var (pubkey, last) := GetBer(Input(sub1.data, false));
            var r := ReadSequence(OpEcdsa, encrypted, inner);
            if integer.id != 2 || integer.data != [1] || privkey.id != 4 || sub0.id != 0 || sub1.id != 1
               || oid.id != 6 || pubkey.id != 3 || last.err then r == Failure(KeyError(Asn1, encrypted))
            else if FieldBytes(oid.data).None? then r == Failure(KeyError(BadCurve, false))
            else if |pubkey.data| != 2 * FieldBytes(oid.data).value + 2 then r == Failure(KeyError(Asn1, encrypted))
            else
              r.Success? && r.value.priv == MpSsh2(privkey.data) && r.value.pub == EcdsaBlob(oid.data, pubkey.data[1..])
  {
    var (_, i1) := GetBer(Input(inner, false));
    var (_, i2) := GetBer(i1);
    var (sub0, _) := GetBer(i2);
    CurveIsKnown(GetBer(Input(sub0.data, false)).0.data);
    CurveNames(GetBer(Input(sub0.data, false)).0.data);
    hide GetBer, CurveByOid, FieldBytes, Str, ToBytes, MpSsh2, CurveName, Curve.SshId, Curve.Name;
  }

  function CurveName(oid: seq<Byte>): (s: string)
    requires FieldBytes(oid).Some?
    ensures IsCString(s) && |s| == 8
  {
    var n := FieldBytes(oid).value;
    if n == 32 then "nistp256" else if n == 48 then "nistp384" else "nistp521"
  }

  /** Algorithm, curve and point. */
  function EcdsaBlob(oid: seq<Byte>, point: seq<Byte>): seq<Byte>
    requires FieldBytes(oid).Some?
  {
    Str(ToBytes("ecdsa-sha2-") + ToBytes(CurveName(oid))) + Str(ToBytes(CurveName(oid))) + Str(point)
  }

  lemma CurveNames(oid: seq<Byte>)
    ensures FieldBytes(oid).Some? ==>
              var c := CurveByOid(oid);
              && c.Some? && ToBytes(c.value.Name()) == ToBytes(CurveName(oid))
              && ToBytes(c.value.SshId()) == ToBytes("ecdsa-sha2-") + ToBytes(CurveName(oid))
  {
    CurveIsKnown(oid);
    if FieldBytes(oid).Some? {
      var n := FieldBytes(oid).value;
      if n == 32 {
        NamesOf256(oid);
      } else if n == 48 {
        NamesOf384(oid);
      } else {
        NamesOf521(oid);
      }
    }
  }

  lemma NamesOf256(oid: seq<Byte>)
    requires FieldBytes(oid) == Some(32)
    ensures CurveByOid(oid) == Some(P256) && P256.Name() == CurveName(oid)
    ensures ToBytes(P256.SshId()) == ToBytes("ecdsa-sha2-") + ToBytes(CurveName(oid))
  {
  }

  lemma NamesOf384(oid: seq<Byte>)
    requires FieldBytes(oid) == Some(48)
    ensures CurveByOid(oid) == Some(P384) && P384.Name() == CurveName(oid)
    ensures ToBytes(P384.SshId()) == ToBytes("ecdsa-sha2-") + ToBytes(CurveName(oid))
  {
  }

  lemma NamesOf521(oid: seq<Byte>)
    requires FieldBytes(oid) == Some(66)
    ensures CurveByOid(oid) == Some(P521) && P521.Name() == CurveName(oid)
    ensures ToBytes(P521.SshId()) == ToBytes("ecdsa-sha2-") + ToBytes(CurveName(oid))
  {
  }

  /** Around it there must be a SEQUENCE. */
  lemma SequenceIsExpected(suite: Suite, t: string, passphrase: seq<Byte>)
    requires Load(t).Success?
    ensures var (kt, st) := Load(t).value;
            var (item, after) := GetBer(Input(Decrypt(suite, st, passphrase), false));
            var r := Read(suite, t, passphrase);
            if item.id != 16 || after.err then r == Failure(KeyError(Asn1, st.encrypted))
            else r.Success? <==> ReadSequence(kt, st.encrypted, item.data).Success?
  {
    hide Load, ReadSequence, GetBer, Decrypt;
  }
}
