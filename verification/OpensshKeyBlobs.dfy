/** The private-key blobs of the RSA, DSA and NIST ECDSA algorithms inside a new-format file. */
module OpensshKeyBlobs {
  import opened Bytes
  import opened Marshal
  import opened Mpint
  import opened Keys
  import opened OpensshNew

  /** The strings a key writes for openssh_blob, from the strings of its two blobs. */
  function OpenStrings(key: SshKey): seq<seq<Byte>> {
    var (pub, priv) := Keys.Fields(key);
    match key.alg
    case Rsa => [pub[2], pub[1], priv[0], priv[3], priv[1], priv[2]]
    case Dsa => pub[1..] + priv
    case Ecdsa(_) => pub[1..] + priv
    case Modern(_) => []
  }

  function AlgId(alg: Alg): seq<Byte> {
    match alg
    case Rsa => ToBytes("ssh-rsa")
    case Dsa => ToBytes("ssh-dss")
    case Ecdsa(c) => ToBytes(c.SshId())
    case Modern(_) => []
  }

  /** find_pubkey_alg_len, among these algorithms. */
  function FindAlg(name: seq<Byte>): Option<Alg> {
    if name == AlgId(Rsa) then Some(Rsa)
    else if name == AlgId(Dsa) then Some(Dsa)
    else if name == AlgId(Ecdsa(P256)) then Some(Ecdsa(P256))
    else if name == AlgId(Ecdsa(P384)) then Some(Ecdsa(P384))
    else if name == AlgId(Ecdsa(P521)) then Some(Ecdsa(P521))
    else None
  }

  /** get_mp_ssh2: an integer that is not canonical is an error. */
  function GetMp(i: Input): (seq<Byte>, Input) {
    var (s, j) := GetString(i);
    if !j.err && !Canonical(s) then ([], j.(err := true)) else (s, j)
  }

  function GetMps(i: Input, n: nat): (r: (seq<seq<Byte>>, Input))
    ensures |r.0| == n
    decreases n
  {
    if n == 0 then ([], i)
    else
      var (m, j) := GetMp(i);
      var (ms, k) := GetMps(j, n - 1);
      ([m] + ms, k)
  }

  /**
   * What an algorithm checks of the numbers themselves, and the points of a curve: what a point is when it
   * is not compressed, if it is one.
   */
  datatype Checks = Checks(valid: SshKey -> bool, decode: (Curve, seq<Byte>) -> Option<seq<Byte>>)
  {
    ghost predicate Accepts(parts: Parts) {
      valid(parts.Key()) && (parts.EcParts? ==> decode(parts.curve, parts.point) == Some(parts.point))
    }

    /** A key that fails the checks of its algorithm is not made. */
    function Make(parts: Parts, i: Input): (Option<SshKey>, Input) {
      (if !i.err && valid(parts.Key()) then Some(parts.Key()) else None, i)
    }
  }

  /** The name of the curve is skipped; after a point that is none, nothing more is read. */
  function ParseEcdsa(checks: Checks, c: Curve, i: Input): (Option<SshKey>, Input) {
    var (name, i1) := GetString(i);
    var (bits, i2) := GetString(i1);
    var point := if i2.err then None else checks.decode(c, bits);
    if point.None? then (None, i2)
    else
      var (scalar, i3) := GetMp(i2);
      checks.Make(EcParts(c, point.value, scalar), i3)
  }

  /** ssh_key_new_priv_openssh. */
  function ParseBlob(checks: Checks, name: seq<Byte>, i: Input): (Option<SshKey>, Input) {
    match FindAlg(name)
    case None => (None, i)
    case Some(alg) =>
      match alg
      case Rsa =>
        var (ms, j) := GetMps(i, 6);
        checks.Make(RsaParts(ms[1], ms[0], ms[2], ms[4], ms[5], ms[3]), j)
      case Dsa =>
        var (ms, j) := GetMps(i, 5);
        checks.Make(DsaParts(ms[0], ms[1], ms[2], ms[3], ms[4]), j)
      case Ecdsa(c) => ParseEcdsa(checks, c, i)
      case Modern(_) => (None, i)
  }

  function Standard(checks: Checks): Registry {
    Registry(name => FindAlg(name).Some?, (key: SshKey) => AlgId(key.alg),
             key => Strs(OpenStrings(key)), (name, i) => ParseBlob(checks, name, i))
  }

  lemma AlgIsFound(alg: Alg)
    requires !alg.Modern?
    ensures FindAlg(AlgId(alg)) == Some(alg)
  {
    IdsDiffer();
  }

  lemma IdsDiffer()
    ensures AlgId(Rsa) != AlgId(Dsa)
    ensures forall c: Curve :: |AlgId(Ecdsa(c))| == 19
    ensures |AlgId(Rsa)| == |AlgId(Dsa)| == 7
    ensures AlgId(Ecdsa(P256)) != AlgId(Ecdsa(P384)) && AlgId(Ecdsa(P256)) != AlgId(Ecdsa(P521))
    ensures AlgId(Ecdsa(P384)) != AlgId(Ecdsa(P521))
  {
    assert AlgId(Rsa)[4] != AlgId(Dsa)[4];
    assert AlgId(Ecdsa(P256))[16] == '2' as int;
    assert AlgId(Ecdsa(P384))[16] == '3' as int;
    assert AlgId(Ecdsa(P521))[16] == '5' as int;
  }

  /** The strings of a key, in the order its algorithm writes them. */
  function StringsOf(parts: Parts): seq<seq<Byte>> {
    match parts
    case RsaParts(e, n, d, p, q, iqmp) => [n, e, d, iqmp, p, q]
    case DsaParts(p, q, g, y, x) => [p, q, g, y, x]
    case EcParts(c, point, scalar) => [ToBytes(c.Name()), point, scalar]
  }

  lemma OpenStringsOfParts(parts: Parts)
    requires parts.Fits()
    ensures OpenStrings(parts.Key()) == StringsOf(parts)
  {
    PartsOfKey(parts);
    hide GetStrings, Strs, ToBytes, Parts.PublicBlob, Parts.PrivateBlob;
  }

  // Whatever the blob.

  function NameOf(alg: Alg): (s: string)
    requires !alg.Modern?
    ensures IsCString(s)
  {
    match alg
    case Rsa => "ssh-rsa"
    case Dsa => "ssh-dss"
    case Ecdsa(c) =>
      match c
      case P256 => "ecdsa-sha2-nistp256"
      case P384 => "ecdsa-sha2-nistp384"
      case P521 => "ecdsa-sha2-nistp521"
  }

  lemma IdIsName(alg: Alg)
    requires !alg.Modern?
    ensures AlgId(alg) == ToBytes(NameOf(alg))
  {
  }

  /** An algorithm is found exactly by its name. */
  lemma FoundByName(name: seq<Byte>)
    ensures FindAlg(name).Some? ==> !FindAlg(name).value.Modern? && name == ToBytes(NameOf(FindAlg(name).value))
    ensures forall alg: Alg :: !alg.Modern? && name == ToBytes(NameOf(alg)) ==> FindAlg(name) == Some(alg)
  {
    hide ToBytes, NameOf;
    FoundIsNamed(name);
    if FindAlg(name).Some? {
      IdIsName(FindAlg(name).value);
    }
    forall alg: Alg | !alg.Modern? && name == ToBytes(NameOf(alg))
      ensures FindAlg(name) == Some(alg)
    {
      IdIsName(alg);
      AlgIsFound(alg);
    }
  }

  lemma FoundIsNamed(name: seq<Byte>)
    ensures FindAlg(name).Some? ==> !FindAlg(name).value.Modern? && name == AlgId(FindAlg(name).value)
  {
    hide AlgId;
  }

  lemma GetMpOfStr(m: seq<Byte>, tail: seq<Byte>)
    requires |m| < TWO_32
    ensures GetMp(Input(Str(m) + tail, false)) == if Canonical(m) then (m, Input(tail, false)) else ([], Input(tail, true))
  {
    hide GetString, Str, Canonical;
    GetStringOfPut(m, tail);
  }

  lemma {:induction false} ErrorStays(i: Input, n: nat)
    requires i.err
    ensures GetMps(i, n).1.err
    decreases n
  {
    if n > 0 {
      assert GetMp(i).1.err;
      hide GetMp;
      ErrorStays(GetMp(i).1, n - 1);
    }
  }

  ghost predicate AllCanonical(ms: seq<seq<Byte>>) {
    forall i :: 0 <= i < |ms| ==> Canonical(ms[i])
  }

  lemma {:induction false} GetMpsOfStrs(ms: seq<seq<Byte>>, tail: seq<Byte>)
    requires forall i :: 0 <= i < |ms| ==> |ms[i]| < TWO_32
    ensures var r := GetMps(Input(Strs(ms) + tail, false), |ms|);
            if AllCanonical(ms) then r == (ms, Input(tail, false)) else r.1.err
    decreases |ms|
  {
    if ms == [] {
      assert Strs(ms) + tail == tail;
    } else {
      var m, more := ms[0], ms[1..];
      Assoc(Str(m), Strs(more), tail);
      assert Strs(ms) == Str(m) + Strs(more) && ms == [m] + more;
      assert AllCanonical(ms) <==> Canonical(m) && AllCanonical(more);
      hide Strs, Str, GetMp, Canonical, AllCanonical;
      GetMpOfStr(m, Strs(more) + tail);
      GetMpsOfStrs(more, tail);
      if !Canonical(m) {
        ErrorStays(Input(Strs(more) + tail, true), |more|);
      }
    }
  }

  lemma CanonicalStrings(parts: Parts)
    requires !parts.EcParts?
    ensures AllCanonical(StringsOf(parts)) <==> parts.IsCanonical()
  {
    hide Canonical;
    var ss := StringsOf(parts);
    if AllCanonical(ss) {
      assert Canonical(ss[0]) && Canonical(ss[1]) && Canonical(ss[2]) && Canonical(ss[3]) && Canonical(ss[4]);
      assert parts.RsaParts? ==> Canonical(ss[5]);
    }
  }

  /** The strings of an RSA or DSA key make it, if they are all canonical and its numbers pass the checks. */
  lemma IntegersMakeKey(checks: Checks, parts: Parts, tail: seq<Byte>)
    requires parts.Fits() && !parts.EcParts?
    ensures var (key, after) := ParseBlob(checks, ToBytes(NameOf(parts.Alg())),
                                          Input(Strs(StringsOf(parts)) + tail, false));
            if !parts.IsCanonical() then key.None? && after.err
            else key == (if checks.valid(parts.Key()) then Some(parts.Key()) else None) && after == Input(tail, false)
  {
    var ss := StringsOf(parts);
    assert forall i :: 0 <= i < |ss| ==> |ss[i]| < TWO_32;
    CanonicalStrings(parts);
    FoundByName(ToBytes(NameOf(parts.Alg())));
    hide GetMps, Strs, ToBytes, FindAlg, NameOf, Parts.Key, AllCanonical, Parts.IsCanonical;
    GetMpsOfStrs(ss, tail);
  }

  /** The same for an ECDSA key, whatever it says its curve is. After what is no point, nothing more is read. */
  lemma PointMakesKey(checks: Checks, c: Curve, name: seq<Byte>, point: seq<Byte>, scalar: seq<Byte>, tail: seq<Byte>)
    requires |name| < TWO_32 && |point| < TWO_32 && |scalar| < TWO_32
    ensures var r := ParseBlob(checks, ToBytes(NameOf(Ecdsa(c))),
                               Input(Str(name) + (Str(point) + (Str(scalar) + tail)), false));
            if checks.decode(c, point).None? then r == (None, Input(Str(scalar) + tail, false))
            else if !Canonical(scalar) then r == (None, Input(tail, true))
            else
              var key := EcParts(c, checks.decode(c, point).value, scalar).Key();
              r == (if checks.valid(key) then Some(key) else None, Input(tail, false))
  {
    FoundByName(ToBytes(NameOf(Ecdsa(c))));
    hide GetString, GetMp, Str, ToBytes, FindAlg, NameOf, Parts.Key, Canonical;
    GetStringOfPut(name, Str(point) + (Str(scalar) + tail));
    GetStringOfPut(point, Str(scalar) + tail);
    GetMpOfStr(scalar, tail);
  }

  lemma ThreeStrs(a: seq<Byte>, b: seq<Byte>, c: seq<Byte>, tail: seq<Byte>)
    ensures Strs([a, b, c]) + tail == Str(a) + (Str(b) + (Str(c) + tail))
  {
    hide Str;
    StrsOfThree(a, b, c);
    Assoc(Str(a) + Str(b), Str(c), tail);
    Assoc(Str(a), Str(b), Str(c) + tail);
  }

  lemma BlobIsParsed(checks: Checks, parts: Parts, tail: seq<Byte>)
    requires parts.Fits() && parts.IsCanonical() && checks.Accepts(parts)
    ensures ParseBlob(checks, AlgId(parts.Alg()), Input(Strs(StringsOf(parts)) + tail, false))
         == (Some(parts.Key()), Input(tail, false))
  {
    IdIsName(parts.Alg());
    if parts.EcParts? {
      var name := ToBytes(parts.curve.Name());
      hide ParseBlob, Strs, Str, ToBytes, NameOf, AlgId, Parts.Key, Canonical;
      PointMakesKey(checks, parts.curve, name, parts.point, parts.scalar, tail);
      ThreeStrs(name, parts.point, parts.scalar, tail);
    } else {
      hide ParseBlob, Strs, ToBytes, NameOf, AlgId, StringsOf, Parts.Key, Parts.IsCanonical;
      IntegersMakeKey(checks, parts, tail);
    }
  }

  /** Every valid and canonical RSA, DSA or NIST ECDSA key reads its own blob back and stops exactly after it. */
  lemma StandardIsSelfDelimiting(checks: Checks, parts: Parts)
    requires parts.Fits() && parts.IsCanonical() && checks.Accepts(parts)
    ensures Standard(checks).SelfDelimiting(parts.Key())
  {
    var key := parts.Key();
    AlgIsFound(parts.Alg());
    forall tail: seq<Byte>
      ensures ParseBlob(checks, AlgId(key.alg), Input(Strs(OpenStrings(key)) + tail, false))
           == (Some(key), Input(tail, false))
    {
      OpenStringsOfParts(parts);
      BlobIsParsed(checks, parts, tail);
    }
    hide ParseBlob, OpenStrings, AlgId, FindAlg, Strs;
  }

  /** A blob that ends in its first string makes no key. */
  lemma ShortBlob(checks: Checks, alg: Alg, i: Input)
    requires !alg.Modern? && GetString(i).1.err
    ensures var (key, after) := ParseBlob(checks, ToBytes(NameOf(alg)), i); key.None? && after.err
  {
    FoundByName(ToBytes(NameOf(alg)));
    assert GetMp(i).1.err && GetString(GetString(i).1).1.err;
    hide GetString, GetMp, ToBytes, FindAlg, NameOf, Parts.Key;
    ErrorStays(GetMp(i).1, 5);
    ErrorStays(GetMp(i).1, 4);
  }
}
