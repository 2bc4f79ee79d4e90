/** Keys as the importer sees them, and the cryptography it calls. */
module Keys {
  import opened Bytes
  import opened Marshal
  import opened Mpint

  datatype Curve = P256 | P384 | P521 {
    function Name(): (s: string)
      ensures IsCString(s)
      ensures |s| == 8
    {
      match this
      case P256 => "nistp256"
      case P384 => "nistp384"
      case P521 => "nistp521"
    }

    function SshId(): (s: string)
      ensures IsCString(s)
      ensures |s| == 19
    {
      match this
      case P256 => "ecdsa-sha2-nistp256"
      case P384 => "ecdsa-sha2-nistp384"
      case P521 => "ecdsa-sha2-nistp521"
    }

    function Oid(): seq<Byte> {
      match this
      case P256 => [0x2a, 0x86, 0x48, 0xce, 0x3d, 0x03, 0x01, 0x07]
      case P384 => [0x2b, 0x81, 0x04, 0x00, 0x22]
      case P521 => [0x2b, 0x81, 0x04, 0x00, 0x23]
    }

    function FieldBits(): nat {
      match this
      case P256 => 256
      case P384 => 384
      case P521 => 521
    }

    /** The bytes of the two coordinates of a point. */
    function PointLen(): nat {
      (FieldBits() + 7) / 8 * 2
    }
  }

  datatype Alg = Rsa | Dsa | Ecdsa(curve: Curve) | Modern(id: string)

  /** ssh_key_new_priv stores its two blobs; validation of the numbers is not part of this model. */
  datatype SshKey = SshKey(alg: Alg, pub: seq<Byte>, priv: seq<Byte>)

  datatype UserKey = UserKey(key: SshKey, comment: string)

  /** The integers and points that a key is made of. */
  datatype Parts =
    | RsaParts(e: seq<Byte>, n: seq<Byte>, d: seq<Byte>, p: seq<Byte>, q: seq<Byte>, iqmp: seq<Byte>)
    | DsaParts(dp: seq<Byte>, dq: seq<Byte>, g: seq<Byte>, y: seq<Byte>, x: seq<Byte>)
    | EcParts(curve: Curve, point: seq<Byte>, scalar: seq<Byte>)
  {
    /** No part is longer than `limit` bytes, and a point has its curve's length. */
    ghost predicate Within(limit: nat) {
      match this
      case RsaParts(e, n, d, p, q, iqmp) =>
        |e| <= limit && |n| <= limit && |d| <= limit && |p| <= limit && |q| <= limit && |iqmp| <= limit
      case DsaParts(p, q, g, y, x) => |p| <= limit && |q| <= limit && |g| <= limit && |y| <= limit && |x| <= limit
      case EcParts(c, point, scalar) => |point| == 1 + c.PointLen() && |scalar| <= limit
    }

    /** C counts lengths in ints, and bits in ints too: every part has at most 2^24 bytes. */
    ghost predicate Fits() {
      Within(0x100_0000)
    }

    /** Every integer is a canonical mpint. */
    predicate IsCanonical() {
      match this
      case RsaParts(e, n, d, p, q, iqmp) =>
        Canonical(e) && Canonical(n) && Canonical(d) && Canonical(p) && Canonical(q) && Canonical(iqmp)
      case DsaParts(p, q, g, y, x) =>
        Canonical(p) && Canonical(q) && Canonical(g) && Canonical(y) && Canonical(x)
      case EcParts(c, point, scalar) => Canonical(scalar)
    }

    /** The same numbers, each in its canonical form. */
    function Canonicalised(): Parts {
      match this
      case RsaParts(e, n, d, p, q, iqmp) =>
        RsaParts(Canon(e), Canon(n), Canon(d), Canon(p), Canon(q), Canon(iqmp))
      case DsaParts(p, q, g, y, x) => DsaParts(Canon(p), Canon(q), Canon(g), Canon(y), Canon(x))
      case EcParts(c, point, scalar) => EcParts(c, point, Canon(scalar))
    }

    lemma CanonicalisedIsSame()
      ensures Canonicalised() == this <==> IsCanonical()
    {
      match this
      case RsaParts(e, n, d, p, q, iqmp) =>
        CanonIsCanonical(e); CanonIsCanonical(n); CanonIsCanonical(d);
        CanonIsCanonical(p); CanonIsCanonical(q); CanonIsCanonical(iqmp);
      case DsaParts(p, q, g, y, x) =>
        CanonIsCanonical(p); CanonIsCanonical(q); CanonIsCanonical(g); CanonIsCanonical(y); CanonIsCanonical(x);
      case EcParts(c, point, scalar) => CanonIsCanonical(scalar);
    }

    function Alg(): Alg {
      match this
      case RsaParts(_, _, _, _, _, _) => Rsa
      case DsaParts(_, _, _, _, _) => Dsa
      case EcParts(c, _, _) => Ecdsa(c)
    }

    /** The public blob of section 6.6 of RFC 4253 and section 3.1 of RFC 5656. */
    function PublicBlob(): seq<Byte> {
      match this
      case RsaParts(e, n, d, p, q, iqmp) => Strs([ToBytes("ssh-rsa"), e, n])
      case DsaParts(p, q, g, y, x) => Strs([ToBytes("ssh-dss"), p, q, g, y])
      case EcParts(c, point, scalar) => Strs([ToBytes(c.SshId()), ToBytes(c.Name()), point])
    }

    function PrivateBlob(): seq<Byte> {
      match this
      case RsaParts(e, n, d, p, q, iqmp) => Strs([d, p, q, iqmp])
      case DsaParts(p, q, g, y, x) => Strs([x])
      case EcParts(c, point, scalar) => Strs([scalar])
    }

    function Key(): SshKey {
      SshKey(Alg(), PublicBlob(), PrivateBlob())
    }
  }

  /** The blobs say which key they belong to, so equal keys have equal parts. */
  lemma KeyIsInjective(a: Parts, b: Parts)
    requires a.Within(TWO_32 - 1) && b.Within(TWO_32 - 1) && a.Key() == b.Key()
    ensures a == b
  {
    PartsOfKey(a);
    PartsOfKey(b);
  }

  function NumPublic(alg: Alg): nat {
    match alg case Rsa => 3 case Dsa => 5 case Ecdsa(_) => 3 case Modern(_) => 0
  }

  function NumPrivate(alg: Alg): nat {
    match alg case Rsa => 4 case Dsa => 1 case Ecdsa(_) => 1 case Modern(_) => 0
  }

  /** The strings in a key's blobs. */
  function Fields(key: SshKey): (seq<seq<Byte>>, seq<seq<Byte>>) {
    (GetStrings(Input(key.pub, false), NumPublic(key.alg)).0, GetStrings(Input(key.priv, false), NumPrivate(key.alg)).0)
  }

  /** What the writers see when they take a key's blobs apart. */
  lemma PartsOfKey(a: Parts)
    requires a.Within(TWO_32 - 1)
    ensures Fields(a.Key())
         == match a
            case RsaParts(e, n, d, p, q, iqmp) => ([ToBytes("ssh-rsa"), e, n], [d, p, q, iqmp])
            case DsaParts(p, q, g, y, x) => ([ToBytes("ssh-dss"), p, q, g, y], [x])
            case EcParts(c, point, scalar) => ([ToBytes(c.SshId()), ToBytes(c.Name()), point], [scalar])
  {
    hide GetStrings, Strs, ToBytes;
    match a
    case RsaParts(e, n, d, p, q, iqmp) =>
      StrsAreRead([ToBytes("ssh-rsa"), e, n]);
      StrsAreRead([d, p, q, iqmp]);
    case DsaParts(p, q, g, y, x) =>
      StrsAreRead([ToBytes("ssh-dss"), p, q, g, y]);
      StrsAreRead([x]);
    case EcParts(c, point, scalar) =>
      StrsAreRead([ToBytes(c.SshId()), ToBytes(c.Name()), point]);
      StrsAreRead([scalar]);
  }

  lemma StrsAreRead(ss: seq<seq<Byte>>)
    requires forall i :: 0 <= i < |ss| ==> |ss[i]| < TWO_32
    ensures GetStrings(Input(Strs(ss), false), |ss|) == (ss, Input([], false))
  {
    GetStringsOfStrs(ss, []);
    assert Strs(ss) + [] == Strs(ss);
  }

  /** Making the integers canonical leaves the key alone exactly when they already were. */
  lemma KeyIsCanonical(a: Parts)
    requires a.Fits()
    ensures a.Canonicalised().Key() == a.Key() <==> a.IsCanonical()
  {
    a.CanonicalisedIsSame();
    if a.Canonicalised().Key() == a.Key() {
      KeyIsInjective(a.Canonicalised(), a);
    }
  }

  /** SSH strings one after another. */
  function Strs(ss: seq<seq<Byte>>): seq<Byte> {
    if ss == [] then [] else Str(ss[0]) + Strs(ss[1..])
  }

  /** Reading `n` strings in a row. */
  function GetStrings(i: Input, n: nat): (r: (seq<seq<Byte>>, Input))
    ensures |r.0| == n
    decreases n
  {
    if n == 0 then ([], i)
    else
      var (s, j) := GetString(i);
      var (ss, k) := GetStrings(j, n - 1);
      ([s] + ss, k)
  }

  lemma {:induction false} GetStringsOfStrs(ss: seq<seq<Byte>>, tail: seq<Byte>)
    requires forall i :: 0 <= i < |ss| ==> |ss[i]| < TWO_32
    ensures GetStrings(Input(Strs(ss) + tail, false), |ss|) == (ss, Input(tail, false))
  {
    if ss == [] {
      assert Strs(ss) + tail == tail;
    } else {
      Assoc(Str(ss[0]), Strs(ss[1..]), tail);
      GetStringOfPut(ss[0], Strs(ss[1..]) + tail);
      GetStringsOfStrs(ss[1..], tail);
      assert [ss[0]] + ss[1..] == ss;
    }
  }

  lemma {:induction false} StrsOfTwo(a: seq<seq<Byte>>, b: seq<seq<Byte>>)
    ensures Strs(a + b) == Strs(a) + Strs(b)
  {
    if a == [] {
      assert a + b == b;
    } else {
      assert (a + b)[0] == a[0] && (a + b)[1..] == a[1..] + b;
      StrsOfTwo(a[1..], b);
      Assoc(Str(a[0]), Strs(a[1..]), Strs(b));
    }
  }

  lemma StrsAppend(ss: seq<seq<Byte>>, s: seq<Byte>)
    ensures Strs(ss + [s]) == Strs(ss) + Str(s)
  {
    StrsOfTwo(ss, [s]);
    assert [s][1..] == [];
    assert Strs([s]) == Str(s) + [];
  }

  lemma StrsOfThree(a: seq<Byte>, b: seq<Byte>, c: seq<Byte>)
    ensures Strs([a, b, c]) == Str(a) + Str(b) + Str(c)
  {
    StrsAppend([], a);
    StrsAppend([a], b);
    StrsAppend([a, b], c);
    assert [] + [a] == [a] && [a] + [b] == [a, b] && [a, b] + [c] == [a, b, c];
  }

  lemma StrsOfFour(a: seq<Byte>, b: seq<Byte>, c: seq<Byte>, d: seq<Byte>)
    ensures Strs([a, b, c, d]) == Str(a) + Str(b) + Str(c) + Str(d)
  {
    StrsOfThree(a, b, c);
    StrsAppend([a, b, c], d);
    assert [a, b, c] + [d] == [a, b, c, d];
  }

  lemma StrsOfFive(a: seq<Byte>, b: seq<Byte>, c: seq<Byte>, d: seq<Byte>, e: seq<Byte>)
    ensures Strs([a, b, c, d, e]) == Str(a) + Str(b) + Str(c) + Str(d) + Str(e)
  {
    StrsOfFour(a, b, c, d);
    StrsAppend([a, b, c, d], e);
    assert [a, b, c, d] + [e] == [a, b, c, d, e];
  }

  lemma StrsOfOne(a: seq<Byte>)
    ensures Strs([a]) == Str(a)
  {
    StrsAppend([], a);
    assert [] + [a] == [a];
  }

  /**
   * The cryptography, as arbitrary functions: MD5, triple DES, the three AES modes, bcrypt,
   * and `reduce(d, p)`, the bytes of d modulo p - 1.
   */
  datatype Suite = Suite(
    md5: seq<Byte> -> seq<Byte>,
    des3Encrypt: (seq<Byte>, seq<Byte>, seq<Byte>) -> seq<Byte>,
    des3Decrypt: (seq<Byte>, seq<Byte>, seq<Byte>) -> seq<Byte>,
    aes128CbcEncrypt: (seq<Byte>, seq<Byte>, seq<Byte>) -> seq<Byte>,
    aes128CbcDecrypt: (seq<Byte>, seq<Byte>, seq<Byte>) -> seq<Byte>,
    aes256CbcEncrypt: (seq<Byte>, seq<Byte>) -> seq<Byte>,
    aes256CbcDecrypt: (seq<Byte>, seq<Byte>) -> seq<Byte>,
    aes256CtrEncrypt: (seq<Byte>, seq<Byte>) -> seq<Byte>,
    aes256CtrDecrypt: (seq<Byte>, seq<Byte>) -> seq<Byte>,
    bcrypt: (seq<Byte>, seq<Byte>, nat) -> seq<Byte>,
    reduce: (seq<Byte>, seq<Byte>) -> seq<Byte>)
  {
    /** Encryption keeps whole blocks whole and decryption undoes it. */
    ghost predicate Sound() {
      && (forall k, iv, d :: |d| % 8 == 0 ==> |des3Encrypt(k, iv, d)| == |d|)
      && (forall k, iv, d :: |d| % 8 == 0 ==> des3Decrypt(k, iv, des3Encrypt(k, iv, d)) == d)
      && (forall k, iv, d :: |d| % 16 == 0 ==> |aes128CbcEncrypt(k, iv, d)| == |d|)
      && (forall k, iv, d :: |d| % 16 == 0 ==> aes128CbcDecrypt(k, iv, aes128CbcEncrypt(k, iv, d)) == d)
      && (forall k, d :: |d| % 16 == 0 ==> |aes256CbcEncrypt(k, d)| == |d|)
      && (forall k, d :: |d| % 16 == 0 ==> aes256CbcDecrypt(k, aes256CbcEncrypt(k, d)) == d)
      && (forall k, d :: |d| % 16 == 0 ==> |aes256CtrEncrypt(k, d)| == |d|)
      && (forall k, d :: |d| % 16 == 0 ==> aes256CtrDecrypt(k, aes256CtrEncrypt(k, d)) == d)
      && (forall d, p :: |reduce(d, p)| <= |p| + 1)
    }
  }

  /** Why a file is refused: one fault for each message. */
  datatype Fault =
    | BadHeader | NewStyleKey | UnknownKeyType | HeaderInBody | BadProcType | BadCipher | BadIv
    | BadBase64 | NoBody | BadBlockSize | Asn1 | BadVersion | BadCurve | BadMagic | NoCipher | NoKdf | BadKdf
    | BadKdfOptions | NoKeyCount | BadKeyCount | NoContainer | CheckFailed | BadKeyBlob | NoKey | BadComment
    | BadPadding | NoKeyData | BadContainer | BadIntegers | PredefinedParams
    | NoAnswer  // not a message: the loop as written never ends

  /** An error message, and whether the reader blames the passphrase. */
  datatype KeyError = KeyError(fault: Fault, wrongPassphrase: bool)
}
