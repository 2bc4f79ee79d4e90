/** Big integers as byte strings: the SSH-2 mpint (section 5 of RFC 4251) and the bit-counted ssh.com form. */
module Mpint {
  import opened Bytes
  import opened Marshal

  /** `b` without its leading zero bytes. */
  function Trim(b: seq<Byte>): (t: seq<Byte>)
    ensures |t| <= |b|
    ensures t != [] ==> t[0] != 0
  {
    if b != [] && b[0] == 0 then Trim(b[1..]) else b
  }

  /** The canonical mpint contents with the value of `b`. */
  function Canon(b: seq<Byte>): (c: seq<Byte>)
    ensures |c| <= |b| + 1
  {
    var t := Trim(b);
    if t != [] && t[0] >= 0x80 then [0] + t else t
  }

  /** Section 5 of RFC 4251: no unnecessary leading zero bytes, top bit clear for a non-negative number. */
  predicate Canonical(b: seq<Byte>) {
    b == [] || 0 < b[0] < 0x80 || (b[0] == 0 && |b| > 1 && b[1] >= 0x80)
  }

  lemma CanonIsCanonical(b: seq<Byte>)
    ensures Canonical(Canon(b))
    ensures Canon(b) == b <==> Canonical(b)
    ensures Canon(Canon(b)) == Canon(b)
  {
    var t := Trim(b);
    if b != [] && b[0] == 0 {
      assert Trim(b[1..]) == t;
      if |b| > 1 && b[1] >= 0x80 {
        assert t == b[1..];
      }
    }
    if t != [] && t[0] >= 0x80 {
      assert ([0] + t)[1..] == t;
    }
    if Canonical(b) {
      CanonicalIsFixed(b);
    }
    CanonicalIsFixed(Canon(b));
  }

  lemma CanonicalIsFixed(b: seq<Byte>)
    requires Canonical(b)
    ensures Canon(b) == b
  {
    if b != [] && b[0] == 0 {
      assert b == [0] + b[1..];
      assert Trim(b[1..]) == b[1..];
    }
  }

  lemma {:induction false} TrimKeepsValue(b: seq<Byte>)
    ensures Value(Trim(b)) == Value(b)
  {
    if b != [] && b[0] == 0 {
      ValueOfLeadingZero(b);
      TrimKeepsValue(b[1..]);
    }
  }

  lemma CanonKeepsValue(b: seq<Byte>)
    ensures Value(Canon(b)) == Value(b)
  {
    TrimKeepsValue(b);
    var t := Trim(b);
    if t != [] && t[0] >= 0x80 {
      ValueOfLeadingZero([0] + t);
      assert ([0] + t)[1..] == t;
    }
  }

  lemma {:induction false} TrimmedIsPositive(t: seq<Byte>)
    requires t != [] && t[0] != 0
    ensures Value(t) > 0
  {
    if |t| == 1 {
      assert t[..0] == [];
    } else {
      TrimmedIsPositive(t[..|t| - 1]);
    }
  }

  lemma {:induction false} TrimmedIsUnique(s: seq<Byte>, t: seq<Byte>)
    requires s != [] ==> s[0] != 0
    requires t != [] ==> t[0] != 0
    requires Value(s) == Value(t)
    ensures s == t
  {
    if s == [] && t != [] {
      TrimmedIsPositive(t);
    } else if s != [] && t == [] {
      TrimmedIsPositive(s);
    } else if s != [] {
      var p, q := s[..|s| - 1], t[..|t| - 1];
      assert Value(p) == Value(q) && s[|s| - 1] == t[|t| - 1];
      TrimmedIsUnique(p, q);
      assert s == p + [s[|s| - 1]] && t == q + [t[|t| - 1]];
    }
  }

  /** Two integers have the same canonical form exactly when they have the same value. */
  lemma CanonDeterminedByValue(a: seq<Byte>, b: seq<Byte>)
    ensures Canon(a) == Canon(b) <==> Value(a) == Value(b)
  {
    CanonKeepsValue(a);
    CanonKeepsValue(b);
    if Value(a) == Value(b) {
      TrimKeepsValue(a);
      TrimKeepsValue(b);
      TrimmedIsUnique(Trim(a), Trim(b));
    }
  }

  /** An SSH-2 mpint: what put_mp_ssh2_from_string appends. */
  function MpSsh2(b: seq<Byte>): seq<Byte> {
    Str(Canon(b))
  }

  // The ssh.com form: a 32-bit bit count N, then (N + 7) / 8 bytes.

  function Pow2(k: nat): nat
    ensures Pow2(k) > 0
  {
    if k == 0 then 1 else 2 * Pow2(k - 1)
  }

  /** The position of the highest set bit, counting from 1. */
  function BitLength(v: nat): nat {
    if v == 0 then 0 else 1 + BitLength(v / 2)
  }

  /** The bytes that the ssh.com form keeps: a non-empty zero keeps one of its bytes. */
  function Kept(b: seq<Byte>): (k: seq<Byte>)
    ensures |k| <= |b|
  {
    if b != [] && Trim(b) == [] then [0] else Trim(b)
  }

  /** The bit count written before them. */
  function BitCount(b: seq<Byte>): (n: nat)
    ensures n <= 8 * |b|
  {
    var t := Trim(b);
    if b == [] then 0 else if t == [] then 1
    else
      ByteBits(t[0]);
      8 * (|t| - 1) + BitLength(t[0])
  }

  lemma ByteBits(b: Byte)
    ensures BitLength(b) <= 8
    ensures b > 0 ==> BitLength(b) >= 1
  {
    var b1 := b / 2; var b2 := b1 / 2; var b3 := b2 / 2; var b4 := b3 / 2;
    var b5 := b4 / 2; var b6 := b5 / 2; var b7 := b6 / 2; var b8 := b7 / 2;
    assert b8 == 0 && BitLength(b8) == 0;
    assert BitLength(b7) <= 1 && BitLength(b6) <= 2 && BitLength(b5) <= 3 && BitLength(b4) <= 4;
    assert BitLength(b3) <= 5 && BitLength(b2) <= 6 && BitLength(b1) <= 7;
  }

  /** What put_mp_sshcom_from_string appends. */
  function MpSshcom(b: seq<Byte>): seq<Byte> {
    Put32(BitCount(b)) + Kept(b)
  }

  /** get_mp_sshcom_as_string, with its 32-bit unsigned addition. */
  function GetMpSshcom(i: Input): (r: (seq<Byte>, Input)) {
    var (bits, j) := GetUint32(i);
    GetData(j, (bits + 7) % TWO_32 / 8)
  }

  /** The written bit count is the bit length of the value: 1 for a non-empty zero and 0 for the empty string. */
  lemma BitCountIsBitLength(b: seq<Byte>)
    ensures BitCount(b) == if Value(b) > 0 then BitLength(Value(b)) else if b == [] then 0 else 1
  {
    TrimKeepsValue(b);
    var t := Trim(b);
    if t != [] {
      TrimmedIsPositive(t);
      BitLengthOfBytes(t);
    }
  }

  lemma {:induction false} BitLengthOfBytes(t: seq<Byte>)
    requires t != [] && t[0] != 0
    ensures BitLength(Value(t)) == 8 * (|t| - 1) + BitLength(t[0])
  {
    if |t| == 1 {
      assert t[..0] == [];
    } else {
      var p := t[..|t| - 1];
      assert p[0] == t[0] && Value(t) == Value(p) * 256 + t[|t| - 1];
      hide BitLength, Value;
      BitLengthOfBytes(p);
      TrimmedIsPositive(p);
      BitLengthOfShift(Value(p), t[|t| - 1]);
    }
  }

  lemma BitLengthOfShift(v: nat, b: Byte)
    requires v > 0
    ensures BitLength(v * 256 + b) == BitLength(v) + 8
  {
    var w := v * 256 + b;
    var w1 := w / 2; var w2 := w1 / 2; var w3 := w2 / 2; var w4 := w3 / 2;
    var w5 := w4 / 2; var w6 := w5 / 2; var w7 := w6 / 2;
    assert w7 / 2 == v;
    assert BitLength(w7) == BitLength(v) + 1;
    assert BitLength(w6) == BitLength(w7) + 1 && BitLength(w5) == BitLength(w6) + 1;
    assert BitLength(w4) == BitLength(w5) + 1 && BitLength(w3) == BitLength(w4) + 1;
    assert BitLength(w2) == BitLength(w3) + 1 && BitLength(w1) == BitLength(w2) + 1;
  }

  lemma KeptMatchesBitCount(b: seq<Byte>)
    ensures |Kept(b)| == (BitCount(b) + 7) / 8
  {
    var t := Trim(b);
    if t != [] {
      ByteBits(t[0]);
    }
  }

  /** Reading a written ssh.com integer gives bytes with the same canonical form, and stops exactly after them. */
  lemma GetMpSshcomOfPut(b: seq<Byte>, tail: seq<Byte>)
    requires |b| < 0x1000_0000
    ensures GetMpSshcom(Input(MpSshcom(b) + tail, false)) == (Kept(b), Input(tail, false))
    ensures Canon(Kept(b)) == Canon(b)
  {
    KeptMatchesBitCount(b);
    hide Kept, BitCount, Put32, GetUint32, GetData, Canon, Trim;
    Assoc(Put32(BitCount(b)), Kept(b), tail);
    GetUint32OfPut(BitCount(b), Kept(b) + tail);
    GetDataOfPut(Kept(b), tail);
    CanonOfKept(b);
  }

  lemma CanonOfKept(b: seq<Byte>)
    ensures Canon(Kept(b)) == Canon(b)
  {
    if b != [] && Trim(b) == [] {
      assert Trim([0]) == Trim([]);
    } else {
      TrimIsIdempotent(b);
    }
  }

  lemma TrimIsIdempotent(b: seq<Byte>)
    ensures Trim(Trim(b)) == Trim(b)
  {
  }

  /** BinarySink_put_mp_ssh2_from_string. */
  method PutMpSsh2FromString(bs: Strbuf, str: seq<Byte>)
    modifies bs
    ensures bs.u == old(bs.u) + MpSsh2(str)
  {
    var bytes: seq<Byte> := str;
    while bytes != [] && bytes[0] == 0
      invariant |bytes| <= |str| && Trim(bytes) == Trim(str)
      decreases |bytes|
    {
      bytes := bytes[1..];
    }
    assert bytes == Trim(str);
    ghost var start := bs.u;
    if bytes != [] && bytes[0] >= 0x80 {
      bs.PutUint32(|bytes| + 1);
      bs.PutByte(0);
      Assoc(start, Put32(|bytes| + 1), [0]);
      Assoc(start, Put32(|bytes| + 1) + [0], bytes);
      Assoc(Put32(|bytes| + 1), [0], bytes);
    } else {
      bs.PutUint32(|bytes|);
      Assoc(start, Put32(|bytes|), bytes);
    }
    bs.PutData(bytes);
  }

  /** `v` has bit `k` set. */
  predicate BitSet(v: Byte, k: nat) {
    v as int / Pow2(k) % 2 == 1
  }

  lemma TopBit(v: Byte, k: nat)
    requires v < Pow2(k + 1)
    ensures if BitSet(v, k) then BitLength(v) == k + 1 else v < Pow2(k)
  {
    QuotientBelowTwo(v, Pow2(k));
    if v >= Pow2(k) {
      BitLengthBetween(v, k);
    }
  }

  lemma QuotientBelowTwo(v: nat, p: nat)
    requires 0 < p && v < 2 * p
    ensures v / p == if v >= p then 1 else 0
  {
  }

  lemma {:induction false} BitLengthBetween(v: nat, k: nat)
    requires Pow2(k) <= v < Pow2(k + 1)
    ensures BitLength(v) == k + 1
  {
    if k > 0 {
      BitLengthBetween(v / 2, k - 1);
    } else {
      assert Pow2(1) == 2 * Pow2(0);
      assert v == 1 && BitLength(0) == 0;
    }
  }

  /** The loop below: the bits above number `bits` are clear, and their bytes gone; `found` says that it is set. */
  ghost predicate Scanning(str: seq<Byte>, bytes: seq<Byte>, bits: int, found: bool) {
    && Trim(bytes) == Trim(str) && |bytes| <= |str|
    && (str == [] ==> bits == -1 && bytes == [] && !found)
    && (str != [] ==>
          && bits >= 0 && |bytes| == bits / 8 + 1
          && if found then bytes[0] != 0 && BitLength(bytes[0]) == bits % 8 + 1 else bytes[0] < Pow2(bits % 8 + 1))
  }

  lemma Pow2OfEight()
    ensures Pow2(0) == 1 && Pow2(1) == 2 && Pow2(8) == 256
  {
    assert Pow2(4) == 16;
  }

  lemma ScanStart(str: seq<Byte>)
    ensures Scanning(str, str, |str| * 8 - 1, false)
  {
    Pow2OfEight();
    hide Pow2, Trim;
  }

  lemma PositiveLength(v: nat)
    requires BitLength(v) > 0
    ensures v > 0
  {
  }

  lemma ScanFound(str: seq<Byte>, bytes: seq<Byte>, bits: int)
    requires Scanning(str, bytes, bits, false) && bits > 0 && BitSet(bytes[0], bits % 8)
    ensures Scanning(str, bytes, bits, true)
  {
    TopBit(bytes[0], bits % 8);
    PositiveLength(bytes[0]);
    hide Pow2, Trim, BitSet, BitLength;
  }

  lemma ScanNext(str: seq<Byte>, bytes: seq<Byte>, bits: int)
    requires Scanning(str, bytes, bits, false) && bits > 0 && !BitSet(bytes[0], bits % 8)
    ensures Scanning(str, if bits % 8 == 0 then bytes[1..] else bytes, bits - 1, false)
  {
    TopBit(bytes[0], bits % 8);
    Pow2OfEight();
    hide Pow2, BitSet;
  }

  lemma ScanDone(str: seq<Byte>, bytes: seq<Byte>, bits: int, found: bool)
    requires Scanning(str, bytes, bits, found) && (found || bits <= 0)
    ensures bits + 1 == BitCount(str) && bytes == Kept(str)
  {
    Pow2OfEight();
    hide Pow2;
    if str != [] && !found {
      assert |bytes| == 1 && bytes[0] < 2;
      assert bytes[0] == 0 ==> bytes[1..] == [];
      assert BitLength(1) == 1;
    }
  }

  /** BinarySink_put_mp_sshcom_from_string: `bits` is a C int, so the string is shorter than 2^28 bytes. */
  method PutMpSshcomFromString(bs: Strbuf, str: seq<Byte>)
    requires |str| < 0x1000_0000
    modifies bs
    ensures bs.u == old(bs.u) + MpSshcom(str)
  {
    var bytes: seq<Byte> := str;
    var bits: int := |bytes| * 8 - 1;
    var found := false;
    ScanStart(str);
    hide Pow2, Trim, BitSet, BitLength;
    while bits > 0 && !found
      invariant bs.u == old(bs.u) && Scanning(str, bytes, bits, found)
      decreases !found, bits
    {
      if BitSet(bytes[0], bits % 8) {
        ScanFound(str, bytes, bits);
        found := true;
      } else {
        ScanNext(str, bytes, bits);
        if bits % 8 == 0 {
          bytes := bytes[1..];
        }
        bits := bits - 1;
      }
    }
    ScanDone(str, bytes, bits, found);
    Assoc(bs.u, Put32(bits + 1), bytes);
    bs.PutUint32(bits + 1);
    bs.PutData(bytes);
  }

  /** BinarySource_get_mp_sshcom_as_string. */
  method ReadMpSshcomAsString(src: BinarySource) returns (d: seq<Byte>)
    requires src.Valid()
    modifies src
    ensures src.Valid() && (d, src.In()) == GetMpSshcom(old(src.In()))
  {
    hide GetUint32, GetData;
    var bits := src.ReadUint32();
    d := src.ReadData((bits + 7) % TWO_32 / 8);
  }
}
