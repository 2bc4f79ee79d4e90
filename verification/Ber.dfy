/** ASN.1 BER identifier and length octets (ITU-T X.690, sections 8.1.2 and 8.1.3). */
module Ber {
  import opened Bytes
  import opened Marshal

  const CONSTRUCTED := 0x20
  const CONTEXT_SPECIFIC := 0x80
  const TWO_64 := 0x1_0000_0000_0000_0000

  datatype Item = Item(id: nat, flags: Byte, data: seq<Byte>)

  /** Identifiers are cut into groups of seven bits, lengths into groups of eight. */
  datatype Group = Seven | Eight {
    function Base(): nat {
      if Seven? then 128 else 256
    }

    /** The groups of `v` above the lowest. */
    function Up(v: nat): nat {
      if Seven? then v / 128 else v / 256
    }
  }

  /** `v` shifted right by `n` groups. */
  function Shift(v: nat, g: Group, n: nat): nat {
    if n == 0 then v else g.Up(Shift(v, g, n - 1))
  }

  /** The fewest groups, at least one, that can hold `v`. */
  function NumDigits(v: nat, g: Group): (n: nat)
    ensures n >= 1
  {
    if v < g.Base() then 1 else 1 + NumDigits(g.Up(v), g)
  }

  lemma {:induction false} ShiftOfQuotient(v: nat, g: Group, n: nat)
    ensures Shift(g.Up(v), g, n) == Shift(v, g, n + 1)
  {
    if n > 0 {
      ShiftOfQuotient(v, g, n - 1);
    }
  }

  lemma {:induction false} ShiftMonotone(v: nat, w: nat, g: Group, n: nat)
    requires v <= w
    ensures Shift(v, g, n) <= Shift(w, g, n)
  {
    if n > 0 {
      ShiftMonotone(v, w, g, n - 1);
    }
  }

  lemma {:induction false} ShiftAtMost(v: nat, g: Group, n: nat)
    ensures Shift(v, g, n) <= v
  {
    if n > 0 {
      ShiftAtMost(v, g, n - 1);
    }
  }

  /** `NumDigits` is where the source's counting loop stops. */
  lemma {:induction false} NumDigitsIsFirstZeroShift(v: nat, g: Group, n: nat)
    requires n >= 1
    ensures Shift(v, g, n) == 0 <==> n >= NumDigits(v, g)
  {
    if n == 1 {
      assert Shift(v, g, 0) == v;
      assert Shift(v, g, 1) == g.Up(v);
    } else {
      ShiftOfQuotient(v, g, n - 1);
      if v < g.Base() {
        ShiftAtMost(0, g, n - 1);
      } else {
        NumDigitsIsFirstZeroShift(g.Up(v), g, n - 1);
      }
    }
  }

  /** The last `n` identifier octets: seven bits each, the top bit on all but the last. */
  function IdOctets(id: nat, n: nat): (b: seq<Byte>)
    ensures |b| == n
  {
    if n == 0 then []
    else [(if n > 1 then 0x80 else 0) + Shift(id, Seven, n - 1) % 128] + IdOctets(id, n - 1)
  }

  /** The last `n` length octets. */
  function LengthOctets(length: nat, n: nat): (b: seq<Byte>)
    ensures |b| == n
  {
    if n == 0 then []
    else [Shift(length, Eight, n - 1) % 256] + LengthOctets(length, n - 1)
  }

  ghost predicate IsFlags(flags: int) {
    0 <= flags < 256 && flags % 32 == 0
  }

  function IdHeader(id: nat, flags: Byte): (b: seq<Byte>)
    requires IsFlags(flags)
  {
    if id <= 30 then [id + flags] else [0x1F + flags] + IdOctets(id, NumDigits(id, Seven))
  }

  /** A length of more than 127 octets of length is not representable. */
  function LengthHeader(length: nat): (b: seq<Byte>)
    requires length < TWO_32
  {
    if length < 128 then [length]
    else
      FourOctets(length);
      [0x80 + NumDigits(length, Eight)] + LengthOctets(length, NumDigits(length, Eight))
  }

  lemma FourOctets(length: nat)
    requires length < TWO_32
    ensures NumDigits(length, Eight) <= 4
  {
    var q1 := length / 256;
    var q2 := q1 / 256;
    var q3 := q2 / 256;
    assert q3 < 256;
    assert NumDigits(q3, Eight) == 1;
    assert NumDigits(q2, Eight) <= 2;
    assert NumDigits(q1, Eight) <= 3;
  }

  /** What put_ber_id_len appends. */
  function Header(id: nat, length: nat, flags: Byte): (b: seq<Byte>)
    requires IsFlags(flags) && length < TWO_32
  {
    IdHeader(id, flags) + LengthHeader(length)
  }

  /** A whole item: header and contents. */
  function Element(id: nat, flags: Byte, data: seq<Byte>): (b: seq<Byte>)
    requires IsFlags(flags) && |data| < TWO_32
  {
    Header(id, |data|, flags) + data
  }

  /** The do-while loop that collects a multi-octet identifier. */
  function GetId(i: Input, acc: nat): (r: (nat, Input))
    ensures |r.1.rest| <= |i.rest|
    decreases |i.rest|
  {
    var (b, j) := GetByte(i);
    var id := acc * 128 + b % 128;
    if b >= 0x80 then GetId(j, id) else (id, j)
  }

  /** The loop that collects a long-form length, in a 64-bit size_t. */
  function GetLength(i: Input, acc: nat, nbytes: nat): (r: (nat, Input))
    decreases nbytes
  {
    if nbytes == 0 then (acc, i)
    else
      var (b, j) := GetByte(i);
      GetLength(j, (acc * 256 + b) % TWO_64, nbytes - 1)
  }

  function GetIdHeader(i: Input): (r: (nat, Byte, Input)) {
    var (lead, i1) := GetByte(i);
    var (id, i2) := if lead % 32 == 0x1F then GetId(i1, 0) else (lead as nat % 32, i1);
    (id, lead - lead % 32, i2)
  }

  function GetLengthHeader(i: Input): (r: (nat, Input)) {
    var (lenbyte, i1) := GetByte(i);
    if lenbyte >= 0x80 then GetLength(i1, 0, lenbyte - 0x80) else (lenbyte as nat, i1)
  }

  /** What get_ber reads. */
  function GetBer(i: Input): (r: (Item, Input)) {
    var (id, flags, i1) := GetIdHeader(i);
    var (length, i2) := GetLengthHeader(i1);
    var (data, i3) := GetData(i2, length);
    (Item(id, flags, data), i3)
  }

  /** A group put back on top of the ones above it. */
  lemma ShiftBack(v: nat, g: Group, n: nat)
    requires n >= 1
    ensures Shift(v, g, n) * g.Base() + Shift(v, g, n - 1) % g.Base() == Shift(v, g, n - 1)
  {
  }

  lemma GetByteOfPut(b: Byte, rest: seq<Byte>, tail: seq<Byte>)
    ensures GetByte(Input(([b] + rest) + tail, false)) == (b, Input(rest + tail, false))
  {
    Assoc([b], rest, tail);
    GetDataOfPut([b], rest + tail);
  }

  /** One turn of the identifier loop. */
  lemma GetIdStep(i: Input, acc: nat)
    ensures var (b, j) := GetByte(i);
            GetId(i, acc) == if b >= 0x80 then GetId(j, acc * 128 + LowSeven(b)) else (acc * 128 + LowSeven(b), j)
  {
  }

  /** A failed read answers zero; any other uses up a byte. */
  lemma GetByteFacts(i: Input)
    ensures var (b, j) := GetByte(i);
            && (j.err ==> b == 0) && |j.rest| <= |i.rest|
            && (!j.err ==> |j.rest| < |i.rest|)
  {
  }

  function LowSeven(b: Byte): nat {
    b % 128
  }

  /** An identifier octet: the continuation bit does not disturb the seven others. */
  lemma LowSevenOfOctet(group: nat, more: bool)
    requires group < 128
    ensures LowSeven((if more then 0x80 else 0) + group) == group
    ensures (if more then 0x80 else 0) + group >= 0x80 <==> more
  {
  }

  lemma {:induction false} GetIdOfOctets(id: nat, n: nat, tail: seq<Byte>)
    requires n >= 1
    ensures GetId(Input(IdOctets(id, n) + tail, false), Shift(id, Seven, n)) == (id, Input(tail, false))
  {
    var group := Shift(id, Seven, n - 1) % 128;
    var top: Byte := (if n > 1 then 0x80 else 0) + group;
    var rest := IdOctets(id, n - 1);
    assert IdOctets(id, n) == [top] + rest;
    assert n == 1 ==> rest + tail == tail && Shift(id, Seven, 0) == id;
    LowSevenOfOctet(group, n > 1);
    ShiftBack(id, Seven, n);
    GetByteOfPut(top, rest, tail);
    GetIdStep(Input(IdOctets(id, n) + tail, false), Shift(id, Seven, n));
    hide GetId, GetByte, IdOctets, Shift, LowSeven;
    if n > 1 {
      GetIdOfOctets(id, n - 1, tail);
    }
  }

  lemma {:induction false} GetLengthOfOctets(length: nat, n: nat, tail: seq<Byte>)
    requires length < TWO_32
    ensures GetLength(Input(LengthOctets(length, n) + tail, false), Shift(length, Eight, n), n)
         == (length, Input(tail, false))
  {
    if n > 0 {
      var top: Byte := Shift(length, Eight, n - 1) % 256;
      var rest := LengthOctets(length, n - 1);
      assert LengthOctets(length, n) == [top] + rest;
      GetByteOfPut(top, rest, tail);
      ShiftAtMost(length, Eight, n - 1);
      ShiftBack(length, Eight, n);
      assert Shift(length, Eight, n - 1) % TWO_64 == Shift(length, Eight, n - 1);
      hide GetByte, LengthOctets, Shift;
      GetLengthOfOctets(length, n - 1, tail);
    } else {
      assert LengthOctets(length, n) + tail == tail;
    }
  }

  /** The number that octets write behind what has been read. */
  function Number(acc: nat, octets: seq<Byte>): nat
    decreases |octets|
  {
    if octets == [] then acc else Number(acc * 256 + octets[0], octets[1..])
  }

  lemma StepWraps(a: nat, b: nat, octet: Byte)
    requires a % 0x1_0000_0000_0000_0000 == b % 0x1_0000_0000_0000_0000
    ensures (a * 256 + octet) % 0x1_0000_0000_0000_0000 == (b * 256 + octet) % 0x1_0000_0000_0000_0000
  {
    var m: nat := 0x1_0000_0000_0000_0000;
    var k := a / m - b / m;
    assert a == b + m * k;
    assert a * 256 + octet == (b * 256 + octet) + m * (256 * k);
  }

  lemma {:induction false} GetLengthWraps(a: nat, b: nat, octets: seq<Byte>, tail: seq<Byte>)
    requires b < 0x1_0000_0000_0000_0000 && a % 0x1_0000_0000_0000_0000 == b
    ensures GetLength(Input(octets + tail, false), b, |octets|)
         == (Number(a, octets) % 0x1_0000_0000_0000_0000, Input(tail, false))
    decreases |octets|
  {
    if octets == [] {
      assert octets + tail == tail;
    } else {
      var o := octets[0];
      assert octets + tail == ([o] + octets[1..]) + tail;
      GetByteOfPut(o, octets[1..], tail);
      StepWraps(a, b, o);
      hide GetByte;
      GetLengthWraps(a * 256 + o, (b * 256 + o) % 0x1_0000_0000_0000_0000, octets[1..], tail);
    }
  }

  /** The long form of a length may have any number of octets, leading zeros too; a size_t takes its last 64 bits. */
  lemma LongLength(octets: seq<Byte>, tail: seq<Byte>)
    requires |octets| < 0x80
    ensures GetLengthHeader(Input([(0x80 + |octets|) as Byte] + octets + tail, false))
         == (Number(0, octets) % 0x1_0000_0000_0000_0000, Input(tail, false))
  {
    GetByteOfPut(0x80 + |octets|, octets, tail);
    hide GetByte, GetLength, Number;
    GetLengthWraps(0, 0, octets, tail);
  }

  /** Reading back a written element gives its identifier, flags and contents, and stops exactly after it. */
  lemma GetBerOfElement(id: nat, flags: Byte, data: seq<Byte>, tail: seq<Byte>)
    requires IsFlags(flags) && |data| < TWO_32
    ensures GetBer(Input(Element(id, flags, data) + tail, false)) == (Item(id, flags, data), Input(tail, false))
  {
    var rest := LengthHeader(|data|) + (data + tail);
    assert Element(id, flags, data) + tail == IdHeader(id, flags) + rest;
    GetIdHeaderOfPut(id, flags, rest);
    GetLengthHeaderOfPut(|data|, data + tail);
    GetDataOfPut(data, tail);
  }

  lemma SplitLead(id: nat, flags: Byte)
    requires IsFlags(flags) && id < 32
    ensures id + flags < 256
    ensures (id + flags) % 32 == id && (id + flags) - (id + flags) % 32 == flags
  {
    var k := flags as int / 32;
    assert flags == 32 * k;
  }

  lemma GetIdHeaderOfPut(id: nat, flags: Byte, tail: seq<Byte>)
    requires IsFlags(flags)
    ensures GetIdHeader(Input(IdHeader(id, flags) + tail, false)) == (id, flags, Input(tail, false))
  {
    var all := IdHeader(id, flags) + tail;
    var lead: Byte := if id <= 30 then id + flags else 0x1F + flags;
    SplitLead(if id <= 30 then id else 0x1F, flags);
    assert GetByte(Input(all, false)) == (lead, Input(all[1..], false));
    if id > 30 {
      LongId(id, all[1..], tail);
    } else {
      assert all[1..] == tail;
    }
  }

  lemma LongId(id: nat, rest: seq<Byte>, tail: seq<Byte>)
    requires rest == IdOctets(id, NumDigits(id, Seven)) + tail
    ensures GetId(Input(rest, false), 0) == (id, Input(tail, false))
  {
    var n := NumDigits(id, Seven);
    NumDigitsIsFirstZeroShift(id, Seven, n);
    GetIdOfOctets(id, n, tail);
  }

  lemma GetLengthHeaderOfPut(length: nat, tail: seq<Byte>)
    requires length < TWO_32
    ensures GetLengthHeader(Input(LengthHeader(length) + tail, false)) == (length, Input(tail, false))
  {
    var all := LengthHeader(length) + tail;
    if length >= 128 {
      FourOctets(length);
      var n := NumDigits(length, Eight);
      assert all[1..] == LengthOctets(length, n) + tail;
      NumDigitsIsFirstZeroShift(length, Eight, n);
      GetLengthOfOctets(length, n, tail);
    } else {
      assert all[1..] == tail;
    }
  }

  // The header is the shortest one the reader would understand the same way.

  lemma {:induction false} GetIdShift(i: Input, acc: nat)
    requires !GetId(i, acc).1.err
    ensures !i.err
    ensures |GetId(i, acc).1.rest| < |i.rest|
    ensures Shift(GetId(i, acc).0, Seven, |i.rest| - |GetId(i, acc).1.rest|) == acc
    decreases |i.rest|
  {
    var (b, j) := GetByte(i);
    var id := acc * 128 + b % 128;
    if b >= 0x80 {
      GetIdShift(j, id);
    } else {
      assert Shift(id, Seven, 0) == id;
    }
  }

  lemma {:induction false} GetLengthShift(i: Input, acc: nat, nbytes: nat, used: nat)
    requires Shift(acc, Eight, used) == 0
    requires !GetLength(i, acc, nbytes).1.err
    ensures Shift(GetLength(i, acc, nbytes).0, Eight, used + nbytes) == 0
    ensures |i.rest| == |GetLength(i, acc, nbytes).1.rest| + nbytes
    decreases nbytes
  {
    if nbytes > 0 {
      var (b, j) := GetByte(i);
      var next := (acc * 256 + b) % TWO_64;
      if j.err {
        ErrorIsSticky(j, next, nbytes - 1);
      }
      ShiftOfQuotient(acc * 256 + b, Eight, used);
      assert (acc * 256 + b) / 256 == acc;
      ShiftMonotone(next, acc * 256 + b, Eight, used + 1);
      GetLengthShift(j, next, nbytes - 1, used + 1);
    }
  }

  lemma {:induction false} ErrorIsSticky(i: Input, acc: nat, nbytes: nat)
    requires i.err
    ensures GetLength(i, acc, nbytes).1.err
    decreases nbytes
  {
    if nbytes > 0 {
      ErrorIsSticky(i, (acc * 256) % TWO_64, nbytes - 1);
    }
  }

  /** Of all headers that get_ber reads as this identifier and length, put_ber_id_len writes one of fewest octets. */
  lemma HeaderIsShortest(i: Input, flags: Byte)
    requires IsFlags(flags)
    requires var (id, f, i1) := GetIdHeader(i); var (length, i2) := GetLengthHeader(i1); !i2.err && length < TWO_32
    ensures var (id, f, i1) := GetIdHeader(i);
            var (length, i2) := GetLengthHeader(i1);
            |Header(id, length, flags)| <= |i.rest| - |i2.rest|
  {
    var (id, f, i1) := GetIdHeader(i);
    var (length, i2) := GetLengthHeader(i1);
    LengthHeaderIsShortest(i1);
    IdHeaderIsShortest(i, flags);
  }

  lemma LengthHeaderIsShortest(i: Input)
    requires !GetLengthHeader(i).1.err && GetLengthHeader(i).0 < TWO_32
    ensures !i.err
    ensures |LengthHeader(GetLengthHeader(i).0)| <= |i.rest| - |GetLengthHeader(i).1.rest|
  {
    var (lenbyte, i1) := GetByte(i);
    var length := GetLengthHeader(i).0;
    if lenbyte >= 0x80 {
      GetLengthShift(i1, 0, lenbyte - 0x80, 0);
      if length >= 128 {
        assert Shift(length, Eight, 0) == length;
        NumDigitsIsFirstZeroShift(length, Eight, lenbyte - 0x80);
      }
    }
  }

  lemma IdHeaderIsShortest(i: Input, flags: Byte)
    requires IsFlags(flags) && !GetIdHeader(i).2.err
    ensures |IdHeader(GetIdHeader(i).0, flags)| <= |i.rest| - |GetIdHeader(i).2.rest|
  {
    var (lead, i1) := GetByte(i);
    if lead % 32 == 0x1F {
      GetIdShift(i1, 0);
      var (id, i2) := GetId(i1, 0);
      NumDigitsIsFirstZeroShift(id, Seven, |i1.rest| - |i2.rest|);
    }
  }

  /** The first half of BinarySink_put_ber_id_len. */
  method PutId(bs: Strbuf, id: nat, flags: Byte)
    requires IsFlags(flags)
    modifies bs
    ensures bs.u == old(bs.u) + IdHeader(id, flags)
  {
    if id <= 30 {
      bs.PutByte(id + flags);
    } else {
      bs.PutByte(0x1F + flags);
      var n := CountDigits(id, Seven);
      ghost var octets := IdOctets(id, n);
      ghost var start := bs.u;
      while n > 0
        invariant 0 <= n
        invariant bs.u + IdOctets(id, n) == start + octets
      {
        ghost var before := bs.u;
        n := n - 1;
        bs.PutByte((if n > 0 then 0x80 else 0) + Shift(id, Seven, n) % 128);
        Assoc(before, [(if n > 0 then 0x80 else 0) + Shift(id, Seven, n) % 128], IdOctets(id, n));
      }
      Assoc(old(bs.u), [0x1F + flags], octets);
    }
  }

  /** The second half of BinarySink_put_ber_id_len. */
  method PutLength(bs: Strbuf, length: nat)
    requires length < TWO_32
    modifies bs
    ensures bs.u == old(bs.u) + LengthHeader(length)
  {
    if length < 128 {
      bs.PutByte(length);
    } else {
      var n := CountDigits(length, Eight);
      FourOctets(length);
      bs.PutByte(0x80 + n);
      ghost var octets := LengthOctets(length, n);
      ghost var start := bs.u;
      while n > 0
        invariant 0 <= n
        invariant bs.u + LengthOctets(length, n) == start + octets
      {
        ghost var before := bs.u;
        n := n - 1;
        bs.PutByte(Shift(length, Eight, n) % 256);
        Assoc(before, [Shift(length, Eight, n) % 256], LengthOctets(length, n));
      }
      Assoc(old(bs.u), [0x80 + |octets|], octets);
    }
  }

  /** BinarySink_put_ber_id_len. */
  method PutBerIdLen(bs: Strbuf, id: nat, length: nat, flags: Byte)
    requires IsFlags(flags) && length < TWO_32
    modifies bs
    ensures bs.u == old(bs.u) + Header(id, length, flags)
  {
    PutId(bs, id, flags);
    PutLength(bs, length);
    Assoc(old(bs.u), IdHeader(id, flags), LengthHeader(length));
  }

  /** The loop that counts the digits of `v`. */
  method CountDigits(v: nat, g: Group) returns (n: nat)
    ensures n == NumDigits(v, g)
  {
    n := 1;
    NumDigitsIsFirstZeroShift(v, g, 1);
    while Shift(v, g, n) > 0
      invariant 1 <= n <= NumDigits(v, g)
      invariant Shift(v, g, n) == 0 <==> n >= NumDigits(v, g)
      decreases NumDigits(v, g) - n
    {
      n := n + 1;
      NumDigitsIsFirstZeroShift(v, g, n);
    }
  }

  /** put_ber_id_len followed by put_data. */
  method PutElement(bs: Strbuf, id: nat, data: seq<Byte>, flags: Byte)
    requires IsFlags(flags) && |data| < TWO_32
    modifies bs
    ensures bs.u == old(bs.u) + Element(id, flags, data)
  {
    PutBerIdLen(bs, id, |data|, flags);
    bs.PutData(data);
    Assoc(old(bs.u), Header(id, |data|, flags), data);
  }

  /** The identifier octets of BinarySource_get_ber. */
  method ReadId(src: BinarySource) returns (id: nat, flags: Byte)
    requires src.Valid()
    modifies src
    ensures src.Valid() && (id, flags, src.In()) == GetIdHeader(old(src.In()))
  {
    hide GetByte, GetId, LowSeven;
    var leadbyte := src.ReadByte();
    flags := leadbyte - leadbyte % 32;
    if leadbyte % 32 == 0x1F {
      id := 0;
      ghost var whole := GetId(src.In(), 0);
      GetIdStep(src.In(), 0);
      GetByteFacts(src.In());
      var idbyte := src.ReadByte();
      id := LowSeven(idbyte);
      while idbyte >= 0x80
        invariant src.Valid()
        invariant (if idbyte >= 0x80 then GetId(src.In(), id) else (id, src.In())) == whole
        invariant src.err ==> idbyte < 0x80
        decreases |src.In().rest|, idbyte
      {
        GetIdStep(src.In(), id);
        GetByteFacts(src.In());
        idbyte := src.ReadByte();
        id := id * 128 + LowSeven(idbyte);
      }
    } else {
      id := leadbyte % 32;
    }
  }

  /** The length octets of BinarySource_get_ber. */
  method ReadLength(src: BinarySource) returns (length: nat)
    requires src.Valid()
    modifies src
    ensures src.Valid() && (length, src.In()) == GetLengthHeader(old(src.In()))
  {
    var lenbyte := src.ReadByte();
    if lenbyte >= 0x80 {
      var nbytes: nat := lenbyte - 0x80;
      length := 0;
      ghost var whole := GetLength(src.In(), 0, nbytes);
      while nbytes > 0
        invariant src.Valid()
        invariant GetLength(src.In(), length, nbytes) == whole
      {
        var b := src.ReadByte();
        length := (length * 256 + b) % TWO_64;
        nbytes := nbytes - 1;
      }
    } else {
      length := lenbyte;
    }
  }

  /** BinarySource_get_ber. */
  method ReadBer(src: BinarySource) returns (item: Item)
    requires src.Valid()
    modifies src
    ensures src.Valid() && (item, src.In()) == GetBer(old(src.In()))
  {
    var id, flags := ReadId(src);
    var length := ReadLength(src);
    var data := src.ReadData(length);
    item := Item(id, flags, data);
  }
}
