/** The SSH marshalling layer: an append-only buffer and a cursor with sticky errors. */
module Marshal {
  import opened Bytes

  /** An SSH string: a 32-bit length and then the data. */
  function Str(s: seq<Byte>): (b: seq<Byte>)
    ensures |b| == |s| + 4
  {
    Put32(|s|) + s
  }

  /** `len` copies of one byte. */
  function Repeat(len: nat, b: Byte): (r: seq<Byte>)
    ensures |r| == len
    ensures forall i :: 0 <= i < len ==> r[i] == b
  {
    seq(len, _ => b)
  }

  /** What a reader has left, and whether it has failed. */
  datatype Input = Input(rest: seq<Byte>, err: bool)

  /** BinarySource_get_data: an error keeps the position and answers an empty block. */
  function GetData(i: Input, wanted: nat): (r: (seq<Byte>, Input)) {
    if i.err then ([], i)
    else if wanted > |i.rest| then ([], i.(err := true))
    else (i.rest[..wanted], i.(rest := i.rest[wanted..]))
  }

  function GetByte(i: Input): (r: (Byte, Input)) {
    var (d, j) := GetData(i, 1);
    if j.err then (0, j) else (d[0], j)
  }

  function GetUint32(i: Input): (r: (nat, Input)) {
    var (d, j) := GetData(i, 4);
    if j.err then (0, j) else (Get32(d), j)
  }

  function GetString(i: Input): (r: (seq<Byte>, Input)) {
    var (len, j) := GetUint32(i);
    GetData(j, len)
  }

  /** BinarySource_get_asciz: the bytes before the first NUL, which is skipped. */
  function GetAsciz(i: Input): (r: (seq<Byte>, Input)) {
    if i.err then ([], i)
    else
      var n := Find(i.rest, 0);
      if n == |i.rest| then ([], i.(err := true))
      else (i.rest[..n], i.(rest := i.rest[n + 1..]))
  }

  /** After an error, and for want of data, there is nothing to be had, and the error stays. */
  lemma NothingToRead(i: Input)
    ensures i.err ==>
              GetByte(i) == (0, i) && GetUint32(i) == (0, i) && GetString(i) == ([], i) && GetAsciz(i) == ([], i)
    ensures !i.err && i.rest == [] ==> GetByte(i) == (0, i.(err := true))
    ensures !i.err && |i.rest| < 4 ==> GetUint32(i) == (0, i.(err := true)) && GetString(i) == ([], i.(err := true))
    ensures !i.err && |i.rest| >= 4 && |i.rest| - 4 < Get32(i.rest[..4]) ==> GetString(i) == ([], Input(i.rest[4..], true))
    ensures !i.err && 0 !in i.rest ==> GetAsciz(i) == ([], i.(err := true))
  {
  }

  // Each reader undoes its writer and leaves what follows untouched.

  lemma GetDataOfPut(d: seq<Byte>, tail: seq<Byte>)
    ensures GetData(Input(d + tail, false), |d|) == (d, Input(tail, false))
  {
  }

  lemma GetUint32OfPut(n: nat, tail: seq<Byte>)
    requires n < TWO_32
    ensures GetUint32(Input(Put32(n) + tail, false)) == (n, Input(tail, false))
  {
    Get32OfPut32(n);
    GetDataOfPut(Put32(n), tail);
  }

  lemma GetStringOfPut(s: seq<Byte>, tail: seq<Byte>)
    requires |s| < TWO_32
    ensures GetString(Input(Str(s) + tail, false)) == (s, Input(tail, false))
  {
    assert Str(s) + tail == Put32(|s|) + (s + tail);
    GetUint32OfPut(|s|, s + tail);
  }

  /** What is read without an error is what some writer put there. */
  lemma GetUint32IsPut(i: Input)
    requires !i.err && !GetUint32(i).1.err
    ensures var (n, j) := GetUint32(i); n < TWO_32 && i.rest == Put32(n) + j.rest
  {
    Put32OfGet32(i.rest[..4]);
    assert i.rest == i.rest[..4] + i.rest[4..];
  }

  lemma GetStringIsPut(i: Input)
    requires !i.err && !GetString(i).1.err
    ensures var (s, j) := GetString(i); |s| < TWO_32 && i.rest == Str(s) + j.rest
  {
    GetUint32IsPut(i);
    var (n, j) := GetUint32(i);
    hide GetUint32, Put32;
    assert j.rest == j.rest[..n] + j.rest[n..];
    Assoc(Put32(n), j.rest[..n], j.rest[n..]);
  }

  lemma GetAscizOfPut(s: seq<Byte>, tail: seq<Byte>)
    requires 0 !in s
    ensures GetAsciz(Input(s + [0] + tail, false)) == (s, Input(tail, false))
  {
    FindIs(s + [0] + tail, 0, |s|);
    assert (s + [0] + tail)[|s| + 1..] == tail;
    assert (s + [0] + tail)[..|s|] == s;
  }

  /** strbuf as a BinarySink. */
  class Strbuf {
    var u: seq<Byte>

    constructor ()
      ensures u == []
    {
      u := [];
    }

    method PutData(d: seq<Byte>)
      modifies this
      ensures u == old(u) + d
    {
      u := u + d;
    }

    method PutByte(b: Byte)
      modifies this
      ensures u == old(u) + [b]
    {
      PutData([b]);
    }

    method PutUint32(n: int)
      modifies this
      ensures u == old(u) + Put32(n)
    {
      PutData(Put32(n));
    }

    /** put_string asserts that the length fits in 32 bits. */
    method PutString(d: seq<Byte>)
      requires |d| < TWO_32
      modifies this
      ensures u == old(u) + Str(d)
    {
      PutUint32(|d|);
      PutData(d);
      assert u == old(u) + Str(d);
    }

    method PutAsciz(d: seq<Byte>)
      modifies this
      ensures u == old(u) + (d + [0])
    {
      PutData(d + [0]);
    }

    method PutPadding(len: nat, padbyte: Byte)
      modifies this
      ensures u == old(u) + Repeat(len, padbyte)
    {
      var left: nat := len;
      while left > 0
        invariant left <= len
        invariant u == old(u) + Repeat(len - left, padbyte)
      {
        var thislen := if left < 16 then left else 16;
        PutData(Repeat(thislen, padbyte));
        left := left - thislen;
        assert u == old(u) + Repeat(len - left, padbyte);
      }
    }

    /** PUT_32BIT_MSB_FIRST into bytes already written. */
    method Patch32(pos: nat, n: int)
      requires pos + 4 <= |u|
      modifies this
      ensures u == old(u)[..pos] + Put32(n) + old(u)[pos + 4..]
    {
      u := u[..pos] + Put32(n) + u[pos + 4..];
    }
  }

  /** BinarySource: a block, a position that only moves forward, and a sticky error. */
  class BinarySource {
    const data: seq<Byte>
    var pos: nat
    var err: bool

    ghost predicate Valid()
      reads this
    {
      pos <= |data|
    }

    ghost function In(): Input
      requires Valid()
      reads this
    {
      Input(data[pos..], err)
    }

    constructor (data: seq<Byte>)
      ensures Valid() && this.data == data && In() == Input(data, false)
    {
      this.data := data;
      pos := 0;
      err := false;
    }

    method DataAvail(wanted: nat) returns (ok: bool)
      requires Valid()
      modifies this`err
      ensures ok == (!old(err) && wanted <= |data| - pos)
      ensures err == !ok
    {
      if err {
        return false;
      }
      ok := wanted <= |data| - pos;
      err := !ok;
    }

    method ReadData(wanted: nat) returns (d: seq<Byte>)
      requires Valid()
      modifies this
      ensures Valid() && (d, In()) == GetData(old(In()), wanted)
    {
      var ok := DataAvail(wanted);
      if !ok {
        return [];
      }
      d := data[pos..pos + wanted];
      assert d == data[pos..][..wanted];
      pos := pos + wanted;
    }

    method ReadByte() returns (b: Byte)
      requires Valid()
      modifies this
      ensures Valid() && (b, In()) == GetByte(old(In()))
    {
      var d := ReadData(1);
      b := if err then 0 else d[0];
    }

    method ReadUint32() returns (n: nat)
      requires Valid()
      modifies this
      ensures Valid() && (n, In()) == GetUint32(old(In()))
    {
      var d := ReadData(4);
      n := if err then 0 else Get32(d);
    }

    method ReadString() returns (s: seq<Byte>)
      requires Valid()
      modifies this
      ensures Valid() && (s, In()) == GetString(old(In()))
    {
      var len := ReadUint32();
      s := ReadData(len);
    }

    method ReadAsciz() returns (s: seq<Byte>)
      requires Valid()
      modifies this
      ensures Valid() && (s, In()) == GetAsciz(old(In()))
    {
      if err {
        return [];
      }
      var n := Find(data[pos..], 0);
      if n == |data| - pos {
        err := true;
        return [];
      }
      s := data[pos..][..n];
      pos := pos + n + 1;
    }
  }
}
