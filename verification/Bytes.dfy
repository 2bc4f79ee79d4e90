/** Bytes, C strings and big-endian integers, shared by every codec. */
module Bytes {

  type Byte = b: int | 0 <= b < 256

  const TWO_32 := 0x1_0000_0000

  datatype Option<+T> = None | Some(value: T)

  datatype Result<+T, +E> = Success(value: T) | Failure(error: E)

  /** A C string whose characters fit in one byte and which holds no NUL. */
  ghost predicate IsCString(s: string) {
    forall i :: 0 <= i < |s| ==> 0 < s[i] as int < 256
  }

  /** The bytes of a narrow string. */
  function ToBytes(s: string): (b: seq<Byte>)
    requires forall i :: 0 <= i < |s| ==> s[i] as int < 256
    ensures |b| == |s|
    ensures forall i :: 0 <= i < |s| ==> b[i] == s[i] as int
  {
    seq(|s|, i requires 0 <= i < |s| => s[i] as int)
  }

  /** The narrow string a block of bytes spells. */
  function ToText(b: seq<Byte>): (s: string)
    ensures |s| == |b|
    ensures forall i :: 0 <= i < |b| ==> s[i] == b[i] as char
  {
    seq(|b|, i requires 0 <= i < |b| => b[i] as char)
  }

  /** memchr and strchr: the first index of `c`, or the length. */
  function Find<T(==)>(s: seq<T>, c: T): (n: nat)
    ensures n <= |s|
    ensures forall i :: 0 <= i < n ==> s[i] != c
    ensures n < |s| ==> s[n] == c
  {
    if s == [] || s[0] == c then 0 else 1 + Find(s[1..], c)
  }

  lemma FindIs<T>(s: seq<T>, c: T, n: nat)
    requires n <= |s| && (forall i :: 0 <= i < n ==> s[i] != c) && (n < |s| ==> s[n] == c)
    ensures Find(s, c) == n
  {
  }

  /** isspace, in the C locale, of a character code. */
  predicate IsSpace(v: int) {
    v == 32 || 9 <= v <= 13
  }

  lemma Assoc<T>(a: seq<T>, b: seq<T>, c: seq<T>)
    ensures (a + b) + c == a + (b + c)
  {
  }

  /** PUT_32BIT_MSB_FIRST: four bytes, most significant first, of `n` modulo 2^32. */
  function Put32(n: int): (b: seq<Byte>)
    ensures |b| == 4
  {
    var q1 := n / 0x100;
    var q2 := q1 / 0x100;
    var q3 := q2 / 0x100;
    [q3 % 0x100, q2 % 0x100, q1 % 0x100, n % 0x100]
  }

  /** GET_32BIT_MSB_FIRST. */
  function Get32(b: seq<Byte>): (n: nat)
    requires |b| == 4
    ensures n < TWO_32
  {
    ((b[0] as int * 0x100 + b[1]) * 0x100 + b[2]) * 0x100 + b[3]
  }

  lemma Get32OfPut32(n: int)
    ensures Get32(Put32(n)) == n % TWO_32
  {
    var q1 := n / 0x100;
    var q2 := q1 / 0x100;
    var q3 := q2 / 0x100;
    var q4 := q3 / 0x100;
    assert Get32(Put32(n)) == n - q4 * TWO_32;
  }

  lemma Put32OfGet32(b: seq<Byte>)
    requires |b| == 4
    ensures Put32(Get32(b)) == b
  {
    var q2 := b[0] as int * 0x100 + b[1];
    var q1 := q2 * 0x100 + b[2];
    var n := q1 * 0x100 + b[3];
    assert n / 0x100 == q1 && q1 / 0x100 == q2 && q2 / 0x100 == b[0];
  }

  /** The value of an unsigned big-endian byte string. */
  function Value(b: seq<Byte>): nat {
    if b == [] then 0 else Value(b[..|b| - 1]) * 256 + b[|b| - 1]
  }

  lemma {:induction false} ValueOfLeadingZero(b: seq<Byte>)
    requires b != [] && b[0] == 0
    ensures Value(b) == Value(b[1..])
  {
    if |b| > 1 {
      ValueOfLeadingZero(b[..|b| - 1]);
      assert b[1..][..|b| - 2] == b[..|b| - 1][1..];
    }
  }
}
