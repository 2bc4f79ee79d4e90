/** The chained byte buffer: data goes in at the tail and is read in whatever chunks it was stored. */
module Bufchain {
  import opened Bytes

  function Flatten(chunks: seq<seq<Byte>>): seq<Byte> {
    if chunks == [] then [] else chunks[0] + Flatten(chunks[1..])
  }

  lemma {:induction false} FlattenAppend(a: seq<seq<Byte>>, b: seq<seq<Byte>>)
    ensures Flatten(a + b) == Flatten(a) + Flatten(b)
    decreases |a|
  {
    if a == [] {
      assert a + b == b;
    } else {
      assert (a + b)[1..] == a[1..] + b;
      FlattenAppend(a[1..], b);
      Assoc(a[0], Flatten(a[1..]), Flatten(b));
    }
  }

  lemma FlattenSnoc(chunks: seq<seq<Byte>>, last: seq<Byte>)
    ensures Flatten(chunks + [last]) == Flatten(chunks) + last
  {
    FlattenAppend(chunks, [last]);
    assert Flatten([last]) == last + [];
  }

  /** A chunk that reaches from the start of the data. */
  lemma FlattenHead(chunks: seq<seq<Byte>>)
    requires chunks != []
    ensures |chunks[0]| <= |Flatten(chunks)|
    ensures Flatten(chunks)[..|chunks[0]|] == chunks[0] && Flatten(chunks)[|chunks[0]|..] == Flatten(chunks[1..])
  {
  }

  const MIN_GRANULE := 512
  const GRANULE_HEADER := 32

  class Chain {
    /** The granules, each with what has been stored in it and not yet consumed. */
    var chunks: seq<seq<Byte>>
    /** The free space after the last one. */
    var room: nat

    ghost predicate Valid()
      reads this
    {
      forall i :: 0 <= i < |chunks| ==> chunks[i] != []
    }

    ghost function Contents(): seq<Byte>
      reads this
    {
      Flatten(chunks)
    }

    constructor ()
      ensures Valid() && Contents() == []
    {
      chunks := [];
      room := 0;
    }

    method Size() returns (n: nat)
      ensures n == |Contents()|
    {
      n := 0;
      var i := 0;
      assert chunks[0..] == chunks;
      while i < |chunks|
        invariant 0 <= i <= |chunks|
        invariant n + |Flatten(chunks[i..])| == |Contents()|
      {
        assert chunks[i..][1..] == chunks[i + 1..];
        n := n + |chunks[i]|;
        i := i + 1;
      }
    }

    /** bufchain_add: the last granule is filled before a new one is allocated for the rest. */
    method Add(data: seq<Byte>)
      requires Valid()
      modifies this
      ensures Valid() && Contents() == old(Contents()) + data
    {
      if data == [] {
        assert old(Contents()) + data == old(Contents());
        return;
      }
      var left := data;
      hide Flatten;
      if chunks != [] && room > 0 {
        var copylen := if |left| < room then |left| else room;
        ghost var front, last := chunks[..|chunks| - 1], chunks[|chunks| - 1];
        assert chunks == front + [last];
        FlattenSnoc(front, last);
        FlattenSnoc(front, last + left[..copylen]);
        Assoc(Flatten(front), last, left[..copylen]);
        chunks := chunks[..|chunks| - 1] + [chunks[|chunks| - 1] + left[..copylen]];
        room := room - copylen;
        left := left[copylen..];
        assert data[..copylen] + left == data;
        Assoc(old(Contents()), data[..copylen], left);
      }
      if left != [] {
        var grain := if GRANULE_HEADER + |left| > MIN_GRANULE then GRANULE_HEADER + |left| else MIN_GRANULE;
        FlattenSnoc(chunks, left);
        chunks := chunks + [left];
        room := grain - GRANULE_HEADER - |left|;
      }
    }

    /** bufchain_prefix: some non-empty initial part of the data. */
    method Prefix() returns (data: seq<Byte>)
      requires Valid() && Contents() != []
      ensures data != [] && data <= Contents()
    {
      data := chunks[0];
      FlattenHead(chunks);
    }

    /** bufchain_consume. */
    method Consume(len: nat)
      requires Valid() && len <= |Contents()|
      modifies this
      ensures Valid() && Contents() == old(Contents())[len..]
    {
      var left: nat := len;
      while left > 0
        invariant Valid() && left <= len && left <= |Contents()|
        invariant Contents()[left..] == old(Contents())[len..]
        decreases left
      {
        ghost var before := Contents();
        FlattenHead(chunks);
        if left >= |chunks[0]| {
          var n := |chunks[0]|;
          chunks := chunks[1..];
          if chunks == [] {
            room := 0;
          }
          left := left - n;
          assert Contents()[left..] == before[n + left..];
        } else {
          ghost var rest := chunks[1..];
          ghost var cut := chunks[0][left..];
          chunks := [chunks[0][left..]] + chunks[1..];
          assert chunks[1..] == rest;
          assert Contents() == cut + Flatten(rest);
          left := 0;
        }
      }
    }

    /** bufchain_fetch_consume: the data may be spread over several granules. */
    method FetchConsume(len: nat) returns (data: seq<Byte>)
      requires Valid() && len <= |Contents()|
      modifies this
      ensures Valid() && data == old(Contents())[..len] && Contents() == old(Contents())[len..]
    {
      data := [];
      var i := 0;
      assert chunks[0..] == chunks;
      while |data| < len
        invariant 0 <= i <= |chunks| && |data| <= len
        invariant len <= |Contents()|
        invariant data == Contents()[..|data|]
        invariant |data| < len ==> Contents()[|data|..] == Flatten(chunks[i..])
        invariant chunks == old(chunks) && room == old(room)
        decreases |chunks| - i
      {
        assert chunks[i..] != [] by {
          assert Contents()[|data|..] != [];
        }
        FlattenHead(chunks[i..]);
        assert chunks[i..][1..] == chunks[i + 1..];
        var want := len - |data|;
        ghost var rest := Contents()[|data|..];
        if want >= |chunks[i]| {
          assert Contents()[|data|..][|chunks[i]|..] == Contents()[|data| + |chunks[i]|..];
          data := data + chunks[i];
        } else {
          data := data + chunks[i][..want];
        }
        i := i + 1;
      }
      Consume(len);
    }
  }
}
