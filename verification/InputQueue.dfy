/** The line discipline's input queue: bytes and session specials in one escape-coded byte queue. */
module InputQueue {
  import opened Bytes
  import opened Marshal
  import opened Bufchain

  const FF := 0xFF

  datatype Token = Chr(c: Byte) | Special(code: nat, arg: int)

  /** One call of ldisc_to_backend_raw or ldisc_to_backend_special. */
  datatype Write = Raw(data: seq<Byte>) | Command(code: nat, arg: int)

  /** A special's code must not start with FF, which the encoder asserts; its argument is a C int. */
  ghost predicate ValidSpecial(code: nat, arg: int) {
    code < 0xFF00_0000 && -0x8000_0000 <= arg < 0x8000_0000
  }

  ghost predicate ValidToken(t: Token) {
    t.Special? ==> ValidSpecial(t.code, t.arg)
  }

  ghost predicate AllValid(ws: seq<Write>) {
    forall i :: 0 <= i < |ws| ==> (ws[i].Command? ==> ValidSpecial(ws[i].code, ws[i].arg))
  }

  /** toint: two's complement. */
  function ToInt(u: nat): int {
    if u < 0x8000_0000 then u else u - TWO_32
  }

  // What the queue means.

  function Chars(data: seq<Byte>): (ts: seq<Token>)
    ensures |ts| == |data|
    ensures forall i :: 0 <= i < |ts| ==> ts[i] == Chr(data[i])
  {
    seq(|data|, i requires 0 <= i < |data| => Chr(data[i]))
  }

  function TokensOf(w: Write): seq<Token> {
    match w
    case Raw(data) => Chars(data)
    case Command(code, arg) => [Special(code, arg)]
  }

  function AllTokens(ws: seq<Write>): seq<Token> {
    if ws == [] then [] else TokensOf(ws[0]) + AllTokens(ws[1..])
  }

  /** The encoding that the comment at the head of the source file describes. */
  function EncodeToken(t: Token): (b: seq<Byte>)
    ensures |b| >= 1
  {
    match t
    case Chr(c) => if c == FF then [FF, FF] else [c]
    case Special(code, arg) => [FF] + Put32(code) + Put32(arg)
  }

  function Encode(ts: seq<Token>): seq<Byte> {
    if ts == [] then [] else EncodeToken(ts[0]) + Encode(ts[1..])
  }

  /** The first token of a queue, and how many bytes it takes; None where the source would run out of data. */
  function First(q: seq<Byte>): (r: Option<(Token, nat)>)
    ensures r.Some? ==> 1 <= r.value.1 <= |q|
  {
    if q == [] then None
    else if q[0] != FF then Some((Chr(q[0]), 1))
    else if |q| < 2 then None
    else if q[1] == FF then Some((Chr(FF), 2))
    else if |q| < 9 then None
    else Some((Special(Get32(q[1..5]), ToInt(Get32(q[5..9]))), 9))
  }

  /** One token at a time until the queue is empty. */
  function Decode(q: seq<Byte>): Option<seq<Token>>
    decreases |q|
  {
    if q == [] then Some([])
    else
      match First(q)
      case None => None
      case Some((t, n)) =>
        match Decode(q[n..])
        case None => None
        case Some(ts) => Some([t] + ts)
  }

  lemma FirstOfEncode(t: Token, tail: seq<Byte>)
    requires ValidToken(t)
    ensures First(EncodeToken(t) + tail) == Some((t, |EncodeToken(t)|))
  {
    match t
    case Chr(_) =>
    case Special(code, arg) =>
      var q := EncodeToken(t) + tail;
      assert q[1..5] == Put32(code) && q[5..9] == Put32(arg);
      TopByte(code);
      Get32OfPut32(code);
      Get32OfPut32(arg);
      SignedAgain(arg);
  }

  lemma TopByte(code: nat)
    requires code < 0xFF00_0000
    ensures Put32(code)[0] != FF
  {
    Get32OfPut32(code);
    assert Get32(Put32(code)) == code;
  }

  lemma SignedAgain(arg: int)
    requires -0x8000_0000 <= arg < 0x8000_0000
    ensures ToInt(arg % TWO_32) == arg
  {
    if arg < 0 {
      assert arg % TWO_32 == arg + TWO_32;
    }
  }

  /** Decoding undoes encoding. */
  lemma {:induction false} DecodeOfEncode(ts: seq<Token>)
    requires forall i :: 0 <= i < |ts| ==> ValidToken(ts[i])
    ensures Decode(Encode(ts)) == Some(ts)
    decreases |ts|
  {
    hide First, EncodeToken;
    if ts != [] {
      FirstOfEncode(ts[0], Encode(ts[1..]));
      DecodeOfEncode(ts[1..]);
      assert Encode(ts)[|EncodeToken(ts[0])|..] == Encode(ts[1..]);
      assert [ts[0]] + ts[1..] == ts;
    }
  }

  lemma FirstIsCanonical(q: seq<Byte>)
    requires First(q).Some?
    ensures var (t, n) := First(q).value; ValidToken(t) && q[..n] == EncodeToken(t)
  {
    var (t, n) := First(q).value;
    if t.Special? {
      Put32OfGet32(q[1..5]);
      Put32OfGet32(q[5..9]);
      SpecialIsCanonical(q);
    }
  }

  lemma SpecialIsCanonical(q: seq<Byte>)
    requires |q| >= 9 && q[0] == FF && q[1] != FF
    ensures ValidSpecial(Get32(q[1..5]), ToInt(Get32(q[5..9])))
    ensures q[..9] == [FF] + Put32(Get32(q[1..5])) + Put32(ToInt(Get32(q[5..9])))
  {
    Put32OfGet32(q[1..5]);
    Put32OfGet32(q[5..9]);
    var u := Get32(q[5..9]);
    Get32OfPut32(ToInt(u));
    assert ToInt(u) % TWO_32 == u;
    SameValueSameBytes(Put32(ToInt(u)), q[5..9]);
    assert q[..9] == [q[0]] + q[1..5] + q[5..9];
  }

  lemma SameValueSameBytes(a: seq<Byte>, b: seq<Byte>)
    requires |a| == 4 && |b| == 4 && Get32(a) == Get32(b)
    ensures a == b
  {
    Put32OfGet32(a);
    Put32OfGet32(b);
  }

  /** A queue has one reading, and only its own encoding reads that way. */
  lemma {:induction false} EncodeOfDecode(q: seq<Byte>)
    requires Decode(q).Some?
    ensures Encode(Decode(q).value) == q
    decreases |q|
  {
    hide First, EncodeToken;
    if q != [] {
      FirstIsCanonical(q);
      var (t, n) := First(q).value;
      EncodeOfDecode(q[n..]);
      assert Decode(q).value[0] == t && Decode(q).value[1..] == Decode(q[n..]).value;
      assert q[..n] + q[n..] == q;
    }
  }

  // What the source puts in the queue.

  /** The loop of ldisc_to_backend_raw as it is written: a chunk free of FF is found, but all `len` bytes are added. */
  function QueuedRaw(data: seq<Byte>): seq<Byte>
    decreases |data|
  {
    if data == [] then []
    else if data[0] == FF then [FF, FF] + QueuedRaw(data[1..])
    else data + QueuedRaw(data[Find(data, FF)..])
  }

  function Queued(w: Write): seq<Byte> {
    match w
    case Raw(data) => QueuedRaw(data)
    case Command(code, arg) => EncodeToken(Special(code, arg))
  }

  function AllQueued(ws: seq<Write>): seq<Byte> {
    if ws == [] then [] else Queued(ws[0]) + AllQueued(ws[1..])
  }

  /** Every FF comes before every other byte. */
  predicate FfFirst(data: seq<Byte>) {
    forall i, j :: 0 <= i < j < |data| && data[j] == FF ==> data[i] == FF
  }

  ghost predicate AllFfFirst(ws: seq<Write>) {
    forall i :: 0 <= i < |ws| ==> (ws[i].Raw? ==> FfFirst(ws[i].data))
  }

  lemma CharsTail(data: seq<Byte>)
    requires data != []
    ensures Chars(data)[1..] == Chars(data[1..])
  {
  }

  lemma {:induction false} EncodePlain(data: seq<Byte>, tail: seq<Byte>)
    requires FF !in data
    ensures Encode(Chars(data + tail)) == data + Encode(Chars(tail))
    decreases |data|
  {
    if data == [] {
      assert data + tail == tail;
    } else {
      assert data == [data[0]] + data[1..];
      EncodeOne(data[0], data[1..] + tail);
      hide Encode, Chars;
      EncodePlain(data[1..], tail);
      assert data + tail == [data[0]] + (data[1..] + tail);
      Assoc([data[0]], data[1..], Encode(Chars(tail)));
    }
  }

  lemma EncodeOne(b: Byte, rest: seq<Byte>)
    requires b != FF
    ensures Encode(Chars([b] + rest)) == [b] + Encode(Chars(rest))
  {
    CharsTail([b] + rest);
    assert ([b] + rest)[1..] == rest;
  }

  /** What is queued is never shorter than the encoding, and is the encoding only for the right shape. */
  lemma {:induction false} QueuedRawLength(data: seq<Byte>)
    ensures |QueuedRaw(data)| >= |Encode(Chars(data))|
    ensures FfFirst(data) ==> QueuedRaw(data) == Encode(Chars(data))
    ensures !FfFirst(data) ==> |QueuedRaw(data)| > |Encode(Chars(data))|
    decreases |data|
  {
    if data != [] {
      if data[0] == FF {
        CharsTail(data);
        QueuedRawLength(data[1..]);
        FfFirstTail(data);
      } else {
        var k := Find(data, FF);
        assert FF !in data[..k] && data[..k] + data[k..] == data;
        EncodePlain(data[..k], data[k..]);
        QueuedRawLength(data[k..]);
        if k == |data| {
          assert data[k..] == [];
        } else {
          assert data[0] != FF && data[k] == FF;
        }
      }
    }
  }

  lemma FfFirstTail(data: seq<Byte>)
    requires data != [] && data[0] == FF
    ensures FfFirst(data) <==> FfFirst(data[1..])
  {
    if FfFirst(data[1..]) {
      forall i, j | 0 <= i < j < |data| && data[j] == FF
        ensures data[i] == FF
      {
        if i > 0 {
          assert data[1..][j - 1] == FF && data[1..][i - 1] == data[i];
        }
      }
    }
    if FfFirst(data) {
      forall i, j | 0 <= i < j < |data[1..]| && data[1..][j] == FF
        ensures data[1..][i] == FF
      {
        assert data[j + 1] == FF;
      }
    }
  }

  lemma {:induction false} EncodeAppend(a: seq<Token>, b: seq<Token>)
    ensures Encode(a + b) == Encode(a) + Encode(b)
    decreases |a|
  {
    if a == [] {
      assert a + b == b;
    } else {
      assert (a + b)[1..] == a[1..] + b;
      EncodeAppend(a[1..], b);
      Assoc(EncodeToken(a[0]), Encode(a[1..]), Encode(b));
    }
  }

  lemma {:induction false} AllQueuedLength(ws: seq<Write>)
    ensures |AllQueued(ws)| >= |Encode(AllTokens(ws))|
    ensures AllFfFirst(ws) ==> AllQueued(ws) == Encode(AllTokens(ws))
    ensures !AllFfFirst(ws) ==> |AllQueued(ws)| > |Encode(AllTokens(ws))|
    decreases |ws|
  {
    hide QueuedRaw, FfFirst, Chars, EncodeToken;
    if ws != [] {
      EncodeAppend(TokensOf(ws[0]), AllTokens(ws[1..]));
      AllQueuedLength(ws[1..]);
      if ws[0].Raw? {
        QueuedRawLength(ws[0].data);
      } else {
        OneToken(ws[0]);
      }
      assert AllFfFirst(ws) <==> AllFfFirst(ws[1..]) && (ws[0].Raw? ==> FfFirst(ws[0].data)) by {
        assert forall i :: 0 < i < |ws| ==> ws[i] == ws[1..][i - 1];
        assert forall i :: 0 <= i < |ws[1..]| ==> ws[1..][i] == ws[i + 1];
      }
    }
  }

  lemma OneToken(w: Write)
    requires w.Command?
    ensures Encode(TokensOf(w)) == EncodeToken(Special(w.code, w.arg))
  {
    assert TokensOf(w)[1..] == [];
    assert EncodeToken(Special(w.code, w.arg)) + [] == EncodeToken(Special(w.code, w.arg));
  }

  lemma {:induction false} TokensAreValid(ws: seq<Write>)
    requires AllValid(ws)
    ensures forall i :: 0 <= i < |AllTokens(ws)| ==> ValidToken(AllTokens(ws)[i])
    decreases |ws|
  {
    if ws != [] {
      TokensAreValid(ws[1..]);
    }
  }

  /**
   * The queue, as the source fills it, gives back exactly what was written if and only if in
   * every raw write all the FF bytes come first.
   */
  lemma QueueIsFaithfulIff(ws: seq<Write>)
    requires AllValid(ws)
    ensures Decode(AllQueued(ws)) == Some(AllTokens(ws)) <==> AllFfFirst(ws)
  {
    hide First, AllQueued, FfFirst;
    AllQueuedLength(ws);
    TokensAreValid(ws);
    DecodeOfEncode(AllTokens(ws));
    if Decode(AllQueued(ws)) == Some(AllTokens(ws)) {
      EncodeOfDecode(AllQueued(ws));
    }
  }

  /** The smallest divergence: the bytes of "a FF b" are queued twice over and then cannot be read. */
  lemma QueueDiverges()
    ensures QueuedRaw([0x61, FF, 0x62]) == [0x61, FF, 0x62, FF, FF, 0x62]
    ensures Decode(QueuedRaw([0x61, FF, 0x62])).None?
    ensures Decode(Encode(Chars([0x61, FF, 0x62]))) == Some([Chr(0x61), Chr(FF), Chr(0x62)])
  {
    var data := [0x61, FF, 0x62];
    FindIs(data, FF, 1);
    assert data[1..] == [FF, 0x62] && data[1..][1..] == [0x62];
    FindLast(0x62);
    assert QueuedRaw([0x62]) == [0x62] + QueuedRaw([]);
    assert QueuedRaw([FF, 0x62]) == [FF, FF] + QueuedRaw([0x62]);
    var q := QueuedRaw(data);
    assert q[1..] == [FF, 0x62, FF, FF, 0x62];
    assert First(q[1..]).None?;
    DecodeOfEncode(Chars(data));
    assert Chars(data) == [Chr(0x61), Chr(FF), Chr(0x62)];
  }

  lemma FindLast(c: Byte)
    requires c != FF
    ensures Find([c], FF) == 1 && [c][1..] == []
  {
    assert Find([c][1..], FF) == 0;
  }

  /** The queue after some writes, as the source writes it or chunk by chunk. */
  ghost function QueuedAs(ws: seq<Write>, byChunk: bool): seq<Byte> {
    if byChunk then Encode(AllTokens(ws)) else AllQueued(ws)
  }

  lemma QueuedAsFirst(ws: seq<Write>, byChunk: bool)
    requires ws != []
    ensures QueuedAs(ws, byChunk) == QueuedAs([ws[0]], byChunk) + QueuedAs(ws[1..], byChunk)
    ensures QueuedAs([ws[0]], byChunk) == if byChunk then Encode(TokensOf(ws[0])) else Queued(ws[0])
  {
    assert [ws[0]][1..] == [];
    assert AllTokens([ws[0]]) == TokensOf(ws[0]) + [] == TokensOf(ws[0]);
    assert AllQueued([ws[0]]) == Queued(ws[0]) + [] == Queued(ws[0]);
    EncodeAppend(TokensOf(ws[0]), AllTokens(ws[1..]));
  }

  lemma QueuedAsNothing(byChunk: bool)
    ensures QueuedAs([], byChunk) == []
  {
  }

  /** The session: where raw bytes and specials go, and whether it wants them yet. */
  class Backend {
    var sendok: bool
    var received: seq<Token>

    constructor (sendok: bool)
      ensures this.sendok == sendok && received == []
    {
      this.sendok := sendok;
      received := [];
    }

    method Send(data: seq<Byte>)
      modifies this`received
      ensures received == old(received) + Chars(data)
    {
      received := received + Chars(data);
    }

    method SendSpecial(code: nat, arg: int)
      modifies this`received
      ensures received == old(received) + [Special(code, arg)]
    {
      received := received + [Special(code, arg)];
    }
  }

  class Ldisc {
    const backend: Backend
    const queue: Chain

    ghost predicate Valid()
      reads this, queue
    {
      queue.Valid()
    }

    constructor (backend: Backend)
      ensures Valid() && this.backend == backend && fresh(queue) && queue.Contents() == []
    {
      this.backend := backend;
      this.queue := new Chain();
    }

    /** ldisc_to_backend_raw, as written. */
    method ToBackendRaw(data: seq<Byte>)
      requires Valid()
      modifies backend, queue
      ensures Valid() && backend.sendok == old(backend.sendok)
      ensures old(backend.sendok) ==> backend.received == old(backend.received) + Chars(data)
      ensures old(backend.sendok) ==> queue.Contents() == old(queue.Contents())
      ensures !old(backend.sendok) ==> backend.received == old(backend.received)
      ensures !old(backend.sendok) ==> queue.Contents() == old(queue.Contents()) + QueuedRaw(data)
    {
      if backend.sendok {
        backend.Send(data);
        return;
      }
      var buf := data;
      while |buf| > 0
        invariant Valid() && backend.sendok == old(backend.sendok) && backend.received == old(backend.received)
        invariant queue.Contents() + QueuedRaw(buf) == old(queue.Contents()) + QueuedRaw(data)
        decreases |buf|
      {
        ghost var before := queue.Contents();
        var thisLen := Find(buf, FF);
        if thisLen > 0 {
          queue.Add(buf);
          Assoc(before, buf, QueuedRaw(buf[thisLen..]));
        } else {
          queue.Add([FF, FF]);
          thisLen := 1;
          Assoc(before, [FF, FF], QueuedRaw(buf[1..]));
        }
        buf := buf[thisLen..];
      }
      assert queue.Contents() + [] == queue.Contents();
    }

    /** ldisc_to_backend_raw as its comment describes it, adding only the chunk that has no FF. */
    method ToBackendRawByChunk(data: seq<Byte>)
      requires Valid() && !backend.sendok
      modifies queue
      ensures Valid() && queue.Contents() == old(queue.Contents()) + Encode(Chars(data))
    {
      var buf := data;
      while |buf| > 0
        invariant Valid()
        invariant queue.Contents() + Encode(Chars(buf)) == old(queue.Contents()) + Encode(Chars(data))
        decreases |buf|
      {
        ghost var before := queue.Contents();
        var thisLen := Find(buf, FF);
        if thisLen > 0 {
          assert FF !in buf[..thisLen] && buf[..thisLen] + buf[thisLen..] == buf;
          EncodePlain(buf[..thisLen], buf[thisLen..]);
          queue.Add(buf[..thisLen]);
          Assoc(before, buf[..thisLen], Encode(Chars(buf[thisLen..])));
        } else {
          CharsTail(buf);
          queue.Add([FF, FF]);
          thisLen := 1;
          Assoc(before, [FF, FF], Encode(Chars(buf[1..])));
        }
        buf := buf[thisLen..];
      }
      assert queue.Contents() + [] == queue.Contents();
    }

    /** ldisc_to_backend_special. */
    method ToBackendSpecial(code: nat, arg: int)
      requires Valid() && ValidSpecial(code, arg)
      modifies backend, queue
      ensures Valid() && backend.sendok == old(backend.sendok)
      ensures old(backend.sendok) ==> backend.received == old(backend.received) + [Special(code, arg)]
      ensures old(backend.sendok) ==> queue.Contents() == old(queue.Contents())
      ensures !old(backend.sendok) ==> backend.received == old(backend.received)
      ensures !old(backend.sendok) ==> queue.Contents() == old(queue.Contents()) + EncodeToken(Special(code, arg))
    {
      if backend.sendok {
        backend.SendSpecial(code, arg);
      } else {
        TopByte(code);
        var data := [FF] + Put32(code) + Put32(arg);
        assert data[1] != FF;
        queue.Add(data);
      }
    }

    /** ldisc_get_input_token. */
    method GetInputToken() returns (tok: Token)
      requires Valid() && First(queue.Contents()).Some?
      modifies queue
      ensures Valid()
      ensures First(old(queue.Contents())) == Some((tok, |old(queue.Contents())| - |queue.Contents()|))
      ensures queue.Contents() == old(queue.Contents())[|old(queue.Contents())| - |queue.Contents()|..]
    {
      ghost var q := queue.Contents();
      var c := queue.FetchConsume(1);
      if c[0] != FF {
        return Chr(c[0]);
      }
      assert q[1..][1..] == q[2..];
      var data := queue.FetchConsume(1);
      if data[0] == FF {
        return Chr(FF);
      }
      assert q[2..][..7] == q[2..9] && q[2..][7..] == q[9..];
      var more := queue.FetchConsume(7);
      data := data + more;
      assert data == q[1..9] && data[..4] == q[1..5] && data[4..] == q[5..9];
      tok := Special(Get32(data[..4]), ToInt(Get32(data[4..])));
    }

    /** Calling ldisc_get_input_token until nothing is buffered. */
    method DrainTokens() returns (ts: seq<Token>)
      requires Valid() && Decode(queue.Contents()).Some?
      modifies queue
      ensures Valid() && queue.Contents() == []
      ensures Some(ts) == Decode(old(queue.Contents()))
    {
      hide First;
      ts := [];
      ghost var whole := Decode(queue.Contents()).value;
      assert [] + whole == whole;
      var size := queue.Size();
      while size > 0
        invariant Valid() && size == |queue.Contents()|
        invariant Decode(queue.Contents()).Some? && ts + Decode(queue.Contents()).value == whole
        decreases size
      {
        ghost var before, q := ts, queue.Contents();
        var tok := GetInputToken();
        assert Decode(q).value == [tok] + Decode(queue.Contents()).value;
        Assoc(before, [tok], Decode(queue.Contents()).value);
        ts := ts + [tok];
        size := queue.Size();
      }
      assert Decode([]) == Some([]) && ts + [] == ts;
    }

    /**
     * ldisc_check_sendok_callback, once the backend is willing: whatever chunks the queue is stored
     * in, the backend receives what decoding token by token would give, and the queue ends empty.
     */
    method Flush()
      requires Valid() && Decode(queue.Contents()).Some?
      modifies backend, queue
      ensures Valid() && backend.sendok == old(backend.sendok)
      ensures !old(backend.sendok) ==> backend.received == old(backend.received)
      ensures !old(backend.sendok) ==> queue.Contents() == old(queue.Contents())
      ensures old(backend.sendok) ==> backend.received == old(backend.received) + Decode(old(queue.Contents())).value
      ensures old(backend.sendok) ==> queue.Contents() == []
    {
      hide First;
      if !backend.sendok {
        return;
      }
      ghost var start, whole := backend.received, Decode(queue.Contents()).value;
      var size := queue.Size();
      while size > 0
        invariant Valid() && size == |queue.Contents()| && backend.sendok
        invariant Decode(queue.Contents()).Some?
        invariant backend.received + Decode(queue.Contents()).value == start + whole
        decreases size
      {
        ghost var before, q := backend.received, queue.Contents();
        var data := queue.Prefix();
        var ff := Find(data, FF);
        if ff > 0 {
          data := data[..ff];
          assert q[..ff] == data;
          PlainBlock(data, q[ff..]);
          assert data + q[ff..] == q;
          backend.Send(data);
          queue.Consume(ff);
          Assoc(before, Chars(data), Decode(q[ff..]).value);
        } else {
          var tok := GetInputToken();
          assert Decode(q).value == [tok] + Decode(queue.Contents()).value;
          Assoc(before, [tok], Decode(queue.Contents()).value);
          if tok.Special? {
            backend.SendSpecial(tok.code, tok.arg);
          } else {
            assert Chars([tok.c]) == [tok];
            backend.Send([tok.c]);
          }
        }
        size := queue.Size();
      }
      assert Decode([]) == Some([]) && backend.received + [] == backend.received;
    }

    /** One write while the backend is unwilling, by one version of the raw writer or the other. */
    method QueueOne(w: Write, byChunk: bool)
      requires Valid() && AllValid([w]) && !backend.sendok
      modifies backend, queue
      ensures Valid() && !backend.sendok && backend.received == old(backend.received)
      ensures queue.Contents() == old(queue.Contents()) + QueuedAs([w], byChunk)
    {
      hide QueuedRaw, EncodeToken, Encode, Chars;
      QueuedAsFirst([w], byChunk);
      assert [w][1..] == [] && QueuedAs([], byChunk) == [];
      if w.Raw? {
        if byChunk {
          ToBackendRawByChunk(w.data);
        } else {
          ToBackendRaw(w.data);
        }
      } else {
        OneToken(w);
        assert [w][0] == w;
        ToBackendSpecial(w.code, w.arg);
      }
    }

    /** Everything written while the backend is unwilling. */
    method QueueAll(ws: seq<Write>, byChunk: bool)
      requires Valid() && AllValid(ws) && !backend.sendok && queue.Contents() == []
      modifies backend, queue
      ensures Valid() && !backend.sendok && backend.received == old(backend.received)
      ensures queue.Contents() == QueuedAs(ws, byChunk)
    {
      hide QueuedAs;
      var i := 0;
      ghost var whole := QueuedAs(ws, byChunk);
      assert ws[0..] == ws && [] + whole == whole;
      while i < |ws|
        invariant 0 <= i <= |ws| && Valid() && !backend.sendok && backend.received == old(backend.received)
        invariant queue.Contents() + QueuedAs(ws[i..], byChunk) == whole
      {
        ghost var before := queue.Contents();
        assert ws[i..][1..] == ws[i + 1..];
        QueuedAsFirst(ws[i..], byChunk);
        Assoc(before, QueuedAs([ws[i]], byChunk), QueuedAs(ws[i + 1..], byChunk));
        QueueOne(ws[i], byChunk);
        i := i + 1;
      }
      assert ws[|ws|..] == [];
      QueuedAsNothing(byChunk);
      assert queue.Contents() + [] == queue.Contents();
    }

    /** A whole session ended by the backend becoming willing. */
    method QueueThenFlush(ws: seq<Write>, byChunk: bool)
      requires Valid() && AllValid(ws) && (byChunk || AllFfFirst(ws))
      requires !backend.sendok && queue.Contents() == []
      modifies backend, queue
      ensures Valid() && queue.Contents() == []
      ensures backend.received == old(backend.received) + AllTokens(ws)
    {
      hide First, FfFirst, Decode, AllQueued;
      QueueAll(ws, byChunk);
      TokensAreValid(ws);
      DecodeOfEncode(AllTokens(ws));
      QueueIsFaithfulIff(ws);
      backend.sendok := true;
      Flush();
    }

    /** A whole session read back one token at a time, as a password prompt does. */
    method QueueThenDrain(ws: seq<Write>, byChunk: bool) returns (ts: seq<Token>)
      requires Valid() && AllValid(ws) && (byChunk || AllFfFirst(ws))
      requires !backend.sendok && queue.Contents() == []
      modifies backend, queue
      ensures Valid() && queue.Contents() == []
      ensures ts == AllTokens(ws)
    {
      hide First, FfFirst, Decode, AllQueued;
      QueueAll(ws, byChunk);
      TokensAreValid(ws);
      DecodeOfEncode(AllTokens(ws));
      QueueIsFaithfulIff(ws);
      ts := DrainTokens();
    }
  }

  /** A block without FF is so many literal bytes. */
  lemma {:induction false} PlainBlock(data: seq<Byte>, tail: seq<Byte>)
    requires FF !in data
    ensures Decode(data + tail)
         == match Decode(tail) case None => None case Some(ts) => Some(Chars(data) + ts)
    decreases |data|
  {
    if data == [] {
      assert data + tail == tail;
      assert Decode(tail).Some? ==> Chars(data) + Decode(tail).value == Decode(tail).value;
    } else {
      assert (data + tail)[1..] == data[1..] + tail;
      PlainBlock(data[1..], tail);
      if Decode(tail).Some? {
        assert Chars(data) == [Chr(data[0])] + Chars(data[1..]);
        Assoc([Chr(data[0])], Chars(data[1..]), Decode(tail).value);
      }
    }
  }
}
