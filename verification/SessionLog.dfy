/** The session log: a file opened at the first write, perhaps only after the user has been asked. */
module SessionLog {
  import opened Bytes
  import opened Bufchain

  datatype LogState = Closed | Opening | Open | Failed

  datatype OnExisting = Ask | Overwrite | Append

  // The modes of logfopen_callback; a negative one means that the answer comes later.
  const CANCEL := 0
  const APPEND := 1
  const CREATE := 2

  /**
   * The settings, and what logging finds outside: the file as it was, whether it can be opened, and
   * what the user answers at once. `header` is empty if no header line is wanted.
   */
  datatype Setup = Setup(logtype: nat, header: seq<Byte>, losesData: bool, onExisting: OnExisting,
                         answer: int, opens: bool, previous: seq<Byte>)

  /** The state, the queue, the file, and how many bytes the disk will still take. */
  datatype Log = Log(state: LogState, queue: seq<Byte>, file: seq<Byte>, room: nat)

  function Start(c: Setup, room: nat): Log {
    Log(Closed, [], c.previous, room)
  }

  function Min(a: nat, b: nat): nat {
    if a < b then a else b
  }

  /** fwrite to an open log: a short write disables the log. */
  function Put(l: Log, data: seq<Byte>): Log {
    if l.state != Open then l
    else
      var n := Min(|data|, l.room);
      Log(if n < |data| then Failed else Open, l.queue, l.file + data[..n], l.room - n)
  }

  /** logfopen_callback: the file is opened, and what was queued is written. */
  function Complete(c: Setup, l: Log, mode: nat): Log {
    if mode == CANCEL || !c.opens then l.(state := Failed, queue := [])
    else
      var start := Log(Open, l.queue, if mode == APPEND then l.file else [], l.room);
      Put(Put(start, c.header), l.queue).(queue := [])
  }

  function Mode(c: Setup): int {
    if !c.losesData then CREATE
    else if c.onExisting == Ask then c.answer
    else if c.onExisting == Overwrite then CREATE else APPEND
  }

  /** logfopen. */
  function OpenFile(c: Setup, l: Log): Log {
    if l.state != Closed || c.logtype == 0 then l
    else if Mode(c) < 0 then l.(state := Opening)
    else Complete(c, l, Mode(c))
  }

  /** logwrite. */
  function Write(c: Setup, l: Log, data: seq<Byte>): Log {
    var l' := OpenFile(c, l);
    if l'.state == Opening then l'.(queue := l'.queue + data) else Put(l', data)
  }

  datatype Event = LogWrite(data: seq<Byte>) | Answered(mode: nat)

  /** The answer comes at most once, while the open is pending. */
  predicate Allowed(l: Log, e: Event) {
    e.Answered? ==> l.state == Opening
  }

  function Step(c: Setup, l: Log, e: Event): Log {
    match e
    case LogWrite(data) => Write(c, l, data)
    case Answered(mode) => Complete(c, l, mode)
  }

  function Run(c: Setup, l: Log, es: seq<Event>): Log
    decreases |es|
  {
    if es == [] then l else Run(c, Step(c, l, es[0]), es[1..])
  }

  predicate AllAllowed(c: Setup, l: Log, es: seq<Event>)
    decreases |es|
  {
    es == [] || (Allowed(l, es[0]) && AllAllowed(c, Step(c, l, es[0]), es[1..]))
  }

  /** All the bytes given to logwrite. */
  function Given(es: seq<Event>): seq<Byte> {
    if es == [] then [] else (if es[0].LogWrite? then es[0].data else []) + Given(es[1..])
  }

  /** Writing in pieces is writing the whole, even onto a disk that fills up on the way. */
  lemma PutInPieces(l: Log, a: seq<Byte>, b: seq<Byte>)
    ensures Put(Put(l, a), b) == Put(l, a + b)
  {
    if l.state == Open {
      var n := Min(|a|, l.room);
      if n < |a| {
        assert (a + b)[..n] == a[..n];
      } else {
        var m := Min(|b|, l.room - n);
        assert (a + b)[..|a| + m] == a + b[..m];
        Assoc(l.file, a, b[..m]);
        assert a[..|a|] == a;
      }
    }
  }

  /** Writing neither looks at the queue nor opens or closes the log. */
  lemma PutFacts(l: Log, queue: seq<Byte>, data: seq<Byte>)
    ensures Put(l.(queue := queue), data) == Put(l, data).(queue := queue)
    ensures Put(l, data).queue == l.queue && Put(l, []) == l
    ensures l.state == Open || l.state == Failed ==> Put(l, data).state == Open || Put(l, data).state == Failed
  {
  }

  // What the log holds, at every point of every run.

  /** The stream that should end up behind what was in the file when it was opened. */
  ghost predicate Holds(l: Log, before: seq<Byte>, stream: seq<Byte>, room: nat) {
    && l.file == before + stream[..Min(|stream|, room)]
    && l.room == room - Min(|stream|, room)
    && (l.state == Open <==> |stream| <= room)
  }

  /** The file is as it was, or it was opened in this mode. */
  function Before(c: Setup, mode: int): seq<Byte> {
    if mode == APPEND then c.previous else []
  }

  ghost predicate Invariant(c: Setup, room: nat, l: Log, given: seq<Byte>, mode: int) {
    && (l.state == Closed ==> (c.logtype == 0 || given == []) && l == Start(c, room) && mode == Mode(c))
    && (l.state == Opening ==>
          c.logtype != 0 && mode == Mode(c) < 0 && l == Log(Opening, given, c.previous, room))
    && (l.state == Open || l.state == Failed ==>
          && c.logtype != 0 && mode >= 0 && l.queue == []
          && (mode == CANCEL || !c.opens ==> l.state == Failed && l.file == c.previous && l.room == room)
          && (mode > CANCEL && c.opens ==> Holds(l, Before(c, mode), c.header + given, room)))
  }

  lemma CompleteHolds(c: Setup, room: nat, given: seq<Byte>, state: LogState, mode: nat)
    requires c.logtype != 0
    ensures Invariant(c, room, Complete(c, Log(state, given, c.previous, room), mode), given, mode)
  {
    if mode != CANCEL && c.opens {
      var start := Log(Open, given, Before(c, mode), room);
      PutInPieces(start, c.header, given);
    }
  }

  lemma PutHolds(l: Log, before: seq<Byte>, stream: seq<Byte>, room: nat, data: seq<Byte>)
    requires Holds(l, before, stream, room) && (l.state == Open || l.state == Failed)
    ensures Holds(Put(l, data), before, stream + data, room)
  {
    var start := Log(Open, l.queue, before, room);
    assert before + [] == before;
    if l.state == Open {
      assert stream[..|stream|] == stream;
      assert l == Put(start, stream);
      PutInPieces(start, stream, data);
    } else {
      assert (stream + data)[..room] == stream[..room];
    }
  }

  lemma WriteKeepsInvariant(c: Setup, room: nat, l: Log, given: seq<Byte>, mode: int, data: seq<Byte>)
    requires Invariant(c, room, l, given, mode)
    ensures Invariant(c, room, Write(c, l, data), given + data, mode)
  {
    var l' := OpenFile(c, l);
    if l.state == Closed && c.logtype != 0 && mode >= 0 {
      CompleteHolds(c, room, [], Closed, mode);
    }
    if l'.state == Open || l'.state == Failed {
      if mode > CANCEL && c.opens {
        PutHolds(l', Before(c, mode), c.header + given, room, data);
        Assoc(c.header, given, data);
      }
    }
  }

  /** The mode the file is opened in: the one known at first, or the answer. */
  function Resolve(mode: int, es: seq<Event>): int {
    if mode >= 0 || es == [] then mode
    else if es[0].Answered? then es[0].mode
    else Resolve(mode, es[1..])
  }

  lemma {:induction false} RunKeepsInvariant(c: Setup, room: nat, l: Log, given: seq<Byte>, mode: int, es: seq<Event>)
    requires Invariant(c, room, l, given, mode) && AllAllowed(c, l, es)
    ensures Invariant(c, room, Run(c, l, es), given + Given(es), Resolve(mode, es))
    decreases |es|
  {
    if es == [] {
      assert given + [] == given;
    } else {
      var e := es[0];
      var data := if e.LogWrite? then e.data else [];
      Assoc(given, data, Given(es[1..]));
      var mode' := if e.Answered? then e.mode else mode;
      if e.LogWrite? {
        WriteKeepsInvariant(c, room, l, given, mode, e.data);
      } else {
        CompleteHolds(c, room, given, Opening, e.mode);
        assert given + data == given;
      }
      RunKeepsInvariant(c, room, Step(c, l, e), given + data, mode', es[1..]);
    }
  }

  /**
   * Whatever happens when, the file holds what was there before, the header, and everything given to
   * logwrite, in order; or a prefix of that, and then only because the disk was full.
   */
  lemma LogIsInOrder(c: Setup, room: nat, es: seq<Event>)
    requires c.logtype != 0 && AllAllowed(c, Start(c, room), es)
    ensures var l := Run(c, Start(c, room), es);
            var mode := Resolve(Mode(c), es);
            var stream := c.header + Given(es);
            && (l.queue != [] ==> l.state == Opening)
            && (l.state == Opening ==> l.file == c.previous && l.queue == Given(es))
            && (l.state == Open ==> l.file == Before(c, mode) + stream)
            && (l.state == Failed && mode > CANCEL && c.opens ==> l.file == Before(c, mode) + stream[..Min(|stream|, room)])
            && (l.state == Failed <==> mode >= 0 && Started(es) && (mode == CANCEL || !c.opens || |stream| > room))
  {
    var l := Run(c, Start(c, room), es);
    assert [] + Given(es) == Given(es);
    RunKeepsInvariant(c, room, Start(c, room), [], Mode(c), es);
    RunStarts(c, room, es);
    assert (c.header + Given(es))[..|c.header + Given(es)|] == c.header + Given(es);
  }

  lemma {:induction false} FirstAnswerResolves(mode: int, es: seq<Event>, k: nat)
    requires mode < 0 && k <= |es| && forall i :: 0 <= i < k ==> es[i].LogWrite?
    ensures k == |es| ==> Resolve(mode, es) == mode
    ensures k < |es| && es[k].Answered? ==> Resolve(mode, es) == es[k].mode
    decreases |es|
  {
    if k > 0 {
      FirstAnswerResolves(mode, es[1..], k - 1);
    }
  }

  /** An old log stays and the text goes behind it (1), it stays as it is (0), or it is replaced. */
  function Kept(answer: nat, previous: seq<Byte>, text: seq<Byte>): seq<Byte> {
    if answer == 0 then previous else if answer == 1 then previous + text else text
  }

  /**
   * What becomes of the file. Nothing is kept where nothing would be lost, or if logs are to be
   * overwritten; the old log is kept in front if they are to be appended to; and otherwise the user
   * says, at once or at some event `k`, and until then the file is as it was.
   */
  lemma OldLogIsKeptOrNot(c: Setup, room: nat, es: seq<Event>, k: nat)
    requires c.logtype != 0 && c.opens && es != [] && AllAllowed(c, Start(c, room), es)
    requires |c.header + Given(es)| <= room
    requires k <= |es| && forall i :: 0 <= i < k ==> es[i].LogWrite?
    ensures var file, text := Run(c, Start(c, room), es).file, c.header + Given(es);
            && (!c.losesData || c.onExisting == Overwrite ==> file == text)
            && (c.losesData && c.onExisting == Append ==> file == c.previous + text)
            && (c.losesData && c.onExisting == Ask ==>
                  && (c.answer >= 0 ==> file == Kept(c.answer, c.previous, text))
                  && (c.answer < 0 && k == |es| ==> file == c.previous)
                  && (c.answer < 0 && k < |es| && es[k].Answered? ==> file == Kept(es[k].mode, c.previous, text)))
  {
    if Mode(c) < 0 {
      FirstAnswerResolves(Mode(c), es, k);
    }
    var text := c.header + Given(es);
    assert [] + text == text && text[..|text|] == text && [] + Given(es) == Given(es);
    RunStarts(c, room, es);
    RunKeepsInvariant(c, room, Start(c, room), [], Mode(c), es);
  }

  /** Has anything been written, or answered, at all? */
  predicate Started(es: seq<Event>) {
    es != []
  }

  /** The first write starts to open the file. */
  lemma RunStarts(c: Setup, room: nat, es: seq<Event>)
    requires c.logtype != 0 && AllAllowed(c, Start(c, room), es)
    ensures Run(c, Start(c, room), es).state == Closed <==> es == []
    ensures Run(c, Start(c, room), es).state == Opening <==> es != [] && Resolve(Mode(c), es) < 0
  {
    if es != [] {
      var l := Step(c, Start(c, room), es[0]);
      WriteKeepsInvariant(c, room, Start(c, room), [], Mode(c), es[0].data);
      StaysStarted(c, l, Mode(c), es[1..]);
    }
  }

  lemma {:induction false} StaysStarted(c: Setup, l: Log, mode: int, es: seq<Event>)
    requires c.logtype != 0 && l.state != Closed && AllAllowed(c, l, es)
    requires l.state == Opening <==> mode < 0
    ensures Run(c, l, es).state != Closed
    ensures Run(c, l, es).state == Opening <==> Resolve(mode, es) < 0
    decreases |es|
  {
    if es != [] {
      StaysStarted(c, Step(c, l, es[0]), if es[0].Answered? then es[0].mode else mode, es[1..]);
    }
  }

  /** When the file is opened makes no difference to what ends up in it. */
  lemma TimingDoesNotMatter(c: Setup, answer: int, room: nat, es: seq<Event>, es': seq<Event>)
    requires c.logtype != 0 && AllAllowed(c, Start(c, room), es)
    requires AllAllowed(c.(answer := answer), Start(c, room), es')
    requires Given(es) == Given(es') && es != [] && es' != []
    requires Resolve(Mode(c), es) == Resolve(Mode(c.(answer := answer)), es') >= 0
    ensures Run(c, Start(c, room), es) == Run(c.(answer := answer), Start(c, room), es')
  {
    var c' := c.(answer := answer);
    assert [] + Given(es) == Given(es);
    RunKeepsInvariant(c, room, Start(c, room), [], Mode(c), es);
    RunKeepsInvariant(c', room, Start(c', room), [], Mode(c'), es');
    RunStarts(c, room, es);
    RunStarts(c', room, es');
  }

  /** The logging context, with its queue of chunks. */
  class LogContext {
    const setup: Setup
    const queue: Chain
    var state: LogState
    var file: seq<Byte>
    var room: nat

    ghost predicate Valid()
      reads this, queue
    {
      queue.Valid() && (state == Open || state == Failed || state == Closed ==> queue.Contents() == [])
    }

    ghost function View(): Log
      reads this, queue
    {
      Log(state, queue.Contents(), file, room)
    }

    constructor (setup: Setup, room: nat)
      ensures Valid() && fresh(queue) && this.setup == setup && View() == Start(setup, room)
    {
      this.setup := setup;
      state, file, this.room := Closed, setup.previous, room;
      queue := new Chain();
    }

    /** fwrite: what the disk will still take. */
    method FWrite(data: seq<Byte>) returns (written: nat)
      modifies this`file, this`room
      ensures written == Min(|data|, old(room)) && file == old(file) + data[..written] && room == old(room) - written
    {
      written := if |data| < room then |data| else room;
      file := file + data[..written];
      room := room - written;
    }

    /** logwrite, once the file is not closed. */
    method WriteOut(data: seq<Byte>)
      requires queue.Valid() && state != Closed
      modifies this`state, this`file, this`room, queue
      ensures queue.Valid()
      ensures old(state) == Opening ==> View() == old(View()).(queue := old(queue.Contents()) + data)
      ensures old(state) != Opening ==> View() == Put(old(View()), data) && queue.chunks == old(queue.chunks)
    {
      if state == Opening {
        queue.Add(data);
      } else if state == Open {
        var n := FWrite(data);
        if n < |data| {
          LogFClose();
          state := Failed;
        }
      }
    }

    method LogFClose()
      modifies this`state
      ensures state == Closed
    {
      state := Closed;
    }

    /** What was queued while the file was opened is written out, a chunk at a time. */
    method FlushQueue()
      requires queue.Valid() && (state == Open || state == Failed)
      modifies this`state, this`file, this`room, queue
      ensures Valid() && (state == Open || state == Failed)
      ensures View() == Put(old(View()), old(queue.Contents())).(queue := [])
    {
      hide Put;
      ghost var start, queued := View(), queue.Contents();
      var size := queue.Size();
      while size > 0
        invariant queue.Valid() && size == |queue.Contents()| && (state == Open || state == Failed)
        invariant Put(View(), queue.Contents()).(queue := []) == Put(start, queued).(queue := [])
        decreases size
      {
        var data := queue.Prefix();
        ghost var rest := queue.Contents()[|data|..];
        PutInPieces(View(), data, rest);
        assert data + rest == queue.Contents();
        PutFacts(View(), rest, data);
        PutFacts(Put(View(), data), rest, rest);
        WriteOut(data);
        queue.Consume(|data|);
        size := queue.Size();
      }
      PutFacts(View(), [], []);
    }

    method LogFOpenCallback(mode: nat)
      requires queue.Valid() && (state == Closed || state == Opening)
      modifies this, queue
      ensures Valid() && View() == Complete(setup, old(View()), mode)
    {
      if mode == CANCEL || !setup.opens {
        state := Failed;
      } else {
        state := Open;
        if mode != APPEND {
          file := [];
        }
      }
      if state == Open && setup.header != [] {
        WriteOut(setup.header);
      }
      FlushQueue();
    }

    method LogFOpen()
      requires Valid()
      modifies this, queue
      ensures Valid() && View() == OpenFile(setup, old(View()))
    {
      if state != Closed || setup.logtype == 0 {
        return;
      }
      var mode := CREATE;
      if setup.losesData {
        if setup.onExisting != Ask {
          mode := if setup.onExisting == Overwrite then CREATE else APPEND;
        } else {
          mode := setup.answer;
        }
      }
      if mode < 0 {
        state := Opening;
      } else {
        LogFOpenCallback(mode);
      }
    }

    method LogWrite(data: seq<Byte>)
      requires Valid()
      modifies this, queue
      ensures Valid() && View() == Write(setup, old(View()), data)
    {
      if state == Closed {
        LogFOpen();
      }
      if state != Closed {
        WriteOut(data);
      }
    }

    /** Any run of writes and answers. */
    method Perform(es: seq<Event>)
      requires Valid() && AllAllowed(setup, View(), es)
      modifies this, queue
      ensures Valid() && View() == Run(setup, old(View()), es)
    {
      var i := 0;
      while i < |es|
        invariant 0 <= i <= |es| && Valid() && AllAllowed(setup, View(), es[i..])
        invariant Run(setup, View(), es[i..]) == Run(setup, old(View()), es)
      {
        assert es[i..][1..] == es[i + 1..];
        match es[i] {
          case LogWrite(data) => LogWrite(data);
          case Answered(mode) => LogFOpenCallback(mode);
        }
        i := i + 1;
      }
    }
  }
}
