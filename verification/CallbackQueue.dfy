/** The queue of callbacks run from the top-level event loop: what it promises over whole runs. */
module CallbackQueue {
  import opened Bytes

  /** A callback that is queued at most once at a time. */
  class IdempotentCallback {
    const fn: nat
    const ctx: object
    var queued: bool

    constructor (fn: nat, ctx: object)
      ensures this.fn == fn && this.ctx == ctx && !queued
    {
      this.fn, this.ctx, queued := fn, ctx, false;
    }
  }

  /** A function with its context; an idempotent callback is its own context. */
  datatype Callback = Plain(fn: nat, ctx: object) | Idempotent(ic: IdempotentCallback)

  /** Is it one that delete_callbacks_for_context(x) removes? */
  predicate Concerns(cb: Callback, x: object) {
    match cb
    case Plain(_, ctx) => ctx == x
    case Idempotent(ic) => ic == x || ic.ctx == x
  }

  /** A queued callback and its place among all that were ever queued. */
  datatype Item = Item(id: nat, cb: Callback)

  function Kept(q: seq<Item>, x: object): (k: seq<Item>)
    ensures |k| <= |q|
    ensures forall i :: 0 <= i < |k| ==> k[i] in q && !Concerns(k[i].cb, x)
    ensures forall i :: 0 <= i < |q| && !Concerns(q[i].cb, x) ==> q[i] in k
  {
    if q == [] then []
    else Kept(q[..|q| - 1], x) + if Concerns(q[|q| - 1].cb, x) then [] else [q[|q| - 1]]
  }

  /**
   * The queue, the callback being run, the callbacks whose `queued` flag is set, and what happened
   * so far: what was started, what was deleted, how many were queued, and the notifications sent.
   * `stuck` holds the idempotent callbacks whose entry was deleted.
   */
  datatype State = State(queue: seq<Item>, running: Option<Item>, flagged: set<IdempotentCallback>,
                         notify: bool, notified: nat,
                         ran: seq<Item>, deleted: set<nat>, next: nat, stuck: set<IdempotentCallback>)
  {
    /** toplevel_callback_pending. */
    predicate Pending() {
      running.Some? || queue != []
    }

    ghost predicate Waiting(ic: IdempotentCallback) {
      exists i :: 0 <= i < |queue| && queue[i].cb == Idempotent(ic)
    }
  }

  const START := State([], None, {}, false, 0, [], {}, 0, {})

  datatype Event =
    | RequestNotifications(on: bool)
    | Queue(fn: nat, ctx: object)
    | QueueIdempotent(ic: IdempotentCallback)
    | Delete(ctx: object)
    | Begin
    | End

  function Ids(q: seq<Item>): set<nat> {
    set i | 0 <= i < |q| :: q[i].id
  }

  function Append(s: State, cb: Callback): State {
    s.(queue := s.queue + [Item(s.next, cb)], next := s.next + 1,
       notified := s.notified + if s.notify && !s.Pending() then 1 else 0)
  }

  /** The idempotent callbacks among the entries that are deleted. */
  function Orphaned(q: seq<Item>, x: object): set<IdempotentCallback> {
    set i | 0 <= i < |q| && q[i].cb.Idempotent? && Concerns(q[i].cb, x) :: q[i].cb.ic
  }

  function Step(s: State, e: Event): State {
    match e
    case RequestNotifications(on) => s.(notify := on)
    case Queue(fn, ctx) => Append(s, Plain(fn, ctx))
    case QueueIdempotent(ic) =>
      if ic in s.flagged then s else Append(s.(flagged := s.flagged + {ic}), Idempotent(ic))
    case Delete(x) =>
      s.(queue := Kept(s.queue, x), deleted := s.deleted + (Ids(s.queue) - Ids(Kept(s.queue, x))),
         stuck := s.stuck + Orphaned(s.queue, x))
    case Begin =>
      if s.queue == [] then s
      else
        var item := s.queue[0];
        s.(queue := s.queue[1..], running := Some(item), ran := s.ran + [item],
           flagged := if item.cb.Idempotent? then s.flagged - {item.cb.ic} else s.flagged)
    case End => s.(running := None)
  }

  /** Callbacks may queue and delete, but not run other callbacks. */
  predicate Allowed(s: State, e: Event) {
    (e.Begin? ==> s.running.None?) && (e.End? ==> s.running.Some?)
  }

  function Run(s: State, es: seq<Event>): State
    decreases |es|
  {
    if es == [] then s else Run(Step(s, es[0]), es[1..])
  }

  predicate AllAllowed(s: State, es: seq<Event>)
    decreases |es|
  {
    es == [] || (Allowed(s, es[0]) && AllAllowed(Step(s, es[0]), es[1..]))
  }

  // What holds in every reachable state.

  function Below(n: nat): (r: set<nat>)
    ensures forall k: nat :: k in r <==> k < n
  {
    if n == 0 then {} else Below(n - 1) + {n - 1}
  }

  ghost predicate Increasing(q: seq<Item>) {
    forall i, j :: 0 <= i < j < |q| ==> q[i].id < q[j].id
  }

  /** What ran and what waits are in the order of queueing; nothing else happened but deletion. */
  ghost predicate InOrder(s: State) {
    && Increasing(s.ran + s.queue)
    && Ids(s.ran + s.queue) !! s.deleted
    && Ids(s.ran + s.queue) + s.deleted == Below(s.next)
    && (s.running.Some? ==> s.ran != [] && s.running.value == s.ran[|s.ran| - 1])
  }

  ghost predicate Unique(q: seq<Item>) {
    forall i, j :: 0 <= i < j < |q| && q[i].cb.Idempotent? ==> q[i].cb != q[j].cb
  }

  /** An idempotent callback waits at most once, and its flag is set while it waits or if it is stuck. */
  ghost predicate FlagsRight(s: State) {
    && Unique(s.queue)
    && (forall i :: 0 <= i < |s.queue| && s.queue[i].cb.Idempotent? ==>
          s.queue[i].cb.ic in s.flagged && s.queue[i].cb.ic !in s.stuck)
    && (forall ic :: ic in s.flagged ==> ic in s.stuck || s.Waiting(ic))
    && s.stuck <= s.flagged
  }

  lemma IncreasingSnoc(q: seq<Item>, last: Item)
    requires Increasing(q + [last])
    ensures Increasing(q) && forall it :: it in q ==> it.id < last.id
  {
    assert (q + [last])[|q|] == last;
    forall i | 0 <= i < |q|
      ensures (q + [last])[i] == q[i] && q[i].id < last.id
    {
    }
  }

  lemma SnocIncreasing(q: seq<Item>, last: Item)
    requires Increasing(q) && forall it :: it in q ==> it.id < last.id
    ensures Increasing(q + [last])
  {
  }

  lemma {:induction false} KeptIncreasing(ran: seq<Item>, q: seq<Item>, x: object)
    requires Increasing(ran + q)
    ensures Increasing(ran + Kept(q, x))
    decreases |q|
  {
    if q != [] {
      var p, last := q[..|q| - 1], q[|q| - 1];
      assert ran + q == (ran + p) + [last];
      IncreasingSnoc(ran + p, last);
      KeptIncreasing(ran, p, x);
      KeptSnoc(q, x);
      if !Concerns(last.cb, x) {
        assert ran + Kept(q, x) == (ran + Kept(p, x)) + [last];
        forall it | it in ran + Kept(p, x)
          ensures it in ran + p
        {
        }
        SnocIncreasing(ran + Kept(p, x), last);
      }
    }
  }

  lemma IdsOfSum(a: seq<Item>, b: seq<Item>)
    ensures Ids(a + b) == Ids(a) + Ids(b)
  {
    forall i | 0 <= i < |b|
      ensures b[i].id in Ids(a + b)
    {
      assert (a + b)[|a| + i] == b[i];
    }
    forall i | 0 <= i < |a|
      ensures a[i].id in Ids(a + b)
    {
      assert (a + b)[i] == a[i];
    }
  }

  lemma IdsOfOne(it: Item)
    ensures Ids([it]) == {it.id}
  {
    assert [it][0] == it;
  }

  lemma IdsOfKept(q: seq<Item>, x: object)
    ensures Ids(Kept(q, x)) <= Ids(q)
  {
  }

  lemma AppendInOrder(s: State, cb: Callback)
    requires InOrder(s)
    ensures InOrder(Append(s, cb))
  {
    var it := Item(s.next, cb);
    var all := s.ran + s.queue;
    assert s.ran + (s.queue + [it]) == all + [it];
    IdsOfSum(all, [it]);
    IdsOfOne(it);
    forall it | it in all
      ensures it.id < s.next
    {
      assert it.id in Below(s.next);
    }
    SnocIncreasing(all, it);
    assert Below(s.next + 1) == Below(s.next) + {s.next};
    assert s.next !in Below(s.next);
  }

  lemma StepInOrder(s: State, e: Event)
    requires InOrder(s) && Allowed(s, e)
    ensures InOrder(Step(s, e))
  {
    match e {
      case Queue(fn, ctx) => AppendInOrder(s, Plain(fn, ctx));
      case QueueIdempotent(ic) =>
        if ic !in s.flagged {
          AppendInOrder(s.(flagged := s.flagged + {ic}), Idempotent(ic));
        }
      case Delete(x) =>
        KeptIncreasing(s.ran, s.queue, x);
        IdsOfSum(s.ran, s.queue);
        IdsOfSum(s.ran, Kept(s.queue, x));
        IdsOfKept(s.queue, x);
        DisjointIds(s.ran, s.queue);
        Repartition(Ids(s.ran), Ids(s.queue), Ids(Kept(s.queue, x)), s.deleted);
      case Begin =>
        if s.queue != [] {
          assert s.ran + [s.queue[0]] + s.queue[1..] == s.ran + s.queue;
        }
      case _ =>
    }
  }

  lemma DisjointIds(a: seq<Item>, b: seq<Item>)
    requires Increasing(a + b)
    ensures Ids(a) !! Ids(b)
  {
    forall i, j | 0 <= i < |a| && 0 <= j < |b|
      ensures a[i].id < b[j].id
    {
      assert (a + b)[i] == a[i] && (a + b)[|a| + j] == b[j];
    }
  }

  lemma Repartition(a: set<nat>, b: set<nat>, kept: set<nat>, deleted: set<nat>)
    requires kept <= b && a !! b && a + b !! deleted
    ensures a + kept !! deleted + (b - kept)
    ensures (a + kept) + (deleted + (b - kept)) == (a + b) + deleted
  {
  }

  lemma AppendFlagsRight(s: State, cb: Callback)
    requires FlagsRight(s) && cb.Plain?
    ensures FlagsRight(Append(s, cb))
  {
    var t := Append(s, cb);
    forall ic | s.Waiting(ic)
      ensures t.Waiting(ic)
    {
      var i :| 0 <= i < |s.queue| && s.queue[i].cb == Idempotent(ic);
      assert t.queue[i] == s.queue[i];
    }
  }

  lemma AppendIdempotentFlagsRight(s: State, ic: IdempotentCallback)
    requires FlagsRight(s) && ic !in s.flagged
    ensures FlagsRight(Append(s.(flagged := s.flagged + {ic}), Idempotent(ic)))
  {
    var t := Append(s.(flagged := s.flagged + {ic}), Idempotent(ic));
    assert t.queue[|s.queue|].cb == Idempotent(ic);
    forall ic' | ic' in t.flagged
      ensures ic' in t.stuck || t.Waiting(ic')
    {
      if ic' != ic && ic' !in t.stuck {
        var i :| 0 <= i < |s.queue| && s.queue[i].cb == Idempotent(ic');
        assert t.queue[i] == s.queue[i];
      }
    }
  }

  lemma {:induction false} KeptUnique(q: seq<Item>, x: object)
    requires Unique(q)
    ensures Unique(Kept(q, x))
    decreases |q|
  {
    if q != [] {
      var p, last := q[..|q| - 1], q[|q| - 1];
      KeptUnique(p, x);
      var k := Kept(p, x);
      forall i | 0 <= i < |k| && k[i].cb.Idempotent?
        ensures k[i].cb != last.cb
      {
        var j :| 0 <= j < |p| && p[j] == k[i];
        assert q[j] == p[j];
      }
      hide Kept;
      UniqueSnoc(k, last);
      KeptSnoc(q, x);
    }
  }

  lemma UniqueSnoc(k: seq<Item>, last: Item)
    requires Unique(k) && forall i :: 0 <= i < |k| && k[i].cb.Idempotent? ==> k[i].cb != last.cb
    ensures Unique(k + [last])
  {
  }

  lemma KeptSnoc(q: seq<Item>, x: object)
    requires q != []
    ensures var k := Kept(q[..|q| - 1], x);
            Kept(q, x) == if Concerns(q[|q| - 1].cb, x) then k else k + [q[|q| - 1]]
  {
    var k := Kept(q[..|q| - 1], x);
    assert k + [] == k;
  }

  lemma KeptFrom(q: seq<Item>, x: object, i: nat) returns (j: nat)
    requires i < |Kept(q, x)|
    ensures j < |q| && q[j] == Kept(q, x)[i] && !Concerns(q[j].cb, x)
  {
    j :| 0 <= j < |q| && q[j] == Kept(q, x)[i];
  }

  lemma KeptAt(q: seq<Item>, x: object, j: nat) returns (i: nat)
    requires j < |q| && !Concerns(q[j].cb, x)
    ensures i < |Kept(q, x)| && Kept(q, x)[i] == q[j]
  {
    i :| 0 <= i < |Kept(q, x)| && Kept(q, x)[i] == q[j];
  }

  lemma OrphanedIs(q: seq<Item>, x: object, ic: IdempotentCallback)
    ensures ic in Orphaned(q, x) <==>
              Concerns(Idempotent(ic), x) && exists i :: 0 <= i < |q| && q[i].cb == Idempotent(ic)
  {
    if Concerns(Idempotent(ic), x) && exists i :: 0 <= i < |q| && q[i].cb == Idempotent(ic) {
      var i :| 0 <= i < |q| && q[i].cb == Idempotent(ic);
      assert q[i].cb.ic in Orphaned(q, x);
    }
  }

  lemma DeleteFlagsRight(s: State, x: object)
    requires FlagsRight(s)
    ensures FlagsRight(Step(s, Delete(x)))
  {
    var t := Step(s, Delete(x));
    var q := s.queue;
    KeptUnique(q, x);
    hide Kept, Concerns, Orphaned, Unique;
    forall i | 0 <= i < |t.queue| && t.queue[i].cb.Idempotent?
      ensures t.queue[i].cb.ic in t.flagged && t.queue[i].cb.ic !in t.stuck
    {
      var j := KeptFrom(q, x, i);
      OrphanedIs(q, x, q[j].cb.ic);
    }
    forall ic | ic in t.flagged && ic !in t.stuck
      ensures t.Waiting(ic)
    {
      var j :| 0 <= j < |q| && q[j].cb == Idempotent(ic);
      OrphanedIs(q, x, ic);
      var i := KeptAt(q, x, j);
    }
    forall ic | ic in t.stuck
      ensures ic in t.flagged
    {
      OrphanedIs(q, x, ic);
    }
  }

  lemma BeginFlagsRight(s: State)
    requires FlagsRight(s) && s.queue != []
    ensures FlagsRight(Step(s, Begin))
  {
    var t := Step(s, Begin);
    var head := s.queue[0].cb;
    forall i | 0 <= i < |t.queue| && t.queue[i].cb.Idempotent?
      ensures t.queue[i].cb.ic in t.flagged && t.queue[i].cb.ic !in t.stuck
    {
      assert t.queue[i] == s.queue[i + 1];
    }
    forall ic | ic in t.flagged && ic !in t.stuck
      ensures t.Waiting(ic)
    {
      var i :| 0 <= i < |s.queue| && s.queue[i].cb == Idempotent(ic);
      assert i > 0 && t.queue[i - 1] == s.queue[i];
    }
    assert s.stuck <= t.flagged;
  }

  lemma StepFlagsRight(s: State, e: Event)
    requires FlagsRight(s) && Allowed(s, e)
    ensures FlagsRight(Step(s, e))
  {
    match e {
      case Queue(fn, ctx) => AppendFlagsRight(s, Plain(fn, ctx));
      case QueueIdempotent(ic) =>
        if ic !in s.flagged {
          AppendIdempotentFlagsRight(s, ic);
        }
      case Delete(x) => DeleteFlagsRight(s, x);
      case Begin =>
        if s.queue != [] {
          BeginFlagsRight(s);
        }
      case _ =>
        assert forall ic :: s.Waiting(ic) ==> Step(s, e).Waiting(ic);
    }
  }

  /** Every reachable state is as it should be. */
  lemma {:induction false} RunKeepsInvariant(s: State, es: seq<Event>)
    requires InOrder(s) && FlagsRight(s) && AllAllowed(s, es)
    ensures InOrder(Run(s, es)) && FlagsRight(Run(s, es))
    decreases |es|
  {
    if es != [] {
      StepInOrder(s, es[0]);
      StepFlagsRight(s, es[0]);
      RunKeepsInvariant(Step(s, es[0]), es[1..]);
    }
  }

  lemma StartIsRight()
    ensures InOrder(START) && FlagsRight(START)
  {
    assert Ids([]) == {} == Below(0);
  }

  // What follows, for whole runs from the start.

  /** How often an id occurs. */
  function Count(q: seq<Item>, id: nat): nat {
    if q == [] then 0 else Count(q[..|q| - 1], id) + if q[|q| - 1].id == id then 1 else 0
  }

  lemma {:induction false} CountIncreasing(q: seq<Item>, id: nat)
    requires Increasing(q)
    ensures Count(q, id) == if id in Ids(q) then 1 else 0
    decreases |q|
  {
    if q == [] {
    } else {
      var p, last := q[..|q| - 1], q[|q| - 1];
      assert q == p + [last];
      IncreasingSnoc(p, last);
      CountIncreasing(p, id);
      IdsOfSum(p, [last]);
      IdsOfOne(last);
    }
  }

  /** Whatever has been queued and not deleted is run once, or is waiting to be; in the order of queueing. */
  lemma EachRunsOnce(es: seq<Event>, id: nat)
    requires AllAllowed(START, es)
    ensures var s := Run(START, es);
            && Increasing(s.ran + s.queue)
            && (id < s.next && id !in s.deleted ==> Count(s.ran + s.queue, id) == 1)
            && (id >= s.next || id in s.deleted ==> Count(s.ran + s.queue, id) == 0)
  {
    StartIsRight();
    RunKeepsInvariant(START, es);
    var s := Run(START, es);
    CountIncreasing(s.ran + s.queue, id);
    assert id in Below(s.next) <==> id < s.next;
  }

  /** An idempotent callback never waits twice. */
  lemma WaitsOnce(es: seq<Event>, i: nat, j: nat)
    requires AllAllowed(START, es)
    requires i < |Run(START, es).queue| && j < |Run(START, es).queue|
    requires Run(START, es).queue[i].cb == Run(START, es).queue[j].cb
    requires Run(START, es).queue[i].cb.Idempotent?
    ensures i == j && Run(START, es).queue[i].cb.ic in Run(START, es).flagged
  {
    StartIsRight();
    RunKeepsInvariant(START, es);
  }

  /**
   * Asking for an idempotent callback is honoured, in that it then waits in the queue, exactly if no
   * entry of it was ever deleted.
   */
  lemma HonouredIffNotStuck(es: seq<Event>, ic: IdempotentCallback)
    requires AllAllowed(START, es)
    ensures var s := Run(START, es);
            Step(s, QueueIdempotent(ic)).Waiting(ic) <==> ic !in s.stuck
  {
    StartIsRight();
    RunKeepsInvariant(START, es);
    var s := Run(START, es);
    var t := Step(s, QueueIdempotent(ic));
    if ic !in s.flagged {
      assert t.queue[|s.queue|].cb == Idempotent(ic);
    }
  }

  /** A deleted entry leaves the flag set for good: the callback never runs again. */
  lemma {:induction false} StuckForGood(s: State, es: seq<Event>, ic: IdempotentCallback)
    requires InOrder(s) && FlagsRight(s) && ic in s.stuck && AllAllowed(s, es)
    ensures ic in Run(s, es).stuck && !Run(s, es).Waiting(ic)
    ensures |Run(s, es).ran| >= |s.ran|
    ensures forall i :: |s.ran| <= i < |Run(s, es).ran| ==> Run(s, es).ran[i].cb != Idempotent(ic)
    decreases |es|
  {
    if es != [] {
      var t := Step(s, es[0]);
      StepInOrder(s, es[0]);
      StepFlagsRight(s, es[0]);
      StuckForGood(t, es[1..], ic);
      RanGrows(t, es[1..]);
      assert t.ran == s.ran || (t.ran == s.ran + [s.queue[0]] && s.queue[0].cb != Idempotent(ic));
    }
  }

  lemma {:induction false} RanGrows(s: State, es: seq<Event>)
    ensures s.ran <= Run(s, es).ran
    decreases |es|
  {
    if es != [] {
      RanGrows(Step(s, es[0]), es[1..]);
    }
  }

  lemma RunStep(s: State, e: Event, es: seq<Event>)
    ensures Run(s, [e] + es) == Run(Step(s, e), es)
    ensures AllAllowed(s, [e] + es) <==> Allowed(s, e) && AllAllowed(Step(s, e), es)
  {
    assert ([e] + es)[1..] == es;
  }

  /** One such run: queue it, delete it, and ask for it again. */
  lemma DeletedCallbackIsLost(ic: IdempotentCallback)
    ensures var es := [QueueIdempotent(ic), Delete(ic.ctx), QueueIdempotent(ic)];
            AllAllowed(START, es) && Run(START, es).queue == [] && ic in Run(START, es).flagged
  {
    var e1, e2 := QueueIdempotent(ic), Delete(ic.ctx);
    var s1 := Step(START, e1);
    var s2 := Step(s1, e2);
    assert s1.queue == [Item(0, Idempotent(ic))];
    KeptSnoc(s1.queue, ic.ctx);
    assert s1.queue[..0] == [] && Kept([], ic.ctx) == [];
    assert Step(s2, e1) == s2;
    RunStep(START, e1, [e2, e1]);
    RunStep(s1, e2, [e1]);
    RunStep(s2, e1, []);
    assert [e1] + [e2, e1] == [e1, e2, e1] && [e2] + [e1] == [e2, e1] && [e1] + [] == [e1];
  }

  /** Running what waits, with nothing new queued. */
  function Drain(n: nat): seq<Event> {
    if n == 0 then [] else [Begin, End] + Drain(n - 1)
  }

  /** As many turns as there are entries run them all, first come first served. */
  lemma {:induction false} DrainRunsAll(s: State)
    requires s.running.None?
    ensures AllAllowed(s, Drain(|s.queue|))
    ensures Run(s, Drain(|s.queue|)).queue == [] && Run(s, Drain(|s.queue|)).ran == s.ran + s.queue
    decreases |s.queue|
  {
    if s.queue == [] {
      assert s.ran + [] == s.ran;
    } else {
      var s1 := Step(s, Begin);
      var s2 := Step(s1, End);
      DrainRunsAll(s2);
      var rest := Drain(|s.queue| - 1);
      assert ([Begin, End] + rest)[1..] == [End] + rest && ([End] + rest)[1..] == rest;
      assert s.ran + s.queue == s2.ran + s2.queue;
    }
  }

  lemma {:induction false} RunSnoc(s: State, es: seq<Event>, e: Event)
    ensures Run(s, es + [e]) == Step(Run(s, es), e)
    decreases |es|
  {
    if es == [] {
      assert [] + [e] == [e] && [e][1..] == [];
    } else {
      RunSnoc(Step(s, es[0]), es[1..], e);
      assert (es + [e])[1..] == es[1..] + [e];
    }
  }

  /** At event `i` of a run the queue goes from empty and idle to not empty, while the front end wants to know. */
  predicate TurnsBusy(s: State, es: seq<Event>, i: nat)
    requires i < |es|
  {
    Run(s, es[..i]).notify && !Run(s, es[..i]).Pending() && Run(s, es[..i + 1]).Pending()
  }

  function BusyTurns(s: State, es: seq<Event>): set<nat> {
    set i: nat | i < |es| && TurnsBusy(s, es, i)
  }

  lemma BusyTurnsSnoc(s: State, es: seq<Event>, e: Event)
    ensures BusyTurns(s, es + [e]) == BusyTurns(s, es) + if TurnsBusy(s, es + [e], |es|) then {|es|} else {}
  {
    var all := es + [e];
    forall i: nat | i < |es|
      ensures TurnsBusy(s, all, i) <==> TurnsBusy(s, es, i)
    {
      assert all[..i] == es[..i] && all[..i + 1] == es[..i + 1];
    }
  }

  lemma StepNotifies(s: State, e: Event)
    ensures Step(s, e).notified == s.notified + if s.notify && !s.Pending() && Step(s, e).Pending() then 1 else 0
  {
  }

  /** Over a whole run the front end is told as often as the queue goes from empty and idle to not empty. */
  lemma {:induction false} NotifiedWhenBusy(s: State, es: seq<Event>)
    ensures Run(s, es).notified == s.notified + |BusyTurns(s, es)|
    decreases |es|
  {
    if es == [] {
      assert BusyTurns(s, es) == {};
    } else {
      var p, e := es[..|es| - 1], es[|es| - 1];
      assert es == p + [e] && es[..|p|] == p && es[..|p| + 1] == es;
      NotifiedWhenBusy(s, p);
      RunSnoc(s, p, e);
      BusyTurnsSnoc(s, p, e);
      StepNotifies(Run(s, p), e);
      hide Run, Step, State.Pending;
      assert |p| !in BusyTurns(s, p);
    }
  }

  /** A run of the events from number `i` on. */
  lemma RunFrom(s: State, es: seq<Event>, i: nat)
    requires i <= |es| && AllAllowed(s, es[i..])
    ensures i == |es| ==> Run(s, es[i..]) == s
    ensures i < |es| ==>
              && Allowed(s, es[i]) && (es[i].QueueIdempotent? ==> es[i].ic in Asked(es))
              && AllAllowed(Step(s, es[i]), es[i + 1..]) && Run(s, es[i..]) == Run(Step(s, es[i]), es[i + 1..])
  {
    hide Step, Allowed;
    if i < |es| {
      assert es[i..][0] == es[i] && es[i..][1..] == es[i + 1..];
    }
  }

  /** The idempotent callbacks that a run asks for. */
  ghost function Asked(es: seq<Event>): set<IdempotentCallback> {
    set i | 0 <= i < |es| && es[i].QueueIdempotent? :: es[i].ic
  }

  // The list itself.

  class Node {
    var next: Node?
    const cb: Callback

    constructor (cb: Callback)
      ensures this.cb == cb && next == null
    {
      this.cb, next := cb, null;
    }
  }

  function KeptNodes(nodes: seq<Node>, x: object): (k: seq<Node>)
    ensures |k| <= |nodes|
    ensures forall n :: n in k ==> n in nodes
  {
    if nodes == [] then []
    else
      var k, last := KeptNodes(nodes[..|nodes| - 1], x), nodes[|nodes| - 1];
      if Concerns(last.cb, x) then k else k + [last]
  }

  ghost predicate Distinct(nodes: seq<Node>) {
    forall i, j :: 0 <= i < j < |nodes| ==> nodes[i] != nodes[j]
  }

  lemma KeptNodesNext(done: seq<Node>, rest: seq<Node>, x: object)
    requires rest != []
    ensures done + rest == (done + [rest[0]]) + rest[1..]
    ensures KeptNodes(done + [rest[0]], x) == KeptNodes(done, x) + if Concerns(rest[0].cb, x) then [] else [rest[0]]
  {
    assert (done + [rest[0]])[..|done|] == done;
    var kept := KeptNodes(done, x);
    assert kept + [] == kept;
  }

  lemma KeptNodesAreIn(nodes: seq<Node>, x: object)
    ensures forall n :: n in KeptNodes(nodes, x) ==> n in nodes
  {
  }

  lemma LastKeptIsIn(done: seq<Node>, rest: seq<Node>, x: object)
    ensures var k := KeptNodes(done, x);
            k != [] ==> k[|k| - 1] in done + rest
  {
  }

  lemma DistinctParts(kept: seq<Node>, rest: seq<Node>)
    requires Distinct(kept + rest) && rest != []
    ensures Distinct(kept + rest[1..]) && kept + rest == (kept + [rest[0]]) + rest[1..]
  {
    var all := kept + rest;
    var less := kept + rest[1..];
    forall i, j | 0 <= i < j < |less|
      ensures less[i] != less[j]
    {
      assert less[i] == all[if i < |kept| then i else i + 1];
      assert less[j] == all[if j < |kept| then j else j + 1];
    }
  }

  ghost predicate Matches(nodes: seq<Node>, q: seq<Item>) {
    |nodes| == |q| && forall i :: 0 <= i < |q| ==> nodes[i].cb == q[i].cb
  }

  /** The same nodes stay, whether they are seen in the list or in the queue. */
  lemma {:induction false} KeptNodesMatch(nodes: seq<Node>, q: seq<Item>, x: object)
    requires Matches(nodes, q)
    ensures Matches(KeptNodes(nodes, x), Kept(q, x))
    decreases |q|
  {
    if q != [] {
      KeptNodesMatch(nodes[..|q| - 1], q[..|q| - 1], x);
      KeptSnoc(q, x);
    }
  }

  /** The idempotent callbacks in the queue are among these. */
  ghost predicate Known(q: seq<Item>, ics: set<IdempotentCallback>) {
    forall i :: 0 <= i < |q| && q[i].cb.Idempotent? ==> q[i].cb.ic in ics
  }

  lemma KeptKnown(q: seq<Item>, x: object, ics: set<IdempotentCallback>)
    requires Known(q, ics)
    ensures Known(Kept(q, x), ics)
  {
    forall i | 0 <= i < |Kept(q, x)| && Kept(q, x)[i].cb.Idempotent?
      ensures Kept(q, x)[i].cb.ic in ics
    {
      var j := KeptFrom(q, x, i);
    }
  }

  ghost predicate FlagsMatch(ics: set<IdempotentCallback>, flagged: set<IdempotentCallback>)
    reads ics
  {
    flagged <= ics && forall ic :: ic in ics ==> (ic.queued <==> ic in flagged)
  }

  /** Each node points to the next. */
  ghost predicate Chained(nodes: seq<Node>)
    reads nodes
  {
    forall i, j :: 0 <= i < j < |nodes| && j == i + 1 ==> nodes[i].next == nodes[j]
  }

  lemma ChainedRest(nodes: seq<Node>)
    requires Chained(nodes) && nodes != [] && nodes[|nodes| - 1].next == null
    ensures Chained(nodes[1..]) && nodes[0].next == if |nodes| == 1 then null else nodes[1..][0]
  {
  }

  /** Ends the chain. */
  method EndChain(last: Node, ghost kept: seq<Node>)
    requires kept != [] && kept[|kept| - 1] == last && Chained(kept) && Distinct(kept)
    modifies last
    ensures Chained(kept) && last.next == null
  {
    last.next := null;
  }

  ghost predicate First(node: Node?, nodes: seq<Node>) {
    node == if nodes == [] then null else nodes[0]
  }

  ghost predicate Last(node: Node?, nodes: seq<Node>) {
    node == if nodes == [] then null else nodes[|nodes| - 1]
  }

  /** A list cut in two: each part is linked, and the second one ends. */
  ghost predicate Cut(kept: seq<Node>, rest: seq<Node>)
    reads kept, rest
  {
    && Distinct(kept + rest) && Chained(kept) && Chained(rest)
    && (rest != [] ==> rest[|rest| - 1].next == null)
  }

  lemma CutNext(kept: seq<Node>, rest: seq<Node>)
    requires Cut(kept, rest) && rest != []
    ensures First(rest[0].next, rest[1..]) && Cut(kept, rest[1..])
    ensures Distinct(kept + [rest[0]] + rest[1..])
  {
    DistinctParts(kept, rest);
    ChainedRest(rest);
  }

  lemma WholeList(nodes: seq<Node>)
    requires Distinct(nodes) && Chained(nodes) && (nodes != [] ==> nodes[|nodes| - 1].next == null)
    ensures [] + nodes == nodes && Cut([], nodes)
  {
    assert [] + nodes == nodes;
  }

  lemma CutDone(kept: seq<Node>)
    requires Cut(kept, [])
    ensures Distinct(kept) && Chained(kept)
  {
    assert kept + [] == kept;
  }

  /** Puts a node behind those kept so far. */
  method Keep(newhead: Node?, newtail: Node?, cb: Node, ghost kept: seq<Node>, ghost rest: seq<Node>)
    returns (head: Node?)
    requires Cut(kept, rest) && Distinct(kept + [cb] + rest) && First(newhead, kept) && Last(newtail, kept)
    modifies if newtail == null then {} else {newtail}
    ensures Cut(kept + [cb], rest) && First(head, kept + [cb])
  {
    ghost var all := kept + [cb] + rest;
    if newhead == null {
      head := cb;
    } else {
      head := newhead;
      forall i | 0 <= i < |rest|
        ensures rest[i] != newtail
      {
        assert all[|kept| - 1] == newtail && all[|kept| + 1 + i] == rest[i];
      }
      forall i | 0 <= i < |kept| - 1
        ensures kept[i] != newtail
      {
        assert all[|kept| - 1] == newtail && all[i] == kept[i];
      }
      newtail.next := cb;
    }
  }

  /** The loop below, between two turns. */
  ghost predicate Linking(ctx: object, done: seq<Node>, rest: seq<Node>, head: Node?, newhead: Node?, newtail: Node?)
    reads KeptNodes(done, ctx), rest
  {
    var kept := KeptNodes(done, ctx);
    Cut(kept, rest) && First(head, rest) && First(newhead, kept) && Last(newtail, kept)
  }

  /** One turn: the node at the head goes behind those kept so far, or is dropped. */
  method LinkNext(ctx: object, cb: Node, newhead: Node?, newtail: Node?, ghost done: seq<Node>, ghost rest: seq<Node>)
    returns (head: Node?, newhead': Node?, newtail': Node?)
    requires rest != [] && Linking(ctx, done, rest, cb, newhead, newtail)
    modifies if newtail == null then {} else {newtail}
    ensures Linking(ctx, done + [cb], rest[1..], head, newhead', newtail')
  {
    ghost var kept := KeptNodes(done, ctx);
    KeptNodesNext(done, rest, ctx);
    CutNext(kept, rest);
    hide Distinct, Chained, KeptNodes, Concerns, Cut;
    head := cb.next;
    newhead', newtail' := newhead, newtail;
    if !Concerns(cb.cb, ctx) {
      newhead' := Keep(newhead, newtail, cb, kept, rest[1..]);
      newtail' := cb;
    }
  }

  /** The loop of delete_callbacks_for_context: the nodes that stay are linked up again in place. */
  method LinkKept(cbhead: Node?, ctx: object, ghost nodes: seq<Node>) returns (newhead: Node?, newtail: Node?)
    requires Distinct(nodes) && Chained(nodes) && First(cbhead, nodes)
    requires nodes != [] ==> nodes[|nodes| - 1].next == null
    modifies nodes
    ensures var kept := KeptNodes(nodes, ctx);
            Distinct(kept) && Chained(kept) && First(newhead, kept) && Last(newtail, kept)
  {
    assert KeptNodes([], ctx) == [];
    newhead, newtail := null, null;
    var head: Node? := cbhead;
    ghost var done: seq<Node>, rest: seq<Node> := [], nodes;
    WholeList(nodes);
    assert Linking(ctx, done, rest, head, newhead, newtail);
    hide *;
    while head != null
      invariant done + rest == nodes && Linking(ctx, done, rest, head, newhead, newtail)
      decreases |rest|
    {
      StillLinking(ctx, done, rest, head, newhead, newtail);
      KeptNodesNext(done, rest, ctx);
      head, newhead, newtail := LinkNext(ctx, head, newhead, newtail, done, rest);
      done, rest := done + [rest[0]], rest[1..];
    }
    DoneLinking(ctx, done, rest, newhead, newtail);
  }

  lemma StillLinking(ctx: object, done: seq<Node>, rest: seq<Node>, head: Node, newhead: Node?, newtail: Node?)
    requires Linking(ctx, done, rest, head, newhead, newtail)
    ensures rest != [] && head == rest[0] && (newtail != null ==> newtail in done + rest)
  {
    LastKeptIsIn(done, rest, ctx);
    hide KeptNodes, Cut;
  }

  lemma DoneLinking(ctx: object, done: seq<Node>, rest: seq<Node>, newhead: Node?, newtail: Node?)
    requires Linking(ctx, done, rest, null, newhead, newtail)
    ensures done + rest == done
    ensures var kept := KeptNodes(done, ctx);
            Distinct(kept) && Chained(kept) && First(newhead, kept) && Last(newtail, kept)
  {
    hide KeptNodes, Cut;
    assert rest == [] && done + [] == done;
    CutDone(KeptNodes(done, ctx));
  }

  /** The list of callbacks, its head and tail, and the one being run. */
  class Callbacks {
    var cbcurr: Node?
    var cbhead: Node?
    var cbtail: Node?
    var notifyFrontend: bool
    var notified: nat

    // The nodes from head to tail, the idempotent callbacks met so far, and the state they stand for.
    ghost var spine: seq<Node>
    ghost var ics: set<IdempotentCallback>
    ghost var state: State

    /** Distinct nodes, linked from head to tail. */
    ghost predicate ListValid()
      reads this, spine
    {
      && Distinct(spine) && Chained(spine)
      && (spine != [] ==> spine[|spine| - 1].next == null)
      && First(cbhead, spine) && Last(cbtail, spine)
      && (cbcurr != null ==> cbcurr !in spine)
    }

    /** The list holds the queue of the state, and the flags are those of the state. */
    ghost predicate Represents()
      reads this, ics
    {
      && Matches(spine, state.queue) && Known(state.queue, ics) && FlagsMatch(ics, state.flagged)
      && (cbcurr == null <==> state.running.None?)
      && (cbcurr != null ==> cbcurr.cb == state.running.value.cb)
      && notifyFrontend == state.notify && notified == state.notified
    }

    ghost predicate Valid()
      reads this, spine, ics
    {
      ListValid() && Represents()
    }

    constructor ()
      ensures Valid() && fresh(spine) && ics == {} && state == START
    {
      cbcurr, cbhead, cbtail := null, null, null;
      notifyFrontend, notified := false, 0;
      spine, ics, state := [], {}, START;
    }

    method RequestCallbackNotifications(on: bool)
      requires Valid()
      modifies this
      ensures Valid() && spine == old(spine) && ics == old(ics) && state == Step(old(state), RequestNotifications(on))
    {
      notifyFrontend := on;
      state := Step(state, RequestNotifications(on));
    }

    /** A new node at the tail. */
    method PushBack(cb: Callback)
      requires ListValid()
      modifies this`cbhead, this`cbtail, this`spine, spine
      ensures ListValid()
      ensures |spine| == |old(spine)| + 1 && old(spine) == spine[..|spine| - 1]
      ensures fresh(spine[|spine| - 1]) && spine[|spine| - 1].cb == cb
    {
      var node := new Node(cb);
      if cbtail != null {
        cbtail.next := node;
      } else {
        cbhead := node;
      }
      cbtail := node;
      spine := spine + [node];
    }

    /** queue_toplevel_callback, for both kinds. */
    method Link(cb: Callback)
      requires Valid() && (cb.Idempotent? ==> cb.ic in ics)
      modifies this, spine
      ensures Valid() && state == Append(old(state), cb) && ics == old(ics)
      ensures |spine| > 0 && spine[..|spine| - 1] == old(spine) && fresh(spine[|spine| - 1])
    {
      hide Distinct, Chained;
      if notifyFrontend && cbhead == null && cbcurr == null {
        notified := notified + 1;
      }
      PushBack(cb);
      state := Append(state, cb);
    }

    method QueueToplevelCallback(fn: nat, ctx: object)
      requires Valid()
      modifies this, spine
      ensures Valid() && state == Step(old(state), Queue(fn, ctx))
      ensures ics == old(ics) && fresh(set n | n in spine && n !in old(spine))
    {
      Link(Plain(fn, ctx));
    }

    method QueueIdempotentCallback(ic: IdempotentCallback)
      requires Valid() && (ic !in ics ==> !ic.queued)
      modifies this, spine, ic
      ensures Valid() && state == Step(old(state), QueueIdempotent(ic))
      ensures ics == old(ics) + {ic} && fresh(set n | n in spine && n !in old(spine))
    {
      ics := ics + {ic};
      if ic.queued {
        return;
      }
      ic.queued := true;
      state := state.(flagged := state.flagged + {ic});
      Link(Idempotent(ic));
    }

    method ToplevelCallbackPending() returns (pending: bool)
      requires Valid()
      ensures pending == state.Pending()
    {
      return cbcurr != null || cbhead != null;
    }

    /** The head, taken off the list. */
    method PopFront()
      requires ListValid() && cbhead != null
      modifies this`cbhead, this`cbtail, this`cbcurr, this`spine
      ensures ListValid() && cbcurr == old(cbhead) && spine == old(spine)[1..]
    {
      cbcurr := cbhead;
      cbhead := cbhead.next;
      if cbhead == null {
        cbtail := null;
      }
      spine := spine[1..];
    }

    /** run_toplevel_callbacks, up to the call of the callback. */
    method BeginCallback() returns (found: bool)
      requires Valid() && cbcurr == null
      modifies this, ics
      ensures Valid() && state == Step(old(state), Begin)
      ensures found == (old(state).queue != [])
      ensures spine == (if old(spine) == [] then [] else old(spine)[1..]) && ics == old(ics)
    {
      hide Distinct, Chained;
      found := cbhead != null;
      if found {
        ghost var s := state;
        PopFront();
        if cbcurr.cb.Idempotent? {
          cbcurr.cb.ic.queued := false;
        }
        state := Step(state, Begin);
      }
    }

    /** The rest of run_toplevel_callbacks, after the callback has returned. */
    method EndCallback()
      requires Valid() && cbcurr != null
      modifies this
      ensures Valid() && state == Step(old(state), End)
      ensures spine == old(spine) && ics == old(ics)
    {
      cbcurr := null;
      state := Step(state, End);
    }

    method Unlink(ctx: object)
      requires ListValid()
      modifies this`cbhead, this`cbtail, this`spine, spine
      ensures ListValid() && spine == KeptNodes(old(spine), ctx)
    {
      hide Distinct, Chained, KeptNodes;
      var newhead, newtail := LinkKept(cbhead, ctx, spine);
      ghost var kept := KeptNodes(spine, ctx);
      KeptNodesAreIn(spine, ctx);
      cbhead := newhead;
      cbtail := newtail;
      if newtail != null {
        assert newtail in kept;
        EndChain(newtail, kept);
      }
      spine := kept;
    }

    method DeleteCallbacksForContext(ctx: object)
      requires Valid()
      modifies this, spine
      ensures Valid() && state == Step(old(state), Delete(ctx))
      ensures spine == KeptNodes(old(spine), ctx) && ics == old(ics)
    {
      hide Kept, KeptNodes, Orphaned, Concerns, Matches, Known, Distinct, Chained;
      KeptNodesMatch(spine, state.queue, ctx);
      KeptKnown(state.queue, ctx, ics);
      Unlink(ctx);
      state := Step(state, Delete(ctx));
    }

    /** Idempotent callbacks that are new to the list. */
    ghost method Meet(more: set<IdempotentCallback>)
      requires Valid() && forall ic :: ic in more ==> ic in ics || !ic.queued
      modifies this`ics
      ensures Valid() && ics == old(ics) + more
    {
      ics := ics + more;
    }

    /**
     * Any run of events: the list does what the state machine does. An idempotent callback that the
     * list has not met yet must start with its flag clear, as it does when it is made.
     */
    method Perform(es: seq<Event>)
      requires Valid() && AllAllowed(state, es)
      requires forall ic :: ic in Asked(es) ==> ic in ics || !ic.queued
      modifies this, spine, ics, Asked(es)
      ensures Valid() && state == Run(old(state), es) && ics == old(ics) + Asked(es)
    {
      hide *;
      var i := 0;
      Meet(Asked(es));
      assert es[0..] == es;
      while i < |es|
        invariant 0 <= i <= |es| && Valid() && ics == old(ics) + Asked(es)
        invariant forall j :: 0 <= j < |spine| ==> spine[j] in old(spine) || fresh(spine[j])
        invariant AllAllowed(state, es[i..]) && Run(state, es[i..]) == Run(old(state), es)
      {
        RunFrom(state, es, i);
        PerformOne(es[i]);
        i := i + 1;
      }
      RunFrom(state, es, i);
    }

    method PerformOne(e: Event)
      requires Valid() && Allowed(state, e) && (e.QueueIdempotent? ==> e.ic in ics)
      modifies this, spine, ics
      ensures Valid() && state == Step(old(state), e) && ics == old(ics)
      ensures forall n :: n in spine ==> n in old(spine) || fresh(n)
    {
      hide Distinct, Chained, Step, Matches, Known, FlagsMatch;
      match e {
        case RequestNotifications(on) => RequestCallbackNotifications(on);
        case Queue(fn, ctx) => QueueToplevelCallback(fn, ctx);
        case QueueIdempotent(ic) => QueueIdempotentCallback(ic);
        case Delete(x) => DeleteCallbacksForContext(x);
        case Begin => var _ := BeginCallback();
        case End => EndCallback();
      }
    }
  }
}
