/** What becomes of each callback that was queued, told from the calls alone. */
module CallbackHistory {
  import opened Bytes
  import opened CallbackQueue

  /** The contexts whose deletion takes a waiting callback with it. */
  function Contexts(cb: Callback): set<object> {
    match cb
    case Plain(_, ctx) => {ctx}
    case Idempotent(ic) => {ic, ic.ctx}
  }

  ghost predicate Holds(q: seq<Item>, id: nat, cb: Callback) {
    exists i :: 0 <= i < |q| && q[i] == Item(id, cb)
  }

  /** Call `j` of the run deletes the callback, which is waiting then. */
  ghost predicate DeletedBy(es: seq<Event>, j: nat, id: nat, cb: Callback)
    requires j < |es|
  {
    es[j].Delete? && es[j].ctx in Contexts(cb) && Holds(Run(START, es[..j]).queue, id, cb)
  }

  /** Some call after call `i` does. */
  ghost predicate IsDeleted(es: seq<Event>, i: nat, id: nat, cb: Callback) {
    exists j: nat :: i < j < |es| && DeletedBy(es, j, id, cb)
  }

  lemma DeletedBySnoc(es: seq<Event>, i: nat, e: Event, id: nat, cb: Callback)
    ensures IsDeleted(es + [e], i, id, cb)
       <==> IsDeleted(es, i, id, cb) || (i < |es| && DeletedBy(es + [e], |es|, id, cb))
  {
    var all := es + [e];
    forall j: nat | j < |es|
      ensures DeletedBy(all, j, id, cb) <==> DeletedBy(es, j, id, cb)
    {
      assert all[..j] == es[..j];
    }
    if IsDeleted(all, i, id, cb) {
      var j: nat :| i < j < |all| && DeletedBy(all, j, id, cb);
    }
    if IsDeleted(es, i, id, cb) {
      var j: nat :| i < j < |es| && DeletedBy(es, j, id, cb);
      assert DeletedBy(all, j, id, cb);
    }
  }

  /** The callback with this id has been deleted, has started, or waits; which of them is told apart by the ids. */
  ghost predicate Accounted(s: State, id: nat, cb: Callback, gone: bool) {
    && id < s.next
    && (gone <==> id in s.deleted)
    && (!gone <==> Holds(s.ran + s.queue, id, cb))
  }

  lemma HoldsSum(a: seq<Item>, b: seq<Item>, id: nat, cb: Callback)
    ensures Holds(a + b, id, cb) <==> Holds(a, id, cb) || Holds(b, id, cb)
  {
    if Holds(a + b, id, cb) {
      var i :| 0 <= i < |a + b| && (a + b)[i] == Item(id, cb);
    }
    if Holds(a, id, cb) {
      var i :| 0 <= i < |a| && a[i] == Item(id, cb);
      assert (a + b)[i] == a[i];
    }
    if Holds(b, id, cb) {
      var i :| 0 <= i < |b| && b[i] == Item(id, cb);
      assert (a + b)[|a| + i] == b[i];
    }
  }

  lemma KeptHolds(q: seq<Item>, x: object, id: nat, cb: Callback)
    ensures Holds(Kept(q, x), id, cb) <==> Holds(q, id, cb) && x !in Contexts(cb)
  {
    if Holds(q, id, cb) && x !in Contexts(cb) {
      var i :| 0 <= i < |q| && q[i] == Item(id, cb);
      var j := KeptAt(q, x, i);
    }
    if Holds(Kept(q, x), id, cb) {
      var i :| 0 <= i < |Kept(q, x)| && Kept(q, x)[i] == Item(id, cb);
      var j := KeptFrom(q, x, i);
    }
  }

  lemma HoldsId(q: seq<Item>, id: nat, cb: Callback)
    requires Holds(q, id, cb)
    ensures id in Ids(q)
  {
    var i :| 0 <= i < |q| && q[i] == Item(id, cb);
    assert q[i].id in Ids(q);
  }

  lemma DeleteAccounts(s: State, x: object, id: nat, cb: Callback, gone: bool)
    requires InOrder(s) && Accounted(s, id, cb, gone)
    ensures Accounted(Step(s, Delete(x)), id, cb, gone || (x in Contexts(cb) && Holds(s.queue, id, cb)))
  {
    var t := Step(s, Delete(x));
    StepInOrder(s, Delete(x));
    KeptHolds(s.queue, x, id, cb);
    HoldsSum(s.ran, s.queue, id, cb);
    HoldsSum(t.ran, t.queue, id, cb);
    IdsOfSum(s.ran, s.queue);
    IdsOfSum(t.ran, t.queue);
    DisjointIds(s.ran, s.queue);
    var was, still := Holds(s.queue, id, cb), Holds(t.queue, id, cb);
    if was {
      HoldsId(s.queue, id, cb);
    }
    if Holds(s.ran, id, cb) {
      HoldsId(s.ran, id, cb);
    }
    if still {
      HoldsId(t.queue, id, cb);
    } else if was {
      NotKept(s, x, id, cb);
    }
  }

  /** Ids tell entries apart. */
  lemma SameId(s: State, i: nat, j: nat)
    requires InOrder(s) && i < |s.queue| && j < |s.queue| && s.queue[i].id == s.queue[j].id
    ensures i == j
  {
    assert (s.ran + s.queue)[|s.ran| + i] == s.queue[i] && (s.ran + s.queue)[|s.ran| + j] == s.queue[j];
  }

  lemma NotKept(s: State, x: object, id: nat, cb: Callback)
    requires InOrder(s) && Holds(s.queue, id, cb) && x in Contexts(cb)
    ensures id !in Ids(Kept(s.queue, x))
  {
    var q, k := s.queue, Kept(s.queue, x);
    var i :| 0 <= i < |q| && q[i] == Item(id, cb);
    forall n | 0 <= n < |k|
      ensures k[n].id != id
    {
      var m := KeptFrom(q, x, n);
      if q[m].id == q[i].id {
        SameId(s, m, i);
      }
    }
  }

  lemma OtherAccounts(s: State, e: Event, id: nat, cb: Callback, gone: bool)
    requires InOrder(s) && Accounted(s, id, cb, gone) && !e.Delete?
    ensures Accounted(Step(s, e), id, cb, gone)
  {
    var t := Step(s, e);
    HoldsSum(s.ran, s.queue, id, cb);
    HoldsSum(t.ran, t.queue, id, cb);
    if t.next > s.next {
      var last := t.queue[|s.queue|];
      HoldsSum(s.queue, [last], id, cb);
      assert t.queue == s.queue + [last] && last.id == s.next;
    } else if e.Begin? && s.queue != [] {
      assert s.queue == [s.queue[0]] + s.queue[1..];
      HoldsSum([s.queue[0]], s.queue[1..], id, cb);
      HoldsSum(s.ran, [s.queue[0]], id, cb);
    }
  }

  lemma {:induction false} AllowedSnoc(s: State, es: seq<Event>, e: Event)
    requires AllAllowed(s, es + [e])
    ensures AllAllowed(s, es) && Allowed(Run(s, es), e)
    decreases |es|
  {
    if es != [] {
      assert (es + [e])[1..] == es[1..] + [e] && (es + [e])[0] == es[0];
      AllowedSnoc(Step(s, es[0]), es[1..], e);
    } else {
      assert (es + [e])[0] == e;
    }
  }

  /** The call queues this callback: the idempotent ones only if their flag was not set. */
  ghost predicate QueuedBy(es: seq<Event>, i: nat, id: nat, cb: Callback)
    requires i < |es|
  {
    var s := Run(START, es[..i]);
    id == s.next && match es[i] {
      case Queue(fn, ctx) => cb == Plain(fn, ctx)
      case QueueIdempotent(ic) => cb == Idempotent(ic) && ic !in s.flagged
      case _ => false
    }
  }

  lemma JustQueued(s: State, e: Event, cb: Callback)
    requires InOrder(s)
    requires if cb.Plain? then e == Queue(cb.fn, cb.ctx) else e == QueueIdempotent(cb.ic) && cb.ic !in s.flagged
    ensures Accounted(Step(s, e), s.next, cb, false)
  {
    var t := Step(s, e);
    assert t.queue == s.queue + [Item(s.next, cb)] && t.queue[|s.queue|] == Item(s.next, cb);
    HoldsSum(s.ran, t.queue, s.next, cb);
    assert s.next !in s.deleted by {
      assert s.next !in Below(s.next);
    }
  }

  lemma RunIsInOrder(es: seq<Event>)
    requires AllAllowed(START, es)
    ensures InOrder(Run(START, es)) && FlagsRight(Run(START, es))
  {
    StartIsRight();
    RunKeepsInvariant(START, es);
  }

  /**
   * Every callback that was queued runs or waits as what it was queued as, unless a later call deletes
   * it: one that names its context, or the idempotent callback itself, while it is waiting.
   */
  lemma {:induction false} CallbackIsAccountedFor(es: seq<Event>, i: nat, id: nat, cb: Callback)
    requires i < |es| && AllAllowed(START, es) && QueuedBy(es, i, id, cb)
    ensures Accounted(Run(START, es), id, cb, IsDeleted(es, i, id, cb))
    decreases |es|
  {
    var init, e := es[..|es| - 1], es[|es| - 1];
    var s := Run(START, init);
    assert es == init + [e];
    hide Run, AllAllowed, DeletedBy, IsDeleted, Accounted, Step;
    AllowedSnoc(START, init, e);
    RunIsInOrder(init);
    RunSnoc(START, init, e);
    DeletedBySnoc(init, i, e, id, cb);
    if i == |init| {
      assert es[..i] == init;
      JustQueued(s, e, cb);
    } else {
      assert es[..i] == init[..i] && es[i] == init[i];
      CallbackIsAccountedFor(init, i, id, cb);
      DeletedByLast(init, e, id, cb);
      if e.Delete? {
        DeleteAccounts(s, e.ctx, id, cb, IsDeleted(init, i, id, cb));
      } else {
        OtherAccounts(s, e, id, cb, IsDeleted(init, i, id, cb));
      }
    }
  }

  lemma DeletedByLast(init: seq<Event>, e: Event, id: nat, cb: Callback)
    ensures DeletedBy(init + [e], |init|, id, cb)
       <==> e.Delete? && e.ctx in Contexts(cb) && Holds(Run(START, init).queue, id, cb)
  {
    assert (init + [e])[..|init|] == init;
  }

  // Notifications.

  /** The last request about notifications was for them. */
  ghost predicate Wanted(es: seq<Event>) {
    exists j :: 0 <= j < |es| && es[j] == RequestNotifications(true) && NoneAfter(es, j)
  }

  ghost predicate NoneAfter(es: seq<Event>, j: int) {
    forall k :: j < k < |es| && k >= 0 ==> !es[k].RequestNotifications?
  }

  lemma WantedSnoc(es: seq<Event>, e: Event)
    ensures Wanted(es + [e]) <==> if e.RequestNotifications? then e.on else Wanted(es)
  {
    var all := es + [e];
    if Wanted(all) {
      var j :| 0 <= j < |all| && all[j] == RequestNotifications(true) && NoneAfter(all, j);
      assert all[|es|] == e;
      if j < |es| {
        assert NoneAfter(es, j) by {
          forall k | j < k < |es|
            ensures !es[k].RequestNotifications?
          {
            assert all[k] == es[k];
          }
        }
      }
    }
    if e == RequestNotifications(true) {
      assert all[|es|] == e && NoneAfter(all, |es|);
    }
    if Wanted(es) && !e.RequestNotifications? {
      var j :| 0 <= j < |es| && es[j] == RequestNotifications(true) && NoneAfter(es, j);
      assert all[j] == es[j] && NoneAfter(all, j);
    }
  }

  /** Whether the front end is to be notified is what it last asked for. */
  lemma {:induction false} NotifiesIfWanted(es: seq<Event>)
    ensures Run(START, es).notify == Wanted(es)
    decreases |es|
  {
    if es != [] {
      var init, e := es[..|es| - 1], es[|es| - 1];
      assert es == init + [e];
      NotifiesIfWanted(init);
      hide Run, Wanted;
      RunSnoc(START, init, e);
      WantedSnoc(init, e);
    }
  }

  // The flag of an idempotent callback.

  /** Some call deletes an entry of it. */
  ghost predicate EntryDeleted(es: seq<Event>, ic: IdempotentCallback) {
    exists j: nat :: j < |es| && DeletesEntry(es, j, ic)
  }

  ghost predicate DeletesEntry(es: seq<Event>, j: nat, ic: IdempotentCallback)
    requires j < |es|
  {
    es[j].Delete? && (es[j].ctx == ic || es[j].ctx == ic.ctx) && Run(START, es[..j]).Waiting(ic)
  }

  lemma EntryDeletedSnoc(es: seq<Event>, e: Event, ic: IdempotentCallback)
    ensures EntryDeleted(es + [e], ic)
       <==> EntryDeleted(es, ic) || (e.Delete? && (e.ctx == ic || e.ctx == ic.ctx) && Run(START, es).Waiting(ic))
  {
    var all := es + [e];
    assert all[..|es|] == es && all[|es|] == e;
    forall j: nat | j < |es|
      ensures DeletesEntry(all, j, ic) <==> DeletesEntry(es, j, ic)
    {
      assert all[..j] == es[..j];
    }
    if EntryDeleted(all, ic) {
      var j: nat :| j < |all| && DeletesEntry(all, j, ic);
    }
    if EntryDeleted(es, ic) {
      var j: nat :| j < |es| && DeletesEntry(es, j, ic);
      assert DeletesEntry(all, j, ic);
    }
    if e.Delete? && (e.ctx == ic || e.ctx == ic.ctx) && Run(START, es).Waiting(ic) {
      assert DeletesEntry(all, |es|, ic);
    }
  }

  lemma StuckAfter(s: State, e: Event, ic: IdempotentCallback)
    ensures ic in Step(s, e).stuck
       <==> ic in s.stuck || (e.Delete? && (e.ctx == ic || e.ctx == ic.ctx) && s.Waiting(ic))
  {
    if e.Delete? {
      OrphanedIs(s.queue, e.ctx, ic);
    }
  }

  lemma {:induction false} StuckIffDeleted(es: seq<Event>, ic: IdempotentCallback)
    ensures ic in Run(START, es).stuck <==> EntryDeleted(es, ic)
    decreases |es|
  {
    if es != [] {
      var init, e := es[..|es| - 1], es[|es| - 1];
      assert es == init + [e];
      StuckIffDeleted(init, ic);
      hide Run, EntryDeleted, Step;
      RunSnoc(START, init, e);
      EntryDeletedSnoc(init, e, ic);
      StuckAfter(Run(START, init), e, ic);
    }
  }

  /**
   * Once asked for, an idempotent callback waits, unless an entry of it was ever deleted: then it never
   * does again.
   */
  lemma AskedForWaits(es: seq<Event>, ic: IdempotentCallback)
    requires AllAllowed(START, es)
    ensures Run(START, es + [QueueIdempotent(ic)]).Waiting(ic) <==> !EntryDeleted(es, ic)
  {
    hide *;
    RunSnoc(START, es, QueueIdempotent(ic));
    HonouredIffNotStuck(es, ic);
    StuckIffDeleted(es, ic);
  }
}
