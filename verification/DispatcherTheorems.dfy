/** What the dispatcher promises, over every run of the slot protocol. */
module DispatcherTheorems {
  import opened DispatcherMachine
  import PoolMachine
  import RingMachine
  import RingTheorems

  // ------------------------------------------------------------------ ownership

  predicate InSomeSlot(s: State, d: Id) {
    exists i :: 0 <= i < |s.slots| && s.slots[i] == Has(d)
  }

  /** A component in use: its adder has found a slot for it and it is not finished. */
  predicate InUse(s: State, d: Id) {
    d in s.dcs && s.dcs[d].holder != ByAdder && s.dcs[d].holder != Gone
  }

  /** Every component in use is held by exactly one of a slot, the dispatcher and the
      remover, and by one slot at most; every other by none. */
  lemma HeldOnce(s: State, d: Id)
    requires Inv(s) && d in s.dcs
    ensures InUse(s, d) <==> InSomeSlot(s, d) || DispHolds(s, d) || RmvHolds(s, d)
    ensures !(InSomeSlot(s, d) && DispHolds(s, d)) && !(InSomeSlot(s, d) && RmvHolds(s, d))
      && !(DispHolds(s, d) && RmvHolds(s, d))
    ensures forall i, j :: 0 <= i < |s.slots| && 0 <= j < |s.slots| && s.slots[i] == s.slots[j] == Has(d) ==> i == j
  {
    assert DcOk(s, d);
    forall i | 0 <= i < |s.slots| && s.slots[i] == Has(d)
      ensures s.dcs[d].holder == InSlot(i)
    {
      assert SlotOk(s, i);
    }
  }

  /** A component's queue has one consumer at a time, as AcMpscLinkList_rmv demands. */
  lemma OneDrainer(s: State, es: seq<Event>, d: Id)
    requires Initial(s) && d in Run(s, es).dcs
    ensures !(DispHolds(Run(s, es), d) && RmvHolds(Run(s, es), d))
  {
    InitialInv(s);
    RunKeepsInv(s, es);
    HeldOnce(Run(s, es), d);
  }

  /** The dispatcher's compare and exchange puts the component back exactly when no
      remover has taken its slot meanwhile, whatever else was put there. */
  lemma RestoreIffNotRemoved(s: State)
    requires Inv(s) && s.disp.Restore?
    ensures s.disp.d in s.dcs
    ensures DispatchStep(s).disp.At? <==> !s.dcs[s.disp.d].removed
    ensures s.dcs[s.disp.d].removed ==> DispatchStep(s).slots == s.slots
  {
  }

  /** The plain store of DC_EMPTY never overwrites a component. */
  lemma StoreEmptyIsSafe(s: State)
    requires Inv(s) && s.disp.StoreEmpty?
    ensures SlotAt(s, s.disp.i) == Processing
  {
  }

  // ------------------------------------------------------------------ lifecycle

  /** A prefix of what was sent, and AC_DEINIT_CMD after it when the component is gone. */
  ghost predicate Lived(c: Dc) {
    exists n :: 0 <= n <= |c.sent| && IsLife(c, n)
  }

  ghost predicate IsLife(c: Dc, n: nat)
    requires n <= |c.sent|
  {
    c.log == c.sent[..n] || (n > 0 && c.holder == Gone && c.log == c.sent[..n] + [Deinit])
  }

  /** What a component gets is AC_INIT_CMD, then the later sends in queue order up to some
      point, then at most one AC_DEINIT_CMD and nothing after it. */
  lemma Lifecycle(s: State, d: Id)
    requires Inv(s) && d in s.dcs
    ensures Lived(s.dcs[d])
    ensures s.dcs[d].log != [] ==> s.dcs[d].log[0] == Init
    ensures forall k :: 1 <= k < |s.dcs[d].log| ==> s.dcs[d].log[k] != Init
    ensures forall k :: 0 <= k < |s.dcs[d].log| && s.dcs[d].log[k] == Deinit ==>
      s.dcs[d].holder == Gone && k == |s.dcs[d].log| - 1
  {
    var c := s.dcs[d];
    assert DcOk(s, d);
    var body, rest := Body(c), Inflight(s, d) + c.queue;
    assert c.sent == body + rest;
    assert c.sent[..|body|] == body;
    assert IsLife(c, |body|);
  }

  lemma LifecycleOverAllRuns(s: State, es: seq<Event>, d: Id)
    requires Initial(s) && d in Run(s, es).dcs
    ensures Lived(Run(s, es).dcs[d])
    ensures var c := Run(s, es).dcs[d];
      && (c.log != [] ==> c.log[0] == Init) && (forall k :: 1 <= k < |c.log| ==> c.log[k] != Init)
      && (forall k :: 0 <= k < |c.log| && c.log[k] == Deinit ==> c.holder == Gone && k == |c.log| - 1)
  {
    InitialInv(s);
    RunKeepsInv(s, es);
    Lifecycle(Run(s, es), d);
  }

  /** The component is gone and its log is `log`. */
  predicate GoneWith(s: State, d: Id, log: seq<Op>) {
    d in s.dcs && s.dcs[d].holder == Gone && s.dcs[d].log == log
  }

  /** Nothing is delivered to a component that is gone. */
  lemma GoneStaysGone(s: State, e: Event, d: Id, log: seq<Op>)
    requires Inv(s) && GoneWith(s, d, log)
    ensures GoneWith(Step(s, e), d, log)
  {
    if Allowed(s, e) {
      match e
      case Dispatch => DispatchLeavesGone(s, d, log);
      case Rmv => RmvLeavesGone(s, d, log);
      case Add(t) => AddLeavesGone(s, t, d, log);
      case RmvCall(_) =>
      case AddCall(_, _, _) =>
      case Send(_, _) =>
    }
  }

  lemma DispatchLeavesGone(s: State, d: Id, log: seq<Op>)
    requires Inv(s) && GoneWith(s, d, log)
    ensures GoneWith(DispatchStep(s), d, log)
  {
    if s.disp.At? {
      assert SlotOk(s, s.disp.i);
    }
  }

  lemma RmvLeavesGone(s: State, d: Id, log: seq<Op>)
    requires RmvOk(s) && DispOk(s) && GoneWith(s, d, log)
    ensures GoneWith(RmvStep(s), d, log)
  {
  }

  lemma AddLeavesGone(s: State, t: Tid, d: Id, log: seq<Op>)
    requires AddersOk(s) && GoneWith(s, d, log)
    ensures GoneWith(AddStep(s, t), d, log)
  {
    assert AdderOk(s, t);
  }

  /** What was queued when the remover took the slot has been delivered, in order, when it
      sends AC_DEINIT_CMD. */
  lemma RemoverDeliversAll(s: State)
    requires Inv(s) && s.rem.RmvFinish?
    ensures s.rem.d in s.dcs && s.rem.due <= |s.dcs[s.rem.d].sent|
    ensures s.dcs[s.rem.d].sent[..s.rem.due] <= s.dcs[s.rem.d].log
    ensures RmvStep(s).dcs[s.rem.d].log == s.dcs[s.rem.d].log + [Deinit]
  {
    var c := s.dcs[s.rem.d];
    assert DcOk(s, s.rem.d);
    assert c.log <= c.sent;
  }

  /** The pool of two messages always has one for AC_INIT_CMD and for AC_DEINIT_CMD. */
  lemma PoolNeverEmpty(s: State)
    requires Inv(s)
    ensures s.disp.Finish? ==> s.disp.d in s.dcs && s.dcs[s.disp.d].pool > 0
    ensures s.rem.RmvFinish? ==> s.rem.d in s.dcs && s.dcs[s.rem.d].pool > 0
    ensures forall t {:trigger AdderAt(s, t)} :: AdderAt(s, t).GetMsg? ==>
      AdderAt(s, t).d in s.dcs && s.dcs[AdderAt(s, t).d].pool > 0
  {
    if s.disp.Finish? {
      assert DcOk(s, s.disp.d);
    }
    if s.rem.RmvFinish? {
      assert DcOk(s, s.rem.d);
    }
    forall t | AdderAt(s, t).GetMsg?
      ensures AdderAt(s, t).d in s.dcs && s.dcs[AdderAt(s, t).d].pool > 0
    {
      assert AdderOk(s, t);
      assert DcOk(s, AdderAt(s, t).d);
    }
  }

  /** A message pool of component `d` on the ring of 32-bit words: two messages were in it
      at first, its run `es` has had the gets that the protocol made, and none is under way. */
  ghost predicate IsPoolOf(s: State, d: Id, p: PoolMachine.Pool, es: seq<PoolMachine.PoolEvent>) {
    && d in s.dcs && PoolMachine.PoolInv(p) && PoolMachine.PoolLagOk(p, es)
    && p.ring.addIdx == 2 && PoolMachine.PublishedTo(p.ring, 2)
    && var r := PoolMachine.PoolRun(RingMachine.U32, PoolMachine.WrapPool(p), es).ring;
       r.consumer.Done? && |r.taken| == 2 - s.dcs[d].pool
  }

  /** Component `d` is about to get a message for a command. */
  predicate Gets(s: State, d: Id) {
    || (s.disp.Finish? && s.disp.d == d)
    || (s.rem.RmvFinish? && s.rem.d == d)
    || (exists t :: t in s.adders && s.adders[t] == GetMsg(d))
  }

  /** So over all runs the get that ret_dc or add makes on the real pool, whatever clients are
      returning to it, finds a message. */
  lemma GetFindsMessage(s: State, es: seq<Event>, d: Id, p: PoolMachine.Pool, ps: seq<PoolMachine.PoolEvent>)
    requires Initial(s) && Gets(Run(s, es), d) && IsPoolOf(Run(s, es), d, p, ps)
    ensures var r := PoolMachine.PoolRun(RingMachine.U32, PoolMachine.WrapPool(p), ps).ring;
      RingMachine.ConsumerStep(RingMachine.U32, r).consumer == RingMachine.ReadMem
  {
    InitialInv(s);
    RunKeepsInv(s, es);
    var r := Run(s, es);
    PoolNeverEmpty(r);
    assert forall t :: t in r.adders && r.adders[t] == GetMsg(d) ==> AdderAt(r, t).GetMsg?;
    PoolMachine.FirstGetsSucceed(p, ps);
  }

  // ------------------------------------------------------------ dropped sends

  /** Over all runs: what the dispatcher finishes has been given what had been sent when its
      queue was last found empty, and AC_DEINIT_CMD after that. */
  lemma DispatcherFinishes(s: State, es: seq<Event>)
    requires Initial(s) && Run(s, es).disp.Finish?
    ensures var r := Run(s, es);
      && r.disp.d in r.dcs && r.disp.seen <= |r.dcs[r.disp.d].sent|
      && var c := DispatchStep(r).dcs[r.disp.d];
         && c.holder == Gone && c.log == c.sent[..r.disp.seen] + [Deinit]
         && (c.log == c.sent + [Deinit] <==> |c.sent| == r.disp.seen)
  {
    InitialInv(s);
    RunKeepsInv(s, es);
    var r := Run(s, es);
    var c := DispatchStep(r).dcs[r.disp.d];
    if c.log == c.sent + [Deinit] {
      assert |c.log| == |c.sent| + 1;
    }
  }

  ghost predicate NoDispatch(es: seq<Event>) {
    forall k :: 0 <= k < |es| ==> es[k] != Dispatch
  }

  function SendsTo(es: seq<Event>, d: Id): nat {
    if es == [] then 0 else (if es[0].Send? && es[0].d == d then 1 else 0) + SendsTo(es[1..], d)
  }

  /** Component `d` between the dispatcher's last look at its queue and its next step. */
  ghost predicate Left(s: State, d: Id) {
    Inv(s) && Leaving(s) && s.disp.d == d && d in s.dcs
  }

  /** Until the dispatcher goes on, all that happens to the component it leaves is sends. */
  ghost predicate OnlySends(s: State, r: State, d: Id, n: nat) {
    && Left(s, d) && Left(r, d) && r.disp == s.disp && r.dcs[d].log == s.dcs[d].log
    && (s.dcs[d].added ==> r.dcs[d].added && |r.dcs[d].sent| == |s.dcs[d].sent| + n)
  }

  lemma StepOnlySends(s: State, e: Event, d: Id)
    requires Left(s, d) && e != Dispatch
    ensures OnlySends(s, Step(s, e), d, SendsTo([e], d))
  {
    StepKeepsInv(s, e);
    assert DcOk(s, d);
    assert SendsTo([e], d) == if e.Send? && e.d == d then 1 else 0;
    hide LogOk, PoolOk, SlotsOk, DcsOk;
    if Allowed(s, e) {
      match e
      case Rmv => RmvLeavesIt(s, d);
      case Add(t) => AddLeavesIt(s, t, d);
      case RmvCall(_) =>
      case AddCall(_, _, _) =>
      case Send(_, _) =>
    }
  }

  /** A step of another thread does not touch the component. */
  ghost predicate Untouched(s: State, r: State, d: Id) {
    && r.disp == s.disp && d in s.dcs && d in r.dcs
    && r.dcs[d].log == s.dcs[d].log && (s.dcs[d].added ==> r.dcs[d].added && r.dcs[d].sent == s.dcs[d].sent)
  }

  lemma RmvLeavesIt(s: State, d: Id)
    requires DispOk(s) && RmvOk(s) && Leaving(s) && s.disp.d == d
    ensures Untouched(s, RmvStep(s), d)
  {
  }

  lemma AddLeavesIt(s: State, t: Tid, d: Id)
    requires DispOk(s) && AddersOk(s) && Leaving(s) && s.disp.d == d
    ensures Untouched(s, AddStep(s, t), d)
  {
    assert AdderOk(s, t);
  }

  lemma {:induction false} RunOnlySends(s: State, es: seq<Event>, d: Id)
    requires Left(s, d) && NoDispatch(es)
    ensures OnlySends(s, Run(s, es), d, SendsTo(es, d))
    decreases |es|
  {
    if es != [] {
      StepOnlySends(s, es[0], d);
      RunOnlySends(Step(s, es[0]), es[1..], d);
      assert SendsTo([es[0]], d) == if es[0].Send? && es[0].d == d then 1 else 0;
    }
  }

  /** The dispatcher looks at the queue of `d` after `before` and finds it empty, finds its
      slot taken after `between`, and finishes it after `later`. */
  ghost predicate Finishes(s: State, before: seq<Event>, between: seq<Event>, later: seq<Event>, d: Id) {
    var look := Run(s, before);
    && Initial(s) && NoDispatch(between) && NoDispatch(later)
    && look.disp.Drain? && look.disp.d == d && d in look.dcs && look.dcs[d].queue == []
    && var r := Run(DispatchStep(Run(DispatchStep(look), between)), later);
       r.disp.Finish? && r.disp.d == d && d in r.dcs
  }

  /** Over all runs: the component has been given what was sent before that look, and no
      send is dropped exactly when none came between the look and the end. */
  lemma DroppedIffSentLate(s: State, before: seq<Event>, between: seq<Event>, later: seq<Event>, d: Id)
    requires Finishes(s, before, between, later, d)
    ensures var look := Run(s, before);
      var c := DispatchStep(Run(DispatchStep(Run(DispatchStep(look), between)), later)).dcs[d];
      && c.holder == Gone && c.log == look.dcs[d].sent + [Deinit]
      && (c.log == c.sent + [Deinit] <==> SendsTo(between, d) + SendsTo(later, d) == 0)
  {
    var look := Run(s, before);
    InitialInv(s);
    RunKeepsInv(s, before);
    StepKeepsInv(look, Dispatch);
    var s1 := DispatchStep(look);
    RunOnlySends(s1, between, d);
    var s2 := Run(s1, between);
    StepKeepsInv(s2, Dispatch);
    var s3 := DispatchStep(s2);
    RestoreFails(s3, later);
    RunOnlySends(s3, later, d);
    Counted(look, s1, s2, s3, Run(s3, later), d, SendsTo(between, d), SendsTo(later, d));
  }

  /** A run in which the dispatcher ends without taking a step is one that began there. */
  lemma RestoreFails(s: State, es: seq<Event>)
    requires Inv(s) && (s.disp.At? || s.disp.Finish?) && NoDispatch(es) && Run(s, es).disp.Finish?
    ensures s.disp.Finish?
  {
    DispatcherWaits(s, es);
  }

  lemma {:induction false} DispatcherWaits(s: State, es: seq<Event>)
    requires NoDispatch(es)
    ensures Run(s, es).disp == s.disp
    decreases |es|
  {
    if es != [] {
      assert Step(s, es[0]).disp == s.disp;
      DispatcherWaits(Step(s, es[0]), es[1..]);
    }
  }

  lemma Counted(look: State, s1: State, s2: State, s3: State, s4: State, d: Id, m: nat, n: nat)
    requires Inv(look) && look.disp.Drain? && look.disp.d == d && d in look.dcs && look.dcs[d].queue == []
    requires s1 == DispatchStep(look) && OnlySends(s1, s2, d, m) && s3 == DispatchStep(s2) && OnlySends(s3, s4, d, n)
    requires s4.disp.Finish?
    ensures var c := DispatchStep(s4).dcs[d];
      && c.holder == Gone && c.log == look.dcs[d].sent + [Deinit]
      && (c.log == c.sent + [Deinit] <==> m + n == 0)
  {
    var c := look.dcs[d];
    assert DcOk(look, d);
    assert c.log + [] + [] == c.sent;
    hide SlotsOk, DcsOk, AddersOk;
    assert s4.dcs[d].log == c.log != [];
    assert c.added;
    var last := DispatchStep(s4).dcs[d];
    assert |last.sent| == |c.sent| + m + n;
    if last.log == last.sent + [Deinit] {
      assert |last.log| == |last.sent| + 1;
    }
    if m + n == 0 {
      assert last.sent == s4.dcs[d].sent && s4.dcs[d].log <= s4.dcs[d].sent;
    }
  }

  // ---------------------------------------------------------- such a run

  lemma RunFirst(s: State, all: seq<Event>, e: Event, es: seq<Event>)
    requires all == [e] + es
    ensures Run(s, all) == Run(Step(s, e), es)
  {
    assert all[1..] == es;
  }

  /** One slot, and component 7 added by thread 0. */
  function One(x: Slot, c: Dc, disp: Dispatcher, rem: Remover, a: Adder): State {
    State([x], map[0 := c], disp, rem, map[0 := a])
  }

  function Comp(queue: seq<Op>, pool: nat, log: seq<Op>, sent: seq<Op>, added: bool, holder: Holder): Dc {
    Dc(7, queue, pool, log, sent, 0, added, false, holder)
  }

  lemma OneAdds(disp: Dispatcher, rem: Remover)
    ensures AddStep(One(Empty, Comp([], 2, [], [], false, ByAdder), disp, rem, Try(0, 0)), 0)
      == One(Has(0), Comp([], 2, [], [], false, InSlot(0)), disp, rem, GetMsg(0))
    ensures AddStep(One(Has(0), Comp([], 2, [], [], false, InSlot(0)), disp, rem, GetMsg(0)), 0)
      == One(Has(0), Comp([], 1, [], [], false, InSlot(0)), disp, rem, SendInit(0))
    ensures AddStep(One(Has(0), Comp([], 1, [], [], false, InSlot(0)), disp, rem, SendInit(0)), 0)
      == One(Has(0), Comp([Init], 1, [], [Init], true, InSlot(0)), disp, rem, Outside)
  {
    var none: seq<Op> := [];
    assert none + [Init] == [Init];
  }

  /** Thread 0 adds component 7. */
  lemma OneAdded(s: State, es: seq<Event>)
    requires Initial(s) && s.slots == [Empty]
    ensures Run(s, [AddCall(0, 7, 0), Add(0), Add(0), Add(0)] + es)
      == Run(One(Has(0), Comp([Init], 1, [], [Init], true, InSlot(0)), At(0), Done(false), Outside), es)
  {
    hide Run, AddStep;
    OneAdds(At(0), Done(false));
    RunFirst(s, [AddCall(0, 7, 0), Add(0), Add(0), Add(0)] + es, AddCall(0, 7, 0), [Add(0), Add(0), Add(0)] + es);
    var s1 := One(Empty, Comp([], 2, [], [], false, ByAdder), At(0), Done(false), Try(0, 0));
    assert Step(s, AddCall(0, 7, 0)) == s1;
    RunFirst(s1, [Add(0), Add(0), Add(0)] + es, Add(0), [Add(0), Add(0)] + es);
    var s2 := One(Has(0), Comp([], 2, [], [], false, InSlot(0)), At(0), Done(false), GetMsg(0));
    RunFirst(s2, [Add(0), Add(0)] + es, Add(0), [Add(0)] + es);
    var s3 := One(Has(0), Comp([], 1, [], [], false, InSlot(0)), At(0), Done(false), SendInit(0));
    RunFirst(s3, [Add(0)] + es, Add(0), es);
  }

  /** A removal of it is about to exchange its slot. */
  lemma OneWanted(c: Dc, es: seq<Event>)
    requires c.comp == 7
    ensures Run(One(Has(0), c, At(0), Done(false), Outside), [RmvCall(7), Rmv] + es)
      == Run(One(Has(0), c, At(0), Exchange(0, 0), Outside), es)
  {
    RunFirst(One(Has(0), c, At(0), Done(false), Outside), [RmvCall(7), Rmv] + es, RmvCall(7), [Rmv] + es);
    RunFirst(One(Has(0), c, At(0), Scan(0, 7), Outside), [Rmv] + es, Rmv, es);
  }

  /** The dispatcher takes it and delivers AC_INIT_CMD. */
  lemma OneDrained(c: Dc, rem: Remover)
    requires c == Comp([Init], 1, [], [Init], true, InSlot(0))
    ensures Run(One(Has(0), c, At(0), rem, Outside), [Dispatch, Dispatch, Dispatch])
      == One(Processing, Comp([], 1, [Init], [Init], true, ByDispatcher), Drain(0, 0), rem, Outside)
  {
    var s := One(Has(0), c, At(0), rem, Outside);
    RunFirst(s, [Dispatch, Dispatch, Dispatch], Dispatch, [Dispatch, Dispatch]);
    var s1 := One(Processing, c.(holder := ByDispatcher), Drain(0, 0), rem, Outside);
    assert DispatchStep(s) == s1;
    RunFirst(s1, [Dispatch, Dispatch], Dispatch, [Dispatch]);
    var s2 := One(Processing, Comp([], 1, [], [Init], true, ByDispatcher), Deliver(0, 0, Init), rem, Outside);
    assert c.queue[1..] == [];
    assert DispatchStep(s1) == s2;
    RunFirst(s2, [Dispatch], Dispatch, []);
    var none: seq<Op> := [];
    assert none + [Init] == [Init];
  }

  /** A message is sent after it has found the queue empty, and the slot is exchanged. */
  lemma OneSent(s: State, c: Dc)
    requires c == Comp([], 1, [Init], [Init], true, ByDispatcher)
      && s == One(Processing, c, Drain(0, 0), Exchange(0, 0), Outside)
    ensures Run(DispatchStep(s), [Send(0, 5), Rmv])
      == One(Empty, c.(queue := [User(5)], sent := [Init, User(5)], removed := true), Restore(0, 0, 1), Done(true),
        Outside)
  {
    var s1 := One(Processing, c, Restore(0, 0, 1), s.rem, Outside);
    assert DispatchStep(s) == s1;
    RunFirst(s1, [Send(0, 5), Rmv], Send(0, 5), [Rmv]);
    var s2 := One(Processing, c.(queue := [User(5)], sent := [Init, User(5)]), Restore(0, 0, 1), s.rem, Outside);
    assert c.queue + [User(5)] == [User(5)] && c.sent + [User(5)] == [Init, User(5)];
    assert Step(s1, Send(0, 5)) == s2;
    RunFirst(s2, [Rmv], Rmv, []);
  }

  /** The message is dropped. */
  lemma SendIsDropped(s: State, before: seq<Event>, between: seq<Event>)
    requires Initial(s) && s.slots == [Empty]
    requires before == [AddCall(0, 7, 0), Add(0), Add(0), Add(0)] + ([RmvCall(7), Rmv] + [Dispatch, Dispatch, Dispatch])
    requires between == [Send(0, 5), Rmv]
    ensures Finishes(s, before, between, [], 0)
    ensures var c := DispatchStep(Run(DispatchStep(Run(DispatchStep(Run(s, before)), between)), [])).dcs[0];
      c.sent == [Init, User(5)] && c.log == [Init, Deinit]
  {
    hide Run, DispatchStep, RmvStep, AddStep;
    OneAdded(s, [RmvCall(7), Rmv] + [Dispatch, Dispatch, Dispatch]);
    var c := Comp([Init], 1, [], [Init], true, InSlot(0));
    OneWanted(c, [Dispatch, Dispatch, Dispatch]);
    OneDrained(c, Exchange(0, 0));
    OneSent(Run(s, before), Run(s, before).dcs[0]);
    OneFinished(Run(DispatchStep(Run(s, before)), between),
      Run(s, before).dcs[0].(queue := [User(5)], sent := [Init, User(5)], removed := true));
  }

  lemma OneFinished(s: State, c: Dc)
    requires s == One(Empty, c, Restore(0, 0, 1), Done(true), Outside)
    ensures var r := Run(DispatchStep(s), []);
      r == s.(disp := Finish(0, 0, 1)) && DispatchStep(r).dcs[0] == Finished(c)
  {
  }
}
