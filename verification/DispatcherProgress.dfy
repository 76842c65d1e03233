/** The dispatching thread gets to every slot: what is queued for a component that stays is
    delivered to it within a number of the dispatcher's own actions that the slots, the queues
    and the sends made meanwhile bound. */
module DispatcherProgress {
  import opened DispatcherMachine
  import opened DispatcherTheorems

  // ---------------------------------------------------------- what is waiting

  /** How many messages wait at slot `i`. */
  function SlotLoad(s: State, i: nat): nat {
    match SlotAt(s, i)
    case Has(d) => if d in s.dcs then |s.dcs[d].queue| else 0
    case _ => 0
  }

  function SlotLoads(s: State, k: nat): nat {
    if k == 0 then 0 else SlotLoads(s, k - 1) + SlotLoad(s, k - 1)
  }

  /** How many messages wait for the component that the dispatcher has taken. */
  function HeldLoad(s: State): nat {
    if DispBusy(s) && s.disp.d in s.dcs then |s.dcs[s.disp.d].queue| else 0
  }

  function Waiting(s: State): nat {
    SlotLoads(s, |s.slots|) + HeldLoad(s)
  }

  /** At most slot `j` has another load. */
  ghost predicate LoadsDiffer(s: State, r: State, j: nat) {
    forall i: nat {:trigger SlotLoad(r, i)} :: i != j ==> SlotLoad(r, i) <= SlotLoad(s, i)
  }

  lemma {:induction false} LoadsAtMost(s: State, r: State, j: nat, x: int, k: nat)
    requires LoadsDiffer(s, r, j) && SlotLoad(r, j) <= SlotLoad(s, j) + x
    ensures SlotLoads(r, k) <= SlotLoads(s, k) + if j < k then x else 0
    decreases k
  {
    if k > 0 {
      LoadsAtMost(s, r, j, x, k - 1);
    }
  }

  // ------------------------------------------------------------------ distance

  /** A component in a slot or in the dispatcher's hands that no remover has taken. */
  predicate Stays(s: State, d: Id) {
    d in s.dcs && !s.dcs[d].removed && (s.dcs[d].holder.InSlot? || s.dcs[d].holder.ByDispatcher?)
  }

  function SlotOf(s: State, d: Id): nat
    requires Stays(s, d)
  {
    if s.dcs[d].holder.InSlot? then s.dcs[d].holder.i else s.disp.i
  }

  /** The visit that the dispatcher makes or begins now is one to component `d`. */
  predicate Visiting(s: State, d: Id) {
    s.disp.At? || (DispHolds(s, d) && !Leaving(s))
  }

  /** How many slots the dispatcher has before it until it visits `d`, with one for its return
      to the first slot. */
  function SlotsBefore(s: State, d: Id): nat
    requires Stays(s, d)
  {
    var (i, j) := (SlotOf(s, d), s.disp.i);
    if j < i then i - j
    else if j == i && Visiting(s, d) then 0
    else (if j < |s.slots| then |s.slots| - j else 0) + i + 1
  }

  /** How many actions at its slot the dispatcher has before it, the deliveries of what is
      queued left out. */
  function ActionsHere(x: Dispatcher): nat {
    match x
    case At(_) => 4
    case Drain(_, _) => 3
    case Deliver(_, _, _) => 4
    case Restore(_, _, _) => 2
    case Finish(_, _, _) => 1
    case StoreEmpty(_) => 1
  }

  function ActionsBefore(s: State, d: Id): nat
    requires Stays(s, d)
  {
    4 * SlotsBefore(s, d) + ActionsHere(s.disp) + 2 * Waiting(s)
  }

  // -------------------------------------------------------- the dispatcher's steps

  /** A slot holds one component, whose holder is that slot. */
  lemma SlotHolds(s: State, i: nat, d: Id)
    requires SlotsOk(s) && SlotAt(s, i) == Has(d)
    ensures d in s.dcs && s.dcs[d].holder == InSlot(i)
  {
    assert SlotOk(s, i);
  }

  lemma NoSlotHolds(s: State, d: Id)
    requires SlotsOk(s) && d in s.dcs && !s.dcs[d].holder.InSlot?
    ensures forall i: nat {:trigger SlotAt(s, i)} :: SlotAt(s, i) != Has(d)
  {
    forall i: nat | SlotAt(s, i) == Has(d)
      ensures false
    {
      SlotHolds(s, i, d);
    }
  }

  /** No action of the dispatcher adds a message; the one that takes a message off its
      component's queue leaves one less. */
  lemma DispatchWaiting(s: State)
    requires Inv(s)
    ensures Waiting(DispatchStep(s)) <= Waiting(s) - if DispatchStep(s).disp.Deliver? then 1 else 0
  {
    if s.disp.At? || s.disp.StoreEmpty? {
      PassWaiting(s);
    } else {
      WorkWaiting(s);
    }
  }

  lemma PassWaiting(s: State)
    requires Inv(s) && (s.disp.At? || s.disp.StoreEmpty?)
    ensures Waiting(DispatchStep(s)) <= Waiting(s) && !DispatchStep(s).disp.Deliver?
  {
    var i, r := s.disp.i, DispatchStep(s);
    var x := if SlotAt(s, i).Has? then SlotLoad(s, i) else 0;
    assert SlotOk(s, i);
    forall k: nat | k != i
      ensures SlotLoad(r, k) <= SlotLoad(s, k)
    {
      assert SlotOk(s, k);
    }
    LoadsAtMost(s, r, i, -x, |s.slots|);
  }

  lemma WorkWaiting(s: State)
    requires Inv(s) && DispBusy(s)
    ensures Waiting(DispatchStep(s)) <= Waiting(s) - if DispatchStep(s).disp.Deliver? then 1 else 0
  {
    var i, d, r := s.disp.i, s.disp.d, DispatchStep(s);
    var x := if r.disp.At? && s.disp.Restore? then |s.dcs[d].queue| else 0;
    NoSlotHolds(s, d);
    forall k: nat | k != i
      ensures SlotLoad(r, k) <= SlotLoad(s, k)
    {
      assert SlotAt(r, k) == SlotAt(s, k) != Has(d);
    }
    LoadsAtMost(s, r, i, x, |s.slots|);
  }

  /** While component `d` has not been given all that was sent to it, each action of the
      dispatcher takes it nearer. */
  lemma DispatchComesNearer(s: State, d: Id)
    requires Inv(s) && Stays(s, d) && |s.dcs[d].log| < |s.dcs[d].sent|
    ensures var r := DispatchStep(s); Stays(r, d) && ActionsBefore(r, d) < ActionsBefore(s, d)
  {
    assert DcOk(s, d);
    DispatchWaiting(s);
    if DispHolds(s, d) {
      VisitComesNearer(s, d);
    } else if s.disp.At? {
      AtComesNearer(s, d);
    } else {
      OtherComesNearer(s, d);
    }
  }

  /** The part of the distance that the dispatcher's place makes. */
  function PlaceBefore(s: State, d: Id): nat
    requires Stays(s, d)
  {
    4 * SlotsBefore(s, d) + ActionsHere(s.disp)
  }

  lemma VisitComesNearer(s: State, d: Id)
    requires DispOk(s) && RmvOk(s) && Stays(s, d) && DcOk(s, d) && DispHolds(s, d) && |s.dcs[d].log| < |s.dcs[d].sent|
    ensures var r := DispatchStep(s);
      Stays(r, d) && PlaceBefore(r, d) < PlaceBefore(s, d) + if r.disp.Deliver? then 2 else 0
  {
    var c := s.dcs[d];
    assert c.log + Inflight(s, d) + c.queue == c.sent;
    assert |c.log| + |Inflight(s, d)| + |c.queue| == |c.sent|;
  }

  lemma AtComesNearer(s: State, d: Id)
    requires SlotsOk(s) && Stays(s, d) && DcOk(s, d) && s.disp.At? && !DispHolds(s, d)
    ensures var r := DispatchStep(s); Stays(r, d) && PlaceBefore(r, d) < PlaceBefore(s, d) && !r.disp.Deliver?
  {
    assert SlotOk(s, s.disp.i);
  }

  lemma OtherComesNearer(s: State, d: Id)
    requires DispOk(s) && Stays(s, d) && DcOk(s, d) && !s.disp.At? && !DispHolds(s, d) && s.dcs[d].holder.InSlot?
    ensures var r := DispatchStep(s);
      Stays(r, d) && PlaceBefore(r, d) < PlaceBefore(s, d) + if r.disp.Deliver? then 2 else 0
  {
  }

  /** As the only dispatcher it never meets a slot that another is processing. */
  lemma NeverMeetsBusy(s: State, es: seq<Event>)
    requires Initial(s) && Run(s, es).disp.At?
    ensures SlotAt(Run(s, es), Run(s, es).disp.i) != Processing
  {
    InitialInv(s);
    RunKeepsInv(s, es);
    assert SlotOk(Run(s, es), Run(s, es).disp.i);
  }

  // ------------------------------------------------------------ the other threads

  /** The event may put a message into a queue. */
  predicate Arrives(e: Event) {
    e.Send? || e.Add?
  }

  function Arrivals(es: seq<Event>): nat {
    if es == [] then 0 else (if Arrives(es[0]) then 1 else 0) + Arrivals(es[1..])
  }

  function Dispatches(es: seq<Event>): nat {
    if es == [] then 0 else (if es[0].Dispatch? then 1 else 0) + Dispatches(es[1..])
  }

  /** Only the queue of component `d` may grow, by `k` at most. */
  ghost predicate OneQueueGrows(s: State, r: State, d: Id, k: nat) {
    && d in s.dcs && d in r.dcs && r.slots == s.slots && r.disp == s.disp
    && |r.dcs[d].queue| <= |s.dcs[d].queue| + k
    && (forall e :: e in s.dcs && e != d ==> e in r.dcs && r.dcs[e].queue == s.dcs[e].queue)
  }

  lemma GrowingWaits(s: State, r: State, d: Id, k: nat)
    requires Inv(s) && OneQueueGrows(s, r, d, k)
    ensures Waiting(r) <= Waiting(s) + k
  {
    var c := s.dcs[d];
    var j := if c.holder.InSlot? then c.holder.i else 0;
    assert SlotOk(s, j);
    forall i: nat | c.holder != InSlot(i)
      ensures SlotLoad(r, i) <= SlotLoad(s, i)
    {
      assert SlotOk(s, i);
    }
    LoadsAtMost(s, r, j, if c.holder.InSlot? then k else 0, |s.slots|);
  }

  /** Only slot `j` changes, and no more waits at it than before. */
  lemma SlotWaits(s: State, r: State, j: nat)
    requires LoadsDiffer(s, r, j) && SlotLoad(r, j) <= SlotLoad(s, j) && |r.slots| == |s.slots|
    requires HeldLoad(r) <= HeldLoad(s)
    ensures Waiting(r) <= Waiting(s)
  {
    LoadsAtMost(s, r, j, 0, |s.slots|);
  }

  /** Another thread's event leaves the dispatcher where it is and adds one message at most. */
  ghost predicate LeavesDispatcher(s: State, r: State, k: nat) {
    r.disp == s.disp && |r.slots| == |s.slots| && Waiting(r) <= Waiting(s) + k
  }

  lemma OthersWait(s: State, e: Event)
    requires Inv(s) && !e.Dispatch?
    ensures LeavesDispatcher(s, Step(s, e), if Arrives(e) then 1 else 0)
  {
    if Allowed(s, e) {
      match e
      case Rmv => RmvWaits(s);
      case Add(t) => AddWaits(s, t);
      case RmvCall(_) => SameWaits(s, Step(s, e));
      case AddCall(_, _, _) => SameWaits(s, Step(s, e));
      case Send(d, _) => GrowingWaits(s, Step(s, e), d, 1);
    }
  }

  lemma SameWaits(s: State, r: State)
    requires Inv(s) && r.slots == s.slots && r.disp == s.disp
    requires forall e :: e in s.dcs ==> e in r.dcs && r.dcs[e].queue == s.dcs[e].queue
    ensures Waiting(r) <= Waiting(s)
  {
    forall i: nat
      ensures SlotLoad(r, i) <= SlotLoad(s, i)
    {
      assert SlotOk(s, i);
    }
    SlotWaits(s, r, 0);
  }

  lemma RmvWaits(s: State)
    requires Inv(s)
    ensures LeavesDispatcher(s, RmvStep(s), 0)
  {
    var r := RmvStep(s);
    if s.rem.Exchange? {
      ExchangeWaits(s);
    } else if RmvBusy(s) {
      GrowingWaits(s, r, s.rem.d, 0);
    } else {
      SameWaits(s, r);
    }
  }

  lemma ExchangeWaits(s: State)
    requires Inv(s) && s.rem.Exchange?
    ensures LeavesDispatcher(s, RmvStep(s), 0)
  {
    var r := RmvStep(s);
    forall i: nat
      ensures SlotLoad(r, i) <= SlotLoad(s, i)
    {
      assert SlotOk(s, i);
    }
    SlotWaits(s, r, s.rem.i);
  }

  lemma AddWaits(s: State, t: Tid)
    requires Inv(s)
    ensures LeavesDispatcher(s, AddStep(s, t), 1)
  {
    var a, r := AdderAt(s, t), AddStep(s, t);
    assert AdderOk(s, t);
    if a.Try? {
      TryWaits(s, t);
    } else if !a.Outside? {
      GrowingWaits(s, r, a.d, 1);
    }
  }

  lemma TryWaits(s: State, t: Tid)
    requires Inv(s) && AdderAt(s, t).Try?
    ensures LeavesDispatcher(s, AddStep(s, t), 0)
  {
    var a, r := AdderAt(s, t), AddStep(s, t);
    assert AdderOk(s, t) && DcOk(s, a.d);
    assert |s.dcs[a.d].queue| == 0;
    forall i: nat
      ensures SlotLoad(r, i) <= SlotLoad(s, i)
    {
      assert SlotOk(s, i);
    }
    SlotWaits(s, r, a.i);
  }

  // ---------------------------------------------------------------- runs

  /** What happens to component `d` only adds to what was sent and delivered to it. */
  predicate Grows(s: State, r: State, d: Id) {
    && d in s.dcs && d in r.dcs && s.dcs[d].sent <= r.dcs[d].sent && |s.dcs[d].log| <= |r.dcs[d].log|
    && (s.dcs[d].removed ==> r.dcs[d].removed)
  }

  lemma StepGrows(s: State, e: Event, d: Id)
    requires d in s.dcs
    ensures Grows(s, Step(s, e), d)
  {
    if Allowed(s, e) {
      match e
      case Dispatch => DispatchGrows(s, d);
      case Rmv => RmvGrows(s, d);
      case Add(t) => AddGrows(s, t, d);
      case RmvCall(_) =>
      case AddCall(_, _, _) =>
      case Send(_, _) =>
    }
  }

  lemma DispatchGrows(s: State, d: Id)
    requires d in s.dcs
    ensures Grows(s, DispatchStep(s), d)
  {
  }

  lemma RmvGrows(s: State, d: Id)
    requires d in s.dcs
    ensures Grows(s, RmvStep(s), d)
  {
  }

  lemma AddGrows(s: State, t: Tid, d: Id)
    requires d in s.dcs
    ensures Grows(s, AddStep(s, t), d)
  {
  }

  lemma {:induction false} RunGrows(s: State, es: seq<Event>, d: Id)
    requires d in s.dcs
    ensures Grows(s, Run(s, es), d)
    decreases |es|
  {
    if es != [] {
      StepGrows(s, es[0], d);
      RunGrows(Step(s, es[0]), es[1..], d);
    }
  }

  /** A component stays as long as it is not removed. */
  lemma StepStays(s: State, e: Event, d: Id)
    requires Inv(s) && Stays(s, d) && d in Step(s, e).dcs && !Step(s, e).dcs[d].removed
    ensures Stays(Step(s, e), d)
    ensures !e.Dispatch? ==> Step(s, e).dcs[d].holder == s.dcs[d].holder
  {
    if Allowed(s, e) {
      match e
      case Dispatch => DispatchStays(s, d);
      case Rmv => RmvStays(s, d);
      case Add(t) => AddStays(s, t, d);
      case RmvCall(_) =>
      case AddCall(_, _, _) =>
      case Send(_, _) =>
    }
  }

  lemma DispatchStays(s: State, d: Id)
    requires Inv(s) && Stays(s, d)
    ensures Stays(DispatchStep(s), d)
  {
    hide LogOk, PoolOk, AddersOk, RmvOk;
    assert DcOk(s, d);
  }

  lemma RmvStays(s: State, d: Id)
    requires RmvOk(s) && Stays(s, d) && d in RmvStep(s).dcs && !RmvStep(s).dcs[d].removed
    ensures Stays(RmvStep(s), d) && RmvStep(s).dcs[d].holder == s.dcs[d].holder
  {
  }

  lemma AddStays(s: State, t: Tid, d: Id)
    requires AddersOk(s) && Stays(s, d)
    ensures Stays(AddStep(s, t), d) && AddStep(s, t).dcs[d].holder == s.dcs[d].holder
  {
    assert AdderOk(s, t);
  }

  lemma StayingKeepsPlace(s: State, r: State, d: Id, k: nat)
    requires Stays(s, d) && Stays(r, d) && r.dcs[d].holder == s.dcs[d].holder && LeavesDispatcher(s, r, k)
    ensures ActionsBefore(r, d) <= ActionsBefore(s, d) + 2 * k
  {
  }

  /** Each event takes the dispatcher one action nearer if it is the dispatcher's, and two
      farther at most if it adds a message. */
  lemma StepComesNearer(s: State, e: Event, d: Id)
    requires Inv(s) && Stays(s, d) && Stays(Step(s, e), d) && |s.dcs[d].log| < |s.dcs[d].sent|
    ensures ActionsBefore(Step(s, e), d) + Dispatches([e]) <= ActionsBefore(s, d) + 2 * Arrivals([e])
  {
    CountsOne(e);
    if e.Dispatch? {
      DispatchComesNearer(s, d);
    } else {
      OthersWait(s, e);
      StepStays(s, e, d);
      StayingKeepsPlace(s, Step(s, e), d, if Arrives(e) then 1 else 0);
    }
  }

  lemma CountsOne(e: Event)
    ensures Dispatches([e]) == if e.Dispatch? then 1 else 0
    ensures Arrivals([e]) == if Arrives(e) then 1 else 0
  {
    assert Dispatches([e]) == (if e.Dispatch? then 1 else 0) + Dispatches([]);
    assert Arrivals([e]) == (if Arrives(e) then 1 else 0) + Arrivals([]);
  }

  lemma {:induction false} RunStays(s: State, es: seq<Event>, d: Id)
    requires Inv(s) && Stays(s, d) && d in Run(s, es).dcs && !Run(s, es).dcs[d].removed
    ensures Stays(Run(s, es), d)
    ensures es != [] ==> Stays(Step(s, es[0]), d)
    decreases |es|
  {
    if es != [] {
      var r := Step(s, es[0]);
      StepGrows(s, es[0], d);
      RunGrows(r, es[1..], d);
      StepStays(s, es[0], d);
      StepKeepsInv(s, es[0]);
      RunStays(r, es[1..], d);
    }
  }

  lemma {:induction false} NearEnough(s: State, es: seq<Event>, d: Id, n: nat)
    requires Inv(s) && Stays(s, d) && d in Run(s, es).dcs && !Run(s, es).dcs[d].removed && n <= |s.dcs[d].sent|
    requires Dispatches(es) >= ActionsBefore(s, d) + 2 * Arrivals(es)
    ensures n <= |Run(s, es).dcs[d].log|
    decreases |es|
  {
    if n <= |s.dcs[d].log| {
      RunGrows(s, es, d);
    } else {
      assert es != [];
      var r := Step(s, es[0]);
      RunStays(s, es, d);
      StepComesNearer(s, es[0], d);
      CountsOne(es[0]);
      StepGrows(s, es[0], d);
      StepKeepsInv(s, es[0]);
      hide Inv, Stays, Step, ActionsBefore;
      NearEnough(r, es[1..], d, n);
    }
  }

  /** Enough actions of the dispatcher for it to go round once from any place: four for each
      slot and two for each message that waits. */
  function OnceRound(s: State): nat {
    4 * (|s.slots| + 2) + 2 * Waiting(s)
  }

  /** However the threads interleave: a component that is not removed has been given, in
      order, all that had been sent to it at the start, when the dispatcher has done that many
      actions and two for each message that may have been sent meanwhile. */
  lemma EveryComponentIsServed(s: State, es: seq<Event>, d: Id)
    requires Inv(s) && InUse(s, d) && d in Run(s, es).dcs && !Run(s, es).dcs[d].removed
    requires Dispatches(es) >= OnceRound(s) + 2 * Arrivals(es)
    ensures s.dcs[d].sent <= Run(s, es).dcs[d].log
  {
    var r := Run(s, es);
    RunGrows(s, es, d);
    assert DcOk(s, d);
    assert RmvOk(s);
    NearEnough(s, es, d, |s.dcs[d].sent|);
    RunStays(s, es, d);
    RunKeepsInv(s, es);
    assert DcOk(r, d);
    assert r.dcs[d].log <= r.dcs[d].sent;
  }

  function Alone(n: nat): (es: seq<Event>)
    ensures |es| == n
  {
    if n == 0 then [] else [Dispatch] + Alone(n - 1)
  }

  lemma {:induction false} AloneCounts(n: nat)
    ensures Dispatches(Alone(n)) == n && Arrivals(Alone(n)) == 0
  {
    if n > 0 {
      assert Alone(n)[1..] == Alone(n - 1);
      AloneCounts(n - 1);
    }
  }

  lemma {:induction false} AloneRemovesNone(s: State, n: nat, d: Id)
    requires d in s.dcs
    ensures d in Run(s, Alone(n)).dcs && Run(s, Alone(n)).dcs[d].removed == s.dcs[d].removed
    decreases n
  {
    if n > 0 {
      assert Alone(n)[1..] == Alone(n - 1);
      DispatchRemovesNone(s, d);
      AloneRemovesNone(DispatchStep(s), n - 1, d);
    }
  }

  lemma DispatchRemovesNone(s: State, d: Id)
    requires d in s.dcs
    ensures d in DispatchStep(s).dcs && DispatchStep(s).dcs[d].removed == s.dcs[d].removed
  {
  }

  /** The dispatcher alone gives every component in use all that is queued for it. */
  lemma AloneServesAll(s: State, n: nat)
    requires Inv(s) && n >= OnceRound(s)
    ensures forall d {:trigger InUse(s, d)} :: InUse(s, d) && !s.dcs[d].removed ==>
      d in Run(s, Alone(n)).dcs && s.dcs[d].sent <= Run(s, Alone(n)).dcs[d].log
  {
    AloneCounts(n);
    forall d | InUse(s, d) && !s.dcs[d].removed
      ensures d in Run(s, Alone(n)).dcs && s.dcs[d].sent <= Run(s, Alone(n)).dcs[d].log
    {
      AloneRemovesNone(s, n, d);
      EveryComponentIsServed(s, Alone(n), d);
    }
  }

  // -------------------------------------------------------------- the removing thread

  /** The removal has found its component. */
  predicate Found(s: State) {
    s.rem.Exchange? || RmvBusy(s)
  }

  function Removals(es: seq<Event>): nat {
    if es == [] then 0 else (if es[0].Rmv? then 1 else 0) + Removals(es[1..])
  }

  /** How many actions the remover has before it, with what is queued now. */
  function RmvBefore(s: State): nat {
    match s.rem
    case Exchange(_, d) => 3 + 2 * Load(s, d)
    case RmvDrain(d, _) => 2 + 2 * Load(s, d)
    case RmvDeliver(d, _, _) => 3 + 2 * Load(s, d)
    case RmvFinish(_, _) => 1
    case _ => 0
  }

  function Load(s: State, d: Id): nat {
    if d in s.dcs then |s.dcs[d].queue| else 0
  }

  lemma RmvGoesOn(s: State)
    requires Inv(s) && Found(s)
    ensures var r := RmvStep(s);
      (r.rem == Done(true) || (Found(r) && r.rem.d == s.rem.d)) && RmvBefore(r) < RmvBefore(s)
  {
    assert DcOk(s, s.rem.d);
    hide LogOk, PoolOk, AddOk, SlotsOk, AddersOk;
    if s.rem.Exchange? {
      assert SlotAt(s, s.rem.i) == Has(s.rem.d) || SlotAt(s, s.rem.i) == Processing;
    }
  }

  lemma OthersKeepRmv(s: State, e: Event)
    requires Inv(s) && Found(s) && !e.Rmv?
    ensures var r := Step(s, e); r.rem == s.rem && RmvBefore(r) <= RmvBefore(s) + 2 * SendsTo([e], s.rem.d)
  {
    var d := s.rem.d;
    assert SendsTo([e], d) == (if e.Send? && e.d == d then 1 else 0) + SendsTo([], d);
    if Allowed(s, e) {
      match e
      case Dispatch => DispatchKeepsRmv(s, d);
      case Add(t) => AddKeepsRmv(s, t, d);
      case RmvCall(_) =>
      case AddCall(_, _, _) =>
      case Send(_, _) =>
    }
  }

  lemma DispatchKeepsRmv(s: State, d: Id)
    requires d in s.dcs
    ensures DispatchStep(s).rem == s.rem && Load(DispatchStep(s), d) <= Load(s, d)
  {
  }

  lemma AddKeepsRmv(s: State, t: Tid, d: Id)
    requires AddersOk(s) && d in s.dcs && s.dcs[d].added
    ensures AddStep(s, t).rem == s.rem && Load(AddStep(s, t), d) <= Load(s, d)
  {
    assert AdderOk(s, t);
  }

  /** However the threads interleave: a removal that has found its component ends, with OK, when
      its thread has done the actions that were left and two for each message sent meanwhile. */
  lemma {:induction false} RemovalEnds(s: State, es: seq<Event>, d: Id)
    requires Inv(s) && Found(s) && s.rem.d == d && forall e :: e in es ==> !e.RmvCall?
    requires Removals(es) >= RmvBefore(s) + 2 * SendsTo(es, d)
    ensures Run(s, es).rem == Done(true)
    decreases |es|
  {
    assert es != [];
    var e, r := es[0], Step(s, es[0]);
    assert e in es;
    StepKeepsInv(s, e);
    if e.Rmv? {
      RmvGoesOn(s);
    } else {
      OthersKeepRmv(s, e);
      assert SendsTo([e], d) == (if e.Send? && e.d == d then 1 else 0) + SendsTo([], d);
    }
    if r.rem == Done(true) {
      DoneStays(r, es[1..]);
    } else {
      RemovalEnds(r, es[1..], d);
    }
  }

  lemma {:induction false} DoneStays(s: State, es: seq<Event>)
    requires s.rem == Done(true) && forall e :: e in es ==> !e.RmvCall?
    ensures Run(s, es).rem == Done(true)
    decreases |es|
  {
    if es != [] {
      assert es[0] in es;
      assert Step(s, es[0]).rem == Done(true);
      DoneStays(Step(s, es[0]), es[1..]);
    }
  }
}
