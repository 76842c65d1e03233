/** The slot protocol of ac_dispatcher: one dispatching thread, one removing thread, any
    number of adding and sending threads, interleaved at every atomic access to a slot, a
    queue or a pool.  The queues are taken at their linearization points: a send adds at
    the exchange, and a removal takes the oldest message or finds none. */
module DispatcherMachine {

  type Tid = nat
  type Id = nat

  datatype Op = Init | User(arg: nat) | Deinit
  datatype Slot = Empty | Processing | Has(d: Id)

  /** Who may touch a dispatchable component; history. */
  datatype Holder = ByAdder | InSlot(i: nat) | ByDispatcher | ByRemover | Gone

  /** A dispatchable component.  `pool` counts the messages left in its pool.  The rest is
      history: `log` is what was delivered to the component, `sent` what was ever queued,
      `adder` the thread that added it, `added` that its add has returned, `removed` that
      a remover has exchanged its slot for it. */
  datatype Dc = Dc(
    comp: nat, queue: seq<Op>, pool: nat,
    log: seq<Op>, sent: seq<Op>, adder: Tid, added: bool, removed: bool, holder: Holder)

  /** Where AcDispatcher_dispatch is; `seen` is how much had been sent when it found the queue
      of its component empty. */
  datatype Dispatcher =
    | At(i: nat)
    | StoreEmpty(i: nat)
    | Drain(i: nat, d: Id)
    | Deliver(i: nat, d: Id, op: Op)
    | Restore(i: nat, d: Id, seen: nat)
    | Finish(i: nat, d: Id, seen: nat)

  /** Where AcDispatcher_rmv_comp is; `due` is how much had been sent at the exchange. */
  datatype Remover =
    | Done(ok: bool)
    | Scan(i: nat, comp: nat)
    | Exchange(i: nat, d: Id)
    | RmvDrain(d: Id, due: nat)
    | RmvDeliver(d: Id, op: Op, due: nat)
    | RmvFinish(d: Id, due: nat)

  /** Where a thread is in AcDispatcher_add_comp. */
  datatype Adder = Outside | Try(i: nat, d: Id) | GetMsg(d: Id) | SendInit(d: Id)

  datatype State = State(
    slots: seq<Slot>,
    dcs: map<Id, Dc>,
    disp: Dispatcher,
    rem: Remover,
    adders: map<Tid, Adder>)

  datatype Event =
    | Dispatch
    | RmvCall(comp: nat)
    | Rmv
    | AddCall(t: Tid, comp: nat, d: Id)
    | Add(t: Tid)
    | Send(d: Id, arg: nat)

  function AdderAt(s: State, t: Tid): Adder {
    if t in s.adders then s.adders[t] else Outside
  }

  function SlotAt(s: State, i: nat): Slot {
    if i < |s.slots| then s.slots[i] else Empty
  }

  function SetSlot(s: State, i: nat, x: Slot): (r: State)
    ensures |r.slots| == |s.slots| && r.dcs == s.dcs && r.disp == s.disp && r.rem == s.rem && r.adders == s.adders
    ensures forall j :: 0 <= j < |s.slots| ==> r.slots[j] == if j == i then x else s.slots[j]
  {
    if i < |s.slots| then s.(slots := s.slots[i := x]) else s
  }

  function SetDc(s: State, d: Id, c: Dc): State {
    s.(dcs := s.dcs[d := c])
  }

  /** One atomic action of the dispatching thread; from the last slot it starts again. */
  function DispatchStep(s: State): State {
    match s.disp
    case At(i) =>
      if i >= |s.slots| then s.(disp := At(0)) else
      (match s.slots[i]
       case Empty => SetSlot(s, i, Processing).(disp := StoreEmpty(i))
       case Processing => s.(disp := At(i + 1))
       case Has(d) =>
         if d !in s.dcs then s else
         SetDc(SetSlot(s, i, Processing), d, s.dcs[d].(holder := ByDispatcher)).(disp := Drain(i, d)))
    case StoreEmpty(i) => SetSlot(s, i, Empty).(disp := At(i + 1))
    case Drain(i, d) =>
      if d !in s.dcs then s else
      if s.dcs[d].queue == [] then s.(disp := Restore(i, d, |s.dcs[d].sent|)) else
      SetDc(s, d, s.dcs[d].(queue := s.dcs[d].queue[1..])).(disp := Deliver(i, d, s.dcs[d].queue[0]))
    case Deliver(i, d, op) =>
      if d !in s.dcs then s else
      SetDc(s, d, s.dcs[d].(log := s.dcs[d].log + [op])).(disp := Drain(i, d))
    case Restore(i, d, seen) =>
      if d !in s.dcs then s else
      if SlotAt(s, i) == Processing
      then SetDc(SetSlot(s, i, Has(d)), d, s.dcs[d].(holder := InSlot(i))).(disp := At(i + 1))
      else s.(disp := Finish(i, d, seen))
    case Finish(i, d, _) =>
      if d !in s.dcs then s else SetDc(s, d, Finished(s.dcs[d])).(disp := At(i + 1))
  }

  /** ret_dc: a message from the pool carries AC_DEINIT_CMD, then the component is freed. */
  function Finished(c: Dc): Dc {
    c.(pool := if c.pool > 0 then c.pool - 1 else 0, log := c.log + [Deinit], holder := Gone)
  }

  /** One atomic action of the removing thread. */
  function RmvStep(s: State): State {
    match s.rem
    case Done(_) => s
    case Scan(i, comp) =>
      if i >= |s.slots| then s.(rem := Done(false)) else
      (match s.slots[i]
       case Empty => s.(rem := Scan(i + 1, comp))
       case Processing => s
       case Has(d) => s.(rem := if d in s.dcs && s.dcs[d].comp == comp then Exchange(i, d) else Scan(i + 1, comp)))
    case Exchange(i, d) =>
      if d !in s.dcs then s else
      (match SlotAt(s, i)
       case Has(e) =>
         if e != d then s else
         SetDc(SetSlot(s, i, Empty), d,
           s.dcs[d].(removed := true, holder := ByRemover)).(rem := RmvDrain(d, |s.dcs[d].sent|))
       case _ => SetDc(SetSlot(s, i, Empty), d, s.dcs[d].(removed := true)).(rem := Done(true)))
    case RmvDrain(d, due) =>
      if d !in s.dcs then s else
      if s.dcs[d].queue == [] then s.(rem := RmvFinish(d, due)) else
      SetDc(s, d, s.dcs[d].(queue := s.dcs[d].queue[1..])).(rem := RmvDeliver(d, s.dcs[d].queue[0], due))
    case RmvDeliver(d, op, due) =>
      if d !in s.dcs then s else
      SetDc(s, d, s.dcs[d].(log := s.dcs[d].log + [op])).(rem := RmvDrain(d, due))
    case RmvFinish(d, due) =>
      if d !in s.dcs then s else SetDc(s, d, Finished(s.dcs[d])).(rem := Done(true))
  }

  function Queued(c: Dc, op: Op): Dc {
    c.(queue := c.queue + [op], sent := c.sent + [op])
  }

  /** One atomic action of an adding thread. */
  function AddStep(s: State, t: Tid): State {
    match AdderAt(s, t)
    case Outside => s
    case Try(i, d) =>
      if d !in s.dcs then s else
      if i >= |s.slots| then SetDc(s, d, s.dcs[d].(holder := Gone)).(adders := s.adders[t := Outside]) else
      if s.slots[i] == Empty
      then SetDc(SetSlot(s, i, Has(d)), d, s.dcs[d].(holder := InSlot(i))).(adders := s.adders[t := GetMsg(d)])
      else s.(adders := s.adders[t := Try(i + 1, d)])
    case GetMsg(d) =>
      if d !in s.dcs then s else
      SetDc(s, d,
        s.dcs[d].(pool := if s.dcs[d].pool > 0 then s.dcs[d].pool - 1 else 0)).(adders := s.adders[t := SendInit(d)])
    case SendInit(d) =>
      if d !in s.dcs then s else
      SetDc(s, d, Queued(s.dcs[d], Init).(added := true)).(adders := s.adders[t := Outside])
  }

  /** The component a removal is looking for. */
  predicate Removing(s: State, comp: nat) {
    s.rem.Scan? && s.rem.comp == comp
  }

  /** Thread `t` is adding the component `comp`. */
  predicate AddingComp(s: State, t: Tid, comp: nat) {
    var a := AdderAt(s, t);
    !a.Outside? && a.d in s.dcs && s.dcs[a.d].comp == comp
  }

  /** No component is added while a removal looks for it, so that a removal only meets
      components whose add has returned; messages are sent to such components only. */
  ghost predicate Allowed(s: State, e: Event) {
    match e
    case Dispatch => true
    case Rmv => true
    case Add(_) => true
    case RmvCall(comp) => s.rem.Done? && forall t :: !AddingComp(s, t, comp)
    case AddCall(t, comp, d) => AdderAt(s, t).Outside? && d !in s.dcs && !Removing(s, comp)
    case Send(d, _) => d in s.dcs && s.dcs[d].added
  }

  ghost function Step(s: State, e: Event): State {
    if !Allowed(s, e) then s else
    match e
    case Dispatch => DispatchStep(s)
    case Rmv => RmvStep(s)
    case Add(t) => AddStep(s, t)
    case RmvCall(comp) => s.(rem := Scan(0, comp))
    case AddCall(t, comp, d) =>
      SetDc(s, d, Dc(comp, [], 2, [], [], t, false, false, ByAdder)).(adders := s.adders[t := Try(0, d)])
    case Send(d, arg) => SetDc(s, d, Queued(s.dcs[d], User(arg)))
  }

  ghost function Run(s: State, es: seq<Event>): State
    decreases |es|
  {
    if es == [] then s else Run(Step(s, es[0]), es[1..])
  }

  // ---------------------------------------------------------------- invariant

  predicate DispHolds(s: State, d: Id) {
    DispBusy(s) && s.disp.d == d
  }

  predicate RmvHolds(s: State, d: Id) {
    RmvBusy(s) && s.rem.d == d
  }

  /** The message taken from the queue of `d` and not delivered yet. */
  function Inflight(s: State, d: Id): seq<Op> {
    if s.disp.Deliver? && s.disp.d == d then [s.disp.op]
    else if s.rem.RmvDeliver? && s.rem.d == d then [s.rem.op] else []
  }

  /** AC_INIT_CMD comes first and once, and AC_DEINIT_CMD is never sent. */
  predicate SentOk(sent: seq<Op>) {
    sent != [] ==> sent[0] == Init && forall k :: 1 <= k < |sent| ==> sent[k].User?
  }

  /** What was delivered, without the final AC_DEINIT_CMD. */
  function Body(c: Dc): seq<Op> {
    if c.holder == Gone && c.log != [] then c.log[..|c.log| - 1] else c.log
  }

  predicate LogOk(s: State, d: Id)
    requires d in s.dcs
  {
    var c := s.dcs[d];
    && SentOk(c.sent)
    && Body(c) + Inflight(s, d) + c.queue == c.sent
    && (c.holder == Gone && c.log != [] ==> c.log[|c.log| - 1] == Deinit && |c.log| > 1)
    && (c.holder == Gone && c.log == [] ==> c.sent == [])
  }

  /** The messages taken from the pool: one for each command. */
  predicate PoolOk(s: State, d: Id)
    requires d in s.dcs
  {
    var c := s.dcs[d];
    c.pool + (if c.added || (c.holder != Gone && AdderAt(s, c.adder) == SendInit(d)) then 1 else 0)
           + (if c.holder == Gone && c.log != [] then 1 else 0) == 2
  }

  /** Until its add returns, a component is in the hands of its adder as well. */
  predicate AddOk(s: State, d: Id)
    requires d in s.dcs
  {
    var c := s.dcs[d];
    var a := AdderAt(s, c.adder);
    if c.added then c.sent != []
    else
      && c.sent == [] && !c.removed
      && match c.holder
         case ByAdder => a.Try? && a.d == d
         case Gone => c.log == [] && c.pool == 2
         case ByRemover => false
         case _ => a == GetMsg(d) || a == SendInit(d)
  }

  predicate HolderOk(s: State, d: Id)
    requires d in s.dcs
  {
    var c := s.dcs[d];
    match c.holder
    case ByAdder => !c.added
    case InSlot(i) => SlotAt(s, i) == Has(d) && !c.removed
    case ByDispatcher => DispHolds(s, d)
    case ByRemover => RmvHolds(s, d)
    case Gone => true
  }

  predicate DcOk(s: State, d: Id)
    requires d in s.dcs
  {
    LogOk(s, d) && PoolOk(s, d) && AddOk(s, d) && HolderOk(s, d)
  }

  predicate SlotOk(s: State, i: nat) {
    match SlotAt(s, i)
    case Empty => true
    case Processing => !s.disp.At? && !s.disp.Finish? && s.disp.i == i
    case Has(d) => d in s.dcs && s.dcs[d].holder == InSlot(i)
  }

  /** The dispatcher has a component in its hands. */
  predicate DispBusy(s: State) {
    s.disp.Drain? || s.disp.Deliver? || s.disp.Restore? || s.disp.Finish?
  }

  predicate DispOk(s: State) {
    && (s.disp.StoreEmpty? ==> SlotAt(s, s.disp.i) == Processing)
    && (DispBusy(s) ==>
          && s.disp.d in s.dcs && s.dcs[s.disp.d].holder == ByDispatcher && s.disp.i < |s.slots|
          && (SlotAt(s, s.disp.i) == Processing <==> !s.dcs[s.disp.d].removed)
          && (s.disp.Finish? ==> s.dcs[s.disp.d].removed)
          && (Leaving(s) ==> IsPrefix(s.dcs[s.disp.d].log, s.dcs[s.disp.d].sent, s.disp.seen))
          && (Leaving(s) && (s.dcs[s.disp.d].removed || Wanted(s, s.disp.d)) ==> s.dcs[s.disp.d].log != []))
  }

  predicate IsPrefix(log: seq<Op>, sent: seq<Op>, n: nat) {
    n <= |sent| && log == sent[..n]
  }

  /** The dispatcher has found the queue of its component empty. */
  predicate Leaving(s: State) {
    s.disp.Restore? || s.disp.Finish?
  }

  /** The remover is about to exchange the slot for component `d`. */
  predicate Wanted(s: State, d: Id) {
    s.rem.Exchange? && s.rem.d == d
  }

  /** The remover has a component in its hands. */
  predicate RmvBusy(s: State) {
    s.rem.RmvDrain? || s.rem.RmvDeliver? || s.rem.RmvFinish?
  }

  predicate RmvOk(s: State) {
    && (s.rem.Exchange? ==>
          && s.rem.d in s.dcs && s.dcs[s.rem.d].added && !s.dcs[s.rem.d].removed && s.rem.i < |s.slots|
          && (s.dcs[s.rem.d].holder == InSlot(s.rem.i) || (DispHolds(s, s.rem.d) && s.disp.i == s.rem.i)))
    && (RmvBusy(s) ==>
          && s.rem.d in s.dcs && s.dcs[s.rem.d].holder == ByRemover && s.dcs[s.rem.d].removed && s.dcs[s.rem.d].added
          && s.rem.due <= |s.dcs[s.rem.d].sent|
          && (s.rem.RmvFinish? ==> s.rem.due <= |s.dcs[s.rem.d].log| && s.dcs[s.rem.d].log != []))
  }

  predicate AdderOk(s: State, t: Tid) {
    var a := AdderAt(s, t);
    !a.Outside? ==>
      && a.d in s.dcs && s.dcs[a.d].adder == t && !s.dcs[a.d].added && s.dcs[a.d].holder != Gone
      && (a.Try? <==> s.dcs[a.d].holder == ByAdder)
      && !Removing(s, s.dcs[a.d].comp)
  }

  ghost predicate SlotsOk(s: State) {
    forall i: nat {:trigger SlotOk(s, i)} :: SlotOk(s, i)
  }

  ghost predicate DcsOk(s: State) {
    forall d {:trigger DcOk(s, d)} :: d in s.dcs ==> DcOk(s, d)
  }

  ghost predicate AddersOk(s: State) {
    forall t {:trigger AdderOk(s, t)} :: AdderOk(s, t)
  }

  ghost predicate Inv(s: State) {
    SlotsOk(s) && DcsOk(s) && AddersOk(s) && DispOk(s) && RmvOk(s)
  }

  /** AcDispatcher_get: all slots are empty. */
  ghost predicate Initial(s: State) {
    && (forall i :: 0 <= i < |s.slots| ==> s.slots[i] == Empty)
    && s.dcs == map[] && s.disp == At(0) && s.rem == Done(false) && s.adders == map[]
  }

  lemma InitialInv(s: State)
    requires Initial(s)
    ensures Inv(s)
  {
  }

  // ---------------------------------------------------------- one step keeps it

  /** What component `d` depends on is the same in `r` as in `s`. */
  predicate Same(s: State, r: State, d: Id) {
    && d in s.dcs && d in r.dcs && r.dcs[d] == s.dcs[d]
    && Inflight(r, d) == Inflight(s, d)
    && (s.dcs[d].added || s.dcs[d].holder == Gone || AdderAt(r, s.dcs[d].adder) == AdderAt(s, s.dcs[d].adder))
    && match s.dcs[d].holder
       case InSlot(i) => SlotAt(r, i) == SlotAt(s, i)
       case ByDispatcher => DispHolds(r, d) <==> DispHolds(s, d)
       case ByRemover => RmvHolds(r, d) <==> RmvHolds(s, d)
       case _ => true
  }

  lemma DcFrame(s: State, r: State, d: Id)
    requires Same(s, r, d) && DcOk(s, d)
    ensures DcOk(r, d)
  {
  }

  /** A step for component `d` alone. */
  lemma OthersKept(s: State, r: State, d: Id)
    requires DcsOk(s) && r.dcs.Keys <= s.dcs.Keys + {d} && (d in r.dcs ==> DcOk(r, d))
    requires forall e {:trigger Same(s, r, e)} :: e in s.dcs && e != d ==> Same(s, r, e)
    ensures DcsOk(r)
  {
    forall e | e in r.dcs
      ensures DcOk(r, e)
    {
      if e != d {
        assert Same(s, r, e) && DcOk(s, e);
        DcFrame(s, r, e);
      }
    }
  }

  // ------------------------------------------------------- calls and sends

  lemma SendKeepsInv(s: State, d: Id, arg: nat)
    requires Inv(s) && Allowed(s, Send(d, arg))
    ensures Inv(Step(s, Send(d, arg)))
  {
    hide LogOk, PoolOk;
    var r := Step(s, Send(d, arg));
    SendKeepsDc(s, d, arg);
    OthersKept(s, r, d);
    SendKeepsRest(s, d, arg);
  }

  lemma SendKeepsDc(s: State, d: Id, arg: nat)
    requires DcsOk(s) && d in s.dcs && s.dcs[d].added
    ensures DcOk(Step(s, Send(d, arg)), d)
  {
    assert DcOk(s, d);
    var c := s.dcs[d];
    assert (Body(c) + Inflight(s, d) + c.queue) + [User(arg)] == Body(c) + Inflight(s, d) + (c.queue + [User(arg)]);
  }

  lemma SendKeepsRest(s: State, d: Id, arg: nat)
    requires SlotsOk(s) && AddersOk(s) && d in s.dcs && s.dcs[d].added
    ensures SlotsOk(Step(s, Send(d, arg))) && AddersOk(Step(s, Send(d, arg)))
  {
    var r := Step(s, Send(d, arg));
    forall i: nat
      ensures SlotOk(r, i)
    {
      assert SlotOk(s, i);
    }
    forall t
      ensures AdderOk(r, t)
    {
      assert AdderOk(s, t);
    }
  }

  lemma AddCallKeepsInv(s: State, t: Tid, comp: nat, d: Id)
    requires Inv(s) && Allowed(s, AddCall(t, comp, d))
    ensures Inv(Step(s, AddCall(t, comp, d)))
  {
    var r := Step(s, AddCall(t, comp, d));
    forall e | e in s.dcs && e != d
      ensures Same(s, r, e)
    {
      assert DcOk(s, e);
    }
    OthersKept(s, r, d);
    AddCallKeepsRest(s, t, comp, d);
  }

  lemma AddCallKeepsRest(s: State, t: Tid, comp: nat, d: Id)
    requires SlotsOk(s) && AddersOk(s) && Allowed(s, AddCall(t, comp, d))
    ensures SlotsOk(Step(s, AddCall(t, comp, d))) && AddersOk(Step(s, AddCall(t, comp, d)))
  {
    var r := Step(s, AddCall(t, comp, d));
    forall i: nat
      ensures SlotOk(r, i)
    {
      assert SlotOk(s, i);
    }
    forall u
      ensures AdderOk(r, u)
    {
      assert AdderOk(s, u);
    }
  }

  lemma RmvCallKeepsInv(s: State, comp: nat)
    requires Inv(s) && Allowed(s, RmvCall(comp))
    ensures Inv(Step(s, RmvCall(comp)))
  {
    var r := Step(s, RmvCall(comp));
    forall e | e in r.dcs
      ensures DcOk(r, e)
    {
      assert DcOk(s, e);
      DcFrame(s, r, e);
    }
    forall i: nat
      ensures SlotOk(r, i)
    {
      assert SlotOk(s, i);
    }
    forall t
      ensures AdderOk(r, t)
    {
      assert AdderOk(s, t) && !AddingComp(s, t, comp);
    }
  }

  // ------------------------------------------------------- the adders

  lemma AddKeepsInv(s: State, t: Tid)
    requires Inv(s)
    ensures Inv(AddStep(s, t))
  {
    assert AdderOk(s, t);
    if !AdderAt(s, t).Outside? {
      var d := AdderAt(s, t).d;
      assert DcOk(s, d);
      AddKeepsDcs(s, t, d);
      AddKeepsSlots(s, t, d);
      AddKeepsAdders(s, t, d);
      AddKeepsHolders(s, t, d);
    }
  }

  lemma AddKeepsDcs(s: State, t: Tid, d: Id)
    requires DcsOk(s) && AddersOk(s) && AdderOk(s, t) && !AdderAt(s, t).Outside? && d == AdderAt(s, t).d && DcOk(s, d)
    ensures DcsOk(AddStep(s, t))
  {
    var r := AddStep(s, t);
    forall e | e in s.dcs && e != d
      ensures Same(s, r, e)
    {
      assert DcOk(s, e);
      assert AdderOk(s, s.dcs[e].adder);
    }
    AddKeepsDc(s, t, d);
    OthersKept(s, r, d);
  }

  lemma AddKeepsDc(s: State, t: Tid, d: Id)
    requires AdderOk(s, t) && !AdderAt(s, t).Outside? && d == AdderAt(s, t).d && DcOk(s, d)
    ensures DcOk(AddStep(s, t), d)
  {
    match AdderAt(s, t)
    case Outside =>
    case Try(_, _) => TryKeepsDc(s, t, d);
    case GetMsg(_) => GetMsgKeepsDc(s, t, d);
    case SendInit(_) => SendInitKeepsDc(s, t, d);
  }

  lemma TryKeepsDc(s: State, t: Tid, d: Id)
    requires AdderOk(s, t) && AdderAt(s, t).Try? && d == AdderAt(s, t).d && DcOk(s, d)
    ensures DcOk(AddStep(s, t), d)
  {
  }

  lemma GetMsgKeepsDc(s: State, t: Tid, d: Id)
    requires AdderOk(s, t) && AdderAt(s, t).GetMsg? && d == AdderAt(s, t).d && DcOk(s, d)
    ensures DcOk(AddStep(s, t), d)
  {
  }

  lemma SendInitKeepsDc(s: State, t: Tid, d: Id)
    requires AdderOk(s, t) && AdderAt(s, t).SendInit? && d == AdderAt(s, t).d && DcOk(s, d)
    ensures DcOk(AddStep(s, t), d)
  {
    var c := s.dcs[d];
    assert Body(c) + Inflight(s, d) + c.queue == [];
  }

  lemma AddKeepsSlots(s: State, t: Tid, d: Id)
    requires SlotsOk(s) && AdderOk(s, t) && !AdderAt(s, t).Outside? && d == AdderAt(s, t).d && DcOk(s, d)
    ensures SlotsOk(AddStep(s, t))
  {
    var r := AddStep(s, t);
    forall i: nat
      ensures SlotOk(r, i)
    {
      assert SlotOk(s, i);
    }
  }

  lemma AddKeepsAdders(s: State, t: Tid, d: Id)
    requires AddersOk(s) && AdderOk(s, t) && !AdderAt(s, t).Outside? && d == AdderAt(s, t).d && DcOk(s, d)
    ensures AddersOk(AddStep(s, t))
  {
    var r := AddStep(s, t);
    forall u
      ensures AdderOk(r, u)
    {
      assert AdderOk(s, u);
    }
  }

  lemma AddKeepsHolders(s: State, t: Tid, d: Id)
    requires DispOk(s) && RmvOk(s) && AdderOk(s, t) && !AdderAt(s, t).Outside? && d == AdderAt(s, t).d && DcOk(s, d)
    ensures DispOk(AddStep(s, t)) && RmvOk(AddStep(s, t))
  {
  }

  // ------------------------------------------------------- the dispatcher

  lemma DispatchKeepsInv(s: State)
    requires Inv(s)
    ensures Inv(DispatchStep(s))
  {
    if s.disp.At? || s.disp.StoreEmpty? {
      assert SlotOk(s, s.disp.i);
      if s.disp.At? && s.disp.i < |s.slots| && s.slots[s.disp.i].Has? {
        TakeKeepsInv(s, s.slots[s.disp.i].d);
      } else {
        PassKeepsInv(s);
      }
    } else {
      assert DcOk(s, s.disp.d);
      WorkKeepsInv(s, s.disp.d);
    }
  }

  /** Slots without a component. */
  lemma PassKeepsInv(s: State)
    requires Inv(s) && (s.disp.At? || s.disp.StoreEmpty?) && SlotOk(s, s.disp.i)
    requires s.disp.At? ==> s.disp.i >= |s.slots| || !s.slots[s.disp.i].Has?
    ensures Inv(DispatchStep(s))
  {
    PassKeepsDcs(s);
    PassKeepsRest(s);
  }

  lemma PassKeepsDcs(s: State)
    requires DcsOk(s) && (s.disp.At? || s.disp.StoreEmpty?) && SlotOk(s, s.disp.i) && DispOk(s)
    requires s.disp.At? ==> s.disp.i >= |s.slots| || !s.slots[s.disp.i].Has?
    ensures DcsOk(DispatchStep(s))
  {
    hide LogOk, PoolOk;
    var r := DispatchStep(s);
    forall d | d in r.dcs
      ensures DcOk(r, d)
    {
      assert DcOk(s, d);
      DcFrame(s, r, d);
    }
  }

  lemma PassKeepsRest(s: State)
    requires SlotsOk(s) && AddersOk(s) && DispOk(s) && RmvOk(s) && (s.disp.At? || s.disp.StoreEmpty?)
      && SlotOk(s, s.disp.i)
    requires s.disp.At? ==> s.disp.i >= |s.slots| || !s.slots[s.disp.i].Has?
    ensures SlotsOk(DispatchStep(s)) && AddersOk(DispatchStep(s)) && DispOk(DispatchStep(s)) && RmvOk(DispatchStep(s))
  {
    var r := DispatchStep(s);
    forall i: nat
      ensures SlotOk(r, i)
    {
      assert SlotOk(s, i);
    }
    forall t
      ensures AdderOk(r, t)
    {
      assert AdderOk(s, t);
    }
  }

  /** The exchange that takes component `d` out of its slot. */
  lemma TakeKeepsInv(s: State, d: Id)
    requires Inv(s) && s.disp.At? && SlotAt(s, s.disp.i) == Has(d) && SlotOk(s, s.disp.i)
    ensures Inv(DispatchStep(s))
  {
    var r := DispatchStep(s);
    assert DcOk(s, d);
    forall e | e in s.dcs && e != d
      ensures Same(s, r, e)
    {
      assert DcOk(s, e);
    }
    OthersKept(s, r, d);
    TakeKeepsRest(s, d);
  }

  lemma TakeKeepsRest(s: State, d: Id)
    requires SlotsOk(s) && AddersOk(s) && s.disp.At? && SlotAt(s, s.disp.i) == Has(d) && SlotOk(s, s.disp.i)
      && DcOk(s, d)
    ensures SlotsOk(DispatchStep(s)) && AddersOk(DispatchStep(s))
  {
    var r := DispatchStep(s);
    forall i: nat
      ensures SlotOk(r, i)
    {
      assert SlotOk(s, i);
    }
    forall t
      ensures AdderOk(r, t)
    {
      assert AdderOk(s, t);
    }
  }

  /** Draining, delivering, putting back and finishing component `d`. */
  lemma WorkKeepsInv(s: State, d: Id)
    requires Inv(s) && DispBusy(s) && s.disp.d == d && DcOk(s, d)
    ensures Inv(DispatchStep(s))
  {
    WorkKeepsDcs(s, d);
    WorkKeepsSlots(s, d);
    WorkKeepsAdders(s, d);
    WorkKeepsHolders(s, d);
  }

  lemma WorkKeepsDcs(s: State, d: Id)
    requires DcsOk(s) && DispOk(s) && RmvOk(s) && DispBusy(s) && s.disp.d == d && DcOk(s, d)
    ensures DcsOk(DispatchStep(s))
  {
    hide LogOk, PoolOk;
    var r := DispatchStep(s);
    forall e | e in s.dcs && e != d
      ensures Same(s, r, e)
    {
      assert DcOk(s, e);
    }
    WorkKeepsDc(s, d);
    OthersKept(s, r, d);
  }

  lemma WorkKeepsDc(s: State, d: Id)
    requires DispOk(s) && RmvOk(s) && DispBusy(s) && s.disp.d == d && DcOk(s, d)
    ensures DcOk(DispatchStep(s), d)
  {
    match s.disp
    case Drain(_, _) => DrainKeepsDc(s, d);
    case Deliver(_, _, op) => DeliverKeepsDc(s, d, op);
    case Restore(_, _, _) =>
    case Finish(_, _, _) =>
      assert Body(DispatchStep(s).dcs[d]) == s.dcs[d].log;
    case _ =>
  }

  lemma DrainKeepsDc(s: State, d: Id)
    requires DispOk(s) && RmvOk(s) && s.disp.Drain? && s.disp.d == d && DcOk(s, d)
    ensures DcOk(DispatchStep(s), d)
  {
    var c := s.dcs[d];
    if c.queue != [] {
      assert c.queue == [c.queue[0]] + c.queue[1..];
      assert c.log + [] + c.queue == c.log + [c.queue[0]] + c.queue[1..];
    }
  }

  lemma DeliverKeepsDc(s: State, d: Id, op: Op)
    requires DispOk(s) && RmvOk(s) && s.disp.Deliver? && s.disp.d == d && s.disp.op == op && DcOk(s, d)
    ensures DcOk(DispatchStep(s), d)
  {
    var c := s.dcs[d];
    assert c.log + [op] + c.queue == (c.log + [op]) + [] + c.queue;
  }

  lemma WorkKeepsSlots(s: State, d: Id)
    requires SlotsOk(s) && DispOk(s) && DispBusy(s) && s.disp.d == d && DcOk(s, d)
    ensures SlotsOk(DispatchStep(s))
  {
    var r := DispatchStep(s);
    forall i: nat
      ensures SlotOk(r, i)
    {
      assert SlotOk(s, i);
    }
  }

  lemma WorkKeepsAdders(s: State, d: Id)
    requires AddersOk(s) && DispOk(s) && DispBusy(s) && s.disp.d == d && DcOk(s, d)
    ensures AddersOk(DispatchStep(s))
  {
    var r := DispatchStep(s);
    forall t
      ensures AdderOk(r, t)
    {
      assert AdderOk(s, t);
    }
  }

  lemma WorkKeepsHolders(s: State, d: Id)
    requires DispOk(s) && RmvOk(s) && DispBusy(s) && s.disp.d == d && DcOk(s, d)
    ensures DispOk(DispatchStep(s)) && RmvOk(DispatchStep(s))
  {
  }

  // ------------------------------------------------------- the remover

  lemma RmvKeepsInv(s: State)
    requires Inv(s)
    ensures Inv(RmvStep(s))
  {
    if s.rem.Exchange? {
      assert DcOk(s, s.rem.d) && SlotOk(s, s.rem.i);
      ExchangeKeepsInv(s, s.rem.d);
    } else if RmvBusy(s) {
      assert DcOk(s, s.rem.d);
      RmvWorkKeepsInv(s, s.rem.d);
    } else if s.rem.Scan? {
      ScanKeepsInv(s);
    }
  }

  lemma ScanKeepsInv(s: State)
    requires Inv(s) && s.rem.Scan?
    ensures Inv(RmvStep(s))
  {
    hide LogOk, PoolOk;
    var r := RmvStep(s);
    forall d | d in r.dcs
      ensures DcOk(r, d)
    {
      assert DcOk(s, d);
      DcFrame(s, r, d);
    }
    ScanKeepsRest(s);
    forall t
      ensures AdderOk(r, t)
    {
      assert AdderOk(s, t);
    }
  }

  /** The component the removal meets has been added, as no add of it is under way. */
  lemma ScanKeepsRest(s: State)
    requires SlotsOk(s) && DcsOk(s) && AddersOk(s) && DispOk(s) && s.rem.Scan?
    ensures SlotsOk(RmvStep(s)) && DispOk(RmvStep(s)) && RmvOk(RmvStep(s))
  {
    hide LogOk, PoolOk;
    var r := RmvStep(s);
    forall i: nat
      ensures SlotOk(r, i)
    {
      assert SlotOk(s, i);
    }
    assert SlotOk(s, s.rem.i);
    if r.rem.Exchange? {
      var d := r.rem.d;
      assert DcOk(s, d) && AdderOk(s, s.dcs[d].adder);
    }
  }

  lemma ExchangeKeepsInv(s: State, d: Id)
    requires Inv(s) && s.rem.Exchange? && s.rem.d == d && DcOk(s, d) && SlotOk(s, s.rem.i)
    ensures Inv(RmvStep(s))
  {
    var r := RmvStep(s);
    forall e | e in s.dcs && e != d
      ensures Same(s, r, e)
    {
      assert DcOk(s, e);
    }
    OthersKept(s, r, d);
    ExchangeKeepsRest(s, d);
  }

  lemma ExchangeKeepsRest(s: State, d: Id)
    requires SlotsOk(s) && AddersOk(s) && DispOk(s) && RmvOk(s)
    requires s.rem.Exchange? && s.rem.d == d && DcOk(s, d) && SlotOk(s, s.rem.i)
    ensures SlotsOk(RmvStep(s)) && AddersOk(RmvStep(s)) && DispOk(RmvStep(s)) && RmvOk(RmvStep(s))
  {
    var r := RmvStep(s);
    forall i: nat
      ensures SlotOk(r, i)
    {
      assert SlotOk(s, i);
    }
    forall t
      ensures AdderOk(r, t)
    {
      assert AdderOk(s, t);
    }
  }

  /** Draining, delivering and finishing component `d`. */
  lemma RmvWorkKeepsInv(s: State, d: Id)
    requires Inv(s) && RmvBusy(s) && s.rem.d == d && DcOk(s, d)
    ensures Inv(RmvStep(s))
  {
    hide LogOk, PoolOk;
    var r := RmvStep(s);
    forall e | e in s.dcs && e != d
      ensures Same(s, r, e)
    {
      assert DcOk(s, e);
    }
    RmvWorkKeepsDc(s, d);
    OthersKept(s, r, d);
    RmvWorkKeepsRest(s, d);
  }

  lemma RmvWorkKeepsDc(s: State, d: Id)
    requires RmvOk(s) && DispOk(s) && RmvBusy(s) && s.rem.d == d && DcOk(s, d)
    ensures DcOk(RmvStep(s), d)
  {
    var c, e := s.dcs[d], RmvStep(s).dcs[d];
    if s.rem.RmvDrain? && c.queue != [] {
      assert c.queue == [c.queue[0]] + c.queue[1..];
      assert c.log + [] + c.queue == c.log + [c.queue[0]] + c.queue[1..];
    } else if s.rem.RmvDeliver? {
      assert c.log + [s.rem.op] + c.queue == e.log + [] + e.queue;
    } else if s.rem.RmvFinish? {
      assert Body(e) == c.log;
    }
  }

  lemma RmvWorkKeepsRest(s: State, d: Id)
    requires SlotsOk(s) && AddersOk(s) && DispOk(s) && RmvOk(s) && RmvBusy(s) && s.rem.d == d && DcOk(s, d)
    ensures SlotsOk(RmvStep(s)) && AddersOk(RmvStep(s)) && DispOk(RmvStep(s)) && RmvOk(RmvStep(s))
  {
    var r := RmvStep(s);
    forall i: nat
      ensures SlotOk(r, i)
    {
      assert SlotOk(s, i);
    }
    forall t
      ensures AdderOk(r, t)
    {
      assert AdderOk(s, t);
    }
  }

  lemma StepKeepsInv(s: State, e: Event)
    requires Inv(s)
    ensures Inv(Step(s, e))
  {
    if Allowed(s, e) {
      match e
      case Dispatch => DispatchKeepsInv(s);
      case Rmv => RmvKeepsInv(s);
      case Add(t) => AddKeepsInv(s, t);
      case RmvCall(comp) => RmvCallKeepsInv(s, comp);
      case AddCall(t, comp, d) => AddCallKeepsInv(s, t, comp, d);
      case Send(d, arg) => SendKeepsInv(s, d, arg);
    }
  }

  lemma {:induction false} RunKeepsInv(s: State, es: seq<Event>)
    requires Inv(s)
    ensures Inv(Run(s, es))
    decreases |es|
  {
    if es != [] {
      StepKeepsInv(s, es[0]);
      RunKeepsInv(Step(s, es[0]), es[1..]);
    }
  }
}
