/** Calls of AcMpscLinkList get to their end: what add and rmv do when they run alone, and
    how far their own actions take them however other threads run in between. */
module LinkListProgress {
  import opened LinkListMachine
  import opened LinkListTheorems

  // ------------------------------------------------------------------------ add

  /** How many actions a call of add has before it, counted from the place it is at. */
  function ActionsLeft(p: Producer): nat {
    match p
    case Idle => 0
    case SetNext(_, _, _) => 4
    case SetMsg(_, _, _) => 3
    case Exchange(_, _, _) => 2
    case Link(_, _, _, _) => 1
  }

  function Count(es: seq<Event>, e: Event): nat {
    if es == [] then 0 else (if es[0] == e then 1 else 0) + Count(es[1..], e)
  }

  predicate NotYetQueued(p: Producer) {
    p.SetNext? || p.SetMsg? || p.Exchange?
  }

  /** Each action of a thread inside add takes its call one action nearer to the end, with
      the message and the list it began with, and no other event moves it. */
  lemma AddGoesOn(s: State, e: Event, t: Tid)
    requires Inv(s) && !ProducerAt(s, t).Idle?
    ensures var (p, r) := (ProducerAt(s, t), ProducerAt(Step(s, e), t));
      && (e != Act(t) ==> r == p)
      && (e == Act(t) ==> ActionsLeft(r) == ActionsLeft(p) - 1)
      && (NotYetQueued(r) ==> NotYetQueued(p) && r.l == p.l && r.msg == p.msg && r.node == p.node)
  {
    match e
    case Add(_, _, _) =>
    case Act(_) => ActGoesOn(s, e.t, t);
    case Rmv(_) =>
  }

  lemma ActGoesOn(s: State, u: Tid, t: Tid)
    requires Inv(s) && !ProducerAt(s, t).Idle?
    ensures var (p, r) := (ProducerAt(s, t), ProducerAt(ProducerStep(s, u), t));
      && (u != t ==> r == p)
      && (u == t ==> ActionsLeft(r) == ActionsLeft(p) - 1)
      && (NotYetQueued(r) ==> NotYetQueued(p) && r.l == p.l && r.msg == p.msg && r.node == p.node)
  {
    if u == t {
      assert ProducerOk(s, t);
      OwnAct(s, t);
    } else {
      OthersAct(s, u, t);
    }
  }

  lemma OwnAct(s: State, t: Tid)
    requires ProducerAt(s, t).Exchange? ==> ProducerAt(s, t).l in s.lists
    requires !ProducerAt(s, t).Idle?
    ensures var (p, r) := (ProducerAt(s, t), ProducerAt(ProducerStep(s, t), t));
      && ActionsLeft(r) == ActionsLeft(p) - 1
      && (NotYetQueued(r) ==> NotYetQueued(p) && r.l == p.l && r.msg == p.msg && r.node == p.node)
  {
  }

  lemma OthersAct(s: State, u: Tid, t: Tid)
    requires u != t
    ensures ProducerAt(ProducerStep(s, u), t) == ProducerAt(s, t)
  {
  }

  /** However the threads interleave, a call of add has ended when its thread has done as
      many actions as were left, and has that many fewer left before. */
  lemma {:induction false} AddEnds(s: State, es: seq<Event>, t: Tid)
    requires Inv(s) && forall e :: e in es && e.Add? ==> e.t != t
    ensures var (left, done) := (ActionsLeft(ProducerAt(s, t)), Count(es, Act(t)));
      ActionsLeft(ProducerAt(Run(s, es), t)) == if done < left then left - done else 0
    decreases |es|
  {
    if es != [] {
      assert es[0] in es;
      StepKeepsInv(s, es[0]);
      if ProducerAt(s, t).Idle? {
        IdleStays(s, es[0], t);
      } else {
        AddGoesOn(s, es[0], t);
      }
      AddEnds(Step(s, es[0]), es[1..], t);
    }
  }

  lemma IdleStays(s: State, e: Event, t: Tid)
    requires ProducerAt(s, t).Idle? && (e.Add? ==> e.t != t)
    ensures ProducerAt(Step(s, e), t).Idle?
  {
    match e
    case Add(_, _, _) =>
    case Act(_) =>
    case Rmv(_) =>
  }

  /** A message whose add has done all but its last action is in the list: rmv has returned
      it or it is still queued. */
  lemma {:induction false} AddQueues(s: State, es: seq<Event>, t: Tid)
    requires Inv(s) && NotYetQueued(ProducerAt(s, t))
    requires Count(es, Act(t)) >= ActionsLeft(ProducerAt(s, t)) - 1
    ensures var p := ProducerAt(s, t);
      && p.l in s.lists && p.msg in Exchanged(s, es, p.l)
      && (p.msg in Returned(s, es, p.l) || p.msg in Queue(Run(s, es).lists[p.l]))
    decreases |es|
  {
    var p := ProducerAt(s, t);
    assert ProducerOk(s, t) && MsgOk(s, p.msg);
    IsExchanged(s, es, t);
    ListIsFifo(s, es, p.l);
    if p.msg in Queue(s.lists[p.l]) {
      OutsideIsNotQueued(s, p.l, p.msg);
    }
    InOneOrOther(Queue(s.lists[p.l]), Exchanged(s, es, p.l), Returned(s, es, p.l), Queue(Run(s, es).lists[p.l]), p.msg);
  }

  lemma InOneOrOther<T>(a: seq<T>, b: seq<T>, c: seq<T>, d: seq<T>, x: T)
    requires a + b == c + d && x in b
    ensures x in c || x in d
  {
    assert x in a + b;
  }

  lemma OutsideIsNotQueued(s: State, l: Lid, m: Msg)
    requires Inv(s) && l in s.lists && m in s.place && !s.place[m].Queued?
    ensures m !in Queue(s.lists[l])
  {
    var q := s.lists[l];
    assert ListOk(s, l);
    forall i | 0 <= i < |Queue(q)|
      ensures Queue(q)[i] != m
    {
      assert LinkOk(s, l, i);
    }
  }

  lemma {:induction false} IsExchanged(s: State, es: seq<Event>, t: Tid)
    requires Inv(s) && NotYetQueued(ProducerAt(s, t))
    requires Count(es, Act(t)) >= ActionsLeft(ProducerAt(s, t)) - 1
    ensures var p := ProducerAt(s, t);
      p.l in s.lists && p.msg in Exchanged(s, es, p.l)
    decreases |es|
  {
    var p := ProducerAt(s, t);
    assert ProducerOk(s, t);
    if es[0] == Act(t) && p.Exchange? {
      assert p.msg in ExchangedBy(s, es[0], p.l);
    } else {
      StepKeepsInv(s, es[0]);
      AddGoesOn(s, es[0], t);
      assert NotYetQueued(ProducerAt(Step(s, es[0]), t));
      IsExchanged(Step(s, es[0]), es[1..], t);
    }
  }

  /** A call of add that runs alone puts its message last in the queue, with its node
      linked after the old head. */
  lemma AddAlone(s: State, t: Tid, l: Lid, m: Msg, n: nat)
    requires Inv(s) && l in s.lists && m in s.place && s.place[m].Free? && ProducerAt(s, t).Idle? && n == 4
    ensures var r := Run(s, [Add(t, l, m)] + Repeated(Act(t), n));
      && Queue(r.lists[l]) == Queue(s.lists[l]) + [m]
      && r.lists[l].head == PtrOf(s, m) == NextOf(r, s.lists[l].head)
      && MsgAt(r, PtrOf(s, m)) == m && NextOf(r, PtrOf(s, m)) == NULL
      && ProducerAt(r, t).Idle?
      && (forall k :: k in s.lists && k != l ==> r.lists[k] == s.lists[k])
  {
    var a := Step(s, Add(t, l, m));
    assert ([Add(t, l, m)] + Repeated(Act(t), n))[1..] == Repeated(Act(t), n);
    RunFour(a, Act(t), n);
    assert MsgOk(s, m) && ListOk(s, l);
    var q := s.lists[l];
    assert NodeInList(s, l, |q.chain| - 1);
    Prepares(a, t);
    ExchangesAndLinks(ProducerStep(ProducerStep(a, t), t), t);
  }

  lemma Prepares(s: State, t: Tid)
    requires ProducerAt(s, t).SetNext?
    ensures var (p, r) := (ProducerAt(s, t), ProducerStep(ProducerStep(s, t), t));
      && ProducerAt(r, t) == Exchange(p.l, p.msg, p.node)
      && r.lists == s.lists && NextOf(r, p.node) == NULL && MsgAt(r, p.node) == p.msg
  {
  }

  lemma ExchangesAndLinks(s: State, t: Tid)
    requires ProducerAt(s, t).Exchange? && ProducerAt(s, t).l in s.lists && Shape(s.lists[ProducerAt(s, t).l])
    requires ProducerAt(s, t).node != s.lists[ProducerAt(s, t).l].head
    ensures var (p, r) := (ProducerAt(s, t), ProducerStep(ProducerStep(s, t), t)); var q := s.lists[p.l];
      && Queue(r.lists[p.l]) == Queue(q) + [p.msg]
      && r.lists[p.l].head == p.node == NextOf(r, q.head)
      && NextOf(r, p.node) == NextOf(s, p.node) && MsgAt(r, p.node) == MsgAt(s, p.node)
      && ProducerAt(r, t).Idle?
      && (forall k :: k in s.lists && k != p.l ==> r.lists[k] == s.lists[k])
  {
    var p := ProducerAt(s, t);
    var q := s.lists[p.l];
    assert (q.added + [p.msg])[|q.removed|..] == q.added[|q.removed|..] + [p.msg];
  }

  // ------------------------------------------------------------------------ rmv

  /** The oldest message of `l` is linked to the tail. */
  predicate OldestLinked(s: State, l: Lid)
    requires l in s.lists
  {
    NextOf(s, s.lists[l].tail) != NULL
  }

  /** How many actions the consumer of `l` has before it until it returns a linked message. */
  function RmvActionsLeft(c: Consumer): nat {
    match c
    case Done(_) => 4
    case CheckHead => 5
    case Spin => 4
    case ReadMsg(_) => 3
    case SetNextPtr(_, _) => 2
    case SetTail(_, _) => 1
  }

  lemma LinkedIsQueued(s: State, l: Lid)
    requires Inv(s) && l in s.lists && OldestLinked(s, l)
    ensures |s.lists[l].chain| > 1 && Queue(s.lists[l]) != []
    ensures s.lists[l].tail != s.lists[l].head
  {
    assert ListOk(s, l);
    var q := s.lists[l];
    assert NodeInList(s, l, 0);
    DistinctEnds(s, l);
  }

  /** Each action of the consumer takes its call one action nearer to the return of the
      oldest message, once that is linked. */
  lemma RmvGoesOn(s: State, l: Lid)
    requires Inv(s) && l in s.lists && OldestLinked(s, l)
    ensures Queue(s.lists[l]) != []
    ensures var (c, r) := (s.lists[l].consumer, ConsumerStep(s, l));
      if RmvActionsLeft(c) == 1 then ReturnedBy(s, Rmv(l), l) == [Queue(s.lists[l])[0]]
      else
        && RmvActionsLeft(r.lists[l].consumer) == RmvActionsLeft(c) - 1
        && ReturnedBy(s, Rmv(l), l) == [] && OldestLinked(r, l) && Queue(r.lists[l]) == Queue(s.lists[l])
  {
    LinkedIsQueued(s, l);
    assert ListOk(s, l);
    assert LinkOk(s, l, 0);
    if s.lists[l].consumer.SetTail? {
      RmvIsQueueStep(s, l);
    } else {
      OnlySetTailTakes(s, l);
    }
  }

  /** What the other threads and the other lists' consumers do leaves the call where it is
      and the oldest message linked. */
  lemma OthersKeepLinked(s: State, e: Event, l: Lid)
    requires Inv(s) && l in s.lists && OldestLinked(s, l) && e != Rmv(l)
    ensures var r := Step(s, e);
      && r.lists[l].consumer == s.lists[l].consumer && OldestLinked(r, l)
      && Queue(s.lists[l]) <= Queue(r.lists[l])
  {
    match e
    case Add(_, _, _) =>
    case Act(t) => ActKeepsLinked(s, t, l);
    case Rmv(k) =>
      if k in s.lists {
        RmvKeepsLinked(s, k, l);
      }
  }

  lemma RmvKeepsLinked(s: State, k: Lid, l: Lid)
    requires k in s.lists && l in s.lists && OldestLinked(s, l) && k != l
    ensures var r := ConsumerStep(s, k); r.lists[l] == s.lists[l] && OldestLinked(r, l)
  {
  }

  lemma ActKeepsLinked(s: State, t: Tid, l: Lid)
    requires Inv(s) && l in s.lists && OldestLinked(s, l)
    ensures var r := ProducerStep(s, t);
      && r.lists[l].consumer == s.lists[l].consumer && OldestLinked(r, l)
      && Queue(s.lists[l]) <= Queue(r.lists[l])
  {
    var p := ProducerAt(s, t);
    assert ListOk(s, l) && ProducerOk(s, t);
    ActIsQueueStep(s, t, l);
    assert NodeInList(s, l, 0);
    if p.SetNext? {
      assert MsgOk(s, p.msg);
    } else if p.Link? {
      assert ListOk(s, p.l);
      assert NodeInList(s, p.l, p.pos - |s.lists[p.l].removed| + 1);
    }
  }

  /** However the threads interleave, rmv returns the oldest message, once it is linked,
      within the actions it has left. */
  lemma {:induction false} OldestIsReturned(s: State, es: seq<Event>, l: Lid)
    requires Inv(s) && l in s.lists && OldestLinked(s, l)
    requires Count(es, Rmv(l)) >= RmvActionsLeft(s.lists[l].consumer)
    ensures Queue(s.lists[l]) != [] && [Queue(s.lists[l])[0]] <= Returned(s, es, l)
    decreases |es|
  {
    LinkedIsQueued(s, l);
    var r := Step(s, es[0]);
    StepKeepsInv(s, es[0]);
    if es[0] != Rmv(l) {
      OthersKeepLinked(s, es[0], l);
      assert ReturnedBy(s, es[0], l) == [];
      OldestIsReturned(r, es[1..], l);
    } else {
      RmvGoesOn(s, l);
      if RmvActionsLeft(s.lists[l].consumer) > 1 {
        OldestIsReturned(r, es[1..], l);
      }
    }
  }

  /** A call of rmv on an empty list answers AC_NULL in two actions. */
  lemma RmvOfEmpty(s: State, l: Lid, n: nat)
    requires Inv(s) && l in s.lists && s.lists[l].consumer.Done? && Queue(s.lists[l]) == [] && n == 2
    ensures Run(s, Repeated(Rmv(l), n)) == SetConsumer(s, l, Done(NULL))
  {
    assert ListOk(s, l);
    DistinctEnds(s, l);
    assert NodeInList(s, l, 0);
    RunTimes(s, Rmv(l), n);
    RunTimes(ConsumerStep(s, l), Rmv(l), n - 1);
    var c := ConsumerStep(s, l);
    assert c == SetConsumer(s, l, CheckHead);
    assert c.lists[l := c.lists[l].(consumer := Done(NULL))] == s.lists[l := s.lists[l].(consumer := Done(NULL))];
  }

  /** No add is between its exchange and its store. */
  ghost predicate NoneStopped(s: State, l: Lid) {
    forall t :: ProducerAt(s, t).Link? ==> ProducerAt(s, t).l != l
  }

  lemma NoneStoppedLinks(s: State, l: Lid)
    requires Inv(s) && l in s.lists && NoneStopped(s, l) && Queue(s.lists[l]) != []
    ensures OldestLinked(s, l)
  {
    assert ListOk(s, l);
    assert LinkOk(s, l, 0) && NodeInList(s, l, 1);
  }

  /** Calls of rmv that run alone when no add is stopped return all that is queued, oldest
      first. */
  lemma {:induction false} RmvsDrain(s: State, l: Lid, n: nat)
    requires Inv(s) && l in s.lists && NoneStopped(s, l) && s.lists[l].consumer.Done?
    requires n == 4 * |Queue(s.lists[l])|
    ensures Returned(s, Repeated(Rmv(l), n), l) == Queue(s.lists[l])
    ensures Queue(Run(s, Repeated(Rmv(l), n)).lists[l]) == []
  {
    DrainsTo(s, l, n);
    ListIsFifo(s, Repeated(Rmv(l), n), l);
    RmvsAddNone(s, l, n);
    NoneAdded(Queue(s.lists[l]), Exchanged(s, Repeated(Rmv(l), n), l), Returned(s, Repeated(Rmv(l), n), l),
              Queue(Run(s, Repeated(Rmv(l), n)).lists[l]));
  }

  lemma NoneAdded<T>(a: seq<T>, b: seq<T>, c: seq<T>, d: seq<T>)
    requires a + b == c + d && b == [] && d == []
    ensures c == a
  {
    assert a + b == a && c + d == c;
  }

  lemma {:induction false} DrainsTo(s: State, l: Lid, n: nat)
    requires Inv(s) && l in s.lists && NoneStopped(s, l) && s.lists[l].consumer.Done?
    requires n == 4 * |Queue(s.lists[l])|
    ensures Queue(Run(s, Repeated(Rmv(l), n)).lists[l]) == []
    decreases n
  {
    if n > 0 {
      FourTakeOne(s, l);
      RunAppends(s, Rmv(l), 4, n - 4);
      hide Run, Repeated, Inv, NoneStopped;
      DrainsTo(Run(s, Repeated(Rmv(l), 4)), l, n - 4);
    }
  }

  lemma FourTakeOne(s: State, l: Lid)
    requires Inv(s) && l in s.lists && NoneStopped(s, l) && s.lists[l].consumer.Done? && Queue(s.lists[l]) != []
    ensures var r := Run(s, Repeated(Rmv(l), 4));
      && Inv(r) && NoneStopped(r, l) && r.lists[l].consumer.Done?
      && |Queue(r.lists[l])| == |Queue(s.lists[l])| - 1
  {
    NoneStoppedLinks(s, l);
    RmvAlone(s, l, 4);
    FourKeepInv(s, l);
  }

  lemma FourKeepInv(s: State, l: Lid)
    requires Inv(s) && l in s.lists && NoneStopped(s, l)
    ensures var r := Run(s, Repeated(Rmv(l), 4)); Inv(r) && NoneStopped(r, l)
  {
    RunKeepsInv(s, Repeated(Rmv(l), 4));
    RmvsKeepProducers(s, l, 4);
    assert forall t :: ProducerAt(Run(s, Repeated(Rmv(l), 4)), t) == ProducerAt(s, t);
  }

  lemma {:induction false} RmvsKeepProducers(s: State, l: Lid, n: nat)
    requires l in s.lists
    ensures Run(s, Repeated(Rmv(l), n)).producers == s.producers
    decreases n
  {
    if n > 0 {
      RunTimes(s, Rmv(l), n);
      hide Run, Repeated, ConsumerStep;
      RmvsKeepProducers(ConsumerStep(s, l), l, n - 1);
    }
  }

  lemma {:induction false} RunAppends(s: State, e: Event, a: nat, b: nat)
    ensures Run(s, Repeated(e, a + b)) == Run(Run(s, Repeated(e, a)), Repeated(e, b))
    decreases a
  {
    if a > 0 {
      RunTimes(s, e, a + b);
      RunTimes(s, e, a);
      RunAppends(Step(s, e), e, a - 1, b);
    }
  }

  lemma {:induction false} RmvsAddNone(s: State, l: Lid, n: nat)
    ensures Exchanged(s, Repeated(Rmv(l), n), l) == []
    decreases n
  {
    if n > 0 {
      assert Repeated(Rmv(l), n)[1..] == Repeated(Rmv(l), n - 1);
      RmvsAddNone(Step(s, Rmv(l)), l, n - 1);
    }
  }
}
