/** What AcMpscLinkList promises, over every interleaving of its atomic steps. */
module LinkListTheorems {
  import opened LinkListMachine

  // ------------------------------------------------------------- linearizability

  /** The messages whose exchange on the head of `l` is in the run. */
  ghost function Exchanged(s: State, es: seq<Event>, l: Lid): seq<Msg>
    decreases |es|
  {
    if es == [] then [] else
    ExchangedBy(s, es[0], l) + Exchanged(Step(s, es[0]), es[1..], l)
  }

  function ExchangedBy(s: State, e: Event, l: Lid): seq<Msg> {
    if e.Act? && ProducerAt(s, e.t).Exchange? && ProducerAt(s, e.t).l == l then [ProducerAt(s, e.t).msg] else []
  }

  /** What the calls of rmv on `l` that end in the run return, AC_NULL left out. */
  ghost function Returned(s: State, es: seq<Event>, l: Lid): seq<Msg>
    decreases |es|
  {
    if es == [] then [] else
    ReturnedBy(s, es[0], l) + Returned(Step(s, es[0]), es[1..], l)
  }

  function ReturnedBy(s: State, e: Event, l: Lid): seq<Msg> {
    var now := Answer(s, e, l);
    if now.Done? && now.result != NULL then [now.result] else []
  }

  /** The end of a call of rmv on `l`, if the event is one. */
  function Answer(s: State, e: Event, l: Lid): Consumer {
    if e == Rmv(l) && l in s.lists && !s.lists[l].consumer.Done? then ConsumerStep(s, l).lists[l].consumer else Spin
  }

  /** A call of rmv that ends takes the oldest message or answers AC_NULL, an exchange
      adds one message, and nothing else changes the queue. */
  lemma StepIsFifo(s: State, e: Event, l: Lid)
    requires Inv(s) && l in s.lists
    ensures Queue(s.lists[l]) + ExchangedBy(s, e, l) == ReturnedBy(s, e, l) + Queue(Step(s, e).lists[l])
  {
    match e
    case Add(_, _, _) =>
    case Act(t) =>
      assert ListOk(s, l);
      ActIsQueueStep(s, t, l);
    case Rmv(k) =>
      if k == l {
        RmvIsQueueStep(s, l);
      }
  }

  lemma ActIsQueueStep(s: State, t: Tid, l: Lid)
    requires l in s.lists && Shape(s.lists[l])
    ensures Queue(ProducerStep(s, t).lists[l]) == Queue(s.lists[l]) + ExchangedBy(s, Act(t), l)
  {
    var p, q := ProducerAt(s, t), s.lists[l];
    if p.Exchange? && p.l == l {
      assert (q.added + [p.msg])[|q.removed|..] == q.added[|q.removed|..] + [p.msg];
    }
  }

  lemma RmvIsQueueStep(s: State, l: Lid)
    requires Inv(s) && l in s.lists
    ensures Queue(s.lists[l]) == ReturnedBy(s, Rmv(l), l) + Queue(ConsumerStep(s, l).lists[l])
  {
    assert ListOk(s, l);
    if s.lists[l].consumer.SetTail? {
      assert LinkOk(s, l, 0);
      TakeOldest(s, l);
    } else {
      OnlySetTailTakes(s, l);
    }
  }

  lemma OnlySetTailTakes(s: State, l: Lid)
    requires l in s.lists && !s.lists[l].consumer.SetTail?
    ensures ReturnedBy(s, Rmv(l), l) == [] && Queue(s.lists[l]) == Queue(ConsumerStep(s, l).lists[l])
  {
  }

  lemma TakeOldest(s: State, l: Lid)
    requires l in s.lists && Shape(s.lists[l]) && |s.lists[l].chain| > 1
    requires s.lists[l].consumer.SetTail? && s.lists[l].consumer.msg == s.lists[l].added[|s.lists[l].removed|]
    ensures Queue(s.lists[l]) == [s.lists[l].consumer.msg] + Queue(ConsumerStep(s, l).lists[l])
  {
  }

  lemma Join<T>(a: seq<T>, x: seq<T>, xs: seq<T>, y: seq<T>, ys: seq<T>, b: seq<T>, c: seq<T>)
    requires a + x == y + b && b + xs == ys + c
    ensures a + (x + xs) == (y + ys) + c
  {
    assert a + (x + xs) == (a + x) + xs;
    assert y + (b + xs) == (y + b) + xs;
  }

  /** Messages leave a list in the order of their exchanges, each once: what was queued
      and what was added is what was returned and what is still queued. */
  lemma {:induction false} ListIsFifo(s: State, es: seq<Event>, l: Lid)
    requires Inv(s) && l in s.lists
    ensures Queue(s.lists[l]) + Exchanged(s, es, l) == Returned(s, es, l) + Queue(Run(s, es).lists[l])
    decreases |es|
  {
    if es != [] {
      var r := Step(s, es[0]);
      StepKeepsInv(s, es[0]);
      ListIsFifo(r, es[1..], l);
      StepIsFifo(s, es[0], l);
      Join(Queue(s.lists[l]), ExchangedBy(s, es[0], l), Exchanged(r, es[1..], l), ReturnedBy(s, es[0], l),
           Returned(r, es[1..], l), Queue(r.lists[l]), Queue(Run(r, es[1..]).lists[l]));
    }
  }

  lemma FifoOverAllRuns(s: State, es: seq<Event>, l: Lid)
    requires Initial(s) && l in s.lists
    ensures Exchanged(s, es, l) == Returned(s, es, l) + Queue(Run(s, es).lists[l])
  {
    InitialInv(s);
    StartsEmpty(s, l);
    ListIsFifo(s, es, l);
    NothingFirst(Queue(s.lists[l]), Exchanged(s, es, l), Returned(s, es, l) + Queue(Run(s, es).lists[l]));
  }

  lemma NothingFirst<T>(none: seq<T>, xs: seq<T>, ys: seq<T>)
    requires none == [] && none + xs == ys
    ensures xs == ys
  {
  }

  lemma StartsEmpty(s: State, l: Lid)
    requires Initial(s) && l in s.lists
    ensures Queue(s.lists[l]) == []
  {
  }

  /** The check after the load of head: rmv reports empty exactly when the queue is empty
      at that load, even if a later exchange has not been linked yet. */
  lemma EmptyAnswer(s: State, l: Lid)
    requires Inv(s) && l in s.lists && s.lists[l].consumer.CheckHead?
    ensures ConsumerStep(s, l).lists[l].consumer == Done(NULL) <==> Queue(s.lists[l]) == []
  {
    assert ListOk(s, l);
    DistinctEnds(s, l);
  }

  /** The message rmv has read is never AC_NULL, so its ac_fail is never reached. */
  lemma NeverFails(s: State, l: Lid)
    requires Inv(s) && l in s.lists && s.lists[l].consumer.SetTail?
    ensures s.lists[l].consumer.msg != NULL
  {
    assert ListOk(s, l);
    assert LinkOk(s, l, 0);
  }

  // ------------------------------------------------------------------ progress

  /** While the spin of rmv reads AC_NULL, one producer is between its exchange and its
      store of next, and that single store ends the spin. */
  lemma SpinIsHelped(s: State, l: Lid)
    requires Inv(s) && l in s.lists && s.lists[l].consumer.Spin? && NextOf(s, s.lists[l].tail) == NULL
    requires ListOk(s, l)
    ensures var (q, t) := (s.lists[l], s.lists[l].linker[0]);
      && ProducerAt(s, t) == Link(l, q.tail, q.chain[1], |q.removed|)
      && var r := Run(s, [Act(t), Rmv(l)]);
         r.lists[l].consumer == ReadMsg(q.chain[1])
  {
    assert ListOk(s, l);
    var t := s.lists[l].linker[0];
    assert LinkOk(s, l, 0) && NodeInList(s, l, 1);
    assert [Act(t), Rmv(l)][1..] == [Rmv(l)];
    assert Run(s, [Act(t), Rmv(l)]) == Run(Step(s, Act(t)), [Rmv(l)]);
    assert Run(Step(s, Act(t)), [Rmv(l)]) == Step(Step(s, Act(t)), Rmv(l));
  }

  function Repeated(e: Event, n: nat): (es: seq<Event>)
    ensures |es| == n
  {
    if n == 0 then [] else [e] + Repeated(e, n - 1)
  }

  /** Once the oldest message is linked, a call of rmv that runs alone returns it in four
      steps. */
  lemma RmvAlone(s: State, l: Lid, n: nat)
    requires Inv(s) && l in s.lists && s.lists[l].consumer.Done? && NextOf(s, s.lists[l].tail) != NULL
    requires n == 4
    ensures var r := Run(s, Repeated(Rmv(l), n));
      && Queue(s.lists[l]) != []
      && r.lists[l].consumer == Done(Queue(s.lists[l])[0])
      && Queue(r.lists[l]) == Queue(s.lists[l])[1..]
  {
    var q, e := s.lists[l], Rmv(l);
    assert ListOk(s, l);
    assert NodeInList(s, l, 0);
    assert |q.chain| > 1 && LinkOk(s, l, 0);
    RmvReads(s, l);
    var c := SetNextPtr(NextOf(s, q.tail), MsgAt(s, NextOf(s, q.tail)));
    RmvWrites(SetConsumer(s, l, c), l);
    RunFour(s, e, n);
  }

  lemma RmvReads(s: State, l: Lid)
    requires l in s.lists && s.lists[l].consumer.Done? && NextOf(s, s.lists[l].tail) != NULL
    ensures var next := NextOf(s, s.lists[l].tail);
      ConsumerStep(ConsumerStep(s, l), l) == SetConsumer(s, l, SetNextPtr(next, MsgAt(s, next)))
  {
  }

  lemma RmvWrites(s: State, l: Lid)
    requires l in s.lists && s.lists[l].consumer.SetNextPtr?
    ensures var (q, r) := (s.lists[l], ConsumerStep(ConsumerStep(s, l), l).lists[l]);
      r.consumer == Done(q.consumer.msg) && r.added == q.added && r.removed == q.removed + [q.consumer.msg]
  {
  }

  lemma RunFour(s: State, e: Event, n: nat)
    requires n == 4
    ensures Run(s, Repeated(e, n)) == Step(Step(Step(Step(s, e), e), e), e)
  {
    RunTimes(s, e, n);
    RunTimes(Step(s, e), e, n - 1);
    RunTimes(Step(Step(s, e), e), e, n - 2);
    RunTimes(Step(Step(Step(s, e), e), e), e, n - 3);
  }

  lemma RunTimes(s: State, e: Event, n: nat)
    requires n > 0
    ensures Run(s, Repeated(e, n)) == Run(Step(s, e), Repeated(e, n - 1))
  {
    assert Repeated(e, n)[1..] == Repeated(e, n - 1);
  }

  /** Thread `t` still has to store into a node of its list that is not linked yet, is
      not the last, and is no message's next_ptr outside the lists. */
  ghost predicate LinksIntoList(s: State, t: Tid)
    requires ProducerAt(s, t).Link?
  {
    var p := ProducerAt(s, t);
    && p.l in s.lists && p.prev in s.owner && s.owner[p.prev] == OfList(p.l, p.pos)
    && p.prev in s.lists[p.l].chain && p.prev != s.lists[p.l].head && NextOf(s, p.prev) == NULL
    && (forall m :: m in Outside(s) ==> PtrOf(s, m) != p.prev)
  }

  lemma PendingLink(s: State, t: Tid)
    requires Inv(s) && ProducerAt(s, t).Link?
    ensures LinksIntoList(s, t)
  {
    var p := ProducerAt(s, t);
    assert ProducerOk(s, t) && ListOk(s, p.l);
    var q := s.lists[p.l];
    assert NodeInList(s, p.l, p.pos - |q.removed|) && NodeInList(s, p.l, |q.chain| - 1);
    forall m | m in Outside(s)
      ensures PtrOf(s, m) != p.prev
    {
      assert MsgOk(s, m);
    }
  }

  /** However long a producer stalls between its exchange and its store, the store never
      goes to a node that rmv has given away. */
  lemma LateLinkStaysInList(s: State, es: seq<Event>, t: Tid)
    requires Initial(s) && ProducerAt(Run(s, es), t).Link?
    ensures LinksIntoList(Run(s, es), t)
  {
    InitialInv(s);
    RunKeepsInv(s, es);
    PendingLink(Run(s, es), t);
  }

  // -------------------------------------------------------------- conservation

  ghost function Outside(s: State): set<Msg> {
    set m | m in s.place && !s.place[m].Queued?
  }

  ghost function OwnedByMsgs(s: State): set<Node> {
    set n | n in s.owner && s.owner[n].OfMsg?
  }

  ghost function OwnedBy(s: State, l: Lid): set<Node> {
    set n | n in s.owner && s.owner[n].OfList? && s.owner[n].l == l
  }

  ghost function OwnedByLists(s: State, ls: set<Lid>): set<Node> {
    set n | n in s.owner && s.owner[n].OfList? && s.owner[n].l in ls
  }

  /** The sum of length plus one over the lists. */
  ghost function Lengths(s: State, ls: set<Lid>): nat {
    if ls * s.lists.Keys == {} then 0 else
    var l :| l in ls * s.lists.Keys;
    |Queue(s.lists[l])| + 1 + Lengths(s, ls - {l})
  }

  lemma {:induction false} SetOfDistinct<T>(xs: seq<T>, all: set<T>)
    requires forall x :: x in xs <==> x in all
    requires forall i, j :: 0 <= i < j < |xs| ==> xs[i] != xs[j]
    ensures |all| == |xs|
  {
    if xs == [] {
      assert all == {};
    } else {
      assert forall x :: x in all - {xs[0]} ==> x in xs[1..];
      SetOfDistinct(xs[1..], all - {xs[0]});
    }
  }

  /** A list owns its length plus one nodes, all different. */
  lemma ListOwnsOneMore(s: State, l: Lid)
    requires Inv(s) && l in s.lists
    ensures |OwnedBy(s, l)| == |Queue(s.lists[l])| + 1
  {
    assert ListOk(s, l);
    var q := s.lists[l];
    forall n
      ensures n in q.chain <==> n in OwnedBy(s, l)
    {
      if n in q.chain {
        var i :| 0 <= i < |q.chain| && q.chain[i] == n;
        assert NodeInList(s, l, i);
      }
      if n in OwnedBy(s, l) {
        assert NodeOk(s, n);
      }
    }
    forall i, j | 0 <= i < j < |q.chain|
      ensures q.chain[i] != q.chain[j]
    {
      assert NodeInList(s, l, i) && NodeInList(s, l, j);
    }
    SetOfDistinct(q.chain, OwnedBy(s, l));
  }

  /** Two sets that a map takes onto each other one to one have the same size. */
  lemma {:induction false} SameSize(f: map<nat, nat>, xs: set<nat>, ys: set<nat>)
    requires forall x :: x in xs ==> x in f && f[x] in ys
    requires forall x, z :: x in xs && z in xs && f[x] == f[z] ==> x == z
    requires forall y :: y in ys ==> exists x :: x in xs && f[x] == y
    ensures |xs| == |ys|
  {
    if xs == {} {
      assert ys == {};
    } else {
      var x :| x in xs;
      SameSize(f, xs - {x}, ys - {f[x]});
    }
  }

  /** A message outside every list owns exactly one node. */
  lemma MessagesOwnOneEach(s: State)
    requires Inv(s)
    ensures |OwnedByMsgs(s)| == |Outside(s)|
    ensures forall m :: m in Outside(s) ==> OwnsNode(s, m)
    ensures forall m, k :: m in Outside(s) && k in Outside(s) && PtrOf(s, m) == PtrOf(s, k) ==> m == k
  {
    forall m | m in Outside(s)
      ensures OwnsNode(s, m)
    {
      assert MsgOk(s, m);
    }
    forall n | n in OwnedByMsgs(s)
      ensures exists m :: m in Outside(s) && m in s.nextPtr && s.nextPtr[m] == n
    {
      assert NodeOk(s, n);
      assert OwnsNode(s, s.owner[n].msg) by {
        assert MsgOk(s, s.owner[n].msg);
      }
    }
    SameSize(s.nextPtr, Outside(s), OwnedByMsgs(s));
  }

  lemma NoListOwnsNone(s: State, ls: set<Lid>)
    requires Inv(s) && ls * s.lists.Keys == {}
    ensures OwnedByLists(s, ls) == {}
  {
    forall n | n in s.owner
      ensures n !in OwnedByLists(s, ls)
    {
      assert NodeOk(s, n);
      assert s.owner[n].OfList? ==> s.owner[n].l in s.lists.Keys && s.owner[n].l !in ls * s.lists.Keys;
    }
  }

  lemma {:induction false} ListsOwnLengths(s: State, ls: set<Lid>)
    requires Inv(s)
    ensures |OwnedByLists(s, ls)| == Lengths(s, ls)
    decreases ls
  {
    if ls * s.lists.Keys == {} {
      NoListOwnsNone(s, ls);
    } else {
      var l :| l in ls * s.lists.Keys && Lengths(s, ls) == |Queue(s.lists[l])| + 1 + Lengths(s, ls - {l});
      ListOwnsOneMore(s, l);
      ListsOwnLengths(s, ls - {l});
      assert OwnedByLists(s, ls) == OwnedBy(s, l) + OwnedByLists(s, ls - {l});
    }
  }

  /** Every node is owned once: by a message outside the lists or by a list. */
  lemma NodeCount(s: State)
    requires Inv(s)
    ensures |s.owner.Keys| == |Outside(s)| + Lengths(s, s.lists.Keys)
  {
    MessagesOwnOneEach(s);
    ListsOwnLengths(s, s.lists.Keys);
    EveryNodeOwned(s);
  }

  lemma EveryNodeOwned(s: State)
    requires Inv(s)
    ensures s.owner.Keys == OwnedByMsgs(s) + OwnedByLists(s, s.lists.Keys)
  {
    forall n | n in s.owner && s.owner[n].OfList?
      ensures n in OwnedByLists(s, s.lists.Keys)
    {
      assert NodeOk(s, n);
    }
  }

  lemma StepKeepsThings(s: State, e: Event)
    requires Inv(s)
    ensures Step(s, e).owner.Keys == s.owner.Keys && Step(s, e).place.Keys == s.place.Keys
  {
    match e
    case Add(_, _, _) =>
    case Act(t) => ActKeepsThings(s, t);
    case Rmv(l) =>
      if l in s.lists {
        RmvKeepsThings(s, l);
      }
  }

  lemma ActKeepsThings(s: State, t: Tid)
    requires Inv(s)
    ensures ProducerStep(s, t).owner.Keys == s.owner.Keys && ProducerStep(s, t).place.Keys == s.place.Keys
  {
    assert ProducerOk(s, t);
    if ProducerAt(s, t).Exchange? {
      assert MsgOk(s, ProducerAt(s, t).msg);
    }
  }

  lemma RmvKeepsThings(s: State, l: Lid)
    requires Inv(s) && l in s.lists
    ensures ConsumerStep(s, l).owner.Keys == s.owner.Keys && ConsumerStep(s, l).place.Keys == s.place.Keys
  {
    if s.lists[l].consumer.SetTail? {
      assert ListOk(s, l);
      assert NodeInList(s, l, 0) && LinkOk(s, l, 0);
      SetTailKeepsThings(s, l);
    }
  }

  lemma SetTailKeepsThings(s: State, l: Lid)
    requires l in s.lists && s.lists[l].consumer.SetTail?
    requires s.lists[l].tail in s.owner && s.lists[l].consumer.msg in s.place
    ensures ConsumerStep(s, l).owner.Keys == s.owner.Keys && ConsumerStep(s, l).place.Keys == s.place.Keys
  {
  }

  lemma {:induction false} RunKeepsThings(s: State, es: seq<Event>)
    requires Inv(s)
    ensures var r := Run(s, es);
      r.owner.Keys == s.owner.Keys && r.place.Keys == s.place.Keys
    decreases |es|
  {
    if es != [] {
      StepKeepsThings(s, es[0]);
      StepKeepsInv(s, es[0]);
      RunKeepsThings(Step(s, es[0]), es[1..]);
    }
  }

  /** Over any run no node and no message is lost or made, and the nodes are shared out
      as one to each message outside the lists and length plus one to each list. */
  lemma NodesConserved(s: State, es: seq<Event>)
    requires Initial(s)
    ensures var r := Run(s, es);
      && r.owner.Keys == s.owner.Keys && r.place.Keys == s.place.Keys && r.lists.Keys == s.lists.Keys
      && |s.owner.Keys| == |Outside(r)| + Lengths(r, s.lists.Keys)
      && (forall l :: l in s.lists ==> |OwnedBy(r, l)| == |Queue(r.lists[l])| + 1)
      && (forall m :: m in Outside(r) ==> OwnsNode(r, m))
  {
    InitialInv(s);
    RunKeepsInv(s, es);
    RunKeepsThings(s, es);
    var r := Run(s, es);
    NodeCount(r);
    MessagesOwnOneEach(r);
    forall l | l in s.lists
      ensures |OwnedBy(r, l)| == |Queue(r.lists[l])| + 1
    {
      ListOwnsOneMore(r, l);
    }
  }
}
