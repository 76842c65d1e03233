/** The concurrent behaviour of AcMpscLinkList: any number of lists, of producers inside
    add and one consumer per list inside rmv, interleaved at every load, store and
    exchange.  Messages and nodes wander from list to list; removing a message gives it
    the node that was the tail and keeps the message's own node in the list. */
module LinkListMachine {

  type Tid = nat
  type Lid = nat
  type Msg = nat     // 0 is AC_NULL
  type Node = nat    // an AcNextPtr; 0 is AC_NULL
  const NULL: nat := 0

  /** Where a producer is inside AcMpscLinkList_add.  `pos` is history: how many
      messages were added to the list before this one. */
  datatype Producer =
    | Idle
    | SetNext(l: Lid, msg: Msg, node: Node)
    | SetMsg(l: Lid, msg: Msg, node: Node)
    | Exchange(l: Lid, msg: Msg, node: Node)
    | Link(l: Lid, prev: Node, node: Node, pos: nat)

  /** Where a list's consumer is inside AcMpscLinkList_rmv. */
  datatype Consumer =
    | Done(result: Msg)
    | CheckHead
    | Spin
    | ReadMsg(next: Node)
    | SetNextPtr(next: Node, msg: Msg)
    | SetTail(next: Node, msg: Msg)

  /** `head` and `tail` are the list's fields.  The rest is history: the nodes from tail
      to head in the order of their exchanges, the thread that has to link each node to
      its successor, and the messages added (at the exchange) and removed (at the store
      of tail) so far. */
  datatype List = List(
    head: Node,
    tail: Node,
    consumer: Consumer,
    chain: seq<Node>,
    linker: seq<Tid>,
    added: seq<Msg>,
    removed: seq<Msg>)

  /** Who owns a node, and where a message is: history. */
  datatype Owner = OfMsg(msg: Msg) | OfList(l: Lid, pos: nat)
  datatype Place = Free | Adding(t: Tid) | Queued(l: Lid, pos: nat)

  datatype State = State(
    next: map<Node, Node>,
    msgOf: map<Node, Msg>,
    nextPtr: map<Msg, Node>,
    lists: map<Lid, List>,
    producers: map<Tid, Producer>,
    owner: map<Node, Owner>,
    place: map<Msg, Place>)

  datatype Event = Add(t: Tid, l: Lid, msg: Msg) | Act(t: Tid) | Rmv(l: Lid)

  function ProducerAt(s: State, t: Tid): Producer {
    if t in s.producers then s.producers[t] else Idle
  }

  function NextOf(s: State, n: Node): Node {
    if n in s.next then s.next[n] else NULL
  }

  function MsgAt(s: State, n: Node): Msg {
    if n in s.msgOf then s.msgOf[n] else NULL
  }

  function PtrOf(s: State, m: Msg): Node {
    if m in s.nextPtr then s.nextPtr[m] else NULL
  }

  /** One atomic action of producer `t`. */
  function ProducerStep(s: State, t: Tid): (r: State)
    ensures r.lists.Keys == s.lists.Keys
  {
    match ProducerAt(s, t)
    case Idle => s
    case SetNext(l, msg, node) =>
      s.(next := s.next[node := NULL], producers := s.producers[t := SetMsg(l, msg, node)])
    case SetMsg(l, msg, node) =>
      s.(msgOf := s.msgOf[node := msg], producers := s.producers[t := Exchange(l, msg, node)])
    case Exchange(l, msg, node) =>
      if l !in s.lists then s else
      var q := s.lists[l];
      s.(lists := s.lists[l := q.(head := node, chain := q.chain + [node], linker := q.linker + [t],
                                  added := q.added + [msg])],
         producers := s.producers[t := Link(l, q.head, node, |q.added|)],
         owner := s.owner[node := OfList(l, |q.added| + 1)],
         place := s.place[msg := Queued(l, |q.added|)])
    case Link(l, prev, node, pos) =>
      s.(next := s.next[prev := node], producers := s.producers[t := Idle])
  }

  function SetConsumer(s: State, l: Lid, c: Consumer): (r: State)
    requires l in s.lists
    ensures r.owner == s.owner && r.place == s.place && r.producers == s.producers
    ensures r.lists.Keys == s.lists.Keys
    ensures forall k :: k in s.lists && k != l ==> r.lists[k] == s.lists[k]
    ensures r.lists[l] == s.lists[l].(consumer := c)
  {
    s.(lists := s.lists[l := s.lists[l].(consumer := c)])
  }

  /** One atomic action of the consumer of `l`; from `Done` it starts the next call. */
  function ConsumerStep(s: State, l: Lid): (r: State)
    requires l in s.lists
    ensures r.lists.Keys == s.lists.Keys && r.producers == s.producers
    ensures forall k :: k in s.lists && k != l ==> r.lists[k] == s.lists[k]
    ensures !s.lists[l].consumer.SetTail? ==> r.owner == s.owner && r.place == s.place
    ensures !s.lists[l].consumer.SetTail? ==>
      r.lists[l].added == s.lists[l].added && r.lists[l].removed == s.lists[l].removed
  {
    var q := s.lists[l];
    var next := NextOf(s, q.tail);
    match q.consumer
    case Done(_) => SetConsumer(s, l, if next == NULL then CheckHead else ReadMsg(next))
    case CheckHead => SetConsumer(s, l, if q.tail == q.head then Done(NULL) else Spin)
    case Spin => SetConsumer(s, l, if next == NULL then Spin else ReadMsg(next))
    case ReadMsg(n) => SetConsumer(s, l, SetNextPtr(n, MsgAt(s, n)))
    case SetNextPtr(n, msg) =>
      SetConsumer(s, l, SetTail(n, msg)).(nextPtr := s.nextPtr[msg := q.tail])
    case SetTail(n, msg) =>
      s.(lists := s.lists[l := List(q.head, n, Done(msg),
                                    if q.chain == [] then [] else q.chain[1..],
                                    if q.linker == [] then [] else q.linker[1..],
                                    q.added, q.removed + [msg])],
         owner := s.owner[q.tail := OfMsg(msg)],
         place := s.place[msg := Free])
  }

  /** A thread may add only a message it owns, that is one that is Free. */
  function Step(s: State, e: Event): (r: State)
    ensures r.lists.Keys == s.lists.Keys
  {
    match e
    case Add(t, l, msg) =>
      if l in s.lists && msg in s.place && s.place[msg].Free? && ProducerAt(s, t).Idle? then
        s.(producers := s.producers[t := SetNext(l, msg, PtrOf(s, msg))], place := s.place[msg := Adding(t)])
      else s
    case Act(t) => ProducerStep(s, t)
    case Rmv(l) => if l in s.lists then ConsumerStep(s, l) else s
  }

  function Run(s: State, es: seq<Event>): (r: State)
    ensures r.lists.Keys == s.lists.Keys
    decreases |es|
  {
    if es == [] then s else Run(Step(s, es[0]), es[1..])
  }

  // ---------------------------------------------------------------- invariant

  /** The messages in the list, oldest first. */
  function Queue(q: List): seq<Msg> {
    if |q.removed| <= |q.added| then q.added[|q.removed|..] else []
  }

  predicate Shape(q: List) {
    && q.removed <= q.added
    && |q.chain| == |q.added| - |q.removed| + 1
    && |q.linker| == |q.chain| - 1
    && q.chain[0] == q.tail
    && q.chain[|q.chain| - 1] == q.head
  }

  /** Node number `i` of list `l`, counted from the tail. */
  predicate NodeInList(s: State, l: Lid, i: nat)
    requires l in s.lists && i < |s.lists[l].chain|
  {
    var q := s.lists[l];
    var n := q.chain[i];
    && n != NULL
    && n in s.owner && s.owner[n] == OfList(l, |q.removed| + i)
    && (i == |q.chain| - 1 ==> NextOf(s, n) == NULL)
  }

  /** The link from node `i` to node `i + 1`, and the message that travels on it. */
  predicate LinkOk(s: State, l: Lid, i: nat)
    requires l in s.lists && Shape(s.lists[l]) && i + 1 < |s.lists[l].chain|
  {
    var q := s.lists[l];
    var (n, k, m) := (q.chain[i], |q.removed| + i, q.added[|q.removed| + i]);
    && m != NULL && m in s.place && s.place[m] == Queued(l, k)
    && MsgAt(s, q.chain[i + 1]) == m
    && (NextOf(s, n) == q.chain[i + 1]
        || (NextOf(s, n) == NULL && ProducerAt(s, q.linker[i]) == Link(l, n, q.chain[i + 1], k)))
  }

  predicate ConsumerOk(s: State, l: Lid)
    requires l in s.lists && Shape(s.lists[l])
  {
    var q := s.lists[l];
    match q.consumer
    case Done(_) => true
    case CheckHead => true
    case Spin => |q.chain| > 1
    case ReadMsg(n) => |q.chain| > 1 && n == q.chain[1] == NextOf(s, q.tail)
    case SetNextPtr(n, m) =>
      |q.chain| > 1 && n == q.chain[1] == NextOf(s, q.tail) && m == q.added[|q.removed|]
    case SetTail(n, m) =>
      |q.chain| > 1 && n == q.chain[1] == NextOf(s, q.tail) && m == q.added[|q.removed|]
      && PtrOf(s, m) == q.tail
  }

  ghost predicate ListOk(s: State, l: Lid)
    requires l in s.lists
  {
    var q := s.lists[l];
    && Shape(q)
    && (forall i :: 0 <= i < |q.chain| ==> NodeInList(s, l, i))
    && (forall i :: 0 <= i < |q.chain| - 1 ==> LinkOk(s, l, i))
    && ConsumerOk(s, l)
  }

  predicate ProducerOk(s: State, t: Tid) {
    match ProducerAt(s, t)
    case Idle => true
    case SetNext(l, m, n) => AddingOk(s, t, l, m, n)
    case SetMsg(l, m, n) => AddingOk(s, t, l, m, n) && NextOf(s, n) == NULL
    case Exchange(l, m, n) => AddingOk(s, t, l, m, n) && NextOf(s, n) == NULL && MsgAt(s, n) == m
    case Link(l, prev, n, k) =>
      && l in s.lists
      && var q := s.lists[l];
         && |q.removed| <= k < |q.added| && Shape(q)
         && var i := k - |q.removed|;
            && q.chain[i] == prev && q.chain[i + 1] == n && q.linker[i] == t
            && NextOf(s, prev) == NULL
  }

  predicate AddingOk(s: State, t: Tid, l: Lid, m: Msg, n: Node) {
    l in s.lists && m in s.place && s.place[m] == Adding(t) && PtrOf(s, m) == n
  }

  /** A message outside every list owns the node its next_ptr names. */
  predicate MsgOk(s: State, m: Msg)
    requires m in s.place
  {
    && m != NULL
    && match s.place[m]
       case Free => OwnsNode(s, m)
       case Adding(t) =>
         var p := ProducerAt(s, t);
         OwnsNode(s, m) && (p.SetNext? || p.SetMsg? || p.Exchange?) && p.msg == m
       case Queued(l, k) =>
         l in s.lists && |s.lists[l].removed| <= k < |s.lists[l].added| && s.lists[l].added[k] == m
  }

  predicate OwnsNode(s: State, m: Msg) {
    var n := PtrOf(s, m);
    n != NULL && n in s.owner && s.owner[n] == OfMsg(m)
  }

  predicate NodeOk(s: State, n: Node)
    requires n in s.owner
  {
    match s.owner[n]
    case OfMsg(m) => m in s.place && !s.place[m].Queued? && PtrOf(s, m) == n
    case OfList(l, k) =>
      l in s.lists && Shape(s.lists[l])
      && |s.lists[l].removed| <= k <= |s.lists[l].added| && s.lists[l].chain[k - |s.lists[l].removed|] == n
  }

  ghost predicate Inv(s: State) {
    && (forall l {:trigger ListOk(s, l)} :: l in s.lists ==> ListOk(s, l))
    && (forall t :: ProducerOk(s, t))
    && (forall m {:trigger MsgOk(s, m)} :: m in s.place ==> MsgOk(s, m))
    && (forall n {:trigger NodeOk(s, n)} :: n in s.owner ==> NodeOk(s, n))
  }

  // ---------------------------------------------------------- one step keeps it

  /** The state after AcMpscLinkList_init of some lists and the creation of messages
      with one node each, all nodes distinct. */
  ghost predicate Initial(s: State) {
    && (forall l :: l in s.lists ==>
          var q := s.lists[l];
          && q == List(q.head, q.head, Done(NULL), [q.head], [], [], [])
          && q.head != NULL && NextOf(s, q.head) == NULL
          && q.head in s.owner && s.owner[q.head] == OfList(l, 0))
    && s.producers == map[]
    && (forall m :: m in s.place ==> m != NULL && s.place[m] == Free && OwnsNode(s, m))
    && (forall n :: n in s.owner ==>
          match s.owner[n]
          case OfMsg(m) => m in s.place && PtrOf(s, m) == n
          case OfList(l, k) => l in s.lists && k == 0 && s.lists[l].head == n)
  }

  lemma InitialInv(s: State)
    requires Initial(s)
    ensures Inv(s)
  {
    forall l | l in s.lists
      ensures ListOk(s, l)
    {
    }
    forall n | n in s.owner
      ensures NodeOk(s, n)
    {
    }
  }

  /** What list `l` depends on is the same in `r` as in `s`. */
  ghost predicate SameFor(s: State, r: State, l: Lid) {
    && l in s.lists && l in r.lists && r.lists[l] == s.lists[l]
    && (forall n :: n in s.owner && s.owner[n].OfList? && s.owner[n].l == l ==>
          n in r.owner && r.owner[n] == s.owner[n] && NextOf(r, n) == NextOf(s, n) && MsgAt(r, n) == MsgAt(s, n))
    && (forall m :: m in s.place && s.place[m].Queued? && s.place[m].l == l ==>
          m in r.place && r.place[m] == s.place[m] && PtrOf(r, m) == PtrOf(s, m))
    && (forall t :: ProducerAt(s, t).Link? && ProducerAt(s, t).l == l ==> ProducerAt(r, t) == ProducerAt(s, t))
  }

  lemma ListFrame(s: State, r: State, l: Lid)
    requires SameFor(s, r, l) && ListOk(s, l)
    ensures ListOk(r, l)
  {
    var q := s.lists[l];
    forall i | 0 <= i < |q.chain|
      ensures NodeInList(r, l, i)
    {
      assert NodeInList(s, l, i);
    }
    forall i | 0 <= i < |q.chain| - 1
      ensures LinkOk(r, l, i)
    {
      assert LinkOk(s, l, i);
      assert NodeInList(s, l, i) && NodeInList(s, l, i + 1);
    }
    assert NodeInList(s, l, 0);
    if |q.chain| > 1 {
      assert LinkOk(s, l, 0);
    }
  }

  // ------------------------------------------------- a producer's private part

  /** Steps of `t` before its exchange change only that thread, the node of the message
      it adds and where that message is. */
  ghost predicate Private(s: State, r: State, t: Tid, m: Msg) {
    && r.lists == s.lists && r.owner == s.owner && r.nextPtr == s.nextPtr
    && m in s.place && !s.place[m].Queued? && r.place == s.place[m := Adding(t)]
    && (forall u :: u != t ==> ProducerAt(r, u) == ProducerAt(s, u))
    && !ProducerAt(s, t).Link? && !ProducerAt(r, t).Link? && !ProducerAt(r, t).Idle?
    && ProducerAt(r, t).msg == m
    && ((s.place[m] == Free && ProducerAt(s, t).Idle?)
        || (s.place[m] == Adding(t) && !ProducerAt(s, t).Idle? && ProducerAt(s, t).msg == m))
    && (forall n :: n != PtrOf(s, m) ==> NextOf(r, n) == NextOf(s, n) && MsgAt(r, n) == MsgAt(s, n))
  }

  lemma PrivateKeepsInv(s: State, r: State, t: Tid, m: Msg)
    requires Inv(s) && Private(s, r, t, m) && ProducerOk(r, t)
    ensures Inv(r)
  {
    assert MsgOk(s, m);
    PrivateKeepsProducers(s, r, t, m);
    forall l | l in r.lists
      ensures ListOk(r, l)
    {
      ListFrame(s, r, l);
    }
    forall x | x in r.place
      ensures MsgOk(r, x)
    {
      assert MsgOk(s, x);
    }
    forall n | n in r.owner
      ensures NodeOk(r, n)
    {
      assert NodeOk(s, n);
    }
  }

  lemma PrivateKeepsProducers(s: State, r: State, t: Tid, m: Msg)
    requires Inv(s) && Private(s, r, t, m) && ProducerOk(r, t) && MsgOk(s, m)
    ensures forall u :: ProducerOk(r, u)
  {
    forall u | u != t
      ensures ProducerOk(r, u)
    {
      assert ProducerOk(s, u);
      var p := ProducerAt(s, u);
      if p.Link? {
        assert ListOk(s, p.l);
        assert NodeInList(s, p.l, p.pos - |s.lists[p.l].removed|);
      } else if !p.Idle? {
        assert MsgOk(s, p.msg);
      }
    }
  }

  lemma AddKeepsInv(s: State, t: Tid, l: Lid, m: Msg)
    requires Inv(s)
    ensures Inv(Step(s, Add(t, l, m)))
  {
    if Step(s, Add(t, l, m)) != s {
      PrivateKeepsInv(s, Step(s, Add(t, l, m)), t, m);
    }
  }

  lemma PrepareKeepsInv(s: State, t: Tid)
    requires Inv(s) && (ProducerAt(s, t).SetNext? || ProducerAt(s, t).SetMsg?)
    ensures Inv(ProducerStep(s, t))
  {
    assert ProducerOk(s, t);
    var m := ProducerAt(s, t).msg;
    assert s.place[m := Adding(t)] == s.place;
    PrivateKeepsInv(s, ProducerStep(s, t), t, m);
  }

  // ---------------------------------------------------------- the exchange

  lemma ExchangeKeepsInv(s: State, t: Tid)
    requires Inv(s) && ProducerAt(s, t).Exchange?
    ensures Inv(ProducerStep(s, t))
  {
    var r, p := ProducerStep(s, t), ProducerAt(s, t);
    assert ProducerOk(s, t);
    assert MsgOk(s, p.msg);
    ExchangeOwnList(s, t);
    forall l | l in r.lists
      ensures ListOk(r, l)
    {
      if l != p.l {
        ListFrame(s, r, l);
      }
    }
    ExchangeProducers(s, t);
    ExchangeOwners(s, t);
  }

  lemma ExchangeOwners(s: State, t: Tid)
    requires Inv(s) && ProducerAt(s, t).Exchange? && ProducerOk(s, t) && MsgOk(s, ProducerAt(s, t).msg)
    ensures var r := ProducerStep(s, t);
      && (forall m {:trigger MsgOk(r, m)} :: m in r.place ==> MsgOk(r, m))
      && (forall n {:trigger NodeOk(r, n)} :: n in r.owner ==> NodeOk(r, n))
  {
    var r := ProducerStep(s, t);
    assert ListOk(s, ProducerAt(s, t).l);
    forall m | m in r.place
      ensures MsgOk(r, m)
    {
      assert MsgOk(s, m);
    }
    forall n | n in r.owner
      ensures NodeOk(r, n)
    {
      assert NodeOk(s, n);
    }
  }

  lemma ExchangeOwnList(s: State, t: Tid)
    requires Inv(s) && ProducerAt(s, t).Exchange? && ProducerOk(s, t) && MsgOk(s, ProducerAt(s, t).msg)
    ensures ListOk(ProducerStep(s, t), ProducerAt(s, t).l)
  {
    var r, p := ProducerStep(s, t), ProducerAt(s, t);
    var l, q := p.l, s.lists[p.l];
    assert ListOk(s, l);
    forall i | 0 <= i < |q.chain| + 1
      ensures NodeInList(r, l, i)
    {
      if i < |q.chain| {
        assert NodeInList(s, l, i);
      }
    }
    forall i | 0 <= i < |q.chain|
      ensures LinkOk(r, l, i)
    {
      assert NodeInList(s, l, i);
      if i < |q.chain| - 1 {
        assert LinkOk(s, l, i);
      }
    }
  }

  lemma ExchangeProducers(s: State, t: Tid)
    requires Inv(s) && ProducerAt(s, t).Exchange? && ProducerOk(s, t) && MsgOk(s, ProducerAt(s, t).msg)
    ensures forall u :: ProducerOk(ProducerStep(s, t), u)
  {
    var r, p := ProducerStep(s, t), ProducerAt(s, t);
    assert ListOk(s, p.l);
    assert NodeInList(s, p.l, |s.lists[p.l].chain| - 1);
    forall u
      ensures ProducerOk(r, u)
    {
      assert ProducerOk(s, u);
    }
  }

  // -------------------------------------------------------------- the link

  lemma LinkKeepsInv(s: State, t: Tid)
    requires Inv(s) && ProducerAt(s, t).Link?
    ensures Inv(ProducerStep(s, t))
  {
    var r, p := ProducerStep(s, t), ProducerAt(s, t);
    assert ProducerOk(s, t);
    assert ListOk(s, p.l);
    var at := p.pos - |s.lists[p.l].removed|;
    assert NodeInList(s, p.l, at);
    forall l | l in r.lists
      ensures ListOk(r, l)
    {
      if l != p.l {
        ListFrame(s, r, l);
      } else {
        LinkOwnList(s, t, at);
      }
    }
    LinkProducers(s, t, at);
    forall m | m in r.place
      ensures MsgOk(r, m)
    {
      assert MsgOk(s, m);
    }
    forall n | n in r.owner
      ensures NodeOk(r, n)
    {
      assert NodeOk(s, n);
    }
  }

  /** The link is written into a node of the list, never into a recycled one. */
  lemma LinkOwnList(s: State, t: Tid, at: nat)
    requires Inv(s) && ProducerAt(s, t).Link? && ProducerOk(s, t)
    requires at == ProducerAt(s, t).pos - |s.lists[ProducerAt(s, t).l].removed|
    ensures ListOk(ProducerStep(s, t), ProducerAt(s, t).l)
  {
    var r, p := ProducerStep(s, t), ProducerAt(s, t);
    var l, q := p.l, s.lists[p.l];
    assert ListOk(s, l);
    assert NodeInList(s, l, at);
    forall i | 0 <= i < |q.chain|
      ensures NodeInList(r, l, i)
    {
      assert NodeInList(s, l, i);
    }
    forall i | 0 <= i < |q.chain| - 1
      ensures LinkOk(r, l, i)
    {
      assert LinkOk(s, l, i);
      assert NodeInList(s, l, i);
    }
    assert NodeInList(s, l, 0);
  }

  lemma LinkProducers(s: State, t: Tid, at: nat)
    requires Inv(s) && ProducerAt(s, t).Link? && ProducerOk(s, t)
    requires at == ProducerAt(s, t).pos - |s.lists[ProducerAt(s, t).l].removed|
    requires NodeInList(s, ProducerAt(s, t).l, at)
    ensures forall u :: ProducerOk(ProducerStep(s, t), u)
  {
    var r, p := ProducerStep(s, t), ProducerAt(s, t);
    forall u | u != t
      ensures ProducerOk(r, u)
    {
      assert ProducerOk(s, u);
      var w := ProducerAt(s, u);
      if w.Link? {
        assert ListOk(s, w.l);
        assert NodeInList(s, w.l, w.pos - |s.lists[w.l].removed|);
      } else if !w.Idle? {
        assert MsgOk(s, w.msg);
      }
    }
  }

  // ---------------------------------------------------------- the consumer

  lemma ConsumerKeepsInv(s: State, l: Lid)
    requires Inv(s) && l in s.lists
    ensures Inv(ConsumerStep(s, l))
  {
    var q := s.lists[l];
    assert ListOk(s, l);
    assert NodeInList(s, l, 0);
    if |q.chain| > 1 {
      assert LinkOk(s, l, 0);
      assert NodeInList(s, l, 1);
    }
    match q.consumer
    case SetNextPtr(n, m) => SetPtrKeepsInv(s, l);
    case SetTail(n, m) => SetTailKeepsInv(s, l);
    case _ =>
      DistinctEnds(s, l);
      LocalKeepsInv(s, l, ConsumerStep(s, l).lists[l].consumer);
  }

  /** The head is the tail exactly when the list is empty. */
  lemma DistinctEnds(s: State, l: Lid)
    requires Inv(s) && l in s.lists && ListOk(s, l)
    ensures s.lists[l].head == s.lists[l].tail <==> |s.lists[l].chain| == 1
  {
    var q := s.lists[l];
    assert NodeInList(s, l, 0) && NodeInList(s, l, |q.chain| - 1);
  }

  lemma LocalKeepsInv(s: State, l: Lid, c: Consumer)
    requires Inv(s) && l in s.lists && ListOk(s, l) && ConsumerOk(SetConsumer(s, l, c), l)
    ensures Inv(SetConsumer(s, l, c))
  {
    var r := SetConsumer(s, l, c);
    assert ListOk(s, l);
    forall k | k in r.lists
      ensures ListOk(r, k)
    {
      assert ListOk(s, k);
      if k != l {
        ListFrame(s, r, k);
      } else {
        forall i | 0 <= i < |r.lists[l].chain|
          ensures NodeInList(r, l, i)
        {
          assert NodeInList(s, l, i);
        }
        forall i | 0 <= i < |r.lists[l].chain| - 1
          ensures LinkOk(r, l, i)
        {
          assert LinkOk(s, l, i);
        }
      }
    }
    SameListsButConsumer(s, r, l);
  }

  lemma SameListsButConsumer(s: State, r: State, l: Lid)
    requires Inv(s) && l in s.lists && l in r.lists && r == SetConsumer(s, l, r.lists[l].consumer)
    ensures forall t :: ProducerOk(r, t)
    ensures forall m {:trigger MsgOk(r, m)} :: m in r.place ==> MsgOk(r, m)
    ensures forall n {:trigger NodeOk(r, n)} :: n in r.owner ==> NodeOk(r, n)
  {
    forall t
      ensures ProducerOk(r, t)
    {
      assert ProducerOk(s, t);
    }
    forall m | m in r.place
      ensures MsgOk(r, m)
    {
      assert MsgOk(s, m);
    }
    forall n | n in r.owner
      ensures NodeOk(r, n)
    {
      assert NodeOk(s, n);
    }
  }

  lemma SetPtrKeepsInv(s: State, l: Lid)
    requires Inv(s) && l in s.lists && ListOk(s, l) && s.lists[l].consumer.SetNextPtr?
    ensures Inv(ConsumerStep(s, l))
  {
    var m, q := s.lists[l].consumer.msg, s.lists[l];
    var r := s.(nextPtr := s.nextPtr[m := q.tail]);
    SetPtrOwnList(s, l);
    assert LinkOk(s, l, 0);
    forall k | k in r.lists
      ensures ListOk(r, k)
    {
      if k != l {
        assert ListOk(s, k);
        ListFrame(s, r, k);
      }
    }
    SetPtrRest(s, r, l, m);
    LocalKeepsInv(r, l, SetTail(q.consumer.next, m));
  }

  lemma SetPtrRest(s: State, r: State, l: Lid, m: Msg)
    requires Inv(s) && l in s.lists && ListOk(s, l) && s.lists[l].consumer.SetNextPtr?
    requires m == s.lists[l].consumer.msg && r == s.(nextPtr := s.nextPtr[m := s.lists[l].tail])
    ensures forall t :: ProducerOk(r, t)
    ensures forall x {:trigger MsgOk(r, x)} :: x in r.place ==> MsgOk(r, x)
    ensures forall n {:trigger NodeOk(r, n)} :: n in r.owner ==> NodeOk(r, n)
  {
    assert LinkOk(s, l, 0);
    forall t
      ensures ProducerOk(r, t)
    {
      assert ProducerOk(s, t);
    }
    forall x | x in r.place
      ensures MsgOk(r, x)
    {
      assert MsgOk(s, x);
    }
    forall n | n in r.owner
      ensures NodeOk(r, n)
    {
      assert NodeOk(s, n);
    }
  }

  lemma SetPtrOwnList(s: State, l: Lid)
    requires l in s.lists && ListOk(s, l) && s.lists[l].consumer.SetNextPtr?
    ensures ListOk(s.(nextPtr := s.nextPtr[s.lists[l].consumer.msg := s.lists[l].tail]), l)
  {
    var r := s.(nextPtr := s.nextPtr[s.lists[l].consumer.msg := s.lists[l].tail]);
    forall i | 0 <= i < |r.lists[l].chain|
      ensures NodeInList(r, l, i)
    {
      assert NodeInList(s, l, i);
    }
    forall i | 0 <= i < |r.lists[l].chain| - 1
      ensures LinkOk(r, l, i)
    {
      assert LinkOk(s, l, i);
    }
  }

  lemma SetTailKeepsInv(s: State, l: Lid)
    requires Inv(s) && l in s.lists && s.lists[l].consumer.SetTail?
    ensures Inv(ConsumerStep(s, l))
  {
    var r, q := ConsumerStep(s, l), s.lists[l];
    assert ListOk(s, l);
    assert LinkOk(s, l, 0);
    assert NodeInList(s, l, 0) && NodeInList(s, l, 1);
    SetTailOwnList(s, l);
    forall k | k in r.lists
      ensures ListOk(r, k)
    {
      if k != l {
        ListFrame(s, r, k);
      }
    }
    SetTailProducers(s, l);
    forall x | x in r.place
      ensures MsgOk(r, x)
    {
      assert MsgOk(s, x);
    }
    SetTailNodes(s, l);
  }

  lemma SetTailOwnList(s: State, l: Lid)
    requires Inv(s) && l in s.lists && ListOk(s, l) && s.lists[l].consumer.SetTail?
    requires LinkOk(s, l, 0) && NodeInList(s, l, 0)
    ensures ListOk(ConsumerStep(s, l), l)
  {
    var r, q := ConsumerStep(s, l), s.lists[l];
    forall i | 0 <= i < |q.chain| - 1
      ensures NodeInList(r, l, i)
    {
      assert NodeInList(s, l, i + 1);
    }
    forall i | 0 <= i < |q.chain| - 2
      ensures LinkOk(r, l, i)
    {
      assert LinkOk(s, l, i + 1);
    }
  }

  lemma SetTailProducers(s: State, l: Lid)
    requires Inv(s) && l in s.lists && ListOk(s, l) && s.lists[l].consumer.SetTail?
    requires LinkOk(s, l, 0) && NodeInList(s, l, 0) && NodeInList(s, l, 1)
    ensures forall t :: ProducerOk(ConsumerStep(s, l), t)
  {
    hide ConsumerStep, ListOk;
    forall t
      ensures ProducerOk(ConsumerStep(s, l), t)
    {
      assert ProducerOk(s, t);
      SetTailProducer(s, l, t);
    }
  }

  lemma SetTailProducer(s: State, l: Lid, t: Tid)
    requires l in s.lists && ListOk(s, l) && s.lists[l].consumer.SetTail? && ProducerOk(s, t)
    requires LinkOk(s, l, 0) && NodeInList(s, l, 0) && NodeInList(s, l, 1)
    ensures ProducerOk(ConsumerStep(s, l), t)
  {
    if ProducerAt(s, t).Link? {
      SetTailLink(s, l, t);
    } else {
      SetTailAdding(s, l, t);
    }
  }

  lemma SetTailAdding(s: State, l: Lid, t: Tid)
    requires l in s.lists && ListOk(s, l) && s.lists[l].consumer.SetTail? && ProducerOk(s, t)
    requires LinkOk(s, l, 0) && !ProducerAt(s, t).Link?
    ensures ProducerOk(ConsumerStep(s, l), t)
  {
  }

  /** A producer that has not stored its link is past the first one. */
  lemma SetTailLink(s: State, l: Lid, t: Tid)
    requires l in s.lists && ListOk(s, l) && s.lists[l].consumer.SetTail? && ProducerOk(s, t) && ProducerAt(s, t).Link?
    requires LinkOk(s, l, 0) && NodeInList(s, l, 0) && NodeInList(s, l, 1)
    ensures ProducerOk(ConsumerStep(s, l), t)
  {
    var w, q := ProducerAt(s, t), s.lists[l];
    assert w.l == l ==> w.pos > |q.removed|;
    assert Shape(ConsumerStep(s, l).lists[l]);
    hide ListOk, LinkOk, NodeInList;
    if w.l == l {
      assert q.chain[1..][w.pos - |q.removed| - 1] == w.prev;
    }
  }

  lemma SetTailNodes(s: State, l: Lid)
    requires Inv(s) && l in s.lists && ListOk(s, l) && s.lists[l].consumer.SetTail?
    requires LinkOk(s, l, 0) && NodeInList(s, l, 0)
    ensures var r := ConsumerStep(s, l); forall n {:trigger NodeOk(r, n)} :: n in r.owner ==> NodeOk(r, n)
  {
    var r, q := ConsumerStep(s, l), s.lists[l];
    forall n | n in r.owner
      ensures NodeOk(r, n)
    {
      if n != q.tail {
        assert NodeOk(s, n);
      }
    }
  }

  lemma StepKeepsInv(s: State, e: Event)
    requires Inv(s)
    ensures Inv(Step(s, e))
  {
    match e
    case Add(t, l, m) => AddKeepsInv(s, t, l, m);
    case Act(t) =>
      match ProducerAt(s, t) {
        case Idle =>
        case SetNext(_, _, _) => PrepareKeepsInv(s, t);
        case SetMsg(_, _, _) => PrepareKeepsInv(s, t);
        case Exchange(_, _, _) => ExchangeKeepsInv(s, t);
        case Link(_, _, _, _) => LinkKeepsInv(s, t);
      }
    case Rmv(l) =>
      if l in s.lists {
        ConsumerKeepsInv(s, l);
      }
  }

  lemma {:induction false} RunKeepsInv(s: State, es: seq<Event>)
    requires Inv(s)
    ensures Inv(Run(s, es))
    decreases |es|
  {
    if es != [] {
      StepKeepsInv(s, es[0]);
      RunKeepsInv(Step(s, es[0]), es[1..]);
    }
  }
}
