/** AcDispatcher as a single thread sees its calls: the slots in an array, the components
    with their queues on the heap. */
module Dispatcher {
  import opened DispatcherMachine

  class DispatchableComp {
    const comp: nat
    var pool: nat
    var q: seq<Op>
    ghost var log: seq<Op>

    /** get_dc: a pool of two messages and an empty queue. */
    constructor (comp: nat)
      ensures this.comp == comp && pool == 2 && q == [] && log == []
    {
      this.comp := comp;
      pool, q, log := 2, [], [];
    }

    /** process_msg of the component. */
    method Process(op: Op)
      modifies this`log
      ensures log == old(log) + [op]
    {
      log := log + [op];
    }

    /** process_msgs: whether there were messages; all of them are delivered in order. */
    method ProcessMsgs() returns (processed_a_msg: bool)
      modifies this`q, this`log
      ensures q == [] && log == old(log) + old(q) && processed_a_msg == (old(q) != [])
    {
      processed_a_msg := false;
      while q != []
        invariant log + q == old(log) + old(q)
        invariant processed_a_msg == (q != old(q))
        invariant |q| <= |old(q)|
        decreases |q|
      {
        var pmsg := q[0];
        q := q[1..];
        Process(pmsg);
        processed_a_msg := true;
      }
    }

    /** ret_dc. */
    method RetDc(aborting: bool)
      requires !aborting ==> pool > 0
      modifies this`pool, this`log
      ensures log == if aborting then old(log) else old(log) + [Deinit]
      ensures pool == if aborting then old(pool) else old(pool) - 1
    {
      if !aborting {
        pool := pool - 1;
        Process(Deinit);
      }
    }
  }

  datatype Cell = DC_EMPTY | DC_PROCESSING | Holds(dc: DispatchableComp)

  /** How a slot looks to a dispatch: without a component, or with one that has messages. */
  datatype Visit = Skipped | Visited(had: bool)

  /** The answer of the last component, if any. */
  function LastAnswer(vs: seq<Visit>): bool {
    if vs == [] then false
    else if vs[|vs| - 1].Visited? then vs[|vs| - 1].had
    else LastAnswer(vs[..|vs| - 1])
  }

  /** The components after position `i` had no messages, and there are some. */
  predicate OnlyIdleAfter(vs: seq<Visit>, i: nat) {
    && (forall k :: i < k < |vs| ==> vs[k] != Visited(true))
    && (exists k :: i < k < |vs| && vs[k].Visited?)
  }

  /** The answer is wrong, FALSE although messages were processed, exactly when the last
      component that had messages is followed by one that had none; it is never wrong
      the other way. */
  lemma {:induction false} AnswerIsWrongIff(vs: seq<Visit>)
    ensures LastAnswer(vs) ==> Visited(true) in vs
    ensures (Visited(true) in vs && !LastAnswer(vs)) <==>
      exists i :: 0 <= i < |vs| && vs[i] == Visited(true) && OnlyIdleAfter(vs, i)
  {
    if vs != [] {
      var n := |vs| - 1;
      var rest := vs[..n];
      AnswerIsWrongIff(rest);
      if vs[n] == Skipped {
        forall i | 0 <= i < n
          ensures OnlyIdleAfter(vs, i) <==> OnlyIdleAfter(rest, i)
        {
          if k :| i < k < n && vs[k].Visited? {
            assert rest[k].Visited?;
          }
        }
        assert Visited(true) in vs <==> Visited(true) in rest;
      } else if vs[n] == Visited(false) && Visited(true) in vs {
        var i := LastBusy(vs);
        assert vs[n].Visited?;
      }
    }
  }

  lemma {:induction false} LastBusy(vs: seq<Visit>) returns (i: nat)
    requires Visited(true) in vs
    ensures i < |vs| && vs[i] == Visited(true) && forall k :: i < k < |vs| ==> vs[k] != Visited(true)
  {
    var n := |vs| - 1;
    if vs[n] == Visited(true) {
      i := n;
    } else {
      i := LastBusy(vs[..n]);
    }
  }

  lemma AnswerGrows(vs: seq<Visit>, i: nat)
    requires i < |vs|
    ensures LastAnswer(vs[..i + 1]) == if vs[i].Visited? then vs[i].had else LastAnswer(vs[..i])
  {
    assert vs[..i + 1][..i] == vs[..i];
  }

  class AcDispatcher {
    const dcs: array<Cell>
    ghost var comps: set<DispatchableComp>

    /** Between calls no slot is being processed and no component is in two slots. */
    ghost predicate Valid()
      reads this, dcs, comps`pool
    {
      && (forall i :: 0 <= i < dcs.Length ==> !dcs[i].DC_PROCESSING?)
      && (forall i :: 0 <= i < dcs.Length && dcs[i].Holds? ==> dcs[i].dc in comps && dcs[i].dc.pool > 0)
      && (forall i, j :: 0 <= i < j < dcs.Length && dcs[i].Holds? && dcs[j].Holds? ==> dcs[i].dc != dcs[j].dc)
    }

    /** AcDispatcher_get. */
    constructor (max_count: nat)
      ensures Valid() && fresh(dcs) && comps == {}
      ensures dcs.Length == max_count && forall i :: 0 <= i < max_count ==> dcs[i] == DC_EMPTY
    {
      dcs := new Cell[max_count](i => DC_EMPTY);
      comps := {};
    }

    /** rmv_dc: all messages are delivered, and then AC_DEINIT_CMD. */
    method RmvDc(i: nat)
      requires Valid() && i < dcs.Length
      modifies dcs, if dcs[i].Holds? then {dcs[i].dc} else {}
      ensures Valid() && dcs[..] == old(dcs[..])[i := DC_EMPTY]
      ensures old(dcs[i]).Holds? ==> old(dcs[i]).dc.log == old(dcs[i].dc.log + dcs[i].dc.q) + [Deinit]
    {
      var dc := dcs[i];
      dcs[i] := DC_EMPTY;
      if dc.Holds? {
        var processed := dc.dc.ProcessMsgs();
        dc.dc.RetDc(false);
      }
    }

    /** What slot `i` is after a dispatch that began with the component `dc` in it, whose
        messages were `due`: put back, or finished when a remover took the slot meanwhile. */
    ghost predicate Dispatched(i: nat, was: Cell, due: seq<Op>, taken: bool)
      requires i < dcs.Length
      reads dcs, if was.Holds? then {was.dc} else {}
    {
      if was.Holds?
      then dcs[i] == (if taken then DC_EMPTY else was) && was.dc.q == []
        && was.dc.log == (if taken then due + [Deinit] else due)
      else dcs[i] == was
    }

    /** One slot of AcDispatcher_dispatch; `taken` says whether a remover exchanges the slot
        while its messages are processed. */
    method DispatchSlot(i: nat, before: bool, taken: bool) returns (processed_msgs: bool)
      requires Valid() && i < dcs.Length
      modifies dcs, if dcs[i].Holds? then {dcs[i].dc} else {}
      ensures Valid() && forall k :: 0 <= k < dcs.Length && k != i ==> dcs[k] == old(dcs[k])
      ensures Dispatched(i, old(dcs[i]), if old(dcs[i].Holds?) then old(dcs[i].dc.log + dcs[i].dc.q) else [], taken)
      ensures processed_msgs == if old(dcs[i]).Holds? then old(dcs[i].dc.q != []) else before
    {
      processed_msgs := before;
      var q := dcs[i];
      dcs[i] := DC_PROCESSING;
      if q.DC_EMPTY? {
        dcs[i] := DC_EMPTY;
      } else if q.Holds? {
        processed_msgs := q.dc.ProcessMsgs();
        if taken {
          dcs[i] := DC_EMPTY;
        }
        if dcs[i] == DC_PROCESSING {
          dcs[i] := q;
        } else {
          q.dc.RetDc(false);
        }
      }
    }

    /** The slots before `i` have been dispatched, the others are as they were. */
    ghost predicate Halfway(i: nat, was: seq<Cell>, due: seq<seq<Op>>, visits: seq<Visit>, taken: set<nat>)
      reads this, dcs, comps
    {
      && i <= dcs.Length == |was| == |due| == |visits| && Valid()
      && (forall k :: 0 <= k < |was| && was[k].Holds? ==> was[k].dc in comps)
      && (forall j, k :: 0 <= j < k < |was| && was[j].Holds? && was[k].Holds? ==> was[j].dc != was[k].dc)
      && (forall k :: 0 <= k < i ==> Dispatched(k, was[k], due[k], k in taken))
      && (forall k :: i <= k < |was| ==> dcs[k] == was[k])
      && (forall k :: i <= k < |was| ==>
            if was[k].Holds? then was[k].dc.log + was[k].dc.q == due[k] && visits[k] == Visited(was[k].dc.q != [])
            else visits[k] == Skipped)
    }

    method DispatchNext(i: nat, before: bool, taken: set<nat>, ghost was: seq<Cell>, ghost due: seq<seq<Op>>,
        ghost visits: seq<Visit>)
      returns (processed_msgs: bool)
      requires i < dcs.Length && Halfway(i, was, due, visits, taken)
      modifies dcs, comps
      ensures Halfway(i + 1, was, due, visits, taken)
      ensures processed_msgs == if visits[i].Visited? then visits[i].had else before
    {
      processed_msgs := DispatchSlot(i, before, i in taken);
    }

    /** AcDispatcher_dispatch over all slots; `taken` are those a remover takes meanwhile.
        The answer is that of the last component only. */
    method Dispatch(taken: set<nat>) returns (processed_msgs: bool)
      requires Valid()
      modifies dcs, comps
      ensures Valid()
      ensures forall i :: 0 <= i < dcs.Length ==>
                var due := if old(dcs[i].Holds?) then old(dcs[i].dc.log + dcs[i].dc.q) else [];
                Dispatched(i, old(dcs[i]), due, i in taken)
      ensures processed_msgs == LastAnswer(old(VisitsTo(dcs.Length)))
    {
      processed_msgs := false;
      ghost var was, due, visits := dcs[..], DueTo(dcs.Length), VisitsTo(dcs.Length);
      assert visits[..0] == [] && !LastAnswer([]);
      var i := 0;
      while i < dcs.Length
        invariant 0 <= i <= dcs.Length && Halfway(i, was, due, visits, taken)
        invariant processed_msgs == LastAnswer(visits[..i])
      {
        hide Halfway, LastAnswer;
        AnswerGrows(visits, i);
        processed_msgs := DispatchNext(i, processed_msgs, taken, was, due, visits);
        i := i + 1;
      }
      assert visits[..i] == visits;
    }

    /** Whether each slot's component has messages. */
    ghost function VisitsTo(n: nat): (r: seq<Visit>)
      reads this, dcs, comps
      requires Valid() && n <= dcs.Length
      ensures |r| == n
      ensures forall i :: 0 <= i < n ==> r[i] == if dcs[i].Holds? then Visited(dcs[i].dc.q != []) else Skipped
    {
      if n == 0 then [] else VisitsTo(n - 1) + [if dcs[n - 1].Holds? then Visited(dcs[n - 1].dc.q != []) else Skipped]
    }

    /** What each slot's component is to be given. */
    ghost function DueTo(n: nat): (r: seq<seq<Op>>)
      reads this, dcs, comps
      requires Valid() && n <= dcs.Length
      ensures |r| == n
      ensures forall i :: 0 <= i < n ==> r[i] == if dcs[i].Holds? then dcs[i].dc.log + dcs[i].dc.q else []
    {
      if n == 0 then [] else DueTo(n - 1) + [if dcs[n - 1].Holds? then dcs[n - 1].dc.log + dcs[n - 1].dc.q else []]
    }

    /** AcDispatcher_add_comp: the first empty slot, with AC_INIT_CMD queued, or null. */
    method AddComp(comp: nat) returns (r: DispatchableComp?)
      requires Valid()
      modifies this`comps, dcs
      ensures Valid()
      ensures r == null <==> forall i :: 0 <= i < dcs.Length ==> old(dcs[i]) != DC_EMPTY
      ensures comps == old(comps) + if r == null then {} else {r}
      ensures r == null ==> dcs[..] == old(dcs[..])
      ensures r != null ==> fresh(r) && r.comp == comp && r.q == [Init] && r.log == [] && r.pool == 1
      ensures r != null ==> exists i ::
        0 <= i < dcs.Length && FirstEmpty(old(dcs[..]), i) && dcs[..] == old(dcs[..])[i := Holds(r)]
    {
      var dc := new DispatchableComp(comp);
      var i := 0;
      while i < dcs.Length
        invariant 0 <= i <= dcs.Length && Valid() && dcs[..] == old(dcs[..]) && fresh(dc) && dc !in comps
        invariant dc.comp == comp && dc.q == [] && dc.log == [] && dc.pool == 2
        invariant forall k :: 0 <= k < i ==> dcs[k] != DC_EMPTY
      {
        if dcs[i] == DC_EMPTY {
          dcs[i] := Holds(dc);
          comps := comps + {dc};
          dc.pool := dc.pool - 1;
          dc.q := dc.q + [Init];
          assert FirstEmpty(old(dcs[..]), i);
          return dc;
        }
        i := i + 1;
      }
      dc.RetDc(true);
      return null;
    }

    /** AcDispatcher_rmv_comp: the first component that is `comp`, if any, is removed. */
    method RmvComp(comp: nat) returns (ok: bool)
      requires Valid()
      modifies dcs, comps
      ensures Valid()
      ensures ok <==> exists i :: 0 <= i < dcs.Length && IsComp(old(dcs[..]), i, comp)
      ensures !ok ==> dcs[..] == old(dcs[..])
      ensures ok ==> exists i :: (
                && 0 <= i < dcs.Length && FirstComp(old(dcs[..]), i, comp) && dcs[..] == old(dcs[..])[i := DC_EMPTY]
                && old(dcs[i]).dc.log == old(dcs[i].dc.log + dcs[i].dc.q) + [Deinit])
    {
      var i := 0;
      while i < dcs.Length
        invariant 0 <= i <= dcs.Length && Valid() && dcs[..] == old(dcs[..])
        invariant forall c :: c in comps ==> c.log == old(c.log) && c.q == old(c.q)
        invariant forall k :: 0 <= k < i ==> !IsComp(old(dcs[..]), k, comp)
      {
        if dcs[i].Holds? && dcs[i].dc.comp == comp {
          assert FirstComp(old(dcs[..]), i, comp);
          RmvDc(i);
          return true;
        }
        i := i + 1;
      }
      return false;
    }
  }

  predicate FirstEmpty(cells: seq<Cell>, i: nat)
    requires i < |cells|
  {
    cells[i] == DC_EMPTY && forall k :: 0 <= k < i ==> cells[k] != DC_EMPTY
  }

  predicate IsComp(cells: seq<Cell>, i: nat, comp: nat)
    requires i < |cells|
  {
    cells[i].Holds? && cells[i].dc.comp == comp
  }

  predicate FirstComp(cells: seq<Cell>, i: nat, comp: nat)
    requires i < |cells|
  {
    IsComp(cells, i, comp) && forall k :: 0 <= k < i ==> !IsComp(cells, k, comp)
  }

  /** Two components get AC_INIT_CMD, the first a message more, and that dispatch delivers it
      and answers FALSE. */
  method AnswerForTwo() returns (first: DispatchableComp, answers: (bool, bool))
    ensures first.log == [Init, User(5)] && answers == (true, false)
  {
    var d := new AcDispatcher(2);
    assert d.dcs[0] == DC_EMPTY && d.dcs[1] == DC_EMPTY;
    var a := d.AddComp(7);
    assert a != null && d.dcs[..][0] == Holds(a) && d.dcs[..][1] == DC_EMPTY;
    var b := d.AddComp(8);
    assert b != null && d.dcs[..][0] == Holds(a) && d.dcs[..][1] == Holds(b);
    var before := d.Dispatch({});
    a.q := a.q + [User(5)];
    var after := d.Dispatch({});
    return a, (before, after);
  }
}
