/** What a call that adds or removes a component does when no other thread runs meanwhile. */
module DispatcherCalls {
  import opened DispatcherMachine
  import opened DispatcherTheorems

  function Times(e: Event, n: nat): (es: seq<Event>)
    ensures |es| == n
  {
    if n == 0 then [] else [e] + Times(e, n - 1)
  }

  lemma RunTimes(s: State, e: Event, n: nat)
    requires n > 0
    ensures Run(s, Times(e, n)) == Run(Step(s, e), Times(e, n - 1))
  {
    assert Times(e, n)[1..] == Times(e, n - 1);
  }

  lemma {:induction false} RunBoth(s: State, e: Event, m: nat, n: nat)
    ensures Run(s, Times(e, m + n)) == Run(Run(s, Times(e, m)), Times(e, n))
    decreases m
  {
    if m > 0 {
      RunTimes(s, e, m + n);
      RunTimes(s, e, m);
      RunBoth(Step(s, e), e, m - 1, n);
    }
  }

  // ------------------------------------------------------------------------ add

  /** The slot before which none is empty from `i` on: the first empty one, if there is one. */
  predicate FirstEmptyFrom(s: State, i: nat, k: nat) {
    && i <= k <= |s.slots|
    && (forall j :: i <= j < k ==> s.slots[j] != Empty)
    && (k < |s.slots| ==> s.slots[k] == Empty)
  }

  /** The slots that are not empty are passed one by one. */
  lemma {:induction false} TryAlone(s: State, t: Tid, i: nat, d: Id, k: nat)
    requires d in s.dcs && AdderAt(s, t) == Try(i, d) && FirstEmptyFrom(s, i, k)
    ensures Run(s, Times(Add(t), k - i)) == s.(adders := s.adders[t := Try(k, d)])
    decreases k - i
  {
    if i < k {
      RunTimes(s, Add(t), k - i);
      var r := AddStep(s, t);
      TryAlone(r, t, i + 1, d, k);
      assert r.adders[t := Try(k, d)] == s.adders[t := Try(k, d)];
    } else {
      assert s.adders[t := Try(k, d)] == s.adders;
    }
  }

  /** A call of add that runs alone puts the component into the first empty slot, with
      AC_INIT_CMD in its queue, or gives it back when no slot is empty. */
  lemma AddAlone(s: State, t: Tid, comp: nat, d: Id, k: nat, n: nat)
    requires Allowed(s, AddCall(t, comp, d)) && FirstEmptyFrom(s, 0, k)
    requires n == if k < |s.slots| then k + 3 else k + 1
    ensures var r := Run(Step(s, AddCall(t, comp, d)), Times(Add(t), n));
      && AdderAt(r, t).Outside? && d in r.dcs && r.dcs[d].comp == comp && r.dcs[d].log == []
      && (k < |s.slots| ==>
            && r.slots == s.slots[k := Has(d)] && r.dcs[d].holder == InSlot(k)
            && r.dcs[d].queue == [Init] && r.dcs[d].pool == 1 && r.dcs[d].added)
      && (k == |s.slots| ==> r.slots == s.slots && r.dcs[d].holder == Gone && !r.dcs[d].added)
      && (forall e :: e in s.dcs ==> e in r.dcs && r.dcs[e] == s.dcs[e])
  {
    var b := Tried(s, t, comp, d, k);
    TriesFirst(s, t, comp, d, k, n);
    assert AdderAt(b, t) == Try(k, d);
    if k < |s.slots| {
      hide Run, Allowed, FirstEmptyFrom, AddStep, Step;
      PutAlone(b, t, k, d);
      RunThree(b, t, n - k);
    } else {
      hide Run, Allowed, FirstEmptyFrom, AddStep, Step;
      FullAlone(b, t, d);
      RunOne(b, t, n - k);
    }
  }

  /** The state when a call of add has come to slot `k`. */
  function Tried(s: State, t: Tid, comp: nat, d: Id, k: nat): State {
    SetDc(s, d, Dc(comp, [], 2, [], [], t, false, false, ByAdder)).(adders := s.adders[t := Try(k, d)])
  }

  lemma TriesFirst(s: State, t: Tid, comp: nat, d: Id, k: nat, n: nat)
    requires Allowed(s, AddCall(t, comp, d)) && FirstEmptyFrom(s, 0, k) && n >= k
    ensures Run(Step(s, AddCall(t, comp, d)), Times(Add(t), n))
      == Run(Tried(s, t, comp, d, k), Times(Add(t), n - k))
  {
    var a := Step(s, AddCall(t, comp, d));
    assert a == Tried(s, t, comp, d, 0);
    RunBoth(a, Add(t), k, n - k);
    TryAlone(a, t, 0, d, k);
    assert a.adders[t := Try(k, d)] == s.adders[t := Try(k, d)];
  }

  lemma RunOne(s: State, t: Tid, n: nat)
    requires n == 1
    ensures Run(s, Times(Add(t), n)) == AddStep(s, t)
  {
    RunTimes(s, Add(t), n);
  }

  lemma RunThree(s: State, t: Tid, n: nat)
    requires n == 3
    ensures Run(s, Times(Add(t), n)) == AddStep(AddStep(AddStep(s, t), t), t)
  {
    RunTimes(s, Add(t), n);
    RunTimes(AddStep(s, t), Add(t), n - 1);
    RunOne(AddStep(AddStep(s, t), t), t, n - 2);
  }

  lemma FullAlone(s: State, t: Tid, d: Id)
    requires d in s.dcs && AdderAt(s, t) == Try(|s.slots|, d)
    ensures var r := AddStep(s, t);
      && AdderAt(r, t).Outside? && r.slots == s.slots
      && d in r.dcs && r.dcs[d] == s.dcs[d].(holder := Gone)
      && (forall e :: e in s.dcs && e != d ==> e in r.dcs && r.dcs[e] == s.dcs[e])
  {
  }

  lemma PutAlone(s: State, t: Tid, k: nat, d: Id)
    requires d in s.dcs && AdderAt(s, t) == Try(k, d) && k < |s.slots| && s.slots[k] == Empty
    requires s.dcs[d].queue == [] && s.dcs[d].pool == 2
    ensures var r := AddStep(AddStep(AddStep(s, t), t), t);
      && AdderAt(r, t).Outside? && r.slots == s.slots[k := Has(d)]
      && d in r.dcs && r.dcs[d].comp == s.dcs[d].comp && r.dcs[d].log == s.dcs[d].log
      && r.dcs[d].holder == InSlot(k) && r.dcs[d].queue == [Init] && r.dcs[d].pool == 1 && r.dcs[d].added
      && (forall e :: e in s.dcs && e != d ==> e in r.dcs && r.dcs[e] == s.dcs[e])
  {
    var r := AddStep(AddStep(s, t), t);
    assert AdderAt(r, t) == SendInit(d);
    assert r.dcs[d].queue + [Init] == [Init];
  }

  // ------------------------------------------------------------------------ rmv

  predicate NoneProcessing(s: State) {
    forall i :: 0 <= i < |s.slots| ==> s.slots[i] != Processing
  }

  predicate HasComp(s: State, i: nat, comp: nat)
    requires i < |s.slots|
  {
    s.slots[i].Has? && s.slots[i].d in s.dcs && s.dcs[s.slots[i].d].comp == comp
  }

  /** The slot before which none has the component from `i` on: the first that has, if one has. */
  predicate FirstCompFrom(s: State, i: nat, comp: nat, k: nat) {
    && i <= k <= |s.slots|
    && (forall j :: i <= j < k ==> !HasComp(s, j, comp))
    && (k < |s.slots| ==> HasComp(s, k, comp))
  }

  lemma {:induction false} ScanAlone(s: State, i: nat, comp: nat, k: nat)
    requires NoneProcessing(s) && s.rem == Scan(i, comp) && FirstCompFrom(s, i, comp, k)
    ensures Run(s, Times(Rmv, k - i)) == s.(rem := Scan(k, comp))
    decreases k - i
  {
    if i < k {
      RunTimes(s, Rmv, k - i);
      var r := s.(rem := Scan(i + 1, comp));
      assert !HasComp(s, i, comp);
      assert RmvStep(s) == r;
      ScansOn(s, r, i, i + 1, comp, k);
      ScanAlone(r, i + 1, comp, k);
    }
  }

  lemma ScansOn(s: State, r: State, i: nat, j: nat, comp: nat, k: nat)
    requires FirstCompFrom(s, i, comp, k) && i <= j <= k && r.slots == s.slots && r.dcs == s.dcs
    ensures FirstCompFrom(r, j, comp, k)
  {
    forall x | j <= x < k
      ensures !HasComp(r, x, comp)
    {
      assert !HasComp(s, x, comp);
    }
  }

  function Delivered(c: Dc): Dc {
    c.(queue := [], log := c.log + c.queue)
  }

  /** The remover delivers all that is queued, in order. */
  lemma {:induction false} DrainAlone(s: State, d: Id, due: nat, n: nat)
    requires d in s.dcs && s.rem == RmvDrain(d, due) && n == 2 * |s.dcs[d].queue| + 1
    ensures Run(s, Times(Rmv, n)) == SetDc(s, d, Delivered(s.dcs[d])).(rem := RmvFinish(d, due))
    decreases n
  {
    var c := s.dcs[d];
    RunTimes(s, Rmv, n);
    if c.queue == [] {
      assert Delivered(c) == c;
      assert s.dcs[d := c] == s.dcs;
    } else {
      var took := c.(queue := c.queue[1..], log := c.log + [c.queue[0]]);
      var r := SetDc(s, d, took).(rem := RmvDrain(d, due));
      RunTimes(RmvStep(s), Rmv, n - 1);
      DrainOne(s, d, due);
      hide RmvStep;
      DrainAlone(r, d, due, n - 2);
      assert took.log + took.queue == c.log + c.queue;
      assert s.dcs[d := took][d := Delivered(c)] == s.dcs[d := Delivered(c)];
    }
  }

  lemma DrainOne(s: State, d: Id, due: nat)
    requires d in s.dcs && s.rem == RmvDrain(d, due) && s.dcs[d].queue != []
    ensures var c := s.dcs[d];
      RmvStep(RmvStep(s))
      == SetDc(s, d, c.(queue := c.queue[1..], log := c.log + [c.queue[0]])).(rem := RmvDrain(d, due))
  {
    var c := s.dcs[d];
    var took := c.(queue := c.queue[1..], log := c.log + [c.queue[0]]);
    assert s.dcs[d := c.(queue := c.queue[1..])][d := took] == s.dcs[d := took];
  }

  /** A call of rmv that runs alone takes the first slot that has the component, delivers to
      it what is queued and then AC_DEINIT_CMD, and answers OK; or it answers ERR and changes
      nothing when no slot has it. */
  lemma RmvAlone(s: State, comp: nat, k: nat, n: nat)
    requires Inv(s) && Allowed(s, RmvCall(comp)) && NoneProcessing(s) && FirstCompFrom(s, 0, comp, k)
    requires n == if k < |s.slots| then k + 4 + 2 * |s.dcs[s.slots[k].d].queue| else k + 1
    ensures var r := Run(Step(s, RmvCall(comp)), Times(Rmv, n));
      && (k < |s.slots| ==>
            var d := s.slots[k].d;
            && r.rem == Done(true) && r.slots == s.slots[k := Empty]
            && d in r.dcs && r.dcs[d].holder == Gone && r.dcs[d].log == s.dcs[d].sent + [Deinit]
            && (forall e :: e in s.dcs && e != d ==> e in r.dcs && r.dcs[e] == s.dcs[e]))
      && (k == |s.slots| ==> r == s.(rem := Done(false)))
  {
    var a := Step(s, RmvCall(comp));
    var b := a.(rem := Scan(k, comp));
    RunBoth(a, Rmv, k, n - k);
    ScansOn(s, a, 0, 0, comp, k);
    ScanAlone(a, 0, comp, k);
    if k < |s.slots| {
      assert SlotOk(s, k) && DcOk(s, s.slots[k].d);
      hide Run, Inv, Allowed;
      TakeAlone(s, b, k, comp, n - k);
    } else {
      RunTimes(b, Rmv, 1);
    }
  }

  lemma TakeAlone(s: State, b: State, k: nat, comp: nat, n: nat)
    requires b == s.(rem := Scan(k, comp)) && k < |s.slots| && HasComp(s, k, comp)
    requires n == 4 + 2 * |s.dcs[s.slots[k].d].queue|
    requires var c := s.dcs[s.slots[k].d]; c.log + c.queue == c.sent
    ensures var (r, d) := (Run(b, Times(Rmv, n)), s.slots[k].d);
      && r.rem == Done(true) && r.slots == s.slots[k := Empty]
      && d in r.dcs && r.dcs[d].holder == Gone && r.dcs[d].log == s.dcs[d].sent + [Deinit]
      && (forall e :: e in s.dcs && e != d ==> e in r.dcs && r.dcs[e] == s.dcs[e])
  {
    var d := s.slots[k].d;
    RunTimes(b, Rmv, n);
    var x := RmvStep(b);
    assert x == s.(rem := Exchange(k, d));
    RunTimes(x, Rmv, n - 1);
    var y := RmvStep(x);
    assert y.slots == s.slots[k := Empty] && y.rem == RmvDrain(d, |s.dcs[d].sent|);
    RunBoth(y, Rmv, n - 3, 1);
    DrainAlone(y, d, |s.dcs[d].sent|, n - 3);
    RunTimes(Run(y, Times(Rmv, n - 3)), Rmv, 1);
  }
}
