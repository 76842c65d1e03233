/** Thread control blocks, and the queue of threads that wait for the timer: a binary heap
    in an array whose root is at index 1. */
module WaitingTcbs {

  const AC_THREAD_ID_ZOMBIE: int := -3
  const AC_THREAD_ID_EMPTY: int := -1

  class Tcb {
    var thread_id: int
    var pnext_tcb: Tcb?
    var pprev_tcb: Tcb?
    var slice: nat
    var slice_deadline: nat
    var waiting_deadline: nat

    /** tcb_init. */
    constructor (thread_id: int, slice: nat)
      ensures this.thread_id == thread_id && this.slice == slice
      ensures pnext_tcb == null && pprev_tcb == null && slice_deadline == 0 && waiting_deadline == 0
    {
      this.thread_id, this.slice := thread_id, slice;
      pnext_tcb, pprev_tcb, slice_deadline, waiting_deadline := null, null, 0, 0;
    }
  }

  /** Entry `k` of a heap is not before its parent; entry 0 is not used. */
  predicate AfterParent(keys: seq<nat>, k: nat)
    requires 1 < k < |keys|
  {
    keys[k / 2] <= keys[k]
  }

  ghost predicate HeapOrder(keys: seq<nat>) {
    forall k :: 1 < k < |keys| ==> AfterParent(keys, k)
  }

  /** The root of a heap is a minimum. */
  lemma {:induction false} RootIsMin(keys: seq<nat>, k: nat)
    requires HeapOrder(keys) && 1 <= k < |keys|
    ensures keys[1] <= keys[k]
  {
    if k > 1 {
      assert AfterParent(keys, k);
      RootIsMin(keys, k / 2);
    }
  }

  function Swapped(keys: seq<nat>, i: nat, j: nat): (r: seq<nat>)
    requires i < |keys| && j < |keys|
    ensures |r| == |keys|
  {
    keys[i := keys[j]][j := keys[i]]
  }

  /** A heap but for entry `n`, which may belong further up. */
  ghost predicate HeapButUp(keys: seq<nat>, n: nat) {
    && 1 <= n < |keys|
    && (forall k :: 1 < k < |keys| && k != n ==> AfterParent(keys, k))
    && (forall k {:trigger keys[k]} :: 1 < k < |keys| && k / 2 == n && n > 1 ==> keys[n / 2] <= keys[k])
  }

  lemma MovedUp(keys: seq<nat>, n: nat)
    requires HeapButUp(keys, n) && n > 1 && keys[n] < keys[n / 2]
    ensures HeapButUp(Swapped(keys, n, n / 2), n / 2)
  {
    var r := Swapped(keys, n, n / 2);
    forall k | 1 < k < |r| && k != n / 2
      ensures AfterParent(r, k)
    {
      assert k != n ==> AfterParent(keys, k);
    }
    forall k | 1 < k < |r| && k / 2 == n / 2 && n / 2 > 1
      ensures r[n / 2 / 2] <= r[k]
    {
      assert AfterParent(keys, n / 2);
      assert k != n ==> AfterParent(keys, k);
    }
  }

  lemma UpIsDone(keys: seq<nat>, n: nat)
    requires HeapButUp(keys, n) && (n > 1 ==> keys[n / 2] <= keys[n])
    ensures HeapOrder(keys)
  {
    assert n > 1 ==> AfterParent(keys, n);
  }

  /** A heap but for entry `n`, which may belong further down. */
  ghost predicate HeapButDown(keys: seq<nat>, n: nat) {
    && 1 <= n
    && (forall k :: 1 < k < |keys| && k / 2 != n ==> AfterParent(keys, k))
    && (forall k {:trigger keys[k]} :: 1 < k < |keys| && k / 2 == n && n > 1 ==> keys[n / 2] <= keys[k])
  }

  /** The child of `n` with the smaller key. */
  predicate SmallerChild(keys: seq<nat>, n: nat, c: nat) {
    && n >= 1 && c / 2 == n && c < |keys|
    && (2 * n < |keys| ==> keys[c] <= keys[2 * n])
    && (2 * n + 1 < |keys| ==> keys[c] <= keys[2 * n + 1])
  }

  lemma MovedDown(keys: seq<nat>, n: nat, c: nat)
    requires HeapButDown(keys, n) && SmallerChild(keys, n, c) && keys[n] > keys[c]
    ensures HeapButDown(Swapped(keys, n, c), c)
  {
    var r := Swapped(keys, n, c);
    forall k | 1 < k < |r| && k / 2 != c
      ensures AfterParent(r, k)
    {
      assert k / 2 != n ==> AfterParent(keys, k);
      assert n > 1 ==> keys[n / 2] <= keys[c];
    }
    forall k | 1 < k < |r| && k / 2 == c
      ensures r[c / 2] <= r[k]
    {
      assert AfterParent(keys, k);
    }
  }

  lemma DownIsDone(keys: seq<nat>, n: nat)
    requires HeapButDown(keys, n)
    requires 2 * n >= |keys| || (exists c: nat :: SmallerChild(keys, n, c) && keys[n] <= keys[c])
    ensures HeapOrder(keys)
  {
    forall k | 1 < k < |keys|
      ensures AfterParent(keys, k)
    {
      if k / 2 == n {
        var c: nat :| SmallerChild(keys, n, c) && keys[n] <= keys[c];
        assert k == 2 * n || k == 2 * n + 1;
      }
    }
  }

  lemma Appended(keys: seq<nat>, key: nat)
    requires HeapOrder(keys) && |keys| >= 1
    ensures HeapButUp(keys + [key], |keys|)
  {
    var r := keys + [key];
    forall k | 1 < k < |keys|
      ensures AfterParent(r, k)
    {
      assert AfterParent(keys, k);
    }
  }

  /** The last key in place of the first. */
  function LastFirst(keys: seq<nat>): seq<nat>
    requires |keys| > 1
  {
    if |keys| == 2 then [keys[0]] else keys[..|keys| - 1][1 := keys[|keys| - 1]]
  }

  lemma LastMovedFirst(keys: seq<nat>)
    requires HeapOrder(keys) && |keys| > 1
    ensures HeapButDown(LastFirst(keys), 1)
  {
    var r := LastFirst(keys);
    forall k | 1 < k < |r| && k / 2 != 1
      ensures AfterParent(r, k)
    {
      assert AfterParent(keys, k);
    }
  }

  ghost predicate IsEarliest<T>(deadlines: map<T, nat>, t: T) {
    t in deadlines && forall u :: u in deadlines ==> deadlines[t] <= deadlines[u]
  }

  /** The threads `ms` leave one by one, each as an earliest of those left. */
  ghost predicate Leave<T>(deadlines: map<T, nat>, ms: seq<T>) {
    ms == [] || (IsEarliest(deadlines, ms[0]) && Leave(deadlines - {ms[0]}, ms[1..]))
  }

  /** Threads that leave one by one leave in the order of their deadlines, each once. */
  lemma {:induction false} LeaveInOrder<T>(deadlines: map<T, nat>, ms: seq<T>, i: nat, j: nat)
    requires Leave(deadlines, ms) && i < j < |ms|
    ensures ms[i] in deadlines && ms[j] in deadlines && ms[i] != ms[j] && deadlines[ms[i]] <= deadlines[ms[j]]
  {
    if i == 0 {
      StillIn(deadlines - {ms[0]}, ms[1..], j - 1);
    } else {
      LeaveInOrder(deadlines - {ms[0]}, ms[1..], i - 1, j - 1);
    }
  }

  lemma {:induction false} StillIn<T>(deadlines: map<T, nat>, ms: seq<T>, j: nat)
    requires Leave(deadlines, ms) && j < |ms|
    ensures ms[j] in deadlines
  {
    if j > 0 {
      StillIn(deadlines - {ms[0]}, ms[1..], j - 1);
    }
  }

  class WaitQueue {
    var waiting_tcbs: array<Tcb?>
    var num_waiting_tcbs: nat
    ghost var index: map<Tcb, nat>

    /** The threads that wait. */
    ghost function Waiting(): set<Tcb>
      reads this
    {
      index.Keys
    }

    /** The deadlines the threads wait for. */
    ghost function Deadlines(): (d: map<Tcb, nat>)
      reads this, Waiting()`waiting_deadline
      ensures d.Keys == Waiting()
    {
      map t | t in Waiting() :: t.waiting_deadline
    }

    /** `index` says where each waiting thread is in the array. */
    ghost predicate Indexed()
      reads this, waiting_tcbs
    {
      && num_waiting_tcbs < waiting_tcbs.Length
      && (forall k :: 1 <= k <= num_waiting_tcbs ==> waiting_tcbs[k] != null)
      && (forall k {:trigger waiting_tcbs[k]} :: 1 <= k <= num_waiting_tcbs ==>
        waiting_tcbs[k] in index && index[waiting_tcbs[k]] == k)
      && (forall t {:trigger index[t]} {:trigger t in index} :: t in index ==>
        1 <= index[t] <= num_waiting_tcbs && waiting_tcbs[index[t]] == t)
    }

    ghost function Key(k: nat): nat
      requires Indexed() && k <= num_waiting_tcbs
      reads this, waiting_tcbs, Waiting()`waiting_deadline
    {
      if k == 0 then 0 else waiting_tcbs[k].waiting_deadline
    }

    /** The deadlines in the order of the array. */
    ghost function Keys(): (keys: seq<nat>)
      requires Indexed()
      reads this, waiting_tcbs, Waiting()`waiting_deadline
      ensures |keys| == num_waiting_tcbs + 1
      ensures forall k :: 0 <= k <= num_waiting_tcbs ==> keys[k] == Key(k)
    {
      KeysTo(num_waiting_tcbs)
    }

    ghost function KeysTo(n: nat): (keys: seq<nat>)
      requires Indexed() && n <= num_waiting_tcbs
      reads this, waiting_tcbs, Waiting()`waiting_deadline
      ensures |keys| == n + 1
      ensures forall k :: 0 <= k <= n ==> keys[k] == Key(k)
    {
      if n == 0 then [Key(0)] else KeysTo(n - 1) + [Key(n)]
    }

    ghost predicate Valid()
      reads this, waiting_tcbs, Waiting()`waiting_deadline
    {
      Indexed() && HeapOrder(Keys())
    }

    constructor (count: nat)
      requires count > 0
      ensures Valid() && Deadlines() == map[] && num_waiting_tcbs == 0 && fresh(waiting_tcbs)
        && waiting_tcbs.Length == count
    {
      waiting_tcbs := new Tcb?[count](i => null);
      num_waiting_tcbs := 0;
      index := map[];
    }

    method SwapNodes(n1: nat, n2: nat)
      requires Indexed() && 1 <= n1 <= num_waiting_tcbs && 1 <= n2 <= num_waiting_tcbs
      modifies this`index, waiting_tcbs
      ensures Indexed() && Waiting() == old(Waiting())
      ensures Keys() == Swapped(old(Keys()), n1, n2)
    {
      assert num_waiting_tcbs < waiting_tcbs.Length;
      hide Indexed;
      SwapEntries(n1, n2);
    }

    method SwapEntries(n1: nat, n2: nat)
      requires Indexed() && 1 <= n1 <= num_waiting_tcbs < waiting_tcbs.Length && 1 <= n2 <= num_waiting_tcbs
      modifies this`index, waiting_tcbs
      ensures Indexed() && Waiting() == old(Waiting())
      ensures forall k :: 0 <= k < waiting_tcbs.Length ==>
        waiting_tcbs[k] == old(waiting_tcbs[if k == n1 then n2 else if k == n2 then n1 else k])
    {
      var n2_tcb := waiting_tcbs[n2];
      index := index[waiting_tcbs[n1] := n2][n2_tcb := n1];
      waiting_tcbs[n2] := waiting_tcbs[n1];
      waiting_tcbs[n1] := n2_tcb;
    }

    /** The waiting thread with the earliest deadline, or null when none waits. */
    method Peek() returns (ptcb: Tcb?)
      requires Valid()
      ensures ptcb == null <==> Waiting() == {}
      ensures ptcb != null ==>
        ptcb == First() && ptcb.waiting_deadline == Deadlines()[ptcb] && IsEarliest(Deadlines(), ptcb)
    {
      if num_waiting_tcbs > 0 {
        ptcb := waiting_tcbs[1];
        FirstIsEarliest();
      } else {
        ptcb := null;
      }
    }

    /** The thread at the root. */
    ghost function First(): Tcb
      requires Valid() && Waiting() != {}
      reads this, waiting_tcbs, Waiting()`waiting_deadline
    {
      assert num_waiting_tcbs > 0 by {
        var t :| t in Waiting();
        assert index[t] >= 1;
      }
      waiting_tcbs[1]
    }

    lemma FirstIsEarliest()
      requires Valid() && num_waiting_tcbs > 0
      ensures waiting_tcbs[1] in Waiting() && IsEarliest(Deadlines(), waiting_tcbs[1])
    {
      forall t | t in Waiting()
        ensures Key(1) <= t.waiting_deadline
      {
        RootIsMin(Keys(), index[t]);
      }
    }

    /** The thread is added with its deadline. */
    method Add(ptcb: Tcb, absolute_tsc: nat)
      requires Valid() && ptcb !in Waiting() && num_waiting_tcbs + 1 < waiting_tcbs.Length
      modifies this, waiting_tcbs, ptcb`waiting_deadline
      ensures Valid() && waiting_tcbs == old(waiting_tcbs)
      ensures Deadlines() == old(Deadlines())[ptcb := absolute_tsc]
    {
      Append(ptcb, absolute_tsc);
      SiftUp(num_waiting_tcbs);
    }

    /** The new thread is stored as the right most node. */
    method Append(ptcb: Tcb, absolute_tsc: nat)
      requires Valid() && ptcb !in Waiting() && num_waiting_tcbs + 1 < waiting_tcbs.Length
      modifies this, waiting_tcbs, ptcb`waiting_deadline
      ensures Indexed() && num_waiting_tcbs >= 1 && HeapButUp(Keys(), num_waiting_tcbs)
        && waiting_tcbs == old(waiting_tcbs)
      ensures Deadlines() == old(Deadlines())[ptcb := absolute_tsc]
    {
      hide HeapOrder, HeapButUp;
      ghost var keys := Keys();
      num_waiting_tcbs := num_waiting_tcbs + 1;
      var nni := num_waiting_tcbs;
      waiting_tcbs[nni] := ptcb;
      index := index[ptcb := nni];
      ptcb.waiting_deadline := absolute_tsc;
      assert Keys() == keys + [absolute_tsc];
      Appended(keys, absolute_tsc);
    }

    method SiftUp(last: nat)
      requires Indexed() && 1 <= last == num_waiting_tcbs && HeapButUp(Keys(), last)
      modifies this`index, waiting_tcbs
      ensures Valid() && Deadlines() == old(Deadlines())
    {
      hide HeapOrder, HeapButUp;
      var nni := last;
      while nni > 1
        invariant 1 <= nni <= num_waiting_tcbs && Indexed() && Waiting() == old(Waiting())
        invariant HeapButUp(Keys(), nni)
      {
        var parent := nni / 2;
        if waiting_tcbs[nni].waiting_deadline < waiting_tcbs[parent].waiting_deadline {
          MovedUp(Keys(), nni);
          SwapNodes(nni, parent);
        } else {
          break;
        }
        nni := parent;
      }
      UpIsDone(Keys(), nni);
    }

    /** The thread that Peek answers leaves the queue. */
    method Remove()
      requires Valid()
      modifies this, waiting_tcbs
      ensures Valid() && waiting_tcbs == old(waiting_tcbs)
      ensures Deadlines() == if old(Waiting()) == {} then map[] else old(Deadlines()) - {old(First())}
    {
      if num_waiting_tcbs == 0 {
        return;
      }
      assert waiting_tcbs[1] in Waiting();
      LastToRoot();
      SiftDown();
    }

    /** The right most node takes the place of the root. */
    method LastToRoot()
      requires Valid() && num_waiting_tcbs > 0
      modifies this, waiting_tcbs
      ensures Indexed() && HeapButDown(Keys(), 1) && waiting_tcbs == old(waiting_tcbs)
      ensures Deadlines() == old(Deadlines()) - {old(waiting_tcbs[1])}
    {
      hide HeapOrder, HeapButDown;
      ghost var keys, first := Keys(), waiting_tcbs[1];
      var old_num := num_waiting_tcbs;
      num_waiting_tcbs := num_waiting_tcbs - 1;
      waiting_tcbs[1] := waiting_tcbs[old_num];
      index := if old_num == 1 then map[] else (index - {first})[waiting_tcbs[1] := 1];
      assert Keys() == LastFirst(keys);
      LastMovedFirst(keys);
    }

    method SiftDown()
      requires Indexed() && HeapButDown(Keys(), 1)
      modifies this`index, waiting_tcbs
      ensures Valid() && Deadlines() == old(Deadlines())
    {
      hide HeapOrder, HeapButDown;
      var parent := 1;
      while parent < num_waiting_tcbs
        invariant 1 <= parent && Indexed() && Waiting() == old(Waiting())
        invariant HeapButDown(Keys(), parent)
        decreases num_waiting_tcbs - parent
      {
        var left_child := parent * 2;
        var right_child := left_child + 1;
        if left_child > num_waiting_tcbs {
          break;
        }
        var smaller_node := left_child;
        if right_child <= num_waiting_tcbs {
          if waiting_tcbs[left_child].waiting_deadline > waiting_tcbs[right_child].waiting_deadline {
            smaller_node := right_child;
          }
        }
        assert SmallerChild(Keys(), parent, smaller_node);
        if waiting_tcbs[parent].waiting_deadline > waiting_tcbs[smaller_node].waiting_deadline {
          MovedDown(Keys(), parent, smaller_node);
          SwapNodes(parent, smaller_node);
        } else {
          break;
        }
        parent := smaller_node;
      }
      DownIsDone(Keys(), parent);
    }
  }
}
