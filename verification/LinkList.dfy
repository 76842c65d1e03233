/** AcMpscLinkList as its calls see it: init, add and rmv on nodes and messages in the
    heap, while other producers may be stopped between their exchange and their store. */
module LinkList {

  class AcNextPtr {
    var next: AcNextPtr?
    var msg: AcMsg?
    constructor ()
      ensures next == null && msg == null
    {
      next, msg := null, null;
    }
  }

  class AcMsg {
    var next_ptr: AcNextPtr
    constructor (node: AcNextPtr)
      ensures next_ptr == node
    {
      next_ptr := node;
    }
  }

  /** A producer that has exchanged head for `node`, got `prev`, and not stored yet. */
  datatype Stalled = Stalled(prev: AcNextPtr, node: AcNextPtr)

  class AcMpscLinkList {
    var head: AcNextPtr
    var tail: AcNextPtr
    var stalled: seq<Stalled>
    ghost var chain: seq<AcNextPtr>
    ghost var queue: seq<AcMsg>

    /** From node `i` to the next: linked, or left to a stalled producer. */
    ghost predicate Linked(i: nat)
      requires i + 1 < |chain|
      reads this, chain
    {
      chain[i].next == chain[i + 1] || (chain[i].next == null && Stalled(chain[i], chain[i + 1]) in stalled)
    }

    ghost predicate Pending(k: nat)
      requires k < |stalled|
      reads this, chain
    {
      exists i :: 0 <= i < |chain| - 1 && Stalled(chain[i], chain[i + 1]) == stalled[k] && chain[i].next == null
    }

    ghost predicate Valid()
      reads this, chain
    {
      && |chain| == |queue| + 1 && chain[0] == tail && chain[|queue|] == head
      && head.next == null
      && (forall i, j :: 0 <= i < j < |chain| ==> chain[i] != chain[j])
      && (forall i :: 0 <= i < |queue| ==> chain[i + 1].msg == queue[i])
      && (forall i :: 0 <= i < |chain| - 1 ==> Linked(i))
      && (forall k :: 0 <= k < |stalled| ==> Pending(k))
      && (forall j, k :: 0 <= j < k < |stalled| ==> stalled[j] != stalled[k])
    }

    constructor Init()
      ensures Valid() && queue == [] && fresh(chain[0]) && stalled == []
    {
      var stub := new AcNextPtr();
      head, tail := stub, stub;
      stalled, chain, queue := [], [stub], [];
    }

    /** The message is at the end of the queue from the exchange on, whether or not the
        caller is stopped before its store. */
    method Add(msg: AcMsg, stops: bool)
      requires Valid() && msg.next_ptr !in chain
      modifies this, msg.next_ptr, head
      ensures Valid()
      ensures queue == old(queue) + [msg] && chain == old(chain) + [msg.next_ptr]
      ensures stalled == old(stalled) + if stops then [Stalled(old(head), msg.next_ptr)] else []
    {
      var next_ptr := msg.next_ptr;
      forall k | 0 <= k < |stalled|
        ensures stalled[k].node in chain
      {
        assert Pending(k);
      }
      next_ptr.next := null;
      next_ptr.msg := msg;
      var prev := head;
      head := next_ptr;
      chain, queue := chain + [next_ptr], queue + [msg];
      if stops {
        stalled := stalled + [Stalled(prev, next_ptr)];
      } else {
        prev.next := next_ptr;
      }
      forall i | 0 <= i < |chain| - 1
        ensures Linked(i)
      {
        assert i < |chain| - 2 ==> old(Linked(i));
      }
      forall k | 0 <= k < |stalled|
        ensures Pending(k)
      {
        if k < |old(stalled)| {
          assert old(Pending(k));
          var i :| 0 <= i < |old(chain)| - 1 && Stalled(chain[i], chain[i + 1]) == old(stalled)[k]
            && old(chain[i].next) == null;
          assert chain[i].next == null;
        } else {
          var i := |chain| - 2;
          assert Stalled(chain[i], chain[i + 1]) == stalled[k] && chain[i].next == null;
        }
      }
    }

    /** ac_thread_yield: any one of the stopped producers stores its link. */
    method Yield()
      requires Valid() && stalled != []
      modifies this`stalled, chain
      ensures Valid() && exists k :: 0 <= k < |old(stalled)| && stalled == Without(old(stalled), k)
      ensures forall n :: n in chain ==> n.msg == old(n.msg)
    {
      var k :| 0 <= k < |stalled|;
      var one := stalled[k];
      assert Pending(k);
      one.prev.next := one.node;
      stalled := Without(stalled, k);
      forall i | 0 <= i < |chain| - 1
        ensures Linked(i)
      {
        assert old(Linked(i));
      }
      forall j | 0 <= j < |stalled|
        ensures Pending(j)
      {
        var was := if j < k then j else j + 1;
        assert old(Pending(was));
        var i :| 0 <= i < |chain| - 1 && Stalled(chain[i], chain[i + 1]) == old(stalled)[was]
          && old(chain[i].next) == null;
        assert chain[i].next == null;
      }
    }

    /** The oldest message, or null exactly when there is none.  The message leaves with
        the node that was the tail; its own node stays as the new tail. */
    method Rmv() returns (msg: AcMsg?)
      requires Valid()
      modifies this, chain, queue[..if queue == [] then 0 else 1]
      ensures Valid()
      ensures msg == null <==> old(queue) == []
      ensures msg == null ==> queue == [] && chain == old(chain)
      ensures msg != null ==> old(queue) == [msg] + queue && chain == old(chain)[1..]
      ensures msg != null ==> msg.next_ptr == old(tail) && msg.next_ptr !in chain
      ensures head == old(head)
    {
      var tail0 := tail;
      var next := tail0.next;
      if next == null && tail0 == head {
        msg := null;
      } else {
        while next == null
          invariant Valid() && queue == old(queue) != [] && chain == old(chain)
          invariant tail0 == tail == old(tail) && head == old(head) && next == tail.next
          decreases |stalled|
        {
          assert Linked(0);
          Yield();
          next := tail0.next;
        }
        assert Linked(0);
        assert next == chain[1] && chain[1].msg == queue[0];
        msg := next.msg;
        msg.next_ptr := tail0;
        Advance(next);
      }
    }

    /** The store of tail. */
    method Advance(next: AcNextPtr)
      requires Valid() && queue != [] && next == chain[1] == tail.next
      modifies this`tail, this`chain, this`queue
      ensures Valid() && tail == next && chain == old(chain)[1..] && queue == old(queue)[1..]
    {
      assert forall k :: 0 <= k < |stalled| ==> Pending(k);
      tail := next;
      chain, queue := chain[1..], queue[1..];
      forall i | 0 <= i < |chain| - 1
        ensures Linked(i)
      {
        assert old(Linked(i + 1));
      }
      forall k | 0 <= k < |stalled|
        ensures Pending(k)
      {
        assert old(Pending(k));
        var i :| 0 <= i < |old(chain)| - 1 && Stalled(old(chain)[i], old(chain)[i + 1]) == stalled[k]
          && old(chain)[i].next == null;
        assert i > 0;
        assert Stalled(chain[i - 1], chain[i]) == stalled[k] && chain[i - 1].next == null;
      }
    }
  }

  /** The elements but the one at `k`. */
  function Without<T>(s: seq<T>, k: nat): (r: seq<T>)
    requires k < |s|
    ensures |r| == |s| - 1
    ensures forall j :: 0 <= j < |r| ==> r[j] == s[if j < k then j else j + 1]
  {
    s[..k] + s[k + 1..]
  }
}
