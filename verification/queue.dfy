/** The queue object of a/to_do/queue.c: a chain of nodes with a head and a tail pointer, and
    its counters, changed in place.  A method is one region of code under the mutex; what it
    does to `view` is the function of QueueSpec for that region.  The threads it wakes are a
    choice of the condition variable, passed in as a ghost. */
module Queue {
  import opened Words
  import opened Dictionary
  import QueueSpec

  type Tid = QueueSpec.Tid

  class Node {
    var data: Ptr
    var ptr: Node?
    var freeData: bool  // queue_flag_free_data

    constructor (data: Ptr, freeData: bool)
      ensures this.data == data && this.freeData == freeData && this.ptr == null
    {
      this.data, this.freeData, this.ptr := data, freeData, null;
    }

    function Value(): QueueSpec.Item
      reads this
    {
      QueueSpec.Item(data, freeData)
    }
  }

  function At(spine: seq<Node>, k: nat): Node? {
    if k < |spine| then spine[k] else null
  }

  ghost predicate Linked(spine: seq<Node>)
    reads spine
  {
    forall k | 0 <= k < |spine| :: spine[k].ptr == At(spine, k + 1)
  }

  /** A chain that ends holds no node twice. */
  lemma {:induction false} NoRepeat(spine: seq<Node>, j: nat, k: nat)
    requires Linked(spine) && j < k < |spine|
    ensures spine[j] != spine[k]
    decreases |spine| - k
  {
    if spine[j] == spine[k] {
      assert At(spine, j + 1) == At(spine, k + 1);
      if k + 1 < |spine| {
        NoRepeat(spine, j + 1, k + 1);
      }
    }
  }

  class Queue {
    var head: Node?
    var tail: Node?
    var num: nat
    var waiting: nat
    var watching: nat
    var open: bool
    var freed: seq<Ptr>  // data passed to free by the shutdown

    ghost var view: QueueSpec.State
    ghost var spine: seq<Node>

    ghost predicate Valid()
      reads this, spine
    {
      && view.num == num && view.waiting == waiting && view.watching == watching
      && view.open == open && view.freed == freed
      && head == At(spine, 0)
      && tail == (if spine == [] then null else spine[|spine| - 1])
      && Linked(spine)
      && |view.items| == |spine|
      && forall k | 0 <= k < |spine| :: spine[k].Value() == view.items[k]
    }

    /** q_init */
    constructor ()
      ensures Valid() && view == QueueSpec.FRESH && spine == []
    {
      head, tail := null, null;
      num, waiting, watching := 0, 0, 0;
      open := true;
      freed := [];
      view, spine := QueueSpec.FRESH, [];
    }

    /** The linking at the tail. */
    method Link(item: Node)
      requires Valid() && item !in spine && item.ptr == null
      modifies this`head, this`tail, this`num, this`view, this`spine, tail
      ensures Valid() && spine == old(spine) + [item]
      ensures view == old(view).(items := old(view).items + [item.Value()], num := QueueSpec.Inc(old(view).num))
    {
      if tail != null {
        ghost var n := |spine| - 1;
        forall k | 0 <= k < n
          ensures spine[k] != spine[n]
        {
          NoRepeat(spine, k, n);
        }
        tail.ptr := item;
        assert forall k | 0 <= k < n :: spine[k].ptr == spine[k + 1];
      } else {
        head := item;
      }
      ghost var linked := spine + [item];
      assert Linked(linked);
      Count(item, linked);
    }

    /** The rest of the region that appends: the tail and the counter. */
    method Count(item: Node, ghost linked: seq<Node>)
      requires linked == spine + [item] && Linked(linked) && head == At(linked, 0)
      requires |view.items| == |spine| && forall k | 0 <= k < |spine| :: spine[k].Value() == view.items[k]
      requires view.num == num && view.waiting == waiting && view.watching == watching
      requires view.open == open && view.freed == freed
      modifies this`tail, this`num, this`view, this`spine
      ensures Valid() && spine == linked
      ensures view == old(view).(items := old(view).items + [item.Value()], num := QueueSpec.Inc(old(view).num))
    {
      tail := item;
      num := (num + 1) % WORD;
      assert forall k | 0 <= k < |linked| - 1 :: linked[k].Value() == view.items[k];
      spine := linked;
      view := view.(items := view.items + [item.Value()], num := num);
    }

    /** q_enque; true stands for queue_status_success, false for queue_status_closed. */
    method Enque(data: Ptr, freeData: bool, ghost wake: set<Tid>) returns (ok: bool)
      requires Valid() && QueueSpec.CanWake(view, wake)
      modifies this, spine
      ensures Valid()
      ensures view == QueueSpec.Enque(old(view), QueueSpec.Item(data, freeData), wake).0
      ensures ok == QueueSpec.Enque(old(view), QueueSpec.Item(data, freeData), wake).1
      ensures !ok ==> view == old(view) && spine == old(spine)
      ensures forall x | x in spine :: x in old(spine) || fresh(x)
    {
      var item := new Node(data, freeData);
      if !open {
        return false;
      }
      Link(item);
      BroadcastWatching();
      SignalWaiting(wake);
      return true;
    }

    /** `if(q->watching) broadcast(watching_cond)` */
    method BroadcastWatching()
      requires Valid()
      modifies this`view
      ensures Valid() && view == QueueSpec.BroadcastWatching(old(view))
    {
      if watching != 0 {
        view := QueueSpec.BroadcastWatching(view);
      }
    }

    /** `if(q->waiting) signal(waiting_cond)` */
    method SignalWaiting(ghost wake: set<Tid>)
      requires Valid()
      modifies this`view
      ensures Valid() && view == QueueSpec.SignalWaiting(old(view), wake)
    {
      if waiting != 0 {
        view := QueueSpec.Wake(view, wake);
      }
    }

    /** q_dequeue from the test of its loop on: either the thread goes to sleep, or it leaves
        with the data of the head, or with NULL. */
    method LoopTest(ghost t: Tid) returns (waits: bool, data: Ptr, ghost outcome: QueueSpec.Outcome)
      requires Valid() && (num != 0 ==> head != null)
      modifies this, head
      ensures Valid()
      ensures view == QueueSpec.Dequeue(old(view), t).0
      ensures outcome == QueueSpec.Dequeue(old(view), t).1
      ensures waits == outcome.Waits?
      ensures data == if outcome.Returns? && outcome.item.Some? then outcome.item.value.data else NULL
      ensures spine == if outcome.Returns? && outcome.item.Some? then old(spine)[1..] else old(spine)
    {
      outcome := QueueSpec.Dequeue(view, t).1;
      if open && num == 0 {
        waiting := (waiting + 1) % WORD;
        view := view.(waiting := waiting, asleep := view.asleep + {t});
        return true, NULL, outcome;
      }
      if num == 0 && !open {
        BroadcastWatching();
        return false, NULL, outcome;
      }
      data := TakeItem();
      return false, data, outcome;
    }

    /** The end of q_dequeue when there is an item. */
    method TakeItem() returns (data: Ptr)
      requires Valid() && head != null
      modifies this, head
      ensures Valid() && spine == old(spine)[1..] && data == old(view).items[0].data
      ensures view == QueueSpec.BroadcastWatching(
        old(view).(items := old(view).items[1..], num := QueueSpec.Dec(old(view).num)))
    {
      var item := head;
      TakeHead();
      BroadcastWatching();
      data := item.data;
      item.data := NULL;
    }

    method TakeHead()
      requires Valid() && head != null
      modifies this`head, this`tail, this`num, this`view, this`spine
      ensures Valid() && spine == old(spine)[1..]
      ensures old(head) !in spine && old(head).data == old(view).items[0].data
      ensures view == old(view).(items := old(view).items[1..], num := QueueSpec.Dec(old(view).num))
    {
      forall k | 0 < k < |spine|
        ensures spine[k] != spine[0]
      {
        NoRepeat(spine, 0, k);
      }
      head := head.ptr;
      if head == null {
        tail := null;
      }
      num := (num - 1) % WORD;
      spine := spine[1..];
      view := view.(items := view.items[1..], num := num);
    }

    /** q_dequeue up to its first wait or its return. */
    method Dequeue(ghost t: Tid) returns (waits: bool, data: Ptr, ghost outcome: QueueSpec.Outcome)
      requires Valid() && (num != 0 ==> head != null)
      modifies this, spine
      ensures Valid()
      ensures view == QueueSpec.Dequeue(old(view), t).0
      ensures outcome == QueueSpec.Dequeue(old(view), t).1
      ensures waits == outcome.Waits?
      ensures data == if outcome.Returns? && outcome.item.Some? then outcome.item.value.data else NULL
    {
      waits, data, outcome := LoopTest(t);
    }

    /** q_dequeue from a wake-up to its next wait or its return. */
    method Resume(ghost t: Tid) returns (waits: bool, data: Ptr, ghost outcome: QueueSpec.Outcome)
      requires Valid() && (num != 0 ==> head != null)
      modifies this, spine
      ensures Valid()
      ensures view == QueueSpec.Dequeue(QueueSpec.Awake(old(view), t), t).0
      ensures outcome == QueueSpec.Dequeue(QueueSpec.Awake(old(view), t), t).1
      ensures waits == outcome.Waits?
      ensures data == if outcome.Returns? && outcome.item.Some? then outcome.item.value.data else NULL
    {
      waiting := (waiting - 1) % WORD;
      view := QueueSpec.Awake(view, t);
      waits, data, outcome := LoopTest(t);
    }

    /** q_deinit up to its first wait or its end. */
    method Deinit() returns (waits: bool)
      requires Valid()
      modifies this, spine
      ensures Valid()
      ensures view == QueueSpec.DeinitStart(old(view))
      ensures waits <==> view.deinit == QueueSpec.Sleeping
    {
      open := false;
      view := view.(open := false);
      if waiting != 0 {
        view := QueueSpec.Wake(view, view.asleep);
      }
      BroadcastWatching();
      waits := DeinitTest();
    }

    /** q_deinit from a wake-up to its next wait or its end. */
    method DeinitResume() returns (waits: bool)
      requires Valid()
      modifies this, spine
      ensures Valid()
      ensures view == QueueSpec.DeinitResume(old(view))
      ensures waits <==> view.deinit == QueueSpec.Sleeping
    {
      watching := (watching - 1) % WORD;
      view := view.(watching := watching);
      waits := DeinitTest();
    }

    method DeinitTest() returns (waits: bool)
      requires Valid()
      modifies this, spine
      ensures Valid()
      ensures view == QueueSpec.DeinitLoop(old(view))
      ensures waits <==> view.deinit == QueueSpec.Sleeping
    {
      if waiting != 0 || watching != 0 {
        watching := (watching + 1) % WORD;
        view := view.(watching := watching, deinit := QueueSpec.Sleeping);
        return true;
      }
      FreeLeftovers();
      return false;
    }

    /** The end of q_deinit: the queue object goes with its nodes. */
    method FreeLeftovers()
      requires Valid()
      modifies this`head, this`tail, this`freed, this`view, this`spine
      ensures Valid()
      ensures view == old(view).(items := [], freed := old(view).freed + QueueSpec.FreedData(old(view).items),
                                 deinit := QueueSpec.Finished)
    {
      FreeNodes(view.items);
      head, tail := null, null;
      spine := [];
      view := view.(items := [], freed := freed, deinit := QueueSpec.Finished);
    }

    /** Its loop over the nodes. */
    method FreeNodes(ghost items: seq<QueueSpec.Item>)
      requires head == At(spine, 0) && Linked(spine) && |items| == |spine|
      requires forall k | 0 <= k < |spine| :: spine[k].Value() == items[k]
      modifies this`freed
      ensures freed == old(freed) + QueueSpec.FreedData(items)
    {
      var ptr := head;
      ghost var k := 0;
      while ptr != null
        invariant k <= |spine| && ptr == At(spine, k)
        invariant freed + QueueSpec.FreedData(items[k..]) == old(freed) + QueueSpec.FreedData(items)
        decreases |spine| - k
      {
        var next := ptr.ptr;
        assert items[k..][1..] == items[k + 1..];
        assert ptr.Value() == items[k];
        if ptr.freeData && ptr.data != NULL {
          freed := freed + [ptr.data];
        }
        ptr := next;
        k := k + 1;
      }
    }

    /** q_close and q_open */
    method SetOpen(value: bool, ghost wake: set<Tid>)
      requires Valid()
      modifies this`open, this`view
      ensures Valid()
      ensures view == QueueSpec.SetOpen(old(view), value, wake)
    {
      open := value;
      view := view.(open := value);
      BroadcastWatching();
      SignalWaiting(wake);
    }
  }
}
