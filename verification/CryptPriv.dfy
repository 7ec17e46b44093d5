/** The driver's own record, updated in place. Each method is what one process does while
    it holds one mutex, or alone with an item nobody else can reach, and is proved to be
    the step of that name in the protocol. */
module CryptPrivState {
  import opened AsyncRing

  /** The part of a todo_list_item that is really there. */
  datatype Cop<K> = Cop(kcop: K, result: int)

  datatype Slot = FreeItem(id: Id) | MayAllocate | RingBusy
  datatype Done = Finished(id: Id) | NothingDone

  ghost function Processes<K>(w: nat, n: nat): (steps: seq<Step<K>>)
    ensures |steps| == n
  {
    seq(n, _ => Process(w))
  }

  lemma ProcessOneMore<K>(s: State<K>, w: nat, n: nat, run: K -> (K, int), unused: K)
    requires AllEnabled(s, Processes(w, n), run, unused)
    requires Enabled(After(s, Processes(w, n), run, unused), Process(w))
    ensures AllEnabled(s, Processes(w, n + 1), run, unused)
    ensures After(s, Processes(w, n + 1), run, unused)
      == Apply(After(s, Processes(w, n), run, unused), Process(w), run, unused)
  {
    var t := After(s, Processes(w, n), run, unused);
    Follow(t, Process(w), [], run, unused);
    AfterJoin(s, Processes(w, n), [Process(w)] + [], run, unused);
    assert Processes<K>(w, n + 1) == Processes(w, n) + ([Process(w)] + []);
  }

  class CryptPriv<K(==)> {
    const run: K -> (K, int)
    const unused: K
    var items: map<Id, Cop<K>>
    var free: seq<Id>
    var todo: seq<Id>
    var done: seq<Id>
    var itemcount: nat
    var pending: bool

    /** The record agrees with the shared part of a protocol state. */
    ghost predicate Shows(s: State<K>)
      reads this
    {
      && items.Keys == s.items.Keys
      && (forall id :: id in items ==> items[id] == Cop(s.items[id].kcop, s.items[id].result))
      && free == s.free && todo == s.todo && done == s.done
      && itemcount == s.itemcount && pending == s.pending
    }

    /** cryptodev_open: the loop puts each new item in front of the free list. */
    constructor (run: K -> (K, int), unused: K)
      ensures this.run == run && this.unused == unused
      ensures Shows(Open(unused))
    {
      this.run, this.unused := run, unused;
      items, free, todo, done, itemcount, pending := map[], [], [], [], 0, false;
      new;
      for i := 0 to DEF_COP_RINGSIZE
        invariant itemcount == i && !pending && todo == done == []
        invariant |free| == i && forall j :: 0 <= j < i ==> free[j] == i - 1 - j
        invariant forall id :: id in items <==> id in free
        invariant forall id :: id in items ==> items[id] == Cop(unused, 0)
      {
        items := items[i := Cop(unused, 0)];
        itemcount := itemcount + 1;
        free := [i] + free;
      }
      assert free == FirstIds();
    }

    /** crypto_async_run under free.lock */
    method TakeSlot(ghost s: State<K>, ghost c: nat, ghost job: K) returns (slot: Slot)
      requires Shows(s) && Enabled(s, Step.TakeSlot(c, job))
      modifies this
      ensures var s' := Apply(s, Step.TakeSlot(c, job), run, unused);
        && Shows(s')
        && s'.Caller(c) == (match slot
                            case FreeItem(id) => Holding(job, id)
                            case MayAllocate => Reserved(job)
                            case RingBusy => Idle)
      ensures slot.RingBusy? <==> old(free) == [] && old(itemcount) >= 64
    {
      if free != [] {
        slot := FreeItem(free[0]);
        free := free[1..];
      } else if itemcount < MAX_COP_RINGSIZE {
        itemcount := itemcount + 1;
        slot := MayAllocate;
      } else {
        slot := RingBusy;
      }
    }

    /** crypto_async_run without a lock: a fresh item behind a raised itemcount. */
    method AllocItem(ghost s: State<K>, ghost c: nat, id: Id)
      requires Shows(s) && Enabled(s, Step.AllocItem(c, id))
      modifies this
      ensures Shows(Apply(s, Step.AllocItem(c, id), run, unused))
    {
      items := items[id := Cop(unused, 0)];
    }

    /** crypto_async_run: the item is filled in and queued under todo.lock. */
    method Enqueue(ghost s: State<K>, ghost c: nat, job: K, id: Id)
      requires Shows(s) && s.Caller(c) == Holding(job, id) && id in items
      modifies this
      ensures Shows(Apply(s, Step.Enqueue(c), run, unused))
    {
      items := items[id := items[id].(kcop := job)];
      todo := todo + [id];
    }

    /** queue_work; asking for work that is already pending changes nothing. */
    method QueueWork(ghost s: State<K>, ghost c: nat)
      requires Shows(s) && Enabled(s, Kick(c))
      modifies this
      ensures Shows(Apply(s, Kick(c), run, unused))
    {
      pending := true;
    }

    /** cryptask_routine under todo.lock */
    method CutTodo(ghost s: State<K>, ghost w: nat) returns (tmp: seq<Id>)
      requires Shows(s) && Enabled(s, Cut(w))
      modifies this
      ensures Shows(Apply(s, Cut(w), run, unused))
      ensures Apply(s, Cut(w), run, unused).Worker(w) == Busy(tmp, 0)
    {
      tmp := todo;
      todo := [];
    }

    /** crypto_run on one item of the private list */
    method RunOne(ghost s: State<K>, ghost w: nat, ghost tmp: seq<Id>, ghost j: nat, id: Id)
      requires Shows(s) && j < |tmp| && s.Worker(w) == Busy(tmp, j) && tmp[j] == id && id in items
      modifies this
      ensures Enabled(s, Process(w))
      ensures Shows(Apply(s, Process(w), run, unused))
      ensures Apply(s, Process(w), run, unused).Worker(w) == Busy(tmp, j + 1)
      ensures items.Keys == old(items).Keys
    {
      var (kcop, result) := run(items[id].kcop);
      items := items[id := Cop(kcop, result)];
    }

    /** cryptask_routine on its private list, without any lock */
    method RunAll(ghost s: State<K>, ghost w: nat, tmp: seq<Id>) returns (ghost s': State<K>)
      requires Shows(s) && s.Worker(w) == Busy(tmp, 0) && forall id :: id in tmp ==> id in items
      modifies this
      ensures AllEnabled(s, Processes(w, |tmp|), run, unused)
      ensures s' == After(s, Processes(w, |tmp|), run, unused)
      ensures Shows(s') && s'.Worker(w) == Busy(tmp, |tmp|)
    {
      s' := s;
      assert AllEnabled(s, Processes(w, 0), run, unused) && After(s, Processes(w, 0), run, unused) == s;
      hide AllEnabled, After, Processes, Apply, Enabled;
      for j := 0 to |tmp|
        invariant AllEnabled(s, Processes(w, j), run, unused) && s' == After(s, Processes(w, j), run, unused)
        invariant s'.Worker(w) == Busy(tmp, j)
        invariant items.Keys == old(items).Keys && Shows(s')
      {
        RunOne(s', w, tmp, j, tmp[j]);
        ProcessOneMore(s, w, j, run, unused);
        s' := Apply(s', Process(w), run, unused);
      }
    }

    /** cryptask_routine under done.lock */
    method SpliceDone(ghost s: State<K>, ghost w: nat, tmp: seq<Id>)
      requires Shows(s) && Enabled(s, Splice(w)) && s.Worker(w).tmp == tmp
      modifies this
      ensures Shows(Apply(s, Splice(w), run, unused))
    {
      done := done + tmp;
    }

    /** crypto_async_fetch under done.lock */
    method TakeDone(ghost s: State<K>, ghost c: nat) returns (r: Done)
      requires Shows(s) && Enabled(s, Step.TakeDone(c))
      modifies this
      ensures var s' := Apply(s, Step.TakeDone(c), run, unused);
        && Shows(s')
        && s'.Caller(c) == (match r case Finished(id) => Fetched(id) case NothingDone => Idle)
    {
      if done == [] {
        r := NothingDone;
      } else {
        r := Finished(done[0]);
        done := done[1..];
      }
    }

    /** crypto_async_fetch: the outcome is copied out and the item freed under free.lock. */
    method GiveBack(ghost s: State<K>, ghost c: nat, id: Id) returns (kcop: K, result: int)
      requires Shows(s) && s.Caller(c) == Fetched(id) && id in items
      modifies this
      ensures var s' := Apply(s, Step.GiveBack(c), run, unused);
        && Shows(s')
        && s'.delivered == s.delivered + [Delivery(s.items[id].ticket, kcop, result)]
    {
      kcop, result := items[id].kcop, items[id].result;
      free := free + [id];
    }

    /** cryptodev_release, once the work is cancelled: counts the items it frees. */
    method Release() returns (freed: nat)
      modifies this
      ensures freed == |old(free)| + |old(todo)| + |old(done)|
      ensures free == todo == done == []
    {
      free := free + todo;
      free := free + done;
      todo, done := [], [];
      freed := 0;
      while free != []
        invariant todo == done == []
        invariant freed + |free| == |old(free)| + |old(todo)| + |old(done)|
        decreases |free|
      {
        free := free[1..];
        freed := freed + 1;
      }
    }
  }
}
