/** The asynchronous job ring of the cryptodev driver as a protocol: any number of callers
    and workers, interleaved at the granularity of the driver's mutexes. */
module AsyncRing {

  const DEF_COP_RINGSIZE: nat := 16
  const MAX_COP_RINGSIZE: nat := 64

  type Id = nat

  /** One todo_list_item. `ticket` remembers which accepted job it carries, `ran` whether
      crypto_run has been applied to it. */
  datatype Item<K> = Item(kcop: K, result: int, ticket: nat, ran: bool)

  /** cryptask_routine: asleep, past the start of the work function, or busy with the list
      it cut off, of which the first `finished` jobs are done. */
  datatype Worker = Asleep | Starting | Busy(tmp: seq<Id>, finished: nat)

  /** A process inside crypto_async_run or crypto_async_fetch. */
  datatype Caller<K> =
    | Idle
    | Reserved(job: K)           // itemcount was raised, the item is not allocated yet
    | Holding(job: K, id: Id)    // has an item, not queued yet
    | Kicking                    // queued, about to call queue_work
    | Fetched(id: Id)            // took a finished item, has not given it back yet

  datatype Delivery<K> = Delivery(ticket: nat, kcop: K, result: int)

  /** `failed`, `accepted`, `taken` and `delivered` only record what happened. */
  datatype State<K> = State(
    items: map<Id, Item<K>>,
    free: seq<Id>, todo: seq<Id>, done: seq<Id>,
    itemcount: nat,
    pending: bool,
    workers: map<nat, Worker>,
    callers: map<nat, Caller<K>>,
    failed: nat,
    accepted: seq<K>,
    taken: seq<nat>,
    delivered: seq<Delivery<K>>)
  {
    function Worker(w: nat): Worker {
      if w in workers then workers[w] else Asleep
    }

    function Caller(c: nat): Caller<K> {
      if c in callers then callers[c] else Idle
    }

    function Tmp(w: nat): seq<Id> {
      if Worker(w).Busy? then Worker(w).tmp else []
    }
  }

  // ---------------------------------------------------------------------------
  // Steps
  // ---------------------------------------------------------------------------

  datatype Step<K> =
    | TakeSlot(c: nat, job: K) | AllocItem(c: nat, id: Id) | AllocFails(c: nat) | Enqueue(c: nat) | Kick(c: nat)
    | Wake(w: nat) | Cut(w: nat) | Process(w: nat) | Splice(w: nat)
    | TakeDone(c: nat) | GiveBack(c: nat)

  predicate Enabled<K>(s: State<K>, step: Step<K>) {
    match step
    case TakeSlot(c, _) => s.Caller(c).Idle?
    case AllocItem(c, id) => s.Caller(c).Reserved? && id !in s.items
    case AllocFails(c) => s.Caller(c).Reserved?
    case Enqueue(c) => s.Caller(c).Holding?
    case Kick(c) => s.Caller(c).Kicking?
    case Wake(w) => s.pending && s.Worker(w).Asleep?
    case Cut(w) => s.Worker(w).Starting?
    case Process(w) => s.Worker(w).Busy? && s.Worker(w).finished < |s.Worker(w).tmp|
    case Splice(w) => s.Worker(w).Busy? && s.Worker(w).finished == |s.Worker(w).tmp|
    case TakeDone(c) => s.Caller(c).Idle?
    case GiveBack(c) => s.Caller(c).Fetched?
  }

  /** An identifier without an item behind it reads as an unused one; the invariant shows
      that no step meets this case. */
  function ItemAt<K>(s: State<K>, id: Id, unused: K): Item<K> {
    if id in s.items then s.items[id] else Item(unused, 0, 0, false)
  }

  /** One critical section, or one private action between two of them. A refused call
      (-EBUSY) changes nothing. */
  function Apply<K>(s: State<K>, step: Step<K>, run: K -> (K, int), unused: K): State<K>
    requires Enabled(s, step)
  {
    match step
    case TakeSlot(c, job) =>
      if s.free != [] then
        s.(free := s.free[1..], callers := s.callers[c := Holding(job, s.free[0])])
      else if s.itemcount < MAX_COP_RINGSIZE then
        s.(itemcount := s.itemcount + 1, callers := s.callers[c := Reserved(job)])
      else s
    case AllocItem(c, id) =>
      s.(items := s.items[id := Item(unused, 0, 0, false)],
         callers := s.callers[c := Holding(s.Caller(c).job, id)])
    case AllocFails(c) =>
      s.(callers := s.callers[c := Idle], failed := s.failed + 1)
    case Enqueue(c) =>
      var id := s.Caller(c).id;
      s.(items := s.items[id := ItemAt(s, id, unused).(kcop := s.Caller(c).job, ticket := |s.accepted|, ran := false)],
         todo := s.todo + [id],
         callers := s.callers[c := Kicking],
         accepted := s.accepted + [s.Caller(c).job])
    case Kick(c) =>
      s.(pending := true, callers := s.callers[c := Idle])
    case Wake(w) =>
      s.(pending := false, workers := s.workers[w := Starting])
    case Cut(w) =>
      s.(todo := [], workers := s.workers[w := Busy(s.todo, 0)])
    case Process(w) =>
      var worker := s.Worker(w);
      var item := ItemAt(s, worker.tmp[worker.finished], unused);
      var (kcop, result) := run(item.kcop);
      s.(items := s.items[worker.tmp[worker.finished] := item.(kcop := kcop, result := result, ran := true)],
         workers := s.workers[w := worker.(finished := worker.finished + 1)])
    case Splice(w) =>
      s.(done := s.done + s.Worker(w).tmp, workers := s.workers[w := Asleep])
    case TakeDone(c) =>
      if s.done == [] then s
      else
        s.(done := s.done[1..],
           taken := s.taken + [ItemAt(s, s.done[0], unused).ticket],
           callers := s.callers[c := Fetched(s.done[0])])
    case GiveBack(c) =>
      var id := s.Caller(c).id;
      var item := ItemAt(s, id, unused);
      s.(free := s.free + [id],
         delivered := s.delivered + [Delivery(item.ticket, item.kcop, item.result)],
         callers := s.callers[c := Idle])
  }

  /** A call is refused, which changes nothing, exactly when no item is free and there are 64. */
  lemma RefusedIff<K>(s: State<K>, c: nat, job: K, run: K -> (K, int), unused: K)
    requires Enabled(s, TakeSlot(c, job)) && s.itemcount <= 64
    ensures Apply(s, TakeSlot(c, job), run, unused) == s <==> s.free == [] && s.itemcount == 64
    ensures s.free != [] ==> Apply(s, TakeSlot(c, job), run, unused).Caller(c) == Holding(job, s.free[0])
    ensures s.free == [] && s.itemcount < 64 ==> Apply(s, TakeSlot(c, job), run, unused).Caller(c) == Reserved(job)
  {
    var s' := Apply(s, TakeSlot(c, job), run, unused);
    assert s.Caller(c) == Idle;
    if s.free != [] {
      assert s'.Caller(c) == Holding(job, s.free[0]);
    } else if s.itemcount < MAX_COP_RINGSIZE {
      assert s'.Caller(c) == Reserved(job);
    }
  }

  function FirstIds(): seq<Id> {
    seq(DEF_COP_RINGSIZE, i requires 0 <= i < DEF_COP_RINGSIZE => DEF_COP_RINGSIZE - 1 - i)
  }

  /** cryptodev_open: sixteen items on the free list, the last one allocated in front. */
  function Open<K>(unused: K): State<K> {
    State(
      map id | id in FirstIds() :: Item(unused, 0, 0, false),
      FirstIds(), [], [],
      DEF_COP_RINGSIZE, false, map[], map[], 0, [], [], [])
  }

  /** An opened device has sixteen items, all of them free. */
  lemma OpenHasSixteen<K>(unused: K)
    ensures |Open(unused).free| == Open(unused).itemcount == 16 && Open(unused).todo == Open(unused).done == []
    ensures forall id :: id in Open(unused).items <==> id in Open(unused).free
  {
  }

  predicate AllEnabled<K>(s: State<K>, steps: seq<Step<K>>, run: K -> (K, int), unused: K)
    decreases |steps|
  {
    steps == [] || (Enabled(s, steps[0]) && AllEnabled(Apply(s, steps[0], run, unused), steps[1..], run, unused))
  }

  function After<K>(s: State<K>, steps: seq<Step<K>>, run: K -> (K, int), unused: K): State<K>
    requires AllEnabled(s, steps, run, unused)
    decreases |steps|
  {
    if steps == [] then s else After(Apply(s, steps[0], run, unused), steps[1..], run, unused)
  }

  // ---------------------------------------------------------------------------
  // Where an item is
  // ---------------------------------------------------------------------------

  datatype Place = InFree | InTodo | InDone | WithWorker(w: nat) | Submitting(c: nat) | Fetching(c: nat)

  predicate Occupies<K>(s: State<K>, id: Id, p: Place) {
    match p
    case InFree => id in s.free
    case InTodo => id in s.todo
    case InDone => id in s.done
    case WithWorker(w) => id in s.Tmp(w)
    case Submitting(c) => s.Caller(c).Holding? && s.Caller(c).id == id
    case Fetching(c) => s.Caller(c).Fetched? && s.Caller(c).id == id
  }

  predicate NoRepeats(ids: seq<Id>) {
    forall i, j :: 0 <= i < j < |ids| ==> ids[i] != ids[j]
  }

  ghost predicate ListsAreSets<K>(s: State<K>) {
    NoRepeats(s.free) && NoRepeats(s.todo) && NoRepeats(s.done)
  }

  /** `at` names, for every item and nothing else, the one place it is in. */
  ghost predicate Placed<K>(s: State<K>, at: map<Id, Place>) {
    && at.Keys == s.items.Keys
    && forall id: Id, p: Place :: Occupies(s, id, p) <==> (id in at && at[id] == p)
  }

  // ---------------------------------------------------------------------------
  // What became of a job
  // ---------------------------------------------------------------------------

  datatype Fate = CarriedBy(id: Id) | DeliveredAs(i: nat)

  predicate CarriesJob(p: Place) {
    p.InTodo? || p.InDone? || p.WithWorker? || p.Fetching?
  }

  /** Every accepted job is carried by one item that knows its ticket, or was delivered
      once; nothing else is carried or delivered. */
  ghost predicate Accounted<K>(s: State<K>, at: map<Id, Place>, fates: seq<Fate>)
    requires at.Keys == s.items.Keys
  {
    && |fates| == |s.accepted|
    && (forall k: nat :: k < |fates| ==>
          match fates[k]
          case CarriedBy(id) => id in s.items && CarriesJob(at[id]) && s.items[id].ticket == k
          case DeliveredAs(i) => i < |s.delivered| && s.delivered[i].ticket == k)
    && (forall id :: id in s.items && CarriesJob(at[id]) ==>
          s.items[id].ticket < |fates| && fates[s.items[id].ticket] == CarriedBy(id))
    && (forall i: nat :: i < |s.delivered| ==>
          s.delivered[i].ticket < |fates| && fates[s.delivered[i].ticket] == DeliveredAs(i))
  }

  ghost predicate Processed<K>(s: State<K>, ticket: nat, kcop: K, result: int, run: K -> (K, int)) {
    ticket < |s.accepted| && (kcop, result) == run(s.accepted[ticket])
  }

  /** An item holds the job as it was accepted until a worker has run it, and exactly the
      outcome of that job afterwards; so does everything that was delivered. */
  ghost predicate Faithful<K>(s: State<K>, at: map<Id, Place>, run: K -> (K, int))
    requires at.Keys == s.items.Keys
  {
    && (forall id :: id in s.items && CarriesJob(at[id]) ==> FaithfulItem(s, s.items[id], run))
    && (forall i: nat :: i < |s.delivered| ==>
          Processed(s, s.delivered[i].ticket, s.delivered[i].kcop, s.delivered[i].result, run))
  }

  ghost predicate FaithfulItem<K>(s: State<K>, item: Item<K>, run: K -> (K, int)) {
    if item.ran then Processed(s, item.ticket, item.kcop, item.result, run)
    else item.ticket < |s.accepted| && item.kcop == s.accepted[item.ticket]
  }

  /** Jobs run on the worker's private list, in order, and nowhere else. */
  ghost predicate RunByWorkers<K>(s: State<K>, at: map<Id, Place>)
    requires at.Keys == s.items.Keys
  {
    && (forall id :: id in at && at[id].InTodo? ==> !s.items[id].ran)
    && (forall id :: id in at && (at[id].InDone? || at[id].Fetching?) ==> s.items[id].ran)
    && (forall w, j: nat :: w in s.workers && s.workers[w].Busy? && j < |s.workers[w].tmp| ==>
          && s.workers[w].tmp[j] in s.items
          && s.items[s.workers[w].tmp[j]].ran == (j < s.workers[w].finished))
  }

  function ReservedCallers<K>(s: State<K>): set<nat> {
    set c | c in s.callers && s.callers[c].Reserved?
  }

  /** itemcount counts the items, the ones being allocated and the failed allocations. */
  ghost predicate Counted<K>(s: State<K>) {
    s.itemcount == |s.items| + |ReservedCallers(s)| + s.failed <= MAX_COP_RINGSIZE
  }

  /** No job waits on the todo list without a worker on its way to it. */
  ghost predicate NoLostWakeup<K(!new)>(s: State<K>) {
    s.todo == [] || s.pending || (exists w: nat :: s.Worker(w).Starting?) || (exists c: nat :: s.Caller(c).Kicking?)
  }

  ghost predicate WorkersSane<K>(s: State<K>) {
    forall w :: w in s.workers && s.workers[w].Busy? ==>
      NoRepeats(s.workers[w].tmp) && s.workers[w].finished <= |s.workers[w].tmp|
  }

  // ---------------------------------------------------------------------------
  // Every step keeps the books straight
  // ---------------------------------------------------------------------------

  function Moved(at: map<Id, Place>, from: Place, to: Place): map<Id, Place> {
    map id | id in at :: if at[id] == from then to else at[id]
  }

  /** Where the items are after a step. */
  function NextPlaces<K>(s: State<K>, step: Step<K>, at: map<Id, Place>): map<Id, Place>
    requires Enabled(s, step)
  {
    match step
    case TakeSlot(c, _) => if s.free != [] then at[s.free[0] := Submitting(c)] else at
    case AllocItem(c, id) => at[id := Submitting(c)]
    case Enqueue(c) => at[s.Caller(c).id := InTodo]
    case Cut(w) => Moved(at, InTodo, WithWorker(w))
    case Splice(w) => Moved(at, WithWorker(w), InDone)
    case TakeDone(c) => if s.done != [] then at[s.done[0] := Fetching(c)] else at
    case GiveBack(c) => at[s.Caller(c).id := InFree]
    case _ => at
  }

  lemma HeadLeaves(ids: seq<Id>)
    requires ids != [] && NoRepeats(ids)
    ensures NoRepeats(ids[1..]) && ids[0] !in ids[1..]
    ensures forall id :: id in ids <==> id == ids[0] || id in ids[1..]
  {
  }

  lemma TailJoins(ids: seq<Id>, id: Id)
    requires NoRepeats(ids) && id !in ids
    ensures NoRepeats(ids + [id])
    ensures forall x :: x in ids + [id] <==> x == id || x in ids
  {
  }

  lemma ListsJoin(a: seq<Id>, b: seq<Id>)
    requires NoRepeats(a) && NoRepeats(b) && forall id :: id in a ==> id !in b
    ensures NoRepeats(a + b)
    ensures forall id :: id in a + b <==> id in a || id in b
  {
    forall i, j | 0 <= i < j < |a + b| ensures (a + b)[i] != (a + b)[j] {
      if i < |a| <= j {
        assert (a + b)[i] in a && (a + b)[j] in b;
      }
    }
  }

  ghost predicate Tidy<K>(s: State<K>, at: map<Id, Place>) {
    Placed(s, at) && ListsAreSets(s) && WorkersSane(s)
  }

  lemma TidyTakeSlot<K>(s: State<K>, c: nat, job: K, run: K -> (K, int), unused: K, at: map<Id, Place>)
    requires Tidy(s, at) && Enabled(s, TakeSlot(c, job))
    ensures Tidy(Apply(s, TakeSlot(c, job), run, unused), NextPlaces(s, TakeSlot(c, job), at))
  {
    var s', at' := Apply(s, TakeSlot(c, job), run, unused), NextPlaces(s, TakeSlot(c, job), at);
    hide NoRepeats;
    if s.free != [] {
      HeadLeaves(s.free);
      assert Occupies(s, s.free[0], InFree);
    }
    forall id: Id, p: Place ensures Occupies(s', id, p) <==> (id in at' && at'[id] == p) {
      assert Occupies(s, id, p) <==> (id in at && at[id] == p);
    }
  }

  lemma TidyAllocItem<K>(s: State<K>, c: nat, id: Id, run: K -> (K, int), unused: K, at: map<Id, Place>)
    requires Tidy(s, at) && Enabled(s, AllocItem(c, id))
    ensures Tidy(Apply(s, AllocItem(c, id), run, unused), NextPlaces(s, AllocItem(c, id), at))
  {
    var s', at' := Apply(s, AllocItem(c, id), run, unused), NextPlaces(s, AllocItem(c, id), at);
    hide NoRepeats;
    forall x: Id, p: Place ensures Occupies(s', x, p) <==> (x in at' && at'[x] == p) {
      assert Occupies(s, x, p) <==> (x in at && at[x] == p);
    }
  }

  lemma TidyEnqueue<K>(s: State<K>, c: nat, run: K -> (K, int), unused: K, at: map<Id, Place>)
    requires Tidy(s, at) && Enabled(s, Enqueue(c))
    ensures Tidy(Apply(s, Enqueue(c), run, unused), NextPlaces(s, Enqueue(c), at))
  {
    var s', at' := Apply(s, Enqueue(c), run, unused), NextPlaces(s, Enqueue(c), at);
    hide NoRepeats;
    assert Occupies(s, s.Caller(c).id, Submitting(c));
    assert !Occupies(s, s.Caller(c).id, InTodo);
    TailJoins(s.todo, s.Caller(c).id);
    forall id: Id, p: Place ensures Occupies(s', id, p) <==> (id in at' && at'[id] == p) {
      assert Occupies(s, id, p) <==> (id in at && at[id] == p);
    }
  }

  lemma TidyCut<K>(s: State<K>, w: nat, run: K -> (K, int), unused: K, at: map<Id, Place>)
    requires Tidy(s, at) && Enabled(s, Cut(w))
    ensures Tidy(Apply(s, Cut(w), run, unused), NextPlaces(s, Cut(w), at))
  {
    var s', at' := Apply(s, Cut(w), run, unused), NextPlaces(s, Cut(w), at);
    hide NoRepeats;
    EmptyHasNone();
    forall id: Id, p: Place ensures Occupies(s', id, p) <==> (id in at' && at'[id] == p) {
      assert Occupies(s, id, p) <==> (id in at && at[id] == p);
      assert Occupies(s, id, InTodo) <==> (id in at && at[id] == InTodo);
      assert Occupies(s, id, WithWorker(w)) <==> (id in at && at[id] == WithWorker(w));
    }
  }

  lemma TidySplice<K>(s: State<K>, w: nat, run: K -> (K, int), unused: K, at: map<Id, Place>)
    requires Tidy(s, at) && Enabled(s, Splice(w))
    ensures Tidy(Apply(s, Splice(w), run, unused), NextPlaces(s, Splice(w), at))
  {
    var s', at' := Apply(s, Splice(w), run, unused), NextPlaces(s, Splice(w), at);
    hide NoRepeats;
    forall id | id in s.done ensures id !in s.Tmp(w) {
      assert Occupies(s, id, InDone) && !Occupies(s, id, WithWorker(w));
    }
    ListsJoin(s.done, s.Tmp(w));
    forall id: Id, p: Place ensures Occupies(s', id, p) <==> (id in at' && at'[id] == p) {
      assert Occupies(s, id, p) <==> (id in at && at[id] == p);
      assert Occupies(s, id, InDone) <==> (id in at && at[id] == InDone);
      assert Occupies(s, id, WithWorker(w)) <==> (id in at && at[id] == WithWorker(w));
    }
  }

  lemma TidyTakeDone<K>(s: State<K>, c: nat, run: K -> (K, int), unused: K, at: map<Id, Place>)
    requires Tidy(s, at) && Enabled(s, TakeDone(c))
    ensures Tidy(Apply(s, TakeDone(c), run, unused), NextPlaces(s, TakeDone(c), at))
  {
    var s', at' := Apply(s, TakeDone(c), run, unused), NextPlaces(s, TakeDone(c), at);
    hide NoRepeats;
    if s.done != [] {
      HeadLeaves(s.done);
      assert Occupies(s, s.done[0], InDone);
    }
    forall id: Id, p: Place ensures Occupies(s', id, p) <==> (id in at' && at'[id] == p) {
      assert Occupies(s, id, p) <==> (id in at && at[id] == p);
    }
  }

  lemma TidyGiveBack<K>(s: State<K>, c: nat, run: K -> (K, int), unused: K, at: map<Id, Place>)
    requires Tidy(s, at) && Enabled(s, GiveBack(c))
    ensures Tidy(Apply(s, GiveBack(c), run, unused), NextPlaces(s, GiveBack(c), at))
  {
    var s', at' := Apply(s, GiveBack(c), run, unused), NextPlaces(s, GiveBack(c), at);
    hide NoRepeats;
    assert Occupies(s, s.Caller(c).id, Fetching(c));
    assert !Occupies(s, s.Caller(c).id, InFree);
    TailJoins(s.free, s.Caller(c).id);
    forall id: Id, p: Place ensures Occupies(s', id, p) <==> (id in at' && at'[id] == p) {
      assert Occupies(s, id, p) <==> (id in at && at[id] == p);
    }
  }

  lemma TidyProcess<K>(s: State<K>, w: nat, run: K -> (K, int), unused: K, at: map<Id, Place>)
    requires Tidy(s, at) && Enabled(s, Process(w))
    ensures Tidy(Apply(s, Process(w), run, unused), NextPlaces(s, Process(w), at))
  {
    var s', at' := Apply(s, Process(w), run, unused), NextPlaces(s, Process(w), at);
    hide NoRepeats;
    assert Occupies(s, s.Worker(w).tmp[s.Worker(w).finished], WithWorker(w));
    forall id: Id, p: Place ensures Occupies(s', id, p) <==> (id in at' && at'[id] == p) {
      assert Occupies(s, id, p) <==> (id in at && at[id] == p);
    }
  }

  /** The steps that move no item. */
  lemma TidyRest<K>(s: State<K>, step: Step<K>, run: K -> (K, int), unused: K, at: map<Id, Place>)
    requires Tidy(s, at) && Enabled(s, step) && (step.AllocFails? || step.Kick? || step.Wake?)
    ensures Tidy(Apply(s, step, run, unused), NextPlaces(s, step, at))
  {
    var s', at' := Apply(s, step, run, unused), NextPlaces(s, step, at);
    hide NoRepeats;
    forall id: Id, p: Place ensures Occupies(s', id, p) <==> (id in at' && at'[id] == p) {
      assert Occupies(s, id, p) <==> (id in at && at[id] == p);
    }
  }

  lemma TidyKept<K>(s: State<K>, step: Step<K>, run: K -> (K, int), unused: K, at: map<Id, Place>)
    requires Tidy(s, at) && Enabled(s, step)
    ensures Tidy(Apply(s, step, run, unused), NextPlaces(s, step, at))
  {
    hide Tidy, Apply, NextPlaces;
    match step
    case TakeSlot(c, job) => TidyTakeSlot(s, c, job, run, unused, at);
    case AllocItem(c, id) => TidyAllocItem(s, c, id, run, unused, at);
    case Enqueue(c) => TidyEnqueue(s, c, run, unused, at);
    case Cut(w) => TidyCut(s, w, run, unused, at);
    case Process(w) => TidyProcess(s, w, run, unused, at);
    case Splice(w) => TidySplice(s, w, run, unused, at);
    case TakeDone(c) => TidyTakeDone(s, c, run, unused, at);
    case GiveBack(c) => TidyGiveBack(s, c, run, unused, at);
    case _ => TidyRest(s, step, run, unused, at);
  }

  lemma EmptyHasNone()
    ensures NoRepeats([])
  {
  }

  /** What became of the jobs after a step. */
  function NextFates<K>(s: State<K>, step: Step<K>, fates: seq<Fate>, unused: K): seq<Fate>
    requires Enabled(s, step)
  {
    match step
    case Enqueue(c) => fates + [CarriedBy(s.Caller(c).id)]
    case GiveBack(c) =>
      var ticket := ItemAt(s, s.Caller(c).id, unused).ticket;
      if ticket < |fates| then fates[ticket := DeliveredAs(|s.delivered|)] else fates
    case _ => fates
  }

  ghost predicate Booked<K>(s: State<K>, at: map<Id, Place>, fates: seq<Fate>) {
    Tidy(s, at) && Accounted(s, at, fates)
  }

  lemma AccountedEnqueue<K>(s: State<K>, c: nat, run: K -> (K, int), unused: K, at: map<Id, Place>, fates: seq<Fate>)
    requires Booked(s, at, fates) && Enabled(s, Enqueue(c))
    ensures NextPlaces(s, Enqueue(c), at).Keys == Apply(s, Enqueue(c), run, unused).items.Keys
    ensures Accounted(Apply(s, Enqueue(c), run, unused), NextPlaces(s, Enqueue(c), at),
                      NextFates(s, Enqueue(c), fates, unused))
  {
    hide ListsAreSets, WorkersSane;
    assert Occupies(s, s.Caller(c).id, Submitting(c));
  }

  lemma AccountedGiveBack<K>(s: State<K>, c: nat, run: K -> (K, int), unused: K, at: map<Id, Place>, fates: seq<Fate>)
    requires Booked(s, at, fates) && Enabled(s, GiveBack(c))
    ensures NextPlaces(s, GiveBack(c), at).Keys == Apply(s, GiveBack(c), run, unused).items.Keys
    ensures Accounted(Apply(s, GiveBack(c), run, unused), NextPlaces(s, GiveBack(c), at),
                      NextFates(s, GiveBack(c), fates, unused))
  {
    hide ListsAreSets, WorkersSane;
    assert Occupies(s, s.Caller(c).id, Fetching(c));
  }

  /** No other step starts or ends the carrying of a job. */
  lemma CarryingUnchanged<K>(s: State<K>, step: Step<K>, run: K -> (K, int), unused: K, at: map<Id, Place>)
    requires Tidy(s, at) && Enabled(s, step) && !step.Enqueue? && !step.GiveBack?
    ensures var s', at' := Apply(s, step, run, unused), NextPlaces(s, step, at);
      && at'.Keys == s'.items.Keys
      && s'.accepted == s.accepted && s'.delivered == s.delivered
      && (forall id :: id in s.items ==>
            && id in s'.items
            && s'.items[id].ticket == s.items[id].ticket
            && CarriesJob(at'[id]) == CarriesJob(at[id]))
      && (forall id :: id in s'.items && id !in s.items ==> !CarriesJob(at'[id]))
  {
    hide ListsAreSets, WorkersSane;
    match step
    case TakeSlot(c, job) =>
      if s.free != [] {
        assert Occupies(s, s.free[0], InFree);
      }
    case Process(w) =>
      ProcessPlace(s, w);
    case TakeDone(c) =>
      if s.done != [] {
        assert Occupies(s, s.done[0], InDone);
      }
    case _ =>
  }

  lemma ProcessPlace<K>(s: State<K>, w: nat)
    requires Enabled(s, Process(w))
    ensures Occupies(s, s.Worker(w).tmp[s.Worker(w).finished], WithWorker(w))
  {
  }

  lemma AccountedKept<K>(s: State<K>, step: Step<K>, run: K -> (K, int), unused: K, at: map<Id, Place>, fates: seq<Fate>)
    requires Booked(s, at, fates) && Enabled(s, step)
    ensures Booked(Apply(s, step, run, unused), NextPlaces(s, step, at), NextFates(s, step, fates, unused))
  {
    TidyKept(s, step, run, unused, at);
    hide Tidy, Apply, NextPlaces, CarriesJob;
    match step
    case Enqueue(c) => AccountedEnqueue(s, c, run, unused, at, fates);
    case GiveBack(c) => AccountedGiveBack(s, c, run, unused, at, fates);
    case _ => CarryingUnchanged(s, step, run, unused, at);
  }

  // ---------------------------------------------------------------------------
  // Every item carries what it should
  // ---------------------------------------------------------------------------

  lemma RunByWorkersKept<K>(s: State<K>, step: Step<K>, run: K -> (K, int), unused: K, at: map<Id, Place>)
    requires Tidy(s, at) && RunByWorkers(s, at) && Enabled(s, step)
    ensures NextPlaces(s, step, at).Keys == Apply(s, step, run, unused).items.Keys
    ensures RunByWorkers(Apply(s, step, run, unused), NextPlaces(s, step, at))
  {
    TidyKept(s, step, run, unused, at);
    hide ListsAreSets;
    match step
    case TakeSlot(c, job) =>
      RunTakeSlot(s, c, job, run, unused, at);
    case AllocItem(c, id) =>
      RunAllocItem(s, c, id, run, unused, at);
    case Enqueue(c) =>
      RunEnqueue(s, c, run, unused, at);
    case Cut(w) =>
      RunCut(s, w, run, unused, at);
    case Process(w) =>
      RunProcess(s, w, run, unused, at);
    case Splice(w) =>
      RunSplice(s, w, run, unused, at);
    case TakeDone(c) =>
      if s.done != [] {
        assert Occupies(s, s.done[0], InDone);
      }
    case GiveBack(c) =>
      assert Occupies(s, s.Caller(c).id, Fetching(c));
    case _ =>
  }

  lemma RunTakeSlot<K>(s: State<K>, c: nat, job: K, run: K -> (K, int), unused: K, at: map<Id, Place>)
    requires Tidy(s, at) && RunByWorkers(s, at) && Enabled(s, TakeSlot(c, job))
    ensures NextPlaces(s, TakeSlot(c, job), at).Keys == Apply(s, TakeSlot(c, job), run, unused).items.Keys
    ensures RunByWorkers(Apply(s, TakeSlot(c, job), run, unused), NextPlaces(s, TakeSlot(c, job), at))
  {
    hide ListsAreSets;
    TidyKept(s, TakeSlot(c, job), run, unused, at);
    if s.free != [] {
      assert Occupies(s, s.free[0], InFree);
    }
  }

  lemma RunAllocItem<K>(s: State<K>, c: nat, id: Id, run: K -> (K, int), unused: K, at: map<Id, Place>)
    requires Tidy(s, at) && RunByWorkers(s, at) && Enabled(s, AllocItem(c, id))
    ensures NextPlaces(s, AllocItem(c, id), at).Keys == Apply(s, AllocItem(c, id), run, unused).items.Keys
    ensures RunByWorkers(Apply(s, AllocItem(c, id), run, unused), NextPlaces(s, AllocItem(c, id), at))
  {
    hide ListsAreSets;
    TidyKept(s, AllocItem(c, id), run, unused, at);
    forall w, j: nat | w in s.workers && s.workers[w].Busy? && j < |s.workers[w].tmp|
      ensures s.workers[w].tmp[j] != id
    {
      assert Occupies(s, s.workers[w].tmp[j], WithWorker(w));
    }
  }

  lemma RunEnqueue<K>(s: State<K>, c: nat, run: K -> (K, int), unused: K, at: map<Id, Place>)
    requires Tidy(s, at) && RunByWorkers(s, at) && Enabled(s, Enqueue(c))
    ensures NextPlaces(s, Enqueue(c), at).Keys == Apply(s, Enqueue(c), run, unused).items.Keys
    ensures RunByWorkers(Apply(s, Enqueue(c), run, unused), NextPlaces(s, Enqueue(c), at))
  {
    hide ListsAreSets;
    assert Occupies(s, s.Caller(c).id, Submitting(c));
    forall w, j: nat | w in s.workers && s.workers[w].Busy? && j < |s.workers[w].tmp|
      ensures s.workers[w].tmp[j] != s.Caller(c).id
    {
      assert Occupies(s, s.workers[w].tmp[j], WithWorker(w));
    }
  }

  lemma RunCut<K>(s: State<K>, w: nat, run: K -> (K, int), unused: K, at: map<Id, Place>)
    requires Tidy(s, at) && RunByWorkers(s, at) && Enabled(s, Cut(w))
    ensures NextPlaces(s, Cut(w), at).Keys == Apply(s, Cut(w), run, unused).items.Keys
    ensures RunByWorkers(Apply(s, Cut(w), run, unused), NextPlaces(s, Cut(w), at))
  {
    hide ListsAreSets;
    forall j: nat | j < |s.todo| ensures s.todo[j] in at && at[s.todo[j]] == InTodo {
      assert Occupies(s, s.todo[j], InTodo);
    }
  }

  lemma RunProcess<K>(s: State<K>, w: nat, run: K -> (K, int), unused: K, at: map<Id, Place>)
    requires Tidy(s, at) && RunByWorkers(s, at) && Enabled(s, Process(w))
    ensures NextPlaces(s, Process(w), at).Keys == Apply(s, Process(w), run, unused).items.Keys
    ensures RunByWorkers(Apply(s, Process(w), run, unused), NextPlaces(s, Process(w), at))
  {
    hide ListsAreSets;
    var id := s.Worker(w).tmp[s.Worker(w).finished];
    assert Occupies(s, id, WithWorker(w));
    forall v, j: nat | v in s.workers && s.workers[v].Busy? && j < |s.workers[v].tmp| && s.workers[v].tmp[j] == id
      ensures v == w && j == s.Worker(w).finished
    {
      assert Occupies(s, id, WithWorker(v));
    }
  }

  lemma RunSplice<K>(s: State<K>, w: nat, run: K -> (K, int), unused: K, at: map<Id, Place>)
    requires Tidy(s, at) && RunByWorkers(s, at) && Enabled(s, Splice(w))
    ensures NextPlaces(s, Splice(w), at).Keys == Apply(s, Splice(w), run, unused).items.Keys
    ensures RunByWorkers(Apply(s, Splice(w), run, unused), NextPlaces(s, Splice(w), at))
  {
    hide ListsAreSets;
    forall id | id in at && at[id] == WithWorker(w) ensures s.items[id].ran {
      assert Occupies(s, id, WithWorker(w));
      var j :| 0 <= j < |s.Tmp(w)| && s.Tmp(w)[j] == id;
      assert s.workers[w].tmp[j] in s.items;
    }
  }

  lemma FaithfulEnqueue<K>(s: State<K>, c: nat, run: K -> (K, int), unused: K, at: map<Id, Place>)
    requires Tidy(s, at) && Faithful(s, at, run) && Enabled(s, Enqueue(c))
    ensures NextPlaces(s, Enqueue(c), at).Keys == Apply(s, Enqueue(c), run, unused).items.Keys
    ensures Faithful(Apply(s, Enqueue(c), run, unused), NextPlaces(s, Enqueue(c), at), run)
  {
    hide ListsAreSets, WorkersSane;
    assert Occupies(s, s.Caller(c).id, Submitting(c));
  }

  lemma FaithfulGiveBack<K>(s: State<K>, c: nat, run: K -> (K, int), unused: K, at: map<Id, Place>)
    requires Tidy(s, at) && RunByWorkers(s, at) && Faithful(s, at, run) && Enabled(s, GiveBack(c))
    ensures NextPlaces(s, GiveBack(c), at).Keys == Apply(s, GiveBack(c), run, unused).items.Keys
    ensures Faithful(Apply(s, GiveBack(c), run, unused), NextPlaces(s, GiveBack(c), at), run)
  {
    hide ListsAreSets, WorkersSane;
    assert Occupies(s, s.Caller(c).id, Fetching(c));
  }

  /** The remaining steps leave every carrying item as it is. */
  lemma ItemsUnchanged<K>(s: State<K>, step: Step<K>, run: K -> (K, int), unused: K)
    requires Enabled(s, step) && !step.Enqueue? && !step.Process?
    ensures forall id :: id in s.items ==>
      id in Apply(s, step, run, unused).items && Apply(s, step, run, unused).items[id] == s.items[id]
  {
  }

  lemma FaithfulKept<K>(s: State<K>, step: Step<K>, run: K -> (K, int), unused: K, at: map<Id, Place>)
    requires Tidy(s, at) && RunByWorkers(s, at) && Faithful(s, at, run) && Enabled(s, step)
    ensures NextPlaces(s, step, at).Keys == Apply(s, step, run, unused).items.Keys
    ensures Faithful(Apply(s, step, run, unused), NextPlaces(s, step, at), run)
  {
    hide Tidy, RunByWorkers, CarriesJob, Apply, NextPlaces;
    match step
    case Enqueue(c) =>
      FaithfulEnqueue(s, c, run, unused, at);
    case Process(w) =>
      FaithfulProcess(s, w, run, unused, at);
    case GiveBack(c) =>
      FaithfulGiveBack(s, c, run, unused, at);
    case _ =>
      CarryingUnchanged(s, step, run, unused, at);
      ItemsUnchanged(s, step, run, unused);
  }

  lemma FaithfulProcess<K>(s: State<K>, w: nat, run: K -> (K, int), unused: K, at: map<Id, Place>)
    requires Tidy(s, at) && RunByWorkers(s, at) && Faithful(s, at, run) && Enabled(s, Process(w))
    ensures NextPlaces(s, Process(w), at).Keys == Apply(s, Process(w), run, unused).items.Keys
    ensures Faithful(Apply(s, Process(w), run, unused), NextPlaces(s, Process(w), at), run)
  {
    hide ListsAreSets, WorkersSane;
    ProcessPlace(s, w);
    var id := s.workers[w].tmp[s.workers[w].finished];
    assert id in s.items && !s.items[id].ran;
    assert FaithfulItem(s, s.items[id], run);
  }

  // ---------------------------------------------------------------------------
  // Counting, waking and order
  // ---------------------------------------------------------------------------

  lemma ReservedAfter<K>(s: State<K>, step: Step<K>, run: K -> (K, int), unused: K)
    requires Enabled(s, step)
    ensures var before, after := ReservedCallers(s), ReservedCallers(Apply(s, step, run, unused));
      match step
      case TakeSlot(c, _) => c !in before &&
        after == if s.free == [] && s.itemcount < MAX_COP_RINGSIZE then before + {c} else before
      case AllocItem(c, _) => c in before && after == before - {c}
      case AllocFails(c) => c in before && after == before - {c}
      case _ => after == before
  {
  }

  lemma ItemsAfter<K>(s: State<K>, step: Step<K>, run: K -> (K, int), unused: K, at: map<Id, Place>)
    requires Tidy(s, at) && Enabled(s, step)
    ensures Apply(s, step, run, unused).items.Keys == s.items.Keys + if step.AllocItem? then {step.id} else {}
  {
    hide ListsAreSets, WorkersSane, Placed;
    match step
    case Enqueue(c) =>
      KnownItem(s, at, s.Caller(c).id, Submitting(c));
    case Process(w) =>
      ProcessPlace(s, w);
      KnownItem(s, at, s.Worker(w).tmp[s.Worker(w).finished], WithWorker(w));
    case _ =>
  }

  lemma CountFields<K>(s: State<K>, step: Step<K>, run: K -> (K, int), unused: K)
    requires Enabled(s, step)
    ensures var s' := Apply(s, step, run, unused);
      && s'.failed == s.failed + (if step.AllocFails? then 1 else 0)
      && s'.itemcount == s.itemcount +
           (if step.TakeSlot? && s.free == [] && s.itemcount < MAX_COP_RINGSIZE then 1 else 0)
      && (step.AllocItem? ==> step.id !in s.items)
  {
  }

  lemma CountedKept<K>(s: State<K>, step: Step<K>, run: K -> (K, int), unused: K, at: map<Id, Place>)
    requires Tidy(s, at) && Counted(s) && Enabled(s, step)
    ensures Counted(Apply(s, step, run, unused))
  {
    hide Tidy, ReservedCallers, Apply, Enabled;
    ReservedAfter(s, step, run, unused);
    ItemsAfter(s, step, run, unused, at);
    CountFields(s, step, run, unused);
    assert |s.items| == |s.items.Keys|;
    assert |Apply(s, step, run, unused).items| == |Apply(s, step, run, unused).items.Keys|;
  }

  lemma KnownItem<K>(s: State<K>, at: map<Id, Place>, id: Id, p: Place)
    requires Tidy(s, at) && Occupies(s, id, p)
    ensures id in s.items && at[id] == p
  {
  }

  lemma WakeupKept<K(!new)>(s: State<K>, step: Step<K>, run: K -> (K, int), unused: K)
    requires NoLostWakeup(s) && Enabled(s, step)
    ensures NoLostWakeup(Apply(s, step, run, unused))
  {
    var s' := Apply(s, step, run, unused);
    if s.todo != [] && !s.pending {
      if w: nat :| s.Worker(w).Starting? {
        assert s'.todo == [] || s'.Worker(w).Starting?;
      } else if c: nat :| s.Caller(c).Kicking? {
        assert s'.pending || s'.Caller(c).Kicking?;
      }
    }
    match step
    case Enqueue(c) =>
      assert s'.Caller(c).Kicking?;
    case Wake(w) =>
      assert s'.Worker(w).Starting?;
    case _ =>
  }

  // ---------------------------------------------------------------------------
  // Workers that take turns keep the order of submission
  // ---------------------------------------------------------------------------

  function TicketOf<K>(s: State<K>, id: Id): nat {
    if id in s.items then s.items[id].ticket else 0
  }

  function Tickets<K>(s: State<K>, ids: seq<Id>): (ts: seq<nat>)
    ensures |ts| == |ids|
  {
    seq(|ids|, i requires 0 <= i < |ids| => TicketOf(s, ids[i]))
  }

  function Upto(n: nat): (ts: seq<nat>)
    ensures |ts| == n
  {
    seq(n, i => i)
  }

  /** All accepted jobs, those already taken from the done list first, when no worker but b
      holds any. */
  function Line<K>(s: State<K>, b: nat): seq<nat> {
    s.taken + Tickets(s, s.done) + Tickets(s, s.Tmp(b)) + Tickets(s, s.todo)
  }

  predicate OnlyBusy<K>(s: State<K>, b: nat) {
    forall w :: w in s.workers && w != b ==> !s.workers[w].Busy?
  }

  ghost predicate InOrder<K>(s: State<K>, b: nat) {
    OnlyBusy(s, b) && Line(s, b) == Upto(|s.accepted|)
  }

  /** No worker cuts off the todo list while another is busy: the kernel does not run the
      work on two of them at once. */
  predicate InTurn<K>(s: State<K>, step: Step<K>) {
    step.Cut? ==> OnlyBusy(s, step.w)
  }

  predicate AllInTurn<K>(s: State<K>, steps: seq<Step<K>>, run: K -> (K, int), unused: K)
    requires AllEnabled(s, steps, run, unused)
    decreases |steps|
  {
    steps == [] || (InTurn(s, steps[0]) && AllInTurn(Apply(s, steps[0], run, unused), steps[1..], run, unused))
  }

  lemma SameTickets<K>(s: State<K>, s': State<K>, ids: seq<Id>)
    requires forall i :: 0 <= i < |ids| ==> TicketOf(s, ids[i]) == TicketOf(s', ids[i])
    ensures Tickets(s, ids) == Tickets(s', ids)
  {
  }

  /** Only the item being queued changes its ticket, and it is on no list yet. */
  lemma ListedTicketsKept<K>(s: State<K>, step: Step<K>, run: K -> (K, int), unused: K, at: map<Id, Place>, b: nat)
    requires Tidy(s, at) && Enabled(s, step)
    ensures var s' := Apply(s, step, run, unused);
      && Tickets(s', s.done) == Tickets(s, s.done)
      && Tickets(s', s.Tmp(b)) == Tickets(s, s.Tmp(b))
      && Tickets(s', s.todo) == Tickets(s, s.todo)
  {
    var s' := Apply(s, step, run, unused);
    forall id | id in s.done || id in s.Tmp(b) || id in s.todo ensures TicketOf(s', id) == TicketOf(s, id) {
      ListedTicketKept(s, step, run, unused, at, b, id);
    }
    hide Tickets, TicketOf;
    SameTickets(s, s', s.done);
    SameTickets(s, s', s.Tmp(b));
    SameTickets(s, s', s.todo);
  }

  lemma ListedTicketKept<K>(s: State<K>, step: Step<K>, run: K -> (K, int), unused: K, at: map<Id, Place>, b: nat, id: Id)
    requires Tidy(s, at) && Enabled(s, step)
    requires id in s.done || id in s.Tmp(b) || id in s.todo
    ensures TicketOf(Apply(s, step, run, unused), id) == TicketOf(s, id)
  {
    var p := if id in s.done then InDone else if id in s.todo then InTodo else WithWorker(b);
    KnownItem(s, at, id, p);
    if step.Enqueue? {
      KnownItem(s, at, s.Caller(step.c).id, Submitting(step.c));
    }
  }

  lemma TicketsAppend<K>(s: State<K>, a: seq<Id>, b: seq<Id>)
    ensures Tickets(s, a + b) == Tickets(s, a) + Tickets(s, b)
    ensures Tickets(s, []) == []
  {
  }

  lemma TicketsHead<K>(s: State<K>, ids: seq<Id>)
    requires ids != []
    ensures Tickets(s, ids) == [TicketOf(s, ids[0])] + Tickets(s, ids[1..])
  {
  }

  lemma OrderEnqueue<K>(s: State<K>, c: nat, run: K -> (K, int), unused: K, at: map<Id, Place>, b: nat)
    requires Tidy(s, at) && Enabled(s, Enqueue(c))
    ensures Line(Apply(s, Enqueue(c), run, unused), b) == Line(s, b) + [|s.accepted|]
  {
    ListedTicketsKept(s, Enqueue(c), run, unused, at, b);
    hide Tidy, Tickets;
    var s' := Apply(s, Enqueue(c), run, unused);
    TicketsAppend(s', s.todo, [s.Caller(c).id]);
    TicketsHead(s', [s.Caller(c).id]);
    TicketsAppend(s', [], []);
    assert [s.Caller(c).id][1..] == [];
  }

  lemma OrderTakeDone<K>(s: State<K>, c: nat, run: K -> (K, int), unused: K, at: map<Id, Place>, b: nat)
    requires Tidy(s, at) && Enabled(s, TakeDone(c))
    ensures Line(Apply(s, TakeDone(c), run, unused), b) == Line(s, b)
  {
    hide Tickets, Tidy;
    var s' := Apply(s, TakeDone(c), run, unused);
    SameTickets(s, s', s.Tmp(b));
    SameTickets(s, s', s.todo);
    if s.done != [] {
      var head, rest := s.done[0], s.done[1..];
      SameTickets(s, s', rest);
      TicketsHead(s, s.done);
      KnownItem(s, at, head, InDone);
      assert s.taken + ([TicketOf(s, head)] + Tickets(s, rest)) == (s.taken + [TicketOf(s, head)]) + Tickets(s, rest);
    }
  }

  lemma OrderCut<K>(s: State<K>, w: nat, run: K -> (K, int), unused: K, b: nat)
    requires Enabled(s, Cut(w)) && OnlyBusy(s, b) && OnlyBusy(s, w)
    ensures Line(Apply(s, Cut(w), run, unused), w) == Line(s, b)
  {
    var s' := Apply(s, Cut(w), run, unused);
    assert s.Tmp(b) == [] && s'.Tmp(w) == s.todo;
    hide Tickets;
    assert s'.items == s.items && s'.done == s.done && s'.todo == [];
    SameTickets(s, s', s.done);
    SameTickets(s, s', s.todo);
    TicketsAppend(s, [], []);
    TicketsAppend(s', [], []);
  }

  lemma OrderSplice<K>(s: State<K>, w: nat, run: K -> (K, int), unused: K)
    requires Enabled(s, Splice(w))
    ensures Line(Apply(s, Splice(w), run, unused), w) == Line(s, w)
  {
    var s' := Apply(s, Splice(w), run, unused);
    SameTickets(s, s', s.done);
    SameTickets(s, s', s.todo);
    SameTickets(s, s', s.Tmp(w));
    TicketsAppend(s', s.done, s.Tmp(w));
  }

  lemma OrderRest<K>(s: State<K>, step: Step<K>, run: K -> (K, int), unused: K, at: map<Id, Place>, b: nat)
    requires Tidy(s, at) && Enabled(s, step)
    requires !step.Enqueue? && !step.TakeDone? && !step.Cut? && !step.Splice?
    ensures Line(Apply(s, step, run, unused), b) == Line(s, b)
  {
    ListedTicketsKept(s, step, run, unused, at, b);
    hide Tidy, Tickets;
    var s' := Apply(s, step, run, unused);
    assert s'.done == s.done && s'.todo == s.todo && s'.taken == s.taken;
    assert s'.Tmp(b) == s.Tmp(b);
  }

  lemma BusyKept<K>(s: State<K>, step: Step<K>, run: K -> (K, int), unused: K, b: nat)
    requires Enabled(s, step) && OnlyBusy(s, b) && InTurn(s, step)
    ensures OnlyBusy(Apply(s, step, run, unused), if step.Cut? then step.w else b)
  {
  }

  lemma OrderKept<K>(s: State<K>, step: Step<K>, run: K -> (K, int), unused: K, at: map<Id, Place>, b: nat)
    requires Tidy(s, at) && InOrder(s, b) && Enabled(s, step) && InTurn(s, step)
    ensures InOrder(Apply(s, step, run, unused), if step.Cut? then step.w else b)
  {
    hide Tidy, Line, OnlyBusy;
    BusyKept(s, step, run, unused, b);
    match step
    case Enqueue(c) =>
      OrderEnqueue(s, c, run, unused, at, b);
      assert Upto(|s.accepted| + 1) == Upto(|s.accepted|) + [|s.accepted|];
    case Cut(w) =>
      OrderCut(s, w, run, unused, b);
    case Splice(w) =>
      BusyIs(s, w, b);
      OrderSplice(s, w, run, unused);
    case TakeDone(c) =>
      OrderTakeDone(s, c, run, unused, at, b);
    case _ =>
      OrderRest(s, step, run, unused, at, b);
  }

  lemma BusyIs<K>(s: State<K>, w: nat, b: nat)
    requires OnlyBusy(s, b) && s.Worker(w).Busy?
    ensures w == b
  {
  }

  // ---------------------------------------------------------------------------
  // Whole runs
  // ---------------------------------------------------------------------------

  ghost predicate Inv<K(!new)>(s: State<K>, at: map<Id, Place>, fates: seq<Fate>, run: K -> (K, int)) {
    && Booked(s, at, fates)
    && RunByWorkers(s, at)
    && Faithful(s, at, run)
    && Counted(s)
    && NoLostWakeup(s)
  }

  function FirstPlaces(): map<Id, Place> {
    map id | id in FirstIds() :: InFree
  }

  lemma OpenTidy<K>(unused: K)
    ensures Tidy(Open(unused), FirstPlaces())
  {
    var s := Open(unused);
    forall id: Id, p: Place ensures Occupies(s, id, p) <==> (id in FirstPlaces() && FirstPlaces()[id] == p) {
    }
  }

  lemma OpenCounted<K>(unused: K)
    ensures Counted(Open(unused))
  {
    var s := Open(unused);
    SeqAsSet(FirstIds());
    assert s.items.Keys == AsSet(FirstIds());
    assert ReservedCallers(s) == {};
    assert |s.items| == |s.items.Keys|;
  }

  lemma OpenInv<K(!new)>(run: K -> (K, int), unused: K)
    ensures Inv(Open(unused), FirstPlaces(), [], run)
    ensures InOrder(Open(unused), 0)
  {
    OpenTidy(unused);
    OpenCounted(unused);
    hide Tidy, Counted;
    TicketsAppend(Open(unused), [], []);
    assert Line(Open(unused), 0) == Upto(0);
  }

  function AsSet(ids: seq<Id>): set<Id> {
    set id | id in ids
  }

  lemma {:induction false} SeqAsSet(ids: seq<Id>)
    requires NoRepeats(ids)
    ensures |AsSet(ids)| == |ids|
  {
    if ids == [] {
      assert AsSet(ids) == {};
    } else {
      HeadLeaves(ids);
      SeqAsSet(ids[1..]);
      assert ids[0] !in AsSet(ids[1..]) && AsSet(ids) == AsSet(ids[1..]) + {ids[0]};
    }
  }

  lemma InvKept<K(!new)>(s: State<K>, step: Step<K>, run: K -> (K, int), unused: K, at: map<Id, Place>, fates: seq<Fate>)
    requires Inv(s, at, fates, run) && Enabled(s, step)
    ensures Inv(Apply(s, step, run, unused), NextPlaces(s, step, at), NextFates(s, step, fates, unused), run)
  {
    hide Apply, NextPlaces, NextFates, Tidy, Accounted, RunByWorkers, Faithful, Counted, NoLostWakeup;
    AccountedKept(s, step, run, unused, at, fates);
    RunByWorkersKept(s, step, run, unused, at);
    FaithfulKept(s, step, run, unused, at);
    CountedKept(s, step, run, unused, at);
    WakeupKept(s, step, run, unused);
  }

  lemma {:induction false} InvAfter<K(!new)>(s: State<K>, steps: seq<Step<K>>, run: K -> (K, int), unused: K,
                                             at: map<Id, Place>, fates: seq<Fate>)
    returns (at': map<Id, Place>, fates': seq<Fate>)
    requires Inv(s, at, fates, run) && AllEnabled(s, steps, run, unused)
    ensures Inv(After(s, steps, run, unused), at', fates', run)
    decreases |steps|
  {
    hide Apply, NextPlaces, NextFates, Enabled;
    at', fates' := at, fates;
    if steps != [] {
      InvKept(s, steps[0], run, unused, at, fates);
      at', fates' := InvAfter(Apply(s, steps[0], run, unused), steps[1..], run, unused,
        NextPlaces(s, steps[0], at), NextFates(s, steps[0], fates, unused));
    }
  }

  lemma {:induction false} OrderAfter<K(!new)>(s: State<K>, steps: seq<Step<K>>, run: K -> (K, int), unused: K,
                                               at: map<Id, Place>, fates: seq<Fate>, b: nat)
    returns (b': nat)
    requires Inv(s, at, fates, run) && InOrder(s, b)
    requires AllEnabled(s, steps, run, unused) && AllInTurn(s, steps, run, unused)
    ensures InOrder(After(s, steps, run, unused), b')
    decreases |steps|
  {
    hide Apply, NextPlaces, NextFates, Enabled, InOrder, InTurn;
    b' := b;
    if steps != [] {
      InvKept(s, steps[0], run, unused, at, fates);
      OrderKept(s, steps[0], run, unused, at, b);
      b' := OrderAfter(Apply(s, steps[0], run, unused), steps[1..], run, unused,
        NextPlaces(s, steps[0], at), NextFates(s, steps[0], fates, unused), if steps[0].Cut? then steps[0].w else b);
    }
  }

  ghost predicate OnePlaceEach<K(!new)>(s: State<K>) {
    && ListsAreSets(s)
    && forall id :: id in s.items ==> exists p :: Occupies(s, id, p) && forall q :: Occupies(s, id, q) ==> q == p
  }

  ghost predicate IsDelivered<K(!new)>(s: State<K>, k: nat) {
    exists i: nat :: i < |s.delivered| && s.delivered[i].ticket == k
  }

  ghost predicate IsCarried<K(!new)>(s: State<K>, k: nat) {
    exists id, p :: id in s.items && s.items[id].ticket == k && CarriesJob(p) && Occupies(s, id, p)
  }

  /** An accepted job is still in the ring or was delivered, never both. */
  ghost predicate NoJobLost<K(!new)>(s: State<K>) {
    forall k: nat :: k < |s.accepted| ==> (IsDelivered(s, k) <==> !IsCarried(s, k))
  }

  ghost predicate DeliveredOnceAndRight<K(!new)>(s: State<K>, run: K -> (K, int)) {
    && (forall i: nat, j: nat :: i < j < |s.delivered| ==> s.delivered[i].ticket != s.delivered[j].ticket)
    && forall i: nat :: i < |s.delivered| ==>
         Processed(s, s.delivered[i].ticket, s.delivered[i].kcop, s.delivered[i].result, run)
  }

  lemma InvMeansOnePlace<K(!new)>(s: State<K>, at: map<Id, Place>)
    requires Tidy(s, at)
    ensures OnePlaceEach(s)
  {
    forall id | id in s.items
      ensures exists p :: Occupies(s, id, p) && forall q :: Occupies(s, id, q) ==> q == p
    {
      assert Occupies(s, id, at[id]);
    }
  }

  lemma InvMeansNoJobLost<K(!new)>(s: State<K>, at: map<Id, Place>, fates: seq<Fate>)
    requires Booked(s, at, fates)
    ensures NoJobLost(s)
  {
    hide ListsAreSets, WorkersSane, Occupies;
    forall k: nat | k < |s.accepted| ensures IsDelivered(s, k) <==> !IsCarried(s, k) {
      match fates[k]
      case CarriedBy(id) =>
        assert CarriesJob(at[id]) && Occupies(s, id, at[id]);
      case DeliveredAs(i) =>
        assert s.delivered[i].ticket == k;
    }
  }

  /** Whatever callers and workers do, from open on, and however they interleave: every
      item is in exactly one place, the ring never grows past its limit, no job is lost,
      delivered twice or delivered with another job's outcome, and no queued job is left
      without a worker coming for it. */
  lemma RingIsSafe<K(!new)>(steps: seq<Step<K>>, run: K -> (K, int), unused: K)
    requires AllEnabled(Open(unused), steps, run, unused)
    ensures var s := After(Open(unused), steps, run, unused);
      && OnePlaceEach(s)
      && s.itemcount == |s.items| + |ReservedCallers(s)| + s.failed <= MAX_COP_RINGSIZE
      && NoJobLost(s)
      && DeliveredOnceAndRight(s, run)
      && NoLostWakeup(s)
  {
    OpenInv(run, unused);
    var s := After(Open(unused), steps, run, unused);
    var at, fates := InvAfter(Open(unused), steps, run, unused, FirstPlaces(), []);
    hide NoLostWakeup, RunByWorkers, After, OnePlaceEach, NoJobLost, Tidy;
    InvMeansOnePlace(s, at);
    InvMeansNoJobLost(s, at, fates);
  }

  /** Jobs leave the done list in the order they were accepted. */
  predicate Fifo<K>(s: State<K>) {
    |s.taken| <= |s.accepted| && s.taken == Upto(|s.taken|)
  }

  /** As long as no two workers are busy at once, however many there are. */
  lemma InTurnIsFifo<K(!new)>(steps: seq<Step<K>>, run: K -> (K, int), unused: K)
    requires AllEnabled(Open(unused), steps, run, unused) && AllInTurn(Open(unused), steps, run, unused)
    ensures Fifo(After(Open(unused), steps, run, unused))
  {
    hide After, Inv, InOrder, Fifo, AllEnabled, AllInTurn;
    OpenInv(run, unused);
    var s := After(Open(unused), steps, run, unused);
    var b := OrderAfter(Open(unused), steps, run, unused, FirstPlaces(), [], 0);
    OrderedIsFifo(s, b);
  }

  lemma OrderedIsFifo<K>(s: State<K>, b: nat)
    requires InOrder(s, b)
    ensures Fifo(s)
  {
    hide Tickets;
    assert s.taken == Line(s, b)[..|s.taken|] == Upto(|s.accepted|)[..|s.taken|];
  }

  predicate ByWorker<K>(step: Step<K>, ws: set<nat>) {
    (step.Wake? || step.Cut? || step.Process? || step.Splice?) ==> step.w in ws
  }

  lemma {:induction false} OneTakesTurns<K>(s: State<K>, steps: seq<Step<K>>, run: K -> (K, int), unused: K, w: nat)
    requires AllEnabled(s, steps, run, unused) && s.workers.Keys <= {w}
    requires forall i :: 0 <= i < |steps| ==> ByWorker(steps[i], {w})
    ensures AllInTurn(s, steps, run, unused)
    decreases |steps|
  {
    if steps != [] {
      assert ByWorker(steps[0], {w});
      OneTakesTurns(Apply(s, steps[0], run, unused), steps[1..], run, unused, w);
    }
  }

  ghost predicate AlwaysFifo<K(!new)>(ws: set<nat>, run: K -> (K, int), unused: K) {
    forall steps: seq<Step<K>> ::
      AllEnabled(Open(unused), steps, run, unused) && (forall i :: 0 <= i < |steps| ==> ByWorker(steps[i], ws)) ==>
        Fifo(After(Open(unused), steps, run, unused))
  }

  /** If workers run as they like, jobs are sure to come back in order exactly when there is
      not more than one. */
  lemma FifoIff<K(!new)>(ws: set<nat>, run: K -> (K, int), unused: K)
    ensures AlwaysFifo(ws, run, unused) <==> |ws| <= 1
  {
    hide After, Apply, Enabled, AllEnabled, Fifo;
    if |ws| <= 1 {
      var w := OneOf(ws);
      forall steps: seq<Step<K>> |
        AllEnabled(Open(unused), steps, run, unused) && forall i :: 0 <= i < |steps| ==> ByWorker(steps[i], ws)
        ensures Fifo(After(Open(unused), steps, run, unused))
      {
        forall i | 0 <= i < |steps| ensures ByWorker(steps[i], {w}) {
          assert ByWorker(steps[i], ws);
        }
        OneTakesTurns(Open(unused), steps, run, unused, w);
        InTurnIsFifo(steps, run, unused);
      }
    } else {
      var v, w := TwoOf(ws);
      var steps := TwoWorkersCanOvertake(v, w, unused, unused, run, unused);
      TakenLateIsNotFifo(After(Open(unused), steps, run, unused));
    }
  }

  lemma OneOf(ws: set<nat>) returns (w: nat)
    requires |ws| <= 1
    ensures ws <= {w}
  {
    if ws == {} {
      w := 0;
    } else {
      w :| w in ws;
      assert |ws - {w}| == 0;
    }
  }

  lemma TwoOf(ws: set<nat>) returns (v: nat, w: nat)
    requires |ws| > 1
    ensures v != w && {v, w} <= ws
  {
    v :| v in ws;
    assert |ws - {v}| > 0;
    w :| w in ws - {v};
  }

  lemma TakenLateIsNotFifo<K>(s: State<K>)
    requires s.taken == [1]
    ensures !Fifo(s)
  {
    assert Upto(1)[0] == 0;
  }

  lemma NoMore<K>(s: State<K>, run: K -> (K, int), unused: K)
    ensures AllEnabled(s, [], run, unused) && After(s, [], run, unused) == s
  {
  }

  lemma Follow<K>(s: State<K>, step: Step<K>, rest: seq<Step<K>>, run: K -> (K, int), unused: K)
    requires Enabled(s, step) && AllEnabled(Apply(s, step, run, unused), rest, run, unused)
    ensures AllEnabled(s, [step] + rest, run, unused)
    ensures After(s, [step] + rest, run, unused) == After(Apply(s, step, run, unused), rest, run, unused)
  {
    assert ([step] + rest)[1..] == rest;
  }

  lemma {:induction false} AfterJoin<K>(s: State<K>, a: seq<Step<K>>, b: seq<Step<K>>, run: K -> (K, int), unused: K)
    requires AllEnabled(s, a, run, unused) && AllEnabled(After(s, a, run, unused), b, run, unused)
    ensures AllEnabled(s, a + b, run, unused)
    ensures After(s, a + b, run, unused) == After(After(s, a, run, unused), b, run, unused)
    decreases |a|
  {
    hide Apply, Enabled;
    if a == [] {
      assert a + b == b;
    } else {
      var s' := Apply(s, a[0], run, unused);
      AfterJoin(s', a[1..], b, run, unused);
      Follow(s, a[0], a[1..] + b, run, unused);
      assert a + b == [a[0]] + (a[1..] + b);
    }
  }

  /** One caller submits a job. */
  lemma Submit<K>(s: State<K>, job: K, run: K -> (K, int), unused: K) returns (steps: seq<Step<K>>)
    requires s.Caller(0).Idle? && s.free != [] && s.free[0] in s.items
    ensures AllEnabled(s, steps, run, unused)
    ensures var s', id := After(s, steps, run, unused), s.free[0];
      && s'.Caller(0).Idle? && s'.todo == s.todo + [id] && s'.free == s.free[1..]
      && s'.workers == s.workers && s'.pending
      && s'.items == s.items[id := s.items[id].(kcop := job, ticket := |s.accepted|, ran := false)]
      && s'.accepted == s.accepted + [job] && s'.taken == s.taken && s'.done == s.done
    ensures forall i :: 0 <= i < |steps| ==> ByWorker(steps[i], {})
  {
    hide After, AllEnabled;
    var s1 := Apply(s, TakeSlot(0, job), run, unused);
    var s2 := Apply(s1, Enqueue(0), run, unused);
    var s3 := Apply(s2, Kick(0), run, unused);
    var t2: seq<Step<K>> := [Kick(0)] + [];
    var t1 := [Enqueue(0)] + t2;
    steps := [TakeSlot(0, job)] + t1;
    NoMore(s3, run, unused);
    Follow(s2, Kick(0), [], run, unused);
    Follow(s1, Enqueue(0), t2, run, unused);
    Follow(s, TakeSlot(0, job), t1, run, unused);
  }

  /** Worker w wakes up and cuts off the todo list. */
  lemma WakeAndCut<K>(s: State<K>, w: nat, run: K -> (K, int), unused: K) returns (steps: seq<Step<K>>)
    requires s.pending && s.Worker(w).Asleep?
    ensures AllEnabled(s, steps, run, unused)
    ensures After(s, steps, run, unused)
      == s.(pending := false, todo := [], workers := s.workers[w := Busy(s.todo, 0)])
    ensures forall i :: 0 <= i < |steps| ==> ByWorker(steps[i], {w})
  {
    hide After, AllEnabled;
    var s1 := Apply(s, Wake(w), run, unused);
    var s2 := Apply(s1, Cut(w), run, unused);
    var busy: Worker := Busy(s.todo, 0);
    assert s.workers[w := Starting][w := busy] == s.workers[w := busy];
    var t1: seq<Step<K>> := [Cut(w)] + [];
    steps := [Wake(w)] + t1;
    NoMore(s2, run, unused);
    Follow(s1, Cut(w), [], run, unused);
    Follow(s, Wake(w), t1, run, unused);
  }

  lemma SubmitAndCut<K>(s: State<K>, w: nat, job: K, run: K -> (K, int), unused: K) returns (steps: seq<Step<K>>)
    requires s.Caller(0).Idle? && s.Worker(w).Asleep? && s.todo == []
    requires s.free != [] && s.free[0] in s.items
    ensures AllEnabled(s, steps, run, unused)
    ensures var s', id := After(s, steps, run, unused), s.free[0];
      && s'.Caller(0).Idle? && s'.todo == [] && s'.free == s.free[1..]
      && s'.workers == s.workers[w := Busy([id], 0)]
      && s'.items == s.items[id := s.items[id].(kcop := job, ticket := |s.accepted|, ran := false)]
      && s'.accepted == s.accepted + [job] && s'.taken == s.taken && s'.done == s.done
    ensures forall i :: 0 <= i < |steps| ==> ByWorker(steps[i], {w})
  {
    hide After, AllEnabled, Apply, Enabled;
    var submit := Submit(s, job, run, unused);
    var s1 := After(s, submit, run, unused);
    assert s1.todo == [s.free[0]];
    var cut := WakeAndCut(s1, w, run, unused);
    AfterJoin(s, submit, cut, run, unused);
    steps := submit + cut;
  }

  /** Two workers need not keep it: the second can overtake the first with a later job. */
  lemma TwoWorkersCanOvertake<K>(v: nat, w: nat, a: K, b: K, run: K -> (K, int), unused: K)
    returns (steps: seq<Step<K>>)
    requires v != w
    ensures AllEnabled(Open(unused), steps, run, unused)
    ensures After(Open(unused), steps, run, unused).accepted == [a, b]
    ensures After(Open(unused), steps, run, unused).taken == [1]
    ensures forall i :: 0 <= i < |steps| ==> ByWorker(steps[i], {v, w})
  {
    var s0: State<K> := Open(unused);
    var first := SubmitAndCut(s0, v, a, run, unused);
    var s1 := After(s0, first, run, unused);
    var second := SubmitAndCut(s1, w, b, run, unused);
    var s2 := After(s1, second, run, unused);
    var last := Overtake(s2, w, run, unused);
    AfterJoin(s1, second, last, run, unused);
    AfterJoin(s0, first, second + last, run, unused);
    steps := first + (second + last);
  }

  lemma Overtake<K>(s: State<K>, w: nat, run: K -> (K, int), unused: K) returns (steps: seq<Step<K>>)
    requires w in s.workers && s.workers[w].Busy? && |s.workers[w].tmp| == 1 && s.workers[w].finished == 0
    requires s.workers[w].tmp[0] in s.items && s.Caller(0).Idle? && s.done == []
    ensures AllEnabled(s, steps, run, unused)
    ensures var s' := After(s, steps, run, unused);
      s'.accepted == s.accepted && s'.taken == s.taken + [s.items[s.workers[w].tmp[0]].ticket]
    ensures forall i :: 0 <= i < |steps| ==> ByWorker(steps[i], {w})
  {
    var s1 := Apply(s, Process(w), run, unused);
    var s2 := Apply(s1, Splice(w), run, unused);
    Follow(s2, TakeDone(0), [], run, unused);
    Follow(s1, Splice(w), [TakeDone(0)], run, unused);
    Follow(s, Process(w), [Splice(w)] + [TakeDone(0)], run, unused);
    steps := [Process(w)] + ([Splice(w)] + [TakeDone(0)]);
  }

  // ---------------------------------------------------------------------------
  // cryptodev_release
  // ---------------------------------------------------------------------------

  /** The work is cancelled and no caller is left inside the driver. */
  predicate Quiet<K>(s: State<K>) {
    (forall w :: w in s.workers ==> s.workers[w].Asleep?) && (forall c :: c in s.callers ==> s.callers[c].Idle?)
  }

  /** Splicing the lists together frees every item once; the count differs from
      itemcount, and the driver says so, exactly by the allocations that failed. */
  lemma ReleaseFreesEverything<K(!new)>(steps: seq<Step<K>>, run: K -> (K, int), unused: K)
    requires AllEnabled(Open(unused), steps, run, unused)
    requires Quiet(After(Open(unused), steps, run, unused))
    ensures var s := After(Open(unused), steps, run, unused);
      var freed := s.free + s.todo + s.done;
      && NoRepeats(freed)
      && (forall id :: id in freed <==> id in s.items)
      && |freed| == s.itemcount - s.failed
  {
    OpenInv(run, unused);
    var s := After(Open(unused), steps, run, unused);
    var at, _ := InvAfter(Open(unused), steps, run, unused, FirstPlaces(), []);
    hide After, NoLostWakeup, RunByWorkers, Faithful, Accounted, NoRepeats, Placed, Quiet;
    ListsNameEachOnce(s, at);
    ListsNameAll(s, at);
    SeqAsSet(s.free + s.todo + s.done);
    assert s.items.Keys == AsSet(s.free + s.todo + s.done);
    assert |s.items| == |s.items.Keys|;
    NobodyReserves(s);
  }

  lemma NobodyReserves<K>(s: State<K>)
    requires Quiet(s)
    ensures ReservedCallers(s) == {}
  {
  }

  lemma ListsNameEachOnce<K(!new)>(s: State<K>, at: map<Id, Place>)
    requires Tidy(s, at)
    ensures NoRepeats(s.free + s.todo + s.done)
  {
    hide NoRepeats;
    forall id | id in s.free ensures id !in s.todo {
      assert Occupies(s, id, InFree) && !Occupies(s, id, InTodo);
    }
    ListsJoin(s.free, s.todo);
    forall id | id in s.free + s.todo ensures id !in s.done {
      assert Occupies(s, id, InFree) || Occupies(s, id, InTodo);
      assert !Occupies(s, id, InDone);
    }
    ListsJoin(s.free + s.todo, s.done);
  }

  lemma ListsNameAll<K(!new)>(s: State<K>, at: map<Id, Place>)
    requires Tidy(s, at) && Quiet(s)
    ensures forall id :: id in s.free + s.todo + s.done <==> id in s.items
  {
    hide NoRepeats;
    forall id ensures id in s.free + s.todo + s.done <==> id in s.items {
      if id in s.items {
        assert Occupies(s, id, at[id]);
      } else {
        assert !Occupies(s, id, InFree) && !Occupies(s, id, InTodo) && !Occupies(s, id, InDone);
      }
    }
  }
}
