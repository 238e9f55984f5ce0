/** A pool of workers recording into shared state under one lock, at most so many of them listing at once.
    Every step a scheduler can take is a step of this machine. */
module Workers {
  import opened Text

  /** What is to be done: the items the main loop goes through, those that get a worker, how many workers may
      hold a slot, and how a worker changes the shared state. */
  datatype Pool<!K(==), !T> = Pool(items: set<K>, works: set<K>, limit: nat, start: T, record: (K, T) -> T)

  /** Where a worker stands. Recording reads the shared state and writes it back in two steps, so that
      only the lock keeps one worker's write from undoing another's. */
  datatype Phase<T> =
    | Waiting
    | Listing
    | Answered
    | Locked
    | Loaded(copy: T)
    | Stored
    | Unlocked
    | Gone

  datatype State<!K(==), T> = State(unspawned: set<K>, skipped: set<K>, workers: map<K, Phase<T>>, slots: set<K>,
                                    lock: Option<K>, shared: T)

  // ---------- steps ----------

  function Start<K, T>(p: Pool<K, T>): State<K, T> {
    State(p.items, {}, map[], {}, None, p.start)
  }

  function SetPhase<K, T>(s: State<K, T>, k: K, phase: Phase<T>): State<K, T> {
    s.(workers := s.workers[k := phase])
  }

  /** The main loop takes the items in any order. */
  function Spawned<K, T>(p: Pool<K, T>, s: State<K, T>, k: K): State<K, T> {
    var rest := s.(unspawned := s.unspawned - {k});
    if k in p.works then SetPhase(rest, k, Waiting) else rest.(skipped := s.skipped + {k})
  }

  /** Whether nothing but the worker's own turn holds it back. */
  predicate Ready<K(!new), T(!new)>(p: Pool<K, T>, s: State<K, T>, k: K)
    requires k in s.workers
  {
    match s.workers[k]
    case Waiting => |s.slots| < p.limit
    case Answered => s.lock == None
    case Gone => false
    case _ => true
  }

  function Moved<K, T>(p: Pool<K, T>, s: State<K, T>, k: K): State<K, T>
    requires k in s.workers
  {
    match s.workers[k]
    case Waiting => SetPhase(s, k, Listing).(slots := s.slots + {k})
    case Listing => SetPhase(s, k, Answered)
    case Answered => SetPhase(s, k, Locked).(lock := Some(k))
    case Locked => SetPhase(s, k, Loaded(s.shared))
    case Loaded(copy) => SetPhase(s, k, Stored).(shared := p.record(k, copy))
    case Stored => SetPhase(s, k, Unlocked).(lock := None)
    case Unlocked => SetPhase(s, k, Gone).(slots := s.slots - {k})
    case Gone => s
  }

  ghost predicate SpawnStep<K(!new), T(!new)>(p: Pool<K, T>, s: State<K, T>, s': State<K, T>, k: K) {
    k in s.unspawned && s' == Spawned(p, s, k)
  }

  ghost predicate WorkerStep<K(!new), T(!new)>(p: Pool<K, T>, s: State<K, T>, s': State<K, T>, k: K) {
    k in s.workers && Ready(p, s, k) && s' == Moved(p, s, k)
  }

  ghost predicate Next<K(!new), T(!new)>(p: Pool<K, T>, s: State<K, T>, s': State<K, T>) {
    || (exists k :: SpawnStep(p, s, s', k))
    || (exists k :: WorkerStep(p, s, s', k))
  }

  ghost predicate IsRun<K(!new), T(!new)>(p: Pool<K, T>, run: seq<State<K, T>>) {
    run != [] && run[0] == Start(p) && forall i | 0 <= i < |run| - 1 :: Next(p, run[i], run[i + 1])
  }

  /** The main loop is done and the wait for every worker is over. */
  ghost predicate Over<K(!new), T(!new)>(s: State<K, T>) {
    s.unspawned == {} && forall k | k in s.workers :: s.workers[k].Gone?
  }

  // ---------- the invariant ----------

  predicate HoldsSlot<T>(phase: Phase<T>) {
    !phase.Waiting? && !phase.Gone?
  }

  predicate HoldsLock<T>(phase: Phase<T>) {
    phase.Locked? || phase.Loaded? || phase.Stored?
  }

  predicate HasRecorded<T>(phase: Phase<T>) {
    phase.Stored? || phase.Unlocked? || phase.Gone?
  }

  ghost function Holders<K(!new), T(!new)>(workers: map<K, Phase<T>>): set<K> {
    set k | k in workers && HoldsSlot(workers[k])
  }

  ghost function Recorded<K(!new), T(!new)>(workers: map<K, Phase<T>>): set<K> {
    set k | k in workers && HasRecorded(workers[k])
  }

  /** Every item is still to be taken, has a worker, or was skipped. */
  ghost predicate ItemsInv<K(!new), T(!new)>(p: Pool<K, T>, s: State<K, T>) {
    && s.unspawned <= p.items
    && s.workers.Keys == (p.items - s.unspawned) * p.works
    && s.skipped == p.items - s.unspawned - p.works
  }

  ghost predicate SlotsInv<K(!new), T(!new)>(p: Pool<K, T>, s: State<K, T>) {
    s.slots == Holders(s.workers) && |s.slots| <= p.limit
  }

  /** The lock has one holder, and what that holder copied is still what is there. */
  ghost predicate LockInv<K(!new), T(!new)>(s: State<K, T>) {
    && (forall k | k in s.workers :: HoldsLock(s.workers[k]) <==> s.lock == Some(k))
    && (s.lock.Some? ==> s.lock.value in s.workers)
    && (forall k | k in s.workers && s.workers[k].Loaded? :: s.workers[k].copy == s.shared)
  }

  /** The records made one after the other. */
  function InTurn<K, T>(p: Pool<K, T>, order: seq<K>): T {
    if order == [] then p.start else p.record(order[|order| - 1], InTurn(p, order[..|order| - 1]))
  }

  ghost predicate ListsOnce<K(!new)>(order: seq<K>, items: set<K>) {
    (forall k :: k in order <==> k in items) && (forall i, j | 0 <= i < j < |order| :: order[i] != order[j])
  }

  /** The shared state is what the workers that have recorded left, one after the other, in some order. */
  ghost predicate SharedInv<K(!new), T(!new)>(p: Pool<K, T>, s: State<K, T>) {
    exists order :: ListsOnce(order, Recorded(s.workers)) && s.shared == InTurn(p, order)
  }

  ghost predicate Inv<K(!new), T(!new)>(p: Pool<K, T>, s: State<K, T>) {
    ItemsInv(p, s) && SlotsInv(p, s) && LockInv(s) && SharedInv(p, s)
  }

  lemma StartInv<K(!new), T(!new)>(p: Pool<K, T>)
    ensures Inv(p, Start(p))
  {
    var none: seq<K> := [];
    assert ListsOnce(none, Recorded(Start(p).workers)) && p.start == InTurn(p, none);
  }

  lemma HoldersChange<K(!new), T(!new)>(workers: map<K, Phase<T>>, k: K, phase: Phase<T>)
    ensures Holders(workers[k := phase]) == if HoldsSlot(phase) then Holders(workers) + {k} else Holders(workers) - {k}
    ensures Recorded(workers[k := phase]) ==
            if HasRecorded(phase) then Recorded(workers) + {k} else Recorded(workers) - {k}
    ensures k in workers ==> (k in Holders(workers) <==> HoldsSlot(workers[k]))
    ensures k in workers ==> (k in Recorded(workers) <==> HasRecorded(workers[k]))
    ensures k !in workers ==> k !in Holders(workers) && k !in Recorded(workers)
  {
  }

  lemma SpawnKeepsInv<K(!new), T(!new)>(p: Pool<K, T>, s: State<K, T>, s': State<K, T>, k: K)
    requires Inv(p, s) && SpawnStep(p, s, s', k)
    ensures Inv(p, s')
  {
    hide ItemsInv, SlotsInv, LockInv, SharedInv, Spawned;
    SpawnKeepsItems(p, s, s', k);
    SpawnKeepsHolders(p, s, s', k);
    SpawnKeepsLock(p, s, s', k);
    SharedStays(p, s, s');
  }

  lemma SpawnKeepsItems<K(!new), T(!new)>(p: Pool<K, T>, s: State<K, T>, s': State<K, T>, k: K)
    requires ItemsInv(p, s) && SpawnStep(p, s, s', k)
    ensures ItemsInv(p, s') && k !in s.workers
  {
    assert k !in s.workers;
    assert s'.workers.Keys == if k in p.works then s.workers.Keys + {k} else s.workers.Keys;
    assert p.items - s'.unspawned == (p.items - s.unspawned) + {k};
  }

  lemma SpawnKeepsHolders<K(!new), T(!new)>(p: Pool<K, T>, s: State<K, T>, s': State<K, T>, k: K)
    requires SlotsInv(p, s) && SpawnStep(p, s, s', k) && k !in s.workers
    ensures SlotsInv(p, s') && Recorded(s'.workers) == Recorded(s.workers) && s'.shared == s.shared
  {
    hide Holders, Recorded;
    HoldersChange(s.workers, k, Waiting);
    assert Holders(s'.workers) == Holders(s.workers) && Recorded(s'.workers) == Recorded(s.workers);
  }

  lemma SpawnKeepsLock<K(!new), T(!new)>(p: Pool<K, T>, s: State<K, T>, s': State<K, T>, k: K)
    requires LockInv(s) && SpawnStep(p, s, s', k) && k !in s.workers
    ensures LockInv(s')
  {
  }

  lemma SharedStays<K(!new), T(!new)>(p: Pool<K, T>, s: State<K, T>, s': State<K, T>)
    requires SharedInv(p, s) && s'.shared == s.shared && Recorded(s'.workers) == Recorded(s.workers)
    ensures SharedInv(p, s')
  {
    hide ListsOnce, Recorded;
  }

  /** A slot is taken with room to spare, kept through the listing and the recording, and given back. */
  lemma WorkerKeepsSlots<K(!new), T(!new)>(p: Pool<K, T>, s: State<K, T>, s': State<K, T>, k: K)
    requires SlotsInv(p, s) && WorkerStep(p, s, s', k)
    ensures SlotsInv(p, s')
  {
    hide Holders;
    HoldersChange(s.workers, k, s'.workers[k]);
    var holders := Holders(s.workers);
    if k in holders && HoldsSlot(s'.workers[k]) {
      assert holders + {k} == holders;
    }
  }

  lemma WorkerKeepsLock<K(!new), T(!new)>(p: Pool<K, T>, s: State<K, T>, s': State<K, T>, k: K)
    requires LockInv(s) && WorkerStep(p, s, s', k)
    ensures LockInv(s')
  {
  }

  lemma OneMore<K(!new)>(order: seq<K>, items: set<K>, k: K)
    requires ListsOnce(order, items) && k !in items
    ensures ListsOnce(order + [k], items + {k})
  {
    forall j
      ensures j in order + [k] <==> j in items + {k}
    {
      assert j in order + [k] <==> j in order || j == k;
    }
  }

  lemma WorkerKeepsShared<K(!new), T(!new)>(p: Pool<K, T>, s: State<K, T>, s': State<K, T>, k: K)
    requires SharedInv(p, s) && LockInv(s) && WorkerStep(p, s, s', k)
    ensures SharedInv(p, s')
  {
    hide ListsOnce, Recorded;
    HoldersChange(s.workers, k, s'.workers[k]);
    var order :| ListsOnce(order, Recorded(s.workers)) && s.shared == InTurn(p, order);
    if s.workers[k].Loaded? {
      OneMore(order, Recorded(s.workers), k);
      assert (order + [k])[..|order|] == order;
      assert s'.shared == InTurn(p, order + [k]);
    } else {
      assert Recorded(s'.workers) == Recorded(s.workers);
    }
  }

  lemma WorkerKeepsItems<K(!new), T(!new)>(p: Pool<K, T>, s: State<K, T>, s': State<K, T>, k: K)
    requires ItemsInv(p, s) && WorkerStep(p, s, s', k)
    ensures ItemsInv(p, s')
  {
    assert s'.workers.Keys == s.workers.Keys;
  }

  lemma StepKeepsInv<K(!new), T(!new)>(p: Pool<K, T>, s: State<K, T>, s': State<K, T>)
    requires Inv(p, s) && Next(p, s, s')
    ensures Inv(p, s')
  {
    hide SpawnStep, WorkerStep, ItemsInv, SlotsInv, LockInv, SharedInv;
    if k :| SpawnStep(p, s, s', k) {
      SpawnKeepsInv(p, s, s', k);
    } else {
      var k :| WorkerStep(p, s, s', k);
      WorkerKeepsItems(p, s, s', k);
      WorkerKeepsSlots(p, s, s', k);
      WorkerKeepsLock(p, s, s', k);
      WorkerKeepsShared(p, s, s', k);
    }
  }

  lemma {:induction false} RunKeepsInv<K(!new), T(!new)>(p: Pool<K, T>, run: seq<State<K, T>>, i: nat)
    requires IsRun(p, run) && i < |run|
    ensures Inv(p, run[i])
  {
    hide Inv, Next;
    if i == 0 {
      StartInv(p);
    } else {
      RunKeepsInv(p, run, i - 1);
      StepKeepsInv(p, run[i - 1], run[i]);
    }
  }

  // ---------- what every run promises ----------

  /** At no point of any run do more workers hold a slot than the limit, or two hold the lock. */
  lemma LimitIsKept<K(!new), T(!new)>(p: Pool<K, T>, run: seq<State<K, T>>, i: nat)
    requires IsRun(p, run) && i < |run|
    ensures |Holders(run[i].workers)| <= p.limit
    ensures forall j, k | j in run[i].workers && k in run[i].workers &&
                          HoldsLock(run[i].workers[j]) && HoldsLock(run[i].workers[k]) :: j == k
  {
    hide IsRun;
    RunKeepsInv(p, run, i);
  }

  ghost predicate RunsToEnd<K(!new), T(!new)>(p: Pool<K, T>, run: seq<State<K, T>>) {
    IsRun(p, run) && Over(run[|run| - 1])
  }

  /** Whatever the interleaving, a run that is over has each worker's record once, whole, in some order. */
  lemma EveryRecordOnce<K(!new), T(!new)>(p: Pool<K, T>, run: seq<State<K, T>>) returns (order: seq<K>)
    requires RunsToEnd(p, run)
    ensures ListsOnce(order, p.items * p.works)
    ensures run[|run| - 1].shared == InTurn(p, order) && run[|run| - 1].skipped == p.items - p.works
  {
    hide ListsOnce, Next, Start, SlotsInv, LockInv;
    var s := run[|run| - 1];
    RunKeepsInv(p, run, |run| - 1);
    order :| ListsOnce(order, Recorded(s.workers)) && s.shared == InTurn(p, order);
    assert Recorded(s.workers) == p.items * p.works;
  }

  // ---------- no run gets stuck, and none goes on for ever ----------

  /** Until it is over some step is always possible. */
  lemma SomeStepIsPossible<K(!new), T(!new)>(p: Pool<K, T>, s: State<K, T>) returns (s': State<K, T>)
    requires Inv(p, s) && p.limit > 0 && !Over(s)
    ensures Next(p, s, s')
  {
    hide InTurn, ListsOnce, Recorded;
    if k :| k in s.unspawned {
      s' := Spawned(p, s, k);
      assert SpawnStep(p, s, s', k);
    } else {
      var k := Mover(p, s);
      s' := Moved(p, s, k);
      assert WorkerStep(p, s, s', k);
    }
  }

  /** A worker nothing blocks: the lock's holder if there is one, else one holding a slot, else any. */
  lemma Mover<K(!new), T(!new)>(p: Pool<K, T>, s: State<K, T>) returns (k: K)
    requires SlotsInv(p, s) && LockInv(s) && p.limit > 0 && s.unspawned == {} && !Over(s)
    ensures k in s.workers && Ready(p, s, k)
  {
    if s.lock.Some? {
      k := s.lock.value;
    } else if j :| j in s.slots {
      k := j;
    } else {
      k :| k in s.workers && !s.workers[k].Gone?;
      assert s.slots == {};
    }
  }

  function Left<T>(phase: Phase<T>): nat {
    match phase
    case Waiting => 7
    case Listing => 6
    case Answered => 5
    case Locked => 4
    case Loaded(_) => 3
    case Stored => 2
    case Unlocked => 1
    case Gone => 0
  }

  ghost function Work<K(!new), T(!new)>(workers: map<K, Phase<T>>, items: set<K>): nat
    requires items <= workers.Keys
  {
    if items == {} then 0
    else
      var k :| k in items;
      Left(workers[k]) + Work(workers, items - {k})
  }

  ghost function Remaining<K(!new), T(!new)>(s: State<K, T>): nat {
    8 * |s.unspawned| + Work(s.workers, s.workers.Keys)
  }

  lemma {:induction false} WorkSplits<K(!new), T(!new)>(workers: map<K, Phase<T>>, items: set<K>, k: K)
    requires k in items && items <= workers.Keys
    ensures Work(workers, items) == Left(workers[k]) + Work(workers, items - {k})
    decreases |items|
  {
    var j :| j in items && Work(workers, items) == Left(workers[j]) + Work(workers, items - {j});
    if j != k {
      WorkSplits(workers, items - {j}, k);
      WorkSplits(workers, items - {k}, j);
      assert items - {j} - {k} == items - {k} - {j};
    }
  }

  lemma {:induction false} WorkUnchanged<K(!new), T(!new)>(workers: map<K, Phase<T>>, workers': map<K, Phase<T>>,
                                                           items: set<K>)
    requires items <= workers.Keys && items <= workers'.Keys
    requires forall k | k in items :: workers[k] == workers'[k]
    ensures Work(workers, items) == Work(workers', items)
    decreases |items|
  {
    if items != {} {
      var k :| k in items;
      WorkSplits(workers, items, k);
      WorkSplits(workers', items, k);
      WorkUnchanged(workers, workers', items - {k});
    }
  }

  lemma SpawnIsProgress<K(!new), T(!new)>(p: Pool<K, T>, s: State<K, T>, s': State<K, T>, k: K)
    requires ItemsInv(p, s) && SpawnStep(p, s, s', k)
    ensures Remaining(s') < Remaining(s)
  {
    if k in p.works {
      assert k !in s.workers;
      WorkSplits(s'.workers, s'.workers.Keys, k);
      assert s'.workers.Keys - {k} == s.workers.Keys;
      WorkUnchanged(s.workers, s'.workers, s.workers.Keys);
    }
  }

  lemma WorkerIsProgress<K(!new), T(!new)>(p: Pool<K, T>, s: State<K, T>, s': State<K, T>, k: K)
    requires WorkerStep(p, s, s', k)
    ensures Remaining(s') < Remaining(s)
  {
    hide Work;
    assert s'.workers.Keys == s.workers.Keys;
    WorkSplits(s.workers, s.workers.Keys, k);
    WorkSplits(s'.workers, s'.workers.Keys, k);
    WorkUnchanged(s.workers, s'.workers, s.workers.Keys - {k});
    assert Left(s'.workers[k]) < Left(s.workers[k]);
  }

  /** Every step uses up some of the remaining work. */
  lemma EveryStepIsProgress<K(!new), T(!new)>(p: Pool<K, T>, s: State<K, T>, s': State<K, T>)
    requires Inv(p, s) && Next(p, s, s')
    ensures Remaining(s') < Remaining(s)
  {
    hide SpawnStep, WorkerStep, ItemsInv, SlotsInv, LockInv, SharedInv, Remaining;
    if k :| SpawnStep(p, s, s', k) {
      SpawnIsProgress(p, s, s', k);
    } else {
      var k :| WorkerStep(p, s, s', k);
      WorkerIsProgress(p, s, s', k);
    }
  }

  /** So no run takes more than eight steps an item. */
  lemma {:induction false} RunsAreShort<K(!new), T(!new)>(p: Pool<K, T>, run: seq<State<K, T>>, i: nat)
    requires IsRun(p, run) && i < |run|
    ensures i + Remaining(run[i]) <= 8 * |p.items|
  {
    hide Inv, Remaining, Next;
    if i == 0 {
      StartRemaining(p);
    } else {
      RunsAreShort(p, run, i - 1);
      RunKeepsInv(p, run, i - 1);
      EveryStepIsProgress(p, run[i - 1], run[i]);
    }
  }

  lemma StartRemaining<K(!new), T(!new)>(p: Pool<K, T>)
    ensures Remaining(Start(p)) == 8 * |p.items|
  {
  }

  /** Any run so far can be carried on until it is over. */
  lemma {:induction false} RunCanFinish<K(!new), T(!new)>(p: Pool<K, T>, run: seq<State<K, T>>)
    returns (full: seq<State<K, T>>)
    requires IsRun(p, run) && p.limit > 0
    ensures run <= full && RunsToEnd(p, full)
    decreases Remaining(run[|run| - 1])
  {
    hide Inv, Next, Remaining;
    var last := run[|run| - 1];
    if Over(last) {
      full := run;
    } else {
      RunKeepsInv(p, run, |run| - 1);
      var next := SomeStepIsPossible(p, last);
      EveryStepIsProgress(p, last, next);
      full := RunCanFinish(p, run + [next]);
    }
  }

  // ---------- every order can happen ----------

  lemma Advance<K(!new), T(!new)>(p: Pool<K, T>, run: seq<State<K, T>>, k: K) returns (more: seq<State<K, T>>)
    requires IsRun(p, run) && k in run[|run| - 1].workers && Ready(p, run[|run| - 1], k)
    ensures IsRun(p, more) && more[|more| - 1] == Moved(p, run[|run| - 1], k)
  {
    hide Moved, Ready, Start;
    more := run + [Moved(p, run[|run| - 1], k)];
    assert WorkerStep(p, run[|run| - 1], more[|run|], k);
  }

  /** Nobody is at work: the workers in `done` are gone and the others have not begun. */
  ghost predicate Quiet<K(!new), T(!new)>(s: State<K, T>, done: set<K>) {
    && s.slots == {} && s.lock == None
    && forall k | k in s.workers :: s.workers[k] == if k in done then Gone else Waiting
  }

  /** One worker goes from start to end undisturbed. */
  lemma RunOne<K(!new), T(!new)>(p: Pool<K, T>, run: seq<State<K, T>>, k: K, done: set<K>)
    returns (more: seq<State<K, T>>)
    requires IsRun(p, run) && p.limit > 0
    requires Quiet(run[|run| - 1], done) && k in run[|run| - 1].workers && k !in done
    ensures IsRun(p, more) && Quiet(more[|more| - 1], done + {k})
    ensures more[|more| - 1].shared == p.record(k, run[|run| - 1].shared)
    ensures more[|more| - 1].workers.Keys == run[|run| - 1].workers.Keys
    ensures more[|more| - 1].unspawned == run[|run| - 1].unspawned
  {
    hide Next, Start, Spawned;
    var s := run[|run| - 1];
    more := Advance(p, run, k);
    more := Advance(p, more, k);
    more := Advance(p, more, k);
    more := Advance(p, more, k);
    more := Advance(p, more, k);
    more := Advance(p, more, k);
    more := Advance(p, more, k);
    assert more[|more| - 1].workers == s.workers[k := Gone];
    assert more[|more| - 1].slots == {};
  }

  lemma {:induction false} SpawnAll<K(!new), T(!new)>(p: Pool<K, T>, run: seq<State<K, T>>)
    returns (more: seq<State<K, T>>)
    requires IsRun(p, run) && Quiet(run[|run| - 1], {}) && run[|run| - 1].shared == p.start
    ensures IsRun(p, more) && Quiet(more[|more| - 1], {}) && more[|more| - 1].shared == p.start
    ensures more[|more| - 1].unspawned == {}
    decreases |run[|run| - 1].unspawned|
  {
    hide Start;
    var s := run[|run| - 1];
    if k :| k in s.unspawned {
      var s' := Spawned(p, s, k);
      assert SpawnStep(p, s, s', k);
      more := SpawnAll(p, run + [s']);
    } else {
      more := run;
    }
  }

  /** The workers can record in any order at all. */
  lemma EveryOrderCanHappen<K(!new), T(!new)>(p: Pool<K, T>, order: seq<K>) returns (run: seq<State<K, T>>)
    requires p.limit > 0 && ListsOnce(order, p.items * p.works)
    ensures RunsToEnd(p, run) && run[|run| - 1].shared == InTurn(p, order)
  {
    hide Next;
    var start := SpawnAll(p, [Start(p)]);
    RunKeepsInv(p, start, |start| - 1);
    run := RunInTurn(p, start, order);
  }

  lemma {:induction false} RunInTurn<K(!new), T(!new)>(p: Pool<K, T>, start: seq<State<K, T>>, order: seq<K>)
    returns (run: seq<State<K, T>>)
    requires IsRun(p, start) && p.limit > 0 && start[|start| - 1].unspawned == {}
    requires Quiet(start[|start| - 1], {}) && start[|start| - 1].shared == p.start
    requires forall k | k in order :: k in start[|start| - 1].workers
    requires forall i, j | 0 <= i < j < |order| :: order[i] != order[j]
    ensures IsRun(p, run) && run[|run| - 1].unspawned == {}
    ensures run[|run| - 1].workers.Keys == start[|start| - 1].workers.Keys
    ensures Quiet(run[|run| - 1], set k | k in order) && run[|run| - 1].shared == InTurn(p, order)
    decreases |order|
  {
    hide Next, Start, Spawned;
    if order == [] {
      run := start;
    } else {
      var front, k := order[..|order| - 1], order[|order| - 1];
      assert k in order && forall j | j in front :: j in order;
      run := RunInTurn(p, start, front);
      run := RunOne(p, run, k, set j | j in front);
      assert (set j | j in order) == (set j | j in front) + {k};
    }
  }
}
