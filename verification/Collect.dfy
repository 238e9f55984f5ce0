/** The concurrent collector: one worker per wanted kind that is served, at most four listing at once, all
    recording into shared maps under one lock. */
module Collect {
  import opened Text
  import opened Sorting
  import opened Workers
  import opened Inventory

  const LIMIT := 4

  datatype Listed = Rows(rows: seq<Row>) | Failed(reason: string)

  /** What one collection is asked for, and how the cluster will answer. */
  datatype Job = Job(start: Inventory, wanted: set<string>, served: set<string>, answer: string -> Listed,
                     collector: string, what: string)
  {
    predicate Reads(kind: string) {
      kind in wanted && kind in served && answer(kind).Rows?
    }

    predicate Fails(kind: string) {
      kind in wanted && kind in served && answer(kind).Failed?
    }
  }

  /** The maps and counters the workers share. */
  datatype Shared = Shared(crs: map<string, seq<Row>>, unread: map<string, string>, failures: seq<string>, read: nat)

  // ---------- the workers ----------

  function Record(job: Job, kind: string, shared: Shared): Shared {
    match job.answer(kind)
    case Failed(reason) => shared.(unread := shared.unread[kind := reason], failures := shared.failures + [kind])
    case Rows(rows) => shared.(crs := shared.crs[kind := rows], read := shared.read + 1)
  }

  function PoolOf(job: Job): Pool<string, Shared> {
    Pool(job.wanted, job.served, LIMIT, Shared(job.start.crs, job.start.crUnread, [], 0),
         (kind, shared) => Record(job, kind, shared))
  }

  function Line(job: Job, kind: string): string {
    kind + " (" + (if job.answer(kind).Failed? then job.answer(kind).reason else "") + ")"
  }

  function Lines(job: Job, kinds: seq<string>): seq<string> {
    Mapped(kinds, kind => Line(job, kind))
  }

  function Classify(job: Job, failures: seq<string>, read: nat): CollectionState {
    var reasons := Join(SortTexts(Lines(job, failures)), ", ");
    if failures == [] then CollectionState(true, false, "")
    else if read == 0 then CollectionState(false, false, "no " + job.what + " could be read: " + reasons)
    else CollectionState(true, true, "some " + job.what + " could not be read: " + reasons)
  }

  /** The inventory once every worker is done and the outcome is written. */
  function Result(job: Job, s: State<string, Shared>): Inventory {
    job.start.(crs := s.shared.crs, crUnread := s.shared.unread, crNotServed := job.start.crNotServed + s.skipped,
               collected := job.start.collected[job.collector := Classify(job, s.shared.failures, s.shared.read)])
  }

  // ---------- what the records come to ----------

  ghost predicate Distinct(xs: seq<string>) {
    forall i, j | 0 <= i < j < |xs| :: xs[i] != xs[j]
  }

  function RowsFrom(job: Job, done: set<string>): map<string, seq<Row>> {
    map k | k in done && job.answer(k).Rows? :: job.answer(k).rows
  }

  function ReasonsFrom(job: Job, done: set<string>): map<string, string> {
    map k | k in done && job.answer(k).Failed? :: job.answer(k).reason
  }

  ghost predicate HoldsRows(job: Job, done: set<string>, crs: map<string, seq<Row>>) {
    crs == job.start.crs + RowsFrom(job, done)
  }

  ghost predicate HoldsUnread(job: Job, done: set<string>, unread: map<string, string>) {
    unread == job.start.crUnread + ReasonsFrom(job, done)
  }

  ghost predicate HoldsFailures(job: Job, done: set<string>, failures: seq<string>) {
    Distinct(failures) && forall k :: k in failures <==> k in done && job.answer(k).Failed?
  }

  ghost predicate HoldsRead(job: Job, done: set<string>, read: nat) {
    read == |set k | k in done && job.answer(k).Rows?|
  }

  /** The shared state is the start plus one record for each kind in `done`, in some order. */
  ghost predicate Holds(job: Job, done: set<string>, shared: Shared) {
    && HoldsRows(job, done, shared.crs)
    && HoldsUnread(job, done, shared.unread)
    && HoldsFailures(job, done, shared.failures)
    && HoldsRead(job, done, shared.read)
  }

  lemma RowsGrow(job: Job, done: set<string>, kind: string)
    ensures RowsFrom(job, done + {kind}) ==
            if job.answer(kind).Rows? then RowsFrom(job, done)[kind := job.answer(kind).rows] else RowsFrom(job, done)
  {
  }

  lemma ReasonsGrow(job: Job, done: set<string>, kind: string)
    ensures ReasonsFrom(job, done + {kind}) ==
            if job.answer(kind).Failed? then ReasonsFrom(job,
                done)[kind := job.answer(kind).reason] else ReasonsFrom(job, done)
  {
  }

  lemma UpdateUnion<K, V>(a: map<K, V>, b: map<K, V>, k: K, v: V)
    ensures (a + b)[k := v] == a + b[k := v]
  {
  }

  lemma RecordHoldsMaps(job: Job, done: set<string>, kind: string, shared: Shared)
    requires HoldsRows(job, done, shared.crs) && HoldsUnread(job, done, shared.unread)
    ensures var after := Record(job, kind, shared);
            HoldsRows(job, done + {kind}, after.crs) && HoldsUnread(job, done + {kind}, after.unread)
  {
    hide RowsFrom, ReasonsFrom;
    RowsGrow(job, done, kind);
    ReasonsGrow(job, done, kind);
    match job.answer(kind)
    case Rows(rows) => UpdateUnion(job.start.crs, RowsFrom(job, done), kind, rows);
    case Failed(reason) => UpdateUnion(job.start.crUnread, ReasonsFrom(job, done), kind, reason);
  }

  lemma RecordHoldsFailures(job: Job, done: set<string>, kind: string, failures: seq<string>)
    requires HoldsFailures(job, done, failures) && kind !in done
    ensures HoldsFailures(job, done + {kind}, if job.answer(kind).Failed? then failures + [kind] else failures)
  {
    assert forall k :: k in failures + [kind] <==> k in failures || k == kind;
  }

  lemma RecordHoldsRead(job: Job, done: set<string>, kind: string, read: nat)
    requires HoldsRead(job, done, read) && kind !in done
    ensures HoldsRead(job, done + {kind}, if job.answer(kind).Rows? then read + 1 else read)
  {
    var before := set k | k in done && job.answer(k).Rows?;
    var after := set k | k in done + {kind} && job.answer(k).Rows?;
    assert after == if job.answer(kind).Rows? then before + {kind} else before;
  }

  lemma RecordHolds(job: Job, done: set<string>, kind: string, shared: Shared)
    requires Holds(job, done, shared) && kind !in done
    ensures Holds(job, done + {kind}, Record(job, kind, shared))
  {
    RecordHoldsMaps(job, done, kind, shared);
    RecordHoldsFailures(job, done, kind, shared.failures);
    RecordHoldsRead(job, done, kind, shared.read);
    hide HoldsRows, HoldsUnread, HoldsFailures, HoldsRead;
  }

  /** The records made one after the other, in any order, are the records of those kinds. */
  lemma {:induction false} InTurnHolds(job: Job, order: seq<string>)
    requires Distinct(order)
    ensures Holds(job, (set k | k in order), InTurn(PoolOf(job), order))
  {
    hide Holds, Record;
    if order == [] {
      NothingHolds(job);
      assert (set k | k in order) == {};
    } else {
      var front, last := order[..|order| - 1], order[|order| - 1];
      InTurnHolds(job, front);
      RecordHolds(job, (set k | k in front), last, InTurn(PoolOf(job), front));
      assert (set k | k in order) == (set k | k in front) + {last};
    }
  }

  lemma NothingHolds(job: Job)
    ensures Holds(job, {}, PoolOf(job).start)
  {
  }

  // ---------- what every run promises ----------

  /** What the collection should come to, with no scheduling in it. */
  ghost function Expected(job: Job): Inventory {
    var failed := set k | k in job.wanted && job.Fails(k);
    var read := set k | k in job.wanted && job.Reads(k);
    job.start.(
      crs := job.start.crs + (map k | k in job.wanted && job.Reads(k) :: job.answer(k).rows),
      crUnread := job.start.crUnread + (map k | k in job.wanted && job.Fails(k) :: job.answer(k).reason),
      crNotServed := job.start.crNotServed + (job.wanted - job.served),
      collected := job.start.collected[job.collector := Classify(job, Sorting.Listing(failed), |read|)])
  }

  lemma ClassifyForgetsOrder(job: Job, a: seq<string>, b: seq<string>, read: nat)
    requires multiset(a) == multiset(b)
    ensures Classify(job, a, read) == Classify(job, b, read)
  {
    hide SortTexts;
    MappedForgetsOrder(a, b, kind => Line(job, kind));
    SortTextsForgetsOrder(Lines(job, a), Lines(job, b));
    assert |a| == |multiset(a)| == |multiset(b)| == |b|;
  }

  lemma FinishedMaps(job: Job, shared: Shared)
    requires Holds(job, job.wanted * job.served, shared)
    ensures shared.crs == Expected(job).crs && shared.unread == Expected(job).crUnread
  {
    hide Classify, HoldsFailures, HoldsRead;
    var done := job.wanted * job.served;
    assert RowsFrom(job, done) == map k | k in job.wanted && job.Reads(k) :: job.answer(k).rows;
    assert ReasonsFrom(job, done) == map k | k in job.wanted && job.Fails(k) :: job.answer(k).reason;
  }

  lemma FinishedOutcome(job: Job, shared: Shared)
    requires Holds(job, job.wanted * job.served, shared)
    ensures Classify(job, shared.failures, shared.read) == Expected(job).collected[job.collector]
  {
    hide Classify, HoldsRows, HoldsUnread;
    var failed := set k | k in job.wanted && job.Fails(k);
    var read := set k | k in job.wanted && job.Reads(k);
    assert read == set k | k in job.wanted * job.served && job.answer(k).Rows?;
    MultisetOfDistinct(shared.failures, failed);
    MultisetOfDistinct(Sorting.Listing(failed), failed);
    ClassifyForgetsOrder(job, shared.failures, Sorting.Listing(failed), |read|);
  }

  /** Every interleaving ends in the same inventory. */
  lemma EveryRunEndsTheSame(job: Job, run: seq<State<string, Shared>>)
    requires RunsToEnd(PoolOf(job), run)
    ensures Result(job, run[|run| - 1]) == Expected(job)
  {
    hide Classify, Holds, Next, Start, Expected, InTurn, Over;
    var s := run[|run| - 1];
    var order := EveryRecordOnce(PoolOf(job), run);
    InTurnHolds(job, order);
    assert (set k | k in order) == job.wanted * job.served;
    FinishedMaps(job, s.shared);
    FinishedOutcome(job, s.shared);
    ResultIs(job, s);
  }

  lemma ResultIs(job: Job, s: State<string, Shared>)
    requires s.shared.crs == Expected(job).crs && s.shared.unread == Expected(job).crUnread
    requires s.skipped == job.wanted - job.served
    requires Classify(job, s.shared.failures, s.shared.read) == Expected(job).collected[job.collector]
    ensures Result(job, s) == Expected(job)
  {
    hide Classify;
  }

  /** At no point of any run do more than four workers list. */
  lemma NeverMoreThanFour(job: Job, run: seq<State<string, Shared>>, i: nat)
    requires IsRun(PoolOf(job), run) && i < |run|
    ensures |Holders(run[i].workers)| <= 4
  {
    hide IsRun, Holders;
    LimitIsKept(PoolOf(job), run, i);
  }

  ghost predicate SomeReads(job: Job) {
    exists k | k in job.wanted :: job.Reads(k)
  }

  ghost predicate SomeFails(job: Job) {
    exists k | k in job.wanted :: job.Fails(k)
  }

  /** What the collection comes to for any one kind. */
  lemma ExpectedAt(job: Job, kind: string)
    ensures var end := Expected(job);
            && (kind in end.crs <==> job.Reads(kind) || kind in job.start.crs)
            && (kind in end.crs ==>
                  end.crs[kind] == if job.Reads(kind) then job.answer(kind).rows else job.start.crs[kind])
            && (kind in end.crUnread <==> job.Fails(kind) || kind in job.start.crUnread)
            && (kind in end.crUnread ==>
                  end.crUnread[kind] == if job.Fails(kind) then job.answer(kind).reason else job.start.crUnread[kind])
            && (kind in end.crNotServed <==>
                (kind in job.wanted && kind !in job.served) || kind in job.start.crNotServed)
  {
    hide Classify;
    var read := map k | k in job.wanted && job.Reads(k) :: job.answer(k).rows;
    var failed := map k | k in job.wanted && job.Fails(k) :: job.answer(k).reason;
    MergedAt(job.start.crs, read, kind);
    MergedAt(job.start.crUnread, failed, kind);
  }

  lemma MergedAt<K, V>(a: map<K, V>, b: map<K, V>, k: K)
    ensures k in a + b <==> k in a || k in b
    ensures k in a + b ==> (a + b)[k] == if k in b then b[k] else a[k]
  {
  }

  ghost predicate InOnePlace(inv: Inventory, kind: string) {
    && (kind in inv.crs || kind in inv.crUnread || kind in inv.crNotServed)
    && !(kind in inv.crs && kind in inv.crUnread)
    && !(kind in inv.crs && kind in inv.crNotServed)
    && !(kind in inv.crUnread && kind in inv.crNotServed)
  }

  /** Whatever an earlier collector recorded about the kind, this one comes to the same. */
  predicate EarlierAgrees(job: Job, kind: string) {
    && (kind in job.start.crs ==> job.Reads(kind))
    && (kind in job.start.crUnread ==> job.Fails(kind))
    && (kind in job.start.crNotServed ==> kind !in job.served)
  }

  /** Where each wanted kind ends, beside what an earlier collector recorded; it ends in one place exactly
      when the earlier record agrees with this read. */
  lemma EachKindInOnePlace(job: Job, kind: string)
    requires kind in job.wanted
    ensures var end := Expected(job);
            && (kind in end.crs <==> job.Reads(kind) || kind in job.start.crs)
            && (kind in end.crUnread <==> job.Fails(kind) || kind in job.start.crUnread)
            && (kind in end.crNotServed <==> kind !in job.served || kind in job.start.crNotServed)
            && (job.Reads(kind) ==> end.crs[kind] == job.answer(kind).rows)
            && (job.Fails(kind) ==> end.crUnread[kind] == job.answer(kind).reason)
            && (InOnePlace(end, kind) <==> EarlierAgrees(job, kind))
  {
    hide Expected;
    ExpectedAt(job, kind);
  }

  /** As it does not when the first collector was refused a kind and the second was not. */
  lemma AKindInTwoPlaces()
    ensures var start := Inventory(map[], [], [], [], [], map[], map["Service" := "forbidden"], {});
            var job := Job(start, {"Service"}, {"Service"}, _ => Rows([]), "rule objects", "objects");
            var end := Expected(job);
            "Service" in end.crs && "Service" in end.crUnread && !InOnePlace(end, "Service")
  {
    hide Expected;
    var start := Inventory(map[], [], [], [], [], map[], map["Service" := "forbidden"], {});
    var job := Job(start, {"Service"}, {"Service"}, _ => Rows([]), "rule objects", "objects");
    ExpectedAt(job, "Service");
  }

  /** The collector's own state says whether all, some or none of the served kinds could be read. */
  lemma StateSaysHowMany(job: Job)
    ensures var state := Expected(job).collected[job.collector];
            && (state.ok && !state.partial <==> !SomeFails(job))
            && (state.partial <==> SomeFails(job) && SomeReads(job))
            && (!state.ok <==> SomeFails(job) && !SomeReads(job))
  {
    var failed := set k | k in job.wanted && job.Fails(k);
    var read := set k | k in job.wanted && job.Reads(k);
    assert Sorting.Listing(failed) == [] <==> failed == {} by {
      if Sorting.Listing(failed) != [] {
        assert Sorting.Listing(failed)[0] in failed;
      }
    }
    assert failed == {} <==> !SomeFails(job) by {
      if k :| k in job.wanted && job.Fails(k) {
        assert k in failed;
      }
    }
    assert |read| == 0 <==> forall k | k in job.wanted :: !job.Reads(k) by {
      if k :| k in job.wanted && job.Reads(k) {
        assert k in read;
      }
    }
  }

  // ---------- one collection ----------

  function DiscoveryReason(job: Job): string {
    "the cluster's list of API resources could not be read, so " + job.what + " were not collected"
  }

  /** With no list of resources nothing is collected, and every wanted kind says so. */
  function Undiscovered(job: Job): Inventory {
    job.start.(crUnread := job.start.crUnread + (map k | k in job.wanted :: DiscoveryReason(job)),
               collected := job.start.collected[job.collector := CollectionState(false, false, DiscoveryReason(job))])
  }

  /** The wanted kinds are marked in any order. */
  method FailDiscovery(job: Job) returns (inv: Inventory)
    ensures inv == Undiscovered(job)
  {
    var unread, rest := job.start.crUnread, job.wanted;
    while rest != {}
      invariant rest <= job.wanted
      invariant unread == job.start.crUnread + (map k | k in job.wanted - rest :: DiscoveryReason(job))
      decreases rest
    {
      var kind :| kind in rest;
      unread, rest := unread[kind := DiscoveryReason(job)], rest - {kind};
    }
    assert job.wanted - rest == job.wanted;
    inv := job.start.(crUnread := unread, collected :=
      job.start.collected[job.collector := CollectionState(false, false, DiscoveryReason(job))]);
  }

  /** What one collection may leave behind: nothing new when nothing is wanted, a gap for every wanted kind
      when discovery failed, and otherwise the end of some run. */
  ghost predicate Collects(job: Job, discovered: bool, end: Inventory) {
    if job.wanted == {} then end == job.start
    else if !discovered then end == Undiscovered(job)
    else exists run | RunsToEnd(PoolOf(job), run) :: end == Result(job, run[|run| - 1])
  }

  /** A collection has exactly one end. */
  lemma CollectionHasOneEnd(job: Job, discovered: bool, end: Inventory)
    ensures Collects(job, discovered, end) <==>
            end == if job.wanted == {} then job.start else if discovered then Expected(job) else Undiscovered(job)
  {
    hide Expected, Result, Next, Over, Start;
    if job.wanted != {} && discovered {
      var full := RunCanFinish(PoolOf(job), [Start(PoolOf(job))]);
      EveryRunEndsTheSame(job, full);
      if run :| RunsToEnd(PoolOf(job), run) && end == Result(job, run[|run| - 1]) {
        EveryRunEndsTheSame(job, run);
      }
    }
  }
}
