/** Gathering evidence of removed-API use: one worker per target, at most six listing at once, each appending
    what it found under one lock; then the metrics. */
module Scan {
  import opened Text
  import opened Sorting
  import opened Workers
  import opened Report
  import opened KubeVersions
  import RemovedApi
  import Targets
  import Deprecations

  const LIMIT := 6

  type Usage = RemovedApi.Usage

  /** What listing one target gives: the usages seen and the row that says how the listing went. */
  datatype Batch = Batch(usages: seq<Usage>, row: Coverage)

  datatype Evidence = Evidence(usages: seq<Usage>, coverage: seq<Coverage>)

  /** The rows the resolution left, what each target will answer, and what the metrics will. */
  datatype Job = Job(resolved: seq<Coverage>, answers: seq<Batch>, metrics: Batch)

  function Append(e: Evidence, b: Batch): Evidence {
    Evidence(e.usages + b.usages, e.coverage + [b.row])
  }

  function TargetIndices(job: Job): set<nat> {
    set i | i in Indices(|job.answers|)
  }

  lemma IndicesAre(job: Job)
    ensures forall i: nat :: i in TargetIndices(job) <==> i < |job.answers|
  {
    forall i: nat | i < |job.answers|
      ensures i in TargetIndices(job)
    {
      assert Indices(|job.answers|)[i] == i;
    }
  }

  function Record(job: Job, i: nat, e: Evidence): Evidence {
    if i < |job.answers| then Append(e, job.answers[i]) else e
  }

  function PoolOf(job: Job): Pool<nat, Evidence> {
    Pool(TargetIndices(job), TargetIndices(job), LIMIT, Evidence([], job.resolved), (i, e) => Record(job, i, e))
  }

  predicate UsageLeq(a: Usage, b: Usage) {
    if a.apiVersion != b.apiVersion then TextLeq(a.apiVersion, b.apiVersion) else TextLeq(RefOf(a), RefOf(b))
  }

  function RefOf(u: Usage): string {
    RefText(u.namespace, u.name)
  }

  lemma UsageLeqTotal()
    ensures TotalPreorder(UsageLeq)
  {
    hide TextLeq, RefOf;
    forall a, b
      ensures UsageLeq(a, b) || UsageLeq(b, a)
    {
      TextLeqOrders(a.apiVersion, b.apiVersion, b.apiVersion);
      TextLeqOrders(RefOf(a), RefOf(b), RefOf(b));
    }
    forall a, b, c | UsageLeq(a, b) && UsageLeq(b, c)
      ensures UsageLeq(a, c)
    {
      TextLeqOrders(a.apiVersion, b.apiVersion, c.apiVersion);
      TextLeqOrders(b.apiVersion, c.apiVersion, a.apiVersion);
      TextLeqOrders(RefOf(a), RefOf(b), RefOf(c));
    }
  }

  /** What the scan returns once every worker is done. */
  function Result(job: Job, gathered: Evidence): Evidence {
    var all := Append(gathered, job.metrics);
    all.(usages := SortBy(all.usages, UsageLeq))
  }

  /** What one scan may return. With no target the metrics are not read either. */
  ghost predicate Scans(job: Job, end: Evidence) {
    if job.answers == [] then end == Evidence([], job.resolved)
    else exists run: seq<State<nat, Evidence>> | RunsToEnd(PoolOf(job), run) ::
           end == Result(job, run[|run| - 1].shared)
  }

  /** At no point of any run do more than six workers list. */
  lemma NeverMoreThanSix(job: Job, run: seq<State<nat, Evidence>>, i: nat)
    requires IsRun(PoolOf(job), run) && i < |run|
    ensures |Holders(run[i].workers)| <= 6
  {
    hide IsRun, Holders;
    LimitIsKept(PoolOf(job), run, i);
  }

  // ---------- the possible ends ----------

  function Flatten(batches: seq<Batch>): seq<Usage> {
    if batches == [] then [] else Flatten(batches[..|batches| - 1]) + batches[|batches| - 1].usages
  }

  function Answer(job: Job, i: nat): Batch {
    if i < |job.answers| then job.answers[i] else job.metrics
  }

  function AnswerOf(job: Job): nat -> Batch {
    (i: nat) => Answer(job, i)
  }

  function RowOf(job: Job): nat -> Coverage {
    (i: nat) => Answer(job, i).row
  }

  /** The evidence with the batches in this order. */
  function Gathered(job: Job, order: seq<nat>): Evidence {
    Evidence(Flatten(Mapped(order, AnswerOf(job))), job.resolved + Mapped(order, RowOf(job)))
  }

  lemma {:induction false} InTurnGathers(job: Job, order: seq<nat>)
    requires forall i | i in order :: i < |job.answers|
    ensures InTurn(PoolOf(job), order) == Gathered(job, order)
  {
    if order != [] {
      var front, last := order[..|order| - 1], order[|order| - 1];
      assert last in order && forall i | i in front :: i in order;
      InTurnGathers(job, front);
      assert Mapped(order, AnswerOf(job))[..|front|] == Mapped(front, AnswerOf(job));
      assert Mapped(order, RowOf(job)) == Mapped(front, RowOf(job)) + [job.answers[last].row];
    }
  }

  /** A scan returns the whole batches in some order of completion, each once, and any order can happen. */
  lemma ScansIff(job: Job, end: Evidence)
    requires job.answers != []
    ensures Scans(job, end) <==>
            exists order :: ListsOnce(order, TargetIndices(job)) && end == Result(job, Gathered(job, order))
  {
    hide InTurn, Gathered, Next, Start, Over, Result, ListsOnce;
    var p := PoolOf(job);
    assert p.items * p.works == TargetIndices(job);
    if run: seq<State<nat, Evidence>> :| RunsToEnd(p, run) && end == Result(job, run[|run| - 1].shared) {
      var order := EveryRecordOnce(p, run);
      ListedAreIndices(job, order);
      InTurnGathers(job, order);
    }
    if order :| ListsOnce(order, TargetIndices(job)) && end == Result(job, Gathered(job, order)) {
      var run := EveryOrderCanHappen(p, order);
      ListedAreIndices(job, order);
      InTurnGathers(job, order);
    }
  }

  lemma ListedAreIndices(job: Job, order: seq<nat>)
    requires ListsOnce(order, TargetIndices(job))
    ensures forall i | i in order :: i < |job.answers|
    ensures multiset(order) == multiset(TargetIndices(job))
  {
    IndicesAre(job);
    MultisetOfDistinct(order, TargetIndices(job));
  }

  lemma {:induction false} FlattenHolds(batches: seq<Batch>, u: Usage)
    ensures u in Flatten(batches) <==> exists i | 0 <= i < |batches| :: u in batches[i].usages
  {
    if batches != [] {
      var front, last := batches[..|batches| - 1], batches[|batches| - 1];
      FlattenHolds(front, u);
      assert u in last.usages || u !in last.usages;
      assert forall i | 0 <= i < |front| :: front[i] == batches[i];
    }
  }

  /** Every usage some target or the metrics gave, and nothing else. */
  ghost predicate Found(job: Job, u: Usage) {
    u in job.metrics.usages || exists i | 0 <= i < |job.answers| :: u in job.answers[i].usages
  }

  lemma GatheredHolds(job: Job, order: seq<nat>, u: Usage)
    requires ListsOnce(order, TargetIndices(job))
    ensures u in Result(job, Gathered(job, order)).usages <==> Found(job, u)
  {
    hide SortBy, UsageLeq, RowOf;
    var batches := Mapped(order, AnswerOf(job));
    var all := Flatten(batches) + job.metrics.usages;
    IndicesAre(job);
    UsageLeqTotal();
    SortBySorts(all, UsageLeq);
    assert u in SortBy(all, UsageLeq) <==> u in multiset(SortBy(all, UsageLeq));
    assert u in all <==> u in multiset(all);
    FlattenHolds(batches, u);
    if i :| 0 <= i < |job.answers| && u in job.answers[i].usages {
      assert i in TargetIndices(job);
      var k :| 0 <= k < |order| && order[k] == i;
      assert batches[k] == job.answers[i];
    }
    forall k | 0 <= k < |order|
      ensures order[k] < |job.answers| && batches[k] == job.answers[order[k]]
    {
      assert order[k] in order;
    }
  }

  /** Usages come by apiVersion and then by object. */
  lemma ScanIsSorted(job: Job, end: Evidence, i: nat, j: nat)
    requires Scans(job, end) && i < j < |end.usages|
    ensures var a, b := end.usages[i], end.usages[j];
            || (a.apiVersion != b.apiVersion && TextLeq(a.apiVersion, b.apiVersion))
            || (a.apiVersion == b.apiVersion &&
                TextLeq(RefText(a.namespace, a.name), RefText(b.namespace, b.name)))
  {
    hide TextLeq, SortBy, Next, Start, Over;
    var run: seq<State<nat, Evidence>> :| RunsToEnd(PoolOf(job), run) && end == Result(job, run[|run| - 1].shared);
    var all := Append(run[|run| - 1].shared, job.metrics).usages;
    UsageLeqTotal();
    SortBySorts(all, UsageLeq);
    assert UsageLeq(end.usages[i], end.usages[j]);
  }

  // ---------- what does not depend on the order, and what does ----------

  /** In whatever order the scan's workers finish, the findings are the same, as a list when rule ids are
      distinct; and the coverage rows are the same rows. */
  lemma ScanOrderDoesNotMatter(job: Job, end: Evidence, end': Evidence, target: string, cat: Deprecations.Catalog,
                               findings: seq<RemovedApi.Finding>, findings': seq<RemovedApi.Finding>)
    requires Scans(job, end) && Scans(job, end')
    requires RemovedApi.Agree(cat, MinorKey(target), RemovedApi.Seen(end.usages))
    requires RemovedApi.IsReport(findings, cat, target, end.usages)
    requires RemovedApi.IsReport(findings', cat, target, end'.usages)
    ensures multiset(findings) == multiset(findings')
    ensures (forall f, g | f in findings && g in findings && f.rule.ruleId == g.rule.ruleId :: f == g) ==>
              findings == findings'
    ensures multiset(end.coverage) == multiset(end'.coverage)
  {
    hide RemovedApi.IsReport, Scans;
    EndsAgree(job, end, end');
    assert RemovedApi.Seen(end.usages) == RemovedApi.Seen(end'.usages);
    RemovedApi.EvidenceOrderDoesNotMatter(end.usages, end'.usages, target, cat, findings, findings');
  }

  lemma EndsAgree(job: Job, end: Evidence, end': Evidence)
    requires Scans(job, end) && Scans(job, end')
    ensures forall u :: u in end.usages <==> u in end'.usages
    ensures multiset(end.coverage) == multiset(end'.coverage)
  {
    hide Result, Gathered, ListsOnce, PoolOf, RunsToEnd;
    if job.answers != [] {
      ScansIff(job, end);
      ScansIff(job, end');
      var order :| ListsOnce(order, TargetIndices(job)) && end == Result(job, Gathered(job, order));
      var order' :| ListsOnce(order', TargetIndices(job)) && end' == Result(job, Gathered(job, order'));
      forall u
        ensures u in end.usages <==> u in end'.usages
      {
        GatheredHolds(job, order, u);
        GatheredHolds(job, order', u);
      }
      CoverageOf(job, order);
      CoverageOf(job, order');
      ListedAreIndices(job, order);
      ListedAreIndices(job, order');
      MappedForgetsOrder(order, order', RowOf(job));
    }
  }

  lemma CoverageOf(job: Job, order: seq<nat>)
    ensures Result(job, Gathered(job, order)).coverage == job.resolved + Mapped(order, RowOf(job)) + [job.metrics.row]
  {
  }

  ghost predicate Settled(job: Job) {
    forall end, end' | Scans(job, end) && Scans(job, end') :: end.coverage == end'.coverage
  }

  /** The coverage rows come in the order the workers finished and are not sorted, so their list is settled
      exactly when every target's row is the same. */
  lemma CoverageOrderIff(job: Job)
    ensures Settled(job) <==> forall i, j | 0 <= i < |job.answers| && 0 <= j < |job.answers| ::
                                job.answers[i].row == job.answers[j].row
  {
    hide Scans;
    if i, j :| 0 <= i < |job.answers| && 0 <= j < |job.answers| && job.answers[i].row != job.answers[j].row {
      var a := EndStartingWith(job, i);
      var b := EndStartingWith(job, j);
      assert a.coverage != b.coverage;
    } else {
      forall end, end' | Scans(job, end) && Scans(job, end')
        ensures end.coverage == end'.coverage
      {
        SameRowsSameList(job, end, end');
      }
    }
  }

  /** Some scan finishes this target first. */
  lemma EndStartingWith(job: Job, i: nat) returns (end: Evidence)
    requires i < |job.answers|
    ensures Scans(job, end)
    ensures |end.coverage| > |job.resolved| && end.coverage[|job.resolved|] == job.answers[i].row
  {
    hide Scans, Result, Gathered;
    var order: seq<nat> := seq(|job.answers|, k => if k == 0 then i else if k == i then 0 else k);
    IndicesAre(job);
    assert ListsOnce(order, TargetIndices(job)) by {
      forall k: nat
        ensures k in order <==> k in TargetIndices(job)
      {
        if k in TargetIndices(job) {
          assert order[if k == 0 then i else if k == i then 0 else k] == k;
        }
      }
    }
    end := Result(job, Gathered(job, order));
    ScansIff(job, end);
    CoverageOf(job, order);
    assert Mapped(order, RowOf(job))[0] == RowOf(job)(order[0]);
  }

  lemma SameRowsSameList(job: Job, end: Evidence, end': Evidence)
    requires Scans(job, end) && Scans(job, end')
    requires forall i, j | 0 <= i < |job.answers| && 0 <= j < |job.answers| :: job.answers[i].row == job.answers[j].row
    ensures end.coverage == end'.coverage
  {
    hide Result, Gathered, PoolOf, RunsToEnd, ListsOnce, RowOf, Mapped;
    if job.answers != [] {
      ScansIff(job, end);
      ScansIff(job, end');
      var order :| ListsOnce(order, TargetIndices(job)) && end == Result(job, Gathered(job, order));
      var order' :| ListsOnce(order', TargetIndices(job)) && end' == Result(job, Gathered(job, order'));
      CoverageOf(job, order);
      CoverageOf(job, order');
      SameRowsEitherWay(job, order, order');
    }
  }

  lemma SameRowsEitherWay(job: Job, order: seq<nat>, order': seq<nat>)
    requires ListsOnce(order, TargetIndices(job)) && ListsOnce(order', TargetIndices(job))
    requires forall i, j | 0 <= i < |job.answers| && 0 <= j < |job.answers| :: job.answers[i].row == job.answers[j].row
    ensures Mapped(order, RowOf(job)) == Mapped(order', RowOf(job))
  {
    ListedAreIndices(job, order);
    ListedAreIndices(job, order');
    hide ListsOnce, TargetIndices;
    assert |order| == |multiset(order)| == |multiset(order')| == |order'|;
    forall k: nat | k < |order|
      ensures Mapped(order, RowOf(job))[k] == Mapped(order', RowOf(job))[k]
    {
      assert order[k] in order && order'[k] in order';
    }
  }

  /** One answer a target, its row named after the target's kind. */
  ghost predicate AnswersFor(targets: seq<Targets.Target>, job: Job) {
    && |job.answers| == |targets|
    && forall i | 0 <= i < |targets| ::
         job.answers[i].row.scope == targets[i].kind && job.answers[i].row.source == Targets.SOURCE
  }

  /** Two targets of different kinds, and the list of rows is never settled. */
  lemma TwoKindsNeverSettle(targets: seq<Targets.Target>, job: Job, i: nat, j: nat)
    requires AnswersFor(targets, job)
    requires i < |targets| && j < |targets| && targets[i].kind != targets[j].kind
    ensures !Settled(job)
  {
    hide Settled;
    CoverageOrderIff(job);
    assert job.answers[i].row != job.answers[j].row;
  }

  /** Before the scan is run: whatever the cluster answers the list of rows is settled exactly when there is at
      most one target. */
  lemma SettledIffOneTarget(targets: seq<Targets.Target>)
    ensures (forall job | AnswersFor(targets, job) :: Settled(job)) <==> |targets| <= 1
  {
    hide Settled;
    if |targets| <= 1 {
      forall job | AnswersFor(targets, job)
        ensures Settled(job)
      {
        CoverageOrderIff(job);
      }
    } else {
      var job := MixedAnswers(targets);
      CoverageOrderIff(job);
      assert job.answers[0].row != job.answers[1].row;
    }
  }

  /** The first target listed in full, the others refused. */
  function MixedAnswers(targets: seq<Targets.Target>): (job: Job)
    ensures AnswersFor(targets, job)
    ensures forall i | 0 <= i < |targets| :: job.answers[i].row.state == if i == 0 then Complete else Unavailable
  {
    Job([], seq(|targets|, i requires 0 <= i < |targets| =>
          Batch([], Coverage(Targets.SOURCE, targets[i].kind, if i == 0 then Complete else Unavailable, "", 0))),
        Batch([], Coverage(Targets.SOURCE, "", Complete, "", 0)))
  }
}
