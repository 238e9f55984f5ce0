/** Settling every rule on the path into findings and coverage. */
module Analyze {
  import opened Text
  import opened Sorting
  import opened Inventory
  import opened Report
  import opened Rules
  import opened Settle
  import opened Projection
  import opened KubeVersions
  import TypedRules
  import Fold
  import Selection
  import Deprecations
  import Collect

  const SOURCE := "release-note rules"

  /** The scan's surroundings. `number` is the number a rule's value begins with, if any. */
  datatype Scan = Scan(lib: Library, served: Served, catalog: Deprecations.Catalog, target: string,
                       number: string -> Option<int>)

  datatype Settlement =
    | Advisory
    | Owned
    | Declines(scope: string, reason: string)
    | Clears
    | Fires(affected: seq<string>, matched: nat)

  datatype Finding = AdvisoryFinding(rule: GeneratedRule)
                   | RuleFinding(rule: GeneratedRule, affected: seq<string>, matched: nat, alsoRaisedBy: seq<string>)

  function Detect(scan: Scan, inv: Inventory, d: Detection): Outcome {
    match d.kind
    case ApiVersionInUse => ApiVersionRule(scan.lib, inv, scan.served, d)
    case CrdServedVersion => TypedRules.CrdRule(inv, d)
    case VersionSkewExceeds => TypedRules.SkewRule(inv, d, scan.target, scan.number(TrimSpace(d.value)))
    case _ => RowRule(scan.lib, inv, d)
  }

  function SettleRule(scan: Scan, inv: Inventory, rule: GeneratedRule): Settlement {
    if rule.detection.kind == NotDetectable then Advisory
    else if Selection.IsOwned(scan.catalog, rule) then Owned
    else
      var base := Detect(scan, inv, rule.detection);
      var out := if rule.gate.Some? && !base.Declined?
                 then GateOn(scan.lib, inv, rule.detection, rule.gate.value, base) else base;
      match out
      case Declined(scope, reason) => Declines(scope, reason)
      case Clear => Clears
      case Fired(affected, matched) => Fires(affected, matched)
  }

  // ---------- outcomes, gaps and findings ----------

  function Pending(s: Settlement, rule: GeneratedRule): seq<Fold.RuleOutcome> {
    match s
    case Advisory => [Fold.RuleOutcome(rule, true, false, [], 0, "", [])]
    case Fires(affected, matched) => [Fold.RuleOutcome(rule, false, true, affected, matched, "", [])]
    case _ => []
  }

  function OutcomesOf(scan: Scan, inv: Inventory, rules: seq<GeneratedRule>): seq<Fold.RuleOutcome> {
    if rules == [] then []
    else
      var last := rules[|rules| - 1];
      OutcomesOf(scan, inv, rules[..|rules| - 1]) + Pending(SettleRule(scan, inv, last), last)
  }

  function GapKey(scope: string, reason: string): string {
    scope + "|" + reason
  }

  /** Declined rules share a row when their scope and reason read the same. */
  function AddGap(gaps: map<string, Coverage>, s: Settlement): map<string, Coverage> {
    match s
    case Declines(scope, reason) =>
      var key := GapKey(scope, reason);
      var row := if key in gaps then gaps[key] else Coverage(SOURCE, scope, Unavailable, reason, 0);
      gaps[key := row.(rulesSkipped := row.rulesSkipped + 1)]
    case _ => gaps
  }

  function GapsOf(scan: Scan, inv: Inventory, rules: seq<GeneratedRule>): map<string, Coverage> {
    if rules == [] then map[]
    else AddGap(GapsOf(scan, inv, rules[..|rules| - 1]), SettleRule(scan, inv, rules[|rules| - 1]))
  }

  function Print(o: Fold.RuleOutcome): seq<Finding> {
    if o.advisory then [AdvisoryFinding(o.rule)]
    else if o.duplicateOf != "" then []
    else [RuleFinding(o.rule, o.affected, o.matched, o.alsoRaisedBy)]
  }

  function PrintAll(outs: seq<Fold.RuleOutcome>): seq<Finding> {
    if outs == [] then [] else PrintAll(outs[..|outs| - 1]) + Print(outs[|outs| - 1])
  }

  predicate RowLeq(a: Coverage, b: Coverage) {
    if a.scope != b.scope then TextLeq(a.scope, b.scope) else TextLeq(a.reason, b.reason)
  }

  lemma RowLeqTotal()
    ensures TotalPreorder(RowLeq)
  {
    hide TextLeq;
    forall a, b
      ensures RowLeq(a, b) || RowLeq(b, a)
    {
      TextLeqOrders(a.scope, b.scope, b.scope);
      TextLeqOrders(a.reason, b.reason, b.reason);
    }
    forall a, b, c | RowLeq(a, b) && RowLeq(b, c)
      ensures RowLeq(a, c)
    {
      TextLeqOrders(a.scope, b.scope, c.scope);
      TextLeqOrders(b.scope, c.scope, a.scope);
      TextLeqOrders(a.reason, b.reason, c.reason);
    }
  }

  function NotEvaluated(source: string): Coverage {
    Coverage(SOURCE, source + " rules", Complete, source + " release notes were not evaluated", 0)
  }

  function SkipRows(sources: seq<string>): seq<Coverage> {
    if sources == [] then [] else SkipRows(sources[..|sources| - 1]) + [NotEvaluated(sources[|sources| - 1])]
  }

  /** The gap rows, one for each key, in the printed order. */
  ghost predicate ListsGaps(rows: seq<Coverage>, gaps: map<string, Coverage>) {
    && Sorted(rows, RowLeq)
    && multiset(rows) == multiset(gaps.Values)
  }

  ghost predicate IsAnalysis(findings: seq<Finding>, coverage: seq<Coverage>, scan: Scan, inv: Inventory,
                             rules: seq<GeneratedRule>, skipped: seq<string>) {
    && (exists marked :: Fold.MidPass(marked, OutcomesOf(scan, inv, rules), Fold.Outcome(OutcomesOf(scan, inv, rules)),
                                      Fold.Order(OutcomesOf(scan, inv, rules))) && findings == PrintAll(marked))
    && (exists rows :: ListsGaps(rows, GapsOf(scan, inv, rules)) && coverage == rows + SkipRows(skipped))
  }

  /** Gap rows come by scope and then by reason. */
  lemma GapsInOrder(rows: seq<Coverage>, gaps: map<string, Coverage>, i: nat, j: nat)
    requires ListsGaps(rows, gaps) && i < j < |rows|
    ensures rows[i].scope != rows[j].scope ==> TextLeq(rows[i].scope, rows[j].scope)
    ensures rows[i].scope == rows[j].scope ==> TextLeq(rows[i].reason, rows[j].reason)
  {
    hide TextLeq;
    assert RowLeq(rows[i], rows[j]);
  }

  method AnalyzeRules(scan: Scan, inv: Inventory, rules: seq<GeneratedRule>, current: string,
                      hops: Selection.Hops)
    returns (findings: seq<Finding>, coverage: seq<Coverage>)
    ensures MinorKey(scan.target) == 0 ==> findings == [] && coverage == []
    ensures MinorKey(scan.target) != 0 ==>
              IsAnalysis(findings, coverage, scan, inv, Selection.PathRules(rules, current, scan.target, hops),
                         Listing(Selection.SkippedSources(rules, hops)))
  {
    hide MinorKey, IsAnalysis, Selection.PathRules, Selection.SkippedSources;
    var selected, skipped := Selection.SelectRules(rules, current, scan.target, hops);
    if MinorKey(scan.target) != 0 {
      ListingIsUnique(skipped, Listing(Selection.SkippedSources(rules, hops)), Selection.SkippedSources(rules, hops));
    }
    findings, coverage := SettleAll(scan, inv, selected, skipped);
    if MinorKey(scan.target) == 0 {
      NothingSelected(findings, coverage, scan, inv);
    }
  }

  lemma NothingSelected(findings: seq<Finding>, coverage: seq<Coverage>, scan: Scan, inv: Inventory)
    requires IsAnalysis(findings, coverage, scan, inv, [], [])
    ensures findings == [] && coverage == []
  {
    var rows :| ListsGaps(rows, GapsOf(scan, inv, [])) && coverage == rows + SkipRows([]);
    assert |rows| == |multiset(rows)|;
  }

  method SettleAll(scan: Scan, inv: Inventory, rules: seq<GeneratedRule>, skipped: seq<string>)
    returns (findings: seq<Finding>, coverage: seq<Coverage>)
    ensures IsAnalysis(findings, coverage, scan, inv, rules, skipped)
  {
    hide SettleRule, ListsGaps, Fold.MidPass, AddGap;
    var outs: seq<Fold.RuleOutcome>, gaps: map<string, Coverage> := [], map[];
    for i := 0 to |rules|
      invariant outs == OutcomesOf(scan, inv, rules[..i]) && gaps == GapsOf(scan, inv, rules[..i])
    {
      assert rules[..i + 1][..i] == rules[..i];
      var s := SettleRule(scan, inv, rules[i]);
      outs := outs + Pending(s, rules[i]);
      gaps := AddGap(gaps, s);
    }
    assert rules[..|rules|] == rules;
    findings := FoldAndPrint(outs);
    GapsAreKeyed(scan, inv, rules);
    var rows := GapRows(gaps);
    coverage := rows;
    for i := 0 to |skipped|
      invariant coverage == rows + SkipRows(skipped[..i])
    {
      assert skipped[..i + 1][..i] == skipped[..i];
      coverage := coverage + [NotEvaluated(skipped[i])];
    }
    assert skipped[..|skipped|] == skipped;
  }

  method FoldAndPrint(outs: seq<Fold.RuleOutcome>) returns (findings: seq<Finding>)
    ensures exists marked ::
              Fold.MidPass(marked, outs, Fold.Outcome(outs), Fold.Order(outs)) && findings == PrintAll(marked)
  {
    hide Fold.MidPass, Fold.Outcome, Fold.Order;
    var outcomes := new Fold.RuleOutcome[|outs|](i requires 0 <= i < |outs| => outs[i]);
    assert outcomes[..] == outs;
    Fold.FoldDuplicates(outcomes);
    var marked := outcomes[..];
    findings := [];
    for i := 0 to |marked|
      invariant findings == PrintAll(marked[..i])
    {
      assert marked[..i + 1][..i] == marked[..i];
      findings := findings + Print(marked[i]);
    }
    assert marked[..|marked|] == marked;
  }

  /** Each row tells its own key, so different keys give different rows. */
  ghost predicate KeyedRows(gaps: map<string, Coverage>) {
    forall key | key in gaps :: gaps[key].state == Unavailable && GapKey(gaps[key].scope, gaps[key].reason) == key
  }

  lemma {:induction false} GapsAreKeyed(scan: Scan, inv: Inventory, rules: seq<GeneratedRule>)
    ensures KeyedRows(GapsOf(scan, inv, rules))
  {
    hide SettleRule, GapKey;
    if rules != [] {
      GapsAreKeyed(scan, inv, rules[..|rules| - 1]);
    }
  }

  /** The rows in whatever order the map hands them out, then sorted. */
  method GapRows(gaps: map<string, Coverage>) returns (rows: seq<Coverage>)
    requires KeyedRows(gaps)
    ensures ListsGaps(rows, gaps)
  {
    hide GapKey, TotalPreorder, Sorted, RowLeq;
    rows := [];
    var rest := gaps.Keys;
    while rest != {}
      invariant rest <= gaps.Keys
      invariant multiset(rows) == multiset(set key | key in gaps.Keys - rest :: gaps[key])
      decreases rest
    {
      var key :| key in rest;
      ghost var before := set k | k in gaps.Keys - rest :: gaps[k];
      assert gaps[key] !in before;
      assert (set k | k in gaps.Keys - (rest - {key}) :: gaps[k]) == before + {gaps[key]};
      rows := rows + [gaps[key]];
      rest := rest - {key};
    }
    assert gaps.Keys - rest == gaps.Keys;
    assert (set key | key in gaps.Keys :: gaps[key]) == gaps.Values;
    RowLeqTotal();
    SortBySorts(rows, RowLeq);
    rows := SortBy(rows, RowLeq);
  }

  /** Nothing about an analysis is left to the order in which maps are iterated. */
  lemma AnalysisIsDeterministic(findings: seq<Finding>, coverage: seq<Coverage>, findings': seq<Finding>,
          coverage': seq<Coverage>,
                                scan: Scan, inv: Inventory, rules: seq<GeneratedRule>, skipped: seq<string>)
    requires IsAnalysis(findings, coverage, scan, inv, rules, skipped)
    requires IsAnalysis(findings', coverage', scan, inv, rules, skipped)
    ensures findings == findings' && coverage == coverage'
  {
    hide OutcomesOf, GapsOf, PrintAll, Fold.Outcome, Fold.Order, Fold.PassOver, Fold.Marked, Sorted, RowLeq;
    var outs, gaps := OutcomesOf(scan, inv, rules), GapsOf(scan, inv, rules);
    var marked :| Fold.MidPass(marked, outs, Fold.Outcome(outs), Fold.Order(outs)) && findings == PrintAll(marked);
    var marked' :| Fold.MidPass(marked', outs, Fold.Outcome(outs), Fold.Order(outs)) && findings' == PrintAll(marked');
    assert marked == marked';
    var rows :| ListsGaps(rows, gaps) && coverage == rows + SkipRows(skipped);
    var rows' :| ListsGaps(rows', gaps) && coverage' == rows' + SkipRows(skipped);
    GapsAreKeyed(scan, inv, rules);
    KeyedRowsDecide(rows, gaps);
    SortedIsUnique(rows, rows', RowLeq);
  }

  lemma KeyedRowsDecide(rows: seq<Coverage>, gaps: map<string, Coverage>)
    requires multiset(rows) == multiset(gaps.Values) && KeyedRows(gaps)
    ensures Decisive(rows, RowLeq)
  {
    hide TextLeq;
    forall x, y | x in rows && y in rows && RowLeq(x, y) && RowLeq(y, x)
      ensures x == y
    {
      TextLeqOrders(x.scope, y.scope, y.scope);
      TextLeqOrders(x.reason, y.reason, y.reason);
      assert x in multiset(rows) && y in multiset(rows);
      var j :| j in gaps && gaps[j] == x;
      var k :| k in gaps && gaps[k] == y;
      assert j == GapKey(x.scope, x.reason) == k;
    }
  }

  // ---------- no false clean ----------

  /** The rule reads, itself or through its gate, a kind nobody could read. */
  ghost predicate Blind(inv: Inventory, rule: GeneratedRule) {
    || ((RowScanning(rule.detection.kind) || (rule.detection.kind == ApiVersionInUse &&
        rule.detection.objectKind != "")) &&
        ReadsUnreadable(inv, rule.detection))
    || (rule.detection.kind == CrdServedVersion && !inv.Read(CRDS))
    || (rule.detection.kind == VersionSkewExceeds && !inv.Read(TypedRules.CollectorFor(rule.detection)))
    || (rule.gate.Some? && ReadsUnreadable(inv, rule.gate.value))
  }

  /** A blind rule is never a pass. */
  lemma BlindRulesDecline(scan: Scan, inv: Inventory, rule: GeneratedRule)
    requires rule.detection.kind != NotDetectable && !Selection.IsOwned(scan.catalog, rule)
    requires Blind(inv, rule)
    ensures SettleRule(scan, inv, rule).Declines?
  {
    hide RowRule, ApiVersionRule, GateOn, ReadsUnreadable, Selection.IsOwned, TypedRules.CollectorFor;
    var d := rule.detection;
    if ReadsUnreadable(inv, d) {
      UnreadKindDeclines(scan.lib, inv, scan.served, d);
    }
    if rule.gate.Some? && ReadsUnreadable(inv, rule.gate.value) {
      UnreadGateDeclines(scan.lib, inv, d, rule.gate.value, Detect(scan, inv, d));
    }
  }

  lemma {:induction false} OutcomesComeFromRules(scan: Scan, inv: Inventory, rules: seq<GeneratedRule>,
          o: Fold.RuleOutcome)
    requires o in OutcomesOf(scan, inv, rules)
    ensures o.rule in rules && o in Pending(SettleRule(scan, inv, o.rule), o.rule)
  {
    hide SettleRule;
    var last := rules[|rules| - 1];
    if o !in Pending(SettleRule(scan, inv, last), last) {
      OutcomesComeFromRules(scan, inv, rules[..|rules| - 1], o);
    }
  }

  lemma {:induction false} PrintsComeFromOutcomes(outs: seq<Fold.RuleOutcome>, f: Finding) returns (k: nat)
    requires f in PrintAll(outs)
    ensures k < |outs| && f.rule == outs[k].rule
  {
    if f in Print(outs[|outs| - 1]) {
      k := |outs| - 1;
    } else {
      k := PrintsComeFromOutcomes(outs[..|outs| - 1], f);
    }
  }

  /** Every finding is of a selected rule that is advisory or fired. */
  lemma FindingsAreEarned(findings: seq<Finding>, coverage: seq<Coverage>, scan: Scan, inv: Inventory,
                          rules: seq<GeneratedRule>, skipped: seq<string>, f: Finding)
    requires IsAnalysis(findings, coverage, scan, inv, rules, skipped) && f in findings
    ensures f.rule in rules
    ensures SettleRule(scan, inv, f.rule).Advisory? || SettleRule(scan, inv, f.rule).Fires?
  {
    hide SettleRule, Fold.Outcome, Fold.Order, Fold.PassOver, Fold.ChangeKey, Fold.QuoteKey;
    var outs := OutcomesOf(scan, inv, rules);
    var marked :| Fold.MidPass(marked, outs, Fold.Outcome(outs), Fold.Order(outs)) && findings == PrintAll(marked);
    var k := PrintsComeFromOutcomes(marked, f);
    Fold.MarkedKeepsRule(outs, Fold.Outcome(outs), Fold.Order(outs), k);
    OutcomesComeFromRules(scan, inv, rules, outs[k]);
  }

  /** The rows a declined rule could be counted in. */
  ghost predicate CountedIn(row: Coverage, scope: string, reason: string) {
    row.state == Unavailable && GapKey(row.scope, row.reason) == GapKey(scope, reason)
  }

  lemma {:induction false} DeclinedHasGap(scan: Scan, inv: Inventory, rules: seq<GeneratedRule>, rule: GeneratedRule)
    requires rule in rules && SettleRule(scan, inv, rule).Declines?
    ensures var s := SettleRule(scan, inv, rule);
            GapKey(s.scope, s.reason) in GapsOf(scan, inv, rules) &&
                GapsOf(scan, inv, rules)[GapKey(s.scope, s.reason)].rulesSkipped >= 1
  {
    hide SettleRule, GapKey;
    if rule != rules[|rules| - 1] {
      DeclinedHasGap(scan, inv, rules[..|rules| - 1], rule);
    }
  }

  lemma {:induction false} SkipRowsAreComplete(sources: seq<string>)
    ensures forall row | row in SkipRows(sources) :: row.state == Complete && row.rulesSkipped == 0
    ensures TotalSkipped(SkipRows(sources)) == 0
  {
    if sources != [] {
      SkipRowsAreComplete(sources[..|sources| - 1]);
      TotalAppends(SkipRows(sources[..|sources| - 1]), [NotEvaluated(sources[|sources| - 1])]);
    }
  }

  lemma {:induction false} TotalAppends(a: seq<Coverage>, b: seq<Coverage>)
    ensures TotalSkipped(a + b) == TotalSkipped(a) + TotalSkipped(b)
  {
    if a == [] {
      assert a + b == b;
    } else {
      assert (a + b)[1..] == a[1..] + b;
      TotalAppends(a[1..], b);
    }
  }

  /** A declined rule is counted in exactly one unavailable row. */
  lemma DeclinedIsCountedOnce(findings: seq<Finding>, coverage: seq<Coverage>, scan: Scan, inv: Inventory,
                              rules: seq<GeneratedRule>, skipped: seq<string>, rule: GeneratedRule)
    requires IsAnalysis(findings, coverage, scan, inv, rules, skipped)
    requires rule in rules && SettleRule(scan, inv, rule).Declines?
    ensures var s := SettleRule(scan, inv, rule);
            exists i | 0 <= i < |coverage| ::
              && CountedIn(coverage[i], s.scope, s.reason) && coverage[i].rulesSkipped >= 1
              && forall j | 0 <= j < |coverage| && j != i :: !CountedIn(coverage[j], s.scope, s.reason)
  {
    hide SettleRule, GapKey, Sorted, Fold.MidPass, OutcomesOf, GapsOf;
    var gaps := GapsOf(scan, inv, rules);
    var rows :| ListsGaps(rows, gaps) && coverage == rows + SkipRows(skipped);
    var s := SettleRule(scan, inv, rule);
    var key := GapKey(s.scope, s.reason);
    DeclinedHasGap(scan, inv, rules, rule);
    GapsAreKeyed(scan, inv, rules);
    SkipRowsAreComplete(skipped);
    assert gaps[key] in gaps.Values;
    assert gaps[key] in multiset(rows);
    var i :| 0 <= i < |rows| && rows[i] == gaps[key];
    assert coverage[i] == rows[i];
    forall j | 0 <= j < |coverage| && j != i
      ensures !CountedIn(coverage[j], s.scope, s.reason)
    {
      if j < |rows| {
        assert coverage[j] == rows[j] && rows[j] in multiset(rows);
        var k :| k in gaps && gaps[k] == rows[j];
        if k == key {
          if i < j {
            TwiceCounts(rows, i, j);
          } else {
            TwiceCounts(rows, j, i);
          }
        }
      } else {
        assert coverage[j] in SkipRows(skipped);
      }
    }
  }

  /** No false clean, end to end: a rule that reads a kind nobody could read yields no finding, is counted in
      exactly one unavailable row, and keeps the scan from calling itself complete. */
  lemma NoFalseClean(findings: seq<Finding>, coverage: seq<Coverage>, scan: Scan, inv: Inventory,
                     rules: seq<GeneratedRule>, skipped: seq<string>, rule: GeneratedRule)
    requires IsAnalysis(findings, coverage, scan, inv, rules, skipped) && rule in rules
    requires rule.detection.kind != NotDetectable && !Selection.IsOwned(scan.catalog, rule) && Blind(inv, rule)
    ensures forall f | f in findings :: f.rule != rule
    ensures var s := SettleRule(scan, inv, rule);
            && s.Declines?
            && exists i | 0 <= i < |coverage| ::
                 && CountedIn(coverage[i], s.scope, s.reason)
                 && forall j | 0 <= j < |coverage| && j != i :: !CountedIn(coverage[j], s.scope, s.reason)
    ensures exists row | row in coverage :: IsGap(row)
  {
    hide SettleRule, GapKey, IsAnalysis, Blind;
    BlindRulesDecline(scan, inv, rule);
    DeclinedIsCountedOnce(findings, coverage, scan, inv, rules, skipped, rule);
    forall f | f in findings
      ensures f.rule != rule
    {
      FindingsAreEarned(findings, coverage, scan, inv, rules, skipped, f);
    }
    var s := SettleRule(scan, inv, rule);
    var i :| 0 <= i < |coverage| && CountedIn(coverage[i], s.scope, s.reason);
    assert IsGap(coverage[i]);
  }

  // ---------- when a rule fires, clears and declines ----------

  /** What the detection asks about could be read. */
  ghost predicate Settles(scan: Scan, inv: Inventory, d: Detection) {
    match d.kind
    case ApiVersionInUse =>
      if d.objectKind == "" then KnownNotServed(scan.served, d.target, ByGroup(d)) else !CannotAsk(scan.lib, inv, d)
    case CrdServedVersion => inv.Read(CRDS)
    case VersionSkewExceeds =>
      && scan.number(TrimSpace(d.value)).Some? && MinorKey(scan.target) != 0
      && inv.Read(TypedRules.CollectorFor(d)) && TypedRules.SomeRead(inv, d)
    case _ =>
      && (d.kind == SpecPathMatches ==> scan.lib.compiles(d.value))
      && !CannotAsk(scan.lib, inv, d) && !SubjectMissing(scan.lib, inv, d)
  }

  /** What the detection looks for is there. */
  ghost predicate Present(scan: Scan, inv: Inventory, d: Detection) {
    match d.kind
    case ApiVersionInUse => d.objectKind != "" && exists ref :: Writes(scan.lib, inv, d, ref)
    case CrdServedVersion => exists crd | crd in inv.crds :: TypedRules.ServesTarget(crd, d)
    case VersionSkewExceeds =>
      var allowed := scan.number(TrimSpace(d.value));
      allowed.Some? && TypedRules.SomeLags(inv, d, MinorKey(scan.target), allowed.value)
    case _ => exists ref :: Satisfies(scan.lib, inv, d, ref)
  }

  lemma DetectMeans(scan: Scan, inv: Inventory, d: Detection)
    ensures Detect(scan, inv, d).Declined? <==> !Settles(scan, inv, d)
    ensures Settles(scan, inv, d) ==> (Detect(scan, inv, d).Fired? <==> Present(scan, inv, d))
  {
    hide RowRule, ApiVersionRule, CannotAsk, BadPattern, SubjectMissing, KnownNotServed, Writes, Satisfies, MinorKey,
        TypedRules.CrdRule, TypedRules.SkewRule, TypedRules.SomeRead, TypedRules.SomeLags, TypedRules.ServesTarget,
        TypedRules.CollectorFor, TrimSpace;
    match d.kind
    case ApiVersionInUse => ApiVersionRuleMeans(scan.lib, inv, scan.served, d);
    case CrdServedVersion => TypedRules.CrdRuleMeans(inv, d);
    case VersionSkewExceeds => TypedRules.SkewRuleMeans(inv, d, scan.target, scan.number(TrimSpace(d.value)));
    case _ =>
      RowRuleDeclinesIff(scan.lib, inv, d);
      if !RowRule(scan.lib, inv, d).Declined? {
        RowRuleFiresOnHits(scan.lib, inv, d);
      }
  }

  ghost predicate GateSettles(scan: Scan, inv: Inventory, g: Detection) {
    (g.kind == SpecPathMatches ==> scan.lib.compiles(g.value)) && !CannotAsk(scan.lib, inv, g)
  }

  /** Nothing satisfies the gate; or it reads the detection's own kind, nothing satisfies both, and fewer than
      ten objects satisfied the detection. */
  ghost predicate Shut(scan: Scan, inv: Inventory, d: Detection, g: Detection) {
    || (forall ref :: !Satisfies(scan.lib, inv, g, ref))
    || (SameKind(d, g) && |Hits(scan.lib, d, Asked(scan.lib, inv, d))| < MAX_NAMED &&
        forall ref :: !(Satisfies(scan.lib, inv, d, ref) && Satisfies(scan.lib, inv, g, ref)))
  }

  /** A rule that is checked at all declines exactly when it or its gate could not be, clears exactly when what
      it looks for is absent or its gate is shut, and fires otherwise. */
  lemma RuleSettlesIff(scan: Scan, inv: Inventory, rule: GeneratedRule)
    requires rule.detection.kind != NotDetectable && !Selection.IsOwned(scan.catalog, rule)
    ensures var d, s := rule.detection, SettleRule(scan, inv, rule);
            var settles := Settles(scan, inv, d) && (rule.gate.Some? ==> GateSettles(scan, inv, rule.gate.value));
            var open := Present(scan, inv, d) && (rule.gate.Some? ==> !Shut(scan, inv, d, rule.gate.value));
            && (s.Declines? <==> !settles)
            && (s.Clears? <==> settles && !open)
            && (s.Fires? <==> settles && open)
  {
    hide Detect, GateOn, Settles, Present, Shut, Selection.IsOwned, BadPattern, CannotAsk;
    var d := rule.detection;
    var base := Detect(scan, inv, d);
    DetectMeans(scan, inv, d);
    if rule.gate.Some? && !base.Declined? {
      var g := rule.gate.value;
      GateDeclinesIff(scan.lib, inv, d, g, base);
      if GateSettles(scan, inv, g) {
        GateSettlesRule(scan, inv, d, g);
      }
    }
  }

  lemma GateSettlesRule(scan: Scan, inv: Inventory, d: Detection, g: Detection)
    requires Settles(scan, inv, d) && GateSettles(scan, inv, g)
    ensures var base := Detect(scan, inv, d);
            !base.Declined? && !GateOn(scan.lib, inv, d, g, base).Declined? &&
            (GateOn(scan.lib, inv, d, g, base) == Clear <==> !Present(scan, inv, d) || Shut(scan, inv, d, g))
  {
    hide GateOn, Settles, Present, BadPattern, CannotAsk, RowRule, ApiVersionRule, TypedRules.CrdRule,
        TypedRules.SkewRule, Satisfies, Named, Asked, Hits, ObjectKinds;
    var base := Detect(scan, inv, d);
    DetectMeans(scan, inv, d);
    GateDeclinesIff(scan.lib, inv, d, g, base);
    GateClearsIff(scan.lib, inv, d, g, base);
    if base.Fired? && SameKind(d, g) {
      RowRuleFiresOnHits(scan.lib, inv, d);
      NamedAreHits(Hits(scan.lib, d, Asked(scan.lib, inv, d)), "");
    }
  }

  // ---------- every rule is accounted for ----------

  predicate IsDeclined(s: Settlement) {
    s.Declines?
  }

  predicate IsOwned(s: Settlement) {
    s.Owned?
  }

  predicate IsCleared(s: Settlement) {
    s.Clears?
  }

  ghost function CountWhere(scan: Scan, inv: Inventory, rules: seq<GeneratedRule>, holds: Settlement -> bool): nat {
    if rules == [] then 0
    else CountWhere(scan, inv, rules[..|rules| - 1], holds) + if holds(SettleRule(scan, inv,
        rules[|rules| - 1])) then 1 else 0
  }

  ghost function SumOver(gaps: map<string, Coverage>, keys: set<string>): nat
    requires keys <= gaps.Keys
  {
    if keys == {} then 0
    else
      var k :| k in keys;
      gaps[k].rulesSkipped + SumOver(gaps, keys - {k})
  }

  lemma {:induction false} SumSplits(gaps: map<string, Coverage>, keys: set<string>, k: string)
    requires k in keys && keys <= gaps.Keys
    ensures SumOver(gaps, keys) == gaps[k].rulesSkipped + SumOver(gaps, keys - {k})
    decreases |keys|
  {
    var j :| j in keys && SumOver(gaps, keys) == gaps[j].rulesSkipped + SumOver(gaps, keys - {j});
    if j != k {
      SumSplits(gaps, keys - {j}, k);
      SumSplits(gaps, keys - {k}, j);
      assert keys - {j} - {k} == keys - {k} - {j};
    }
  }

  lemma {:induction false} SumUnchanged(gaps: map<string, Coverage>, gaps': map<string, Coverage>, keys: set<string>)
    requires keys <= gaps.Keys && keys <= gaps'.Keys && forall k | k in keys :: gaps[k] == gaps'[k]
    ensures SumOver(gaps, keys) == SumOver(gaps', keys)
    decreases |keys|
  {
    if keys != {} {
      var k :| k in keys;
      SumSplits(gaps, keys, k);
      SumSplits(gaps', keys, k);
      SumUnchanged(gaps, gaps', keys - {k});
    }
  }

  lemma AddGapAddsOne(gaps: map<string, Coverage>, s: Settlement)
    ensures SumOver(AddGap(gaps, s), AddGap(gaps, s).Keys) == SumOver(gaps, gaps.Keys) + if s.Declines? then 1 else 0
  {
    hide GapKey, SumOver;
    if s.Declines? {
      var key, gaps' := GapKey(s.scope, s.reason), AddGap(gaps, s);
      SumSplits(gaps', gaps'.Keys, key);
      SumUnchanged(gaps, gaps', gaps.Keys - {key});
      assert gaps'.Keys - {key} == gaps.Keys - {key};
      if key in gaps {
        SumSplits(gaps, gaps.Keys, key);
      } else {
        assert gaps.Keys - {key} == gaps.Keys;
      }
    }
  }

  lemma {:induction false} GapsCountDeclined(scan: Scan, inv: Inventory, rules: seq<GeneratedRule>)
    ensures SumOver(GapsOf(scan, inv, rules), GapsOf(scan, inv, rules).Keys) == CountWhere(scan, inv, rules, IsDeclined)
  {
    hide SettleRule, AddGap;
    if rules != [] {
      GapsCountDeclined(scan, inv, rules[..|rules| - 1]);
      AddGapAddsOne(GapsOf(scan, inv, rules[..|rules| - 1]), SettleRule(scan, inv, rules[|rules| - 1]));
    }
  }

  ghost function RowsAt(gaps: map<string, Coverage>, keys: set<string>): set<Coverage>
    requires keys <= gaps.Keys
  {
    set k | k in keys :: gaps[k]
  }

  lemma RowsWithout(gaps: map<string, Coverage>, keys: set<string>, key: string)
    requires key in keys && keys <= gaps.Keys && KeyedRows(gaps)
    ensures RowsAt(gaps, keys - {key}) == RowsAt(gaps, keys) - {gaps[key]}
  {
    hide GapKey;
  }

  lemma NoKeys(gaps: map<string, Coverage>, keys: set<string>)
    requires keys <= gaps.Keys && multiset(RowsAt(gaps, keys)) == multiset{}
    ensures keys == {}
  {
    assert forall k | k in keys :: gaps[k] in RowsAt(gaps, keys);
    assert forall v :: v in RowsAt(gaps, keys) <==> v in multiset(RowsAt(gaps, keys));
  }

  lemma {:induction false} RowsTotal(rows: seq<Coverage>, gaps: map<string, Coverage>, keys: set<string>)
    requires keys <= gaps.Keys && KeyedRows(gaps)
    requires multiset(rows) == multiset(RowsAt(gaps, keys))
    ensures TotalSkipped(rows) == SumOver(gaps, keys)
    decreases |rows|
  {
    if rows == [] {
      NoKeys(gaps, keys);
    } else {
      assert rows == [rows[0]] + rows[1..];
      assert rows[0] in multiset(RowsAt(gaps, keys));
      var key :| key in keys && gaps[key] == rows[0];
      hide RowsAt, KeyedRows, SumOver;
      SumSplits(gaps, keys, key);
      RowsWithout(gaps, keys, key);
      MultisetWithout(RowsAt(gaps, keys), rows);
      RowsTotal(rows[1..], gaps, keys - {key});
    }
  }

  lemma MultisetWithout<T>(s: set<T>, rows: seq<T>)
    requires rows != [] && multiset(rows) == multiset(s)
    ensures multiset(rows[1..]) == multiset(s - {rows[0]})
  {
    assert rows == [rows[0]] + rows[1..];
    assert rows[0] in multiset(s);
    assert multiset(s) == multiset(s - {rows[0]}) + multiset{rows[0]};
    assert multiset(rows) == multiset{rows[0]} + multiset(rows[1..]);
    var rest, left := multiset(rows[1..]), multiset(s - {rows[0]});
    assert rest == (multiset{rows[0]} + rest) - multiset{rows[0]};
    assert left == (left + multiset{rows[0]}) - multiset{rows[0]};
  }

  /** The rules the coverage rows say were skipped are exactly the declined ones. */
  lemma SkippedAreDeclined(findings: seq<Finding>, coverage: seq<Coverage>, scan: Scan, inv: Inventory,
                           rules: seq<GeneratedRule>, skipped: seq<string>)
    requires IsAnalysis(findings, coverage, scan, inv, rules, skipped)
    ensures TotalSkipped(coverage) == CountWhere(scan, inv, rules, IsDeclined)
    ensures CountWhere(scan, inv, rules, IsDeclined) > 0 ==> exists row | row in coverage :: IsGap(row)
  {
    hide Sorted, Fold.MidPass, OutcomesOf, GapsOf, SumOver, KeyedRows, CountWhere;
    var gaps := GapsOf(scan, inv, rules);
    var rows :| ListsGaps(rows, gaps) && coverage == rows + SkipRows(skipped);
    GapsAreKeyed(scan, inv, rules);
    assert RowsAt(gaps, gaps.Keys) == gaps.Values;
    RowsTotal(rows, gaps, gaps.Keys);
    GapsCountDeclined(scan, inv, rules);
    SkipRowsAreComplete(skipped);
    TotalAppends(rows, SkipRows(skipped));
    if CountWhere(scan, inv, rules, IsDeclined) > 0 {
      assert rows[0] in multiset(rows);
      GapStates(gaps, rows[0]);
      assert coverage[0] == rows[0] && IsGap(coverage[0]);
    }
  }

  lemma GapStates(gaps: map<string, Coverage>, row: Coverage)
    requires KeyedRows(gaps) && row in gaps.Values
    ensures row.state == Unavailable
  {
  }

  lemma {:induction false} RulesSplit(scan: Scan, inv: Inventory, rules: seq<GeneratedRule>)
    ensures |rules| == |OutcomesOf(scan, inv, rules)| + CountWhere(scan, inv, rules, IsOwned) +
                       CountWhere(scan, inv, rules, IsDeclined) + CountWhere(scan, inv, rules, IsCleared)
  {
    hide SettleRule;
    if rules != [] {
      RulesSplit(scan, inv, rules[..|rules| - 1]);
    }
  }

  ghost predicate NamedRules(outs: seq<Fold.RuleOutcome>) {
    forall i | 0 <= i < |outs| :: outs[i].rule.ruleId != "" && outs[i].duplicateOf == "" && (outs[i].advisory ||
        outs[i].fired)
  }

  lemma PrintedOrFoldedAt(outs: seq<Fold.RuleOutcome>, marked: seq<Fold.RuleOutcome>, k: nat)
    requires NamedRules(outs) && k < |outs|
    requires Fold.MidPass(marked, outs, Fold.Outcome(outs), Fold.Order(outs))
    ensures |marked| == |outs|
    ensures |Print(marked[k])| == if Fold.Fires(outs[k]) && !Fold.KeptIn(outs, k) then 0 else 1
  {
    hide Fold.Outcome, Fold.Order, Fold.PassOver, Fold.FoldedInto, Fold.Raised, Fold.ChangeKey, Fold.QuoteKey;
    Fold.FoldOk(outs);
  }

  lemma {:induction false} PrintedOrFolded(outs: seq<Fold.RuleOutcome>, marked: seq<Fold.RuleOutcome>, n: nat)
    requires NamedRules(outs) && n <= |outs|
    requires Fold.MidPass(marked, outs, Fold.Outcome(outs), Fold.Order(outs))
    ensures |marked| == |outs| && |PrintAll(marked[..n])| + Fold.CountFolded(outs, n) == n
  {
    hide Fold.MidPass, Fold.Outcome, Fold.Order, Fold.KeptIn, Print, NamedRules;
    if n > 0 {
      PrintedOrFolded(outs, marked, n - 1);
      PrintedOrFoldedAt(outs, marked, n - 1);
      assert marked[..n][..n - 1] == marked[..n - 1];
    } else {
      FoldKeepsLength(outs, marked);
    }
  }

  lemma FoldKeepsLength(outs: seq<Fold.RuleOutcome>, marked: seq<Fold.RuleOutcome>)
    requires Fold.MidPass(marked, outs, Fold.Outcome(outs), Fold.Order(outs))
    ensures |marked| == |outs|
  {
  }

  lemma {:induction false} OutcomesAreNamed(scan: Scan, inv: Inventory, rules: seq<GeneratedRule>)
    requires forall rule | rule in rules :: rule.ruleId != ""
    ensures NamedRules(OutcomesOf(scan, inv, rules))
  {
    hide SettleRule;
    if rules != [] {
      OutcomesAreNamed(scan, inv, rules[..|rules| - 1]);
    }
  }

  /** Conservation: every selected rule is printed, folded into a printed one, owned by the removed-API
      catalog, declined and counted in a row, or cleared. */
  lemma EveryRuleIsAccountedFor(findings: seq<Finding>, coverage: seq<Coverage>, scan: Scan, inv: Inventory,
                                rules: seq<GeneratedRule>, skipped: seq<string>)
    requires IsAnalysis(findings, coverage, scan, inv, rules, skipped)
    requires forall rule | rule in rules :: rule.ruleId != ""
    ensures |rules| == |findings| + Fold.CountFolded(OutcomesOf(scan, inv, rules), |OutcomesOf(scan, inv, rules)|) +
                       CountWhere(scan, inv, rules, IsOwned) + TotalSkipped(coverage) +
                       CountWhere(scan, inv, rules, IsCleared)
  {
    var outs := OutcomesOf(scan, inv, rules);
    var marked :| Fold.MidPass(marked, outs, Fold.Outcome(outs), Fold.Order(outs)) && findings == PrintAll(marked);
    hide OutcomesOf, CountWhere, SettleRule, Fold.Outcome, Fold.Order, Fold.Marked, Fold.PassOver,
        Fold.CountFolded, NamedRules;
    RulesSplit(scan, inv, rules);
    OutcomesAreNamed(scan, inv, rules);
    PrintedOrFolded(outs, marked, |outs|);
    assert marked[..|outs|] == marked;
    SkippedAreDeclined(findings, coverage, scan, inv, rules, skipped);
  }

  // ---------- the projection and the collector ----------

  /** Every predicate the rule reads in settling is covered by the projection. */
  ghost predicate CoveredRule(scan: Scan, rule: GeneratedRule) {
    && (rule.detection in Reads(scan.catalog, rule) ==> Covered(rule.detection))
    && (rule.gate.Some? ==> Covered(rule.gate.value))
  }

  /** The cut touches only what the dynamic collectors read. */
  lemma TypedRulesKept(inv: Inventory, wants: map<string, seq<string>>, d: Detection, target: string,
          allowed: Option<int>)
    ensures TypedRules.CrdRule(Collected(inv, wants), d) == TypedRules.CrdRule(inv, d)
    ensures TypedRules.SkewRule(Collected(inv, wants), d, target, allowed) ==
            TypedRules.SkewRule(inv, d, target, allowed)
  {
    hide CutRows, TypedRules.Lagging, TypedRules.Serving, TypedRules.ProxyReadings, TypedRules.NodeReadings;
  }

  lemma ProjectionKeepsSettlement(scan: Scan, inv: Inventory, wants: map<string, seq<string>>,
          rules: seq<GeneratedRule>, rule: GeneratedRule)
    requires WantsMatch(wants, Asks(scan.catalog, rules)) && rule in rules && CoveredRule(scan, rule)
    ensures SettleRule(scan, Collected(inv, wants), rule) == SettleRule(scan, inv, rule)
  {
    hide RowRule, ApiVersionRule, GateOn, WantsMatch, Asks, Covered, Collected, Selection.IsOwned, KeepsFor,
        TypedRules.CrdRule, TypedRules.SkewRule;
    var d := rule.detection;
    TypedRulesKept(inv, wants, d, scan.target, scan.number(TrimSpace(d.value)));
    if d in Reads(scan.catalog, rule) {
      WantsKeepForEach(scan.catalog, rules, wants, rule, d);
      ProjectionKeepsOutcome(scan.lib, inv, wants, scan.served, d);
    }
    if rule.gate.Some? {
      var g := rule.gate.value;
      assert g in Reads(scan.catalog, rule);
      WantsKeepForEach(scan.catalog, rules, wants, rule, g);
      ProjectionKeepsGate(scan.lib, inv, wants, d, g, Detect(scan, inv, d));
    }
  }

  /** Analysing what the collector kept is analysing the whole objects: same findings, same gaps. */
  lemma {:induction false} ProjectionKeepsAnalysis(scan: Scan, inv: Inventory, wants: map<string, seq<string>>,
                                                   all: seq<GeneratedRule>, rules: seq<GeneratedRule>)
    requires WantsMatch(wants, Asks(scan.catalog, all))
    requires forall rule | rule in rules :: rule in all && CoveredRule(scan, rule)
    ensures OutcomesOf(scan, Collected(inv, wants), rules) == OutcomesOf(scan, inv, rules)
    ensures GapsOf(scan, Collected(inv, wants), rules) == GapsOf(scan, inv, rules)
  {
    hide SettleRule, CoveredRule, WantsMatch, Asks, Collected;
    if rules != [] {
      ProjectionKeepsAnalysis(scan, inv, wants, all, rules[..|rules| - 1]);
      ProjectionKeepsSettlement(scan, inv, wants, all, rules[|rules| - 1]);
    }
  }

  predicate TypedKind(kind: string) {
    kind in {"Node", "CustomResourceDefinition", "StorageClass"}
  }

  /** How a rule sees a wanted kind once a collection is over: as this one read it, else as an earlier one
      did, else as it failed, now or before, else as not served. */
  function Seen(job: Collect.Job, kind: string): KindRead {
    if job.Reads(kind) then RowsRead(job.answer(kind).rows)
    else if kind in job.start.crs then RowsRead(job.start.crs[kind])
    else if job.Fails(kind) then RowsUnread(job.answer(kind).reason)
    else if kind in job.start.crUnread then RowsUnread(job.start.crUnread[kind])
    else RowsNotServed
  }

  /** Whichever way the collector's workers interleave, and whatever was recorded before, a rule sees each
      wanted kind as read, failed or not served, and never as uncollected; an unwanted kind is as it was. */
  lemma CollectedKindsAreSettled(job: Collect.Job, end: Inventory, kind: string)
    requires Collect.Collects(job, true, end) && !TypedKind(kind)
    ensures RowsOf(end, kind) == if kind in job.wanted then Seen(job, kind) else RowsOf(job.start, kind)
  {
    hide Collect.Expected, Collect.Collects;
    Collect.CollectionHasOneEnd(job, true, end);
    Collect.ExpectedAt(job, kind);
  }

  /** The two collectors of one scan, the second skipping what the first read: a kind keeps the rows the first
      read, and a kind only the second could read is read. */
  lemma SecondCollectionKeeps(first: Collect.Job, second: Collect.Job, end: Inventory, kind: string)
    requires Collect.Collects(first, true, second.start) && Collect.Collects(second, true, end)
    requires second.wanted !! second.start.crs.Keys
    requires kind in first.wanted && !TypedKind(kind)
    ensures RowsOf(end, kind) ==
            if first.Reads(kind) then RowsRead(first.answer(kind).rows)
            else if second.Reads(kind) then RowsRead(second.answer(kind).rows)
            else if second.Fails(kind) then RowsUnread(second.answer(kind).reason)
            else Seen(first, kind)
  {
    hide Collect.Expected, Collect.Collects, RowsOf;
    CollectedKindsAreSettled(first, second.start, kind);
    CollectedKindsAreSettled(second, end, kind);
    Collect.CollectionHasOneEnd(first, true, second.start);
    Collect.ExpectedAt(first, kind);
  }

  /** When discovery itself fails, every wanted kind not read before is a gap with the reason on it, the
      collector has failed, and nothing else has changed. */
  lemma UndiscoveredKindsAreGaps(job: Collect.Job, end: Inventory, kind: string)
    requires Collect.Collects(job, false, end) && job.wanted != {} && !TypedKind(kind)
    ensures RowsOf(end, kind) == if kind in job.wanted && kind !in job.start.crs
                                 then RowsUnread(Collect.DiscoveryReason(job)) else RowsOf(job.start, kind)
    ensures !end.Read(job.collector) && end.ReasonOf(job.collector) == Collect.DiscoveryReason(job)
  {
  }

  /** The rule reads the kind, itself or through its gate. */
  predicate ReadsKind(rule: GeneratedRule, kind: string) {
    || ((RowScanning(rule.detection.kind) || rule.detection.kind == ApiVersionInUse) &&
        kind in ObjectKinds(rule.detection))
    || (rule.gate.Some? && kind in ObjectKinds(rule.gate.value))
  }

  /** From the cluster to the report: whether discovery failed or just the list of one kind, and in whatever
      order the workers ran, a rule reading that kind, itself or through its gate, yields no finding, is counted
      in one unavailable row, and the scan is not complete. */
  lemma FailedListIsNeverClean(job: Collect.Job, discovered: bool, inv: Inventory, kind: string, scan: Scan,
                               findings: seq<Finding>, coverage: seq<Coverage>, rules: seq<GeneratedRule>,
                               skipped: seq<string>, rule: GeneratedRule)
    requires Collect.Collects(job, discovered, inv)
    requires kind in job.wanted && kind !in job.start.crs && !TypedKind(kind)
    requires !discovered || job.Fails(kind)
    requires IsAnalysis(findings, coverage, scan, inv, rules, skipped) && rule in rules
    requires rule.detection.kind != NotDetectable && !Selection.IsOwned(scan.catalog, rule) && ReadsKind(rule, kind)
    ensures forall f | f in findings :: f.rule != rule
    ensures var s := SettleRule(scan, inv, rule);
            && s.Declines?
            && exists i | 0 <= i < |coverage| ::
                 && CountedIn(coverage[i], s.scope, s.reason)
                 && forall j | 0 <= j < |coverage| && j != i :: !CountedIn(coverage[j], s.scope, s.reason)
    ensures exists row | row in coverage :: IsGap(row)
  {
    hide Collect.Collects, IsAnalysis, RowsOf, ObjectKinds, SettleRule, Selection.IsOwned, CountedIn;
    if discovered {
      CollectedKindsAreSettled(job, inv, kind);
    } else {
      UndiscoveredKindsAreGaps(job, inv, kind);
    }
    assert Unreadable(inv, kind);
    if kind in ObjectKinds(rule.detection) {
      KindsNeedText(rule.detection, kind);
    }
    assert Blind(inv, rule);
    NoFalseClean(findings, coverage, scan, inv, rules, skipped, rule);
  }

  lemma KindsNeedText(d: Detection, kind: string)
    requires kind in ObjectKinds(d)
    ensures d.objectKind != ""
  {
    BlankNamesNoKind();
  }

  lemma BlankNamesNoKind()
    ensures Split("", '|') == [""] && NonBlank([""]) == []
  {
    assert [""][1..] == [];
  }

  /** The job of the second collector: the kinds the rules on the path want, but for the two with collectors of
      their own and those read already. */
  ghost predicate CollectsFor(job: Collect.Job, wants: map<string, seq<string>>) {
    job.wanted == wants.Keys - {"Node", "CustomResourceDefinition"} - job.start.crs.Keys
  }

  /** A selected rule is never declined because nobody looked: every kind one of its predicates reads is wanted,
      and a wanted kind is read, failed or not served. */
  lemma NoSelectedRuleIsUncollected(cat: Deprecations.Catalog, rules: seq<GeneratedRule>,
                                    wants: map<string, seq<string>>, job: Collect.Job, discovered: bool,
                                    end: Inventory, rule: GeneratedRule, d: Detection, kind: string)
    requires WantsMatch(wants, Asks(cat, rules)) && CollectsFor(job, wants)
    requires Collect.Collects(job, discovered, end)
    requires rule in rules && d in Reads(cat, rule) && kind in ObjectKinds(d)
    ensures !RowsOf(end, kind).RowsNotCollected?
  {
    hide Collect.Collects, Reads, ObjectKinds, Asks, Seen;
    if !TypedKind(kind) {
      AsksHold(cat, rules, rule, d, kind);
      KindsAreNamed(d, kind);
      assert kind in wants;
      assert kind in job.wanted || kind in job.start.crs;
      if discovered {
        CollectedKindsAreSettled(job, end, kind);
        SeenIsSettled(job, kind);
      } else if job.wanted == {} {
        CollectedNothing(job, end);
      } else {
        UndiscoveredKindsAreGaps(job, end, kind);
      }
    }
  }

  /** In the rule's own terms: neither its detection nor its gate, where it is settled by objects of a kind, ever
      finds that kind uncollected. */
  lemma NoRuleFindsItsKindUncollected(cat: Deprecations.Catalog, rules: seq<GeneratedRule>,
                                      wants: map<string, seq<string>>, job: Collect.Job, discovered: bool,
                                      end: Inventory, rule: GeneratedRule, kind: string)
    requires WantsMatch(wants, Asks(cat, rules)) && CollectsFor(job, wants)
    requires Collect.Collects(job, discovered, end)
    requires rule in rules && !Selection.IsOwned(cat, rule) && ReadsKind(rule, kind)
    ensures !RowsOf(end, kind).RowsNotCollected?
  {
    hide Collect.Collects, Reads, ObjectKinds, Asks, RowsOf, Selection.IsOwned;
    var d := if rule.gate.Some? && kind in ObjectKinds(rule.gate.value) then rule.gate.value else rule.detection;
    ReadsMeans(cat, rule, d);
    NoSelectedRuleIsUncollected(cat, rules, wants, job, discovered, end, rule, d, kind);
  }

  lemma SeenIsSettled(job: Collect.Job, kind: string)
    ensures !Seen(job, kind).RowsNotCollected?
  {
  }

  lemma CollectedNothing(job: Collect.Job, end: Inventory)
    requires Collect.Collects(job, false, end) && job.wanted == {}
    ensures end == job.start
  {
  }
}
