/** Findings and coverage as the report carries them. */
module Report {
  import opened Text
  import opened Sorting

  datatype Severity = Critical | High | Medium | Low | Info | Unrecognised

  function Rank(s: Severity): nat {
    match s
    case Critical => 5
    case High => 4
    case Medium => 3
    case Low => 2
    case Info => 1
    case Unrecognised => 0
  }

  /** A row may carry no state: the one for served but unused versions does when there is nothing to say. */
  datatype CoverageState = Complete | Partial | Unavailable | Unstated

  datatype Coverage = Coverage(source: string, scope: string, state: CoverageState, reason: string, rulesSkipped: nat)

  datatype ScanStatus = ScanComplete | ScanPartial | ScanInsufficientData

  predicate IsGap(c: Coverage) {
    c.state == Unavailable || c.state == Partial
  }

  /** The scan is complete exactly when no row reports a gap, and it is insufficient when some row does and
      none reports a complete check. */
  method StatusFor(coverage: seq<Coverage>) returns (status: ScanStatus)
    ensures status == ScanComplete <==> forall c | c in coverage :: !IsGap(c)
    ensures status == ScanInsufficientData <==>
            (exists c | c in coverage :: IsGap(c)) && forall c | c in coverage :: c.state != Complete
  {
    var unavailable, partial, complete := 0, 0, 0;
    for i := 0 to |coverage|
      invariant 0 <= unavailable && 0 <= partial && 0 <= complete
      invariant unavailable + partial == 0 <==> forall k | 0 <= k < i :: !IsGap(coverage[k])
      invariant complete == 0 <==> forall k | 0 <= k < i :: coverage[k].state != Complete
    {
      match coverage[i].state {
        case Unavailable => unavailable := unavailable + 1;
        case Partial => partial := partial + 1;
        case Complete => complete := complete + 1;
        case Unstated =>
      }
    }
    assert forall c :: c in coverage <==> exists k | 0 <= k < |coverage| :: coverage[k] == c;
    if complete == 0 && (unavailable > 0 || partial > 0) {
      return ScanInsufficientData;
    } else if unavailable > 0 || partial > 0 {
      return ScanPartial;
    } else {
      return ScanComplete;
    }
  }

  /** Critical comes before high, then medium, low and info, and anything unrecognised is last. */
  lemma SeveritiesRank()
    ensures Rank(Critical) > Rank(High) > Rank(Medium) > Rank(Low) > Rank(Info) > Rank(Unrecognised)
  {
  }

  // ---------- the printed order ----------

  /** What the report sorts a finding by. */
  datatype Place = Place(rank: nat, ruleId: string, resource: string)

  predicate PlaceLeq(a: Place, b: Place) {
    if a.rank != b.rank then a.rank > b.rank
    else if a.ruleId != b.ruleId then TextLeq(a.ruleId, b.ruleId)
    else TextLeq(a.resource, b.resource)
  }

  lemma PlaceLeqOrders(a: Place, b: Place, c: Place)
    ensures PlaceLeq(a, b) || PlaceLeq(b, a)
    ensures PlaceLeq(a, b) && PlaceLeq(b, a) ==> a == b
    ensures PlaceLeq(a, b) && PlaceLeq(b, c) ==> PlaceLeq(a, c)
  {
    hide TextLeq;
    TextLeqOrders(a.ruleId, b.ruleId, c.ruleId);
    TextLeqOrders(a.ruleId, c.ruleId, b.ruleId);
    TextLeqOrders(b.ruleId, c.ruleId, a.ruleId);
    TextLeqOrders(a.resource, b.resource, c.resource);
  }

  function ByPlace<T>(place: T -> Place): (T, T) -> bool {
    (a, b) => PlaceLeq(place(a), place(b))
  }

  lemma ByPlaceTotal<T(!new)>(place: T -> Place)
    ensures TotalPreorder(ByPlace(place))
  {
    hide PlaceLeq;
    var leq := ByPlace(place);
    forall a, b
      ensures leq(a, b) || leq(b, a)
    {
      PlaceLeqOrders(place(a), place(b), place(b));
    }
    forall a, b, c | leq(a, b) && leq(b, c)
      ensures leq(a, c)
    {
      PlaceLeqOrders(place(a), place(b), place(c));
    }
  }

  /** What is printed before another is more severe, or as severe and of an earlier rule id, or of the same rule
      and an earlier resource or the same. */
  lemma PrintedBefore<T(!new)>(findings: seq<T>, place: T -> Place, i: nat, j: nat)
    requires Sorted(findings, ByPlace(place)) && i < j < |findings|
    ensures var a, b := place(findings[i]), place(findings[j]);
            || a.rank > b.rank
            || (a.rank == b.rank && a.ruleId != b.ruleId && TextLeq(a.ruleId, b.ruleId))
            || (a.rank == b.rank && a.ruleId == b.ruleId && TextLeq(a.resource, b.resource))
  {
    hide TextLeq;
    assert ByPlace(place)(findings[i], findings[j]);
  }

  /** Where no two findings share a place, their printed order is settled. */
  lemma DistinctPlacesDecide<T(!new)>(s: seq<T>, place: T -> Place)
    requires forall x, y | x in s && y in s && place(x) == place(y) :: x == y
    ensures Decisive(s, ByPlace(place))
  {
    hide PlaceLeq;
    forall x, y | x in s && y in s && ByPlace(place)(x, y) && ByPlace(place)(y, x)
      ensures x == y
    {
      PlaceLeqOrders(place(x), place(y), place(y));
    }
  }

  /** Sorts the findings in place: most severe first, then by rule and resource, ties as they came. */
  method Sort<T(!new)>(findings: array<T>, place: T -> Place)
    modifies findings
    ensures findings[..] == SortBy(old(findings[..]), ByPlace(place))
    ensures Sorted(findings[..], ByPlace(place)) && multiset(findings[..]) == multiset(old(findings[..]))
    ensures forall x :: Alike(findings[..], x, ByPlace(place)) == Alike(old(findings[..]), x, ByPlace(place))
  {
    var sorted := SortBy(findings[..], ByPlace(place));
    ghost var before := findings[..];
    ByPlaceTotal(place);
    SortBySorts(before, ByPlace(place));
    forall x
      ensures Alike(sorted, x, ByPlace(place)) == Alike(before, x, ByPlace(place))
    {
      SortIsStable(before, x, ByPlace(place));
    }
    assert |sorted| == |multiset(sorted)| == |multiset(before)| == findings.Length;
    forall i | 0 <= i < findings.Length {
      findings[i] := sorted[i];
    }
    assert findings[..] == sorted;
  }

  // ---------- folding skipped rules by reason ----------

  /** A rule that could not run: why, and the label that names it. */
  datatype Skip = Skip(reason: string, name: string)

  function LabelsFor(skips: seq<Skip>, reason: string): seq<string> {
    if skips == [] then []
    else LabelsFor(skips[..|skips| - 1], reason) +
         (if skips[|skips| - 1].reason == reason then [skips[|skips| - 1].name] else [])
  }

  function Reasons(skips: seq<Skip>): set<string> {
    set s | s in skips :: s.reason
  }

  function RowFor(source: string, skips: seq<Skip>, reason: string): Coverage {
    Coverage(source, Join(SortTexts(LabelsFor(skips, reason)), ", "), Unavailable, reason, |LabelsFor(skips, reason)|)
  }

  function RowsFor(source: string, skips: seq<Skip>, reasons: seq<string>): seq<Coverage> {
    if reasons == [] then [] else [RowFor(source, skips, reasons[0])] + RowsFor(source, skips, reasons[1..])
  }

  function TotalSkipped(rows: seq<Coverage>): nat {
    if rows == [] then 0 else rows[0].rulesSkipped + TotalSkipped(rows[1..])
  }

  /** One unavailable row per reason, in the order of the reasons' text. */
  method FoldSkipped(source: string, skips: seq<Skip>) returns (rows: seq<Coverage>)
    ensures rows == RowsFor(source, skips, Listing(Reasons(skips)))
  {
    hide RowsFor, LabelsFor, SortTexts;
    var byReason := ByReason(skips);
    var order := SortedKeys(byReason.Keys);
    ListingIsUnique(order, Listing(Reasons(skips)), Reasons(skips));
    rows := [];
    NoMoreRows(source, skips, order);
    for i := 0 to |order|
      invariant rows + RowsFor(source, skips, order[i..]) == RowsFor(source, skips, order)
    {
      var labels := SortTexts(byReason[order[i]]);
      SortTextsForgetsOrder(byReason[order[i]], byReason[order[i]]);
      assert |labels| == |multiset(labels)| == |multiset(byReason[order[i]])| == |byReason[order[i]]|;
      NextRow(source, skips, order, i);
      rows := rows + [Coverage(source, Join(labels, ", "), Unavailable, order[i], |labels|)];
    }
  }

  lemma NoMoreRows(source: string, skips: seq<Skip>, order: seq<string>)
    ensures RowsFor(source, skips, order[|order|..]) == [] && order[0..] == order
  {
  }

  lemma NextRow(source: string, skips: seq<Skip>, order: seq<string>, i: nat)
    requires i < |order|
    ensures RowsFor(source, skips, order[i..]) == [RowFor(source, skips, order[i])] + RowsFor(source, skips,
        order[i + 1..])
  {
    assert order[i..][1..] == order[i + 1..];
  }

  /** The labels under each reason, in the order they came. */
  method ByReason(skips: seq<Skip>) returns (byReason: map<string, seq<string>>)
    ensures byReason.Keys == Reasons(skips)
    ensures forall r | r in byReason :: byReason[r] == LabelsFor(skips, r)
  {
    byReason := map[];
    for i := 0 to |skips|
      invariant byReason.Keys == Reasons(skips[..i])
      invariant forall r | r in byReason :: byReason[r] == LabelsFor(skips[..i], r)
    {
      var s := skips[i];
      assert skips[..i + 1] == skips[..i] + [s] && skips[..i + 1][..i] == skips[..i];
      if s.reason !in byReason {
        NoLabels(skips[..i], s.reason);
      }
      var labels := if s.reason in byReason then byReason[s.reason] else [];
      byReason := byReason[s.reason := labels + [s.name]];
    }
    assert skips[..|skips|] == skips;
  }

  lemma {:induction false} NoLabels(skips: seq<Skip>, reason: string)
    requires reason !in Reasons(skips)
    ensures LabelsFor(skips, reason) == []
  {
    if skips != [] {
      assert skips[|skips| - 1] in skips;
      NoLabels(skips[..|skips| - 1], reason);
    }
  }

  function CountIn(skips: seq<Skip>, reasons: set<string>): nat {
    if skips == [] then 0
    else CountIn(skips[..|skips| - 1], reasons) + if skips[|skips| - 1].reason in reasons then 1 else 0
  }

  lemma {:induction false} CountSplits(skips: seq<Skip>, reason: string, rest: set<string>)
    requires reason !in rest
    ensures CountIn(skips, {reason} + rest) == |LabelsFor(skips, reason)| + CountIn(skips, rest)
  {
    if skips != [] {
      CountSplits(skips[..|skips| - 1], reason, rest);
    }
  }

  lemma {:induction false} RowsCount(source: string, skips: seq<Skip>, reasons: seq<string>)
    requires forall i, j | 0 <= i < j < |reasons| :: reasons[i] != reasons[j]
    ensures TotalSkipped(RowsFor(source, skips, reasons)) == CountIn(skips, set r | r in reasons)
  {
    if reasons == [] {
      CountNothing(skips);
      assert (set r | r in reasons) == {};
    } else {
      var rest := set r | r in reasons[1..];
      RowsCount(source, skips, reasons[1..]);
      CountSplits(skips, reasons[0], rest);
      assert (set r | r in reasons) == {reasons[0]} + rest;
    }
  }

  lemma {:induction false} CountNothing(skips: seq<Skip>)
    ensures CountIn(skips, {}) == 0
  {
    if skips != [] {
      CountNothing(skips[..|skips| - 1]);
    }
  }

  lemma {:induction false} CountAll(skips: seq<Skip>, reasons: set<string>)
    requires Reasons(skips) <= reasons
    ensures CountIn(skips, reasons) == |skips|
  {
    if skips != [] {
      assert skips[|skips| - 1] in skips;
      assert forall s | s in skips[..|skips| - 1] :: s in skips;
      CountAll(skips[..|skips| - 1], reasons);
    }
  }

  /** Folding counts every skipped rule once, and every row is a gap. */
  lemma FoldingCountsAll(source: string, skips: seq<Skip>)
    ensures TotalSkipped(RowsFor(source, skips, Listing(Reasons(skips)))) == |skips|
    ensures forall row | row in RowsFor(source, skips, Listing(Reasons(skips))) ::
              row.state == Unavailable && row.reason in Reasons(skips)
  {
    var order := Listing(Reasons(skips));
    RowsCount(source, skips, order);
    assert (set r | r in order) == Reasons(skips);
    CountAll(skips, Reasons(skips));
    RowsAreGaps(source, skips, order);
  }

  lemma {:induction false} RowsAreGaps(source: string, skips: seq<Skip>, reasons: seq<string>)
    ensures forall row | row in RowsFor(source, skips, reasons) :: row.state == Unavailable && row.reason in reasons
  {
    if reasons != [] {
      RowsAreGaps(source, skips, reasons[1..]);
    }
  }
}
