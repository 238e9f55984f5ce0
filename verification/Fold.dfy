/** Folding fired rules that report the same change on the same objects. */
module Fold {
  import opened Text
  import opened Sorting
  import opened AddonVersions
  import opened Report
  import opened Rules

  /** One rule that printed or fired. affected is the sorted, capped list of named objects. */
  datatype RuleOutcome = RuleOutcome(rule: GeneratedRule, advisory: bool, fired: bool, affected: seq<string>,
                                     matched: nat, duplicateOf: string, alsoRaisedBy: seq<string>)

  predicate Fires(o: RuleOutcome) {
    !o.advisory && o.fired
  }

  // ---------- the order ----------

  datatype Turn = Turn(rank: nat, version: Version, index: nat)

  function TurnOf(outs: seq<RuleOutcome>, i: nat): Turn {
    if i < |outs| then Turn(Rank(outs[i].rule.severity), Parse(outs[i].rule.appliesAt), i) else Turn(0, [], i)
  }

  /** Most severe first, then the earliest version, then list order. */
  predicate TurnLeq(a: Turn, b: Turn) {
    if a.rank != b.rank then a.rank > b.rank
    else if Compare(a.version, b.version) != 0 then Compare(a.version, b.version) < 0
    else a.index <= b.index
  }

  lemma TurnLeqOrders(a: Turn, b: Turn, c: Turn)
    ensures TurnLeq(a, b) || TurnLeq(b, a)
    ensures TurnLeq(a, b) && TurnLeq(b, a) ==> a.index == b.index
    ensures TurnLeq(a, b) && TurnLeq(b, c) ==> TurnLeq(a, c)
  {
    hide Compare;
    CompareIsTotalPreorder(a.version, b.version, c.version);
    CompareIsTotalPreorder(b.version, c.version, a.version);
    CompareIsTotalPreorder(c.version, b.version, a.version);
    CompareIsTotalPreorder(b.version, a.version, c.version);
  }

  function Earlier(outs: seq<RuleOutcome>): (nat, nat) -> bool {
    (i: nat, j: nat) => TurnLeq(TurnOf(outs, i), TurnOf(outs, j))
  }

  lemma EarlierOrders(outs: seq<RuleOutcome>, s: seq<nat>)
    ensures TotalPreorder(Earlier(outs)) && Decisive(s, Earlier(outs))
  {
    hide TurnLeq;
    var leq := Earlier(outs);
    forall i: nat, j: nat
      ensures leq(i, j) || leq(j, i)
      ensures leq(i, j) && leq(j, i) ==> i == j
    {
      TurnLeqOrders(TurnOf(outs, i), TurnOf(outs, j), TurnOf(outs, j));
    }
    forall i: nat, j: nat, k: nat | leq(i, j) && leq(j, k)
      ensures leq(i, k)
    {
      TurnLeqOrders(TurnOf(outs, i), TurnOf(outs, j), TurnOf(outs, k));
    }
  }

  function Order(outs: seq<RuleOutcome>): seq<nat> {
    SortBy(Indices(|outs|), Earlier(outs))
  }

  /** The order lists every outcome once, each one no later than those after it. */
  lemma OrderLists(outs: seq<RuleOutcome>)
    ensures var order := Order(outs);
            && |order| == |outs|
            && (forall i: nat :: i in order <==> i < |outs|)
            && InRange(order, |outs|)
            && (forall j, k | 0 <= j < k < |order| :: order[j] != order[k] && Earlier(outs)(order[j], order[k]))
            && (forall j, k | 0 <= j < k < |order| :: ComesBefore(outs, order[j], order[k]))
  {
    hide TurnLeq, SortBy, TotalPreorder, ComesBefore;
    var order, indices := Order(outs), Indices(|outs|);
    EarlierOrders(outs, indices);
    SortBySorts(indices, Earlier(outs));
    assert |order| == |multiset(order)| == |multiset(indices)| == |indices|;
    forall i: nat
      ensures i in order <==> i < |outs|
    {
      assert i in order <==> i in multiset(order);
      assert i in indices <==> i in multiset(indices);
      assert i < |outs| ==> indices[i] == i;
    }
    forall k | 0 <= k < |order|
      ensures order[k] < |outs|
    {
      assert order[k] in order;
    }
    MultisetOfDistinct(indices, set i | i in indices);
    forall j, k | 0 <= j < k < |order|
      ensures order[j] != order[k] && Earlier(outs)(order[j], order[k])
    {
      if order[j] == order[k] {
        TwiceCounts(order, j, k);
      }
    }
    forall j, k | 0 <= j < k < |order|
      ensures ComesBefore(outs, order[j], order[k])
    {
      EarlierMeans(outs, order[j], order[k]);
    }
  }

  /** More severe; or as severe and of an earlier version; or neither tells them apart and it is listed first. */
  ghost predicate ComesBefore(outs: seq<RuleOutcome>, i: nat, j: nat) {
    && i < |outs| && j < |outs|
    && var a, b := outs[i].rule, outs[j].rule;
       || Rank(a.severity) > Rank(b.severity)
       || (Rank(a.severity) == Rank(b.severity) && VersionOrder(a.appliesAt, b.appliesAt) < 0)
       || (Rank(a.severity) == Rank(b.severity) && VersionOrder(a.appliesAt, b.appliesAt) == 0 && i < j)
  }

  lemma EarlierMeans(outs: seq<RuleOutcome>, i: nat, j: nat)
    requires i < |outs| && j < |outs| && i != j && Earlier(outs)(i, j)
    ensures ComesBefore(outs, i, j)
  {
    hide Compare, Rank, Parse;
  }

  // ---------- the keys ----------

  function Objects(o: RuleOutcome): string {
    Join(SortTexts(o.affected), "\U{0001}")
  }

  /** The same slug with the same detection on the same objects. */
  function ChangeKey(o: RuleOutcome): string {
    "d|" + Join(ChangeParts(o), "|")
  }

  function ChangeParts(o: RuleOutcome): seq<string> {
    var d := o.rule.detection;
    [o.rule.Slug(), KindText(d.kind), d.objectKind, d.namespace, d.objectName, d.target, d.value, Objects(o)]
  }

  /** The same quote on the same objects. */
  function QuoteKey(o: RuleOutcome): string {
    "q|" + o.rule.quote + "|" + Objects(o)
  }

  predicate SharesKey(a: RuleOutcome, b: RuleOutcome) {
    ChangeKey(a) == ChangeKey(b) || QuoteKey(a) == QuoteKey(b)
  }

  predicate HasKey(o: RuleOutcome, key: string) {
    key == ChangeKey(o) || key == QuoteKey(o)
  }

  /** A change key never equals a quote key. */
  lemma KeysDiffer(a: RuleOutcome, b: RuleOutcome)
    ensures ChangeKey(a) != QuoteKey(b)
  {
    hide Objects;
    assert ChangeKey(a)[0] == 'd' && QuoteKey(b)[0] == 'q';
  }

  /** No object's name is empty or holds the separator. */
  predicate NamedPlainly(o: RuleOutcome) {
    forall ref | ref in o.affected :: ref != "" && '\U{0001}' !in ref
  }

  /** The parts of the two change keys hold as many bars, part by part: an object kind may name several
      kinds, and a value may be a pattern with alternatives. */
  predicate BarsAgree(a: RuleOutcome, b: RuleOutcome) {
    forall i | 0 <= i < 7 :: Count(ChangeParts(a)[i], '|') == Count(ChangeParts(b)[i], '|')
  }

  lemma SameObjects(a: RuleOutcome, b: RuleOutcome)
    requires NamedPlainly(a) && NamedPlainly(b)
    ensures Objects(a) == Objects(b) <==> multiset(a.affected) == multiset(b.affected)
  {
    hide SortTexts;
    var sa, sb := SortTexts(a.affected), SortTexts(b.affected);
    SortTextsForgetsOrder(a.affected, a.affected);
    SortTextsForgetsOrder(b.affected, b.affected);
    if Objects(a) == Objects(b) {
      forall ref | ref in sa + sb
        ensures ref != "" && '\U{0001}' !in ref
      {
        assert ref in multiset(sa) || ref in multiset(sb);
        assert ref in a.affected || ref in b.affected;
      }
      JoinOfPlain(sa, sb, '\U{0001}');
    } else if multiset(a.affected) == multiset(b.affected) {
      SortTextsForgetsOrder(a.affected, b.affected);
    }
  }

  /** What sharing a key means: one change, detected the same way on the same objects, or one quote on the
      same objects. */
  lemma SharedKeyMeans(a: RuleOutcome, b: RuleOutcome)
    requires NamedPlainly(a) && NamedPlainly(b)
    requires BarsAgree(a, b) && Count(a.rule.quote, '|') == Count(b.rule.quote, '|')
    ensures ChangeKey(a) == ChangeKey(b) <==>
            var d, e := a.rule.detection, b.rule.detection;
            && a.rule.Slug() == b.rule.Slug() && KindText(d.kind) == KindText(e.kind)
            && d.objectKind == e.objectKind && d.namespace == e.namespace && d.objectName == e.objectName
            && d.target == e.target && d.value == e.value && multiset(a.affected) == multiset(b.affected)
    ensures QuoteKey(a) == QuoteKey(b) <==>
            a.rule.quote == b.rule.quote && multiset(a.affected) == multiset(b.affected)
  {
    hide Objects, KindText, Join;
    SameObjects(a, b);
    if ChangeKey(a) == ChangeKey(b) {
      assert Join(ChangeParts(a), "|") == ChangeKey(a)[2..] == ChangeKey(b)[2..];
      JoinDetermines(ChangeParts(a), ChangeParts(b), '|');
      assert forall i | 0 <= i < 8 :: ChangeParts(a)[i] == ChangeParts(b)[i];
    }
    if QuoteKey(a) == QuoteKey(b) {
      assert a.rule.quote + "|" + Objects(a) == QuoteKey(a)[2..] == QuoteKey(b)[2..];
      SameHeads(a.rule.quote, Objects(a), b.rule.quote, Objects(b), '|');
    }
  }

  // ---------- the greedy pass ----------

  /** Which outcome each key was first seen on, and which outcome each folded one went into. */
  datatype Pass = Pass(seen: map<string, nat>, into: map<nat, nat>)

  function Step(outs: seq<RuleOutcome>, p: Pass, i: nat): Pass
    requires i < |outs|
  {
    var o := outs[i];
    if !Fires(o) then p
    else if ChangeKey(o) in p.seen then p.(into := p.into[i := p.seen[ChangeKey(o)]])
    else if QuoteKey(o) in p.seen then p.(into := p.into[i := p.seen[QuoteKey(o)]])
    else p.(seen := p.seen[ChangeKey(o) := i][QuoteKey(o) := i])
  }

  predicate InRange(order: seq<nat>, n: nat) {
    forall k | 0 <= k < |order| :: order[k] < n
  }

  function PassOver(outs: seq<RuleOutcome>, order: seq<nat>): Pass
    requires InRange(order, |outs|)
  {
    if order == [] then Pass(map[], map[])
    else Step(outs, PassOver(outs, order[..|order| - 1]), order[|order| - 1])
  }

  function Outcome(outs: seq<RuleOutcome>): Pass {
    OrderLists(outs);
    PassOver(outs, Order(outs))
  }

  ghost predicate Retained(outs: seq<RuleOutcome>, p: Pass, order: seq<nat>, i: nat) {
    i in order && i < |outs| && Fires(outs[i]) && i !in p.into
  }

  ghost predicate SeenInv(outs: seq<RuleOutcome>, order: seq<nat>, p: Pass) {
    && (forall key | key in p.seen :: Retained(outs, p, order, p.seen[key]) && HasKey(outs[p.seen[key]], key))
    && (forall i: nat, key | Retained(outs, p, order, i) && HasKey(outs[i], key) :: key in p.seen && p.seen[key] == i)
  }

  /** Each folded outcome went into a retained one that precedes it and shares a key. */
  ghost predicate IntoInv(outs: seq<RuleOutcome>, order: seq<nat>, p: Pass) {
    forall i: nat | i in p.into ::
      && i in order && i < |outs| && Fires(outs[i])
      && Retained(outs, p, order, p.into[i])
      && SharesKey(outs[i], outs[p.into[i]])
      && Precedes(order, p.into[i], i)
  }

  ghost predicate Precedes(order: seq<nat>, j: nat, i: nat) {
    exists a, b | 0 <= a < b < |order| :: order[a] == j && order[b] == i
  }

  lemma {:induction false} PassInv(outs: seq<RuleOutcome>, order: seq<nat>)
    requires InRange(order, |outs|)
    requires forall j, k | 0 <= j < k < |order| :: order[j] != order[k]
    ensures PassOk(outs, order, PassOver(outs, order))
  {
    hide Step;
    if order != [] {
      var front, i := order[..|order| - 1], order[|order| - 1];
      assert order == front + [i] && i !in front;
      PassInv(outs, front);
      StepInv(outs, front, PassOver(outs, front), i);
    }
  }

  lemma PrecedesGrows(order: seq<nat>, i: nat, j: nat, k: nat)
    ensures Precedes(order, j, k) ==> Precedes(order + [i], j, k)
    ensures j in order ==> Precedes(order + [i], j, i)
  {
    if Precedes(order, j, k) {
      var a, b :| 0 <= a < b < |order| && order[a] == j && order[b] == k;
      assert (order + [i])[a] == j && (order + [i])[b] == k;
    }
    if j in order {
      var a :| 0 <= a < |order| && order[a] == j;
      assert (order + [i])[a] == j && (order + [i])[|order|] == i;
    }
  }

  ghost predicate PassOk(outs: seq<RuleOutcome>, order: seq<nat>, p: Pass) {
    SeenInv(outs, order, p) && IntoInv(outs, order, p)
  }

  lemma IntoGrows(outs: seq<RuleOutcome>, order: seq<nat>, p: Pass, i: nat)
    requires IntoInv(outs, order, p) && i !in order
    ensures IntoInv(outs, order + [i], p)
  {
    hide SharesKey, Precedes, Fires;
    forall k: nat | k in p.into
      ensures Precedes(order + [i], p.into[k], k)
    {
      PrecedesGrows(order, i, p.into[k], k);
    }
  }

  lemma StepSkips(outs: seq<RuleOutcome>, order: seq<nat>, p: Pass, i: nat)
    requires PassOk(outs, order, p) && i < |outs| && i !in order && !Fires(outs[i])
    ensures PassOk(outs, order + [i], p)
  {
    hide HasKey, SharesKey, Precedes;
    IntoGrows(outs, order, p, i);
  }

  lemma StepFolds(outs: seq<RuleOutcome>, order: seq<nat>, p: Pass, i: nat, j: nat)
    requires PassOk(outs, order, p) && i < |outs| && i !in order && Fires(outs[i])
    requires Retained(outs, p, order, j) && SharesKey(outs[i], outs[j])
    ensures PassOk(outs, order + [i], p.(into := p.into[i := j]))
  {
    hide HasKey, SharesKey, Precedes, Fires;
    IntoGrows(outs, order, p, i);
    PrecedesGrows(order, i, j, j);
  }

  lemma StepKeeps(outs: seq<RuleOutcome>, order: seq<nat>, p: Pass, i: nat)
    requires PassOk(outs, order, p) && i < |outs| && i !in order && Fires(outs[i])
    requires ChangeKey(outs[i]) !in p.seen && QuoteKey(outs[i]) !in p.seen
    ensures PassOk(outs, order + [i], p.(seen := p.seen[ChangeKey(outs[i]) := i][QuoteKey(outs[i]) := i]))
  {
    hide ChangeKey, QuoteKey, Precedes, SharesKey;
    IntoGrows(outs, order, p, i);
    assert i !in p.into;
  }

  lemma StepInv(outs: seq<RuleOutcome>, order: seq<nat>, p: Pass, i: nat)
    requires i < |outs| && i !in order
    requires PassOk(outs, order, p)
    ensures PassOk(outs, order + [i], Step(outs, p, i))
  {
    hide ChangeKey, QuoteKey, IntoInv;
    var o := outs[i];
    if !Fires(o) {
      StepSkips(outs, order, p, i);
    } else if ChangeKey(o) in p.seen {
      KeysDiffer(o, outs[p.seen[ChangeKey(o)]]);
      StepFolds(outs, order, p, i, p.seen[ChangeKey(o)]);
    } else if QuoteKey(o) in p.seen {
      KeysDiffer(outs[p.seen[QuoteKey(o)]], o);
      StepFolds(outs, order, p, i, p.seen[QuoteKey(o)]);
    } else {
      StepKeeps(outs, order, p, i);
    }
  }

  // ---------- marking the outcomes ----------

  function AlsoRaised(o: RuleOutcome): string {
    o.rule.ruleId + " (at " + o.rule.appliesAt + ")"
  }

  /** The outcomes that went into j, in the order they were met. */
  function FoldedInto(into: map<nat, nat>, order: seq<nat>, j: nat): seq<nat> {
    if order == [] then []
    else
      var i := order[|order| - 1];
      FoldedInto(into, order[..|order| - 1], j) + if i in into && into[i] == j then [i] else []
  }

  function Raised(outs: seq<RuleOutcome>, folded: seq<nat>): seq<string>
    requires InRange(folded, |outs|)
  {
    if folded == [] then [] else [AlsoRaised(outs[folded[0]])] + Raised(outs, folded[1..])
  }

  lemma {:induction false} FoldedIntoIs(into: map<nat, nat>, order: seq<nat>, j: nat)
    ensures forall i: nat :: i in FoldedInto(into, order, j) <==> i in order && i in into && into[i] == j
  {
    if order != [] {
      FoldedIntoIs(into, order[..|order| - 1], j);
      assert order == order[..|order| - 1] + [order[|order| - 1]];
    }
  }

  /** An outcome once the pass is known. */
  function Marked(outs: seq<RuleOutcome>, p: Pass, order: seq<nat>, i: nat): RuleOutcome
    requires InRange(order, |outs|) && i < |outs|
    requires forall k: nat | k in p.into :: p.into[k] < |outs|
  {
    var folded := FoldedInto(p.into, order, i);
    FoldedIntoInRange(p.into, order, i, |outs|);
    outs[i].(duplicateOf := if i in p.into then outs[p.into[i]].rule.ruleId else outs[i].duplicateOf,
             alsoRaisedBy := outs[i].alsoRaisedBy + Raised(outs, folded))
  }

  lemma {:induction false} FoldedIntoInRange(into: map<nat, nat>, order: seq<nat>, j: nat, n: nat)
    requires InRange(order, n)
    ensures InRange(FoldedInto(into, order, j), n)
  {
    if order != [] {
      FoldedIntoInRange(into, order[..|order| - 1], j, n);
    }
  }

  lemma {:induction false} RaisedAppend(outs: seq<RuleOutcome>, folded: seq<nat>, i: nat)
    requires InRange(folded + [i], |outs|)
    ensures InRange(folded, |outs|) && i < |outs|
    ensures Raised(outs, folded + [i]) == Raised(outs, folded) + [AlsoRaised(outs[i])]
  {
    hide AlsoRaised;
    assert (folded + [i])[|folded|] == i;
    assert forall k | 0 <= k < |folded| :: (folded + [i])[k] == folded[k];
    if folded != [] {
      assert (folded + [i])[1..] == folded[1..] + [i];
      RaisedAppend(outs, folded[1..], i);
    }
  }

  lemma {:induction false} FoldedIntoIgnores(into: map<nat, nat>, order: seq<nat>, i: nat, j: nat, k: nat)
    requires i !in order
    ensures FoldedInto(into[i := j], order, k) == FoldedInto(into, order, k)
  {
    if order != [] {
      var last := order[|order| - 1];
      assert last in order && order == order[..|order| - 1] + [last];
      FoldedIntoIgnores(into, order[..|order| - 1], i, j, k);
    }
  }

  /** Folding i into j changes what is written at i and at j, and nowhere else. */
  lemma MarkedFolds(outs: seq<RuleOutcome>, p: Pass, order: seq<nat>, i: nat, j: nat, k: nat)
    requires InRange(order + [i], |outs|) && InRange(order, |outs|) && i < |outs| && j < |outs| && k < |outs|
    requires forall x: nat | x in p.into :: p.into[x] < |outs|
    requires i !in order && i !in p.into && i != j
    ensures var p' := p.(into := p.into[i := j]);
            var before := Marked(outs, p, order, k);
            Marked(outs, p', order + [i], k) ==
            if k == i then before.(duplicateOf := outs[j].rule.ruleId)
            else if k == j then before.(alsoRaisedBy := before.alsoRaisedBy + [AlsoRaised(outs[i])])
            else before
  {
    hide AlsoRaised, Raised;
    var into' := p.into[i := j];
    assert (order + [i])[..|order|] == order;
    FoldedIntoIgnores(p.into, order, i, j, k);
    FoldedIntoInRange(p.into, order, k, |outs|);
    var before := FoldedInto(p.into, order, k);
    assert FoldedInto(into', order + [i], k) == FoldedInto(into', order, k) + if j == k then [i] else [];
    hide FoldedInto;
    if k == j {
      RaisedAppend(outs, before, i);
      assert outs[k].alsoRaisedBy + (Raised(outs, before) + [AlsoRaised(outs[i])]) ==
             outs[k].alsoRaisedBy + Raised(outs, before) + [AlsoRaised(outs[i])];
    } else {
      assert before + [] == before;
    }
  }

  lemma MarkedSkips(outs: seq<RuleOutcome>, p: Pass, p': Pass, order: seq<nat>, i: nat, k: nat)
    requires InRange(order + [i], |outs|) && InRange(order, |outs|) && k < |outs|
    requires forall x: nat | x in p.into :: p.into[x] < |outs|
    requires i !in p.into && p'.into == p.into
    ensures Marked(outs, p', order + [i], k) == Marked(outs, p, order, k)
  {
    assert (order + [i])[..|order|] == order;
    assert FoldedInto(p.into, order + [i], k) == FoldedInto(p.into, order, k);
  }

  lemma MarkedStart(outs: seq<RuleOutcome>, k: nat)
    requires k < |outs|
    ensures Marked(outs, Pass(map[], map[]), [], k) == outs[k]
  {
    assert outs[k].alsoRaisedBy + [] == outs[k].alsoRaisedBy;
  }

  lemma MarkedKeepsRule(outs: seq<RuleOutcome>, p: Pass, order: seq<nat>, k: nat)
    requires InRange(order, |outs|) && k < |outs|
    requires forall x: nat | x in p.into :: p.into[x] < |outs|
    ensures var o := Marked(outs, p, order, k);
            && o.rule == outs[k].rule && Fires(o) == Fires(outs[k])
            && ChangeKey(o) == ChangeKey(outs[k]) && QuoteKey(o) == QuoteKey(outs[k])
  {
  }

  /** What holds between two turns of the pass. */
  ghost predicate MidPass(now: seq<RuleOutcome>, outs: seq<RuleOutcome>, p: Pass, order: seq<nat>) {
    && |now| == |outs| && InRange(order, |outs|)
    && p == PassOver(outs, order)
    && (forall k: nat | k in p.into :: p.into[k] < |outs| && k in order)
    && (forall key | key in p.seen :: p.seen[key] < |outs| && p.seen[key] in order)
    && forall k: nat | k < |outs| :: now[k] == Marked(outs, p, order, k)
  }

  /** One turn of the pass: skip, fold into an earlier outcome, or keep and remember the keys. */
  function Turned(now: seq<RuleOutcome>, seen: map<string, nat>, i: nat): (seq<RuleOutcome>, map<string, nat>)
    requires i < |now| && forall key | key in seen :: seen[key] < |now|
  {
    var o := now[i];
    if !Fires(o) then (now, seen)
    else if ChangeKey(o) in seen then (FoldAt(now, i, seen[ChangeKey(o)]), seen)
    else if QuoteKey(o) in seen then (FoldAt(now, i, seen[QuoteKey(o)]), seen)
    else (now, seen[ChangeKey(o) := i][QuoteKey(o) := i])
  }

  function FoldAt(now: seq<RuleOutcome>, i: nat, j: nat): seq<RuleOutcome>
    requires i < |now| && j < |now|
  {
    var marked := now[i := now[i].(duplicateOf := now[j].rule.ruleId)];
    marked[j := marked[j].(alsoRaisedBy := marked[j].alsoRaisedBy + [AlsoRaised(now[i])])]
  }

  lemma TurnKeepsPass(now: seq<RuleOutcome>, outs: seq<RuleOutcome>, p: Pass, order: seq<nat>, i: nat)
    requires MidPass(now, outs, p, order) && i < |outs| && i !in order
    ensures var (now', seen') := Turned(now, p.seen, i);
            MidPass(now', outs, Step(outs, p, i), order + [i]) && Step(outs, p, i).seen == seen'
  {
    hide Fires, ChangeKey, QuoteKey, Marked, AlsoRaised, Raised, FoldedInto;
    var order', p' := order + [i], Step(outs, p, i);
    assert order'[..|order|] == order && order'[|order|] == i;
    assert i !in p.into;
    MarkedKeepsRule(outs, p, order, i);
    var o := outs[i];
    if Fires(o) && (ChangeKey(o) in p.seen || QuoteKey(o) in p.seen) {
      var j := if ChangeKey(o) in p.seen then p.seen[ChangeKey(o)] else p.seen[QuoteKey(o)];
      MarkedKeepsRule(outs, p, order, j);
      assert AlsoRaised(now[i]) == AlsoRaised(outs[i]) by {
        SameRuleSameLine(now[i], outs[i]);
      }
      forall k: nat | k < |outs|
        ensures FoldAt(now, i, j)[k] == Marked(outs, p', order', k)
      {
        MarkedFolds(outs, p, order, i, j, k);
      }
      assert MidPass(FoldAt(now, i, j), outs, p', order');
    } else {
      forall k: nat | k < |outs|
        ensures Marked(outs, p', order', k) == now[k]
      {
        MarkedSkips(outs, p, p', order, i, k);
      }
    }
  }

  lemma SameRuleSameLine(a: RuleOutcome, b: RuleOutcome)
    requires a.rule == b.rule
    ensures AlsoRaised(a) == AlsoRaised(b)
  {
  }

  lemma PassStarts(outs: seq<RuleOutcome>)
    ensures MidPass(outs, outs, Pass(map[], map[]), [])
  {
    hide Marked;
    forall k: nat | k < |outs|
      ensures outs[k] == Marked(outs, Pass(map[], map[]), [], k)
    {
      MarkedStart(outs, k);
    }
  }

  /** Marks every later fired rule that is the same change as an earlier one, in place. */
  method FoldDuplicates(outcomes: array<RuleOutcome>)
    modifies outcomes
    ensures MidPass(outcomes[..], old(outcomes[..]), Outcome(old(outcomes[..])), Order(old(outcomes[..])))
  {
    hide MidPass, Marked, Step, ChangeKey, QuoteKey, AlsoRaised, Order, PassOver;
    ghost var outs := outcomes[..];
    var order := Order(outcomes[..]);
    OrderLists(outs);
    var seen: map<string, nat> := map[];
    ghost var p := Pass(map[], map[]);
    PassStarts(outs);
    for t := 0 to |order|
      invariant MidPass(outcomes[..], outs, p, order[..t]) && seen == p.seen
    {
      var i := order[t];
      assert order[..t + 1] == order[..t] + [i] && i !in order[..t];
      ghost var before := outcomes[..];
      SeenInRange(before, outs, p, order[..t]);
      TurnKeepsPass(before, outs, p, order[..t], i);
      p := Step(outs, p, i);
      var o := outcomes[i];
      if o.advisory || !o.fired {
        continue;
      }
      var change, quote := ChangeKey(o), QuoteKey(o);
      if change in seen || quote in seen {
        var dup := if change in seen then seen[change] else seen[quote];
        outcomes[i] := o.(duplicateOf := outcomes[dup].rule.ruleId);
        outcomes[dup] := outcomes[dup].(alsoRaisedBy := outcomes[dup].alsoRaisedBy + [AlsoRaised(o)]);
        assert outcomes[..] == FoldAt(before, i, dup);
        continue;
      }
      seen := seen[change := i][quote := i];
    }
    assert order[..|order|] == order;
    PassIsOutcome(outcomes[..], outs, p);
  }

  lemma SeenInRange(now: seq<RuleOutcome>, outs: seq<RuleOutcome>, p: Pass, order: seq<nat>)
    requires MidPass(now, outs, p, order)
    ensures |now| == |outs| && forall key | key in p.seen :: p.seen[key] < |now|
  {
  }

  lemma PassIsOutcome(now: seq<RuleOutcome>, outs: seq<RuleOutcome>, p: Pass)
    requires MidPass(now, outs, p, Order(outs))
    ensures p == Outcome(outs)
  {
  }

  // ---------- what it promises ----------

  ghost predicate KeptIn(outs: seq<RuleOutcome>, i: nat) {
    i < |outs| && Fires(outs[i]) && i !in Outcome(outs).into
  }

  /** In the order "most severe, then earliest version, then list order", an outcome is kept exactly when
      no kept one before it shares a key with it. */
  lemma FoldIsGreedy(outs: seq<RuleOutcome>, i: nat)
    requires i < |outs| && Fires(outs[i])
    ensures KeptIn(outs, i) <==>
            !exists j: nat :: KeptIn(outs, j) && Precedes(Order(outs), j, i) && SharesKey(outs[i], outs[j])
  {
    hide SharesKey, Precedes, ChangeKey, QuoteKey, Fires;
    FoldOk(outs);
    forall j: nat | KeptIn(outs, i) && KeptIn(outs, j) && SharesKey(outs[i], outs[j])
      ensures i == j
    {
      KeptShareNothing(outs, i, j);
    }
    assert !Precedes(Order(outs), i, i) by {
      NotBeforeItself(outs, i);
    }
    if !KeptIn(outs, i) {
      var j := Outcome(outs).into[i];
      assert KeptIn(outs, j) && Precedes(Order(outs), j, i) && SharesKey(outs[i], outs[j]);
    }
  }

  lemma NotBeforeItself(outs: seq<RuleOutcome>, i: nat)
    ensures !Precedes(Order(outs), i, i)
  {
    hide Earlier, SortBy;
    OrderLists(outs);
  }

  lemma FoldOk(outs: seq<RuleOutcome>)
    ensures PassOk(outs, Order(outs), Outcome(outs))
    ensures forall i: nat :: KeptIn(outs, i) <==> Retained(outs, Outcome(outs), Order(outs), i)
  {
    hide SortBy, Earlier;
    OrderLists(outs);
    PassInv(outs, Order(outs));
  }

  /** Kept outcomes share no key, so no change is reported twice under either key. */
  lemma KeptShareNothing(outs: seq<RuleOutcome>, i: nat, j: nat)
    requires KeptIn(outs, i) && KeptIn(outs, j) && SharesKey(outs[i], outs[j])
    ensures i == j
  {
    hide ChangeKey, QuoteKey, Order;
    FoldOk(outs);
    var key := if ChangeKey(outs[i]) == ChangeKey(outs[j]) then ChangeKey(outs[i]) else QuoteKey(outs[i]);
    KeyHasOneOwner(outs, Order(outs), Outcome(outs), i, key);
    KeyHasOneOwner(outs, Order(outs), Outcome(outs), j, key);
  }

  lemma KeyHasOneOwner(outs: seq<RuleOutcome>, order: seq<nat>, p: Pass, i: nat, key: string)
    requires PassOk(outs, order, p) && Retained(outs, p, order, i) && HasKey(outs[i], key)
    ensures key in p.seen && p.seen[key] == i
  {
    hide ChangeKey, QuoteKey, HasKey;
  }

  /** A folded outcome names the kept one it went into: at least as severe, sharing a key, and listing it. */
  lemma FoldedPointsToKept(outs: seq<RuleOutcome>, i: nat)
    requires i < |outs| && Fires(outs[i]) && !KeptIn(outs, i)
    ensures var p, order := Outcome(outs), Order(outs);
            var j := p.into[i];
            && KeptIn(outs, j) && Precedes(order, j, i) && SharesKey(outs[i], outs[j])
            && ComesBefore(outs, j, i)
            && (forall k: nat | k < |outs| :: i in FoldedInto(p.into, order, k) <==> k == j)
  {
    hide SharesKey, ChangeKey, QuoteKey, SortBy, TurnLeq, ComesBefore;
    FoldOk(outs);
    OrderLists(outs);
    var p, order := Outcome(outs), Order(outs);
    var j := p.into[i];
    var a, b :| 0 <= a < b < |order| && order[a] == j && order[b] == i;
    forall k: nat | k < |outs|
      ensures i in FoldedInto(p.into, order, k) <==> k == j
    {
      FoldedIntoIs(p.into, order, k);
    }
  }

  // ---------- counting ----------

  /** How many of the first n outcomes were folded away. */
  ghost function CountFolded(outs: seq<RuleOutcome>, n: nat): nat {
    if n == 0 then 0
    else CountFolded(outs, n - 1) + if n - 1 < |outs| && Fires(outs[n - 1]) && !KeptIn(outs, n - 1) then 1 else 0
  }
}
