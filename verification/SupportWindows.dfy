/** Vendor support windows: the verdict on an installed add-on, the version that fixes it, and the hop
    the Kubernetes target forces. */
module SupportWindows {
  import opened Text
  import opened AddonVersions
  import opened KubeVersions
  import AddonHop

  datatype SupportWindow = SupportWindow(version: string, minK8s: string, maxK8s: string)

  datatype Verdict = Supported | AboveMax | BelowMin | NoVendorData | VersionUnresolved | VersionNotInCatalog

  datatype Judgement = Judgement(verdict: Verdict, window: Option<SupportWindow>, minimumFix: string)

  datatype Addon = Addon(id: string, windows: seq<SupportWindow>, latestKnown: string, currencyHop: bool)

  datatype HopReason = K8sSupport | Currency

  datatype Hop = Hop(addon: string, installed: string, required: string, reason: HopReason)

  /** The window names at least one bound and the target is inside it. */
  predicate Covers(w: SupportWindow, targetKey: nat) {
    var lo, hi := MinorKey(w.minK8s), MinorKey(w.maxK8s);
    && (lo != 0 || hi != 0)
    && (lo == 0 || targetKey >= lo)
    && (hi == 0 || targetKey <= hi)
  }

  predicate Prefixes(w: SupportWindow, installed: string) {
    PrefixOf(Parse(w.version), Parse(installed))
  }

  // ---------- the two searches ----------

  /** `w` prefixes the installed version, and no row that does is longer; the first such row. */
  ghost predicate IsMostSpecific(windows: seq<SupportWindow>, installed: string, k: nat) {
    && k < |windows|
    && Prefixes(windows[k], installed)
    && (forall j | 0 <= j < |windows| && Prefixes(windows[j], installed) ::
          Specificity(windows[j].version) <= Specificity(windows[k].version))
    && (forall j | 0 <= j < k && Prefixes(windows[j], installed) ::
          Specificity(windows[j].version) < Specificity(windows[k].version))
  }

  function MostSpecificIn(windows: seq<SupportWindow>, installed: string): (r: Option<nat>)
    ensures r.Some? ==> r.value < |windows|
  {
    if windows == [] then None
    else
      var last := |windows| - 1;
      var best := MostSpecificIn(windows[..last], installed);
      if Prefixes(windows[last], installed) && Specificity(windows[last].version) > SpecificityOf(windows, best)
      then Some(last) else best
  }

  function SpecificityOf(windows: seq<SupportWindow>, row: Option<nat>): int {
    if row.Some? && row.value < |windows| then Specificity(windows[row.value].version) else -1
  }

  /** The search finds the longest row that prefixes the installed version, the first of its length,
      and nothing only when no row does. */
  lemma {:induction false} MostSpecificIsLongest(windows: seq<SupportWindow>, installed: string)
    ensures var r := MostSpecificIn(windows, installed);
            if r.None? then forall j | 0 <= j < |windows| :: !Prefixes(windows[j], installed)
            else IsMostSpecific(windows, installed, r.value)
  {
    hide Parse, Prefixes;
    if windows != [] {
      MostSpecificIsLongest(windows[..|windows| - 1], installed);
    }
  }

  lemma PrefixesIs(w: SupportWindow, installed: string)
    ensures Prefixes(w, installed) <==> PrefixOf(Parse(w.version), Parse(installed))
  {
  }

  method MostSpecific(windows: seq<SupportWindow>, installed: string) returns (best: Option<nat>)
    ensures best == MostSpecificIn(windows, installed)
  {
    hide Parse, Prefixes;
    best := None;
    var bestSpecificity: int := -1;
    for i := 0 to |windows|
      invariant best == MostSpecificIn(windows[..i], installed)
      invariant best.Some? ==> best.value < i
      invariant bestSpecificity == SpecificityOf(windows[..i], best)
    {
      assert windows[..i + 1][..i] == windows[..i];
      PrefixesIs(windows[i], installed);
      var prefixes := IsPrefixOf(windows[i].version, installed);
      if prefixes && Specificity(windows[i].version) > bestSpecificity {
        best, bestSpecificity := Some(i), Specificity(windows[i].version);
      }
    }
    assert windows[..|windows|] == windows;
  }

  /** The running minimum over the rows that cover the target. */
  function MinimumCoveringIn(windows: seq<SupportWindow>, targetKey: nat): string {
    if windows == [] then ""
    else
      var w, best := windows[|windows| - 1], MinimumCoveringIn(windows[..|windows| - 1], targetKey);
      if Covers(w, targetKey) && (best == "" || VersionOrder(w.version, best) < 0) then w.version else best
  }

  method MinimumCovering(windows: seq<SupportWindow>, targetKey: nat) returns (best: string)
    ensures best == MinimumCoveringIn(windows, targetKey)
  {
    best := "";
    for i := 0 to |windows|
      invariant best == MinimumCoveringIn(windows[..i], targetKey)
    {
      assert windows[..i + 1][..i] == windows[..i];
      var w := windows[i];
      var lo, hi := MinorKey(w.minK8s), MinorKey(w.maxK8s);
      if lo == 0 && hi == 0 {
        continue;
      }
      if (lo != 0 && targetKey < lo) || (hi != 0 && targetKey > hi) {
        continue;
      }
      var c := CompareVersions(w.version, best);
      if best == "" || c < 0 {
        best := w.version;
      }
    }
    assert windows[..|windows|] == windows;
  }

  // ---------- verdict and hop ----------

  function EvaluateWindows(windows: seq<SupportWindow>, installed: string, targetK8s: string): Judgement {
    var targetKey := MinorKey(targetK8s);
    if windows == [] then Judgement(NoVendorData, None, "")
    else if !IsParseable(installed) then Judgement(VersionUnresolved, None, "")
    else if targetKey == 0 then Judgement(VersionNotInCatalog, None, "")
    else match MostSpecificIn(windows, installed)
      case None => Judgement(VersionNotInCatalog, None, MinimumCoveringIn(windows, targetKey))
      case Some(k) =>
        var window := windows[k];
        var minKey, maxKey := MinorKey(window.minK8s), MinorKey(window.maxK8s);
        if minKey == 0 && maxKey == 0 then Judgement(VersionNotInCatalog, Some(window), "")
        else if maxKey != 0 && targetKey > maxKey then
          Judgement(AboveMax, Some(window), MinimumCoveringIn(windows, targetKey))
        else if minKey != 0 && targetKey < minKey then
          Judgement(BelowMin, Some(window), MinimumCoveringIn(windows, targetKey))
        else Judgement(Supported, Some(window), "")
  }

  function ForcedHop(addon: Addon, installed: string, target: string): Option<Hop> {
    if !IsParseable(installed) then None
    else if addon.windows == [] then
      if !addon.currencyHop || !IsParseable(addon.latestKnown) || AtOrPast(addon.latestKnown, installed) then None
      else Some(Hop(addon.id, installed, addon.latestKnown, Currency))
    else if MinorKey(target) == 0 then None
    else
      var covering := MinimumCoveringIn(addon.windows, MinorKey(target));
      if covering == "" || VersionOrder(covering, installed) <= 0 then None
      else Some(Hop(addon.id, installed, covering, K8sSupport))
  }

  // ---------- what they promise each other ----------

  /** `best` is the least version among the covering rows, and empty only when there are none. */
  ghost predicate IsLeast(best: string, rows: seq<SupportWindow>, targetKey: nat) {
    if best == "" then forall w | w in rows :: !Covers(w, targetKey)
    else (exists w | w in rows :: Covers(w, targetKey) && w.version == best) &&
         (forall w | w in rows && Covers(w, targetKey) :: VersionOrder(best, w.version) <= 0)
  }

  predicate IsUnnamed(w: SupportWindow, targetKey: nat) {
    Covers(w, targetKey) && w.version == ""
  }

  predicate IsUnreadable(w: SupportWindow, targetKey: nat) {
    Covers(w, targetKey) && w.version != "" && Parse(w.version) == []
  }

  ghost predicate SomeUnreadable(windows: seq<SupportWindow>, targetKey: nat) {
    exists w | w in windows :: IsUnreadable(w, targetKey)
  }

  /** No covering row lacks a version, or some covering row's version is text that reads as none. */
  ghost predicate KeepsMinimum(windows: seq<SupportWindow>, targetKey: nat) {
    (forall w | w in windows :: !IsUnnamed(w, targetKey)) || SomeUnreadable(windows, targetKey)
  }

  /** The rows past the last covering one without a version. */
  ghost function AfterUnnamed(windows: seq<SupportWindow>, targetKey: nat): seq<SupportWindow> {
    if windows == [] then []
    else
      var last := windows[|windows| - 1];
      if IsUnnamed(last, targetKey) then [] else AfterUnnamed(windows[..|windows| - 1], targetKey) + [last]
  }

  /** What the running minimum finds on any table: an unreadable version once there is one, and otherwise
      the least version past the last row without one. */
  lemma {:induction false} MinimumCoveringMeaning(windows: seq<SupportWindow>, targetKey: nat)
    ensures var best := MinimumCoveringIn(windows, targetKey);
            if SomeUnreadable(windows, targetKey) then best != "" && Parse(best) == []
            else IsLeast(best, AfterUnnamed(windows, targetKey), targetKey)
    ensures MinimumCoveringIn(windows, targetKey) != "" ==>
              exists w | w in windows :: Covers(w, targetKey) && w.version == MinimumCoveringIn(windows, targetKey)
  {
    hide Parse, MinorKey, Compare, Covers, IsLeast;
    EmptyParsesToNothing();
    if windows == [] {
      NothingIsLeast(targetKey);
    } else {
      var front, last := windows[..|windows| - 1], windows[|windows| - 1];
      assert windows == front + [last];
      MinimumCoveringMeaning(front, targetKey);
      var before := MinimumCoveringIn(front, targetKey);
      CompareIsTotalPreorder(Parse(last.version), Parse(before), Parse(before));
      CompareIsTotalPreorder(Parse(before), Parse(before), Parse(before));
      if !SomeUnreadable(windows, targetKey) {
        assert !SomeUnreadable(front, targetKey);
        NothingIsLeast(targetKey);
        LeastGrows(before, AfterUnnamed(front, targetKey), last, targetKey);
      }
    }
  }

  lemma NothingIsLeast(targetKey: nat)
    ensures IsLeast("", [], targetKey)
  {
  }

  lemma LeastGrows(before: string, rows: seq<SupportWindow>, last: SupportWindow, targetKey: nat)
    requires IsLeast(before, rows, targetKey) && !IsUnreadable(last, targetKey)
    requires before != "" ==> Parse(before) != []
    ensures var best := if Covers(last, targetKey) && (before == "" || VersionOrder(last.version, before) < 0)
                        then last.version else before;
            if IsUnnamed(last, targetKey) then best == "" else IsLeast(best, rows + [last], targetKey)
  {
    hide Parse, MinorKey, Compare, Covers;
    EmptyParsesToNothing();
    var best := if Covers(last, targetKey) && (before == "" || VersionOrder(last.version, before) < 0)
    then last.version else before;
    CompareIsTotalPreorder(Parse(last.version), Parse(before), Parse(before));
    CompareIsTotalPreorder(Parse(best), Parse(best), Parse(best));
    forall w | w in rows + [last] && Covers(w, targetKey) && best != ""
      ensures VersionOrder(best, w.version) <= 0
    {
      CompareIsTotalPreorder(Parse(best), Parse(before), Parse(w.version));
      CompareIsTotalPreorder(Parse(last.version), Parse(before), Parse(best));
    }
    if best == before && best != "" {
      var w :| w in rows && Covers(w, targetKey) && w.version == best;
      assert w in rows + [last];
    }
    assert last in rows + [last];
  }

  lemma {:induction false} NothingIsSkipped(windows: seq<SupportWindow>, targetKey: nat)
    requires forall w | w in windows :: !IsUnnamed(w, targetKey)
    ensures AfterUnnamed(windows, targetKey) == windows
  {
    if windows != [] {
      NothingIsSkipped(windows[..|windows| - 1], targetKey);
      assert windows == windows[..|windows| - 1] + [windows[|windows| - 1]];
    }
  }

  /** The fix is the least version among all covering rows exactly when no covering row lacks a version,
      or some covering row's version is unreadable. */
  lemma LeastIsFoundIff(windows: seq<SupportWindow>, targetKey: nat)
    ensures IsLeast(MinimumCoveringIn(windows, targetKey), windows, targetKey) <==> KeepsMinimum(windows, targetKey)
  {
    hide Parse, MinorKey, Compare, Covers;
    EmptyParsesToNothing();
    MinimumCoveringMeaning(windows, targetKey);
    var best := MinimumCoveringIn(windows, targetKey);
    if SomeUnreadable(windows, targetKey) {
      forall w | w in windows
        ensures VersionOrder(best, w.version) <= 0
      {
        CompareIsTotalPreorder(Parse(w.version), Parse(w.version), Parse(w.version));
      }
    } else if w :| w in windows && IsUnnamed(w, targetKey) {
      CompareIsTotalPreorder(Parse(best), [], []);
      CompareIsTotalPreorder([], Parse(best), Parse(best));
    } else {
      NothingIsSkipped(windows, targetKey);
    }
  }

  /** So it is the least wherever the minimum is kept, as when every row names a version. */
  lemma MinimumCoveringIsLeast(windows: seq<SupportWindow>, targetKey: nat)
    requires KeepsMinimum(windows, targetKey)
    ensures IsLeast(MinimumCoveringIn(windows, targetKey), windows, targetKey)
  {
    hide IsLeast, KeepsMinimum;
    LeastIsFoundIff(windows, targetKey);
  }

  /** No two rows name the same version. */
  ghost predicate DistinctRows(windows: seq<SupportWindow>) {
    forall i, j | 0 <= i < j < |windows| :: Parse(windows[i].version) != Parse(windows[j].version)
  }

  /** Without a table, a readable installed version, a readable target or a row that prefixes, the verdict says
      which is missing. */
  lemma VerdictWithoutRow(windows: seq<SupportWindow>, installed: string, target: string)
    ensures var j, key := EvaluateWindows(windows, installed, target), MinorKey(target);
            && (j.verdict == NoVendorData <==> windows == [])
            && (j.verdict == VersionUnresolved <==> windows != [] && !IsParseable(installed))
            && (windows != [] && IsParseable(installed) && key == 0 ==> j == Judgement(VersionNotInCatalog, None, ""))
            && (windows != [] && IsParseable(installed) && key != 0 &&
                (forall w | w in windows :: !PrefixOf(Parse(w.version), Parse(installed))) ==>
                  j == Judgement(VersionNotInCatalog, None, MinimumCoveringIn(windows, key)))
  {
    hide Parse, MinorKey, Compare, MinimumCoveringIn, Prefixes;
    MostSpecificIsLongest(windows, installed);
    if MostSpecificIn(windows, installed).Some? {
      PrefixesIs(windows[MostSpecificIn(windows, installed).value], installed);
    }
  }

  /** The verdict, read off the bounds of the longest row that prefixes the installed version, the first of its
      length: above the ceiling or below the floor with the least covering version as the fix, supported inside
      them, and not in the catalog when it names neither. */
  lemma VerdictMeans(windows: seq<SupportWindow>, installed: string, target: string, k: nat)
    requires IsParseable(installed) && MinorKey(target) != 0 && IsMostSpecific(windows, installed, k)
    ensures var j, key := EvaluateWindows(windows, installed, target), MinorKey(target);
            var lo, hi := MinorKey(windows[k].minK8s), MinorKey(windows[k].maxK8s);
            && (j.verdict == AboveMax <==> 0 < hi < key)
            && (j.verdict == BelowMin <==> key < lo && !(0 < hi < key))
            && (j.verdict == Supported <==> (lo != 0 || hi != 0) && lo <= key && (hi == 0 || key <= hi))
            && (j.verdict == VersionNotInCatalog <==> lo == 0 && hi == 0)
            && j.window == Some(windows[k])
            && j.minimumFix == if j.verdict in {AboveMax, BelowMin} then MinimumCoveringIn(windows, key) else ""
  {
    hide Parse, MinorKey, Compare, MinimumCoveringIn, Prefixes;
    MostSpecificIsLongest(windows, installed);
    OneMostSpecific(windows, installed, k, MostSpecificIn(windows, installed).value);
  }

  lemma OneMostSpecific(windows: seq<SupportWindow>, installed: string, j: nat, k: nat)
    requires IsMostSpecific(windows, installed, j) && IsMostSpecific(windows, installed, k)
    ensures j == k
  {
  }

  /** A window covers the target when it names a bound and the target is not past one it names. */
  lemma CoversMeans(w: SupportWindow, targetKey: nat)
    ensures Covers(w, targetKey) <==>
            && !(MinorKey(w.minK8s) == 0 && MinorKey(w.maxK8s) == 0)
            && !(targetKey < MinorKey(w.minK8s)) && !(0 < MinorKey(w.maxK8s) < targetKey)
  {
    hide MinorKey;
  }

  /** An add-on without a vendor table moves, if its catalog entry asks for it, to the latest known version:
      when both read, it is above the installed one, and the installed one is not just its minor. */
  lemma CurrencyHopIff(addon: Addon, installed: string, target: string)
    requires addon.windows == []
    ensures var i, l := Parse(installed), Parse(addon.latestKnown);
            ForcedHop(addon, installed, target) ==
            if addon.currencyHop && |i| >= 2 && |l| >= 2 && Compare(l, i) > 0 && !(|i| == 2 && i <= l)
            then Some(Hop(addon.id, installed, addon.latestKnown, Currency)) else None
  {
    hide Parse, Compare;
    var i, l := Parse(installed), Parse(addon.latestKnown);
    if |i| == 2 && |l| >= 2 {
      assert i <= l <==> i[0] == l[0] && i[1] == l[1];
    }
  }

  /** SUPPORTED means the row the verdict rests on covers the target, and it is at or below the
      installed version. */
  lemma SupportedRow(windows: seq<SupportWindow>, installed: string, target: string) returns (k: nat)
    requires EvaluateWindows(windows, installed, target).verdict == Supported
    ensures k < |windows| && Covers(windows[k], MinorKey(target))
    ensures VersionOrder(windows[k].version, installed) <= 0
  {
    hide Parse, MinorKey, Compare;
    MostSpecificIsLongest(windows, installed);
    k := MostSpecificIn(windows, installed).value;
    PrefixesIs(windows[k], installed);
    PrefixAtMost(Parse(windows[k].version), Parse(installed));
  }

  /** The rows past the last unnamed one hold a covering row, and none of theirs is at or below the installed
      version; and no covering row's version is unreadable. */
  ghost predicate OnlyAbove(windows: seq<SupportWindow>, installed: string, targetKey: nat) {
    && !SomeUnreadable(windows, targetKey)
    && (exists w | w in AfterUnnamed(windows, targetKey) :: Covers(w, targetKey))
    && forall w | w in AfterUnnamed(windows, targetKey) && Covers(w, targetKey) ::
         VersionOrder(w.version, installed) > 0
  }

  /** On any table the running minimum is above the installed version exactly when all it can see is. */
  lemma MinimumAboveIff(windows: seq<SupportWindow>, installed: string, targetKey: nat)
    requires IsParseable(installed)
    ensures VersionOrder(MinimumCoveringIn(windows, targetKey), installed) > 0 <==>
            OnlyAbove(windows, installed, targetKey)
  {
    hide Parse, MinorKey, Compare, Covers;
    EmptyParsesToNothing();
    MinimumCoveringMeaning(windows, targetKey);
    var best := MinimumCoveringIn(windows, targetKey);
    CompareIsTotalPreorder(Parse(installed), Parse(best), Parse(installed));
    CompareIsTotalPreorder([], Parse(installed), Parse(installed));
    if !SomeUnreadable(windows, targetKey) {
      forall w | w in AfterUnnamed(windows, targetKey) && Covers(w, targetKey)
        ensures VersionOrder(w.version, installed) <= 0 ==> VersionOrder(best, installed) <= 0
      {
        CompareIsTotalPreorder(Parse(best), Parse(w.version), Parse(installed));
      }
    }
  }

  /** So the target forces a vendor add-on to move exactly then, whatever the verdict. */
  lemma ForcedHopIff(addon: Addon, installed: string, target: string)
    requires addon.windows != []
    ensures ForcedHop(addon, installed, target).Some? <==>
            IsParseable(installed) && MinorKey(target) != 0 && OnlyAbove(addon.windows, installed, MinorKey(target))
  {
    hide Parse, MinorKey, Compare, OnlyAbove, MinimumCoveringIn;
    EmptyParsesToNothing();
    if IsParseable(installed) {
      MinimumAboveIff(addon.windows, installed, MinorKey(target));
      CompareIsTotalPreorder(Parse(installed), [], []);
    }
  }

  /** On any table a supported add-on is told the Kubernetes upgrade forces it to move exactly when an
      unnamed row hides every covering row at or below the installed version. */
  lemma SupportedForcesNoHopIff(addon: Addon, installed: string, target: string)
    requires EvaluateWindows(addon.windows, installed, target).verdict == Supported
    ensures ForcedHop(addon, installed, target) == None <==>
            !OnlyAbove(addon.windows, installed, MinorKey(target))
  {
    hide Parse, MinorKey, Compare, OnlyAbove;
    ForcedHopIff(addon, installed, target);
  }

  /** A supported add-on is never told the Kubernetes upgrade forces it to move. */
  lemma SupportedForcesNoHop(addon: Addon, installed: string, target: string)
    requires KeepsMinimum(addon.windows, MinorKey(target))
    requires EvaluateWindows(addon.windows, installed, target).verdict == Supported
    ensures ForcedHop(addon, installed, target) == None
  {
    hide Parse, MinorKey, Compare, Prefixes, KeepsMinimum, Covers;
    var k := SupportedRow(addon.windows, installed, target);
    MinimumCoveringIsLeast(addon.windows, MinorKey(target));
    var best := MinimumCoveringIn(addon.windows, MinorKey(target));
    assert addon.windows[k] in addon.windows;
    CompareIsTotalPreorder(Parse(best), Parse(addon.windows[k].version), Parse(installed));
  }

  /** The first row filed under this version. */
  ghost predicate IsFirstAt(windows: seq<SupportWindow>, v: Version, k: nat) {
    && k < |windows| && Parse(windows[k].version) == v
    && forall j | 0 <= j < k :: Parse(windows[j].version) != v
  }

  ghost predicate FirstAtCovers(windows: seq<SupportWindow>, v: Version, targetKey: nat) {
    exists k: nat :: IsFirstAt(windows, v, k) && Covers(windows[k], targetKey)
  }

  /** No row names a major version alone. */
  ghost predicate NoBareMajors(windows: seq<SupportWindow>) {
    forall i | 0 <= i < |windows| :: |Parse(windows[i].version)| != 1
  }

  /** Taking the forced hop moves up and forces no more, on any table; and the required version is supported
      exactly when it names a minor at least and the first row filed under it covers the target. */
  lemma HopReachesSupportIff(addon: Addon, installed: string, target: string)
    requires ForcedHop(addon, installed, target).Some? && addon.windows != []
    ensures var required := ForcedHop(addon, installed, target).value.required;
            && VersionOrder(installed, required) < 0
            && ForcedHop(addon, required, target) == None
            && (EvaluateWindows(addon.windows, required, target).verdict == Supported <==>
                IsParseable(required) && FirstAtCovers(addon.windows, Parse(required), MinorKey(target)))
  {
    hide Parse, MinorKey, Compare, Prefixes, IsLeast;
    var windows, key := addon.windows, MinorKey(target);
    MinimumCoveringMeaning(windows, key);
    var required := MinimumCoveringIn(windows, key);
    CompareIsTotalPreorder(Parse(required), Parse(installed), Parse(required));
    CompareIsTotalPreorder([], Parse(installed), Parse(required));
    CompareIsTotalPreorder(Parse(installed), Parse(required), Parse(required));
    MostSpecificIsLongest(windows, required);
    var w :| w in windows && Covers(w, key) && w.version == required;
    var k :| 0 <= k < |windows| && windows[k] == w;
    PrefixesIs(windows[k], required);
    var m := MostSpecificIn(windows, required).value;
    FirstIsMostSpecific(windows, required, k, m);
    assert EvaluateWindows(windows, required, target).verdict == Supported <==>
           IsParseable(required) && Covers(windows[m], key);
  }

  /** Among rows that prefix a version one of them names, the most specific is the first to name it. */
  lemma FirstIsMostSpecific(windows: seq<SupportWindow>, v: string, k: nat, m: nat)
    requires k < |windows| && windows[k].version == v && Prefixes(windows[k], v)
    requires IsMostSpecific(windows, v, m)
    ensures forall i: nat :: IsFirstAt(windows, Parse(v), i) <==> i == m
  {
    hide Parse;
    PrefixesFormAChain(Parse(windows[k].version), Parse(windows[m].version), Parse(v));
    assert Parse(windows[m].version) == Parse(v);
    forall j | 0 <= j < m
      ensures Parse(windows[j].version) != Parse(v)
    {
    }
  }

  /** On a table that files each version once, taking the hop settles the matter. */
  lemma HopReachesSupport(addon: Addon, installed: string, target: string)
    requires DistinctRows(addon.windows) && NoBareMajors(addon.windows)
    requires ForcedHop(addon, installed, target).Some? && addon.windows != []
    ensures var required := ForcedHop(addon, installed, target).value.required;
            && EvaluateWindows(addon.windows, required, target).verdict == Supported
            && ForcedHop(addon, required, target) == None
            && VersionOrder(installed, required) < 0
  {
    hide Parse, MinorKey, Compare, Prefixes, IsLeast, Covers;
    var windows, key := addon.windows, MinorKey(target);
    HopReachesSupportIff(addon, installed, target);
    MinimumCoveringMeaning(windows, key);
    var required := MinimumCoveringIn(windows, key);
    var w :| w in windows && Covers(w, key) && w.version == required;
    var k :| 0 <= k < |windows| && windows[k] == w;
    assert IsFirstAt(windows, Parse(required), k);
    HopsGoForward(addon, installed, target);
  }

  /** Every hop goes forward, and between readable versions unless a row names a major alone; the rule
      selection relies on it. */
  lemma HopsGoForward(addon: Addon, installed: string, target: string)
    requires ForcedHop(addon, installed, target).Some?
    ensures var hop := ForcedHop(addon, installed, target).value;
            && hop.installed == installed && IsParseable(installed)
            && VersionOrder(installed, hop.required) < 0
            && AddonHop.Forward(Parse(installed), Parse(hop.required))
            && (NoBareMajors(addon.windows) ==> IsParseable(hop.required))
  {
    hide Parse, MinorKey, Compare, IsLeast, SomeUnreadable;
    var hop := ForcedHop(addon, installed, target).value;
    CompareIsTotalPreorder(Parse(hop.required), Parse(installed), Parse(installed));
    CompareIsTotalPreorder([], Parse(installed), Parse(hop.required));
    CompareIsTotalPreorder(Parse(installed), Parse(hop.required), Parse(hop.required));
    CompareIsTotalPreorder(Parse(hop.required), Parse(hop.required), Parse(hop.required));
    if addon.windows != [] {
      MinimumCoveringMeaning(addon.windows, MinorKey(target));
    }
    if |Parse(hop.required)| >= 2 {
      LineDecides(Parse(installed), Parse(hop.required));
      if |Parse(hop.required)| == 2 {
        assert Line(Parse(hop.required)) == Parse(hop.required);
      }
    }
  }

  /** On a forced hop a rule with patch releases is selected exactly when the required release carries its
      change and the installed one does not; a required version that names no minor leaves the second half. */
  lemma ForcedHopSelects(addon: Addon, installed: string, target: string, applies: string,
          introducedIn: seq<string>, file: string)
    requires AddonHop.WellFormed(introducedIn, file)
    requires ForcedHop(addon, installed, target).Some?
    ensures var required := ForcedHop(addon, installed, target).value.required;
            var entries := AddonHop.ParseAll(introducedIn);
            AddonHop.InHop(applies, introducedIn, installed, required) <==>
            && (IsParseable(required) ==> AddonHop.DestinationCarries(entries, Parse(required)))
            && !AddonHop.Carries(entries, Parse(installed))
  {
    hide Parse, ForcedHop, AddonHop.InHop, AddonHop.DestinationCarries, AddonHop.Carries, AddonHop.Forward;
    HopsGoForward(addon, installed, target);
    var required := ForcedHop(addon, installed, target).value.required;
    AddonHop.HopIsDestinationMinusOrigin(applies, introducedIn, file, installed, required);
  }

  // ---------- when the fix is an upgrade ----------

  /** 0 stands for no ceiling. */
  predicate CeilingAtMost(a: SupportWindow, b: SupportWindow) {
    MinorKey(b.maxK8s) == 0 || (MinorKey(a.maxK8s) != 0 && MinorKey(a.maxK8s) <= MinorKey(b.maxK8s))
  }

  ghost predicate RisingCeilings(windows: seq<SupportWindow>) {
    forall i, j | 0 <= i < |windows| && 0 <= j < |windows| &&
                  VersionOrder(windows[i].version, windows[j].version) <= 0 ::
      CeilingAtMost(windows[i], windows[j])
  }

  ghost predicate MinorRows(windows: seq<SupportWindow>) {
    forall i | 0 <= i < |windows| :: windows[i].version != "" && |Parse(windows[i].version)| == 2
  }

  /** On any table the fix named for an add-on that is too old is above the installed version exactly when
      everything the running minimum can see is. */
  lemma FixIsUpgradeIff(windows: seq<SupportWindow>, installed: string, target: string)
    requires EvaluateWindows(windows, installed, target).verdict == AboveMax
    ensures VersionOrder(EvaluateWindows(windows, installed, target).minimumFix, installed) > 0 <==>
            OnlyAbove(windows, installed, MinorKey(target))
  {
    hide Parse, MinorKey, Compare, Prefixes, OnlyAbove, MinimumCoveringIn;
    MinimumAboveIff(windows, installed, MinorKey(target));
  }

  /** Where the minimum is kept, that is when no covering row is at or below the installed version. */
  lemma KeptFixIsUpgradeIff(windows: seq<SupportWindow>, installed: string, target: string)
    requires KeepsMinimum(windows, MinorKey(target))
    requires EvaluateWindows(windows, installed, target).verdict == AboveMax
    requires EvaluateWindows(windows, installed, target).minimumFix != ""
    ensures VersionOrder(EvaluateWindows(windows, installed, target).minimumFix, installed) > 0 <==>
            forall w | w in windows && VersionOrder(w.version, installed) <= 0 :: !Covers(w, MinorKey(target))
  {
    hide Parse, MinorKey, Compare, Prefixes, Covers;
    var key := MinorKey(target);
    FixIsUpgradeIff(windows, installed, target);
    EmptyParsesToNothing();
    MinimumCoveringMeaning(windows, key);
    CompareIsTotalPreorder([], Parse(installed), Parse(installed));
    if SomeUnreadable(windows, key) {
      var w :| w in windows && IsUnreadable(w, key);
      CompareIsTotalPreorder(Parse(w.version), Parse(installed), Parse(installed));
    } else {
      NothingIsSkipped(windows, key);
    }
  }

  /** On a table of minors whose ceilings never fall, the fix named for an add-on that is too old is
      always an upgrade, and it is the hop the target forces. */
  lemma RisingCeilingsFixIsUpgrade(addon: Addon, installed: string, target: string)
    requires MinorRows(addon.windows) && DistinctRows(addon.windows) && RisingCeilings(addon.windows)
    requires EvaluateWindows(addon.windows, installed, target).verdict == AboveMax
    requires EvaluateWindows(addon.windows, installed, target).minimumFix != ""
    ensures var fix := EvaluateWindows(addon.windows, installed, target).minimumFix;
            && VersionOrder(fix, installed) > 0
            && ForcedHop(addon, installed, target) == Some(Hop(addon.id, installed, fix, K8sSupport))
  {
    hide Parse, MinorKey, Compare, Prefixes;
    var windows := addon.windows;
    MostSpecificIsLongest(windows, installed);
    var k := MostSpecificIn(windows, installed).value;
    PrefixesIs(windows[k], installed);
    KeptFixIsUpgradeIff(windows, installed, target);
    forall w | w in windows && VersionOrder(w.version, installed) <= 0
      ensures !Covers(w, MinorKey(target))
    {
      MinorAtMostPrefix(Parse(w.version), Parse(windows[k].version), Parse(installed));
      var j :| 0 <= j < |windows| && windows[j] == w;
      assert CeilingAtMost(windows[j], windows[k]);
    }
  }

  /** A minor at or below a version is at or below that version's own line. */
  lemma MinorAtMostPrefix(minor: Version, line: Version, v: Version)
    requires |minor| == |line| == 2 && PrefixOf(line, v)
    requires Compare(minor, v) <= 0
    ensures Compare(minor, line) <= 0
  {
    hide Compare;
    LineDecides(minor, v);
    assert Line(minor) == minor && Line(v) == line;
  }

  /** Without that, the fix may be no upgrade: when an older row has the higher ceiling, it names a
      version below the installed one, and no hop is forced. */
  lemma AFixMayBeADowngrade()
    ensures var windows := [SupportWindow(PrintMinor(1, 12), "", PrintMinor(1, 31)),
                            SupportWindow(PrintMinor(1, 13), "", PrintMinor(1, 27))];
            var installed, target := PrintMinor(1, 13), PrintMinor(1, 29);
            && EvaluateWindows(windows, installed, target) == Judgement(AboveMax, Some(windows[1]), PrintMinor(1, 12))
            && VersionOrder(PrintMinor(1, 12), installed) < 0
            && ForcedHop(Addon("cert-manager", windows, "", false), installed, target) == None
  {
    hide Parse, MinorKey, PrintMinor, EvaluateWindows, ForcedHop, Compare;
    PrintedVersion(1, 12);
    PrintedVersion(1, 13);
    PrintedKey(1, 27);
    PrintedKey(1, 29);
    PrintedKey(1, 31);
    EmptyHasNoKey();
    LineDecides([1, 12], [1, 13]);
    assert Line([1, 12]) == [1, 12] && Line([1, 13]) == [1, 13];
    ConcreteDowngrade(PrintMinor(1, 12), PrintMinor(1, 13), PrintMinor(1, 27), PrintMinor(1, 29), PrintMinor(1, 31));
  }

  lemma PrintedVersion(x: nat, y: nat)
    requires x <= MAX_INT && y <= MAX_INT
    ensures Parse(PrintMinor(x, y)) == [x, y] && PrintMinor(x, y) != ""
  {
    hide Parse;
    ParseMinor(x, y);
  }

  lemma ConcreteDowngrade(older: string, newer: string, low: string, target: string, high: string)
    requires Parse(older) == [1, 12] && Parse(newer) == [1, 13]
    requires MinorKey("") == 0 && MinorKey(low) == 1027 && MinorKey(target) == 1029 && MinorKey(high) == 1031
    requires older != "" && Compare([1, 12], [1, 13]) == -1
    ensures var windows := [SupportWindow(older, "", high), SupportWindow(newer, "", low)];
            && EvaluateWindows(windows, newer, target) == Judgement(AboveMax, Some(windows[1]), older)
            && VersionOrder(older, newer) < 0
            && ForcedHop(Addon("cert-manager", windows, "", false), newer, target) == None
  {
    hide Parse, MinorKey, Compare;
    var windows := [SupportWindow(older, "", high), SupportWindow(newer, "", low)];
    assert windows[..1][..0] == [] && windows[..1] == [windows[0]];
    assert MinimumCoveringIn(windows[..1], 1029) == older;
    assert !([1, 12] <= [1, 13]) by {
      assert [1, 12][1] != [1, 13][1];
    }
    assert MostSpecificIn(windows[..1], newer) == None;
  }

  /** A row without a version erases the minimum found before it: the fix is not the least, and a supported
      add-on is told to move. */
  lemma AnEmptyVersionLosesTheMinimum()
    ensures var windows := [SupportWindow(PrintMinor(1, 5), PrintMinor(1, 20), ""),
                            SupportWindow("", PrintMinor(1, 20), ""),
                            SupportWindow(PrintMinor(1, 7), PrintMinor(1, 20), "")];
            var installed, target := PrintMinor(1, 5), PrintMinor(1, 30);
            && MinimumCoveringIn(windows, MinorKey(target)) == PrintMinor(1, 7)
            && !IsLeast(PrintMinor(1, 7), windows, MinorKey(target))
            && EvaluateWindows(windows, installed, target).verdict == Supported
            && ForcedHop(Addon("istio", windows, "", false), installed, target) ==
               Some(Hop("istio", installed, PrintMinor(1, 7), K8sSupport))
  {
    hide Parse, MinorKey, PrintMinor, EvaluateWindows, ForcedHop, Compare, IsLeast, MinimumCoveringIn;
    PrintedVersion(1, 5);
    PrintedVersion(1, 7);
    PrintedKey(1, 20);
    PrintedKey(1, 30);
    EmptyHasNoKey();
    EmptyParsesToNothing();
    LineDecides([1, 5], [1, 7]);
    assert Line([1, 5]) == [1, 5] && Line([1, 7]) == [1, 7];
    CompareIsTotalPreorder([1, 5], [1, 7], []);
    ConcreteLoss(PrintMinor(1, 5), PrintMinor(1, 7), PrintMinor(1, 20), PrintMinor(1, 30));
  }

  lemma ConcreteLoss(older: string, newer: string, min: string, target: string)
    requires Parse(older) == [1, 5] && Parse(newer) == [1, 7] && Parse("") == []
    requires MinorKey("") == 0 && MinorKey(min) == 1020 && MinorKey(target) == 1030
    requires older != "" && newer != "" && Compare([1, 5], [1, 7]) == -1 && Compare([1, 7], [1, 5]) == 1
    ensures var windows := [SupportWindow(older, min, ""), SupportWindow("", min, ""), SupportWindow(newer, min, "")];
            && MinimumCoveringIn(windows, 1030) == newer
            && !IsLeast(newer, windows, 1030)
            && EvaluateWindows(windows, older, target).verdict == Supported
            && ForcedHop(Addon("istio", windows, "", false), older, target) ==
               Some(Hop("istio", older, newer, K8sSupport))
  {
    hide Parse, MinorKey;
    var windows := [SupportWindow(older, min, ""), SupportWindow("", min, ""), SupportWindow(newer, min, "")];
    assert windows[..2][..1] == [windows[0]] && [windows[0]][..0] == [];
    assert MinimumCoveringIn([windows[0]], 1030) == older;
    assert MinimumCoveringIn(windows[..2], 1030) == "";
    assert windows[0] in windows && Covers(windows[0], 1030);
    assert MostSpecificIn([windows[0]], older) == Some(0);
    assert MostSpecificIn(windows[..2], older) == Some(0);
    assert !([1, 7] <= [1, 5]) by {
      assert [1, 7][1] != [1, 5][1];
    }
  }
}
