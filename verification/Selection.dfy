/** Which rules a scan evaluates. */
module Selection {
  import opened Text
  import opened Sorting
  import opened KubeVersions
  import opened AddonHop
  import opened Rules
  import Deprecations

  datatype Scoping = ScopedToKubernetesHop | ScopedToAddonHop | AlwaysOn

  function SourceScoping(sourceId: string): Scoping {
    if sourceId == "kubernetes" || sourceId == "kube-proxy" then ScopedToKubernetesHop
    else if sourceId == "kubernetes-skew-policy" then AlwaysOn
    else ScopedToAddonHop
  }

  datatype Range = Range(installed: string, required: string)

  type Hops = map<string, Range>

  /** The Kubernetes window (current, target]; an unreadable current version widens it. */
  predicate InKubernetesHop(appliesAt: string, current: string, target: string) {
    var key, from := MinorKey(appliesAt), MinorKey(current);
    0 < key <= MinorKey(target) && (from == 0 || from < key)
  }

  ghost predicate InHopOf(rule: GeneratedRule, range: Range) {
    InHop(rule.appliesAt, if rule.introducedIn.Some? then rule.introducedIn.value else [], range.installed,
        range.required)
  }

  ghost predicate OnPath(rule: GeneratedRule, current: string, target: string, hops: Hops) {
    && rule.IsEnabled()
    && match SourceScoping(rule.sourceId)
       case ScopedToKubernetesHop => InKubernetesHop(rule.appliesAt, current, target)
       case AlwaysOn => true
       case ScopedToAddonHop => rule.sourceId in hops && InHopOf(rule, hops[rule.sourceId])
  }

  ghost function PathRules(rules: seq<GeneratedRule>, current: string, target: string, hops: Hops): seq<GeneratedRule> {
    if rules == [] then []
    else
      var last := rules[|rules| - 1];
      PathRules(rules[..|rules| - 1], current, target, hops) + if OnPath(last, current, target,
          hops) then [last] else []
  }

  /** Add-on sources with rules and no hop: stated, not silently absent. */
  predicate IsSkipped(rule: GeneratedRule, hops: Hops) {
    rule.IsEnabled() && SourceScoping(rule.sourceId) == ScopedToAddonHop && rule.sourceId !in hops
  }

  function SkippedSources(rules: seq<GeneratedRule>, hops: Hops): set<string> {
    set rule | rule in rules && IsSkipped(rule, hops) :: rule.sourceId
  }

  method SelectRules(rules: seq<GeneratedRule>, current: string, target: string, hops: Hops)
    returns (selected: seq<GeneratedRule>, skipped: seq<string>)
    ensures MinorKey(target) == 0 ==> selected == [] && skipped == []
    ensures MinorKey(target) != 0 ==>
              selected == PathRules(rules, current, target, hops) && ListsSet(skipped, SkippedSources(rules, hops))
  {
    hide MinorKey, InHop, ListsSet;
    selected, skipped := [], [];
    var targetKey := MinorKey(target);
    if targetKey == 0 {
      return;
    }
    var currentKey := MinorKey(current);
    var sources: set<string> := {};
    for i := 0 to |rules|
      invariant selected == PathRules(rules[..i], current, target, hops)
      invariant sources == SkippedSources(rules[..i], hops)
    {
      var rule := rules[i];
      assert rules[..i + 1] == rules[..i] + [rule] && rules[..i + 1][..i] == rules[..i];
      if !rule.IsEnabled() {
        continue;
      }
      match SourceScoping(rule.sourceId) {
        case ScopedToKubernetesHop =>
          var key := MinorKey(rule.appliesAt);
          if key == 0 || key > targetKey || (currentKey != 0 && key <= currentKey) {
            continue;
          }
        case AlwaysOn =>
        case ScopedToAddonHop =>
          if rule.sourceId !in hops {
            sources := sources + {rule.sourceId};
            continue;
          }
          var range := hops[rule.sourceId];
          var inHop := InAddonHop(rule.appliesAt, if rule.introducedIn.Some? then rule.introducedIn.value else [],
                                  range.installed, range.required);
          if !inHop {
            continue;
          }
      }
      selected := selected + [rule];
    }
    assert rules[..|rules|] == rules;
    skipped := SortedKeys(sources);
  }

  /** The rules selected are exactly those of the catalog that are on the path. */
  lemma {:induction false} PathRulesAre(rules: seq<GeneratedRule>, current: string, target: string, hops: Hops,
          rule: GeneratedRule)
    ensures rule in PathRules(rules, current, target, hops) <==> rule in rules && OnPath(rule, current, target, hops)
  {
    hide OnPath;
    if rules != [] {
      PathRulesAre(rules[..|rules| - 1], current, target, hops, rule);
      assert rules == rules[..|rules| - 1] + [rules[|rules| - 1]];
    }
  }

  /** The sources of the Kubernetes upgrade go by its window, the skew policy is always on, and every other
      source goes by its own add-on's hop and needs one. A rule switched off is never on the path. */
  lemma OnPathMeans(rule: GeneratedRule, current: string, target: string, hops: Hops)
    ensures OnPath(rule, current, target, hops) <==>
            && rule.enabled != Some(false)
            && if rule.sourceId == "kubernetes" || rule.sourceId == "kube-proxy" then
                 0 < MinorKey(rule.appliesAt) <= MinorKey(target) && MinorKey(current) < MinorKey(rule.appliesAt)
               else if rule.sourceId == "kubernetes-skew-policy" then true
               else
                 rule.sourceId in hops &&
                 InHop(rule.appliesAt, if rule.introducedIn == None then [] else rule.introducedIn.value,
                       hops[rule.sourceId].installed, hops[rule.sourceId].required)
  {
    hide MinorKey, InHop;
  }

  /** The sources noted as not evaluated: those of add-ons with an enabled rule and no hop. */
  lemma SkippedMeans(rules: seq<GeneratedRule>, hops: Hops, source: string)
    ensures source in SkippedSources(rules, hops) <==>
            && source !in {"kubernetes", "kube-proxy", "kubernetes-skew-policy"} && source !in hops
            && exists rule | rule in rules :: rule.enabled != Some(false) && rule.sourceId == source
  {
    if rule :| rule in rules && rule.enabled != Some(false) && rule.sourceId == source {
      assert SourceScoping(source) == ScopedToAddonHop && source !in hops ==> IsSkipped(rule, hops);
    }
  }

  // ---------- a path of several minors ----------

  /** The rules among these that belong to the Kubernetes upgrade, in order. */
  function KubernetesRules(rules: seq<GeneratedRule>): seq<GeneratedRule> {
    if rules == [] then []
    else
      var last := rules[|rules| - 1];
      KubernetesRules(rules[..|rules| - 1]) +
      if SourceScoping(last.sourceId) == ScopedToKubernetesHop then [last] else []
  }

  /** The Kubernetes rules a scan from one version to another selects. */
  ghost function KubernetesPath(rules: seq<GeneratedRule>, current: string, target: string, hops: Hops):
    seq<GeneratedRule>
  {
    KubernetesRules(PathRules(rules, current, target, hops))
  }

  lemma KubernetesPathGrows(rules: seq<GeneratedRule>, rule: GeneratedRule, current: string,
          target: string, hops: Hops)
    ensures KubernetesPath(rules + [rule], current, target, hops) ==
            KubernetesPath(rules, current, target, hops) +
            if rule.IsEnabled() && SourceScoping(rule.sourceId) == ScopedToKubernetesHop &&
               InKubernetesHop(rule.appliesAt, current, target) then [rule] else []
  {
    hide InKubernetesHop, InHopOf;
    var front := PathRules(rules, current, target, hops);
    var all := rules + [rule];
    assert all[..|all| - 1] == rules && all[|all| - 1] == rule;
    if OnPath(rule, current, target, hops) {
      assert PathRules(all, current, target, hops) == front + [rule];
      assert (front + [rule])[..|front + [rule]| - 1] == front;
    } else {
      assert PathRules(all, current, target, hops) == front;
    }
  }

  predicate OfKubernetes(rule: GeneratedRule) {
    rule.sourceId == "kubernetes" || rule.sourceId == "kube-proxy"
  }

  /** A scan selects the enabled Kubernetes rules past the current minor, up to the target's own: what goes live
      with the target is in, what is live already is out. */
  lemma {:induction false} KubernetesWindow(rules: seq<GeneratedRule>, current: string, target: string, hops: Hops,
          rule: GeneratedRule)
    ensures rule in KubernetesPath(rules, current, target, hops) <==>
            && rule in rules && rule.enabled != Some(false) && OfKubernetes(rule)
            && 0 < MinorKey(rule.appliesAt) <= MinorKey(target) && MinorKey(current) < MinorKey(rule.appliesAt)
  {
    hide KubernetesPath, MinorKey;
    if rules == [] {
      NoRules(current, target, hops);
    } else {
      var front, last := rules[..|rules| - 1], rules[|rules| - 1];
      assert rules == front + [last];
      KubernetesWindow(front, current, target, hops, rule);
      KubernetesPathGrows(front, last, current, target, hops);
    }
  }

  /** From one minor to the next, a scan selects exactly the enabled Kubernetes rules of the minor it arrives at. */
  lemma OneMinorUp(rules: seq<GeneratedRule>, x: nat, y: nat, hops: Hops, rule: GeneratedRule)
    requires x <= MAX_INT && y + 1 <= MAX_INT
    ensures rule in KubernetesPath(rules, PrintMinor(x, y), PrintMinor(x, y + 1), hops) <==>
            && rule in rules && rule.enabled != Some(false) && OfKubernetes(rule)
            && MinorKey(rule.appliesAt) == x * 1000 + y + 1
  {
    hide KubernetesPath, MinorKey, PrintMinor;
    PrintedKey(x, y);
    PrintedKey(x, y + 1);
    KubernetesWindow(rules, PrintMinor(x, y), PrintMinor(x, y + 1), hops, rule);
  }

  /** Stopping at any version on the way splits the Kubernetes rules of an upgrade in two: each is selected by
      one part and not by the other. An unreadable start, which widens the window, makes no difference. */
  lemma {:induction false} StoppingSplitsRules(rules: seq<GeneratedRule>, from: string, stop: string, to: string,
          hops: Hops)
    requires 0 < MinorKey(stop) && MinorKey(from) <= MinorKey(stop) <= MinorKey(to)
    ensures multiset(KubernetesPath(rules, from, to, hops)) ==
            multiset(KubernetesPath(rules, from, stop, hops)) + multiset(KubernetesPath(rules, stop, to, hops))
  {
    hide KubernetesPath, MinorKey;
    if rules == [] {
      NoRules(from, to, hops);
      NoRules(from, stop, hops);
      NoRules(stop, to, hops);
    } else {
      var front, last := rules[..|rules| - 1], rules[|rules| - 1];
      assert rules == front + [last];
      StoppingSplitsRules(front, from, stop, to, hops);
      KubernetesPathGrows(front, last, from, to, hops);
      KubernetesPathGrows(front, last, from, stop, hops);
      KubernetesPathGrows(front, last, stop, to, hops);
    }
  }

  /** The rules of each step of a ladder, put together. */
  ghost function RulesOfSteps(rules: seq<GeneratedRule>, ladder: seq<string>, hops: Hops): multiset<GeneratedRule> {
    if |ladder| < 2 then multiset{}
    else
      var n := |ladder| - 1;
      RulesOfSteps(rules, ladder[..n], hops) +
      multiset(KubernetesPath(rules, ladder[n - 1], ladder[n], hops))
  }

  /** The keys of a ladder are consecutive. */
  lemma LadderKeys(major: nat, from: nat, count: nat, k: nat)
    requires k < count && major <= MAX_INT && from + k <= MAX_INT
    ensures MinorKey(Ladder(major, from, count)[k]) == major * 1000 + from + k
  {
    hide PrintMinor, MinorKey;
    PrintedKey(major, from + k);
  }

  lemma NoRules(current: string, target: string, hops: Hops)
    ensures KubernetesPath([], current, target, hops) == []
  {
  }

  lemma {:induction false} NothingOnTheSpot(rules: seq<GeneratedRule>, at: string, hops: Hops)
    requires MinorKey(at) > 0
    ensures KubernetesPath(rules, at, at, hops) == []
  {
    hide KubernetesPath, MinorKey;
    if rules == [] {
      NoRules(at, at, hops);
    } else {
      NothingOnTheSpot(rules[..|rules| - 1], at, hops);
      assert rules == rules[..|rules| - 1] + [rules[|rules| - 1]];
      KubernetesPathGrows(rules[..|rules| - 1], rules[|rules| - 1], at, at, hops);
    }
  }

  /** Only the keys of the two versions matter. */
  lemma {:induction false} SameKeysSameRules(rules: seq<GeneratedRule>, current: string, target: string,
          current': string, target': string, hops: Hops)
    requires MinorKey(current) == MinorKey(current') && MinorKey(target) == MinorKey(target')
    ensures KubernetesPath(rules, current, target, hops) == KubernetesPath(rules, current', target', hops)
  {
    hide KubernetesPath, MinorKey;
    if rules == [] {
      NoRules(current, target, hops);
      NoRules(current', target', hops);
    } else {
      var front, last := rules[..|rules| - 1], rules[|rules| - 1];
      assert rules == front + [last];
      SameKeysSameRules(front, current, target, current', target', hops);
      KubernetesPathGrows(front, last, current, target, hops);
      KubernetesPathGrows(front, last, current', target', hops);
    }
  }

  /** Upgrading minor by minor evaluates the same Kubernetes rules as the whole path, each on one step:
      along a ladder, the rules selected for the path are those selected for its steps, put together. */
  lemma {:induction false} PathIsUnionOfSteps(rules: seq<GeneratedRule>, major: nat, from: nat, steps: nat, hops: Hops)
    requires major <= MAX_INT && from + steps <= MAX_INT && major * 1000 + from > 0
    ensures var ladder := Ladder(major, from, steps + 1);
            multiset(KubernetesPath(rules, ladder[0], ladder[steps], hops)) == RulesOfSteps(rules, ladder, hops)
  {
    hide MinorKey, PrintMinor, KubernetesPath;
    var ladder := Ladder(major, from, steps + 1);
    LadderKeys(major, from, steps + 1, 0);
    LadderKeys(major, from, steps + 1, steps);
    if steps == 0 {
      NothingOnTheSpot(rules, ladder[0], hops);
    } else {
      LadderKeys(major, from, steps + 1, steps - 1);
      PathIsUnionOfSteps(rules, major, from, steps - 1, hops);
      assert ladder[..steps] == Ladder(major, from, steps);
      StoppingSplitsRules(rules, ladder[0], ladder[steps - 1], ladder[steps], hops);
    }
  }

  /** For a target one to twelve minors up in the same major, the Kubernetes rules a scan selects are those
      selected hop by hop along the plan it prints, each on exactly one hop. */
  lemma PlanCoversPath(rules: seq<GeneratedRule>, current: string, target: string, hops: Hops)
    requires MajorMinor(current).Some? && MajorMinor(target).Some?
    requires MajorMinor(current).value.major == MajorMinor(target).value.major
    requires MinorSkew(current, target).Some? && 1 <= MinorSkew(current, target).value <= 12
    ensures var m := MajorMinor(current).value;
            var plan := Ladder(m.major, m.minor, 1 + Steps(current, target));
            && |plan| == MinorSkew(current, target).value + 1
            && multiset(KubernetesPath(rules, current, target, hops)) == RulesOfSteps(rules, plan, hops)
  {
    hide MajorMinor, PrintMinor, KubernetesPath, RulesOfSteps;
    var m := MajorMinor(current).value;
    var steps := MinorKey(target) - MinorKey(current);
    MajorMinorInRange(current);
    MajorMinorInRange(target);
    var plan := Ladder(m.major, m.minor, steps + 1);
    PathIsUnionOfSteps(rules, m.major, m.minor, steps, hops);
    LadderKeys(m.major, m.minor, steps + 1, 0);
    LadderKeys(m.major, m.minor, steps + 1, steps);
    SameKeysSameRules(rules, current, target, plan[0], plan[steps], hops);
  }

  /** Along the plan each selected rule falls on the one hop that ends at its own minor. */
  lemma RuleFallsOnItsHop(rules: seq<GeneratedRule>, current: string, target: string, hops: Hops,
          rule: GeneratedRule, k: nat)
    requires HasRoom(current, target) && k < Steps(current, target)
    requires rule in KubernetesPath(rules, current, target, hops)
    ensures var m := MajorMinor(current).value;
            var plan := Ladder(m.major, m.minor, 1 + Steps(current, target));
            rule in KubernetesPath(rules, plan[k], plan[k + 1], hops) <==>
            MinorKey(rule.appliesAt) == MinorKey(plan[k + 1])
  {
    hide MajorMinor, PrintMinor, KubernetesPath;
    var m := MajorMinor(current).value;
    MajorMinorInRange(current);
    LadderKeys(m.major, m.minor, 1 + Steps(current, target), k + 1);
    KubernetesWindow(rules, current, target, hops, rule);
    OneMinorUp(rules, m.major, m.minor + k, hops, rule);
  }

  // ---------- the removed-API catalog's share ----------

  /** The removed-API catalog already carries this apiVersion and kind. */
  predicate CatalogOwns(cat: Deprecations.Catalog, d: Detection) {
    if d.objectKind != "" then Deprecations.DeprecationFor(cat, d.target, d.objectKind).Some?
    else exists r | r in cat.rules :: r.apiVersion == d.target
  }

  predicate IsOwned(cat: Deprecations.Catalog, rule: GeneratedRule) {
    rule.detection.kind == ApiVersionInUse && CatalogOwns(cat, rule.detection)
  }

  /** A rule is left to the removed-API catalog when it asks for an apiVersion in use that the catalog has a row
      for: of its kind when it names one, and otherwise of any kind. */
  lemma OwnedMeans(cat: Deprecations.Catalog, rule: GeneratedRule)
    ensures IsOwned(cat, rule) <==>
            && rule.detection.kind == ApiVersionInUse
            && exists r | r in cat.rules ::
                 if rule.detection.objectKind == "" then r.apiVersion == rule.detection.target
                 else r.apiVersion != "" && r.kind != "" &&
                      r.apiVersion + "|" + r.kind == rule.detection.target + "|" + rule.detection.objectKind
  {
    var d := rule.detection;
    Deprecations.RuleIndexed(cat.rules, Deprecations.BarKey(d.target, d.objectKind));
  }
}
