/** Turning catalog rows into the resource types worth listing. */
module Targets {
  import opened Text
  import opened Sorting
  import opened KubeVersions
  import opened Deprecations
  import opened Report

  const SOURCE := "removed APIs"
  const UNLISTABLE := "this cluster does not accept a list request for this resource type"

  /** What discovery answered: the served group-versions, and, when known, which types can be listed and
      which only accept a create. */
  datatype Discovery = Discovery(served: set<string>, listable: Option<set<(string, string)>>,
                                 requestOnly: Option<set<(string, string)>>)

  datatype Target = Target(kind: string, listVersion: string, removed: set<string>)

  datatype Fate =
    | NotConcrete
    | NotRemoved
    | NotServed
    | RequestOnly
    | Unscannable
    | Unparsed
    | Scanned(listVersion: string)

  /** schema.ParseGroupVersion accepts at most one slash. */
  predicate ParsesAsGroupVersion(s: string) {
    |Split(s, '/')| <= 2
  }

  /** A version, or a group and a version; not more. */
  lemma GroupVersions(group: string, version: string, more: string)
    requires '/' !in group && '/' !in version
    ensures ParsesAsGroupVersion(version) && ParsesAsGroupVersion(group + "/" + version)
    ensures !ParsesAsGroupVersion(group + "/" + version + "/" + more)
  {
    hide Split;
    SplitOne(version, '/');
    SplitHead(group, '/', version);
    assert group + "/" + version + "/" + more == group + "/" + (version + "/" + more);
    SplitHead(group, '/', version + "/" + more);
    SplitHead(version, '/', more);
  }

  function ListVersion(rule: Rule, d: Discovery): string {
    if rule.replacement == "" || rule.replacement !in d.served then rule.apiVersion else rule.replacement
  }

  /** The type as discovery names it; a group-version that does not parse names nothing. */
  function TypeOf(listVersion: string, kind: string): (string, string) {
    (if ParsesAsGroupVersion(listVersion) then listVersion else "", kind)
  }

  /** What becomes of one catalog row. */
  function FateOf(rule: Rule, d: Discovery, targetKey: nat): Fate {
    if rule.kind == "" || rule.kind == "*" || rule.apiVersion == "" then NotConcrete
    else if MinorKey(rule.removedIn) == 0 || MinorKey(rule.removedIn) > targetKey then NotRemoved
    else
      var listVersion := ListVersion(rule, d);
      var resource := TypeOf(listVersion, rule.kind);
      if listVersion !in d.served then NotServed
      else if d.listable.Some? && (!ParsesAsGroupVersion(listVersion) || resource !in d.listable.value) then
        if d.requestOnly.Some? && resource in d.requestOnly.value then RequestOnly else Unscannable
      else if !ParsesAsGroupVersion(listVersion) then Unparsed
      else Scanned(listVersion)
  }

  // ---------- the resolution ----------

  function TargetKey(kind: string, listVersion: string): string {
    kind + "|" + listVersion
  }

  function Unlistable(rules: seq<Rule>, d: Discovery, targetKey: nat): seq<Skip> {
    if rules == [] then []
    else
      var rule := rules[|rules| - 1];
      Unlistable(rules[..|rules| - 1], d, targetKey) +
      if FateOf(rule, d, targetKey) == Unscannable then [Skip(UNLISTABLE, rule.kind + " " + rule.apiVersion)] else []
  }

  /** A row of the catalog that is scanned through this kind and list version. */
  ghost predicate Feeds(rule: Rule, rules: seq<Rule>, d: Discovery, targetKey: nat, kind: string, listVersion: string) {
    rule in rules && rule.kind == kind && FateOf(rule, d, targetKey) == Scanned(listVersion)
  }

  /** The target for its kind and list version holds exactly the removed versions scanned through it. */
  ghost predicate Collects(t: Target, rules: seq<Rule>, d: Discovery, targetKey: nat) {
    && (exists rule :: Feeds(rule, rules, d, targetKey, t.kind, t.listVersion))
    && forall v :: v in t.removed <==>
                   exists rule :: Feeds(rule, rules, d, targetKey, t.kind, t.listVersion) && rule.apiVersion == v
  }

  ghost predicate TableMatches(byKind: map<string, Target>, rules: seq<Rule>, d: Discovery, targetKey: nat) {
    && (forall key | key in byKind ::
          TargetKey(byKind[key].kind, byKind[key].listVersion) == key && Collects(byKind[key], rules, d, targetKey))
    && (forall rule, kind, listVersion | Feeds(rule, rules, d, targetKey, kind, listVersion) ::
          TargetKey(kind, listVersion) in byKind)
  }

  predicate IsScanned(rule: Rule, rules: seq<Rule>, d: Discovery, targetKey: nat) {
    rule in rules && FateOf(rule, d, targetKey).Scanned?
  }

  /** No two scanned rows of different types share a key. */
  ghost predicate Unmixed(rules: seq<Rule>, d: Discovery, targetKey: nat) {
    forall r, r' | IsScanned(r, rules, d, targetKey) && IsScanned(r', rules, d, targetKey) ::
      var v, v' := FateOf(r, d, targetKey).listVersion, FateOf(r', d, targetKey).listVersion;
      TargetKey(r.kind, v) == TargetKey(r'.kind, v') ==> r.kind == r'.kind && v == v'
  }

  /** As when no kind holds a bar, or no served version does. */
  lemma PlainNamesAreUnmixed(rules: seq<Rule>, d: Discovery, targetKey: nat)
    requires (forall rule | rule in rules :: '|' !in rule.kind) || (forall v | v in d.served :: '|' !in v)
    ensures Unmixed(rules, d, targetKey)
  {
    hide MinorKey, ParsesAsGroupVersion;
    forall r, r' | IsScanned(r, rules, d, targetKey) && IsScanned(r', rules, d, targetKey) &&
                   TargetKey(r.kind, FateOf(r, d, targetKey).listVersion) ==
                   TargetKey(r'.kind, FateOf(r', d, targetKey).listVersion)
      ensures r.kind == r'.kind && FateOf(r, d, targetKey).listVersion == FateOf(r', d, targetKey).listVersion
    {
      KeySplits(r.kind, FateOf(r, d, targetKey).listVersion, r'.kind, FateOf(r', d, targetKey).listVersion);
    }
  }

  lemma KeySplits(kind: string, v: string, kind': string, v': string)
    requires TargetKey(kind, v) == TargetKey(kind', v')
    requires ('|' !in kind && '|' !in kind') || ('|' !in v && '|' !in v')
    ensures kind == kind' && v == v'
  {
    hide Count;
    CountIsNone(kind, '|');
    CountIsNone(kind', '|');
    CountIsNone(v, '|');
    CountIsNone(v', '|');
    CountAppends(kind + "|", v, '|');
    CountAppends(kind, "|", '|');
    CountAppends(kind' + "|", v', '|');
    CountAppends(kind', "|", '|');
    SameHeads(kind, v, kind', v', '|');
  }

  lemma FeedsGrows(rules: seq<Rule>, last: Rule, d: Discovery, targetKey: nat, rule: Rule, kind: string,
          listVersion: string)
    ensures Feeds(rule, rules + [last], d, targetKey, kind, listVersion) <==>
            Feeds(rule, rules, d, targetKey, kind, listVersion) ||
            (rule == last && last.kind == kind && FateOf(last, d, targetKey) == Scanned(listVersion))
  {
  }

  /** A row with any other fate leaves the table as it is. */
  lemma TableSkips(byKind: map<string, Target>, rules: seq<Rule>, last: Rule, d: Discovery, targetKey: nat)
    requires TableMatches(byKind, rules, d, targetKey)
    requires !FateOf(last, d, targetKey).Scanned?
    ensures TableMatches(byKind, rules + [last], d, targetKey)
  {
    hide FateOf, Feeds;
    forall rule, kind, listVersion
      ensures Feeds(rule, rules + [last], d, targetKey, kind, listVersion) <==>
          Feeds(rule, rules, d, targetKey, kind, listVersion)
    {
      FeedsGrows(rules, last, d, targetKey, rule, kind, listVersion);
    }
  }

  /** A scanned row adds its version to the one target for its kind and list version. */
  lemma TableGrows(byKind: map<string, Target>, rules: seq<Rule>, last: Rule, d: Discovery, targetKey: nat)
    requires TableMatches(byKind, rules, d, targetKey) && Unmixed(rules + [last], d, targetKey)
    requires FateOf(last, d, targetKey).Scanned?
    ensures var listVersion := FateOf(last, d, targetKey).listVersion;
            var key := TargetKey(last.kind, listVersion);
            var t := if key in byKind then byKind[key] else Target(last.kind, listVersion, {});
            TableMatches(byKind[key := t.(removed := t.removed + {last.apiVersion})], rules + [last], d, targetKey)
  {
    hide FateOf, Feeds, Collects;
    var all, listVersion := rules + [last], FateOf(last, d, targetKey).listVersion;
    var key := TargetKey(last.kind, listVersion);
    var t := if key in byKind then byKind[key] else Target(last.kind, listVersion, {});
    var t' := t.(removed := t.removed + {last.apiVersion});
    var byKind' := byKind[key := t'];
    assert last in all;
    if key in byKind {
      KeyTellsTarget(t, rules, d, targetKey, last, listVersion);
    } else {
      NothingFed(byKind, rules, last, d, targetKey);
    }
    CollectsLast(t, rules, last, d, targetKey);
    forall k | k in byKind' && k != key
      ensures TargetKey(byKind'[k].kind, byKind'[k].listVersion) == k && Collects(byKind'[k], all, d, targetKey)
    {
      CollectsOthers(byKind[k], rules, last, d, targetKey);
    }
    forall rule, kind, lv | Feeds(rule, all, d, targetKey, kind, lv)
      ensures TargetKey(kind, lv) in byKind'
    {
      FeedsGrows(rules, last, d, targetKey, rule, kind, lv);
    }
  }

  lemma KeyTellsTarget(t: Target, rules: seq<Rule>, d: Discovery, targetKey: nat, last: Rule, listVersion: string)
    requires Collects(t, rules, d, targetKey) && Unmixed(rules + [last], d, targetKey)
    requires FateOf(last, d, targetKey) == Scanned(listVersion)
    requires TargetKey(t.kind, t.listVersion) == TargetKey(last.kind, listVersion)
    ensures t.kind == last.kind && t.listVersion == listVersion
  {
    hide FateOf;
    var rule :| Feeds(rule, rules, d, targetKey, t.kind, t.listVersion);
    assert rule in rules + [last] && last in rules + [last];
    assert IsScanned(rule, rules + [last], d, targetKey) && IsScanned(last, rules + [last], d, targetKey);
  }

  lemma NothingFed(byKind: map<string, Target>, rules: seq<Rule>, last: Rule, d: Discovery, targetKey: nat)
    requires TableMatches(byKind, rules, d, targetKey) && FateOf(last, d, targetKey).Scanned?
    requires TargetKey(last.kind, FateOf(last, d, targetKey).listVersion) !in byKind
    ensures forall rule :: !Feeds(rule, rules, d, targetKey, last.kind, FateOf(last, d, targetKey).listVersion)
  {
    hide FateOf, Feeds, Collects;
  }

  /** The target the last row feeds, before and after. */
  lemma CollectsLast(t: Target, rules: seq<Rule>, last: Rule, d: Discovery, targetKey: nat)
    requires FateOf(last, d, targetKey) == Scanned(t.listVersion) && last.kind == t.kind
    requires Collects(t, rules, d, targetKey) ||
             (t.removed == {} && forall rule :: !Feeds(rule, rules, d, targetKey, t.kind, t.listVersion))
    ensures Collects(t.(removed := t.removed + {last.apiVersion}), rules + [last], d, targetKey)
  {
    hide FateOf, Feeds;
    forall rule
      ensures Feeds(rule, rules + [last], d, targetKey, t.kind, t.listVersion) <==>
              Feeds(rule, rules, d, targetKey, t.kind, t.listVersion) || rule == last
    {
      FeedsGrows(rules, last, d, targetKey, rule, t.kind, t.listVersion);
    }
    assert Feeds(last, rules + [last], d, targetKey, t.kind, t.listVersion);
  }

  lemma CollectsOthers(t: Target, rules: seq<Rule>, last: Rule, d: Discovery, targetKey: nat)
    requires Collects(t, rules, d, targetKey)
    requires last.kind != t.kind || FateOf(last, d, targetKey) != Scanned(t.listVersion)
    ensures Collects(t, rules + [last], d, targetKey)
  {
    hide FateOf, Feeds;
    forall rule
      ensures Feeds(rule, rules + [last], d, targetKey, t.kind, t.listVersion) <==>
              Feeds(rule, rules, d, targetKey, t.kind, t.listVersion)
    {
      FeedsGrows(rules, last, d, targetKey, rule, t.kind, t.listVersion);
    }
  }

  predicate KindLeq(a: Target, b: Target) {
    TextLeq(a.kind, b.kind)
  }

  lemma KindLeqTotal()
    ensures TotalPreorder(KindLeq)
  {
    hide TextLeq;
    forall a, b
      ensures KindLeq(a, b) || KindLeq(b, a)
    {
      TextLeqOrders(a.kind, b.kind, b.kind);
    }
    forall a, b, c | KindLeq(a, b) && KindLeq(b, c)
      ensures KindLeq(a, c)
    {
      TextLeqOrders(a.kind, b.kind, c.kind);
    }
  }

  /** The rows no list could cover, folded by reason. */
  predicate CoversUnlistable(coverage: seq<Coverage>, rules: seq<Rule>, d: Discovery, targetKey: nat) {
    coverage == RowsFor(SOURCE, Unlistable(rules, d, targetKey), Listing(Reasons(Unlistable(rules, d, targetKey))))
  }

  ghost predicate IsResolution(targets: seq<Target>, coverage: seq<Coverage>, rules: seq<Rule>, d: Discovery,
          targetKey: nat) {
    && Sorted(targets, KindLeq)
    && (forall t | t in targets :: Collects(t, rules, d, targetKey))
    && (forall rule, kind, listVersion | Feeds(rule, rules, d, targetKey, kind, listVersion) ::
          exists t | t in targets :: t.kind == kind && t.listVersion == listVersion)
    && (forall i, j | 0 <= i < j < |targets| ::
          targets[i].kind != targets[j].kind || targets[i].listVersion != targets[j].listVersion)
    && CoversUnlistable(coverage, rules, d, targetKey)
  }

  /** Each target is filed under its own kind and list version. */
  predicate FiledByKey(byKind: map<string, Target>) {
    forall key | key in byKind :: TargetKey(byKind[key].kind, byKind[key].listVersion) == key
  }

  /** Discovery as asked: the served versions may not be readable, and some groups may not have answered. */
  datatype Answer = Unread(error: string) | Answered(discovery: Discovery, partial: bool)

  function UnreadRow(error: string): Coverage {
    Coverage(SOURCE, "", Unavailable, "the API server's list of served versions could not be read: " + error, 0)
  }

  function PartialRow(): Coverage {
    Coverage(SOURCE, "API discovery", CoverageState.Partial, "some API groups did not answer discovery, usually an " +
             "unavailable aggregated API server, so resource types they own may not have been scanned", 0)
  }

  function PartialRows(partial: bool): seq<Coverage> {
    if partial then [PartialRow()] else []
  }

  method ResolveTargets(rules: seq<Rule>, answer: Answer, target: string)
    returns (targets: seq<Target>, coverage: seq<Coverage>)
    ensures MinorKey(target) == 0 ==> targets == [] && coverage == []
    ensures MinorKey(target) != 0 && answer.Unread? ==> targets == [] && coverage == [UnreadRow(answer.error)]
    ensures MinorKey(target) != 0 && answer.Answered? ==>
              exists folded ::
                && coverage == folded + PartialRows(answer.partial)
                && CoversUnlistable(folded, rules, answer.discovery, MinorKey(target))
                && (IsResolution(targets, folded, rules, answer.discovery, MinorKey(target)) <==>
                    Unmixed(rules, answer.discovery, MinorKey(target)))
  {
    hide MinorKey, IsResolution, CoversUnlistable, Unmixed;
    if MinorKey(target) == 0 {
      return [], [];
    }
    if answer.Unread? {
      return [], [UnreadRow(answer.error)];
    }
    var folded: seq<Coverage>;
    targets, folded := TargetsFor(rules, answer.discovery, target);
    coverage := folded + PartialRows(answer.partial);
  }

  /** The targets the catalog calls for once the served versions are known. */
  method TargetsFor(rules: seq<Rule>, d: Discovery, target: string)
    returns (targets: seq<Target>, coverage: seq<Coverage>)
    ensures MinorKey(target) == 0 ==> targets == [] && coverage == []
    ensures MinorKey(target) != 0 ==>
              (IsResolution(targets, coverage, rules, d, MinorKey(target)) <==> Unmixed(rules, d, MinorKey(target)))
    ensures MinorKey(target) != 0 ==> CoversUnlistable(coverage, rules, d, MinorKey(target))
  {
    hide MinorKey, TableMatches, Unlistable, FateOf, Unmixed, IsResolution, TargetKey;
    var targetKey := MinorKey(target);
    if targetKey == 0 {
      return [], [];
    }
    ghost var unmixed := Unmixed(rules, d, targetKey);
    var byKind: map<string, Target> := map[];
    var unscannable: seq<Skip> := [];
    NoRows(d, targetKey);
    for i := 0 to |rules|
      invariant FiledByKey(byKind)
      invariant unmixed ==> TableMatches(byKind, rules[..i], d, targetKey)
      invariant unscannable == Unlistable(rules[..i], d, targetKey)
    {
      var rule := rules[i];
      assert rules[..i + 1] == rules[..i] + [rule];
      if unmixed {
        UnmixedPrefix(rules, i + 1, d, targetKey);
      }
      UnlistableGrows(rules[..i], rule, d, targetKey);
      var fate := FateOf(rule, d, targetKey);
      if !fate.Scanned? {
        if unmixed {
          TableSkips(byKind, rules[..i], rule, d, targetKey);
        }
        if fate.Unscannable? {
          unscannable := unscannable + [Skip(UNLISTABLE, rule.kind + " " + rule.apiVersion)];
        }
        continue;
      }
      if unmixed {
        TableGrows(byKind, rules[..i], rule, d, targetKey);
      }
      var key := TargetKey(rule.kind, fate.listVersion);
      var t := if key in byKind then byKind[key] else Target(rule.kind, fate.listVersion, {});
      byKind := byKind[key := t.(removed := t.removed + {rule.apiVersion})];
    }
    assert rules[..|rules|] == rules;
    targets := TableRows(byKind);
    coverage := FoldSkipped(SOURCE, unscannable);
    if unmixed {
      TableIsResolution(byKind, targets, coverage, rules, d, targetKey);
    } else if IsResolution(targets, coverage, rules, d, targetKey) {
      ResolvedAreUnmixed(byKind, targets, coverage, rules, d, targetKey);
    }
  }

  lemma UnmixedPrefix(rules: seq<Rule>, n: nat, d: Discovery, targetKey: nat)
    requires Unmixed(rules, d, targetKey) && n <= |rules|
    ensures Unmixed(rules[..n], d, targetKey)
  {
    hide FateOf, TargetKey;
    forall r | IsScanned(r, rules[..n], d, targetKey)
      ensures IsScanned(r, rules, d, targetKey)
    {
    }
  }

  /** With one target a key, every type scanned has a target of its own only if no two share a key. */
  lemma ResolvedAreUnmixed(byKind: map<string, Target>, targets: seq<Target>, coverage: seq<Coverage>,
          rules: seq<Rule>, d: Discovery, targetKey: nat)
    requires ListsTable(targets, byKind, byKind.Keys) && IsResolution(targets, coverage, rules, d, targetKey)
    ensures Unmixed(rules, d, targetKey)
  {
    hide FateOf, TargetKey, Sorted, Collects, CoversUnlistable;
    forall r, r' | IsScanned(r, rules, d, targetKey) && IsScanned(r', rules, d, targetKey) &&
                   TargetKey(r.kind, FateOf(r, d, targetKey).listVersion) ==
                   TargetKey(r'.kind, FateOf(r', d, targetKey).listVersion)
      ensures r.kind == r'.kind && FateOf(r, d, targetKey).listVersion == FateOf(r', d, targetKey).listVersion
    {
      var v, v' := FateOf(r, d, targetKey).listVersion, FateOf(r', d, targetKey).listVersion;
      assert Feeds(r, rules, d, targetKey, r.kind, v) && Feeds(r', rules, d, targetKey, r'.kind, v');
      var t :| t in targets && t.kind == r.kind && t.listVersion == v;
      var t' :| t' in targets && t'.kind == r'.kind && t'.listVersion == v';
      assert byKind[TargetKey(r.kind, v)] == t && byKind[TargetKey(r.kind, v)] == t';
    }
  }

  lemma NoRows(d: Discovery, targetKey: nat)
    ensures TableMatches(map[], [], d, targetKey) && Unlistable([], d, targetKey) == []
  {
  }

  lemma UnlistableGrows(rules: seq<Rule>, last: Rule, d: Discovery, targetKey: nat)
    ensures Unlistable(rules + [last], d, targetKey) ==
            Unlistable(rules, d, targetKey) +
            if FateOf(last, d, targetKey) == Unscannable then [Skip(UNLISTABLE,
                last.kind + " " + last.apiVersion)] else []
  {
    hide FateOf;
    assert (rules + [last])[..|rules|] == rules;
  }

  /** The table's targets, sorted by kind, in whatever order the map hands them out. */
  method TableRows(byKind: map<string, Target>) returns (targets: seq<Target>)
    requires FiledByKey(byKind)
    ensures Sorted(targets, KindLeq) && ListsTable(targets, byKind, byKind.Keys)
    ensures forall i, j | 0 <= i < j < |targets| ::
              targets[i].kind != targets[j].kind || targets[i].listVersion != targets[j].listVersion
  {
    var out := AnyOrder(byKind);
    KindLeqTotal();
    SortBySorts(out, KindLeq);
    targets := SortBy(out, KindLeq);
    SortedKeepsTable(byKind, out, targets);
  }

  lemma TableIsResolution(byKind: map<string, Target>, targets: seq<Target>, coverage: seq<Coverage>,
          rules: seq<Rule>, d: Discovery, targetKey: nat)
    requires TableMatches(byKind, rules, d, targetKey) && Unmixed(rules, d, targetKey)
    requires Sorted(targets, KindLeq) && ListsTable(targets, byKind, byKind.Keys)
    requires forall i, j | 0 <= i < j < |targets| ::
               targets[i].kind != targets[j].kind || targets[i].listVersion != targets[j].listVersion
    requires CoversUnlistable(coverage, rules, d, targetKey)
    ensures IsResolution(targets, coverage, rules, d, targetKey)
  {
    hide Sorted, Collects, KindLeq, FateOf, Feeds, TargetKey, CoversUnlistable, Unmixed;
    forall rule, kind, listVersion | Feeds(rule, rules, d, targetKey, kind, listVersion)
      ensures exists t | t in targets :: t.kind == kind && t.listVersion == listVersion
    {
      var t := byKind[TargetKey(kind, listVersion)];
      FedTarget(t, rules, d, targetKey, rule, kind, listVersion);
      assert t in targets;
    }
  }

  lemma FedTarget(t: Target, rules: seq<Rule>, d: Discovery, targetKey: nat, rule: Rule, kind: string,
          listVersion: string)
    requires Collects(t, rules, d, targetKey) && Unmixed(rules, d, targetKey)
    requires Feeds(rule, rules, d, targetKey, kind, listVersion)
    requires TargetKey(t.kind, t.listVersion) == TargetKey(kind, listVersion)
    ensures t.kind == kind && t.listVersion == listVersion
  {
    hide FateOf;
    var fed :| Feeds(fed, rules, d, targetKey, t.kind, t.listVersion);
    assert IsScanned(fed, rules, d, targetKey) && IsScanned(rule, rules, d, targetKey);
  }

  /** The list holds each of the table's targets once. */
  ghost predicate ListsTable(out: seq<Target>, byKind: map<string, Target>, keys: set<string>)
    requires keys <= byKind.Keys
  {
    && (forall key | key in keys :: byKind[key] in out)
    && (forall t | t in out ::
          TargetKey(t.kind, t.listVersion) in keys && byKind[TargetKey(t.kind, t.listVersion)] == t)
    && (forall i, j | 0 <= i < j < |out| :: out[i] != out[j])
  }

  method AnyOrder(byKind: map<string, Target>) returns (out: seq<Target>)
    requires FiledByKey(byKind)
    ensures ListsTable(out, byKind, byKind.Keys)
  {
    hide TargetKey;
    var rest := byKind.Keys;
    out := [];
    while rest != {}
      invariant rest <= byKind.Keys
      invariant ListsTable(out, byKind, byKind.Keys - rest)
      decreases rest
    {
      var key :| key in rest;
      assert byKind[key] !in out;
      out := out + [byKind[key]];
      rest := rest - {key};
    }
    assert byKind.Keys - rest == byKind.Keys;
  }

  lemma SortedKeepsTable(byKind: map<string, Target>, out: seq<Target>, targets: seq<Target>)
    requires ListsTable(out, byKind, byKind.Keys) && multiset(targets) == multiset(out)
    ensures ListsTable(targets, byKind, byKind.Keys)
    ensures forall i, j | 0 <= i < j < |targets| ::
              targets[i].kind != targets[j].kind || targets[i].listVersion != targets[j].listVersion
  {
    hide TargetKey;
    forall t
      ensures t in targets <==> t in out
    {
      assert t in targets <==> t in multiset(targets);
      assert t in out <==> t in multiset(out);
    }
    MultisetOfDistinct(out, set t | t in out);
    forall i, j | 0 <= i < j < |targets|
      ensures targets[i] != targets[j]
    {
      if targets[i] == targets[j] {
        TwiceCounts(targets, i, j);
      }
    }
    forall i, j | 0 <= i < j < |targets|
      ensures targets[i].kind != targets[j].kind || targets[i].listVersion != targets[j].listVersion
    {
      assert targets[i] in targets && targets[j] in targets;
    }
  }

  // ---------- what it promises ----------

  /** Discovery prints group-versions, and every printed one parses. */
  predicate PrintedVersions(d: Discovery) {
    forall v | v in d.served :: ParsesAsGroupVersion(v)
  }

  /** No removed API is lost: each concrete row the target removes is not applicable here, counted as
      unscannable, or recorded in exactly one target, the one for its kind and list version. */
  lemma NoRuleIsLost(targets: seq<Target>, coverage: seq<Coverage>, rules: seq<Rule>, d: Discovery,
          targetKey: nat, rule: Rule)
    requires IsResolution(targets, coverage, rules, d, targetKey) && PrintedVersions(d)
    requires rule in rules && !FateOf(rule, d, targetKey).NotConcrete? && !FateOf(rule, d, targetKey).NotRemoved?
    ensures match FateOf(rule, d, targetKey)
            case NotServed => rule.apiVersion !in d.served && (rule.replacement == "" || rule.replacement !in d.served)
            case RequestOnly => true
            case Unscannable => Skip(UNLISTABLE, rule.kind + " " + rule.apiVersion) in Unlistable(rules, d, targetKey)
            case Scanned(listVersion) =>
              listVersion == (if rule.replacement != "" && rule.replacement in d.served then rule.replacement
                              else rule.apiVersion) && listVersion in d.served &&
              exists i | 0 <= i < |targets| ::
                && targets[i].kind == rule.kind && targets[i].listVersion == listVersion &&
                    rule.apiVersion in targets[i].removed
                && forall j | 0 <= j < |targets| && j != i :: targets[j].kind != rule.kind ||
                    targets[j].listVersion != listVersion
            case _ => false
  {
    hide MinorKey, ParsesAsGroupVersion;
    if FateOf(rule, d, targetKey).Unscannable? {
      UnlistableHolds(rules, d, targetKey, rule);
    } else if FateOf(rule, d, targetKey).Scanned? {
      var listVersion := FateOf(rule, d, targetKey).listVersion;
      assert Feeds(rule, rules, d, targetKey, rule.kind, listVersion);
      var t :| t in targets && t.kind == rule.kind && t.listVersion == listVersion;
      assert Collects(t, rules, d, targetKey);
      var i :| 0 <= i < |targets| && targets[i] == t;
    }
  }

  /** Targets come by kind. */
  lemma TargetsByKind(targets: seq<Target>, coverage: seq<Coverage>, rules: seq<Rule>, d: Discovery, targetKey: nat,
          i: nat, j: nat)
    requires IsResolution(targets, coverage, rules, d, targetKey) && i < j < |targets|
    ensures TextLeq(targets[i].kind, targets[j].kind)
  {
    hide TextLeq, FateOf, Feeds, Collects, CoversUnlistable;
    assert KindLeq(targets[i], targets[j]);
  }

  /** A row is left out as nothing concrete when it names no one kind or no apiVersion, and as not removed when
      its removal does not read or is past the target; removed at the target's own minor counts. */
  lemma LeftOutMeans(rule: Rule, d: Discovery, target: string)
    ensures FateOf(rule, d, MinorKey(target)).NotConcrete? <==>
            rule.kind == "" || rule.kind == "*" || rule.apiVersion == ""
    ensures FateOf(rule, d, MinorKey(target)).NotRemoved? <==>
            rule.kind != "" && rule.kind != "*" && rule.apiVersion != "" &&
            !(0 < MinorKey(rule.removedIn) <= MinorKey(target))
  {
    hide MinorKey, ParsesAsGroupVersion;
  }

  /** Of two served versions the replacement is the one listed. */
  lemma ReplacementIsListed(rule: Rule, d: Discovery, targetKey: nat)
    requires rule.replacement != "" && rule.replacement in d.served
    ensures FateOf(rule, d, targetKey).Scanned? ==> FateOf(rule, d, targetKey) == Scanned(rule.replacement)
    ensures !FateOf(rule, d, targetKey).NotServed?
  {
    hide MinorKey, ParsesAsGroupVersion;
  }

  /** Where discovery says what can be listed, a type it cannot list is scanned by nothing: it is not applicable
      when it only accepts a create, and unscannable otherwise. */
  lemma ListableMeans(rule: Rule, d: Discovery, targetKey: nat, listVersion: string)
    requires d.listable.Some? && ParsesAsGroupVersion(listVersion)
    requires listVersion in d.served && listVersion == if rule.replacement in d.served && rule.replacement != ""
                                                       then rule.replacement else rule.apiVersion
    requires !FateOf(rule, d, targetKey).NotConcrete? && !FateOf(rule, d, targetKey).NotRemoved?
    ensures FateOf(rule, d, targetKey) ==
            if (listVersion, rule.kind) in d.listable.value then Scanned(listVersion)
            else if d.requestOnly.Some? && (listVersion, rule.kind) in d.requestOnly.value then RequestOnly
            else Unscannable
  {
    hide MinorKey, ParsesAsGroupVersion;
  }

  lemma {:induction false} UnlistableHolds(rules: seq<Rule>, d: Discovery, targetKey: nat, rule: Rule)
    requires rule in rules && FateOf(rule, d, targetKey) == Unscannable
    ensures Skip(UNLISTABLE, rule.kind + " " + rule.apiVersion) in Unlistable(rules, d, targetKey)
  {
    hide FateOf;
    if rule != rules[|rules| - 1] {
      UnlistableHolds(rules[..|rules| - 1], d, targetKey, rule);
    }
  }

  /** A row is left unparsed, and so unrecorded, only when discovery served a name that is no group-version. */
  lemma OnlyUnparsedIsLost(rules: seq<Rule>, d: Discovery, targetKey: nat, rule: Rule)
    ensures FateOf(rule, d, targetKey).Unparsed? ==> d.listable.None? && !PrintedVersions(d)
  {
    hide MinorKey, ParsesAsGroupVersion;
  }

  /** The unscannable rows are counted, each once. */
  lemma UnscannableAreCounted(coverage: seq<Coverage>, rules: seq<Rule>, d: Discovery, targetKey: nat)
    requires CoversUnlistable(coverage, rules, d, targetKey)
    ensures TotalSkipped(coverage) == |Unlistable(rules, d, targetKey)|
    ensures coverage == [] <==> forall rule | rule in rules :: !FateOf(rule, d, targetKey).Unscannable?
  {
    hide FateOf, Sorted, Collects, Feeds, Listing;
    var skips := Unlistable(rules, d, targetKey);
    FoldingCountsAll(SOURCE, skips);
    if rule :| rule in rules && FateOf(rule, d, targetKey).Unscannable? {
      UnlistableHolds(rules, d, targetKey, rule);
    } else {
      NoneUnlistable(rules, d, targetKey);
      EmptyListing();
    }
  }

  lemma {:induction false} NoneUnlistable(rules: seq<Rule>, d: Discovery, targetKey: nat)
    requires forall rule | rule in rules :: !FateOf(rule, d, targetKey).Unscannable?
    ensures Unlistable(rules, d, targetKey) == []
  {
    hide FateOf;
    if rules != [] {
      NoneUnlistable(rules[..|rules| - 1], d, targetKey);
    }
  }

  // ---------- who last wrote an object ----------

  /** One managed-fields entry; the time is a date in text, which sorts as it reads. */
  datatype Entry = Entry(manager: string, apiVersion: string, time: string)

  datatype Observation = Observation(apiVersion: string, manager: string, observedAt: string, stale: bool)

  predicate Later(a: string, b: string) {
    a != b && TextLeq(b, a)
  }

  /** A later day: the text goes on, or is greater where it first differs. */
  lemma LaterMeans(a: string, b: string)
    ensures Later(a, b) <==> b < a || exists k: nat :: DiffersBelow(b, a, k)
  {
    hide TextLeq;
    TextLeqMeans(b, a);
    if k: nat :| DiffersBelow(b, a, k) {
      assert a != b;
    }
  }

  /** The record is a leftover when the object was written at the current version on a later day. */
  ghost predicate Superseded(entries: seq<Entry>, replacement: string, e: Entry) {
    e.time != "" && exists r | r in entries :: r.apiVersion == replacement && Later(r.time, e.time)
  }

  ghost function Observations(entries: seq<Entry>, all: seq<Entry>, t: Target): seq<Observation> {
    if entries == [] then []
    else
      var e := entries[|entries| - 1];
      Observations(entries[..|entries| - 1], all, t) +
      if e.apiVersion in t.removed
      then [Observation(e.apiVersion, e.manager, e.time, Superseded(all, t.listVersion, e))] else []
  }

  /** One observation per entry at a removed version, in order. */
  method FromManagedFields(entries: seq<Entry>, t: Target) returns (usages: seq<Observation>)
    ensures usages == Observations(entries, entries, t)
  {
    hide TextLeq;
    var newest := "";
    for i := 0 to |entries|
      invariant forall k | 0 <= k < i && entries[k].apiVersion == t.listVersion :: TextLeq(entries[k].time, newest)
      invariant newest == "" ||
        exists k | 0 <= k < i :: entries[k].apiVersion == t.listVersion && entries[k].time == newest
    {
      TextLeqOrders(newest, entries[i].time, newest);
      if entries[i].apiVersion == t.listVersion && entries[i].time != "" && Later(entries[i].time, newest) {
        forall k | 0 <= k < i && entries[k].apiVersion == t.listVersion
          ensures TextLeq(entries[k].time, entries[i].time)
        {
          TextLeqOrders(entries[k].time, newest, entries[i].time);
        }
        newest := entries[i].time;
      }
      EmptyIsLeast(newest);
      TextLeqOrders(newest, newest, newest);
    }
    usages := [];
    for i := 0 to |entries|
      invariant usages == Observations(entries[..i], entries, t)
    {
      var e := entries[i];
      assert entries[..i + 1] == entries[..i] + [e] && entries[..i + 1][..i] == entries[..i];
      NewestDecides(entries, t.listVersion, newest, e);
      if e.apiVersion !in t.removed {
        continue;
      }
      usages := usages + [Observation(e.apiVersion, e.manager, e.time, newest != "" && e.time != "" &&
          Later(newest, e.time))];
    }
    assert entries[..|entries|] == entries;
  }

  lemma EmptyIsLeast(s: string)
    ensures TextLeq("", s)
  {
  }

  lemma NewestDecides(entries: seq<Entry>, replacement: string, newest: string, e: Entry)
    requires forall k | 0 <= k < |entries| && entries[k].apiVersion == replacement :: TextLeq(entries[k].time, newest)
    requires newest == "" ||
      exists k | 0 <= k < |entries| :: entries[k].apiVersion == replacement && entries[k].time == newest
    ensures Superseded(entries, replacement, e) <==> newest != "" && e.time != "" && Later(newest, e.time)
  {
    hide TextLeq;
    EmptyIsLeast(e.time);
    TextLeqOrders(e.time, "", e.time);
    forall k | 0 <= k < |entries| && entries[k].apiVersion == replacement && Later(entries[k].time, e.time)
      ensures Later(newest, e.time)
    {
      TextLeqOrders(e.time, entries[k].time, newest);
      TextLeqOrders(newest, entries[k].time, newest);
    }
    if newest != "" {
      var k :| 0 <= k < |entries| && entries[k].apiVersion == replacement && entries[k].time == newest;
      assert entries[k] in entries;
    }
  }
}
