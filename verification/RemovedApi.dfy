/** Turning evidence of removed-API use into findings. */
module RemovedApi {
  import opened Text
  import opened Sorting
  import opened KubeVersions
  import opened Deprecations
  import opened Report

  const MAX_NAMED := 50

  datatype Usage = Usage(apiVersion: string, kind: string, namespace: string, name: string, tier: string,
                         evidence: string, stale: bool)

  datatype Grade = Grade(severity: Severity, appliesAt: string)

  datatype Group = Group(rule: Rule, grade: Grade, objects: set<string>, tiers: set<string>, evidence: set<string>,
                         allStale: bool)

  /** The finding, without its prose: title, recommendation and id are functions of these. */
  datatype Finding = Finding(rule: Rule, severity: Severity, appliesAt: string, resource: string,
                             affected: seq<string>, count: nat, evidence: seq<string>, tiers: seq<string>,
                                 softened: bool)

  function GradeOf(rule: Rule, targetKey: nat): Option<Grade> {
    if 0 < MinorKey(rule.removedIn) <= targetKey then Some(Grade(Critical, rule.removedIn))
    else if 0 < MinorKey(rule.deprecatedIn) <= targetKey then Some(Grade(High, rule.deprecatedIn))
    else None
  }

  function Downgrade(s: Severity): Severity {
    match s
    case Critical => High
    case High => Medium
    case other => other
  }

  function ObjectRef(u: Usage): string {
    if u.name == "" then "" else RefText(u.namespace, u.name)
  }

  function KeyOf(u: Usage): string {
    BarKey(u.apiVersion, u.kind)
  }

  /** The rule a usage breaks at this target, and how badly. */
  function Verdict(cat: Catalog, targetKey: nat, u: Usage): Option<(Rule, Grade)> {
    match Lookup(cat, u.apiVersion, u.kind)
    case None => None
    case Some(rule) =>
      match GradeOf(rule, targetKey)
      case None => None
      case Some(grade) => Some((rule, grade))
  }

  // ---------- the report a list of usages calls for ----------

  ghost predicate Counts(cat: Catalog, targetKey: nat, u: Usage, key: string) {
    Verdict(cat, targetKey, u).Some? && KeyOf(u) == key
  }

  ghost function Members(cat: Catalog, targetKey: nat, usages: set<Usage>, key: string): set<Usage> {
    set u | u in usages && Counts(cat, targetKey, u, key)
  }

  ghost function Keys(cat: Catalog, targetKey: nat, usages: set<Usage>): set<string> {
    set u | u in usages && Verdict(cat, targetKey, u).Some? :: KeyOf(u)
  }

  /** The verdict on the first usage of a group stands for the group. */
  ghost function Lead(cat: Catalog, targetKey: nat, usages: seq<Usage>, key: string): Option<(Rule, Grade)> {
    if usages == [] then None
    else
      var front, last := usages[..|usages| - 1], usages[|usages| - 1];
      if Lead(cat, targetKey, front, key).Some? then Lead(cat, targetKey, front, key)
      else if Counts(cat, targetKey, last, key) then Verdict(cat, targetKey, last) else None
  }

  ghost function Gather(lead: (Rule, Grade), members: set<Usage>): Group {
    Group(lead.0, lead.1,
          set m | m in members && ObjectRef(m) != "" :: ObjectRef(m),
          set m | m in members :: m.tier,
          set m | m in members :: m.evidence,
          forall m | m in members :: m.stale)
  }

  /** The lead is the verdict on some usage that counts, and there is one exactly when some usage does. */
  lemma {:induction false} LeadIsVerdict(cat: Catalog, targetKey: nat, usages: seq<Usage>, key: string)
    ensures Lead(cat, targetKey, usages, key).Some? <==> key in Keys(cat, targetKey, Seen(usages))
    ensures Lead(cat, targetKey, usages, key).Some? ==>
              exists u | u in usages :: Counts(cat, targetKey, u, key) &&
                                        Verdict(cat, targetKey, u) == Lead(cat, targetKey, usages, key)
  {
    hide Verdict, KeyOf;
    if usages != [] {
      var front, last := usages[..|usages| - 1], usages[|usages| - 1];
      assert usages == front + [last];
      LeadIsVerdict(cat, targetKey, front, key);
      assert Seen(usages) == Seen(front) + {last};
      if Lead(cat, targetKey, front, key).Some? {
        var u :| u in front && Counts(cat, targetKey, u, key) &&
                 Verdict(cat, targetKey, u) == Lead(cat, targetKey, front, key);
        assert u in usages;
      }
    }
  }

  ghost function GroupFor(cat: Catalog, targetKey: nat, usages: seq<Usage>, key: string): Group
    requires key in Keys(cat, targetKey, Seen(usages))
  {
    LeadIsVerdict(cat, targetKey, usages, key);
    Gather(Lead(cat, targetKey, usages, key).value, Members(cat, targetKey, Seen(usages), key))
  }

  function Cap(items: seq<string>): seq<string> {
    if |items| <= MAX_NAMED then items else items[..MAX_NAMED]
  }

  function Collapse(objects: seq<string>, whenEmpty: string): string {
    if objects == [] then whenEmpty
    else if |objects| == 1 then objects[0]
    else objects[0] + " (+" + Itoa(|objects| - 1) + " more)"
  }

  function FindingFrom(g: Group, objects: seq<string>, tiers: seq<string>, evidence: seq<string>): Finding {
    var softened := g.allStale && objects != [];
    Finding(g.rule, if softened then Downgrade(g.grade.severity) else g.grade.severity, MinorOf(g.grade.appliesAt),
            Collapse(objects, g.rule.apiVersion), Cap(objects), |objects|, Cap(evidence), tiers, softened)
  }

  ghost function FindingOf(g: Group): Finding {
    FindingFrom(g, Listing(g.objects), Listing(g.tiers - {""}), Listing(g.evidence - {""}))
  }

  ghost function FindingFor(cat: Catalog, targetKey: nat, usages: seq<Usage>, key: string): Finding
    requires key in Keys(cat, targetKey, Seen(usages))
  {
    FindingOf(GroupFor(cat, targetKey, usages, key))
  }

  ghost function FindingsFor(cat: Catalog, targetKey: nat, usages: seq<Usage>): set<Finding> {
    set key | key in Keys(cat, targetKey, Seen(usages)) :: FindingFor(cat, targetKey, usages, key)
  }

  function PlaceOf(f: Finding): Place {
    Place(Rank(f.severity), f.rule.ruleId, f.resource)
  }

  function Seen(usages: seq<Usage>): set<Usage> {
    set u | u in usages
  }

  /** A report of a list of usages: each called-for finding once, in the printed order. */
  ghost predicate IsReport(findings: seq<Finding>, cat: Catalog, target: string, usages: seq<Usage>) {
    if MinorKey(target) == 0 then findings == []
    else
      && multiset(findings) == multiset(FindingsFor(cat, MinorKey(target), usages))
      && Sorted(findings, ByPlace(PlaceOf))
  }

  /** Usages that share a key, and so a group, break the same rule alike. */
  ghost predicate Agree(cat: Catalog, targetKey: nat, usages: set<Usage>) {
    forall u, v | u in usages && v in usages && KeyOf(u) == KeyOf(v) &&
                  Verdict(cat, targetKey, u).Some? && Verdict(cat, targetKey, v).Some? ::
      Verdict(cat, targetKey, u) == Verdict(cat, targetKey, v)
  }

  /** As when no apiVersion holds a bar: then the key says which is apiVersion and which is kind. */
  lemma PlainNamesAgree(cat: Catalog, targetKey: nat, usages: set<Usage>)
    requires forall u | u in usages :: '|' !in u.apiVersion
    ensures Agree(cat, targetKey, usages)
  {
    hide Verdict;
    forall u, v | u in usages && v in usages && KeyOf(u) == KeyOf(v)
      ensures Verdict(cat, targetKey, u) == Verdict(cat, targetKey, v)
    {
      BarInjective(u.apiVersion, u.kind, v.apiVersion, v.kind);
      SameTypeSameVerdict(cat, targetKey, u, v);
    }
  }

  lemma SameTypeSameVerdict(cat: Catalog, targetKey: nat, u: Usage, v: Usage)
    requires u.apiVersion == v.apiVersion && u.kind == v.kind
    ensures Verdict(cat, targetKey, u) == Verdict(cat, targetKey, v)
  {
  }

  // ---------- the evaluator ----------

  function Opened(rule: Rule, grade: Grade): Group {
    Group(rule, grade, {}, {}, {}, true)
  }

  function Extend(g: Group, u: Usage): Group {
    g.(objects := g.objects + (if ObjectRef(u) == "" then {} else {ObjectRef(u)}),
       tiers := g.tiers + {u.tier}, evidence := g.evidence + {u.evidence}, allStale := g.allStale && u.stale)
  }

  /** The groups in hand are the ones the usages seen so far call for. */
  ghost predicate GroupsMatch(groups: map<string, Group>, cat: Catalog, targetKey: nat, usages: seq<Usage>) {
    && groups.Keys == Keys(cat, targetKey, Seen(usages))
    && forall key | key in groups :: groups[key] == GroupFor(cat, targetKey, usages, key)
  }

  lemma GatherExtends(lead: (Rule, Grade), members: set<Usage>, u: Usage)
    ensures Gather(lead, members + {u}) ==
            Extend(if members == {} then Opened(lead.0, lead.1) else Gather(lead, members), u)
  {
    var before := if members == {} then Opened(lead.0, lead.1) else Gather(lead, members);
    var after := Gather(lead, members + {u});
    assert after.objects == before.objects + (if ObjectRef(u) == "" then {} else {ObjectRef(u)});
    assert after.tiers == before.tiers + {u.tier};
    assert after.evidence == before.evidence + {u.evidence};
  }

  /** One more usage changes the group of its own key and no other. */
  lemma OthersKeepTheirGroup(cat: Catalog, targetKey: nat, usages: seq<Usage>, u: Usage, key: string)
    requires !Counts(cat, targetKey, u, key)
    ensures Members(cat, targetKey, Seen(usages + [u]), key) == Members(cat, targetKey, Seen(usages), key)
    ensures Lead(cat, targetKey, usages + [u], key) == Lead(cat, targetKey, usages, key)
  {
    hide Verdict, KeyOf;
    assert Seen(usages + [u]) == Seen(usages) + {u};
    assert (usages + [u])[..|usages|] == usages;
  }

  lemma GroupsGrow(groups: map<string, Group>, cat: Catalog, targetKey: nat, usages: seq<Usage>, u: Usage)
    requires GroupsMatch(groups, cat, targetKey, usages)
    ensures Verdict(cat, targetKey, u).None? ==> GroupsMatch(groups, cat, targetKey, usages + [u])
    ensures Verdict(cat, targetKey, u).Some? ==>
              var (rule, grade) := Verdict(cat, targetKey, u).value;
              var before := if KeyOf(u) in groups then groups[KeyOf(u)] else Opened(rule, grade);
              GroupsMatch(groups[KeyOf(u) := Extend(before, u)], cat, targetKey, usages + [u])
  {
    hide Verdict, Gather, KeyOf, Extend, Lead, Opened;
    var all := usages + [u];
    assert Seen(all) == Seen(usages) + {u};
    forall key | key in Keys(cat, targetKey, Seen(usages)) && !Counts(cat, targetKey, u, key)
      ensures key in Keys(cat, targetKey, Seen(all)) &&
          GroupFor(cat, targetKey, all, key) == GroupFor(cat, targetKey, usages, key)
    {
      OthersKeepTheirGroup(cat, targetKey, usages, u, key);
    }
    if Verdict(cat, targetKey, u).None? {
      assert Keys(cat, targetKey, Seen(all)) == Keys(cat, targetKey, Seen(usages));
    } else {
      assert Keys(cat, targetKey, Seen(all)) == Keys(cat, targetKey, Seen(usages)) + {KeyOf(u)};
      OwnGroupGrows(groups, cat, targetKey, usages, u);
    }
  }

  lemma OwnGroupGrows(groups: map<string, Group>, cat: Catalog, targetKey: nat, usages: seq<Usage>, u: Usage)
    requires GroupsMatch(groups, cat, targetKey, usages) && Verdict(cat, targetKey, u).Some?
    requires KeyOf(u) in Keys(cat, targetKey, Seen(usages + [u]))
    ensures var (rule, grade) := Verdict(cat, targetKey, u).value;
            var before := if KeyOf(u) in groups then groups[KeyOf(u)] else Opened(rule, grade);
            GroupFor(cat, targetKey, usages + [u], KeyOf(u)) == Extend(before, u)
  {
    hide Verdict, Gather, KeyOf, Extend, Opened;
    var key, all := KeyOf(u), usages + [u];
    var members := Members(cat, targetKey, Seen(usages), key);
    assert Seen(all) == Seen(usages) + {u} && all[..|usages|] == usages;
    assert Members(cat, targetKey, Seen(all), key) == members + {u};
    LeadIsVerdict(cat, targetKey, usages, key);
    assert key in groups <==> members != {};
    GatherExtends(Lead(cat, targetKey, all, key).value, members, u);
  }

  /** Each group's rule is filed under the group's key. */
  predicate Keyed(groups: map<string, Group>) {
    forall key | key in groups :: BarKey(groups[key].rule.apiVersion, groups[key].rule.kind) == key
  }

  lemma ExtendKeepsKeyed(groups: map<string, Group>, cat: Catalog, targetKey: nat, u: Usage)
    requires Keyed(groups) && Verdict(cat, targetKey, u).Some?
    ensures var (rule, grade) := Verdict(cat, targetKey, u).value;
            var before := if KeyOf(u) in groups then groups[KeyOf(u)] else Opened(rule, grade);
            Keyed(groups[KeyOf(u) := Extend(before, u)])
  {
    hide Lookup, BarKey;
    LookupKeepsKey(cat, u.apiVersion, u.kind);
  }

  method Analyze(usages: seq<Usage>, target: string, cat: Catalog) returns (findings: seq<Finding>)
    ensures IsReport(findings, cat, target, usages)
  {
    hide Verdict, KeyOf, GroupsMatch, FindingsFor, MinorKey, Keyed, IsReport;
    var targetKey := MinorKey(target);
    if targetKey == 0 {
      NoReport(cat, target, usages);
      return [];
    }
    var groups: map<string, Group> := map[];
    NoGroups(cat, targetKey);
    for i := 0 to |usages|
      invariant Keyed(groups)
      invariant GroupsMatch(groups, cat, targetKey, usages[..i])
    {
      var u := usages[i];
      assert usages[..i + 1] == usages[..i] + [u];
      GroupsGrow(groups, cat, targetKey, usages[..i], u);
      var verdict := Verdict(cat, targetKey, u);
      if verdict.None? {
        continue;
      }
      ExtendKeepsKeyed(groups, cat, targetKey, u);
      var (rule, grade) := verdict.value;
      var key := KeyOf(u);
      var g := if key in groups then groups[key] else Opened(rule, grade);
      groups := groups[key := Extend(g, u)];
    }
    assert usages[..|usages|] == usages;
    findings := Findings(groups);
    FindingsAreCalledFor(groups, cat, targetKey, usages);
    ByPlaceTotal(PlaceOf);
    SortBySorts(findings, ByPlace(PlaceOf));
    findings := SortBy(findings, ByPlace(PlaceOf));
    ReportIs(findings, cat, target, usages);
  }

  lemma NoReport(cat: Catalog, target: string, usages: seq<Usage>)
    requires MinorKey(target) == 0
    ensures IsReport([], cat, target, usages)
  {
  }

  lemma ReportIs(findings: seq<Finding>, cat: Catalog, target: string, usages: seq<Usage>)
    requires MinorKey(target) != 0 && Sorted(findings, ByPlace(PlaceOf))
    requires multiset(findings) == multiset(FindingsFor(cat, MinorKey(target), usages))
    ensures IsReport(findings, cat, target, usages)
  {
  }

  lemma NoGroups(cat: Catalog, targetKey: nat)
    ensures GroupsMatch(map[], cat, targetKey, []) && Keyed(map[])
  {
  }

  /** One finding a group, in whatever order the map hands the groups out. */
  method Findings(groups: map<string, Group>) returns (findings: seq<Finding>)
    requires Keyed(groups)
    ensures multiset(findings) == multiset(set key | key in groups :: FindingOf(groups[key]))
  {
    hide FindingOf, BarKey;
    findings := [];
    var rest := groups.Keys;
    while rest != {}
      invariant rest <= groups.Keys
      invariant multiset(findings) == multiset(set key | key in groups.Keys - rest :: FindingOf(groups[key]))
      decreases rest
    {
      var key :| key in rest;
      var g := groups[key];
      var objects := SortedKeys(g.objects);
      var tiers := SortedKeys(g.tiers - {""});
      var evidence := SortedKeys(g.evidence - {""});
      var finding := FindingFrom(g, objects, tiers, evidence);
      FindingIs(g, objects, tiers, evidence);
      ghost var before := set k | k in groups.Keys - rest :: FindingOf(groups[k]);
      assert finding !in before by {
        FindingsKeepRules(groups);
      }
      assert (set k | k in groups.Keys - (rest - {key}) :: FindingOf(groups[k])) == before + {finding};
      findings := findings + [finding];
      rest := rest - {key};
    }
    assert groups.Keys - rest == groups.Keys;
    assert (set key | key in groups.Keys - rest :: FindingOf(groups[key])) == set key | key in groups ::
        FindingOf(groups[key]);
  }

  lemma FindingIs(g: Group, objects: seq<string>, tiers: seq<string>, evidence: seq<string>)
    requires ListsSet(objects, g.objects) && ListsSet(tiers, g.tiers - {""}) && ListsSet(evidence, g.evidence - {""})
    ensures FindingFrom(g, objects, tiers, evidence) == FindingOf(g)
  {
    hide ListsSet, FindingFrom;
    ListingIsUnique(objects, Listing(g.objects), g.objects);
    ListingIsUnique(tiers, Listing(g.tiers - {""}), g.tiers - {""});
    ListingIsUnique(evidence, Listing(g.evidence - {""}), g.evidence - {""});
  }

  lemma FindingsKeepRules(groups: map<string, Group>)
    requires Keyed(groups)
    ensures forall j, k | j in groups && k in groups && FindingOf(groups[j]) == FindingOf(groups[k]) :: j == k
  {
    forall j, k | j in groups && k in groups && FindingOf(groups[j]) == FindingOf(groups[k])
      ensures j == k
    {
      assert FindingOf(groups[j]).rule == groups[j].rule;
      assert FindingOf(groups[k]).rule == groups[k].rule;
    }
  }

  lemma GroupKeepsKey(cat: Catalog, targetKey: nat, usages: seq<Usage>, key: string)
    requires key in Keys(cat, targetKey, Seen(usages))
    ensures var r := GroupFor(cat, targetKey, usages, key).rule; BarKey(r.apiVersion, r.kind) == key
  {
    hide Lookup, GradeOf, BarKey;
    LeadIsVerdict(cat, targetKey, usages, key);
    var u :| u in usages && Counts(cat, targetKey, u, key) &&
             Verdict(cat, targetKey, u) == Lead(cat, targetKey, usages, key);
    LookupKeepsKey(cat, u.apiVersion, u.kind);
  }

  lemma FindingsAreCalledFor(groups: map<string, Group>, cat: Catalog, targetKey: nat, usages: seq<Usage>)
    requires GroupsMatch(groups, cat, targetKey, usages)
    ensures (set key | key in groups :: FindingOf(groups[key])) == FindingsFor(cat, targetKey, usages)
  {
    hide FindingOf, Verdict, BarKey, GroupFor;
  }

  // ---------- what it promises ----------

  /** The order and repetition of the evidence do not matter where usages that share a key agree: two reports
      of the same usages hold the same findings, and are the same list when no two findings share a place in
      the printed order, as when rule ids are distinct. */
  lemma EvidenceOrderDoesNotMatter(listed: seq<Usage>, relisted: seq<Usage>, target: string, cat: Catalog,
                                   findings: seq<Finding>, findings': seq<Finding>)
    requires Seen(listed) == Seen(relisted) && Agree(cat, MinorKey(target), Seen(listed))
    requires IsReport(findings, cat, target, listed) && IsReport(findings', cat, target, relisted)
    ensures multiset(findings) == multiset(findings')
    ensures (forall f, g | f in findings && g in findings && f.rule.ruleId == g.rule.ruleId :: f == g) ==>
        findings == findings'
  {
    hide FindingsFor, Sorted, Agree;
    if MinorKey(target) != 0 {
      SameFindings(listed, relisted, MinorKey(target), cat);
      if forall f, g | f in findings && g in findings && f.rule.ruleId == g.rule.ruleId :: f == g {
        DistinctPlacesDecide(findings, PlaceOf);
        SortedIsUnique(findings, findings', ByPlace(PlaceOf));
      }
    }
  }

  lemma SameFindings(listed: seq<Usage>, relisted: seq<Usage>, targetKey: nat, cat: Catalog)
    requires Seen(listed) == Seen(relisted) && Agree(cat, targetKey, Seen(listed))
    ensures FindingsFor(cat, targetKey, listed) == FindingsFor(cat, targetKey, relisted)
  {
    hide Verdict, KeyOf, Gather, FindingOf, Lead;
    forall key | key in Keys(cat, targetKey, Seen(listed))
      ensures GroupFor(cat, targetKey, listed, key) == GroupFor(cat, targetKey, relisted, key)
    {
      LeadIsVerdict(cat, targetKey, listed, key);
      LeadIsVerdict(cat, targetKey, relisted, key);
    }
  }

  /** No two listings of the same usages are reported differently. */
  ghost predicate OrderFree(cat: Catalog, target: string, usages: set<Usage>) {
    forall listed, relisted, findings, findings' |
      Seen(listed) == usages && Seen(relisted) == usages &&
      IsReport(findings, cat, target, listed) && IsReport(findings', cat, target, relisted) ::
      multiset(findings) == multiset(findings')
  }

  /** The order of the evidence does not matter exactly when usages that share a key agree; otherwise the one
      listed first decides which rule is reported. */
  lemma OrderFreeIff(cat: Catalog, target: string, usages: set<Usage>)
    requires MinorKey(target) != 0
    ensures OrderFree(cat, target, usages) <==> Agree(cat, MinorKey(target), usages)
  {
    hide MinorKey, IsReport, Verdict, KeyOf, Seen;
    if Agree(cat, MinorKey(target), usages) {
      forall listed, relisted, findings, findings' |
        Seen(listed) == usages && Seen(relisted) == usages &&
        IsReport(findings, cat, target, listed) && IsReport(findings', cat, target, relisted)
        ensures multiset(findings) == multiset(findings')
      {
        EvidenceOrderDoesNotMatter(listed, relisted, target, cat, findings, findings');
      }
    } else {
      var u, v :| u in usages && v in usages && KeyOf(u) == KeyOf(v) &&
                  Verdict(cat, MinorKey(target), u).Some? && Verdict(cat, MinorKey(target), v).Some? &&
                  Verdict(cat, MinorKey(target), u) != Verdict(cat, MinorKey(target), v);
      FirstDecides(cat, target, usages, u, v);
    }
  }

  lemma {:induction false} ListAll(usages: set<Usage>) returns (listed: seq<Usage>)
    ensures Seen(listed) == usages
  {
    listed := [];
    if u :| u in usages {
      listed := ListAll(usages - {u});
      assert Seen(listed + [u]) == Seen(listed) + {u};
      listed := listed + [u];
    }
  }

  lemma {:induction false} FirstLeads(cat: Catalog, targetKey: nat, u: Usage, rest: seq<Usage>)
    requires Verdict(cat, targetKey, u).Some?
    ensures Lead(cat, targetKey, [u] + rest, KeyOf(u)) == Verdict(cat, targetKey, u)
    ensures Seen([u] + rest) == {u} + Seen(rest)
  {
    hide Verdict, KeyOf;
    if rest == [] {
      assert [u] + rest == [u] && [u][..0] == [];
    } else {
      var front := rest[..|rest| - 1];
      assert ([u] + rest)[..|[u] + rest| - 1] == [u] + front;
      FirstLeads(cat, targetKey, u, front);
    }
  }

  /** Listing u first and listing v first are reported differently. */
  lemma FirstDecides(cat: Catalog, target: string, usages: set<Usage>, u: Usage, v: Usage)
    requires MinorKey(target) != 0 && u in usages && v in usages && KeyOf(u) == KeyOf(v)
    requires Verdict(cat, MinorKey(target), u).Some? && Verdict(cat, MinorKey(target), v).Some?
    requires Verdict(cat, MinorKey(target), u) != Verdict(cat, MinorKey(target), v)
    ensures !OrderFree(cat, target, usages)
  {
    hide MinorKey, Verdict, KeyOf, FindingsFor, IsReport;
    var key, targetKey := KeyOf(u), MinorKey(target);
    var rest := ListAll(usages);
    FirstLeads(cat, targetKey, u, rest);
    FirstLeads(cat, targetKey, v, rest);
    var a, b := [u] + rest, [v] + rest;
    assert Seen(a) == usages && Seen(b) == usages;
    var findings := Reported(cat, target, a);
    var findings' := Reported(cat, target, b);
    LeadIsVerdict(cat, targetKey, a, key);
    LeadIsVerdict(cat, targetKey, b, key);
    OtherRuleReported(cat, target, a, b, key, findings, findings');
  }

  /** As when a bar in one name makes two types of the detector's share a key. */
  lemma ABarMixesTypes()
    ensures var removed, target := PrintMinor(1, 20), PrintMinor(1, 30);
            var cat := Catalog([], [Lifecycle("a|b", "c", "", removed, ""), Lifecycle("a", "b|c", "", removed, "")]);
            var u, v := Usage("a|b", "c", "", "x", "", "", false), Usage("a", "b|c", "", "x", "", "", false);
            !OrderFree(cat, target, {u, v})
  {
    hide MinorKey, PrintMinor, OrderFree, Slug, ToLower;
    var removed, target := PrintMinor(1, 20), PrintMinor(1, 30);
    var rows := [Lifecycle("a|b", "c", "", removed, ""), Lifecycle("a", "b|c", "", removed, "")];
    var cat := Catalog([], rows);
    var u, v := Usage("a|b", "c", "", "x", "", "", false), Usage("a", "b|c", "", "x", "", "", false);
    PrintedKey(1, 20);
    PrintedKey(1, 30);
    BarTypesAreIndexed(cat, removed);
    assert KeyOf(u) == "a|b|c" == KeyOf(v);
    assert u.apiVersion[..2] == "a|" && v.apiVersion != u.apiVersion;
    FirstDecides(cat, target, {u, v}, u, v);
  }

  lemma BarTypesAreIndexed(cat: Catalog, removed: string)
    requires cat == Catalog([], [Lifecycle("a|b", "c", "", removed, ""), Lifecycle("a", "b|c", "", removed, "")])
    ensures DeprecationFor(cat, "a|b", "c").None? && DeprecationFor(cat, "a", "b|c").None?
    ensures LifecycleFor(cat, "a|b", "c") == Some(cat.detector[0])
    ensures LifecycleFor(cat, "a", "b|c") == Some(cat.detector[1])
  {
    var rows := cat.detector;
    assert rows[..1][..0] == [] && rows[..1] == [rows[0]];
    assert LifecycleIndex([rows[0]]) == map["a|b" + "/" + "c" := rows[0]] by {
      assert [rows[0]][..0] == [];
    }
    assert "a|b" + "/" + "c" != "a" + "/" + "b|c" by {
      assert ("a|b" + "/" + "c")[1] != ("a" + "/" + "b|c")[1];
    }
  }

  /** Some report exists. */
  lemma Reported(cat: Catalog, target: string, usages: seq<Usage>) returns (findings: seq<Finding>)
    ensures IsReport(findings, cat, target, usages)
  {
    hide MinorKey, FindingsFor;
    if MinorKey(target) == 0 {
      findings := [];
    } else {
      var all := ListFindings(FindingsFor(cat, MinorKey(target), usages));
      ByPlaceTotal(PlaceOf);
      SortBySorts(all, ByPlace(PlaceOf));
      findings := SortBy(all, ByPlace(PlaceOf));
    }
  }

  lemma {:induction false} ListFindings(findings: set<Finding>) returns (listed: seq<Finding>)
    ensures multiset(listed) == multiset(findings)
  {
    listed := [];
    if f :| f in findings {
      listed := ListFindings(findings - {f});
      listed := listed + [f];
    }
  }

  lemma OtherRuleReported(cat: Catalog, target: string, a: seq<Usage>, b: seq<Usage>, key: string,
                          findings: seq<Finding>, findings': seq<Finding>)
    requires MinorKey(target) != 0 && Seen(a) == Seen(b) && key in Keys(cat, MinorKey(target), Seen(a))
    requires Lead(cat, MinorKey(target), a, key) != Lead(cat, MinorKey(target), b, key)
    requires IsReport(findings, cat, target, a) && IsReport(findings', cat, target, b)
    ensures multiset(findings) != multiset(findings')
  {
    hide MinorKey, Lead, BarKey, Keys, FindingFor, GroupFor;
    var targetKey := MinorKey(target);
    var f := FindingFor(cat, targetKey, a, key);
    assert f in FindingsFor(cat, targetKey, a);
    assert f in multiset(findings);
    if f in FindingsFor(cat, targetKey, b) {
      var k :| k in Keys(cat, targetKey, Seen(b)) && FindingFor(cat, targetKey, b, k) == f;
      FindingForKeepsRule(cat, targetKey, a, key);
      FindingForKeepsRule(cat, targetKey, b, k);
      GroupKeepsKey(cat, targetKey, a, key);
      GroupKeepsKey(cat, targetKey, b, k);
      SameRuleSameLead(cat, targetKey, a, b, key);
    }
    assert f !in multiset(findings');
  }

  /** The grade is settled by the rule. */
  lemma SameRuleSameLead(cat: Catalog, targetKey: nat, a: seq<Usage>, b: seq<Usage>, key: string)
    requires key in Keys(cat, targetKey, Seen(a)) && key in Keys(cat, targetKey, Seen(b))
    requires GroupFor(cat, targetKey, a, key).rule == GroupFor(cat, targetKey, b, key).rule
    ensures Lead(cat, targetKey, a, key) == Lead(cat, targetKey, b, key)
  {
    hide Lookup, GradeOf, KeyOf, Lead;
    LeadIsVerdict(cat, targetKey, a, key);
    LeadIsVerdict(cat, targetKey, b, key);
  }

  /** A usage breaks at the target when its version is removed or deprecated by then, the target's own minor
      included, whether the catalog or the detector says so. */
  lemma BreaksIff(cat: Catalog, targetKey: nat, u: Usage)
    ensures Verdict(cat, targetKey, u).Some? <==>
            && Lookup(cat, u.apiVersion, u.kind).Some?
            && var rule := Lookup(cat, u.apiVersion, u.kind).value;
               0 < MinorKey(rule.removedIn) <= targetKey || 0 < MinorKey(rule.deprecatedIn) <= targetKey
  {
    hide MinorKey, Lookup;
  }

  /** A finding is critical when its version is gone at the target, the target's own minor included, and high
      when it is only deprecated; softened, it is one step less. The version it applies at is the removal's, or
      else the deprecation's. */
  lemma SeverityMeans(cat: Catalog, targetKey: nat, usages: seq<Usage>, key: string)
    requires key in Keys(cat, targetKey, Seen(usages))
    ensures var f := FindingFor(cat, targetKey, usages, key);
            var gone := 0 < MinorKey(f.rule.removedIn) <= targetKey;
            && f.severity == (if gone then if f.softened then High else Critical
                              else if f.softened then Medium else High)
            && f.appliesAt == MinorOf(if gone then f.rule.removedIn else f.rule.deprecatedIn)
            && (gone || 0 < MinorKey(f.rule.deprecatedIn) <= targetKey)
  {
    hide MinorKey, MinorOf, Lookup, KeyOf, Listing, Collapse, Cap;
    LeadIsVerdict(cat, targetKey, usages, key);
  }

  /** The objects named are those of the usages that count, in order and at most fifty, and the count is of all. */
  lemma ObjectsNamed(cat: Catalog, targetKey: nat, usages: seq<Usage>, key: string, ref: string)
    requires key in Keys(cat, targetKey, Seen(usages))
    ensures var f := FindingFor(cat, targetKey, usages, key);
            var named := exists u | u in usages :: Counts(cat, targetKey, u, key) && u.name != "" &&
                                                   ref == (if u.namespace == "" then u.name
                                                           else u.namespace + "/" + u.name);
            && (ref in f.affected ==> named)
            && (f.count <= 50 ==> (named <==> ref in f.affected))
            && |f.affected| == (if f.count <= 50 then f.count else 50)
            && Sorted(f.affected, TextLeq)
            && f.resource == if f.count == 0 then f.rule.apiVersion
                             else if f.count == 1 then f.affected[0]
                             else f.affected[0] + " (+" + Itoa(f.count - 1) + " more)"
  {
    hide Verdict, KeyOf, TextLeq, Lead, Itoa;
    var g := GroupFor(cat, targetKey, usages, key);
    forall u
      ensures u in Members(cat, targetKey, Seen(usages), key) <==> u in usages && Counts(cat, targetKey, u, key)
    {
    }
    NamedIsObject(usages, cat, targetKey, key, ref);
    ListingLists(g.objects);
  }

  lemma NamedIsObject(usages: seq<Usage>, cat: Catalog, targetKey: nat, key: string, ref: string)
    requires key in Keys(cat, targetKey, Seen(usages))
    ensures ref in GroupFor(cat, targetKey, usages, key).objects <==>
            exists u | u in usages :: Counts(cat, targetKey, u, key) && u.name != "" &&
                                      ref == RefText(u.namespace, u.name)
  {
    hide Verdict, KeyOf, Lead;
    var members := Members(cat, targetKey, Seen(usages), key);
    if u :| u in usages && Counts(cat, targetKey, u, key) && u.name != "" && ref == RefText(u.namespace, u.name) {
      assert u in members && ObjectRef(u) == ref && ref != "";
    }
  }

  lemma ListingLists(s: set<string>)
    ensures Sorted(Listing(s), TextLeq) && forall x :: x in Listing(s) <==> x in s
  {
  }

  /** The claim is weakened exactly when every usage counted has since been superseded and some object
      is named. */
  lemma SoftenedWhenAllStale(cat: Catalog, targetKey: nat, usages: seq<Usage>, key: string)
    requires key in Keys(cat, targetKey, Seen(usages))
    ensures FindingFor(cat, targetKey, usages, key).softened <==>
            && (forall u | u in usages && Counts(cat, targetKey, u, key) :: u.stale)
            && (exists u | u in usages && Counts(cat, targetKey, u, key) :: ObjectRef(u) != "")
  {
    hide Verdict, KeyOf;
    var members := Members(cat, targetKey, Seen(usages), key);
    var g := GroupFor(cat, targetKey, usages, key);
    if u :| u in members && ObjectRef(u) != "" {
      assert ObjectRef(u) in Listing(g.objects);
    } else {
      assert g.objects == {};
      EmptyListing();
    }
  }

  /** A removed API is reported exactly when some usage of it breaks at the target. */
  lemma ReportedWhenUsed(cat: Catalog, target: string, usages: seq<Usage>, findings: seq<Finding>, key: string)
    requires IsReport(findings, cat, target, usages) && MinorKey(target) != 0
    ensures (exists f | f in findings :: BarKey(f.rule.apiVersion, f.rule.kind) == key) <==>
            (exists u | u in usages :: Counts(cat, MinorKey(target), u, key))
  {
    hide Verdict, BarKey, FindingFor;
    var targetKey := MinorKey(target);
    forall f
      ensures f in findings <==> f in FindingsFor(cat, targetKey, usages)
    {
      assert f in findings <==> f in multiset(findings);
    }
    forall k | k in Keys(cat, targetKey, Seen(usages))
      ensures BarKey(FindingFor(cat, targetKey, usages, k).rule.apiVersion, FindingFor(cat, targetKey, usages,
          k).rule.kind) == k
    {
      GroupKeepsKey(cat, targetKey, usages, k);
      FindingForKeepsRule(cat, targetKey, usages, k);
    }
    if u :| u in usages && Counts(cat, targetKey, u, key) {
      assert key in Keys(cat, targetKey, Seen(usages));
      assert FindingFor(cat, targetKey, usages, key) in findings;
    }
  }

  lemma FindingForKeepsRule(cat: Catalog, targetKey: nat, usages: seq<Usage>, key: string)
    requires key in Keys(cat, targetKey, Seen(usages))
    ensures FindingFor(cat, targetKey, usages, key).rule == GroupFor(cat, targetKey, usages, key).rule
  {
  }
}
