/** The removed-API catalog and its lookup indexes. */
module Deprecations {
  import opened Text

  datatype Rule = Rule(apiVersion: string, kind: string, deprecatedIn: string, removedIn: string,
                       replacement: string, ruleId: string)

  datatype Lifecycle = Lifecycle(apiVersion: string, kind: string, deprecatedIn: string, removedIn: string,
                                 replacement: string)

  datatype Catalog = Catalog(rules: seq<Rule>, detector: seq<Lifecycle>)

  function BarKey(apiVersion: string, kind: string): string {
    apiVersion + "|" + kind
  }

  function RuleIndex(rules: seq<Rule>): map<string, Rule> {
    if rules == [] then map[]
    else
      var r := rules[|rules| - 1];
      var index := RuleIndex(rules[..|rules| - 1]);
      if r.apiVersion == "" || r.kind == "" then index else index[BarKey(r.apiVersion, r.kind) := r]
  }

  function LifecycleIndex(rows: seq<Lifecycle>): map<string, Lifecycle> {
    if rows == [] then map[]
    else
      var l := rows[|rows| - 1];
      var index := LifecycleIndex(rows[..|rows| - 1]);
      if l.apiVersion == "" || l.kind == "" then index else index[l.apiVersion + "/" + l.kind := l]
  }

  function DeprecationFor(cat: Catalog, apiVersion: string, kind: string): Option<Rule> {
    var key := BarKey(apiVersion, kind);
    if key in RuleIndex(cat.rules) then Some(RuleIndex(cat.rules)[key]) else None
  }

  function LifecycleFor(cat: Catalog, apiVersion: string, kind: string): Option<Lifecycle> {
    var index := LifecycleIndex(cat.detector);
    if apiVersion + "/" + kind in index then Some(index[apiVersion + "/" + kind])
    else if apiVersion + "/*" in index then Some(index[apiVersion + "/*"])
    else None
  }

  /** An indexed rule is a row of the catalog, found under its own key. */
  lemma {:induction false} IndexedUnderOwnKey(rules: seq<Rule>, key: string)
    requires key in RuleIndex(rules)
    ensures var r := RuleIndex(rules)[key];
            r in rules && BarKey(r.apiVersion, r.kind) == key && r.apiVersion != "" && r.kind != ""
  {
    var front, r := rules[..|rules| - 1], rules[|rules| - 1];
    if r.apiVersion == "" || r.kind == "" || key != BarKey(r.apiVersion, r.kind) {
      IndexedUnderOwnKey(front, key);
    }
  }

  function LowerChar(c: char): char {
    if 'A' <= c <= 'Z' then c - 'A' + 'a' else c
  }

  function ToLower(s: string): string {
    if s == "" then "" else [LowerChar(s[0])] + ToLower(s[1..])
  }

  function Slug(apiVersion: string): string {
    if apiVersion == "" then ""
    else
      var c := LowerChar(apiVersion[0]);
      [if c == '/' || c == '.' then '-' else c] + Slug(apiVersion[1..])
  }

  /** The rule for an apiVersion and kind, from the catalog row or, failing that, from the detector's. */
  function Lookup(cat: Catalog, apiVersion: string, kind: string): Option<Rule> {
    match DeprecationFor(cat, apiVersion, kind)
    case Some(rule) => Some(rule)
    case None =>
      match LifecycleFor(cat, apiVersion, kind)
      case None => None
      case Some(life) =>
        Some(Rule(apiVersion, kind, life.deprecatedIn, life.removedIn, life.replacement,
                  "rtz-k8s-dep-" + Slug(apiVersion) + "-" + ToLower(kind)))
  }

  lemma LookupKeepsKey(cat: Catalog, apiVersion: string, kind: string)
    requires Lookup(cat, apiVersion, kind).Some?
    ensures var r := Lookup(cat, apiVersion, kind).value;
            BarKey(r.apiVersion, r.kind) == BarKey(apiVersion, kind)
  {
    if DeprecationFor(cat, apiVersion, kind).Some? {
      IndexedUnderOwnKey(cat.rules, BarKey(apiVersion, kind));
    }
  }

  lemma {:induction false} RuleIndexed(rules: seq<Rule>, key: string)
    ensures key in RuleIndex(rules) <==>
            exists r | r in rules :: r.apiVersion != "" && r.kind != "" && BarKey(r.apiVersion, r.kind) == key
  {
    hide BarKey;
    if rules != [] {
      var front, last := rules[..|rules| - 1], rules[|rules| - 1];
      RuleIndexed(front, key);
      assert rules == front + [last];
      assert forall r :: r in rules <==> r in front || r == last;
    }
  }

  lemma {:induction false} LifecycleIndexed(rows: seq<Lifecycle>, key: string)
    ensures key in LifecycleIndex(rows) <==>
            exists l | l in rows :: l.apiVersion != "" && l.kind != "" && l.apiVersion + "/" + l.kind == key
    ensures key in LifecycleIndex(rows) ==>
              var l := LifecycleIndex(rows)[key]; l in rows && l.apiVersion + "/" + l.kind == key
  {
    if rows != [] {
      var front, last := rows[..|rows| - 1], rows[|rows| - 1];
      LifecycleIndexed(front, key);
      assert rows == front + [last];
      assert forall l :: l in rows <==> l in front || l == last;
    }
  }

  ghost predicate DetectorNames(cat: Catalog, key: string) {
    exists l | l in cat.detector :: l.apiVersion != "" && l.kind != "" && l.apiVersion + "/" + l.kind == key
  }

  /** Which rule stands for an apiVersion and kind: the catalog's row if there is one, else the detector's for
      that very kind, else the detector's for the whole group-version, and none otherwise. */
  lemma LookupMeans(cat: Catalog, apiVersion: string, kind: string)
    ensures var rule, own, all := Lookup(cat, apiVersion, kind), apiVersion + "/" + kind, apiVersion + "/*";
            if exists r | r in cat.rules :: r.apiVersion != "" && r.kind != "" &&
                                            r.apiVersion + "|" + r.kind == apiVersion + "|" + kind
            then rule.Some? && rule.value in cat.rules
            else if DetectorNames(cat, own) || DetectorNames(cat, all) then
              && rule.Some? && rule.value.apiVersion == apiVersion && rule.value.kind == kind
              && exists l | l in cat.detector ::
                   && l.apiVersion + "/" + l.kind == (if DetectorNames(cat, own) then own else all)
                   && rule.value.deprecatedIn == l.deprecatedIn && rule.value.removedIn == l.removedIn
                   && rule.value.replacement == l.replacement
            else rule.None?
  {
    hide Slug, ToLower;
    RuleIndexed(cat.rules, BarKey(apiVersion, kind));
    LifecycleIndexed(cat.detector, apiVersion + "/" + kind);
    LifecycleIndexed(cat.detector, apiVersion + "/*");
    if DeprecationFor(cat, apiVersion, kind).Some? {
      IndexedUnderOwnKey(cat.rules, BarKey(apiVersion, kind));
    }
  }

  /** Of two rows for one apiVersion and kind the later one stands. */
  lemma LaterRowStands(rules: seq<Rule>, r: Rule, detector: seq<Lifecycle>)
    requires r.apiVersion != "" && r.kind != ""
    ensures Lookup(Catalog(rules + [r], detector), r.apiVersion, r.kind) == Some(r)
  {
    hide BarKey;
    assert (rules + [r])[..|rules|] == rules;
  }

  lemma {:induction false} ToLowerMeans(s: string)
    ensures |ToLower(s)| == |s|
    ensures forall i | 0 <= i < |s| ::
              ToLower(s)[i] == if 'A' <= s[i] <= 'Z' then (s[i] as int + 32) as char else s[i]
  {
    if s != "" {
      ToLowerMeans(s[1..]);
    }
  }
}
