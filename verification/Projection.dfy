/** Keeping only the keys the rules read, and why that changes no verdict. */
module Projection {
  import opened Text
  import opened Sorting
  import opened PathWalk
  import opened Inventory
  import opened Rules
  import opened Settle
  import Deprecations
  import Selection

  // ---------- the keys a predicate reads ----------

  /** The top-level key the collector keeps for a target. */
  function KeepKey(target: string): string {
    TrimSuffix(Split(TrimSuffix(target, "[]"), '.')[0], "[]")
  }

  function KeysFor(d: Detection): seq<string> {
    match d.kind
    case SpecFieldPresent => if KeepKey(d.target) == "" then [] else [KeepKey(d.target)]
    case SpecFieldEquals => if KeepKey(d.target) == "" then [] else [KeepKey(d.target)]
    case SpecPathMatches => if KeepKey(d.target) == "" then [] else [KeepKey(d.target)]
    case ImageRepositoryPresent => ["containers", "initContainers"]
    case _ => []
  }

  /** What the collector asks each kind for: one pair for every kind of every predicate a rule
      reads. */
  function Reads(cat: Deprecations.Catalog, rule: GeneratedRule): seq<Detection> {
    var d := rule.detection;
    (if d.kind in {NotDetectable, CrdServedVersion, VersionSkewExceeds} ||
        Selection.IsOwned(cat, rule) then [] else [d]) +
    (if rule.scope.Some? then [rule.scope.value] else []) +
    (if rule.gate.Some? then [rule.gate.value] else [])
  }

  /** A rule's hint and gate are always asked for, and its detection unless it cannot be detected, reads typed
      collectors only, or is left to the removed-API catalog. */
  lemma ReadsMeans(cat: Deprecations.Catalog, rule: GeneratedRule, d: Detection)
    ensures d in Reads(cat, rule) <==>
            || rule.scope == Some(d)
            || rule.gate == Some(d)
            || (d == rule.detection && d.kind != NotDetectable && d.kind != CrdServedVersion &&
                d.kind != VersionSkewExceeds && !Selection.IsOwned(cat, rule))
  {
    hide Selection.IsOwned;
  }

  datatype Ask = Ask(kind: string, detection: Detection)

  function AsksOver(d: Detection, kinds: seq<string>): seq<Ask> {
    if kinds == [] then [] else AsksOver(d, kinds[..|kinds| - 1]) + [Ask(kinds[|kinds| - 1], d)]
  }

  function AsksOf(predicates: seq<Detection>): seq<Ask> {
    if predicates == [] then []
    else
      var d := predicates[|predicates| - 1];
      AsksOf(predicates[..|predicates| - 1]) + AsksOver(d, ObjectKinds(d))
  }

  function Asks(cat: Deprecations.Catalog, rules: seq<GeneratedRule>): seq<Ask> {
    if rules == [] then []
    else Asks(cat, rules[..|rules| - 1]) + AsksOf(Reads(cat, rules[|rules| - 1]))
  }

  /** Nodes are read whole by their own collector. */
  predicate Wanted(kind: string) {
    kind != "" && kind != "Node"
  }

  /** Each wanted kind keeps exactly the keys some predicate over it reads, each once. */
  ghost predicate WantsMatch(wants: map<string, seq<string>>, asks: seq<Ask>) {
    && (forall kind :: kind in wants <==> Wanted(kind) && exists a | a in asks :: a.kind == kind)
    && (forall kind, key | kind in wants ::
          key in wants[kind] <==> exists a | a in asks :: a.kind == kind && key in KeysFor(a.detection))
    && (forall kind | kind in wants :: forall i, j | 0 <= i < j < |wants[kind]| :: wants[kind][i] != wants[kind][j])
  }

  function Added(keep: seq<string>, keys: seq<string>): seq<string> {
    if keys == [] then keep
    else
      var before := Added(keep, keys[..|keys| - 1]);
      if keys[|keys| - 1] in before then before else before + [keys[|keys| - 1]]
  }

  function Want(wants: map<string, seq<string>>, a: Ask): map<string, seq<string>> {
    if !Wanted(a.kind) then wants
    else wants[a.kind := Added(if a.kind in wants then wants[a.kind] else [], KeysFor(a.detection))]
  }

  lemma {:induction false} AddedHolds(keep: seq<string>, keys: seq<string>)
    requires forall i, j | 0 <= i < j < |keep| :: keep[i] != keep[j]
    ensures forall k :: k in Added(keep, keys) <==> k in keep || k in keys
    ensures forall i, j | 0 <= i < j < |Added(keep, keys)| :: Added(keep, keys)[i] != Added(keep, keys)[j]
  {
    if keys != [] {
      AddedHolds(keep, keys[..|keys| - 1]);
      assert keys == keys[..|keys| - 1] + [keys[|keys| - 1]];
    }
  }

  lemma WantGrows(wants: map<string, seq<string>>, asks: seq<Ask>, a: Ask)
    requires WantsMatch(wants, asks)
    ensures WantsMatch(Want(wants, a), asks + [a])
  {
    hide KeysFor;
    assert forall b :: b in asks + [a] <==> b in asks || b == a;
    if Wanted(a.kind) {
      AddedHolds(if a.kind in wants then wants[a.kind] else [], KeysFor(a.detection));
    }
  }

  method Wants(cat: Deprecations.Catalog, rules: seq<GeneratedRule>) returns (wants: map<string, seq<string>>)
    ensures WantsMatch(wants, Asks(cat, rules)) && "Node" !in wants && "" !in wants
  {
    hide WantsMatch, Reads, ObjectKinds, Want;
    wants := map[];
    NothingWanted();
    for i := 0 to |rules|
      invariant WantsMatch(wants, Asks(cat, rules[..i]))
    {
      assert rules[..i + 1][..i] == rules[..i];
      ghost var asked := Asks(cat, rules[..i]);
      var predicates := Reads(cat, rules[i]);
      assert asked + AsksOf([]) == asked;
      for j := 0 to |predicates|
        invariant WantsMatch(wants, asked + AsksOf(predicates[..j]))
      {
        assert predicates[..j + 1][..j] == predicates[..j];
        var d := predicates[j];
        wants := WantKinds(wants, d, ObjectKinds(d), asked + AsksOf(predicates[..j]));
        assert asked + AsksOf(predicates[..j + 1]) == asked + AsksOf(predicates[..j]) + AsksOver(d, ObjectKinds(d));
      }
      assert predicates[..|predicates|] == predicates;
    }
    assert rules[..|rules|] == rules;
    NodesAreNotWanted(wants, Asks(cat, rules));
  }

  lemma NodesAreNotWanted(wants: map<string, seq<string>>, asks: seq<Ask>)
    requires WantsMatch(wants, asks)
    ensures "Node" !in wants && "" !in wants
  {
  }

  /** One predicate asks each of its kinds for the keys it reads. */
  method WantKinds(before: map<string, seq<string>>, d: Detection, kinds: seq<string>, ghost asked: seq<Ask>)
    returns (wants: map<string, seq<string>>)
    requires WantsMatch(before, asked)
    ensures WantsMatch(wants, asked + AsksOver(d, kinds))
  {
    hide WantsMatch, Want;
    wants := before;
    assert asked + AsksOver(d, []) == asked;
    for k := 0 to |kinds|
      invariant WantsMatch(wants, asked + AsksOver(d, kinds[..k]))
    {
      assert kinds[..k + 1][..k] == kinds[..k];
      WantGrows(wants, asked + AsksOver(d, kinds[..k]), Ask(kinds[k], d));
      wants := Want(wants, Ask(kinds[k], d));
      assert asked + AsksOver(d, kinds[..k + 1]) == asked + AsksOver(d, kinds[..k]) + [Ask(kinds[k], d)];
    }
    assert kinds[..|kinds|] == kinds;
  }

  lemma NothingWanted()
    ensures WantsMatch(map[], [])
  {
  }

  // ---------- cutting a row ----------

  function Projected(m: map<string, Json>, keep: seq<string>): map<string, Json> {
    map k | k in m && k in keep :: m[k]
  }

  method Project(m: map<string, Json>, keep: Option<seq<string>>) returns (out: map<string, Json>)
    ensures out == if keep.None? then m else Projected(m, keep.value)
  {
    if keep.None? {
      return m;
    }
    out := map[];
    for i := 0 to |keep.value|
      invariant out == Projected(m, keep.value[..i])
    {
      var key := keep.value[i];
      assert keep.value[..i + 1] == keep.value[..i] + [key];
      if key in m {
        out := out[key := m[key]];
      }
    }
    assert keep.value[..|keep.value|] == keep.value;
  }

  function Cut(r: Row, keep: seq<string>): Row {
    r.(spec := Projected(r.spec, keep), status := Projected(r.status, keep))
  }

  /** The keys at the top of an object that the predicate looks at. */
  function ReadKeys(d: Detection): seq<string> {
    match d.kind
    case SpecFieldPresent => [d.target]
    case SpecFieldEquals => [d.target]
    case SpecPathMatches => [Name(Split(d.target, '.')[0])]
    case ImageRepositoryPresent => ["containers", "initContainers"]
    case _ => []
  }

  lemma WalkReadsFirstKey(section: map<string, Json>, keep: seq<string>, segments: seq<string>)
    requires segments != []
    ensures LeavesAt(Object(Projected(section, keep)), segments) ==
            if Name(segments[0]) in keep then LeavesAt(Object(section), segments) else []
  {
  }

  /** A predicate cannot tell a row from its cut when the keys it looks at are kept. */
  lemma CutKeepsMatch(lib: Library, d: Detection, r: Row, keep: seq<string>)
    requires forall k | k in ReadKeys(d) :: k in keep
    ensures Matches(lib, d, Cut(r, keep)) == Matches(lib, d, r)
  {
    hide LeavesAt, Split, NamesKey, Contains;
    var cut := Cut(r, keep);
    match d.kind
    case SpecPathMatches =>
      var segments := Split(d.target, '.');
      assert segments[0] == Split(d.target, '.')[0];
      assert Name(segments[0]) in ReadKeys(d);
      WalkReadsFirstKey(r.spec, keep, segments);
      WalkReadsFirstKey(r.status, keep, segments);
    case ImageRepositoryPresent =>
      assert "containers" in ReadKeys(d) && "initContainers" in ReadKeys(d);
      assert ImagesAt(cut.spec, "containers") == ImagesAt(r.spec, "containers");
      assert ImagesAt(cut.spec, "initContainers") == ImagesAt(r.spec, "initContainers");
    case SpecFieldPresent => assert d.target in ReadKeys(d);
    case SpecFieldEquals => assert d.target in ReadKeys(d);
    case _ =>
  }

  /** With its key cut away a field or path predicate matches nothing. */
  lemma CutHidesMatch(lib: Library, d: Detection, r: Row, keep: seq<string>)
    requires d.kind in {SpecFieldPresent, SpecFieldEquals, SpecPathMatches}
    requires forall k | k in ReadKeys(d) :: k !in keep
    ensures !Matches(lib, d, Cut(r, keep))
  {
    hide LeavesAt, Split;
    if d.kind == SpecPathMatches {
      var segments := Split(d.target, '.');
      assert Name(segments[0]) in ReadKeys(d);
      WalkReadsFirstKey(r.spec, keep, segments);
      WalkReadsFirstKey(r.status, keep, segments);
    } else {
      assert d.target in ReadKeys(d);
    }
  }

  // ---------- when the kept keys are the read keys ----------

  /** A field target names one top-level key; a path's first segment names one, and is not a list of lists
      on its own. Every other kind of predicate is covered. */
  predicate Covered(d: Detection) {
    match d.kind
    case SpecFieldPresent => d.target != "" && '.' !in d.target && !HasSuffix(d.target, "[]")
    case SpecFieldEquals => d.target != "" && '.' !in d.target && !HasSuffix(d.target, "[]")
    case SpecPathMatches =>
      Name(Split(d.target, '.')[0]) != "" && !('.' !in d.target && HasSuffix(d.target, "[][]"))
    case _ => true
  }

  lemma {:induction false} SplitAtDot(s: string) returns (a: string, b: string)
    requires '.' in s
    ensures s == a + "." + b && '.' !in a
  {
    if s[0] == '.' {
      a, b := "", s[1..];
    } else {
      a, b := SplitAtDot(s[1..]);
      a := [s[0]] + a;
    }
  }

  lemma TrimmedIsShorter(s: string)
    ensures HasSuffix(s, "[]") ==> TrimSuffix(s, "[]") + "[]" == s
    ensures !HasSuffix(s, "[]") ==> TrimSuffix(s, "[]") == s
    ensures '.' in TrimSuffix(s, "[]") <==> '.' in s
  {
    if HasSuffix(s, "[]") {
      assert s == s[..|s| - 2] + "[]";
    }
  }

  lemma FirstOfDotted(s: string, a: string, b: string)
    requires s == a + "." + b && '.' !in a
    ensures Split(s, '.')[0] == a
    ensures Split(TrimSuffix(s, "[]"), '.')[0] == a
  {
    SplitHead(a, '.', b);
    if HasSuffix(s, "[]") {
      var n := |s|;
      assert s[n - 2..] == "[]" && s[n - 2] == s[n - 2..][0] && s[n - 1] == s[n - 2..][1];
      assert s[|a|] == '.';
      assert |a| != n - 1 && |a| != n - 2;
      assert s[..n - 2] == a + "." + b[..|b| - 2];
      SplitHead(a, '.', b[..|b| - 2]);
    }
  }

  /** A field target is kept whole exactly when it has no dot and no "[]". */
  lemma FieldKeyKept(target: string)
    ensures KeepKey(target) == target <==> '.' !in target && !HasSuffix(target, "[]")
  {
    hide Split, TrimSuffix;
    TrimmedIsShorter(target);
    var trimmed := TrimSuffix(target, "[]");
    if '.' in target {
      var a, b := SplitAtDot(target);
      FirstOfDotted(target, a, b);
      TrimmedIsShorter(a);
      assert |KeepKey(target)| < |target|;
    } else {
      SplitOne(trimmed, '.');
      TrimmedIsShorter(trimmed);
    }
  }

  /** A path's first key is kept exactly when the path is not one segment ending in two pairs of brackets. */
  lemma PathKeyKept(target: string)
    ensures KeepKey(target) == Name(Split(target, '.')[0]) <==> !('.' !in target && HasSuffix(target, "[][]"))
  {
    hide Split;
    TrimmedIsShorter(target);
    var trimmed := TrimSuffix(target, "[]");
    if '.' in target {
      var a, b := SplitAtDot(target);
      FirstOfDotted(target, a, b);
    } else {
      SplitOne(target, '.');
      SplitOne(trimmed, '.');
      TrimmedIsShorter(trimmed);
      DoubleSuffix(target);
    }
  }

  lemma DoubleSuffix(s: string)
    ensures HasSuffix(s, "[][]") <==> HasSuffix(s, "[]") && HasSuffix(TrimSuffix(s, "[]"), "[]")
  {
    var n := |s|;
    if n >= 4 {
      assert s[n - 4..] == s[n - 4..n - 2] + s[n - 2..];
      assert s[..n - 2][n - 4..] == s[n - 4..n - 2];
      assert "[][]" == "[]" + "[]";
      if HasSuffix(s, "[][]") {
        assert s[n - 2..] == s[n - 4..][2..] == "[]";
        assert s[n - 4..n - 2] == s[n - 4..][..2] == "[]";
      }
    }
  }

  /** Every key a covered predicate reads is one the collector keeps for it, and no other predicate's is. */
  lemma CoveredKeysAreKept(d: Detection)
    ensures Covered(d) ==> forall k | k in ReadKeys(d) :: k in KeysFor(d)
    ensures !Covered(d) ==> d.kind in {SpecFieldPresent, SpecFieldEquals, SpecPathMatches} &&
                            forall k | k in ReadKeys(d) :: k !in KeysFor(d)
  {
    hide KeepKey, Name, Split, HasSuffix;
    FieldKeyKept(d.target);
    PathKeyKept(d.target);
  }

  /** The verdict on every row survives the cut, whatever else the cut keeps. */
  ghost predicate Preserved(lib: Library, d: Detection) {
    forall r, keep: seq<string> | (forall k | k in KeysFor(d) :: k in keep) ::
      Matches(lib, d, Cut(r, keep)) == Matches(lib, d, r)
  }

  /** The projection preserves a predicate's verdict exactly when the predicate is covered, or can match
      nothing at all. */
  lemma ProjectionIsExact(lib: Library, d: Detection)
    ensures Preserved(lib, d) <==> Covered(d) || forall r :: !Matches(lib, d, r)
  {
    hide Matches, Covered, ReadKeys, KeysFor, Cut;
    CoveredKeysAreKept(d);
    if Covered(d) {
      forall r, keep: seq<string> | forall k | k in KeysFor(d) :: k in keep
        ensures Matches(lib, d, Cut(r, keep)) == Matches(lib, d, r)
      {
        CutKeepsMatch(lib, d, r, keep);
      }
    } else if r :| Matches(lib, d, r) {
      var keep := KeysFor(d);
      CutHidesMatch(lib, d, r, keep);
      assert Matches(lib, d, Cut(r, keep)) != Matches(lib, d, r);
    }
  }

  /** The shape the catalog accepts of a field or path predicate. */
  predicate WellShaped(d: Detection) {
    && d.kind in {SpecFieldPresent, SpecFieldEquals, SpecPathMatches}
    && d.objectKind != "" && d.target != ""
    && (d.kind == SpecFieldPresent || d.value != "")
  }

  /** A row whose spec holds this one field. */
  function RowHolding(key: string): Row {
    Row("IstioOperator", "istio-system/mesh", "istio-system", "mesh", {}, {}, map[key := Str("set")], map[], [])
  }

  /** A presence check can always match, so its verdict survives exactly when it is covered. */
  lemma PresenceIsExact(lib: Library, d: Detection)
    requires d.kind == SpecFieldPresent
    ensures Preserved(lib, d) <==> Covered(d)
  {
    hide Preserved, Covered;
    ProjectionIsExact(lib, d);
    assert Matches(lib, d, RowHolding(d.target));
  }

  /** A field whose name has a dot is looked up whole but kept by its first part: the catalog accepts the rule,
      an object satisfies it, and what the collector keeps of that object does not. The kind is a custom resource
      whose schema takes any field, and no projector derives its rows. */
  lemma ADottedFieldIsLost(lib: Library)
    ensures var d := Detection(SpecFieldPresent, "IstioOperator", "", "", "a.b", "");
            && WellShaped(d) && !Covered(d) && KeysFor(d) == ["a"]
            && Matches(lib, d, RowHolding("a.b")) && !Matches(lib, d, Cut(RowHolding("a.b"), KeysFor(d)))
  {
    var d := Detection(SpecFieldPresent, "IstioOperator", "", "", "a.b", "");
    assert d.target == "a" + "." + "b" && d.target[1] == '.';
    FirstOfDotted(d.target, "a", "b");
    TrimmedIsShorter("a");
    assert KeepKey(d.target) == "a";
    assert "a.b" != "a" by {
      assert |"a.b"| != |"a"|;
    }
    assert Cut(RowHolding("a.b"), ["a"]).spec == map[];
  }

  // ---------- settling on the projected inventory ----------

  function CutRows(rows: seq<Row>, keep: seq<string>): seq<Row> {
    if rows == [] then [] else CutRows(rows[..|rows| - 1], keep) + [Cut(rows[|rows| - 1], keep)]
  }

  /** What the collector holds: the wanted kinds cut to their keys, the rest whole. */
  function Collected(inv: Inventory, wants: map<string, seq<string>>): Inventory {
    inv.(crs := map kind | kind in inv.crs ::
        if kind in wants then CutRows(inv.crs[kind], wants[kind]) else inv.crs[kind])
  }

  /** Two lists of rows a predicate and its filters cannot tell apart. */
  ghost predicate Alike(lib: Library, d: Detection, a: seq<Row>, b: seq<Row>) {
    |a| == |b| && forall i | 0 <= i < |a| :: AlikeRow(lib, d, a[i], b[i])
  }

  predicate AlikeRow(lib: Library, d: Detection, a: Row, b: Row) {
    a.ref == b.ref && a.namespace == b.namespace && a.name == b.name && a.writtenAt == b.writtenAt &&
    (Matches(lib, d, a) <==> Matches(lib, d, b))
  }

  lemma {:induction false} CutRowsAlike(lib: Library, d: Detection, rows: seq<Row>, keep: seq<string>)
    requires Covered(d) && forall k | k in KeysFor(d) :: k in keep
    ensures Alike(lib, d, CutRows(rows, keep), rows)
  {
    hide Matches, Covered, KeysFor;
    if rows != [] {
      CutRowsAlike(lib, d, rows[..|rows| - 1], keep);
      CoveredKeysAreKept(d);
      CutKeepsMatch(lib, d, rows[|rows| - 1], keep);
    }
  }

  lemma {:induction false} KeepAlike(lib: Library, d: Detection, a: seq<Row>, b: seq<Row>, keep: Row -> bool)
    requires Alike(lib, d, a, b)
    requires forall i | 0 <= i < |a| :: keep(a[i]) == keep(b[i])
    ensures Alike(lib, d, Keep(a, keep), Keep(b, keep))
  {
    hide AlikeRow;
    if a != [] {
      KeepAlike(lib, d, a[..|a| - 1], b[..|b| - 1], keep);
    }
  }

  lemma {:induction false} RefsAlike(lib: Library, d: Detection, a: seq<Row>, b: seq<Row>)
    requires Alike(lib, d, a, b)
    ensures Refs(a) == Refs(b)
  {
    hide Matches;
    if a != [] {
      RefsAlike(lib, d, a[..|a| - 1], b[..|b| - 1]);
    }
  }

  lemma FireAlike(lib: Library, d: Detection, a: seq<Row>, b: seq<Row>)
    requires Alike(lib, d, a, b)
    ensures FireOn(a) == FireOn(b)
  {
    hide AlikeRow, SortTexts;
    RefsAlike(lib, d, a, b);
  }

  /** The wants cover a predicate's kinds: each kept kind keeps the keys the predicate reads. */
  ghost predicate KeepsFor(wants: map<string, seq<string>>, d: Detection) {
    Covered(d) && forall kind | kind in ObjectKinds(d) &&
        kind in wants :: forall k | k in KeysFor(d) :: k in wants[kind]
  }

  lemma SelectAlike(lib: Library, d: Detection, a: seq<Row>, b: seq<Row>)
    requires Alike(lib, d, a, b)
    ensures Alike(lib, d, SelectFrom(lib, d, a), SelectFrom(lib, d, b))
  {
    hide Matches;
    var keep := (r: Row) => Selected(lib, d, r);
    assert forall i | 0 <= i < |a| :: AlikeRow(lib, d, a[i], b[i]);
    KeepAlike(lib, d, a, b, r => Selected(lib, d, r));
  }

  ghost predicate SameRead(lib: Library, d: Detection, a: KindRead, b: KindRead) {
    if a.RowsRead? then b.RowsRead? && Alike(lib, d, a.rows, b.rows) else a == b
  }

  lemma KindReadAlike(lib: Library, inv: Inventory, wants: map<string, seq<string>>, d: Detection, kind: string)
    requires KeepsFor(wants, d) && kind in ObjectKinds(d)
    ensures SameRead(lib, d, RowsOf(Collected(inv, wants), kind), RowsOf(inv, kind))
  {
    hide Matches, Covered, KeysFor, ObjectKinds, CutRows, AlikeRow;
    if kind in inv.crs && kind in wants {
      CutRowsAlike(lib, d, inv.crs[kind], wants[kind]);
    }
    var read := RowsOf(inv, kind);
    if read.RowsRead? {
      RowsAlikeSelf(lib, d, read.rows);
    }
  }

  lemma RowsAlikeSelf(lib: Library, d: Detection, rows: seq<Row>)
    ensures Alike(lib, d, rows, rows)
  {
    hide Matches;
  }

  ghost predicate SameSubject(lib: Library, d: Detection, a: Subject, b: Subject) {
    if a.Gathered? then b.Gathered? && a.applies == b.applies && Alike(lib, d, a.rows, b.rows) else a == b
  }

  lemma {:induction false} GatherAlike(lib: Library, inv: Inventory, wants: map<string, seq<string>>,
          d: Detection, kinds: seq<string>)
    requires KeepsFor(wants, d) && forall k | k in kinds :: k in ObjectKinds(d)
    ensures SameSubject(lib, d, Gather(lib, Collected(inv, wants), d, kinds), Gather(lib, inv, d, kinds))
  {
    hide Matches, KeepsFor, ObjectKinds, RowsOf, Collected, SelectFrom, AlikeRow;
    if kinds != [] {
      var kind := kinds[|kinds| - 1];
      GatherAlike(lib, inv, wants, d, kinds[..|kinds| - 1]);
      KindReadAlike(lib, inv, wants, d, kind);
      var a, b := RowsOf(Collected(inv, wants), kind), RowsOf(inv, kind);
      if a.RowsRead? {
        SelectAlike(lib, d, a.rows, b.rows);
      }
    }
  }

  /** Settling a rule on what the collector kept is settling it on the whole objects. */
  lemma ProjectionKeepsOutcome(lib: Library, inv: Inventory, wants: map<string, seq<string>>, served: Served,
          d: Detection)
    requires KeepsFor(wants, d)
    ensures RowRule(lib, Collected(inv, wants), d) == RowRule(lib, inv, d)
    ensures ApiVersionRule(lib, Collected(inv, wants), served, d) == ApiVersionRule(lib, inv, served, d)
  {
    hide Matches, KeepsFor, ObjectKinds, Collected, AlikeRow, Gather, FireOn, KnownNotServed;
    GatherAlike(lib, inv, wants, d, ObjectKinds(d));
    var a, b := SubjectOf(lib, Collected(inv, wants), d), SubjectOf(lib, inv, d);
    if a.Gathered? {
      HitsAlike(lib, d, a.rows, b.rows);
    }
  }

  lemma HitsAlike(lib: Library, d: Detection, a: seq<Row>, b: seq<Row>)
    requires Alike(lib, d, a, b)
    ensures FireOn(Hits(lib, d, a)) == FireOn(Hits(lib, d, b))
    ensures FireOn(Keep(a, r => WrittenAt(d, r))) == FireOn(Keep(b, r => WrittenAt(d, r)))
    ensures Opened(lib, d, a) == Opened(lib, d, b)
  {
    hide Matches, FireOn, AtTarget;
    assert forall i | 0 <= i < |a| :: AlikeRow(lib, d, a[i], b[i]);
    KeepAlike(lib, d, a, b, r => Matches(lib, d, r));
    FireAlike(lib, d, Hits(lib, d, a), Hits(lib, d, b));
    KeepAlike(lib, d, a, b, r => WrittenAt(d, r));
    FireAlike(lib, d, Keep(a, r => WrittenAt(d, r)), Keep(b, r => WrittenAt(d, r)));
    forall ref
      ensures ref in Opened(lib, d, a) <==> ref in Opened(lib, d, b)
    {
      if r :| r in a && Matches(lib, d, r) && r.ref == ref {
        var i :| 0 <= i < |a| && a[i] == r;
        assert b[i] in b && Matches(lib, d, b[i]);
      }
      if r :| r in b && Matches(lib, d, r) && r.ref == ref {
        var i :| 0 <= i < |b| && b[i] == r;
        assert a[i] in a && Matches(lib, d, a[i]);
      }
    }
  }

  lemma ProjectionKeepsGate(lib: Library, inv: Inventory, wants: map<string, seq<string>>, d: Detection,
          g: Detection, out: Outcome)
    requires KeepsFor(wants, g)
    ensures GateOn(lib, Collected(inv, wants), d, g, out) == GateOn(lib, inv, d, g, out)
  {
    hide Matches, KeepsFor, ObjectKinds, Collected, AlikeRow, Gather, Opened, Narrow, GateText, SameKind;
    GatherAlike(lib, inv, wants, g, ObjectKinds(g));
    var a, b := SubjectOf(lib, Collected(inv, wants), g), SubjectOf(lib, inv, g);
    if a.Gathered? {
      HitsAlike(lib, g, a.rows, b.rows);
    }
  }

  lemma {:induction false} AsksHold(cat: Deprecations.Catalog, rules: seq<GeneratedRule>, rule: GeneratedRule,
          d: Detection, kind: string)
    requires rule in rules && d in Reads(cat, rule) && kind in ObjectKinds(d)
    ensures Ask(kind, d) in Asks(cat, rules)
  {
    hide Reads, ObjectKinds;
    if rule == rules[|rules| - 1] {
      AsksOfHold(Reads(cat, rule), d, kind);
    } else {
      AsksHold(cat, rules[..|rules| - 1], rule, d, kind);
    }
  }

  lemma {:induction false} AsksOfHold(predicates: seq<Detection>, d: Detection, kind: string)
    requires d in predicates && kind in ObjectKinds(d)
    ensures Ask(kind, d) in AsksOf(predicates)
  {
    hide ObjectKinds;
    if d == predicates[|predicates| - 1] {
      AsksOverHold(d, ObjectKinds(d), kind);
    } else {
      AsksOfHold(predicates[..|predicates| - 1], d, kind);
    }
  }

  lemma {:induction false} AsksOverHold(d: Detection, kinds: seq<string>, kind: string)
    requires kind in kinds
    ensures Ask(kind, d) in AsksOver(d, kinds)
  {
    if kind != kinds[|kinds| - 1] {
      AsksOverHold(d, kinds[..|kinds| - 1], kind);
    }
  }

  /** Whichever other rules share a kind, the wants keep what each covered predicate on the path reads. */
  lemma WantsKeepForEach(cat: Deprecations.Catalog, rules: seq<GeneratedRule>, wants: map<string, seq<string>>,
                         rule: GeneratedRule, d: Detection)
    requires WantsMatch(wants, Asks(cat, rules))
    requires rule in rules && d in Reads(cat, rule) && Covered(d)
    ensures KeepsFor(wants, d)
    ensures forall kind | kind in ObjectKinds(d) && kind != "Node" :: kind in wants
  {
    hide Reads, ObjectKinds, KeysFor, Covered;
    forall kind | kind in ObjectKinds(d)
      ensures Ask(kind, d) in Asks(cat, rules)
      ensures kind != ""
    {
      AsksHold(cat, rules, rule, d, kind);
      KindsAreNamed(d, kind);
    }
  }

  lemma KindsAreNamed(d: Detection, kind: string)
    requires kind in ObjectKinds(d)
    ensures kind != ""
  {
    NoBlankKinds(Split(d.objectKind, '|'));
  }
}
