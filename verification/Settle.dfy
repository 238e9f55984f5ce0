/** Settling one rule against what was read: a finding, a clear, or a decline. */
module Settle {
  import opened Text
  import opened Sorting
  import opened Inventory
  import opened Rules

  const MAX_NAMED := 10

  /** How the read of one kind went. */
  datatype KindRead =
    | RowsRead(rows: seq<Row>)
    | RowsUnread(reason: string)
    | RowsNotServed
    | RowsNotCollected(reason: string)

  datatype Outcome = Clear | Fired(affected: seq<string>, matched: nat) | Declined(scope: string, reason: string)

  /** The rows a rule reads across its kinds, or the first kind that could not be read. */
  datatype Subject = Gathered(rows: seq<Row>, applies: bool) | Unsettled(scope: string, reason: string)

  /** A decline always says why. */
  function DeclinedFor(scope: string, reason: string): (r: Outcome)
    ensures r.Declined?
  {
    Declined(scope, if TrimSpace(reason) == "" then scope + " could not be read" else reason)
  }

  function Typed(inv: Inventory, collector: string, rows: seq<Row>): KindRead {
    if inv.Read(collector) then RowsRead(rows) else RowsUnread(inv.ReasonOf(collector))
  }

  function RowsOf(inv: Inventory, kind: string): KindRead {
    if kind == "Node" then Typed(inv, NODES, Mapped(inv.nodes, (n: Node) => n.row))
    else if kind == "CustomResourceDefinition" then Typed(inv, CRDS, Mapped(inv.crds, (c: Crd) => c.row))
    else if kind in inv.crs then RowsRead(inv.crs[kind])
    else if kind == "StorageClass" then Typed(inv, STORAGE, inv.storageClasses)
    else if kind in inv.crUnread then RowsUnread(inv.crUnread[kind])
    else if kind in inv.crNotServed then RowsNotServed
    else RowsNotCollected("objects of kind " + kind + " were not collected in this scan")
  }

  /** Whatever the reason given, the one printed says something. */
  lemma DeclineSaysWhy(scope: string, reason: string)
    ensures DeclinedFor(scope, reason).scope == scope
    ensures DeclinedFor(scope, reason).reason ==
            if TrimSpace(reason) != "" then reason else scope + " could not be read"
  {
  }

  // ---------- the subject ----------

  predicate Selected(lib: Library, d: Detection, r: Row) {
    (d.namespace == "" || r.namespace == d.namespace) && (d.objectName == "" || lib.matches(d.objectName, r.name))
  }

  function Keep(rows: seq<Row>, keep: Row -> bool): seq<Row> {
    if rows == [] then []
    else Keep(rows[..|rows| - 1], keep) + if keep(rows[|rows| - 1]) then [rows[|rows| - 1]] else []
  }

  function SelectFrom(lib: Library, d: Detection, rows: seq<Row>): seq<Row> {
    Keep(rows, r => Selected(lib, d, r))
  }

  function Gather(lib: Library, inv: Inventory, d: Detection, kinds: seq<string>): Subject {
    if kinds == [] then Gathered([], false)
    else
      var kind := kinds[|kinds| - 1];
      match Gather(lib, inv, d, kinds[..|kinds| - 1])
      case Unsettled(scope, reason) => Unsettled(scope, reason)
      case Gathered(rows, applies) =>
        match RowsOf(inv, kind)
        case RowsNotServed => Gathered(rows, applies)
        case RowsUnread(reason) => Unsettled(kind, reason)
        case RowsNotCollected(reason) => Unsettled(kind, reason)
        case RowsRead(more) => Gathered(rows + SelectFrom(lib, d, more), true)
  }

  function SubjectOf(lib: Library, inv: Inventory, d: Detection): Subject {
    if d.objectName != "" && !lib.compiles(d.objectName) then
      Unsettled(d.objectKind, "rule objectName is not a valid regex: " + d.objectName)
    else Gather(lib, inv, d, ObjectKinds(d))
  }

  /** The namespace and name filters. */
  method SelectRows(lib: Library, d: Detection, got: seq<Row>) returns (rows: seq<Row>)
    ensures rows == SelectFrom(lib, d, got)
  {
    rows := [];
    for j := 0 to |got|
      invariant rows == SelectFrom(lib, d, got[..j])
    {
      assert got[..j + 1][..j] == got[..j];
      if d.namespace != "" && got[j].namespace != d.namespace {
        continue;
      }
      if d.objectName != "" && !lib.matches(d.objectName, got[j].name) {
        continue;
      }
      rows := rows + [got[j]];
    }
    assert got[..|got|] == got;
  }

  method SubjectRows(lib: Library, inv: Inventory, d: Detection) returns (s: Subject)
    ensures s == SubjectOf(lib, inv, d)
  {
    hide RowsOf, SelectFrom, ObjectKinds;
    if d.objectName != "" && !lib.compiles(d.objectName) {
      return Unsettled(d.objectKind, "rule objectName is not a valid regex: " + d.objectName);
    }
    var rows: seq<Row>, served := [], false;
    var kinds := ObjectKinds(d);
    for i := 0 to |kinds|
      invariant Gather(lib, inv, d, kinds[..i]) == Gathered(rows, served)
    {
      assert kinds[..i + 1][..i] == kinds[..i];
      match RowsOf(inv, kinds[i]) {
        case RowsNotServed =>
        case RowsUnread(reason) =>
          UnsettledStays(lib, inv, d, kinds, i + 1);
          return Unsettled(kinds[i], reason);
        case RowsNotCollected(reason) =>
          UnsettledStays(lib, inv, d, kinds, i + 1);
          return Unsettled(kinds[i], reason);
        case RowsRead(got) =>
          served := true;
          var more := SelectRows(lib, d, got);
          rows := rows + more;
      }
    }
    assert kinds[..|kinds|] == kinds;
    s := Gathered(rows, served);
  }

  /** Once a kind could not be read, the later kinds do not change the answer. */
  lemma {:induction false} UnsettledStays(lib: Library, inv: Inventory, d: Detection, kinds: seq<string>, n: nat)
    requires n <= |kinds| && Gather(lib, inv, d, kinds[..n]).Unsettled?
    ensures Gather(lib, inv, d, kinds) == Gather(lib, inv, d, kinds[..n])
    decreases |kinds|
  {
    if n < |kinds| {
      assert kinds[..|kinds| - 1][..n] == kinds[..n];
      UnsettledStays(lib, inv, d, kinds[..|kinds| - 1], n);
    } else {
      assert kinds[..n] == kinds;
    }
  }

  // ---------- row predicates ----------

  function Refs(rows: seq<Row>): seq<string> {
    if rows == [] then [] else Refs(rows[..|rows| - 1]) + [rows[|rows| - 1].ref]
  }

  function CapTo(items: seq<string>, n: nat): seq<string> {
    if |items| > n then items[..n] else items
  }

  /** The sorted names of the hits, at most ten. */
  function Named(hits: seq<Row>): seq<string> {
    CapTo(SortTexts(Refs(hits)), MAX_NAMED)
  }

  predicate BadPattern(lib: Library, d: Detection) {
    d.kind == SpecPathMatches && !lib.compiles(d.value)
  }

  function BadPatternText(d: Detection): string {
    "rule value is not a valid regex: " + d.value
  }

  function Hits(lib: Library, d: Detection, rows: seq<Row>): seq<Row> {
    Keep(rows, r => Matches(lib, d, r))
  }

  function FireOn(hits: seq<Row>): Outcome {
    if hits == [] then Clear else Fired(Named(hits), |hits|)
  }

  function RowRule(lib: Library, inv: Inventory, d: Detection): Outcome {
    if BadPattern(lib, d) then DeclinedFor(d.objectKind, BadPatternText(d))
    else match SubjectOf(lib, inv, d)
      case Unsettled(scope, reason) => DeclinedFor(scope, reason)
      case Gathered(rows, applies) =>
        if !applies then Clear
        else if rows == [] && d.objectName != "" && d.kind != KindPresent then
          DeclinedFor(d.objectKind, "no " + d.objectKind + " named /" + d.objectName + "/ was found, and this rule " +
                                    "asks about that object's content; absence is not clean")
        else FireOn(Hits(lib, d, rows))
  }

  /** The group-versions discovery returned, and whether each is served. */
  type Served = map<string, bool>

  predicate AtTarget(gv: string, target: string, byGroup: bool) {
    gv == target || (byGroup && target + "/" <= gv)
  }

  predicate KnownNotServed(served: Served, target: string, byGroup: bool) {
    served != map[] && forall gv | gv in served && served[gv] :: !AtTarget(gv, target, byGroup)
  }

  /** A target without a version stands for every version of its group. */
  predicate ByGroup(d: Detection) {
    '/' !in d.target
  }

  predicate WrittenAt(d: Detection, r: Row) {
    var byGroup := ByGroup(d);
    exists v | v in r.writtenAt :: AtTarget(v, d.target, byGroup)
  }

  function ApiVersionRule(lib: Library, inv: Inventory, served: Served, d: Detection): Outcome {
    if d.objectKind == "" then
      if KnownNotServed(served, d.target, ByGroup(d)) then Clear
      else DeclinedFor(d.target, "objects written at " + d.target + " were not enumerated: the rule names no kind")
    else match SubjectOf(lib, inv, d)
      case Unsettled(scope, reason) => DeclinedFor(scope, reason)
      case Gathered(rows, applies) =>
        if !applies then Clear else FireOn(Keep(rows, r => WrittenAt(d, r)))
  }

  // ---------- gates ----------

  predicate RowScanning(kind: DetectKind) {
    kind in {KindPresent, AnnotationKeyPresent, LabelKeyPresent, SpecFieldPresent, SpecFieldEquals, SpecPathMatches,
             ImageRepositoryPresent}
  }

  function GateText(g: Detection): string {
    KindText(g.kind) + " " + g.objectKind + (if g.target != "" then " " + g.target else "") +
    (if g.value != "" then " " + g.value else "")
  }

  /** The gate reads the one kind the detection reads. */
  predicate SameKind(d: Detection, g: Detection) {
    |ObjectKinds(d)| == 1 && |ObjectKinds(g)| == 1 && ObjectKinds(d)[0] == ObjectKinds(g)[0] && RowScanning(d.kind)
  }

  function Opened(lib: Library, g: Detection, rows: seq<Row>): set<string> {
    set r | r in rows && Matches(lib, g, r) :: r.ref
  }

  function KeepTexts(items: seq<string>, openers: set<string>): seq<string> {
    if items == [] then []
    else KeepTexts(items[..|items| - 1], openers) + if items[|items| - 1] in openers then [items[|items| - 1]] else []
  }

  /** The finding cut down to the objects that opened the gate. When none of the named ones did, it clears,
      unless the names were cut off and the opener may be past the cut. */
  function Narrow(affected: seq<string>, matched: nat, openers: set<string>): Outcome {
    var narrowed := KeepTexts(affected, openers);
    if narrowed != [] then Fired(narrowed, |narrowed|)
    else if |affected| >= MAX_NAMED then Fired(affected, matched)
    else Clear
  }

  function GateOn(lib: Library, inv: Inventory, d: Detection, g: Detection, out: Outcome): Outcome {
    if BadPattern(lib, g) then DeclinedFor(g.objectKind, "gate " + BadPatternText(g))
    else match SubjectOf(lib, inv, g)
      case Unsettled(scope, reason) =>
        Declined(scope, "the precondition (" + GateText(g) + ") could not be checked: " + DeclinedFor(scope,
            reason).reason)
      case Gathered(rows, applies) =>
        var openers := Opened(lib, g, rows);
        if !applies || openers == {} then Clear
        else if !out.Fired? || !SameKind(d, g) then out
        else Narrow(out.affected, out.matched, openers)
  }

  method Gated(lib: Library, inv: Inventory, d: Detection, g: Detection, out: Outcome) returns (r: Outcome)
    ensures r == GateOn(lib, inv, d, g, out)
  {
    hide Matches, ObjectKinds, SubjectOf;
    if BadPattern(lib, g) {
      return DeclinedFor(g.objectKind, "gate " + BadPatternText(g));
    }
    var s := SubjectRows(lib, inv, g);
    if s.Unsettled? {
      var why := DeclinedFor(s.scope, s.reason);
      return Declined(s.scope, "the precondition (" + GateText(g) + ") could not be checked: " + why.reason);
    }
    if !s.applies {
      return Clear;
    }
    var openers: set<string> := {};
    for i := 0 to |s.rows|
      invariant openers == Opened(lib, g, s.rows[..i])
    {
      assert s.rows[..i + 1] == s.rows[..i] + [s.rows[i]];
      if Matches(lib, g, s.rows[i]) {
        openers := openers + {s.rows[i].ref};
      }
    }
    assert s.rows[..|s.rows|] == s.rows;
    if openers == {} {
      return Clear;
    }
    if !out.Fired? || !SameKind(d, g) {
      return out;
    }
    var narrowed: seq<string> := [];
    for i := 0 to |out.affected|
      invariant narrowed == KeepTexts(out.affected[..i], openers)
    {
      assert out.affected[..i + 1][..i] == out.affected[..i];
      if out.affected[i] in openers {
        narrowed := narrowed + [out.affected[i]];
      }
    }
    assert out.affected[..|out.affected|] == out.affected;
    if |narrowed| == 0 {
      if |out.affected| >= MAX_NAMED {
        return out;
      }
      return Clear;
    }
    return Fired(narrowed, |narrowed|);
  }

  // ---------- what settling promises ----------

  predicate Unreadable(inv: Inventory, kind: string) {
    RowsOf(inv, kind).RowsUnread? || RowsOf(inv, kind).RowsNotCollected?
  }

  ghost predicate ReadsUnreadable(inv: Inventory, d: Detection) {
    exists k | k in ObjectKinds(d) :: Unreadable(inv, k)
  }

  lemma {:induction false} GatherStops(lib: Library, inv: Inventory, d: Detection, kinds: seq<string>)
    ensures Gather(lib, inv, d, kinds).Unsettled? <==> exists k | k in kinds :: Unreadable(inv, k)
  {
    hide RowsOf;
    if kinds != [] {
      var front, last := kinds[..|kinds| - 1], kinds[|kinds| - 1];
      GatherStops(lib, inv, d, front);
      assert kinds == front + [last];
      assert forall k :: k in kinds <==> k in front || k == last;
      assert Unreadable(inv, last) || !Unreadable(inv, last);
    }
  }

  /** A rule that reads a kind nobody could read is declined, whatever else it reads. */
  lemma UnreadKindDeclines(lib: Library, inv: Inventory, served: Served, d: Detection)
    requires ReadsUnreadable(inv, d)
    ensures RowRule(lib, inv, d).Declined?
    ensures d.objectKind != "" ==> ApiVersionRule(lib, inv, served, d).Declined?
  {
    hide RowsOf, Matches, ObjectKinds;
    GatherStops(lib, inv, d, ObjectKinds(d));
  }

  lemma UnreadGateDeclines(lib: Library, inv: Inventory, d: Detection, g: Detection, out: Outcome)
    requires ReadsUnreadable(inv, g)
    ensures GateOn(lib, inv, d, g, out).Declined?
  {
    hide RowsOf, Matches, ObjectKinds, Narrow;
    GatherStops(lib, inv, g, ObjectKinds(g));
  }

  lemma {:induction false} KeepIs(rows: seq<Row>, keep: Row -> bool, r: Row)
    ensures r in Keep(rows, keep) <==> r in rows && keep(r)
  {
    if rows != [] {
      KeepIs(rows[..|rows| - 1], keep, r);
      assert rows == rows[..|rows| - 1] + [rows[|rows| - 1]];
    }
  }

  lemma {:induction false} RefsAre(rows: seq<Row>, ref: string)
    ensures ref in Refs(rows) <==> exists r | r in rows :: r.ref == ref
  {
    if rows != [] {
      RefsAre(rows[..|rows| - 1], ref);
      assert rows == rows[..|rows| - 1] + [rows[|rows| - 1]];
    }
  }

  lemma {:induction false} RefsCount(rows: seq<Row>)
    ensures |Refs(rows)| == |rows|
  {
    if rows != [] {
      RefsCount(rows[..|rows| - 1]);
    }
  }

  lemma {:induction false} KeepTextsAre(items: seq<string>, openers: set<string>, x: string)
    ensures x in KeepTexts(items, openers) <==> x in items && x in openers
  {
    if items != [] {
      KeepTextsAre(items[..|items| - 1], openers, x);
      assert items == items[..|items| - 1] + [items[|items| - 1]];
    }
  }

  /** Every name given is a hit's; and with fewer than ten names, every hit is named. */
  lemma NamedAreHits(hits: seq<Row>, ref: string)
    ensures ref in Named(hits) ==> exists r | r in hits :: r.ref == ref
    ensures |Named(hits)| < MAX_NAMED ==> (ref in Named(hits) <==> exists r | r in hits :: r.ref == ref)
    ensures |Named(hits)| == if |hits| < MAX_NAMED then |hits| else MAX_NAMED
  {
    hide SortTexts;
    var all := SortTexts(Refs(hits));
    SortTextsForgetsOrder(Refs(hits), Refs(hits));
    RefsAre(hits, ref);
    RefsCount(hits);
    assert |all| == |multiset(all)| == |multiset(Refs(hits))| == |hits|;
    assert ref in all <==> ref in multiset(all);
    assert ref in Refs(hits) <==> ref in multiset(Refs(hits));
  }

  /** The rows a predicate is asked about, once its kinds were all read. */
  function Asked(lib: Library, inv: Inventory, d: Detection): seq<Row> {
    match SubjectOf(lib, inv, d)
    case Unsettled(_, _) => []
    case Gathered(rows, _) => rows
  }

  ghost predicate Satisfies(lib: Library, inv: Inventory, d: Detection, ref: string) {
    exists r | r in Asked(lib, inv, d) :: r.ref == ref && Matches(lib, d, r)
  }

  /** A row rule fires exactly on the objects that satisfy it. */
  lemma RowRuleFiresOnHits(lib: Library, inv: Inventory, d: Detection)
    requires !RowRule(lib, inv, d).Declined?
    ensures RowRule(lib, inv, d) == FireOn(Hits(lib, d, Asked(lib, inv, d)))
    ensures RowRule(lib, inv, d).Fired? <==> exists ref :: Satisfies(lib, inv, d, ref)
  {
    hide Matches, ObjectKinds, Named, RowsOf;
    var rows := Asked(lib, inv, d);
    if SubjectOf(lib, inv, d).Gathered? && !SubjectOf(lib, inv, d).applies {
      NothingServed(lib, inv, d, ObjectKinds(d));
    }
    forall r
      ensures r in Hits(lib, d, rows) <==> r in rows && Matches(lib, d, r)
    {
      KeepIs(rows, r => Matches(lib, d, r), r);
    }
    if Hits(lib, d, rows) != [] {
      assert Hits(lib, d, rows)[0] in Hits(lib, d, rows);
      assert Satisfies(lib, inv, d, Hits(lib, d, rows)[0].ref);
    }
    if ref :| Satisfies(lib, inv, d, ref) {
      var r :| r in rows && r.ref == ref && Matches(lib, d, r);
      assert r in Hits(lib, d, rows);
    }
  }

  /** The name filter is no pattern, or some kind could not be read. */
  ghost predicate CannotAsk(lib: Library, inv: Inventory, d: Detection) {
    (d.objectName != "" && !lib.compiles(d.objectName)) || ReadsUnreadable(inv, d)
  }

  lemma AskedUnless(lib: Library, inv: Inventory, d: Detection)
    ensures SubjectOf(lib, inv, d).Unsettled? <==> CannotAsk(lib, inv, d)
    ensures SubjectOf(lib, inv, d).Gathered? && !SubjectOf(lib, inv, d).applies ==> Asked(lib, inv, d) == []
  {
    hide RowsOf, ObjectKinds;
    GatherStops(lib, inv, d, ObjectKinds(d));
    if SubjectOf(lib, inv, d).Gathered? && !SubjectOf(lib, inv, d).applies {
      NothingServed(lib, inv, d, ObjectKinds(d));
    }
  }

  ghost predicate Writes(lib: Library, inv: Inventory, d: Detection, ref: string) {
    exists r | r in Asked(lib, inv, d) :: r.ref == ref && WrittenAt(d, r)
  }

  /** A rule on an apiVersion in use settles when its objects could be asked, or, naming no kind, when discovery
      shows nothing served there; it fires exactly when some object asked is still written at that version, and
      names only such. */
  lemma ApiVersionRuleMeans(lib: Library, inv: Inventory, served: Served, d: Detection)
    ensures var out := ApiVersionRule(lib, inv, served, d);
            && (out.Declined? <==> if d.objectKind == "" then !KnownNotServed(served, d.target, ByGroup(d))
                                   else CannotAsk(lib, inv, d))
            && (out.Fired? <==> d.objectKind != "" && !CannotAsk(lib, inv, d) &&
                                exists ref :: Writes(lib, inv, d, ref))
            && (out.Fired? ==> forall ref | ref in out.affected :: Writes(lib, inv, d, ref))
  {
    hide ObjectKinds, Named, RowsOf, SubjectOf, WrittenAt, KnownNotServed, CannotAsk;
    AskedUnless(lib, inv, d);
    var rows := Asked(lib, inv, d);
    var hits := Keep(rows, r => WrittenAt(d, r));
    forall r
      ensures r in hits <==> r in rows && WrittenAt(d, r)
    {
      KeepIs(rows, r => WrittenAt(d, r), r);
    }
    forall ref
      ensures ref in Named(hits) ==> Writes(lib, inv, d, ref)
    {
      NamedAreHits(hits, ref);
    }
    if hits != [] {
      assert hits[0] in hits;
      assert Writes(lib, inv, d, hits[0].ref);
    }
    if ref :| Writes(lib, inv, d, ref) {
      var r :| r in rows && r.ref == ref && WrittenAt(d, r);
      assert r in hits;
    }
  }

  /** No object so named was found, and the rule asks about its content. */
  ghost predicate SubjectMissing(lib: Library, inv: Inventory, d: Detection) {
    && SubjectOf(lib, inv, d).Gathered? && SubjectOf(lib, inv, d).applies && Asked(lib, inv, d) == []
    && d.objectName != "" && d.kind != KindPresent
  }

  lemma RowRuleDeclinesIff(lib: Library, inv: Inventory, d: Detection)
    ensures RowRule(lib, inv, d).Declined? <==>
            (d.kind == SpecPathMatches && !lib.compiles(d.value)) || CannotAsk(lib, inv, d) ||
            SubjectMissing(lib, inv, d)
  {
    hide ObjectKinds, Named, RowsOf, SubjectOf, CannotAsk, Matches, TrimSpace;
    AskedUnless(lib, inv, d);
  }

  lemma GateDeclinesIff(lib: Library, inv: Inventory, d: Detection, g: Detection, out: Outcome)
    requires !out.Declined?
    ensures GateOn(lib, inv, d, g, out).Declined? <==>
            (g.kind == SpecPathMatches && !lib.compiles(g.value)) || CannotAsk(lib, inv, g)
  {
    hide ObjectKinds, RowsOf, SubjectOf, CannotAsk, Matches, TrimSpace, Opened, SameKind, KeepTexts,
        GateText;
    AskedUnless(lib, inv, g);
  }

  lemma OpenedAre(lib: Library, inv: Inventory, g: Detection)
    ensures Opened(lib, g, Asked(lib, inv, g)) == {} <==> forall ref :: !Satisfies(lib, inv, g, ref)
  {
    hide Matches, Asked;
    var openers := Opened(lib, g, Asked(lib, inv, g));
    forall ref
      ensures ref in openers <==> Satisfies(lib, inv, g, ref)
    {
    }
  }

  /** A settled gate clears a rule exactly when nothing opens it, or the rule had cleared; or when it reads the
      same kind, no name satisfies both and fewer than ten were named. */
  lemma GateClearsIff(lib: Library, inv: Inventory, d: Detection, g: Detection, out: Outcome)
    requires !out.Declined? && !GateOn(lib, inv, d, g, out).Declined?
    requires SameKind(d, g) ==> out == RowRule(lib, inv, d)
    ensures GateOn(lib, inv, d, g, out) == Clear <==>
            || (forall ref :: !Satisfies(lib, inv, g, ref))
            || out == Clear
            || (SameKind(d, g) && |out.affected| < MAX_NAMED &&
                forall ref :: !(Satisfies(lib, inv, d, ref) && Satisfies(lib, inv, g, ref)))
  {
    hide Matches, ObjectKinds, RowsOf, SubjectOf, SameKind, Narrow, BadPattern, RowRule, Satisfies, Asked, Opened,
        TrimSpace;
    AskedUnless(lib, inv, g);
    OpenedAre(lib, inv, g);
    if out.Fired? && SameKind(d, g) {
      SameKindGateIsSound(lib, inv, d, g);
    }
    GateOnAsked(lib, inv, d, g, out);
  }

  lemma GateOnAsked(lib: Library, inv: Inventory, d: Detection, g: Detection, out: Outcome)
    requires !GateOn(lib, inv, d, g, out).Declined? && !out.Declined?
    ensures GateOn(lib, inv, d, g, out) ==
            if Opened(lib, g, Asked(lib, inv, g)) == {} then Clear
            else if !out.Fired? || !SameKind(d, g) then out
            else Narrow(out.affected, out.matched, Opened(lib, g, Asked(lib, inv, g)))
  {
    hide Matches, ObjectKinds, RowsOf, SubjectOf, SameKind, Narrow, BadPattern, TrimSpace;
    AskedUnless(lib, inv, g);
  }

  /** When a gate reads the one kind a row rule reads, and fewer than ten objects were named, what is left of a
      finding is exactly the names that satisfy both. */
  lemma GateNarrowsOneKind(lib: Library, inv: Inventory, d: Detection, g: Detection, kind: string)
    requires ObjectKinds(d) == [kind] && ObjectKinds(g) == [kind]
    requires d.kind in {KindPresent, AnnotationKeyPresent, LabelKeyPresent, SpecFieldPresent, SpecFieldEquals,
                        SpecPathMatches, ImageRepositoryPresent}
    requires RowRule(lib, inv, d).Fired? && |RowRule(lib, inv, d).affected| < 10
    requires GateOn(lib, inv, d, g, RowRule(lib, inv, d)).Fired?
    ensures var after := GateOn(lib, inv, d, g, RowRule(lib, inv, d));
            && (forall ref :: ref in after.affected <==> Satisfies(lib, inv, d, ref) && Satisfies(lib, inv, g, ref))
            && after.matched == |after.affected|
  {
    hide Matches, ObjectKinds, Named, RowsOf, SubjectOf, KeepTexts, BadPattern;
    var out := RowRule(lib, inv, d);
    assert SameKind(d, g);
    RowRuleFiresOnHits(lib, inv, d);
    GateOnAsked(lib, inv, d, g, out);
    var openers := Opened(lib, g, Asked(lib, inv, g));
    forall ref
      ensures ref in openers <==> Satisfies(lib, inv, g, ref)
      ensures ref in out.affected <==> Satisfies(lib, inv, d, ref)
      ensures ref in KeepTexts(out.affected, openers) <==> ref in out.affected && ref in openers
    {
      NamedAreHits(Hits(lib, d, Asked(lib, inv, d)), ref);
      HitsSatisfy(lib, inv, d, ref);
      KeepTextsAre(out.affected, openers, ref);
    }
  }

  /** A gate on other kinds, on several, or on a rule that reads no rows, narrows nothing: once something opens
      it the outcome stands. */
  lemma OtherGatesNarrowNothing(lib: Library, inv: Inventory, d: Detection, g: Detection, out: Outcome)
    requires |ObjectKinds(d)| != 1 || |ObjectKinds(g)| != 1 || ObjectKinds(d) != ObjectKinds(g) ||
             d.kind !in {KindPresent, AnnotationKeyPresent, LabelKeyPresent, SpecFieldPresent, SpecFieldEquals,
                         SpecPathMatches, ImageRepositoryPresent}
    requires !out.Declined? && !GateOn(lib, inv, d, g, out).Declined?
    requires exists ref :: Satisfies(lib, inv, g, ref)
    ensures GateOn(lib, inv, d, g, out) == out
  {
    hide Matches, ObjectKinds, RowsOf, SubjectOf, Narrow, BadPattern, TrimSpace, GateOn, Satisfies, Opened, Asked;
    assert |ObjectKinds(d)| == 1 && |ObjectKinds(g)| == 1 && ObjectKinds(d)[0] == ObjectKinds(g)[0] ==>
        ObjectKinds(d) == ObjectKinds(g);
    GateOnAsked(lib, inv, d, g, out);
    OpenedAre(lib, inv, g);
  }

  /** The objects a predicate is asked about: those read of each of its kinds, in its namespace if it names one,
      and of a name its pattern matches if it has one. */
  lemma AskedAre(lib: Library, inv: Inventory, d: Detection, r: Row)
    requires SubjectOf(lib, inv, d).Gathered?
    ensures r in Asked(lib, inv, d) <==>
            && (exists kind | kind in ObjectKinds(d) :: RowsOf(inv, kind).RowsRead? && r in RowsOf(inv, kind).rows)
            && (d.namespace != "" ==> r.namespace == d.namespace)
            && (d.objectName != "" ==> lib.matches(d.objectName, r.name))
  {
    hide RowsOf, ObjectKinds, Selected;
    GatherHolds(lib, inv, d, ObjectKinds(d), r);
    SelectedMeans(lib, d, r);
  }

  lemma SelectedMeans(lib: Library, d: Detection, r: Row)
    ensures Selected(lib, d, r) <==> (d.namespace != "" ==> r.namespace == d.namespace) &&
                                     (d.objectName != "" ==> lib.matches(d.objectName, r.name))
  {
  }

  lemma {:induction false} GatherHolds(lib: Library, inv: Inventory, d: Detection, kinds: seq<string>, r: Row)
    requires Gather(lib, inv, d, kinds).Gathered?
    ensures r in Gather(lib, inv, d, kinds).rows <==>
            Selected(lib, d, r) &&
            exists kind | kind in kinds :: RowsOf(inv, kind).RowsRead? && r in RowsOf(inv, kind).rows
  {
    hide RowsOf, Selected;
    if kinds != [] {
      var front, last := kinds[..|kinds| - 1], kinds[|kinds| - 1];
      GatherHolds(lib, inv, d, front, r);
      assert kinds == front + [last];
      assert forall kind :: kind in kinds <==> kind in front || kind == last;
      if RowsOf(inv, last).RowsRead? {
        KeepIs(RowsOf(inv, last).rows, r => Selected(lib, d, r), r);
      }
    }
  }

  /** Nodes, CRDs and storage classes have collectors of their own, and are read exactly when those were. */
  lemma TypedKindsRead(inv: Inventory)
    ensures Unreadable(inv, "Node") <==> !inv.Read("nodes")
    ensures Unreadable(inv, "CustomResourceDefinition") <==> !inv.Read("custom resource definitions")
    ensures "StorageClass" !in inv.crs ==> (Unreadable(inv, "StorageClass") <==> !inv.Read("storage"))
    ensures inv.Read("nodes") ==> RowsOf(inv, "Node").RowsRead? && |RowsOf(inv, "Node").rows| == |inv.nodes| &&
                                  forall i | 0 <= i < |inv.nodes| :: RowsOf(inv, "Node").rows[i] == inv.nodes[i].row
    ensures inv.Read("custom resource definitions") ==>
              var rows := RowsOf(inv, "CustomResourceDefinition");
              rows.RowsRead? && |rows.rows| == |inv.crds| &&
              forall i | 0 <= i < |inv.crds| :: rows.rows[i] == inv.crds[i].row
    ensures inv.Read("storage") && "StorageClass" !in inv.crs ==>
              RowsOf(inv, "StorageClass") == RowsRead(inv.storageClasses)
  {
  }

  /** The names given are the first ten in order. */
  lemma NamedAreFirstTen(hits: seq<Row>)
    ensures exists all: seq<string> ::
              && Sorted(all, TextLeq) && multiset(all) == multiset(Refs(hits))
              && Named(hits) == if |all| <= 10 then all else all[..10]
  {
    hide SortTexts, TextLeq;
    SortTextsForgetsOrder(Refs(hits), Refs(hits));
    assert Sorted(SortTexts(Refs(hits)), TextLeq);
  }

  /** A target with a version is written by that version alone, a bare group by any of its versions, and by the
      group's own name. */
  lemma WrittenMeans(d: Detection, r: Row)
    ensures WrittenAt(d, r) <==>
            || d.target in r.writtenAt
            || ('/' !in d.target && exists version: string :: d.target + "/" + version in r.writtenAt)
  {
    if WrittenAt(d, r) && d.target !in r.writtenAt {
      var v :| v in r.writtenAt && AtTarget(v, d.target, ByGroup(d));
      assert v == d.target + "/" + v[|d.target| + 1..];
    }
  }

  /** Discovery shows nothing served there when it answered, and every group-version it names as served is another. */
  lemma NotServedMeans(served: Served, d: Detection)
    ensures KnownNotServed(served, d.target, ByGroup(d)) <==>
            && served != map[]
            && (d.target in served ==> !served[d.target])
            && ('/' !in d.target ==> forall version: string | d.target + "/" + version in served ::
                  !served[d.target + "/" + version])
  {
    if !KnownNotServed(served, d.target, ByGroup(d)) && served != map[] {
      var gv :| gv in served && served[gv] && AtTarget(gv, d.target, ByGroup(d));
      if gv != d.target {
        assert gv == d.target + "/" + gv[|d.target| + 1..];
      }
    }
  }

  lemma {:induction false} NothingServed(lib: Library, inv: Inventory, d: Detection, kinds: seq<string>)
    requires Gather(lib, inv, d, kinds).Gathered? && !Gather(lib, inv, d, kinds).applies
    ensures Gather(lib, inv, d, kinds).rows == []
  {
    hide RowsOf;
    if kinds != [] {
      NothingServed(lib, inv, d, kinds[..|kinds| - 1]);
    }
  }

  /** Where a gate reads the detection's own kind, a narrowed finding names only objects that satisfy both,
      and the rule clears exactly when no object opens the gate at all, or none does both and the names were
      not cut off at ten. */
  lemma SameKindGateIsSound(lib: Library, inv: Inventory, d: Detection, g: Detection)
    requires SameKind(d, g) && RowRule(lib, inv, d).Fired? && !GateOn(lib, inv, d, g, RowRule(lib, inv, d)).Declined?
    ensures var out := RowRule(lib, inv, d);
            var after := GateOn(lib, inv, d, g, out);
            && (after == Clear <==>
                  || (forall ref :: !Satisfies(lib, inv, g, ref))
                  || (|out.affected| < MAX_NAMED &&
                      forall ref :: !(Satisfies(lib, inv, d, ref) && Satisfies(lib, inv, g, ref))))
            && (after.Fired? && after != out ==>
                  forall ref | ref in after.affected :: Satisfies(lib, inv, d, ref) && Satisfies(lib, inv, g, ref))
            && (after.Fired? ==> after.affected != [] && forall ref | ref in after.affected :: ref in out.affected)
  {
    hide Matches, ObjectKinds, Named, RowsOf, SubjectOf, KeepTexts, BadPattern;
    var out := RowRule(lib, inv, d);
    var hits := Hits(lib, d, Asked(lib, inv, d));
    RowRuleFiresOnHits(lib, inv, d);
    var openers := Opened(lib, g, Asked(lib, inv, g));
    forall ref
      ensures ref in openers <==> Satisfies(lib, inv, g, ref)
      ensures ref in out.affected ==> Satisfies(lib, inv, d, ref)
      ensures |out.affected| < MAX_NAMED && Satisfies(lib, inv, d, ref) ==> ref in out.affected
      ensures ref in KeepTexts(out.affected, openers) <==> ref in out.affected && ref in openers
    {
      NamedAreHits(hits, ref);
      HitsSatisfy(lib, inv, d, ref);
      KeepTextsAre(out.affected, openers, ref);
    }
    NamedAreHits(hits, "");
    var narrowed := KeepTexts(out.affected, openers);
    GateCases(lib, inv, d, g, out);
    if narrowed != [] {
      assert narrowed[0] in narrowed;
    }
  }

  /** The objects read of the one kind a predicate names. */
  function OneKind(inv: Inventory, d: Detection): seq<Row> {
    if |ObjectKinds(d)| == 1 && RowsOf(inv, ObjectKinds(d)[0]).RowsRead? then RowsOf(inv, ObjectKinds(d)[0]).rows
    else []
  }

  ghost predicate RefsUnique(rows: seq<Row>) {
    forall r, r' | r in rows && r' in rows && r.ref == r'.ref :: r == r'
  }

  ghost predicate SatisfiesBoth(lib: Library, inv: Inventory, d: Detection, g: Detection, r: Row) {
    r in Asked(lib, inv, d) && Matches(lib, d, r) && r in Asked(lib, inv, g) && Matches(lib, g, r)
  }

  lemma AskedOfOneKind(lib: Library, inv: Inventory, d: Detection, r: Row)
    requires |ObjectKinds(d)| == 1 && r in Asked(lib, inv, d)
    ensures r in OneKind(inv, d)
  {
    hide RowsOf, ObjectKinds, Selected;
    var kinds := ObjectKinds(d);
    assert kinds[..|kinds| - 1] == [];
    assert Gather(lib, inv, d, []) == Gathered([], false);
    assert SubjectOf(lib, inv, d) == Gather(lib, inv, d, kinds);
    if RowsOf(inv, kinds[0]).RowsRead? {
      var rows := RowsOf(inv, kinds[0]).rows;
      assert [] + SelectFrom(lib, d, rows) == SelectFrom(lib, d, rows);
      KeepIs(rows, r => Selected(lib, d, r), r);
    }
  }

  /** Object by object, when no two objects of the kind share a name: each name in a narrowed finding is that
      of one object satisfying both, and the rule clears only when there is no such object. */
  lemma SameKindGateNamesObjects(lib: Library, inv: Inventory, d: Detection, g: Detection)
    requires SameKind(d, g) && RowRule(lib, inv, d).Fired? && !GateOn(lib, inv, d, g, RowRule(lib, inv, d)).Declined?
    requires RefsUnique(OneKind(inv, d))
    ensures var out := RowRule(lib, inv, d);
            var after := GateOn(lib, inv, d, g, out);
            && (after == Clear ==> forall r :: !SatisfiesBoth(lib, inv, d, g, r))
            && (after.Fired? && after != out ==>
                  forall ref | ref in after.affected ::
                    exists r: Row :: r.ref == ref && SatisfiesBoth(lib, inv, d, g, r))
  {
    hide Matches, ObjectKinds, RowsOf, Asked, GateOn, RowRule;
    SameKindGateIsSound(lib, inv, d, g);
    var out := RowRule(lib, inv, d);
    var after := GateOn(lib, inv, d, g, out);
    if after == Clear {
      forall r
        ensures !SatisfiesBoth(lib, inv, d, g, r)
      {
        assert !(Satisfies(lib, inv, d, r.ref) && Satisfies(lib, inv, g, r.ref));
      }
    } else if after.Fired? && after != out {
      forall ref | ref in after.affected
        ensures exists r: Row :: r.ref == ref && SatisfiesBoth(lib, inv, d, g, r)
      {
        assert Satisfies(lib, inv, d, ref) && Satisfies(lib, inv, g, ref);
        var r :| r in Asked(lib, inv, d) && r.ref == ref && Matches(lib, d, r);
        var r' :| r' in Asked(lib, inv, g) && r'.ref == ref && Matches(lib, g, r');
        AskedOfOneKind(lib, inv, d, r);
        AskedOfOneKind(lib, inv, g, r');
        assert r == r';
      }
    }
  }

  lemma HitsSatisfy(lib: Library, inv: Inventory, d: Detection, ref: string)
    ensures (exists r | r in Hits(lib, d, Asked(lib, inv, d)) :: r.ref == ref) <==> Satisfies(lib, inv, d, ref)
  {
    hide Matches, SubjectOf, Asked;
    var rows := Asked(lib, inv, d);
    forall r
      ensures r in Hits(lib, d, rows) <==> r in rows && Matches(lib, d, r)
    {
      KeepIs(rows, r => Matches(lib, d, r), r);
    }
  }

  lemma GateCases(lib: Library, inv: Inventory, d: Detection, g: Detection, out: Outcome)
    requires out.Fired? && SameKind(d, g) && !GateOn(lib, inv, d, g, out).Declined?
    ensures var openers := Opened(lib, g, Asked(lib, inv, g));
            GateOn(lib, inv, d, g, out) == if openers == {} then Clear else Narrow(out.affected, out.matched, openers)
  {
    hide Matches, ObjectKinds, RowsOf, KeepTexts, SameKind;
    if SubjectOf(lib, inv, g).Gathered? && !SubjectOf(lib, inv, g).applies {
      NothingServed(lib, inv, g, ObjectKinds(g));
    }
  }
}
