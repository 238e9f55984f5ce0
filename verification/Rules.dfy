/** Release-note rules and the predicate that decides one object. */
module Rules {
  import opened Text
  import opened PathWalk
  import opened Inventory
  import opened Report

  datatype DetectKind =
    | NotDetectable
    | ApiVersionInUse
    | KindPresent
    | AnnotationKeyPresent
    | LabelKeyPresent
    | SpecFieldPresent
    | SpecFieldEquals
    | SpecPathMatches
    | CrdServedVersion
    | ImageRepositoryPresent
    | VersionSkewExceeds
    | Unknown(name: string)

  function KindText(kind: DetectKind): string {
    match kind
    case NotDetectable => "NOT_DETECTABLE"
    case ApiVersionInUse => "API_VERSION_IN_USE"
    case KindPresent => "KIND_PRESENT"
    case AnnotationKeyPresent => "ANNOTATION_KEY_PRESENT"
    case LabelKeyPresent => "LABEL_KEY_PRESENT"
    case SpecFieldPresent => "SPEC_FIELD_PRESENT"
    case SpecFieldEquals => "SPEC_FIELD_EQUALS"
    case SpecPathMatches => "SPEC_PATH_MATCHES"
    case CrdServedVersion => "CRD_SERVED_VERSION"
    case ImageRepositoryPresent => "IMAGE_REPOSITORY_PRESENT"
    case VersionSkewExceeds => "VERSION_SKEW_EXCEEDS"
    case Unknown(name) => name
  }

  /** A detection, and the shape a scope hint and a gate take too. */
  datatype Detection = Detection(kind: DetectKind, objectKind: string, namespace: string, objectName: string,
                                 target: string, value: string)

  datatype GeneratedRule = GeneratedRule(ruleId: string, sourceId: string, appliesAt: string,
                                         introducedIn: Option<seq<string>>, severity: Severity, quote: string,
                                         detection: Detection, scope: Option<Detection>, gate: Option<Detection>,
                                         enabled: Option<bool>)
  {
    predicate IsEnabled() {
      enabled.None? || enabled.value
    }

    /** The rule id without its source and version. */
    function Slug(): string {
      var full := "rtz-" + sourceId + "-" + appliesAt + "-";
      if full <= ruleId then ruleId[|full|..]
      else
        var rest := TrimPrefix(ruleId, "rtz-" + sourceId + "-");
        var head := CutAtAny(rest, "-");
        if 0 < |head| < |rest| && '.' in head then rest[|head| + 1..] else rest
    }
  }

  /** What the rules leave to libraries: regular expressions and the comparison of a field with a value. */
  datatype Library = Library(compiles: string -> bool, matches: (string, string) -> bool,
                             valueEquals: (Json, string) -> bool)

  function NonBlank(parts: seq<string>): seq<string> {
    if parts == [] then []
    else (if TrimSpace(parts[0]) == "" then [] else [TrimSpace(parts[0])]) + NonBlank(parts[1..])
  }

  /** "Deployment|DaemonSet" names both. */
  function ObjectKinds(d: Detection): seq<string> {
    NonBlank(Split(d.objectKind, '|'))
  }

  lemma {:induction false} NoBlankKinds(parts: seq<string>)
    ensures forall k | k in NonBlank(parts) :: k != ""
  {
    if parts != [] {
      NoBlankKinds(parts[1..]);
    }
  }

  // ---------- one object ----------

  function AfterLast(s: string, sep: char): string {
    var parts := Split(s, sep);
    parts[|parts| - 1]
  }

  /** A target ending in "/" or "*" names a family of keys, one with a "/" exactly one key, and a bare
      name a key by its whole text or by the part after the last slash. */
  predicate NamesKey(key: string, target: string) {
    if target == "" then false
    else if HasSuffix(target, "/") then target <= key
    else if HasSuffix(target, "*") then TrimSuffix(target, "*") <= key
    else key == target || ('/' !in target && AfterLast(key, '/') == target)
  }

  predicate Contains(s: string, part: string) {
    part <= s || (s != "" && Contains(s[1..], part))
  }

  function ImageOf(container: Json): string {
    if container.Object? && "image" in container.fields && container.fields["image"].Str?
    then container.fields["image"].text else ""
  }

  function ImagesIn(items: seq<Json>): seq<string> {
    if items == [] then []
    else (if ImageOf(items[0]) == "" then [] else [ImageOf(items[0])]) + ImagesIn(items[1..])
  }

  function ImagesAt(spec: map<string, Json>, key: string): seq<string> {
    if key in spec && spec[key].List? then ImagesIn(spec[key].items) else []
  }

  function Images(spec: map<string, Json>): seq<string> {
    ImagesAt(spec, "containers") + ImagesAt(spec, "initContainers")
  }

  predicate FieldHolds(lib: Library, d: Detection, section: map<string, Json>) {
    && d.target in section
    && section[d.target] != Null
    && (d.kind == SpecFieldPresent || lib.valueEquals(section[d.target], d.value))
  }

  predicate PathHolds(lib: Library, d: Detection, section: map<string, Json>) {
    exists leaf | leaf in LeavesAt(Object(section), Split(d.target, '.')) :: lib.matches(d.value, leaf)
  }

  /** The one predicate behind detections, hints and gates. */
  predicate Matches(lib: Library, d: Detection, r: Row) {
    match d.kind
    case KindPresent => true
    case LabelKeyPresent => exists k | k in r.labelKeys :: NamesKey(k, d.target)
    case AnnotationKeyPresent => exists k | k in r.annotationKeys :: NamesKey(k, d.target)
    case SpecFieldPresent => FieldHolds(lib, d, r.spec) || FieldHolds(lib, d, r.status)
    case SpecFieldEquals => FieldHolds(lib, d, r.spec) || FieldHolds(lib, d, r.status)
    case SpecPathMatches => PathHolds(lib, d, r.spec) || PathHolds(lib, d, r.status)
    case ImageRepositoryPresent => exists image | image in Images(r.spec) :: Contains(image, d.target)
    case _ => false
  }

  // ---------- what each kind of predicate asks ----------

  lemma {:induction false} LastAfter(p: string, sep: char, s: string)
    requires sep !in s
    ensures AfterLast(p + [sep] + s, sep) == s && AfterLast(s, sep) == s
  {
    SplitOne(s, sep);
    var text := p + [sep] + s;
    if p == "" {
      assert text[1..] == s;
    } else {
      assert text[1..] == p[1..] + [sep] + s;
      LastAfter(p[1..], sep, s);
      assert text[1..][|p[1..]|] == sep;
      OnePartHasNone(text[1..], sep);
    }
  }

  lemma {:induction false} OnePartHasNone(s: string, sep: char)
    ensures |Split(s, sep)| == 1 ==> sep !in s
  {
    if s != "" {
      OnePartHasNone(s[1..], sep);
    }
  }

  /** What comes after the last separator is the whole text, or has the separator before it. */
  lemma {:induction false} AfterLastEnds(s: string, sep: char)
    ensures s == AfterLast(s, sep) || exists p: string :: s == p + [sep] + AfterLast(s, sep)
  {
    hide Split;
    if |Split(s, sep)| == 1 {
      OnePart(s, sep);
    } else {
      var p := BeforeLast(s, sep);
    }
  }

  lemma {:induction false} BeforeLast(s: string, sep: char) returns (p: string)
    requires |Split(s, sep)| > 1
    ensures s == p + [sep] + AfterLast(s, sep)
  {
    var tail := s[1..];
    assert s == [s[0]] + tail;
    if |Split(tail, sep)| == 1 {
      OnePart(tail, sep);
      p := "";
      assert s[0] == sep;
    } else {
      var q := BeforeLast(tail, sep);
      p := [s[0]] + q;
      assert AfterLast(s, sep) == AfterLast(tail, sep);
    }
  }

  lemma {:induction false} OnePart(s: string, sep: char)
    requires |Split(s, sep)| == 1
    ensures Split(s, sep) == [s]
  {
    OnePartHasNone(s, sep);
    SplitOne(s, sep);
  }

  /** The four ways a target names keys: a family by its prefix, a family by part of a name, one key in full,
      and a short name with or without what comes before its last slash. */
  lemma KeysNamed(key: string, target: string)
    ensures !NamesKey(key, "")
    ensures NamesKey(key, target + "/") <==> target + "/" <= key
    ensures NamesKey(key, target + "*") <==> target <= key
    ensures target != "" && !HasSuffix(target, "/") && !HasSuffix(target, "*") ==>
              (NamesKey(key, target) <==>
                 key == target || ('/' !in target && exists p: string :: key == p + "/" + target))
    ensures target != "" ==> NamesKey(target, target)
  {
    hide Split;
    assert (target + "/")[|target|..] == "/" && (target + "*")[|target|..] == "*";
    assert TrimSuffix(target + "*", "*") == target;
    if '/' !in target {
      AfterLastEnds(key, '/');
      if p: string :| key == p + "/" + target {
        LastAfter(p, '/', target);
      }
    }
  }

  /** Labels decide a label rule and nothing else does; annotations likewise. A key that is the target counts. */
  lemma KeysDecide(lib: Library, d: Detection, r: Row)
    requires d.kind in {LabelKeyPresent, AnnotationKeyPresent}
    ensures d.kind == LabelKeyPresent ==> (Matches(lib, d, r) <==> exists k | k in r.labelKeys :: NamesKey(k, d.target))
    ensures d.kind == AnnotationKeyPresent ==>
              (Matches(lib, d, r) <==> exists k | k in r.annotationKeys :: NamesKey(k, d.target))
    ensures d.kind == LabelKeyPresent && d.target != "" && d.target in r.labelKeys ==> Matches(lib, d, r)
    ensures d.kind == AnnotationKeyPresent && d.target != "" && d.target in r.annotationKeys ==> Matches(lib, d, r)
  {
    hide NamesKey;
    KeysNamed(d.target, d.target);
  }

  predicate HoldsField(lib: Library, d: Detection, section: map<string, Json>) {
    d.target in section && section[d.target] != Null &&
    (d.kind == SpecFieldEquals ==> lib.valueEquals(section[d.target], d.value))
  }

  /** A field counts in spec or in status, a null one in neither; and everything of a kind counts as present. */
  lemma FieldsDecide(lib: Library, d: Detection, r: Row)
    ensures d.kind in {SpecFieldPresent, SpecFieldEquals} ==>
              (Matches(lib, d, r) <==> HoldsField(lib, d, r.spec) || HoldsField(lib, d, r.status))
    ensures d.kind == KindPresent ==> Matches(lib, d, r)
    ensures Matches(lib, d, r) ==>
              d.kind in {KindPresent, LabelKeyPresent, AnnotationKeyPresent, SpecFieldPresent, SpecFieldEquals,
                         SpecPathMatches, ImageRepositoryPresent}
  {
    hide NamesKey, LeavesAt, Images, Contains;
  }

  /** Some text the path shows in this section is one the pattern matches. */
  ghost predicate ShowsMatch(lib: Library, d: Detection, section: map<string, Json>) {
    exists text, steps :: Shows(Object(section), Split(d.target, '.'), text, steps) && lib.matches(d.value, text)
  }

  lemma PathHoldsMeans(lib: Library, d: Detection, section: map<string, Json>)
    ensures PathHolds(lib, d, section) <==> ShowsMatch(lib, d, section)
  {
    hide LeavesAt, Split, Shows;
    var segments := Split(d.target, '.');
    if PathHolds(lib, d, section) {
      var leaf :| leaf in LeavesAt(Object(section), segments) && lib.matches(d.value, leaf);
      LeavesAreExact(Object(section), segments, leaf);
      var steps :| Shows(Object(section), segments, leaf, steps);
      assert ShowsMatch(lib, d, section);
    }
    if ShowsMatch(lib, d, section) {
      var text, steps :| Shows(Object(section), segments, text, steps) && lib.matches(d.value, text);
      LeavesAreExact(Object(section), segments, text);
      assert PathHolds(lib, d, section);
    }
  }

  /** A path rule holds exactly when some walk its path spells, in spec or in status, shows a text its pattern
      matches. */
  lemma PathsDecide(lib: Library, d: Detection, r: Row)
    requires d.kind == SpecPathMatches
    ensures Matches(lib, d, r) <==> ShowsMatch(lib, d, r.spec) || ShowsMatch(lib, d, r.status)
  {
    hide PathHolds, ShowsMatch;
    PathHoldsMeans(lib, d, r.spec);
    PathHoldsMeans(lib, d, r.status);
  }

  lemma {:induction false} ContainsMeans(s: string, part: string)
    ensures Contains(s, part) <==> exists a: string, b: string :: s == a + part + b
  {
    if part <= s {
      assert s == "" + part + s[|part|..];
    } else if s != "" {
      ContainsMeans(s[1..], part);
      if a: string, b: string :| s[1..] == a + part + b {
        assert s == ([s[0]] + a) + part + b;
      }
      if a: string, b: string :| s == a + part + b {
        assert a + part + b == a + (part + b) && (a == "" ==> a + (part + b) == part + b);
        assert s[1..] == a[1..] + part + b;
      }
    }
  }

  lemma {:induction false} ImagesInAre(items: seq<Json>, image: string)
    ensures image in ImagesIn(items) <==> image != "" && exists item | item in items :: ImageOf(item) == image
  {
    hide ImageOf;
    if items != [] {
      ImagesInAre(items[1..], image);
      assert forall item :: item in items <==> item == items[0] || item in items[1..];
    }
  }

  ghost predicate PartOf(part: string, s: string) {
    exists a: string, b: string :: s == a + part + b
  }

  lemma ContainsPart(s: string, part: string)
    ensures Contains(s, part) <==> PartOf(part, s)
  {
    hide Contains;
    ContainsMeans(s, part);
  }

  /** A container, or an init container, of the object has this image. */
  ghost predicate Runs(r: Row, image: string) {
    exists key, item | key in {"containers", "initContainers"} && key in r.spec && r.spec[key].List? ::
      item in r.spec[key].items && item.Object? && "image" in item.fields && item.fields["image"] == Str(image)
  }

  /** An image rule holds exactly when the object runs an image the target is part of. */
  lemma ImagesDecide(lib: Library, d: Detection, r: Row)
    requires d.kind == ImageRepositoryPresent
    ensures Matches(lib, d, r) <==>
            exists image, a: string, b: string :: image != "" && Runs(r, image) && image == a + d.target + b
  {
    hide Contains, ImagesIn;
    forall image
      ensures image in Images(r.spec) <==> image != "" && Runs(r, image)
      ensures Contains(image, d.target) <==> exists a: string, b: string :: image == a + d.target + b
    {
      ContainsMeans(image, d.target);
      ImageRuns(r, image);
    }
  }

  lemma ImageRuns(r: Row, image: string)
    ensures image in Images(r.spec) <==> image != "" && Runs(r, image)
  {
    hide ImagesIn;
    assert forall key | key in r.spec && r.spec[key].List? ::
        image in ImagesAt(r.spec, key) <==> image in ImagesIn(r.spec[key].items);
    if "containers" in r.spec && r.spec["containers"].List? {
      ImagesInAre(r.spec["containers"].items, image);
    }
    if "initContainers" in r.spec && r.spec["initContainers"].List? {
      ImagesInAre(r.spec["initContainers"].items, image);
    }
  }

  predicate IsPlainName(k: string) {
    k != "" && '|' !in k && forall c | c in k :: !IsSpace(c)
  }

  /** "Deployment|DaemonSet" names both, and a name alone names itself. */
  lemma {:induction false} KindsNamed(kinds: seq<string>, d: Detection)
    requires kinds != [] && d.objectKind == Join(kinds, "|")
    requires forall k | k in kinds :: IsPlainName(k)
    ensures ObjectKinds(d) == kinds
  {
    hide Split, IsSpace;
    SplitJoined(kinds, '|');
    NonBlankKeeps(kinds);
  }

  lemma {:induction false} SplitJoined(parts: seq<string>, sep: char)
    requires parts != [] && forall part | part in parts :: sep !in part
    ensures Split(Join(parts, [sep]), sep) == parts
  {
    hide Split, Join;
    JoinUnfolds(parts, [sep]);
    assert parts[0] in parts && parts == [parts[0]] + parts[1..];
    if |parts| == 1 {
      SplitOne(parts[0], sep);
    } else {
      assert forall part | part in parts[1..] :: part in parts;
      SplitHead(parts[0], sep, Join(parts[1..], [sep]));
      SplitJoined(parts[1..], sep);
    }
  }

  lemma JoinUnfolds(parts: seq<string>, sep: string)
    requires parts != []
    ensures Join(parts, sep) == if |parts| == 1 then parts[0] else parts[0] + sep + Join(parts[1..], sep)
  {
  }

  lemma {:induction false} NonBlankKeeps(parts: seq<string>)
    requires forall k | k in parts :: IsPlainName(k)
    ensures NonBlank(parts) == parts
  {
    hide IsSpace;
    if parts != [] {
      var k := parts[0];
      assert k in parts && forall part | part in parts[1..] :: part in parts;
      assert k[0] in k && k[|k| - 1] in k;
      NonBlankKeeps(parts[1..]);
    }
  }

  /** An id made of source, version and slug gives back the slug. */
  lemma SlugOfFiled(rule: GeneratedRule, slug: string)
    requires rule.ruleId == "rtz-" + rule.sourceId + "-" + rule.appliesAt + "-" + slug
    ensures rule.Slug() == slug
  {
    assert "rtz-" + rule.sourceId + "-" + rule.appliesAt + "-" <= rule.ruleId;
  }

  /** So does a hand-numbered one, filed at another version than its own dotted number. */
  lemma SlugOfNumbered(rule: GeneratedRule, number: string, slug: string)
    requires rule.ruleId == "rtz-" + rule.sourceId + "-" + number + "-" + slug
    requires '.' in number && '-' !in number && '-' !in rule.appliesAt && number != rule.appliesAt
    ensures rule.Slug() == slug
  {
    hide CutAtAny;
    var lead, rest := "rtz-" + rule.sourceId + "-", number + "-" + slug;
    assert rule.ruleId == lead + rest && rule.ruleId[|lead|..] == rest;
    CutStops(number, '-', slug, "-");
    if lead + rule.appliesAt + "-" <= rule.ruleId {
      assert rule.ruleId[|lead|..|lead| + |rule.appliesAt| + 1] == rule.appliesAt + "-";
      assert rest == rule.appliesAt + "-" + rest[|rule.appliesAt| + 1..];
      CutStops(rule.appliesAt, '-', rest[|rule.appliesAt| + 1..], "-");
      assert false;
    }
  }
}
