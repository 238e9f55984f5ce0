/** The two detections that read typed collectors only: versions a CRD serves, and version skew. */
module TypedRules {
  import opened Text
  import opened Sorting
  import opened KubeVersions
  import opened Inventory
  import opened Rules
  import opened Settle
  import Deprecations

  // ---------- served CRD versions ----------

  function CrdName(crd: Crd): string {
    Deprecations.ToLower(crd.row.name)
  }

  predicate ServesTarget(crd: Crd, d: Detection) {
    && (d.objectKind == "" || Contains(CrdName(crd), Deprecations.ToLower(d.objectKind)))
    && d.target in crd.served
  }

  function Serving(crds: seq<Crd>, d: Detection): seq<string> {
    if crds == [] then []
    else
      var last := crds[|crds| - 1];
      Serving(crds[..|crds| - 1], d) + if ServesTarget(last, d) then [CrdName(last)] else []
  }

  function CrdRule(inv: Inventory, d: Detection): Outcome {
    if !inv.Read(CRDS) then DeclinedFor("CustomResourceDefinition", inv.ReasonOf(CRDS))
    else
      var affected := Serving(inv.crds, d);
      if affected == [] then Clear else Fired(CapTo(SortTexts(affected), MAX_NAMED), |affected|)
  }

  method CrdServedVersion(inv: Inventory, d: Detection) returns (out: Outcome)
    ensures out == CrdRule(inv, d)
  {
    hide SortTexts, Contains, Deprecations.ToLower;
    if !inv.Read(CRDS) {
      return DeclinedFor("CustomResourceDefinition", inv.ReasonOf(CRDS));
    }
    var affected: seq<string> := [];
    for i := 0 to |inv.crds|
      invariant affected == Serving(inv.crds[..i], d)
    {
      var crd := inv.crds[i];
      assert inv.crds[..i + 1][..i] == inv.crds[..i];
      var name := CrdName(crd);
      if d.objectKind != "" && !Contains(name, Deprecations.ToLower(d.objectKind)) {
        continue;
      }
      ghost var before := affected;
      for j := 0 to |crd.served|
        invariant affected == before && d.target !in crd.served[..j]
      {
        if crd.served[j] == d.target {
          affected := affected + [name];
          break;
        }
      }
      assert crd.served[..|crd.served|] == crd.served;
    }
    assert inv.crds[..|inv.crds|] == inv.crds;
    if |affected| == 0 {
      return Clear;
    }
    SortTextsForgetsOrder(affected, affected);
    return Fired(CapTo(SortTexts(affected), MAX_NAMED), |affected|);
  }

  lemma {:induction false} ServingAre(crds: seq<Crd>, d: Detection, name: string)
    ensures name in Serving(crds, d) <==> exists crd | crd in crds :: ServesTarget(crd, d) && CrdName(crd) == name
  {
    if crds != [] {
      var front, last := crds[..|crds| - 1], crds[|crds| - 1];
      ServingAre(front, d, name);
      assert crds == front + [last];
      assert forall crd :: crd in crds <==> crd in front || crd == last;
      assert ServesTarget(last, d) || !ServesTarget(last, d);
    }
  }

  /** The rule is declined exactly when the CRDs were not read, and otherwise fires exactly when one serves the
      version; it names only such CRDs. */
  lemma CrdRuleMeans(inv: Inventory, d: Detection)
    ensures var out := CrdRule(inv, d);
            && (out.Declined? <==> !inv.Read(CRDS))
            && (out.Fired? <==> inv.Read(CRDS) && exists crd | crd in inv.crds :: ServesTarget(crd, d))
            && (out.Fired? ==> forall name | name in out.affected ::
                  exists crd | crd in inv.crds :: ServesTarget(crd, d) && CrdName(crd) == name)
  {
    hide SortTexts, ServesTarget, CrdName;
    var affected := Serving(inv.crds, d);
    SortTextsForgetsOrder(affected, affected);
    if affected != [] {
      ServingAre(inv.crds, d, affected[0]);
      assert affected[0] in affected;
    }
    if crd :| crd in inv.crds && ServesTarget(crd, d) {
      ServingAre(inv.crds, d, CrdName(crd));
    }
    forall name | name in CapTo(SortTexts(affected), MAX_NAMED)
      ensures name in affected
      ensures exists crd | crd in inv.crds :: ServesTarget(crd, d) && CrdName(crd) == name
    {
      assert name in multiset(SortTexts(affected));
      ServingAre(inv.crds, d, name);
    }
  }

  /** A CRD is one the rule means when its name, lower-cased, has the rule's object kind in it. */
  lemma ServesMeans(crd: Crd, d: Detection)
    ensures ServesTarget(crd, d) <==>
            && d.target in crd.served
            && (d.objectKind != "" ==>
                  PartOf(Deprecations.ToLower(d.objectKind), Deprecations.ToLower(crd.row.name)))
  {
    hide Contains, PartOf, Deprecations.ToLower;
    ContainsPart(CrdName(crd), Deprecations.ToLower(d.objectKind));
  }

  // ---------- version skew ----------

  /** A version that could be read: whose it is, as printed, and its key. */
  datatype Reading = Reading(whose: string, key: nat)

  function LagText(r: Reading, behind: int): string {
    r.whose + ", " + SignedText(behind) + " minors behind target)"
  }

  /** The tag of an image reference, or nothing for one pinned by digest or not tagged. */
  function ImageTag(image: string): string {
    var parts := Split(CutAtAny(image, "@"), ':');
    if |parts| < 2 || '/' in parts[|parts| - 1] then "" else parts[|parts| - 1]
  }

  function NodeReading(n: Node): Reading {
    Reading(n.row.name + " (kubelet " + n.kubelet, MinorKey(n.kubelet))
  }

  function ImageReading(w: Workload, image: string): Reading {
    Reading(w.Ref() + " (" + image, MinorKey(ImageTag(image)))
  }

  predicate IsProxy(w: Workload) {
    w.kind == "DaemonSet" && w.namespace == "kube-system" && "kube-proxy" <= w.name
  }

  /** The readings a version can be made out of, in order. */
  function NodeReadings(nodes: seq<Node>): seq<Reading> {
    if nodes == [] then []
    else
      var r := NodeReading(nodes[|nodes| - 1]);
      NodeReadings(nodes[..|nodes| - 1]) + if r.key == 0 then [] else [r]
  }

  function ImageReadings(w: Workload, images: seq<string>): seq<Reading> {
    if images == [] then []
    else
      var r := ImageReading(w, images[|images| - 1]);
      ImageReadings(w, images[..|images| - 1]) + if r.key == 0 then [] else [r]
  }

  function ProxyReadings(workloads: seq<Workload>): seq<Reading> {
    if workloads == [] then []
    else
      var w := workloads[|workloads| - 1];
      ProxyReadings(workloads[..|workloads| - 1]) + if IsProxy(w) then ImageReadings(w, w.containers) else []
  }

  function Proxies(workloads: seq<Workload>): nat {
    if workloads == [] then 0
    else Proxies(workloads[..|workloads| - 1]) + if IsProxy(workloads[|workloads| - 1]) then 1 else 0
  }

  function Lagging(readings: seq<Reading>, targetKey: nat, allowed: int): seq<string> {
    if readings == [] then []
    else
      var r := readings[|readings| - 1];
      Lagging(readings[..|readings| - 1], targetKey, allowed) +
      if targetKey - r.key > allowed then [LagText(r, targetKey - r.key)] else []
  }

  predicate AsksProxy(d: Detection) {
    Contains(Deprecations.ToLower(d.target), "kube-proxy")
  }

  function CollectorFor(d: Detection): string {
    if AsksProxy(d) then WORKLOADS else NODES
  }

  function ReadingsFor(inv: Inventory, d: Detection): seq<Reading> {
    if AsksProxy(d) then ProxyReadings(inv.workloads) else NodeReadings(inv.nodes)
  }

  function NothingReadable(inv: Inventory, d: Detection): Outcome {
    if !AsksProxy(d) then
      DeclinedFor("Node", "none of the " + Itoa(|inv.nodes|) + " nodes reports a kubelet version that parses")
    else if Proxies(inv.workloads) == 0 then
      DeclinedFor("kube-proxy", "no kube-proxy DaemonSet in kube-system: this distribution runs the proxy inside the " +
                                "node agent (k3s and some managed control planes do), so its version cannot be read")
    else
      DeclinedFor("kube-proxy", "the " + Itoa(Proxies(inv.workloads)) + " kube-proxy DaemonSet(s) in kube-system " +
                                "carry no image tag that parses as a version")
  }

  /** `allowed` is the rule's value, when it reads as a number. */
  function SkewRule(inv: Inventory, d: Detection, target: string, allowed: Option<int>): Outcome {
    if allowed.None? || MinorKey(target) == 0 then
      DeclinedFor("version skew", "the skew rule's value " + d.value + " or the target version " + target +
                                  " is not a number")
    else if !inv.Read(CollectorFor(d)) then
      DeclinedFor(if AsksProxy(d) then "kube-proxy" else "Node", inv.ReasonOf(CollectorFor(d)))
    else
      var readings := ReadingsFor(inv, d);
      var affected := Lagging(readings, MinorKey(target), allowed.value);
      if readings == [] then NothingReadable(inv, d)
      else if affected == [] then Clear
      else Fired(CapTo(affected, MAX_NAMED), |affected|)
  }

  lemma NothingReadableDeclines(inv: Inventory, d: Detection)
    ensures NothingReadable(inv, d).Declined?
  {
    hide DeclinedFor, Itoa, Proxies, AsksProxy;
  }

  method VersionSkew(inv: Inventory, d: Detection, target: string, allowed: Option<int>) returns (out: Outcome)
    ensures out == SkewRule(inv, d, target, allowed)
  {
    hide MinorKey, AsksProxy, Lagging, NodeReadings, ProxyReadings, DeclinedFor, NothingReadable, CapTo;
    var targetKey := MinorKey(target);
    if allowed.None? || targetKey == 0 {
      return DeclinedFor("version skew", "the skew rule's value " + d.value + " or the target version " + target +
                         " is not a number");
    }
    if AsksProxy(d) {
      if !inv.Read(WORKLOADS) {
        return DeclinedFor("kube-proxy", inv.ReasonOf(WORKLOADS));
      }
      var named, readable, affected := ProxyLag(inv.workloads, targetKey, allowed.value);
      if named == 0 || readable == 0 {
        return NothingReadable(inv, d);
      } else if |affected| == 0 {
        return Clear;
      }
      return Fired(CapTo(affected, MAX_NAMED), |affected|);
    }
    if !inv.Read(NODES) {
      return DeclinedFor("Node", inv.ReasonOf(NODES));
    }
    var readable, affected := NodeLag(inv.nodes, targetKey, allowed.value);
    if readable == 0 {
      return NothingReadable(inv, d);
    } else if |affected| == 0 {
      return Clear;
    }
    return Fired(CapTo(affected, MAX_NAMED), |affected|);
  }

  lemma {:induction false} LaggingAppends(a: seq<Reading>, b: seq<Reading>, targetKey: nat, allowed: int)
    ensures Lagging(a + b, targetKey, allowed) == Lagging(a, targetKey, allowed) + Lagging(b, targetKey, allowed)
  {
    hide LagText;
    if b == [] {
      assert a + b == a;
    } else {
      var front := b[..|b| - 1];
      assert (a + b)[..|a + b| - 1] == a + front;
      LaggingAppends(a, front, targetKey, allowed);
    }
  }

  lemma LaggingAdds(readings: seq<Reading>, r: Reading, targetKey: nat, allowed: int)
    ensures Lagging(readings + [r], targetKey, allowed) ==
            Lagging(readings, targetKey, allowed) +
            if targetKey - r.key > allowed then [LagText(r, targetKey - r.key)] else []
  {
    hide LagText;
    assert (readings + [r])[..|readings|] == readings;
  }

  method NodeLag(nodes: seq<Node>, targetKey: nat, allowed: int) returns (readable: nat, affected: seq<string>)
    ensures readable == |NodeReadings(nodes)|
    ensures affected == Lagging(NodeReadings(nodes), targetKey, allowed)
  {
    hide MinorKey, LagText, Lagging, NodeReading;
    readable, affected := 0, [];
    NoneLag(targetKey, allowed);
    for i := 0 to |nodes|
      invariant readable == |NodeReadings(nodes[..i])|
      invariant affected == Lagging(NodeReadings(nodes[..i]), targetKey, allowed)
    {
      assert nodes[..i + 1][..i] == nodes[..i];
      var r := NodeReading(nodes[i]);
      if r.key == 0 {
        assert NodeReadings(nodes[..i]) + [] == NodeReadings(nodes[..i]);
        continue;
      }
      assert NodeReadings(nodes[..i + 1]) == NodeReadings(nodes[..i]) + [r];
      LaggingAdds(NodeReadings(nodes[..i]), r, targetKey, allowed);
      readable := readable + 1;
      var behind := targetKey - r.key;
      if behind > allowed {
        affected := affected + [LagText(r, behind)];
      }
    }
    assert nodes[..|nodes|] == nodes;
  }

  method ProxyLag(workloads: seq<Workload>, targetKey: nat, allowed: int)
    returns (named: nat, readable: nat, affected: seq<string>)
    ensures named == Proxies(workloads) && (named == 0 ==> readable == 0)
    ensures readable == |ProxyReadings(workloads)|
    ensures affected == Lagging(ProxyReadings(workloads), targetKey, allowed)
  {
    hide MinorKey, LagText, ImageReadings, Lagging;
    named, readable, affected := 0, 0, [];
    NoneLag(targetKey, allowed);
    for i := 0 to |workloads|
      invariant named == Proxies(workloads[..i]) && (named == 0 ==> readable == 0)
      invariant readable == |ProxyReadings(workloads[..i])|
      invariant affected == Lagging(ProxyReadings(workloads[..i]), targetKey, allowed)
    {
      var w := workloads[i];
      assert workloads[..i + 1] == workloads[..i] + [w] && workloads[..i + 1][..i] == workloads[..i];
      if !IsProxy(w) {
        assert ProxyReadings(workloads[..i]) + [] == ProxyReadings(workloads[..i]);
        continue;
      }
      assert ProxyReadings(workloads[..i + 1]) == ProxyReadings(workloads[..i]) + ImageReadings(w, w.containers);
      named := named + 1;
      var more, late := ImageLag(w, targetKey, allowed);
      LaggingAppends(ProxyReadings(workloads[..i]), ImageReadings(w, w.containers), targetKey, allowed);
      readable, affected := readable + more, affected + late;
    }
    assert workloads[..|workloads|] == workloads;
  }

  lemma NoneLag(targetKey: nat, allowed: int)
    ensures Lagging([], targetKey, allowed) == []
  {
  }

  method ImageLag(w: Workload, targetKey: nat, allowed: int) returns (readable: nat, affected: seq<string>)
    ensures readable == |ImageReadings(w, w.containers)|
    ensures affected == Lagging(ImageReadings(w, w.containers), targetKey, allowed)
  {
    hide MinorKey, LagText, Lagging, ImageReading;
    readable, affected := 0, [];
    NoneLag(targetKey, allowed);
    for i := 0 to |w.containers|
      invariant readable == |ImageReadings(w, w.containers[..i])|
      invariant affected == Lagging(ImageReadings(w, w.containers[..i]), targetKey, allowed)
    {
      assert w.containers[..i + 1][..i] == w.containers[..i];
      var r := ImageReading(w, w.containers[i]);
      if r.key == 0 {
        assert ImageReadings(w, w.containers[..i]) + [] == ImageReadings(w, w.containers[..i]);
        continue;
      }
      assert ImageReadings(w, w.containers[..i + 1]) == ImageReadings(w, w.containers[..i]) + [r];
      LaggingAdds(ImageReadings(w, w.containers[..i]), r, targetKey, allowed);
      readable := readable + 1;
      var behind := targetKey - r.key;
      if behind > allowed {
        affected := affected + [LagText(r, behind)];
      }
    }
    assert w.containers[..|w.containers|] == w.containers;
  }

  /** "repo:tag" has that tag, with a digest after it or not; a registry's port is no tag, and a reference by
      digest alone has none. */
  lemma ImageTagMeans(repo: string, tag: string, digest: string)
    requires '@' !in repo && '@' !in tag && ':' !in tag
    ensures ImageTag(repo + ":" + tag) == if '/' in tag then "" else tag
    ensures ImageTag(repo + ":" + tag + "@" + digest) == ImageTag(repo + ":" + tag)
    ensures ':' !in repo ==> ImageTag(repo) == "" && ImageTag(repo + "@" + digest) == ""
  {
    hide Split, CutAtAny;
    var image := repo + ":" + tag;
    CutNothing(image, "@");
    CutStops(image, '@', digest, "@");
    CutNothing(repo, "@");
    CutStops(repo, '@', digest, "@");
    LastAfter(repo, ':', tag);
    TwoParts(repo, ':', tag);
    if ':' !in repo {
      SplitOne(repo, ':');
    }
  }

  lemma TwoParts(p: string, sep: char, s: string)
    ensures |Split(p + [sep] + s, sep)| >= 2
  {
    hide Split;
    OnePartHasNone(p + [sep] + s, sep);
    assert (p + [sep] + s)[|p|] == sep;
  }

  /** The kube-proxy DaemonSets are those so named, or whose name begins so, in kube-system. */
  lemma ProxyMeans(w: Workload, rest: string)
    ensures IsProxy(w.(kind := "DaemonSet", namespace := "kube-system", name := "kube-proxy" + rest))
    ensures w.kind != "DaemonSet" || w.namespace != "kube-system" ==> !IsProxy(w)
    ensures |w.name| < 10 || w.name[..10] != "kube-proxy" ==> !IsProxy(w)
  {
  }

  // ---------- what skew promises ----------

  lemma {:induction false} NodeReadingsAre(nodes: seq<Node>, r: Reading)
    ensures r in NodeReadings(nodes) <==> r.key != 0 && exists n | n in nodes :: NodeReading(n) == r
  {
    hide MinorKey;
    if nodes != [] {
      var front, last := nodes[..|nodes| - 1], nodes[|nodes| - 1];
      NodeReadingsAre(front, r);
      assert nodes == front + [last];
      assert forall n :: n in nodes <==> n in front || n == last;
      assert NodeReading(last) == r || NodeReading(last) != r;
    }
  }

  lemma {:induction false} ImageReadingsAre(w: Workload, images: seq<string>, r: Reading)
    ensures r in ImageReadings(w, images) <==>
            r.key != 0 && exists image | image in images :: ImageReading(w, image) == r
  {
    hide MinorKey, ImageTag;
    if images != [] {
      var front, last := images[..|images| - 1], images[|images| - 1];
      ImageReadingsAre(w, front, r);
      assert images == front + [last];
      assert forall image :: image in images <==> image in front || image == last;
      assert ImageReading(w, last) == r || ImageReading(w, last) != r;
    }
  }

  lemma {:induction false} ProxyReadingsAre(workloads: seq<Workload>, r: Reading)
    ensures r in ProxyReadings(workloads) <==>
            exists w | w in workloads :: IsProxy(w) && r in ImageReadings(w, w.containers)
  {
    hide ImageReadings;
    if workloads != [] {
      var front, last := workloads[..|workloads| - 1], workloads[|workloads| - 1];
      ProxyReadingsAre(front, r);
      assert workloads == front + [last];
      assert forall w :: w in workloads <==> w in front || w == last;
      assert IsProxy(last) || !IsProxy(last);
    }
  }

  /** What the rule reads is each node's kubelet, or each image of each kube-proxy DaemonSet, whose version can
      be made out. */
  ghost predicate IsRead(inv: Inventory, d: Detection, r: Reading) {
    && r.key != 0
    && if AsksProxy(d) then exists w | w in inv.workloads ::
         IsProxy(w) && exists image | image in w.containers :: ImageReading(w, image) == r
       else exists n | n in inv.nodes :: NodeReading(n) == r
  }

  lemma ReadingsAre(inv: Inventory, d: Detection, r: Reading)
    ensures r in ReadingsFor(inv, d) <==> IsRead(inv, d, r)
  {
    hide ImageReadings, NodeReadings, ProxyReadings, NodeReading, ImageReading, AsksProxy;
    if AsksProxy(d) {
      ProxyReadingsAre(inv.workloads, r);
      forall w | w in inv.workloads
        ensures r in ImageReadings(w, w.containers) <==>
                r.key != 0 && exists image | image in w.containers :: ImageReading(w, image) == r
      {
        ImageReadingsAre(w, w.containers, r);
      }
    } else {
      NodeReadingsAre(inv.nodes, r);
    }
  }

  lemma {:induction false} LaggingAre(readings: seq<Reading>, targetKey: nat, allowed: int, text: string)
    ensures text in Lagging(readings, targetKey, allowed) <==>
            exists r | r in readings :: targetKey - r.key > allowed && LagText(r, targetKey - r.key) == text
  {
    hide LagText;
    if readings != [] {
      var front, last := readings[..|readings| - 1], readings[|readings| - 1];
      LaggingAre(front, targetKey, allowed, text);
      assert readings == front + [last];
      assert forall r :: r in readings <==> r in front || r == last;
      assert targetKey - last.key > allowed || targetKey - last.key <= allowed;
    }
  }

  ghost predicate SomeRead(inv: Inventory, d: Detection) {
    exists r :: IsRead(inv, d, r)
  }

  ghost predicate SomeLags(inv: Inventory, d: Detection, targetKey: nat, allowed: int) {
    exists r :: IsRead(inv, d, r) && targetKey - r.key > allowed
  }

  /** Skew is clean only on evidence: the rule clears exactly when the collector was read, some version could be
      made out and none lags too far; it fires exactly when one does, and names only such; and otherwise it is
      declined. */
  lemma SkewRuleMeans(inv: Inventory, d: Detection, target: string, allowed: Option<int>)
    ensures var out := SkewRule(inv, d, target, allowed);
            var settled := allowed.Some? && MinorKey(target) != 0 && inv.Read(CollectorFor(d)) && SomeRead(inv, d);
            && (out.Declined? <==> !settled)
            && (out.Fired? <==> settled && SomeLags(inv, d, MinorKey(target), allowed.value))
            && (out.Fired? ==> forall text | text in out.affected :: exists r ::
                  IsRead(inv, d, r) && MinorKey(target) - r.key > allowed.value &&
                  LagText(r, MinorKey(target) - r.key) == text)
  {
    hide MinorKey, ReadingsFor, IsRead, LagText, AsksProxy, Lagging, NothingReadable, CollectorFor;
    NothingReadableDeclines(inv, d);
    var readings, targetKey := ReadingsFor(inv, d), MinorKey(target);
    forall r
      ensures r in readings <==> IsRead(inv, d, r)
    {
      ReadingsAre(inv, d, r);
    }
    assert readings != [] ==> IsRead(inv, d, readings[0]);
    if allowed.Some? {
      var affected := Lagging(readings, targetKey, allowed.value);
      forall text
        ensures text in affected <==>
                exists r | r in readings :: targetKey - r.key > allowed.value && LagText(r, targetKey - r.key) == text
      {
        LaggingAre(readings, targetKey, allowed.value, text);
      }
      if affected != [] {
        assert affected[0] in affected;
      }
      forall text | text in CapTo(affected, MAX_NAMED)
        ensures exists r :: IsRead(inv, d, r) && targetKey - r.key > allowed.value &&
                            LagText(r, targetKey - r.key) == text
      {
        assert text in affected;
      }
      if r :| IsRead(inv, d, r) && targetKey - r.key > allowed.value {
        assert LagText(r, targetKey - r.key) in affected;
      }
    }
  }

  lemma AsksProxyMeans(d: Detection)
    ensures AsksProxy(d) <==> PartOf("kube-proxy", Deprecations.ToLower(d.target))
  {
    hide Contains, PartOf, Deprecations.ToLower;
    ContainsPart(Deprecations.ToLower(d.target), "kube-proxy");
  }

  /** Kubelet skew, node by node: once nodes were read and some kubelet version could be made out, the rule
      fires exactly when some kubelet is more minors behind the target than allowed. */
  lemma KubeletsDecide(inv: Inventory, d: Detection, target: string, allowed: int)
    requires !AsksProxy(d) && MinorKey(target) != 0 && inv.Read("nodes")
    requires exists n | n in inv.nodes :: MinorKey(n.kubelet) != 0
    ensures !SkewRule(inv, d, target, Some(allowed)).Declined?
    ensures SkewRule(inv, d, target, Some(allowed)).Fired? <==>
            exists n | n in inv.nodes :: MinorKey(n.kubelet) != 0 && MinorKey(target) - MinorKey(n.kubelet) > allowed
  {
    hide MinorKey, SkewRule, AsksProxy;
    SkewRuleMeans(inv, d, target, Some(allowed));
    forall n | n in inv.nodes
      ensures MinorKey(n.kubelet) != 0 ==> IsRead(inv, d, NodeReading(n))
    {
    }
  }

  /** And kube-proxy skew, image by image of its DaemonSets. */
  lemma ProxiesDecide(inv: Inventory, d: Detection, target: string, allowed: int)
    requires AsksProxy(d) && MinorKey(target) != 0 && inv.Read("workloads")
    requires exists w, image | w in inv.workloads && image in w.containers ::
               IsProxy(w) && MinorKey(ImageTag(image)) != 0
    ensures !SkewRule(inv, d, target, Some(allowed)).Declined?
    ensures SkewRule(inv, d, target, Some(allowed)).Fired? <==>
            exists w, image | w in inv.workloads && image in w.containers ::
              IsProxy(w) && MinorKey(ImageTag(image)) != 0 && MinorKey(target) - MinorKey(ImageTag(image)) > allowed
  {
    hide MinorKey, SkewRule, AsksProxy, IsProxy, ImageTag;
    SkewRuleMeans(inv, d, target, Some(allowed));
    forall w, image | w in inv.workloads && image in w.containers && IsProxy(w)
      ensures MinorKey(ImageTag(image)) != 0 ==> IsRead(inv, d, ImageReading(w, image))
    {
    }
  }
}
