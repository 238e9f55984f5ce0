/** Finding the running add-ons by container image, at the lowest version any workload shows. */
module Detect {
  import opened Text
  import opened AddonVersions
  import opened Inventory

  /** What the image text says: whether it belongs to the add-on, and its tag. */
  datatype ImageReader = ImageReader(matches: string -> bool, tag: string -> string)

  datatype VersionSource = FromImageTag | FromLabel | Unresolved

  datatype Detection = Detection(ref: string, namespace: string, version: string, source: VersionSource)

  function Images(w: Workload): seq<string> {
    w.containers + w.initContainers
  }

  /** The workload as a detection by the image at hand: the tag when it reads, else the label. */
  function Read(reader: ImageReader, w: Workload, image: string): Detection {
    if IsParseable(reader.tag(image)) then Detection(w.Ref(), w.namespace, reader.tag(image), FromImageTag)
    else if IsParseable(w.versionLabel) then Detection(w.Ref(), w.namespace, w.versionLabel, FromLabel)
    else Detection(w.Ref(), w.namespace, "", Unresolved)
  }

  /** A readable tag is the version, failing that a readable label, and failing both nothing is. */
  lemma ReadMeans(reader: ImageReader, w: Workload, image: string)
    ensures var d, tag := Read(reader, w, image), reader.tag(image);
            && d.ref == w.kind + "/" + w.namespace + "/" + w.name && d.namespace == w.namespace
            && (|Parse(tag)| >= 2 ==> d.version == tag && d.source == FromImageTag)
            && (|Parse(tag)| < 2 && |Parse(w.versionLabel)| >= 2 ==>
                  d.version == w.versionLabel && d.source == FromLabel)
            && (|Parse(tag)| < 2 && |Parse(w.versionLabel)| < 2 ==> d.version == "" && d.source == Unresolved)
  {
    hide Parse;
  }

  /** A workload is read through the first of its images that matches, and through no other. */
  ghost predicate ReadsAs(reader: ImageReader, w: Workload, d: Detection) {
    exists i | 0 <= i < |Images(w)| ::
      && reader.matches(Images(w)[i])
      && (forall j | 0 <= j < i :: !reader.matches(Images(w)[j]))
      && d == Read(reader, w, Images(w)[i])
  }

  ghost predicate Candidate(reader: ImageReader, workloads: seq<Workload>, d: Detection) {
    exists k | 0 <= k < |workloads| :: ReadsAs(reader, workloads[k], d)
  }

  /** `best` is among the candidates, unresolved only when every candidate is, and otherwise at or
      below every readable one. */
  ghost predicate IsLowest(reader: ImageReader, workloads: seq<Workload>, best: Option<Detection>) {
    if best.None? then forall d :: !Candidate(reader, workloads, d)
    else
      && Candidate(reader, workloads, best.value)
      && (best.value.version == "" <==> best.value.source == Unresolved)
      && forall d | Candidate(reader, workloads, d) && d.version != "" ::
           best.value.version != "" && VersionOrder(best.value.version, d.version) <= 0
  }

  /** Containers come before init containers. */
  lemma ContainersFirst(reader: ImageReader, w: Workload, i: nat)
    requires i < |w.containers| && reader.matches(w.containers[i])
    requires forall j | 0 <= j < i :: !reader.matches(w.containers[j])
    ensures ReadsAs(reader, w, Read(reader, w, w.containers[i]))
  {
    assert Images(w)[i] == w.containers[i] && forall j | 0 <= j < i :: Images(w)[j] == w.containers[j];
  }

  lemma ReadsOneWay(reader: ImageReader, w: Workload, d: Detection, e: Detection)
    requires ReadsAs(reader, w, d) && ReadsAs(reader, w, e)
    ensures d == e
  {
  }

  lemma ReadableText(version: string)
    requires IsParseable(version)
    ensures version != ""
  {
  }

  method DetectOne(reader: ImageReader, workloads: seq<Workload>) returns (best: Option<Detection>)
    ensures IsLowest(reader, workloads, best)
  {
    hide Parse, Compare;
    best := None;
    for k := 0 to |workloads|
      invariant IsLowest(reader, workloads[..k], best)
    {
      var w := workloads[k];
      var images := w.containers + w.initContainers;
      ghost var before := best;
      var read := false;
      for i := 0 to |images|
        invariant !read && best == before
        invariant forall j | 0 <= j < i :: !reader.matches(images[j])
      {
        if !reader.matches(images[i]) {
          continue;
        }
        var d := Detection(w.Ref(), w.namespace, "", Unresolved);
        if IsParseable(reader.tag(images[i])) {
          d := d.(version := reader.tag(images[i]), source := FromImageTag);
          ReadableText(d.version);
        } else if IsParseable(w.versionLabel) {
          d := d.(version := w.versionLabel, source := FromLabel);
          ReadableText(d.version);
        }
        assert d == Read(reader, w, Images(w)[i]) && reader.matches(Images(w)[i]);
        assert forall j | 0 <= j < i :: !reader.matches(Images(w)[j]);
        read := true;
        if best.None? {
          best := Some(d);
        } else {
          var c := CompareVersions(d.version, best.value.version);
          if best.value.version == "" && d.version != "" {
            best := Some(d);
          } else if d.version != "" && c < 0 {
            best := Some(d);
          }
        }
        LowestGrows(reader, workloads[..k], w, before, d, best);
        break;
      }
      assert workloads[..k + 1] == workloads[..k] + [w];
      if !read {
        NothingToRead(reader, workloads[..k], w, best);
      }
    }
    assert workloads[..|workloads|] == workloads;
  }

  /** The version the code keeps out of the best so far and one more reading. */
  function Keep(best: Option<Detection>, d: Detection): Detection {
    if best.None? || (best.value.version == "" && d.version != "") ||
       (d.version != "" && VersionOrder(d.version, best.value.version) < 0)
    then d else best.value
  }

  lemma CandidateGrows(reader: ImageReader, workloads: seq<Workload>, w: Workload, d: Detection)
    ensures Candidate(reader, workloads + [w], d) <==> Candidate(reader, workloads, d) || ReadsAs(reader, w, d)
  {
    var all := workloads + [w];
    assert all[|workloads|] == w;
    assert forall k | 0 <= k < |workloads| :: all[k] == workloads[k];
  }

  lemma LowestGrows(reader: ImageReader, workloads: seq<Workload>, w: Workload,
                    before: Option<Detection>, d: Detection, after: Option<Detection>)
    requires IsLowest(reader, workloads, before) && ReadsAs(reader, w, d)
    requires d.version == "" <==> d.source == Unresolved
    requires after == Some(Keep(before, d))
    ensures IsLowest(reader, workloads + [w], after)
  {
    hide Parse, Compare, ReadsAs, Candidate;
    CandidateGrows(reader, workloads, w, after.value);
    forall e | Candidate(reader, workloads + [w], e) && e.version != ""
      ensures after.value.version != "" && VersionOrder(after.value.version, e.version) <= 0
    {
      CandidateGrows(reader, workloads, w, e);
      if !Candidate(reader, workloads, e) {
        ReadsOneWay(reader, w, d, e);
      }
      CompareIsTotalPreorder(Parse(d.version), Parse(d.version), Parse(e.version));
      if before.Some? {
        CompareIsTotalPreorder(Parse(d.version), Parse(before.value.version), Parse(e.version));
      }
    }
  }

  lemma NothingToRead(reader: ImageReader, workloads: seq<Workload>, w: Workload, best: Option<Detection>)
    requires IsLowest(reader, workloads, best)
    requires forall i | 0 <= i < |Images(w)| :: !reader.matches(Images(w)[i])
    ensures IsLowest(reader, workloads + [w], best)
  {
    hide Parse, Compare, Candidate;
    forall d
      ensures Candidate(reader, workloads + [w], d) <==> Candidate(reader, workloads, d)
    {
      CandidateGrows(reader, workloads, w, d);
    }
  }

  /** The version does not depend on the order in which the cluster lists its workloads. */
  lemma ListingOrderDoesNotMatter(reader: ImageReader, listed: seq<Workload>, relisted: seq<Workload>,
                                  best: Option<Detection>, best': Option<Detection>)
    requires multiset(listed) == multiset(relisted)
    requires IsLowest(reader, listed, best) && IsLowest(reader, relisted, best')
    ensures best.None? <==> best'.None?
    ensures best.Some? ==> VersionOrder(best.value.version, best'.value.version) == 0
    ensures best.Some? ==> (best.value.version == "" <==> best'.value.version == "")
  {
    hide Parse, Compare, ReadsAs;
    forall w
      ensures w in listed <==> w in relisted
    {
      assert w in listed <==> w in multiset(listed);
      assert w in relisted <==> w in multiset(relisted);
    }
    forall d
      ensures Candidate(reader, listed, d) <==> Candidate(reader, relisted, d)
    {
      SameWorkloadsSameCandidates(reader, listed, relisted, d);
      SameWorkloadsSameCandidates(reader, relisted, listed, d);
    }
    if best.Some? {
      var v, v' := Parse(best.value.version), Parse(best'.value.version);
      CompareIsTotalPreorder(v, v', v);
      CompareIsTotalPreorder(v, v, v');
    }
  }

  lemma SameWorkloadsSameCandidates(reader: ImageReader, listed: seq<Workload>, relisted: seq<Workload>, d: Detection)
    requires forall w :: w in listed ==> w in relisted
    ensures Candidate(reader, listed, d) ==> Candidate(reader, relisted, d)
  {
    hide ReadsAs;
    if Candidate(reader, listed, d) {
      var k :| 0 <= k < |listed| && ReadsAs(reader, listed[k], d);
      assert listed[k] in relisted;
    }
  }
}
