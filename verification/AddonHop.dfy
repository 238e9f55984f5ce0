/** Which add-on rules an add-on's move from an installed to a required version selects. */
module AddonHop {
  import opened Text
  import opened AddonVersions

  // ---------- the catalog's well-formedness check ----------

  datatype IntroducedInError =
    | EmptyList
    | NotAPatch(entry: string)
    | TwoPatchesOnLine(line: string)
    | NewerThanFile(entry: string)
    | NoneOnOwnLine

  function EntryLine(entry: string): Version {
    Line(Parse(entry))
  }

  ghost predicate DistinctLines(entries: seq<string>) {
    forall i, j | 0 <= i < j < |entries| :: EntryLine(entries[i]) != EntryLine(entries[j])
  }

  ghost predicate Patches(entries: seq<string>) {
    forall i | 0 <= i < |entries| :: |Parse(entries[i])| >= 3
  }

  ghost predicate WellFormed(entries: seq<string>, fileVersion: string) {
    && entries != []
    && Patches(entries)
    && DistinctLines(entries)
    && NoneNewer(entries, fileVersion)
    && SomeOnOwnLine(entries, fileVersion)
  }

  /** Why a list is refused: each error names something wrong with it. */
  ghost predicate Explains(err: IntroducedInError, entries: seq<string>, fileVersion: string) {
    match err
    case EmptyList => entries == []
    case NotAPatch(e) => e in entries && |Parse(e)| < 3
    case TwoPatchesOnLine(line) =>
      exists i, j | 0 <= i < j < |entries| ::
        AddonMinor(entries[i]) == AddonMinor(entries[j]) == line
    case NewerThanFile(e) => e in entries && Compare(EntryLine(e), Parse(fileVersion)) > 0
    case NoneOnOwnLine => !SomeOnOwnLine(entries, fileVersion)
  }

  lemma SameEntryLine(v: string, w: string)
    ensures Parse(AddonMinor(v)) == EntryLine(v)
    ensures AddonMinor(v) == AddonMinor(w) <==> EntryLine(v) == EntryLine(w)
  {
    AddonMinorRoundTrip(v, w);
  }

  method ValidateIntroducedIn(introducedIn: Option<seq<string>>, fileVersion: string)
    returns (err: Option<IntroducedInError>)
    ensures err.None? <==> introducedIn.None? || WellFormed(introducedIn.value, fileVersion)
    ensures err.Some? ==> introducedIn.Some? && Explains(err.value, introducedIn.value, fileVersion)
  {
    if introducedIn.None? {
      return None;
    }
    if |introducedIn.value| == 0 {
      return Some(EmptyList);
    }
    err := FirstError(introducedIn.value, fileVersion);
    if err.Some? {
      ExplainedIsRefused(err.value, introducedIn.value, fileVersion);
    }
  }

  lemma ExplainedIsRefused(err: IntroducedInError, entries: seq<string>, fileVersion: string)
    requires Explains(err, entries, fileVersion)
    ensures !WellFormed(entries, fileVersion)
  {
    hide Parse, AddonMinor, Compare, EntryLine;
    if err.TwoPatchesOnLine? {
      var i, j :| 0 <= i < j < |entries| && AddonMinor(entries[i]) == AddonMinor(entries[j]) == err.line;
      SameEntryLine(entries[i], entries[j]);
    }
  }

  ghost function LinesOf(entries: seq<string>): set<string> {
    set k | 0 <= k < |entries| :: AddonMinor(entries[k])
  }

  ghost predicate NoneNewer(entries: seq<string>, fileVersion: string) {
    forall i | 0 <= i < |entries| :: Compare(EntryLine(entries[i]), Parse(fileVersion)) <= 0
  }

  ghost predicate SomeOnOwnLine(entries: seq<string>, fileVersion: string) {
    exists i | 0 <= i < |entries| :: Compare(EntryLine(entries[i]), Parse(fileVersion)) == 0
  }

  ghost predicate Sound(entries: seq<string>, fileVersion: string) {
    Patches(entries) && DistinctLines(entries) && NoneNewer(entries, fileVersion)
  }

  lemma SoundGrows(entries: seq<string>, v: string, fileVersion: string)
    requires Sound(entries, fileVersion)
    requires |Parse(v)| >= 3 && AddonMinor(v) !in LinesOf(entries)
    requires Compare(EntryLine(v), Parse(fileVersion)) <= 0
    ensures Sound(entries + [v], fileVersion)
  {
    hide Parse, AddonMinor, Compare, EntryLine;
    forall k | 0 <= k < |entries|
      ensures EntryLine(entries[k]) != EntryLine(v)
    {
      SameEntryLine(entries[k], v);
    }
  }

  method FirstError(entries: seq<string>, fileVersion: string) returns (err: Option<IntroducedInError>)
    requires entries != []
    ensures err.None? ==> WellFormed(entries, fileVersion)
    ensures err.Some? ==> Explains(err.value, entries, fileVersion)
  {
    hide Parse, AddonMinor, Compare, EntryLine, Sound;
    var onOwnLine := false;
    var lines: set<string> := {};
    assert Sound([], fileVersion) by {
      NothingIsSound(fileVersion);
    }
    for i := 0 to |entries|
      invariant lines == LinesOf(entries[..i])
      invariant Sound(entries[..i], fileVersion)
      invariant onOwnLine <==> SomeOnOwnLine(entries[..i], fileVersion)
    {
      var v := entries[i];
      assert entries[..i + 1] == entries[..i] + [v];
      var c := Components(v);
      if |c| < 3 {
        return Some(NotAPatch(v));
      }
      if AddonMinor(v) in lines {
        return Some(TwoPatchesOnLine(AddonMinor(v)));
      }
      lines := lines + {AddonMinor(v)};
      SameEntryLine(v, v);
      var line := CompareVersions(AddonMinor(v), fileVersion);
      if line > 0 {
        return Some(NewerThanFile(v));
      } else if line == 0 {
        onOwnLine := true;
      }
      SoundGrows(entries[..i], v, fileVersion);
    }
    assert entries[..|entries|] == entries;
    if !onOwnLine {
      return Some(NoneOnOwnLine);
    }
    SoundUnfolds(entries, fileVersion);
    return None;
  }

  lemma NothingIsSound(fileVersion: string)
    ensures Sound([], fileVersion)
  {
  }

  lemma SoundUnfolds(entries: seq<string>, fileVersion: string)
    requires Sound(entries, fileVersion)
    ensures Patches(entries) && DistinctLines(entries) && NoneNewer(entries, fileVersion)
  {
  }

  // ---------- what the selection decides, on parsed versions ----------

  function Reaches(required: Version, entry: Version): bool {
    if |required| < 2 then true
    else if |required| == 2 then Compare(Line(entry), required) <= 0
    else Compare(entry, required) <= 0
  }

  /** An entry past the installed version that the required version reaches. */
  predicate Crossed(entry: Version, installed: Version, required: Version) {
    (|installed| >= 2 ==> Compare(entry, installed) > 0) && Reaches(required, entry)
  }

  predicate OnLineOf(entry: Version, v: Version) {
    |entry| >= 2 && |v| >= 2 && Line(entry) == Line(v)
  }

  /** The window of a rule without patch releases: its minor lies in (installed, required]. */
  predicate InMinorWindow(applies: Version, installed: Version, required: Version) {
    && |applies| >= 2
    && (|installed| >= 2 ==> Compare(applies, Line(installed)) > 0)
    && (|required| >= 2 ==> Compare(applies, Line(required)) <= 0)
  }

  /** The version's own line already ships the change: an entry on it at or below the version. */
  ghost predicate Shipped(entries: seq<Version>, v: Version) {
    exists e | e in entries :: OnLineOf(e, v) && Compare(e, v) <= 0
  }

  ghost predicate HasOwn(entries: seq<Version>, v: Version) {
    exists k | 0 <= k < |entries| :: OnLineOf(entries[k], v)
  }

  ghost predicate HasNewer(entries: seq<Version>, v: Version) {
    exists e | e in entries :: Compare(Line(e), Line(v)) > 0
  }

  ghost predicate AnyCrossed(entries: seq<Version>, installed: Version, required: Version) {
    exists e | e in entries :: Crossed(e, installed, required)
  }

  /** The branching decision over patch releases, case by case. */
  ghost predicate PatchDecision(entries: seq<Version>, installed: Version, required: Version) {
    if Shipped(entries, installed) then false
    else if |required| >= 2 && !HasOwn(entries, required) && HasNewer(entries, required) then false
    else if |required| > 2 && HasOwn(entries, required) then
      Crossed(entries[FirstOnLine(entries, required)], installed, required)
    else AnyCrossed(entries, installed, required)
  }

  ghost function FirstOnLine(entries: seq<Version>, required: Version): (k: nat)
    requires HasOwn(entries, required)
    ensures k < |entries| && OnLineOf(entries[k], required)
    ensures forall j | 0 <= j < k :: !OnLineOf(entries[j], required)
  {
    if OnLineOf(entries[0], required) then 0 else 1 + FirstOnLine(entries[1..], required)
  }

  function ParseAll(entries: seq<string>): (vs: seq<Version>)
    ensures |vs| == |entries| && forall i | 0 <= i < |vs| :: vs[i] == Parse(entries[i])
  {
    seq(|entries|, i requires 0 <= i < |entries| => Parse(entries[i]))
  }

  ghost predicate InHop(applies: string, introducedIn: seq<string>, installed: string, required: string) {
    if introducedIn == [] then InMinorWindow(Parse(applies), Parse(installed), Parse(required))
    else PatchDecision(ParseAll(introducedIn), Parse(installed), Parse(required))
  }

  method InAddonHop(applies: string, introducedIn: seq<string>, installed: string, required: string)
    returns (selected: bool)
    ensures selected <==> InHop(applies, introducedIn, installed, required)
  {
    hide Parse, AddonMinor, Compare, OnLineOf, Crossed, FirstOnLine;
    hide Shipped, HasOwn, HasNewer, AnyCrossed;
    if |introducedIn| == 0 {
      selected := InMinors(applies, installed, required);
      return;
    }
    var known := IsParseable(installed);
    if known {
      var shipped := ShippedOnLine(introducedIn, installed);
      if shipped {
        return false;
      }
    }
    assert !Shipped(ParseAll(introducedIn), Parse(installed)) by {
      if !known {
        UnreadableShipsNothing(ParseAll(introducedIn), Parse(installed));
      }
    }
    var parseable := IsParseable(required);
    var partTarget := parseable && Specificity(required) > 2;
    if parseable {
      var ownEntry, newerEntry := LinesAgainst(introducedIn, required);
      if !ownEntry && newerEntry {
        return false;
      }
    }
    if partTarget {
      var ownEntry, crossed := FirstOwnCrossed(introducedIn, installed, required);
      if ownEntry {
        return crossed;
      }
    }
    selected := SomeCrossed(introducedIn, installed, required);
  }

  lemma UnreadableShipsNothing(entries: seq<Version>, v: Version)
    requires |v| < 2
    ensures !Shipped(entries, v)
  {
  }

  /** The first entry on the required line decides a three-part required version. */
  method FirstOwnCrossed(introducedIn: seq<string>, installed: string, required: string)
    returns (own: bool, crossed: bool)
    requires IsParseable(required)
    ensures var entries := ParseAll(introducedIn);
            && (own <==> HasOwn(entries, Parse(required)))
            && (own ==> (crossed <==>
                Crossed(entries[FirstOnLine(entries, Parse(required))], Parse(installed), Parse(required))))
  {
    hide Parse, AddonMinor, Compare, OnLineOf, Crossed;
    ghost var entries := ParseAll(introducedIn);
    for i := 0 to |introducedIn|
      invariant forall k | 0 <= k < i :: !OnLineOf(entries[k], Parse(required))
    {
      SameLineText(introducedIn[i], required);
      if AddonMinor(introducedIn[i]) != AddonMinor(required) {
        continue;
      }
      FirstOnLineIs(entries, Parse(required), i);
      own := true;
      crossed := IsCrossed(introducedIn[i], installed, required);
      return;
    }
    return false, false;
  }

  method SomeCrossed(introducedIn: seq<string>, installed: string, required: string) returns (r: bool)
    ensures r <==> AnyCrossed(ParseAll(introducedIn), Parse(installed), Parse(required))
  {
    hide Parse, AddonMinor, Compare, OnLineOf, Crossed;
    ghost var entries := ParseAll(introducedIn);
    for i := 0 to |introducedIn|
      invariant forall k | 0 <= k < i :: !Crossed(entries[k], Parse(installed), Parse(required))
    {
      var crossed := IsCrossed(introducedIn[i], installed, required);
      if crossed {
        assert entries[i] in entries;
        return true;
      }
    }
    return false;
  }

  lemma FirstOnLineIs(entries: seq<Version>, v: Version, i: nat)
    requires i < |entries| && OnLineOf(entries[i], v)
    requires forall k | 0 <= k < i :: !OnLineOf(entries[k], v)
    ensures HasOwn(entries, v) && FirstOnLine(entries, v) == i
  {
  }

  /** The window for a rule that names no patch release. */
  method InMinors(applies: string, installed: string, required: string) returns (r: bool)
    ensures r <==> InMinorWindow(Parse(applies), Parse(installed), Parse(required))
  {
    hide Parse, AddonMinor, Compare, OnLineOf, Crossed;
    AddonMinorRoundTrip(installed, required);
    AddonMinorRoundTrip(required, required);
    if !IsParseable(applies) {
      return false;
    }
    var lo := AddonMinor(installed);
    if lo != "" {
      var c := CompareVersions(applies, lo);
      if c <= 0 {
        return false;
      }
    }
    var hi := AddonMinor(required);
    if hi != "" {
      var c := CompareVersions(applies, hi);
      if c > 0 {
        return false;
      }
    }
    return true;
  }

  /** The installed line already carries the change: an entry on it at or below the installed patch. */
  method ShippedOnLine(introducedIn: seq<string>, installed: string) returns (shipped: bool)
    requires IsParseable(installed)
    ensures shipped <==> Shipped(ParseAll(introducedIn), Parse(installed))
  {
    hide Parse, AddonMinor, Compare, OnLineOf, Crossed;
    ghost var entries := ParseAll(introducedIn);
    var line := AddonMinor(installed);
    for i := 0 to |introducedIn|
      invariant forall k | 0 <= k < i ::
                  !(OnLineOf(entries[k], Parse(installed)) && Compare(entries[k], Parse(installed)) <= 0)
    {
      SameLineText(introducedIn[i], installed);
      var c := CompareVersions(introducedIn[i], installed);
      if AddonMinor(introducedIn[i]) == line && c <= 0 {
        assert entries[i] in entries;
        return true;
      }
    }
    return false;
  }

  /** Whether some entry is on the required version's line, and whether some entry is on a newer one. */
  method LinesAgainst(introducedIn: seq<string>, required: string) returns (own: bool, newer: bool)
    requires IsParseable(required)
    ensures var entries, rv := ParseAll(introducedIn), Parse(required);
            (own <==> HasOwn(entries, rv)) && (newer <==> HasNewer(entries, rv))
  {
    hide Parse, AddonMinor, Compare, OnLineOf, Crossed;
    ghost var entries, rv := ParseAll(introducedIn), Parse(required);
    own, newer := false, false;
    for i := 0 to |introducedIn|
      invariant own <==> exists k | 0 <= k < i :: OnLineOf(entries[k], rv)
      invariant newer <==> exists k | 0 <= k < i :: Compare(Line(entries[k]), Line(rv)) > 0
    {
      AddonMinorRoundTrip(introducedIn[i], required);
      AddonMinorRoundTrip(required, required);
      OwnLineCompares(entries[i], rv);
      var c := CompareVersions(AddonMinor(introducedIn[i]), AddonMinor(required));
      own := own || c == 0;
      newer := newer || c > 0;
    }
    assert forall e | e in entries :: exists k | 0 <= k < |entries| :: e == entries[k];
    assert forall k | 0 <= k < |entries| :: entries[k] in entries;
  }

  /** Past the installed version, and reached by the required one. */
  method IsCrossed(patch: string, installed: string, required: string) returns (r: bool)
    ensures r <==> Crossed(Parse(patch), Parse(installed), Parse(required))
  {
    if IsParseable(installed) {
      var c := CompareVersions(patch, installed);
      if c <= 0 {
        return false;
      }
    }
    r := ReachesText(required, patch);
  }

  lemma SameLineText(entry: string, v: string)
    requires IsParseable(v)
    ensures AddonMinor(entry) == AddonMinor(v) <==> OnLineOf(Parse(entry), Parse(v))
  {
    AddonMinorRoundTrip(entry, v);
  }

  lemma OwnLineCompares(entry: Version, v: Version)
    requires |v| >= 2
    ensures Compare(Line(entry), Line(v)) == 0 <==> OnLineOf(entry, v)
  {
    if |entry| >= 2 {
      LineDecides(entry, v);
    }
  }

  method ReachesText(required: string, patch: string) returns (r: bool)
    ensures r == Reaches(Parse(required), Parse(patch))
  {
    if !IsParseable(required) {
      return true;
    }
    AddonMinorRoundTrip(patch, patch);
    var c: int;
    if Specificity(required) == 2 {
      c := CompareVersions(AddonMinor(patch), required);
    } else {
      c := CompareVersions(patch, required);
    }
    return c <= 0;
  }

  // ---------- what it means ----------

  /** A release carries the change when its own line's entry is at or below it, or, on a line without
      one, when every line that got the change is older. */
  ghost predicate Carries(entries: seq<Version>, v: Version) {
    if exists e | e in entries :: OnLineOf(e, v)
    then exists e | e in entries :: OnLineOf(e, v) && Compare(e, v) <= 0
    else forall e | e in entries :: Compare(Line(e), Line(v)) < 0
  }

  /** A two-part destination stands for its whole line, so an entry on that line is carried. */
  ghost predicate DestinationCarries(entries: seq<Version>, v: Version) {
    if |v| == 2 && (exists e | e in entries :: OnLineOf(e, v)) then true else Carries(entries, v)
  }

  /** The destination is not behind the origin; a two-part destination is its whole line. */
  predicate Forward(installed: Version, required: Version) {
    if |required| == 2 then Compare(Line(installed), required) <= 0 else Compare(installed, required) <= 0
  }

  ghost predicate ValidEntries(entries: seq<Version>) {
    && entries != []
    && (forall e | e in entries :: |e| >= 3)
    && (forall i, j | 0 <= i < j < |entries| :: Line(entries[i]) != Line(entries[j]))
  }

  lemma ValidOnes(introducedIn: seq<string>, fileVersion: string)
    requires WellFormed(introducedIn, fileVersion)
    ensures ValidEntries(ParseAll(introducedIn))
  {
    hide Parse, Compare;
    forall e | e in ParseAll(introducedIn)
      ensures |e| >= 3
    {
      var k :| 0 <= k < |introducedIn| && e == Parse(introducedIn[k]);
    }
  }

  /** The branching decision is one sentence: the destination carries the change, the origin does not,
      and the move goes forward. An unreadable end drops its own condition and nothing else. */
  lemma DecisionMeaning(entries: seq<Version>, installed: Version, required: Version)
    requires ValidEntries(entries)
    ensures PatchDecision(entries, installed, required) <==>
            && (|installed| >= 2 ==> !Carries(entries, installed))
            && (|required| >= 2 ==> DestinationCarries(entries, required))
            && (|installed| >= 2 && |required| >= 2 ==> Forward(installed, required))
  {
    hide Compare;
    if !Shipped(entries, installed) {
      if |installed| >= 2 {
        NotCarriedMeansPast(entries, installed);
      }
      assert entries[0] in entries;
      if |required| < 2 {
      } else if HasOwn(entries, required) {
        OwnEntryDecides(entries, installed, required);
      } else {
        NoOwnEntry(entries, installed, required);
      }
    }
  }

  /** With an entry on the required line, crossing that one entry is what a forward move has to do. */
  lemma OwnEntryDecides(entries: seq<Version>, installed: Version, required: Version)
    requires ValidEntries(entries) && |required| >= 2
    requires HasOwn(entries, required)
    requires !Shipped(entries, installed)
    ensures var own := entries[FirstOnLine(entries, required)];
            && own in entries
            && (Carries(entries, required) <==> Compare(own, required) <= 0)
            && (|required| == 2 ==> Reaches(required, own))
            && (|installed| >= 2 && Forward(installed, required) ==> Compare(own, installed) > 0)
    ensures |installed| >= 2 ==>
              forall e | e in entries && Crossed(e, installed, required) :: Forward(installed, required)
  {
    hide Compare;
    var own := entries[FirstOnLine(entries, required)];
    LineDecides(own, required);
    if |required| == 2 {
      assert Line(required) == required;
    }
    if |installed| >= 2 {
      LineDecides(installed, required);
      LineDecides(installed, own);
      CompareIsTotalPreorder(installed, own, required);
      forall e | e in entries && Crossed(e, installed, required)
        ensures Forward(installed, required)
      {
        LineDecides(installed, e);
        LineDecides(e, required);
        CompareIsTotalPreorder(installed, e, required);
      }
    }
  }

  /** Without one, the destination carries the change exactly when no entry is on a newer line. */
  lemma NoOwnEntry(entries: seq<Version>, installed: Version, required: Version)
    requires ValidEntries(entries) && |required| >= 2
    requires !HasOwn(entries, required)
    ensures DestinationCarries(entries, required) <==> forall e | e in entries :: Compare(Line(e), Line(required)) <= 0
    ensures DestinationCarries(entries, required) ==> forall e | e in entries :: Reaches(required, e)
    ensures DestinationCarries(entries, required) && |installed| >= 2 ==>
              forall e | e in entries && Compare(e, installed) > 0 :: Forward(installed, required)
  {
    hide Compare;
    if |required| == 2 {
      assert Line(required) == required;
    }
    forall e | e in entries
      ensures Compare(Line(e), Line(required)) != 0
      ensures Compare(Line(e), Line(required)) < 0 ==> Reaches(required, e)
      ensures Compare(Line(e), Line(required)) < 0 && |installed| >= 2 && Compare(e, installed) > 0 ==>
                Forward(installed, required)
    {
      LineDecides(e, required);
      if |installed| >= 2 {
        LineDecides(installed, e);
        LineDecides(installed, required);
        CompareIsTotalPreorder(installed, e, required);
      }
    }
  }

  /** When no entry on its own line is at or below it, a release lacks the change exactly when some
      entry is past it. */
  lemma NotCarriedMeansPast(entries: seq<Version>, v: Version)
    requires ValidEntries(entries) && |v| >= 2
    requires !Shipped(entries, v)
    ensures Carries(entries, v) <==> forall e | e in entries :: Compare(e, v) <= 0
    ensures Carries(entries, v) <==> forall e | e in entries :: Compare(Line(e), Line(v)) < 0
  {
    forall e | e in entries
      ensures Compare(e, v) <= 0 ==> Compare(Line(e), Line(v)) < 0
      ensures Compare(Line(e), Line(v)) < 0 ==> Compare(e, v) <= 0
    {
      LineDecides(e, v);
      LineDecides(v, e);
    }
  }

  /** For a rule the catalog accepts: between two readable versions, going forward, the rule is selected
      exactly when the destination carries the change and the origin does not; going backward it is
      never selected. An unreadable installed version leaves the destination's half, so uncertainty
      only widens the selection. */
  lemma HopIsDestinationMinusOrigin(applies: string, introducedIn: seq<string>, file: string,
          installed: string, required: string)
    requires WellFormed(introducedIn, file)
    ensures var es, i, r := ParseAll(introducedIn), Parse(installed), Parse(required);
            && (IsParseable(installed) && IsParseable(required) ==>
                  (InHop(applies, introducedIn, installed, required) <==>
                     Forward(i, r) && DestinationCarries(es, r) && !Carries(es, i)))
            && (!IsParseable(installed) && IsParseable(required) ==>
                  (InHop(applies, introducedIn, installed, required) <==> DestinationCarries(es, r)))
            && (IsParseable(installed) && !IsParseable(required) ==>
                  (InHop(applies, introducedIn, installed, required) <==> !Carries(es, i)))
  {
    hide Parse, Carries, DestinationCarries, Forward, PatchDecision;
    ValidOnes(introducedIn, file);
    DecisionMeaning(ParseAll(introducedIn), Parse(installed), Parse(required));
  }

  lemma UncertaintyWidens(applies: string, introducedIn: seq<string>, file: string, installed: string,
          unread: string, required: string)
    requires WellFormed(introducedIn, file) || introducedIn == []
    requires !IsParseable(unread)
    requires InHop(applies, introducedIn, installed, required)
    ensures InHop(applies, introducedIn, unread, required)
  {
    hide Parse, Carries, DestinationCarries, Forward, PatchDecision;
    if introducedIn != [] {
      ValidOnes(introducedIn, file);
      DecisionMeaning(ParseAll(introducedIn), Parse(installed), Parse(required));
      DecisionMeaning(ParseAll(introducedIn), Parse(unread), Parse(required));
    }
  }

  /** A fix first shipped as 3.7.9 and backported as 3.6.24. */
  function Backport(): seq<Version> {
    [[3, 6, 24], [3, 7, 9]]
  }

  lemma BackportIsValid()
    ensures ValidEntries(Backport())
  {
    assert Line([3, 6, 24]) == [3, 6] && Line([3, 7, 9]) == [3, 7];
  }

  function BackportTexts(): seq<string> {
    [PatchText(3, 6, 24), PatchText(3, 7, 9)]
  }

  /** The catalog accepts that list for its 3.7 file. */
  lemma BackportIsAccepted()
    ensures WellFormed(BackportTexts(), Itoa(3) + "." + Itoa(7))
    ensures ParseAll(BackportTexts()) == Backport() && ValidEntries(Backport())
  {
    hide Parse, Compare, PatchText, Itoa;
    var entries, file := BackportTexts(), Itoa(3) + "." + Itoa(7);
    ParsePatch(3, 6, 24);
    ParsePatch(3, 7, 9);
    ParseMinor(3, 7);
    assert EntryLine(entries[0]) == [3, 6] && EntryLine(entries[1]) == [3, 7];
    LineDecides([3, 6], [3, 7]);
    LineDecides([3, 7], [3, 7]);
    assert Line([3, 6]) == [3, 6] && Line([3, 7]) == [3, 7];
    ValidOnes(entries, file);
    assert ParseAll(entries) == Backport();
  }

  /** Hops between the texts of two releases are hops between the releases. */
  lemma BackportHop(applies: string, i: Version, r: Version)
    requires |i| == |r| == 3 && (forall n | n in i :: n <= MAX_INT) && (forall n | n in r :: n <= MAX_INT)
    ensures InHop(applies, BackportTexts(), PatchText(i[0], i[1], i[2]), PatchText(r[0], r[1], r[2])) <==>
            PatchDecision(Backport(), i, r)
  {
    hide Parse, PatchDecision, PatchText, WellFormed;
    BackportIsAccepted();
    assert i[0] in i && i[1] in i && i[2] in i && r[0] in r && r[1] in r && r[2] in r;
    ParsePatch(i[0], i[1], i[2]);
    ParsePatch(r[0], r[1], r[2]);
    assert i == [i[0], i[1], i[2]] && r == [r[0], r[1], r[2]];
  }

  lemma BackportCarries(minor: nat, patch: nat)
    requires minor == 6 || minor == 7
    ensures Carries(Backport(), [3, minor, patch]) <==> patch >= (if minor == 6 then 24 else 9)
  {
    hide Compare;
    var v: Version, es := [3, minor, patch], Backport();
    assert Line(v) == [3, minor] && Line(es[0]) == [3, 6] && Line(es[1]) == [3, 7];
    var own: Version := if minor == 6 then es[0] else es[1];
    assert own in es && OnLineOf(own, v);
    assert v[..2] == own[..2];
    SameLineCompare(own, v);
  }

  lemma SameLineCompare(v: Version, w: Version)
    requires |v| == |w| == 3 && v[..2] == w[..2]
    ensures Compare(v, w) == (if v[2] < w[2] then -1 else if v[2] > w[2] then 1 else 0)
  {
    assert v[0] == v[..2][0] && v[1] == v[..2][1] && w[0] == w[..2][0] && w[1] == w[..2][1];
    assert CompareFrom(v, w, 1) == CompareFrom(v, w, 2);
    assert CompareFrom(v, w, 3) == 0;
  }

  /** Going backward the sentence "the destination has it, the origin does not" can hold while the rule
      is left out: 3.7.5 lacks the fix that 3.6.25 got as a backport. */
  lemma BackwardMovesSelectNothing(applies: string)
    ensures WellFormed(BackportTexts(), Itoa(3) + "." + Itoa(7))
    ensures DestinationCarries(ParseAll(BackportTexts()), Parse(PatchText(3, 6, 25)))
    ensures !Carries(ParseAll(BackportTexts()), Parse(PatchText(3, 7, 5)))
    ensures !InHop(applies, BackportTexts(), PatchText(3, 7, 5), PatchText(3, 6, 25))
  {
    hide Parse, Compare, Carries, PatchDecision, PatchText, InHop, WellFormed;
    BackportIsAccepted();
    ParsePatch(3, 6, 25);
    ParsePatch(3, 7, 5);
    BackportCarries(6, 25);
    BackportCarries(7, 5);
    DecisionMeaning(Backport(), [3, 7, 5], [3, 6, 25]);
    LineDecides([3, 7, 5], [3, 6, 25]);
    BackportHop(applies, [3, 7, 5], [3, 6, 25]);
  }

  // ---------- taking a hop in steps ----------

  /** Three-part versions, none below the one before it. */
  ghost predicate Climb(vs: seq<Version>) {
    && |vs| >= 2
    && (forall i | 0 <= i < |vs| :: |vs[i]| >= 3)
    && (forall i | 0 <= i < |vs| - 1 :: Compare(vs[i], vs[i + 1]) <= 0)
  }

  lemma {:induction false} ClimbEnds(vs: seq<Version>, i: nat, j: nat)
    requires Climb(vs) && i <= j < |vs|
    ensures Compare(vs[i], vs[j]) <= 0
    decreases j - i
  {
    hide Compare;
    CompareIsTotalPreorder(vs[i], vs[i], vs[i]);
    if i < j {
      ClimbEnds(vs, i, j - 1);
      CompareIsTotalPreorder(vs[i], vs[j - 1], vs[j]);
    }
  }

  lemma {:induction false} FirstStepThatCarries(es: seq<Version>, vs: seq<Version>) returns (k: nat)
    requires Climb(vs) && !Carries(es, vs[0]) && Carries(es, vs[|vs| - 1])
    ensures k < |vs| - 1 && !Carries(es, vs[k]) && Carries(es, vs[k + 1])
    decreases |vs|
  {
    hide Carries, Compare;
    if Carries(es, vs[1]) {
      k := 0;
    } else {
      k := FirstStepThatCarries(es, vs[1..]);
      k := k + 1;
    }
  }

  /** Splitting a hop never loses a rule: what the whole hop selects, some step selects. */
  lemma SplittingLosesNoRule(es: seq<Version>, vs: seq<Version>) returns (k: nat)
    requires ValidEntries(es) && Climb(vs)
    requires PatchDecision(es, vs[0], vs[|vs| - 1])
    ensures k < |vs| - 1 && PatchDecision(es, vs[k], vs[k + 1])
  {
    hide Carries, Compare, PatchDecision;
    DecisionMeaning(es, vs[0], vs[|vs| - 1]);
    k := FirstStepThatCarries(es, vs);
    DecisionMeaning(es, vs[k], vs[k + 1]);
  }

  ghost predicate PatchStep(es: seq<Version>, vs: seq<Version>, k: nat)
    requires k < |vs| - 1
  {
    PatchDecision(es, vs[k], vs[k + 1])
  }

  /** A climb whose whole hop selects a rule exactly when some step of it does, and where no two steps do. */
  ghost predicate SplitsOnce(es: seq<Version>, vs: seq<Version>)
    requires |vs| >= 2
  {
    && (PatchDecision(es, vs[0], vs[|vs| - 1]) <==> exists k | 0 <= k < |vs| - 1 :: PatchStep(es, vs, k))
    && (forall j, k | 0 <= j < k < |vs| - 1 :: !(PatchStep(es, vs, j) && PatchStep(es, vs, k)))
  }

  /** Past the oldest line that got the change, every entry is the first patch of a line whose predecessor
      got it too: the change was never missing from a release newer than one that had it. */
  ghost predicate Unbroken(es: seq<Version>) {
    forall e, f | e in es && f in es && Compare(Line(f), Line(e)) < 0 :: FollowsOn(es, e)
  }

  ghost predicate FollowsOn(es: seq<Version>, e: Version) {
    |e| >= 2 && Compare(e, Line(e)) <= 0 && e[1] > 0 && exists g | g in es :: Line(g) == [e[0], e[1] - 1]
  }

  /** In an unbroken list, lines with an entry follow each other down to the oldest one. */
  lemma {:induction false} NoLineMissing(es: seq<Version>, f: Version, g: Version, line: Version)
    requires ValidEntries(es) && Unbroken(es) && f in es && g in es && |line| == 2
    requires Compare(Line(f), line) < 0 && Compare(line, Line(g)) <= 0
    ensures exists e | e in es :: Line(e) == line
    decreases g[1]
  {
    hide Compare;
    assert Line(line) == line;
    LineDecides(f, line);
    LineDecides(line, g);
    LineDecides(f, g);
    if Line(g) != line {
      assert FollowsOn(es, g);
      var h :| h in es && Line(h) == [g[0], g[1] - 1];
      assert h[0] == Line(h)[0] && h[1] == Line(h)[1];
      LineDecides(line, h);
      NoLineMissing(es, f, h, line);
    }
  }

  /** Once carried, always carried. */
  lemma CarriedStays(es: seq<Version>, v: Version, w: Version)
    requires ValidEntries(es) && Unbroken(es)
    requires |v| >= 2 && |w| >= 2 && Compare(v, w) <= 0 && Carries(es, v)
    ensures Carries(es, w)
  {
    hide Compare;
    LineDecides(v, w);
    if Line(v) == Line(w) {
      forall e | e in es
        ensures OnLineOf(e, v) <==> OnLineOf(e, w)
        ensures Compare(e, v) <= 0 ==> Compare(e, w) <= 0
      {
        CompareIsTotalPreorder(e, v, w);
      }
    } else {
      var f := AtOrBelow(es, v);
      LineDecides(f, v);
      LineDecides(f, w);
      CompareIsTotalPreorder(Line(f), Line(v), Line(w));
      if e :| e in es && Compare(Line(w), Line(e)) <= 0 {
        NoLineMissing(es, f, e, Line(w));
      }
      forall e | e in es
        ensures Compare(Line(e), Line(w)) < 0 || Compare(Line(w), Line(e)) <= 0
        ensures OnLineOf(e, w) ==> Compare(e, w) <= 0
      {
        CompareIsTotalPreorder(Line(e), Line(w), Line(w));
        if OnLineOf(e, w) {
          assert FollowsOn(es, e);
          LineOfAtMost(w);
          CompareIsTotalPreorder(e, Line(w), w);
        }
      }
    }
  }

  lemma LineOfAtMost(v: Version)
    requires |v| >= 2
    ensures Compare(Line(v), v) <= 0
  {
    PrefixAtMost(Line(v), v);
  }

  lemma AtOrBelow(es: seq<Version>, v: Version) returns (f: Version)
    requires ValidEntries(es) && |v| >= 2 && Carries(es, v)
    ensures f in es && Compare(Line(f), Line(v)) <= 0
  {
    hide Compare;
    if e :| e in es && OnLineOf(e, v) {
      f := e;
      CompareIsTotalPreorder(Line(v), Line(v), Line(v));
    } else {
      f := es[0];
    }
  }

  function PastMinors(es: seq<Version>): (n: nat)
    ensures forall e | e in es && |e| >= 2 :: e[1] < n
  {
    if es == [] then 0
    else
      var n := PastMinors(es[1..]);
      if |es[0]| >= 2 && es[0][1] >= n then es[0][1] + 1 else n
  }

  /** A release on no entry's line, older than some entry, lacks the change. */
  lemma BetweenLines(es: seq<Version>, e: Version, v: Version)
    requires ValidEntries(es) && e in es && |v| >= 2
    requires Compare(Line(v), Line(e)) < 0 && forall g | g in es :: Line(g) != Line(v)
    ensures !Carries(es, v) && Compare(v, e) <= 0
  {
    hide Compare;
    LineDecides(v, e);
    CompareIsTotalPreorder(Line(v), Line(e), Line(e));
    assert forall g | g in es :: !OnLineOf(g, v);
  }

  /** The first patch of a line that got the change in a later patch lacks it. */
  lemma BeforeItsPatch(es: seq<Version>, e: Version)
    requires ValidEntries(es) && e in es && Compare(e, Line(e)) > 0
    ensures !Carries(es, [e[0], e[1], 0]) && Compare([e[0], e[1], 0], e) <= 0 && Line([e[0], e[1], 0]) == Line(e)
  {
    var v: Version := [e[0], e[1], 0];
    assert Line(v) == Line(e) && forall i: nat :: At(v, i) == At(Line(e), i);
    CompareMeaning(v, Line(e));
    CompareIsTotalPreorder(v, Line(e), e);
    CompareIsTotalPreorder(Line(e), v, e);
    CompareIsTotalPreorder(e, v, Line(e));
    CompareIsTotalPreorder(e, Line(e), v);
    hide Compare;
    assert OnLineOf(e, v);
    forall g | g in es && OnLineOf(g, v)
      ensures g == e
    {
      var i :| 0 <= i < |es| && es[i] == g;
      var j :| 0 <= j < |es| && es[j] == e;
    }
  }

  /** Where the list is broken, a release between one line that got the change and a newer one lacks it. */
  lemma ABreakIsLost(es: seq<Version>, e: Version, f: Version) returns (v: Version)
    requires ValidEntries(es) && e in es && f in es
    requires Compare(Line(f), Line(e)) < 0 && !FollowsOn(es, e)
    ensures |v| == 3 && Compare(Line(f), Line(v)) < 0 && Compare(v, e) <= 0 && !Carries(es, v)
  {
    hide Compare, Carries;
    LineDecides(f, e);
    if Compare(e, Line(e)) > 0 {
      v := [e[0], e[1], 0];
      BeforeItsPatch(es, e);
    } else {
      v := if e[1] == 0 then [e[0] - 1, PastMinors(es), 0] else [e[0], e[1] - 1, 0];
      assert Line(v) == [v[0], v[1]];
      forall g | g in es
        ensures Line(g) != Line(v)
      {
        assert g[0] == Line(g)[0] && g[1] == Line(g)[1];
        assert e[1] > 0 && Line(g) == Line(v) ==> FollowsOn(es, e);
      }
      LineDecides(f, v);
      LineDecides(v, e);
      BetweenLines(es, e, v);
    }
  }

  lemma OwnReleaseCarries(es: seq<Version>, e: Version)
    requires ValidEntries(es) && e in es
    ensures Carries(es, e)
  {
    hide Compare;
    CompareIsTotalPreorder(e, e, e);
    assert OnLineOf(e, e);
  }

  /** Taking a hop in steps selects each rule exactly once, whatever the steps, exactly for the rules whose
      list is unbroken. */
  lemma SplitsOnceIff(es: seq<Version>)
    requires ValidEntries(es)
    ensures (forall vs | Climb(vs) :: SplitsOnce(es, vs)) <==> Unbroken(es)
  {
    hide Compare, Carries, PatchDecision, FollowsOn, ValidEntries, SplitsOnce;
    if Unbroken(es) {
      forall vs | Climb(vs)
        ensures SplitsOnce(es, vs)
      {
        UnbrokenSplitsOnce(es, vs);
      }
    } else {
      var e, f :| e in es && f in es && Compare(Line(f), Line(e)) < 0 && !FollowsOn(es, e);
      BrokenSplitsWrong(es, e, f);
    }
  }

  lemma UnbrokenSplitsOnce(es: seq<Version>, vs: seq<Version>)
    requires ValidEntries(es) && Unbroken(es) && Climb(vs)
    ensures SplitsOnce(es, vs)
  {
    hide Compare, Carries, PatchDecision, Unbroken, ValidEntries;
    var n := |vs| - 1;
    if PatchDecision(es, vs[0], vs[n]) {
      var k := SplittingLosesNoRule(es, vs);
      assert PatchStep(es, vs, k);
    }
    ClimbEnds(vs, 0, n);
    DecisionMeaning(es, vs[0], vs[n]);
    forall k | 0 <= k < n && PatchStep(es, vs, k)
      ensures PatchDecision(es, vs[0], vs[n])
      ensures forall j | 0 <= j < k :: !PatchStep(es, vs, j)
    {
      DecisionMeaning(es, vs[k], vs[k + 1]);
      ClimbEnds(vs, k + 1, n);
      CarriedStays(es, vs[k + 1], vs[n]);
      ClimbEnds(vs, 0, k);
      if Carries(es, vs[0]) {
        CarriedStays(es, vs[0], vs[k]);
      }
      forall j | 0 <= j < k
        ensures !PatchStep(es, vs, j)
      {
        DecisionMeaning(es, vs[j], vs[j + 1]);
        ClimbEnds(vs, j + 1, k);
        if Carries(es, vs[j + 1]) {
          CarriedStays(es, vs[j + 1], vs[k]);
        }
      }
    }
  }

  lemma BrokenSplitsWrong(es: seq<Version>, e: Version, f: Version)
    requires ValidEntries(es) && e in es && f in es
    requires Compare(Line(f), Line(e)) < 0 && !FollowsOn(es, e)
    ensures exists vs :: Climb(vs) && !SplitsOnce(es, vs)
  {
    hide Compare, Carries, PatchDecision, FollowsOn;
    var v := ABreakIsLost(es, e, f);
    var vs := [f, v, e];
    LineDecides(f, v);
    assert Climb(vs);
    OwnReleaseCarries(es, f);
    OwnReleaseCarries(es, e);
    DecisionMeaning(es, f, e);
    DecisionMeaning(es, v, e);
    assert PatchStep(es, vs, 1);
  }

  /** Between any two readable versions, forward or backward, selection is "the destination carries it, the
      origin does not" exactly for the rules whose list is unbroken. */
  lemma DifferenceIff(es: seq<Version>)
    requires ValidEntries(es)
    ensures (forall i, r | |i| >= 2 && |r| >= 2 ::
               PatchDecision(es, i, r) <==> DestinationCarries(es, r) && !Carries(es, i)) <==> Unbroken(es)
  {
    hide Compare, Carries, PatchDecision, FollowsOn, ValidEntries;
    if Unbroken(es) {
      forall i, r | |i| >= 2 && |r| >= 2
        ensures PatchDecision(es, i, r) <==> DestinationCarries(es, r) && !Carries(es, i)
      {
        DecisionMeaning(es, i, r);
        if DestinationCarries(es, r) && !Forward(i, r) {
          DestinationStays(es, i, r);
        }
      }
    } else {
      var e, f :| e in es && f in es && Compare(Line(f), Line(e)) < 0 && !FollowsOn(es, e);
      BrokenGoesBack(es, e, f);
    }
  }

  /** Behind a destination that carries the change, so does the origin. */
  lemma DestinationStays(es: seq<Version>, i: Version, r: Version)
    requires ValidEntries(es) && Unbroken(es) && |i| >= 2 && |r| >= 2
    requires DestinationCarries(es, r) && !Forward(i, r)
    ensures Carries(es, i)
  {
    hide Compare, Carries;
    CompareIsTotalPreorder(i, r, r);
    LineDecides(r, i);
    if |r| == 2 {
      assert Line(r) == r;
      CompareIsTotalPreorder(Line(i), r, r);
      if e :| e in es && OnLineOf(e, r) {
        OwnReleaseCarries(es, e);
        LineDecides(e, i);
        CarriedStays(es, e, i);
        return;
      }
    }
    CarriedStays(es, r, i);
  }

  lemma BrokenGoesBack(es: seq<Version>, e: Version, f: Version)
    requires ValidEntries(es) && e in es && f in es
    requires Compare(Line(f), Line(e)) < 0 && !FollowsOn(es, e)
    ensures exists i, r ::
              |i| >= 3 && |r| >= 3 && DestinationCarries(es, r) && !Carries(es, i) && !PatchDecision(es, i, r)
  {
    hide Compare, Carries, PatchDecision, FollowsOn;
    var v := ABreakIsLost(es, e, f);
    OwnReleaseCarries(es, f);
    LineDecides(f, v);
    CompareIsTotalPreorder(f, v, f);
    DecisionMeaning(es, v, f);
  }

  /** With backports a change can be gained, lost and gained again, so two steps may select one rule,
      and a step may select a rule the whole hop does not. */
  lemma BackportsAreSelectedTwice(applies: string)
    ensures WellFormed(BackportTexts(), Itoa(3) + "." + Itoa(7)) && !Unbroken(ParseAll(BackportTexts()))
    ensures InHop(applies, BackportTexts(), PatchText(3, 6, 0), PatchText(3, 6, 25))
    ensures InHop(applies, BackportTexts(), PatchText(3, 7, 5), PatchText(3, 7, 10))
    ensures !InHop(applies, BackportTexts(), PatchText(3, 6, 25), PatchText(3, 7, 10))
  {
    hide Compare, Parse, PatchDecision, Unbroken, WellFormed, InHop, PatchText, Itoa;
    BackportIsAccepted();
    BackportDecisions();
    BackportIsBroken();
    BackportHop(applies, [3, 6, 0], [3, 6, 25]);
    BackportHop(applies, [3, 7, 5], [3, 7, 10]);
    BackportHop(applies, [3, 6, 25], [3, 7, 10]);
  }

  lemma BackportDecisions()
    ensures PatchDecision(Backport(), [3, 6, 0], [3, 6, 25])
    ensures PatchDecision(Backport(), [3, 7, 5], [3, 7, 10])
    ensures !PatchDecision(Backport(), [3, 6, 25], [3, 7, 10])
  {
    hide Compare, Carries, PatchDecision;
    BackportIsValid();
    BackportCarries(6, 0);
    BackportCarries(6, 25);
    BackportCarries(7, 5);
    BackportCarries(7, 10);
    assert [3, 6, 0][..2] == [3, 6, 25][..2] && [3, 7, 5][..2] == [3, 7, 10][..2];
    SameLineCompare([3, 6, 0], [3, 6, 25]);
    SameLineCompare([3, 7, 5], [3, 7, 10]);
    DecisionMeaning(Backport(), [3, 6, 0], [3, 6, 25]);
    DecisionMeaning(Backport(), [3, 7, 5], [3, 7, 10]);
    DecisionMeaning(Backport(), [3, 6, 25], [3, 7, 10]);
  }

  lemma BackportIsBroken()
    ensures !Unbroken(Backport())
  {
    hide Compare, Carries;
    BackportIsValid();
    BackportCarries(6, 25);
    BackportCarries(7, 5);
    LineDecides([3, 6, 25], [3, 7, 5]);
    assert Line([3, 6, 25]) == [3, 6] && Line([3, 7, 5]) == [3, 7];
    if Unbroken(Backport()) {
      CarriedStays(Backport(), [3, 6, 25], [3, 7, 5]);
    }
  }

  ghost predicate WindowStep(applies: Version, vs: seq<Version>, k: nat)
    requires k < |vs| - 1
  {
    InMinorWindow(applies, vs[k], vs[k + 1])
  }

  /** Without patch releases, the whole hop selects a rule exactly when one step does, and no two do. */
  lemma MinorWindowSplitsOnce(applies: Version, vs: seq<Version>)
    requires Climb(vs)
    ensures InMinorWindow(applies, vs[0], vs[|vs| - 1]) <==> exists k | 0 <= k < |vs| - 1 :: WindowStep(applies, vs, k)
    ensures forall j, k | 0 <= j < k < |vs| - 1 :: !(WindowStep(applies, vs, j) && WindowStep(applies, vs, k))
  {
    hide Compare;
    if |applies| >= 2 {
      if InMinorWindow(applies, vs[0], vs[|vs| - 1]) {
        var k := FirstLineReaching(applies, vs);
        assert WindowStep(applies, vs, k);
      }
      forall k | 0 <= k < |vs| - 1 && WindowStep(applies, vs, k)
        ensures InMinorWindow(applies, vs[0], vs[|vs| - 1])
        ensures forall j | 0 <= j < k :: !WindowStep(applies, vs, j)
      {
        LinesClimb(applies, vs, 0, k);
        LinesClimb(applies, vs, k + 1, |vs| - 1);
        forall j | 0 <= j < k
          ensures !WindowStep(applies, vs, j)
        {
          LinesClimb(applies, vs, j + 1, k);
        }
      }
    }
  }

  /** Lines only rise along a climb, so a rule past a later line is past an earlier one. */
  lemma LinesClimb(applies: Version, vs: seq<Version>, i: nat, j: nat)
    requires Climb(vs) && i <= j < |vs|
    ensures Compare(applies, Line(vs[j])) > 0 ==> Compare(applies, Line(vs[i])) > 0
  {
    hide Compare;
    ClimbEnds(vs, i, j);
    LineDecides(vs[i], vs[j]);
    CompareIsTotalPreorder(applies, Line(vs[i]), Line(vs[j]));
  }

  lemma {:induction false} FirstLineReaching(applies: Version, vs: seq<Version>) returns (k: nat)
    requires Climb(vs) && InMinorWindow(applies, vs[0], vs[|vs| - 1])
    ensures k < |vs| - 1 && WindowStep(applies, vs, k)
    decreases |vs|
  {
    hide Compare;
    if Compare(applies, Line(vs[1])) <= 0 {
      k := 0;
    } else {
      k := FirstLineReaching(applies, vs[1..]);
      k := k + 1;
    }
  }

  lemma FirstPatchCarries(x: nat, y: nat, v: Version)
    requires |v| >= 2
    ensures Carries([[x, y, 0]], v) <==> Compare([x, y], Line(v)) <= 0
    ensures DestinationCarries([[x, y, 0]], v) <==> Compare([x, y], Line(v)) <= 0
  {
    var e: Version := [x, y, 0];
    assert Line(e) == [x, y] && e in [e];
    LineDecides(e, v);
    if Line(v) == [x, y] {
      assert v[0] == Line(v)[0] && v[1] == Line(v)[1];
      CompareMeaning(e, v);
    }
  }

  /** The minor window of a rule filed under x.y is patch mode with the single entry x.y.0. */
  lemma MinorWindowIsFirstPatch(x: nat, y: nat, installed: Version, required: Version)
    ensures InMinorWindow([x, y], installed, required) <==> PatchDecision([[x, y, 0]], installed, required)
  {
    hide Compare, Carries, DestinationCarries, PatchDecision;
    DecisionMeaning([[x, y, 0]], installed, required);
    if |installed| >= 2 {
      FirstPatchCarries(x, y, installed);
    }
    if |required| >= 2 {
      FirstPatchCarries(x, y, required);
    }
    if |installed| >= 2 && |required| >= 2 {
      LineDecides(installed, required);
      CompareIsTotalPreorder(Line(installed), [x, y], Line(required));
      CompareIsTotalPreorder([x, y], Line(installed), Line(installed));
      if |required| == 2 {
        assert Line(required) == required;
      }
    }
  }
}
