/** Kubernetes versions: the sortable minor key, its printed forms, and the upgrade ladders. */
module KubeVersions {
  import opened Text

  const LATEST_KNOWN_MINOR := "1.37"

  datatype Minor = Minor(major: nat, minor: nat)

  function MajorMinor(version: string): Option<Minor> {
    var s := TrimPrefix(TrimSpace(version), "v");
    if s == "" then None
    else
      var parts := Split(CutAtAny(s, "-+_ "), '.');
      if |parts| < 2 then None
      else match (Atoi(TrimSuffix(parts[0], "+")), Atoi(TrimSuffix(parts[1], "+")))
        case (Some(major), Some(minor)) => Some(Minor(major, minor))
        case _ => None
  }

  /** 1033 for "1.33"; 0 means unknown. */
  function MinorKey(version: string): nat {
    match MajorMinor(version)
    case None => 0
    case Some(m) => m.major * 1000 + m.minor
  }

  function PrintMinor(major: nat, minor: nat): string {
    Itoa(major) + "." + Itoa(minor)
  }

  function MinorOf(version: string): string {
    match MajorMinor(version)
    case None => ""
    case Some(m) => PrintMinor(m.major, m.minor)
  }

  function NextMinor(version: string): string {
    match MajorMinor(version)
    case None => ""
    case Some(m) => PrintMinor(m.major, m.minor + 1)
  }

  function MinorSkew(current: string, target: string): Option<int> {
    var c, t := MinorKey(current), MinorKey(target);
    if c == 0 || t == 0 then None else Some(t - c)
  }

  // ---------- printing and parsing ----------

  lemma MajorMinorInRange(version: string)
    ensures MajorMinor(version).Some? ==>
              MajorMinor(version).value.major <= MAX_INT && MajorMinor(version).value.minor <= MAX_INT
  {
  }

  lemma PrintedIsClean(major: nat, minor: nat)
    ensures var s := PrintMinor(major, minor);
            TrimSpace(s) == s && TrimPrefix(s, "v") == s != "" && CutAtAny(s, "-+_ ") == s &&
            Split(s, '.') == [Itoa(major), Itoa(minor)]
  {
    hide Itoa, TrimSpace, TrimPrefix, CutAtAny, Split;
    CleanText(PrintMinor(major, minor), "-+_ ");
    SplitMinor(major, minor);
  }

  lemma NoPlus(n: nat)
    ensures TrimSuffix(Itoa(n), "+") == Itoa(n)
  {
    assert Itoa(n)[|Itoa(n)| - 1] in Itoa(n);
  }

  /** A printed minor reads back as itself, and only a number out of Atoi's range spoils it. */
  lemma ParsePrintedMinor(major: nat, minor: nat)
    ensures MajorMinor(PrintMinor(major, minor)) ==
            if major <= MAX_INT && minor <= MAX_INT then Some(Minor(major, minor)) else None
  {
    hide Itoa, PrintMinor, TrimSpace, TrimPrefix, TrimSuffix, CutAtAny, Split;
    PrintedIsClean(major, minor);
    NoPlus(major);
    NoPlus(minor);
    AtoiItoa(major);
    AtoiItoa(minor);
  }

  /** Printing keeps the key, and the next minor's key is one higher exactly when the version
      reads and its minor is not already the largest Atoi accepts. */
  lemma PrintThenParse(version: string)
    ensures MinorKey(MinorOf(version)) == MinorKey(version)
    ensures MinorOf(MinorOf(version)) == MinorOf(version)
    ensures MinorKey(NextMinor(version)) == MinorKey(version) + 1 <==>
            MajorMinor(version).Some? && MajorMinor(version).value.minor < MAX_INT
  {
    hide MajorMinor, PrintMinor;
    MajorMinorInRange(version);
    match MajorMinor(version)
    case None => EmptyReads();
    case Some(m) =>
      ParsePrintedMinor(m.major, m.minor);
      ParsePrintedMinor(m.major, m.minor + 1);
  }

  lemma EmptyReads()
    ensures MajorMinor("") == None
  {
  }

  lemma PrintedKey(major: nat, minor: nat)
    requires major <= MAX_INT && minor <= MAX_INT
    ensures MinorKey(PrintMinor(major, minor)) == major * 1000 + minor
  {
    hide MajorMinor, PrintMinor;
    ParsePrintedMinor(major, minor);
  }

  lemma EmptyHasNoKey()
    ensures MinorKey("") == 0
  {
  }

  /** How a version is written: "v1.33.2", "1.33+" and "v1.33.1-eks-abc" all read as the minor they name, and
      a major version alone as nothing. */
  lemma WrittenMinorReads(lead: string, mark: string, numbers: seq<nat>, odd: Option<string>, rest: string)
    requires AllSpace(lead) && (mark == "" || mark == "v")
    requires numbers != [] && forall n | n in numbers :: n <= MAX_INT
    requires IsOdd(odd, "-+_ ") && Trails(rest, "-+_ ")
    ensures MajorMinor(lead + mark + (Dotted(numbers) + Odd(odd)) + rest) ==
            if |numbers| >= 2 then Some(Minor(numbers[0], numbers[1])) else None
  {
    hide Itoa, Atoi, TrimSpace, TrimPrefix, TrimSuffix, CutAtAny, Split, Dotted, IsSpace, MajorMinor;
    DottedIsClean(numbers);
    PlainAreNoSpace();
    var text := lead + mark + (Dotted(numbers) + Odd(odd)) + rest;
    Undecorated(lead, mark, Dotted(numbers) + Odd(odd), rest, "-+_ ");
    SplitDotted(numbers, odd);
    MajorMinorIs(text, Dotted(numbers) + Odd(odd));
    var parts := Itoas(numbers) + OddParts(odd);
    assert parts[0] == Itoa(numbers[0]) && numbers[0] in numbers;
    AtoiItoa(numbers[0]);
    NoPlus(numbers[0]);
    if |numbers| >= 2 {
      assert parts[1] == Itoa(numbers[1]) && numbers[1] in numbers;
      AtoiItoa(numbers[1]);
      NoPlus(numbers[1]);
    } else if odd.Some? {
      FirstPartIsPrefix(odd.value, '.');
      assert parts[1] == odd.value[..|parts[1]|] && '+' in "-+_ ";
      assert forall c | c in parts[1] :: c in odd.value;
      NoTrailingPlus(parts[1]);
    }
  }

  lemma MajorMinorIs(version: string, body: string)
    requires body != "" && CutAtAny(TrimPrefix(TrimSpace(version), "v"), "-+_ ") == body
    ensures MajorMinor(version) ==
            var parts := Split(body, '.');
            if |parts| < 2 then None
            else match (Atoi(TrimSuffix(parts[0], "+")), Atoi(TrimSuffix(parts[1], "+")))
              case (Some(major), Some(minor)) => Some(Minor(major, minor))
              case _ => None
  {
    hide Atoi, TrimSpace, TrimPrefix, TrimSuffix, Split;
  }

  lemma PlainAreNoSpace()
    ensures forall c | IsDigit(c) || c == '.' :: !IsSpace(c)
  {
  }

  lemma NoTrailingPlus(w: string)
    requires '+' !in w
    ensures TrimSuffix(w, "+") == w
  {
    if w != "" {
      assert w[|w| - 1] in w;
    }
  }

  // ---------- ladders ----------

  /** The consecutive minors major.from .. major.(from + count - 1), as text. */
  function Ladder(major: nat, from: nat, count: nat): (hops: seq<string>)
    ensures |hops| == count
    ensures forall k | 0 <= k < count :: hops[k] == PrintMinor(major, from + k)
  {
    seq(count, k requires 0 <= k < count => PrintMinor(major, from + k))
  }

  function Clamp(n: int, lo: int, hi: int): int {
    if n < lo then lo else if n > hi then hi else n
  }

  lemma LadderGrows(major: nat, from: nat, count: nat)
    ensures Ladder(major, from, count) + [PrintMinor(major, from + count)] == Ladder(major, from, count + 1)
  {
  }

  lemma PrintedStep(version: string, major: nat, minor: nat)
    requires MajorMinor(version) == Some(Minor(major, minor)) && minor < MAX_INT
    ensures NextMinor(version) == PrintMinor(major, minor + 1) != ""
    ensures MajorMinor(NextMinor(version)) == Some(Minor(major, minor + 1))
    ensures MinorKey(NextMinor(version)) == major * 1000 + minor + 1
  {
    hide MajorMinor, PrintMinor;
    MajorMinorInRange(version);
    PrintedIsClean(major, minor + 1);
    ParsePrintedMinor(major, minor + 1);
  }

  lemma UnreadablePrintsNothing(version: string)
    requires MajorMinor(version).None?
    ensures MinorOf(version) == NextMinor(version) == "" && MinorKey(version) == 0
  {
  }

  /** How many steps the plan takes: by the difference of the keys, at least one and at most twelve. */
  function Steps(current: string, target: string): int {
    Clamp(MinorKey(target) - MinorKey(current), 1, 12)
  }

  /** The steps stay below the largest int. */
  predicate HasRoom(current: string, target: string) {
    MajorMinor(current).Some? && MajorMinor(current).value.minor + Steps(current, target) <= MAX_INT
  }

  function LastOf(from: string, versions: seq<string>): string {
    if versions == [] then from else versions[|versions| - 1]
  }

  /** Every version is the next minor after the one before it, the first one after `from`. */
  ghost predicate Follow(from: string, versions: seq<string>) {
    forall k | 0 <= k < |versions| :: versions[k] == NextMinor(LastOf(from, versions[..k])) != ""
  }

  lemma FollowsOn(from: string, versions: seq<string>)
    requires Follow(from, versions) && NextMinor(LastOf(from, versions)) != ""
    ensures Follow(from, versions + [NextMinor(LastOf(from, versions))])
  {
    hide NextMinor, LastOf;
    var more := versions + [NextMinor(LastOf(from, versions))];
    forall k | 0 <= k < |more|
      ensures more[k] == NextMinor(LastOf(from, more[..k])) != ""
    {
      assert more[..k] == versions[..k];
      assert versions[..|versions|] == versions;
    }
  }

  lemma NothingFollows(from: string)
    ensures Follow(from, [])
  {
  }

  /** Every minor from current to target, at most twelve steps and at least one: on any input it steps until
      the target is reached or there is no next minor, and where ints do not overflow it is the ladder. */
  method HopsBetween(current: string, target: string) returns (hops: seq<string>)
    ensures |hops| >= 1 && hops[0] == MinorOf(current) && Follow(current, hops[1..])
    ensures forall k | 1 <= k < |hops| - 1 :: MinorKey(hops[k]) < MinorKey(target)
    ensures |hops| == 13 || NextMinor(LastOf(current, hops[1..])) == "" ||
            (1 < |hops| < 13 && MinorKey(hops[|hops| - 1]) >= MinorKey(target))
    ensures MajorMinor(current).None? ==> hops == [""]
    ensures HasRoom(current, target) ==>
              var m := MajorMinor(current).value;
              hops == Ladder(m.major, m.minor, 1 + Steps(current, target))
  {
    hide MajorMinor, NextMinor, PrintMinor, Follow;
    NothingFollows(current);
    hops := [MinorOf(current)];
    assert hops[1..] == [];
    var next := current;
    ghost var start := MajorMinor(current);
    ghost var room := HasRoom(current, target);
    if start.None? {
      UnreadablePrintsNothing(current);
    }
    for i := 0 to 12
      invariant |hops| == i + 1 && hops[0] == MinorOf(current)
      invariant next == LastOf(current, hops[1..]) && Follow(current, hops[1..])
      invariant forall k | 1 <= k <= i :: MinorKey(hops[k]) < MinorKey(target)
      invariant start.None? ==> i == 0
      invariant room ==>
                  && MajorMinor(next) == Some(Minor(start.value.major, start.value.minor + i))
                  && hops == Ladder(start.value.major, start.value.minor, i + 1)
                  && (i > 0 ==> MinorKey(target) - MinorKey(current) > i)
    {
      if room {
        PrintedStep(next, start.value.major, start.value.minor + i);
        LadderGrows(start.value.major, start.value.minor, i + 1);
      }
      next := NextMinor(next);
      if next == "" {
        break;
      }
      FollowsOn(current, hops[1..]);
      assert (hops + [next])[1..] == hops[1..] + [next];
      hops := hops + [next];
      if MinorKey(next) >= MinorKey(target) {
        break;
      }
    }
  }

  /** Texts of minors are equal only for equal minors. */
  lemma PrintedApart(major: nat, minor: nat, major': nat, minor': nat)
    ensures PrintMinor(major, minor) == PrintMinor(major', minor') <==> major == major' && minor == minor'
  {
    hide Itoa;
    SplitMinor(major, minor);
    SplitMinor(major', minor');
    assert [Itoa(major), Itoa(minor)][0] == Itoa(major) && [Itoa(major), Itoa(minor)][1] == Itoa(minor);
    assert [Itoa(major'), Itoa(minor')][0] == Itoa(major') && [Itoa(major'), Itoa(minor')][1] == Itoa(minor');
  }

  /** The ladder ends at the target exactly when the path is one of the twelve-step, same-major kind, and
      there is always room for those. */
  lemma LadderReachesTarget(current: string, target: string)
    requires MajorMinor(current).Some? && MajorMinor(target).Some?
    ensures var m, t := MajorMinor(current).value, MajorMinor(target).value;
            var hops := Ladder(m.major, m.minor, 1 + Steps(current, target));
            && hops[0] == MinorOf(current)
            && (hops[|hops| - 1] == MinorOf(target) <==> m.major == t.major && 1 <= t.minor - m.minor <= 12)
            && (m.major == t.major && 1 <= t.minor - m.minor <= 12 ==> HasRoom(current, target))
  {
    hide MajorMinor, PrintMinor;
    var m, t := MajorMinor(current).value, MajorMinor(target).value;
    PrintedApart(m.major, m.minor + Steps(current, target), t.major, t.minor);
    MajorMinorInRange(target);
  }

  /** Every minor past current, up to the catalog ceiling and twelve entries: on any input it steps until one
      of those stops it, and where ints do not overflow it is a ladder. */
  method UpgradeTargets(current: string) returns (out: seq<string>)
    ensures MinorKey(current) == 0 ==> out == []
    ensures Follow(current, out) && |out| <= 12
    ensures forall k | 0 <= k < |out| :: MinorKey(out[k]) <= MinorKey(LATEST_KNOWN_MINOR)
    ensures MinorKey(current) > 0 ==>
              || |out| == 12 || NextMinor(LastOf(current, out)) == ""
              || MinorKey(NextMinor(LastOf(current, out))) > MinorKey(LATEST_KNOWN_MINOR)
    ensures MinorKey(current) > 0 && MajorMinor(current).value.minor < MAX_INT ==>
              var m := MajorMinor(current).value;
              out == Ladder(m.major, m.minor + 1, Clamp(MinorKey(LATEST_KNOWN_MINOR) - MinorKey(current), 0, 12))
  {
    hide MajorMinor, NextMinor, PrintMinor, Follow;
    NothingFollows(current);
    var key: int := MinorKey(current);
    if key == 0 {
      return [];
    }
    var ceiling: int := MinorKey(LATEST_KNOWN_MINOR);
    CeilingKey();
    out := [];
    ghost var m := MajorMinor(current).value;
    ghost var inRange := m.minor < MAX_INT;
    var next := NextMinor(current);
    if inRange {
      PrintedStep(current, m.major, m.minor);
    }
    while next != "" && MinorKey(next) <= ceiling && |out| < 12
      invariant |out| <= 12
      invariant Follow(current, out) && next == NextMinor(LastOf(current, out))
      invariant forall k | 0 <= k < |out| :: MinorKey(out[k]) <= ceiling
      invariant inRange ==> next == PrintMinor(m.major, m.minor + 1 + |out|) != ""
      invariant inRange ==> MajorMinor(next) == Some(Minor(m.major, m.minor + 1 + |out|))
      invariant inRange ==> out == Ladder(m.major, m.minor + 1, |out|)
      invariant inRange ==> |out| <= Clamp(ceiling - key, 0, 12)
      decreases 12 - |out|
    {
      if inRange {
        LadderGrows(m.major, m.minor + 1, |out|);
        PrintedStep(next, m.major, m.minor + 1 + |out|);
      }
      FollowsOn(current, out);
      out := out + [next];
      next := NextMinor(next);
    }
  }

  lemma CeilingKey()
    ensures MinorKey(LATEST_KNOWN_MINOR) == 1037
  {
    assert LATEST_KNOWN_MINOR == PrintMinor(1, 37);
    ParsePrintedMinor(1, 37);
  }
}
