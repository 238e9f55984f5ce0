/** Add-on versions: parsing, printing at minor precision, and the zero-padded order. */
module AddonVersions {
  import opened Text

  /** The numeric parts of a version. Fewer than two parts is "not parseable". */
  type Version = seq<nat>

  function NumericPrefix(parts: seq<string>): Version {
    if parts == [] then []
    else match Atoi(parts[0])
      case None => []
      case Some(n) => [n] + NumericPrefix(parts[1..])
  }

  /** The text left once surrounding space, a leading "v" and any suffix are gone. */
  function Core(version: string): string {
    CutAtAny(TrimPrefix(TrimSpace(version), "v"), "-+_")
  }

  function Parse(version: string): Version {
    if Core(version) == "" then [] else NumericPrefix(Split(Core(version), '.'))
  }

  method Components(version: string) returns (out: Version)
    ensures out == Parse(version)
  {
    var s := CutAtAny(TrimPrefix(TrimSpace(version), "v"), "-+_");
    if s == "" {
      return [];
    }
    out := [];
    var parts := Split(s, '.');
    for i := 0 to |parts|
      invariant NumericPrefix(parts) == out + NumericPrefix(parts[i..])
    {
      assert parts[i..][1..] == parts[i + 1..];
      match Atoi(parts[i]) {
        case None => return;
        case Some(n) => out := out + [n];
      }
    }
  }

  predicate IsParseable(version: string) {
    |Parse(version)| >= 2
  }

  function Specificity(version: string): nat {
    |Parse(version)|
  }

  /** Component i, with zeros past the end. */
  function At(v: Version, i: nat): nat {
    if i < |v| then v[i] else 0
  }

  /** The sign of the first difference at or after i. */
  function CompareFrom(a: Version, b: Version, i: nat): int
    decreases |a| + |b| - i
  {
    if i >= |a| && i >= |b| then 0
    else if At(a, i) < At(b, i) then -1
    else if At(a, i) > At(b, i) then 1
    else CompareFrom(a, b, i + 1)
  }

  /** The order on parsed versions; an empty one sorts below everything. */
  function Compare(a: Version, b: Version): int {
    if a == [] && b == [] then 0
    else if a == [] then -1
    else if b == [] then 1
    else CompareFrom(a, b, 0)
  }

  function VersionOrder(a: string, b: string): int {
    Compare(Parse(a), Parse(b))
  }

  method CompareVersions(a: string, b: string) returns (c: int)
    ensures c == VersionOrder(a, b)
  {
    var ca := Components(a);
    var cb := Components(b);
    if |ca| == 0 && |cb| == 0 {
      return 0;
    } else if |ca| == 0 {
      return -1;
    } else if |cb| == 0 {
      return 1;
    }
    var n := if |cb| > |ca| then |cb| else |ca|;
    for i := 0 to n
      invariant CompareFrom(ca, cb, 0) == CompareFrom(ca, cb, i)
    {
      var x, y := 0, 0;
      if i < |ca| {
        x := ca[i];
      }
      if i < |cb| {
        y := cb[i];
      }
      if x != y {
        if x < y {
          return -1;
        }
        return 1;
      }
    }
    return 0;
  }

  predicate PrefixOf(p: Version, v: Version) {
    p != [] && p <= v
  }

  method IsPrefixOf(prefix: string, version: string) returns (r: bool)
    ensures r == PrefixOf(Parse(prefix), Parse(version))
  {
    var cp := Components(prefix);
    var cv := Components(version);
    if |cp| == 0 || |cp| > |cv| {
      return false;
    }
    for i := 0 to |cp|
      invariant cp[..i] == cv[..i]
    {
      if cv[i] != cp[i] {
        return false;
      }
      assert cp[..i + 1] == cp[..i] + [cp[i]] && cv[..i + 1] == cv[..i] + [cv[i]];
    }
    return true;
  }

  /** The release line of a version: its first two parts, or nothing when it does not parse. */
  function Line(v: Version): Version {
    if |v| < 2 then [] else v[..2]
  }

  function AddonMinor(version: string): string {
    var c := Parse(version);
    if |c| < 2 then "" else Itoa(c[0]) + "." + Itoa(c[1])
  }

  predicate AtOrPast(latest: string, installed: string) {
    VersionOrder(latest, installed) <= 0 ||
    (var i, l := Parse(installed), Parse(latest);
     |i| == 2 && |l| >= 2 && i[0] == l[0] && i[1] == l[1])
  }

  // ---------- the order ----------

  /** a and b read as the same number once padded with zeros. */
  ghost predicate Same(a: Version, b: Version) {
    forall i: nat :: At(a, i) == At(b, i)
  }

  /** a falls below b at the first place they differ. */
  ghost predicate Below(a: Version, b: Version) {
    exists k: nat :: At(a, k) < At(b, k) && SameUpTo(a, b, k)
  }

  ghost predicate SameUpTo(a: Version, b: Version, k: nat) {
    forall j: nat | j < k :: At(a, j) == At(b, j)
  }

  lemma {:induction false} CompareFromMeaning(a: Version, b: Version, i: nat)
    requires SameUpTo(a, b, i)
    ensures CompareFrom(a, b, i) < 0 ==> Below(a, b)
    ensures CompareFrom(a, b, i) == 0 ==> Same(a, b)
    ensures CompareFrom(a, b, i) > 0 ==> Below(b, a)
    ensures CompareFrom(a, b, i) in {-1, 0, 1}
    decreases |a| + |b| - i
  {
    if i >= |a| && i >= |b| {
    } else if At(a, i) != At(b, i) {
      assert SameUpTo(b, a, i);
    } else {
      CompareFromMeaning(a, b, i + 1);
    }
  }

  lemma Exclusive(a: Version, b: Version)
    ensures !(Below(a, b) && Same(a, b))
    ensures !(Below(a, b) && Below(b, a))
  {
  }

  /** For versions with at least one part, the comparison is the sign of the first padded difference. */
  lemma CompareMeaning(a: Version, b: Version)
    requires a != [] && b != []
    ensures Compare(a, b) < 0 <==> Below(a, b)
    ensures Compare(a, b) == 0 <==> Same(a, b)
    ensures Compare(a, b) > 0 <==> Below(b, a)
  {
    CompareFromMeaning(a, b, 0);
    Exclusive(a, b);
    Exclusive(b, a);
  }

  lemma BelowTransitive(a: Version, b: Version, c: Version)
    requires Below(a, b) || Same(a, b)
    requires Below(b, c) || Same(b, c)
    ensures if Below(a, b) || Below(b, c) then Below(a, c) else Same(a, c)
  {
    if Below(a, b) || Below(b, c) {
      var k: nat :| Below(a, b) ==> At(a, k) < At(b, k) && SameUpTo(a, b, k);
      var m: nat :| Below(b, c) ==> At(b, m) < At(c, m) && SameUpTo(b, c, m);
      var least := if !Below(b, c) then k else if !Below(a, b) || m < k then m else k;
      assert SameUpTo(a, c, least);
      assert At(a, least) < At(c, least);
    }
  }

  /** Comparing is a total preorder, whatever the three lengths, with unparsed versions at the bottom. */
  lemma CompareIsTotalPreorder(a: Version, b: Version, c: Version)
    ensures Compare(a, a) == 0
    ensures Compare(a, b) == -Compare(b, a)
    ensures Compare(a, b) <= 0 && Compare(b, c) <= 0 ==>
              Compare(a, c) <= 0 && (Compare(a, c) == 0 <==> Compare(a, b) == 0 && Compare(b, c) == 0)
    ensures Compare([], a) <= 0 && (Compare([], a) == 0 <==> a == [])
  {
    if a != [] {
      CompareMeaning(a, a);
      if b != [] {
        CompareMeaning(a, b);
        CompareMeaning(b, a);
        CompareFromMeaning(a, b, 0);
        CompareFromMeaning(b, a, 0);
        if c != [] && Compare(a, b) <= 0 && Compare(b, c) <= 0 {
          CompareMeaning(b, c);
          CompareMeaning(a, c);
          BelowTransitive(a, b, c);
        }
      }
    }
  }

  /** A non-empty prefix never exceeds the version it prefixes. */
  lemma PrefixAtMost(p: Version, v: Version)
    requires PrefixOf(p, v)
    ensures Compare(p, v) <= 0
  {
    CompareMeaning(p, v);
  }

  /** Rows that prefix one version form a chain, so the longest is unique. */
  lemma PrefixesFormAChain(p: Version, q: Version, v: Version)
    requires PrefixOf(p, v) && PrefixOf(q, v)
    ensures |p| <= |q| ==> PrefixOf(p, q)
    ensures |p| == |q| ==> p == q
  {
    assert p == v[..|p|] && q == v[..|q|];
  }

  // ---------- release lines ----------

  /** The order on versions refines the order on their release lines. */
  lemma LineDecides(a: Version, b: Version)
    requires |a| >= 2 && |b| >= 2
    ensures Compare(Line(a), Line(b)) < 0 ==> Compare(a, b) < 0
    ensures Compare(Line(a), Line(b)) == 0 <==> Line(a) == Line(b)
    ensures Compare(a, b) <= 0 ==> Compare(Line(a), Line(b)) <= 0
    ensures Compare(Line(a), Line(b)) == (if a[0] != b[0] then (if a[0] < b[0] then -1 else 1)
                                          else if a[1] != b[1] then (if a[1] < b[1] then -1 else 1) else 0)
  {
    var la, lb := Line(a), Line(b);
    assert CompareFrom(la, lb, 2) == 0;
    assert CompareFrom(la, lb,
        0) == if la[0] != lb[0] then (if la[0] < lb[0] then -1 else 1) else CompareFrom(la, lb, 1);
    assert CompareFrom(a, b, 0) == if a[0] != b[0] then (if a[0] < b[0] then -1 else 1) else CompareFrom(a, b, 1);
    assert CompareFrom(a, b, 1) == if a[1] != b[1] then (if a[1] < b[1] then -1 else 1) else CompareFrom(a, b, 2);
  }

  // ---------- printing and parsing ----------

  lemma {:induction false} NumericPrefixInRange(parts: seq<string>)
    ensures forall n | n in NumericPrefix(parts) :: n <= MAX_INT
  {
    if parts != [] && Atoi(parts[0]).Some? {
      NumericPrefixInRange(parts[1..]);
    }
  }

  /** Text of the form "x.y" parses to [x, y]. */
  lemma ParseMinor(x: nat, y: nat)
    requires x <= MAX_INT && y <= MAX_INT
    ensures Parse(Itoa(x) + "." + Itoa(y)) == [x, y]
  {
    hide Itoa, Atoi, TrimSpace, TrimPrefix, CutAtAny, Split;
    CleanText(Itoa(x) + "." + Itoa(y), "-+_");
    SplitMinor(x, y);
    AtoiItoa(x);
    AtoiItoa(y);
    var parts := [Itoa(x), Itoa(y)];
    assert parts[1..] == [Itoa(y)] && parts[1..][1..] == [];
    assert NumericPrefix(parts[1..]) == [y] + NumericPrefix(parts[1..][1..]) == [y];
  }

  function PatchText(x: nat, y: nat, z: nat): string {
    Itoa(x) + "." + (Itoa(y) + "." + Itoa(z))
  }

  lemma ParsePatch(x: nat, y: nat, z: nat)
    requires x <= MAX_INT && y <= MAX_INT && z <= MAX_INT
    ensures Parse(PatchText(x, y, z)) == [x, y, z]
  {
    hide Itoa, Atoi, TrimSpace, TrimPrefix, CutAtAny, Split;
    CleanText(PatchText(x, y, z), "-+_");
    SplitHead(Itoa(x), '.', Itoa(y) + "." + Itoa(z));
    SplitMinor(y, z);
    AtoiItoa(x);
    AtoiItoa(y);
    AtoiItoa(z);
    var parts := [Itoa(x), Itoa(y), Itoa(z)];
    assert parts[1..] == [Itoa(y), Itoa(z)] && parts[1..][1..] == [Itoa(z)] && [Itoa(z)][1..] == [];
    assert NumericPrefix([Itoa(z)]) == [z];
    assert NumericPrefix(parts[1..]) == [y, z];
  }

  lemma {:induction false} PrefixOfNumbers(numbers: seq<nat>, odd: Option<string>)
    requires (forall n | n in numbers :: n <= MAX_INT) && (odd.Some? ==> Atoi(Split(odd.value, '.')[0]).None?)
    ensures NumericPrefix(Itoas(numbers) + OddParts(odd)) == numbers
  {
    hide Itoa, Atoi, Split;
    var parts := Itoas(numbers) + OddParts(odd);
    if numbers == [] {
      assert parts == OddParts(odd);
    } else {
      assert forall n | n in numbers[1..] :: n in numbers;
      AtoiItoa(numbers[0]);
      assert parts[1..] == Itoas(numbers[1..]) + OddParts(odd);
      PrefixOfNumbers(numbers[1..], odd);
      assert parts[0] == Itoa(numbers[0]) && numbers[0] in numbers;
      assert numbers == [numbers[0]] + numbers[1..];
    }
  }

  /** How a version is written: numbers with dots between them, of any count, after space and a leading v, and
      before parts that begin with no number, a suffix, or space. It reads as exactly those numbers. */
  lemma WrittenVersionReads(lead: string, mark: string, numbers: seq<nat>, odd: Option<string>, rest: string)
    requires AllSpace(lead) && (mark == "" || mark == "v")
    requires numbers != [] && forall n | n in numbers :: n <= MAX_INT
    requires IsOdd(odd, "-+_") && Trails(rest, "-+_")
    ensures Parse(lead + mark + (Dotted(numbers) + Odd(odd)) + rest) == numbers
  {
    hide Itoa, Atoi, TrimSpace, TrimPrefix, CutAtAny, Split, Dotted, IsSpace;
    DottedIsClean(numbers);
    DigitsAreNoSpace();
    Undecorated(lead, mark, Dotted(numbers) + Odd(odd), rest, "-+_");
    SplitDotted(numbers, odd);
    PrefixOfNumbers(numbers, odd);
  }

  lemma DigitsAreNoSpace()
    ensures forall c | IsDigit(c) || c == '.' :: !IsSpace(c)
  {
  }

  lemma EmptyParsesToNothing()
    ensures Parse("") == []
  {
  }

  /** Print then parse: AddonMinor keeps exactly the release line, and prints each line one way only. */
  lemma AddonMinorRoundTrip(v: string, w: string)
    ensures Parse(AddonMinor(v)) == Line(Parse(v))
    ensures AddonMinor(v) == AddonMinor(w) <==> Line(Parse(v)) == Line(Parse(w))
    ensures AddonMinor(v) == "" <==> !IsParseable(v)
  {
    AddonMinorParses(v);
    AddonMinorParses(w);
    if Line(Parse(v)) == Line(Parse(w)) && IsParseable(v) {
      assert Parse(v)[0] == Line(Parse(v))[0] && Parse(w)[0] == Line(Parse(w))[0];
      assert Parse(v)[1] == Line(Parse(v))[1] && Parse(w)[1] == Line(Parse(w))[1];
    }
  }

  lemma AddonMinorParses(v: string)
    ensures Parse(AddonMinor(v)) == Line(Parse(v))
  {
    var c := Parse(v);
    if |c| >= 2 {
      if Core(v) != "" {
        NumericPrefixInRange(Split(Core(v), '.'));
      }
      assert c[0] in c && c[1] in c;
      ParseMinor(c[0], c[1]);
    }
  }
}
