/** The few operations of Go's strings and strconv packages the program leans on,
    over strings taken as sequences of characters. */
module Text {

  datatype Option<+T> = None | Some(value: T)

  /** The largest value strconv.Atoi accepts on a 64-bit platform. */
  const MAX_INT := 0x7fff_ffff_ffff_ffff

  /** unicode.IsSpace */
  predicate IsSpace(c: char) {
    || '\t' <= c <= '\r' || c == ' ' || c == '\U{0085}' || c == '\U{00A0}' || c == '\U{1680}'
    || '\U{2000}' <= c <= '\U{200A}' || c == '\U{2028}' || c == '\U{2029}' || c == '\U{202F}'
    || c == '\U{205F}' || c == '\U{3000}'
  }

  function TrimLeft(s: string): string {
    if s != "" && IsSpace(s[0]) then TrimLeft(s[1..]) else s
  }

  function TrimRight(s: string): string {
    if s != "" && IsSpace(s[|s| - 1]) then TrimRight(s[..|s| - 1]) else s
  }

  function TrimSpace(s: string): string {
    TrimRight(TrimLeft(s))
  }

  predicate HasSuffix(s: string, suffix: string) {
    |suffix| <= |s| && s[|s| - |suffix|..] == suffix
  }

  function TrimPrefix(s: string, prefix: string): string {
    if prefix <= s then s[|prefix|..] else s
  }

  function TrimSuffix(s: string, suffix: string): string {
    if HasSuffix(s, suffix) then s[..|s| - |suffix|] else s
  }

  /** What comes before the first character of `stops`: s[:strings.IndexAny(s, stops)]. */
  function CutAtAny(s: string, stops: string): string {
    if s == "" || s[0] in stops then "" else [s[0]] + CutAtAny(s[1..], stops)
  }

  /** strings.Split on a one-character separator. */
  function Split(s: string, sep: char): (parts: seq<string>)
    ensures |parts| >= 1
  {
    if s == "" then [""]
    else
      var rest := Split(s[1..], sep);
      if s[0] == sep then [""] + rest else [[s[0]] + rest[0]] + rest[1..]
  }

  function Join(parts: seq<string>, sep: string): string {
    if parts == [] then ""
    else if |parts| == 1 then parts[0]
    else parts[0] + sep + Join(parts[1..], sep)
  }

  predicate IsDigit(c: char) {
    '0' <= c <= '9'
  }

  predicate AllDigits(s: string) {
    forall c | c in s :: IsDigit(c)
  }

  function DigitValue(c: char): nat
    requires IsDigit(c)
  {
    c as int - '0' as int
  }

  function DigitsValue(s: string): nat
    requires AllDigits(s)
  {
    if s == "" then 0 else 10 * DigitsValue(s[..|s| - 1]) + DigitValue(s[|s| - 1])
  }

  /** strconv.Atoi on text that carries no sign: every caller has already cut at '-' and '+'. */
  function Atoi(s: string): Option<nat> {
    if s == "" || !AllDigits(s) || DigitsValue(s) > MAX_INT then None else Some(DigitsValue(s))
  }

  /** strconv.Itoa on a non-negative number. */
  function Itoa(n: nat): (s: string)
    ensures s != "" && AllDigits(s) && DigitsValue(s) == n
  {
    var last := ['0' + (n % 10) as char];
    assert last[..0] == "" && DigitsValue(last) == n % 10;
    if n < 10 then last
    else
      var s := Itoa(n / 10) + last;
      assert s[..|s| - 1] == Itoa(n / 10);
      s
  }

  /** Go's %d. */
  function SignedText(n: int): string {
    if n < 0 then "-" + Itoa(-n) else Itoa(n)
  }

  /** "namespace/name", or the name alone when there is no namespace. */
  function RefText(namespace: string, name: string): string {
    if namespace == "" then name else namespace + "/" + name
  }

  /** A number survives printing and parsing exactly when it is in Atoi's range. */
  lemma AtoiItoa(n: nat)
    ensures Atoi(Itoa(n)) == if n <= MAX_INT then Some(n) else None
  {
  }

  lemma {:induction false} SplitOne(s: string, sep: char)
    requires sep !in s
    ensures Split(s, sep) == [s]
  {
    if s != "" {
      SplitOne(s[1..], sep);
      assert [s[0]] + s[1..] == s;
    }
  }

  lemma {:induction false} SplitHead(a: string, sep: char, b: string)
    requires sep !in a
    ensures Split(a + [sep] + b, sep) == [a] + Split(b, sep)
  {
    var s := a + [sep] + b;
    if a == "" {
      assert s[1..] == b;
    } else {
      assert s[1..] == a[1..] + [sep] + b;
      SplitHead(a[1..], sep, b);
      assert [a[0]] + a[1..] == a;
      assert ([a[1..]] + Split(b, sep))[1..] == Split(b, sep);
    }
  }

  lemma {:induction false} CutNothing(s: string, stops: string)
    requires forall c | c in s :: c !in stops
    ensures CutAtAny(s, stops) == s
  {
    if s != "" {
      CutNothing(s[1..], stops);
    }
  }

  /** Digits and dots survive trimming and cutting. */
  lemma CleanText(s: string, stops: string)
    requires s != "" && forall c | c in s :: IsDigit(c) || c == '.'
    requires forall c | c in stops :: !IsDigit(c) && c != '.'
    ensures TrimSpace(s) == s && TrimPrefix(s, "v") == s && CutAtAny(s, stops) == s
  {
    assert s[0] in s && s[|s| - 1] in s;
    CutNothing(s, stops);
  }

  // ---------- decorated text ----------

  predicate AllSpace(s: string) {
    forall c | c in s :: IsSpace(c)
  }

  lemma {:induction false} TrimLeftSkips(lead: string, s: string)
    requires AllSpace(lead) && s != "" && !IsSpace(s[0])
    ensures TrimLeft(lead + s) == s
  {
    if lead == "" {
      assert lead + s == s;
    } else {
      assert lead[0] in lead && (lead + s)[1..] == lead[1..] + s;
      TrimLeftSkips(lead[1..], s);
    }
  }

  /** Trimming on the right stops at the last character that is no space. */
  lemma {:induction false} TrimRightStops(s: string, rest: string)
    requires s != "" && !IsSpace(s[|s| - 1]) && AllSpace(rest)
    ensures TrimRight(s + rest) == s
  {
    var text := s + rest;
    if rest == "" {
      assert text == s;
    } else {
      assert rest[|rest| - 1] in rest;
      assert text[..|text| - 1] == s + rest[..|rest| - 1];
      TrimRightStops(s, rest[..|rest| - 1]);
    }
  }

  lemma {:induction false} TrimRightKeeps(s: string, rest: string)
    requires !AllSpace(rest)
    ensures s + [rest[0]] <= TrimRight(s + rest)
  {
    var text := s + rest;
    var front := rest[..|rest| - 1];
    assert rest == front + [rest[|rest| - 1]];
    if IsSpace(rest[|rest| - 1]) {
      assert text[..|text| - 1] == s + front;
      TrimRightKeeps(s, front);
    }
  }

  lemma {:induction false} CutStops(s: string, c: char, more: string, stops: string)
    requires (forall x | x in s :: x !in stops) && c in stops
    ensures CutAtAny(s + [c] + more, stops) == s
  {
    if s != "" {
      assert (s + [c] + more)[1..] == s[1..] + [c] + more;
      CutStops(s[1..], c, more, stops);
    }
  }

  /** What may follow the text that counts: only space, or one of the stops and then anything. */
  predicate Trails(rest: string, stops: string) {
    AllSpace(rest) || rest[0] in stops
  }

  /** Space around a text, a leading v and whatever a stop begins are all taken off. */
  lemma Undecorated(lead: string, mark: string, body: string, rest: string, stops: string)
    requires AllSpace(lead) && (mark == "" || mark == "v") && Trails(rest, stops)
    requires body != "" && body[0] != 'v' && forall c | c in body :: !IsSpace(c) && c !in stops
    requires 'v' !in stops
    ensures CutAtAny(TrimPrefix(TrimSpace(lead + mark + body + rest), "v"), stops) == body
  {
    hide IsSpace, CutAtAny, TrimLeft, TrimRight;
    VIsNoSpace();
    var core := mark + body;
    assert lead + mark + body + rest == lead + (core + rest);
    assert core[|core| - 1] == body[|body| - 1] && body[|body| - 1] in body && body[0] in body;
    TrimLeftSkips(lead, core + rest);
    if AllSpace(rest) {
      TrimRightStops(core, rest);
      assert TrimPrefix(core, "v") == body;
      CutNothing(body, stops);
    } else {
      var c := rest[0];
      assert core + rest == core + [c] + rest[1..];
      TrimRightKeeps(core, rest);
      var kept := TrimRight(core + rest);
      var more := kept[|core| + 1..];
      assert kept == kept[..|core| + 1] + more == core + [c] + more;
      assert TrimPrefix(kept, "v") == body + [c] + more by {
        if mark == "v" {
          assert kept[0] == 'v' && kept[1..] == body + [c] + more;
        } else {
          assert kept[0] == body[0];
        }
      }
      CutStops(body, c, more, stops);
    }
  }

  lemma VIsNoSpace()
    ensures !IsSpace('v')
  {
  }

  /** Numbers with dots between them. */
  function Dotted(numbers: seq<nat>): string {
    if numbers == [] then ""
    else if |numbers| == 1 then Itoa(numbers[0])
    else Itoa(numbers[0]) + "." + Dotted(numbers[1..])
  }

  lemma {:induction false} DottedIsClean(numbers: seq<nat>)
    requires numbers != []
    ensures Dotted(numbers) != "" && IsDigit(Dotted(numbers)[0])
    ensures forall c | c in Dotted(numbers) :: IsDigit(c) || c == '.'
  {
    hide Itoa;
    assert Itoa(numbers[0])[0] in Itoa(numbers[0]);
    if |numbers| > 1 {
      DottedIsClean(numbers[1..]);
    }
  }

  /** More parts, the first of them no number. */
  function Odd(odd: Option<string>): string {
    match odd
    case None => ""
    case Some(w) => "." + w
  }

  predicate IsOdd(odd: Option<string>, stops: string) {
    odd.Some? ==> Atoi(Split(odd.value, '.')[0]).None? && forall c | c in odd.value :: !IsSpace(c) && c !in stops
  }

  function OddParts(odd: Option<string>): seq<string> {
    match odd
    case None => []
    case Some(w) => Split(w, '.')
  }

  function Itoas(numbers: seq<nat>): (r: seq<string>)
    ensures |r| == |numbers| && forall i | 0 <= i < |r| :: r[i] == Itoa(numbers[i])
  {
    seq(|numbers|, i requires 0 <= i < |numbers| => Itoa(numbers[i]))
  }

  lemma {:induction false} SplitDotted(numbers: seq<nat>, odd: Option<string>)
    requires numbers != []
    ensures Split(Dotted(numbers) + Odd(odd), '.') == Itoas(numbers) + OddParts(odd)
  {
    hide Itoa, Split, Dotted, Odd, Itoas;
    var n, rest := Itoa(numbers[0]), numbers[1..];
    DottedUnfolds(numbers);
    if rest != [] {
      assert n + "." + Dotted(rest) + Odd(odd) == n + "." + (Dotted(rest) + Odd(odd));
      SplitHead(n, '.', Dotted(rest) + Odd(odd));
      SplitDotted(rest, odd);
    } else {
      SplitLast(n, odd);
    }
  }

  lemma DottedUnfolds(numbers: seq<nat>)
    requires numbers != []
    ensures Dotted(numbers) ==
            if |numbers| == 1 then Itoa(numbers[0]) else Itoa(numbers[0]) + "." + Dotted(numbers[1..])
    ensures Itoas(numbers) == [Itoa(numbers[0])] + Itoas(numbers[1..]) && Itoas([]) == []
  {
    hide Itoa;
    ItoasUnfold(numbers);
    hide Itoas;
    assert Itoas([]) == [];
  }

  lemma ItoasUnfold(numbers: seq<nat>)
    requires numbers != []
    ensures Itoas(numbers) == [Itoa(numbers[0])] + Itoas(numbers[1..])
  {
    hide Itoa, Dotted;
  }

  lemma SplitLast(n: string, odd: Option<string>)
    requires AllDigits(n)
    ensures Split(n + Odd(odd), '.') == [n] + OddParts(odd)
  {
    hide Split;
    match odd
    case None =>
      assert n + "" == n;
      SplitOne(n, '.');
    case Some(w) =>
      assert n + Odd(odd) == n + "." + w;
      SplitHead(n, '.', w);
  }

  lemma {:induction false} FirstPartIsPrefix(s: string, sep: char)
    ensures Split(s, sep)[0] <= s
  {
    if s != "" && s[0] != sep {
      FirstPartIsPrefix(s[1..], sep);
    }
  }

  lemma SplitMinor(x: nat, y: nat)
    ensures Split(Itoa(x) + "." + Itoa(y), '.') == [Itoa(x), Itoa(y)]
  {
    hide Itoa;
    SplitHead(Itoa(x), '.', Itoa(y));
    SplitOne(Itoa(y), '.');
  }

  function Count(s: string, c: char): nat {
    if s == "" then 0 else (if s[0] == c then 1 else 0) + Count(s[1..], c)
  }

  lemma {:induction false} CountAppends(a: string, b: string, c: char)
    ensures Count(a + b, c) == Count(a, c) + Count(b, c)
  {
    if a == "" {
      assert a + b == b;
    } else {
      assert (a + b)[1..] == a[1..] + b;
      CountAppends(a[1..], b, c);
    }
  }

  lemma {:induction false} CountIsNone(s: string, c: char)
    ensures Count(s, c) == 0 <==> c !in s
  {
    if s != "" {
      CountIsNone(s[1..], c);
    }
  }

  /** Where the heads hold as many separators, the text determines head and tail. */
  lemma {:induction false} SameHeads(a: string, b: string, a': string, b': string, c: char)
    requires Count(a, c) == Count(a', c) && a + [c] + b == a' + [c] + b'
    ensures a == a' && b == b'
  {
    var s, s' := a + [c] + b, a' + [c] + b';
    assert s[0] == if a == "" then c else a[0];
    assert s'[0] == if a' == "" then c else a'[0];
    assert a == "" <==> a' == "";
    if a == "" {
      assert s[1..] == b && s'[1..] == b';
    } else {
      assert s[0] == a[0] && s'[0] == a'[0];
      assert s[1..] == a[1..] + [c] + b && s'[1..] == a'[1..] + [c] + b';
      SameHeads(a[1..], b, a'[1..], b', c);
      assert a == [a[0]] + a[1..] && a' == [a'[0]] + a'[1..];
    }
  }

  /** Joined text determines as many parts, when all but the last hold as many separators on both sides. */
  lemma {:induction false} JoinDetermines(parts: seq<string>, parts': seq<string>, c: char)
    requires |parts| == |parts'| && Join(parts, [c]) == Join(parts', [c])
    requires forall i | 0 <= i < |parts| - 1 :: Count(parts[i], c) == Count(parts'[i], c)
    ensures parts == parts'
  {
    if |parts| > 1 {
      SameHeads(parts[0], Join(parts[1..], [c]), parts'[0], Join(parts'[1..], [c]), c);
      JoinDetermines(parts[1..], parts'[1..], c);
    }
  }

  lemma {:induction false} JoinCounts(parts: seq<string>, c: char)
    requires forall part | part in parts :: part != "" && c !in part
    ensures parts != [] ==> Join(parts, [c]) != "" && Count(Join(parts, [c]), c) == |parts| - 1
  {
    if parts != [] {
      CountIsNone(parts[0], c);
      if |parts| > 1 {
        assert forall part | part in parts[1..] :: part in parts;
        JoinCounts(parts[1..], c);
        CountAppends(parts[0] + [c], Join(parts[1..], [c]), c);
        CountAppends(parts[0], [c], c);
      }
    }
  }

  /** Joined text determines the parts, when none is empty or holds the separator. */
  lemma JoinOfPlain(parts: seq<string>, parts': seq<string>, c: char)
    requires forall part | part in parts + parts' :: part != "" && c !in part
    requires Join(parts, [c]) == Join(parts', [c])
    ensures parts == parts'
  {
    assert forall part | part in parts || part in parts' :: part in parts + parts';
    JoinCounts(parts, c);
    JoinCounts(parts', c);
    if parts != [] && parts' != [] {
      forall i | 0 <= i < |parts|
        ensures Count(parts[i], c) == Count(parts'[i], c)
      {
        CountIsNone(parts[i], c);
        CountIsNone(parts'[i], c);
      }
      JoinDetermines(parts, parts', c);
    }
  }

  /** "a|b" determines a and b once a is known to hold no bar. */
  lemma BarInjective(a: string, b: string, a': string, b': string)
    requires '|' !in a && '|' !in a'
    requires a + "|" + b == a' + "|" + b'
    ensures a == a' && b == b'
  {
    CountIsNone(a, '|');
    CountIsNone(a', '|');
    SameHeads(a, b, a', b', '|');
  }
}
