/** Breaking prose to the terminal width. */
module Wrap {
  import opened Text

  const MIN_WIDTH := 60

  // ---------- words ----------

  function FirstWord(s: string): string {
    if s == "" || IsSpace(s[0]) then "" else [s[0]] + FirstWord(s[1..])
  }

  lemma {:induction false} FirstWordIsPrefix(s: string)
    ensures |FirstWord(s)| <= |s| && FirstWord(s) == s[..|FirstWord(s)|]
    ensures forall c | c in FirstWord(s) :: !IsSpace(c)
    ensures |FirstWord(s)| < |s| ==> IsSpace(s[|FirstWord(s)|])
    ensures s != "" && !IsSpace(s[0]) ==> FirstWord(s) != ""
  {
    if s != "" && !IsSpace(s[0]) {
      FirstWordIsPrefix(s[1..]);
    }
  }

  /** strings.Fields */
  function Fields(s: string): seq<string>
    decreases |s|
  {
    if s == "" then []
    else if IsSpace(s[0]) then Fields(s[1..])
    else
      FirstWordIsPrefix(s);
      [FirstWord(s)] + Fields(s[|FirstWord(s)|..])
  }

  predicate IsWord(w: string) {
    w != "" && forall c | c in w :: !IsSpace(c)
  }

  lemma {:induction false} FieldsAreWords(s: string)
    ensures forall w | w in Fields(s) :: IsWord(w)
    decreases |s|
  {
    if s != "" {
      FirstWordIsPrefix(s);
      if IsSpace(s[0]) {
        FieldsAreWords(s[1..]);
      } else {
        FieldsAreWords(s[|FirstWord(s)|..]);
      }
    }
  }

  lemma {:induction false} FirstWordStops(w: string, s: string)
    requires forall c | c in w :: !IsSpace(c)
    requires s == "" || IsSpace(s[0])
    ensures FirstWord(w + s) == w
  {
    if w != "" {
      assert (w + s)[1..] == w[1..] + s;
      FirstWordStops(w[1..], s);
      assert w == [w[0]] + w[1..];
    }
  }

  lemma FieldsUnfold(s: string)
    requires s != ""
    ensures IsSpace(s[0]) ==> Fields(s) == Fields(s[1..])
    ensures |FirstWord(s)| <= |s| && FirstWord(s) == s[..|FirstWord(s)|]
    ensures !IsSpace(s[0]) ==> FirstWord(s) != "" && Fields(s) == [FirstWord(s)] + Fields(s[|FirstWord(s)|..])
  {
    hide IsSpace;
    FirstWordIsPrefix(s);
  }

  /** Text before a space and text after it are split separately. */
  lemma {:induction false} FieldsSplit(a: string, b: string)
    requires b == "" || IsSpace(b[0])
    ensures Fields(a + b) == Fields(a) + Fields(b)
    decreases |a|
  {
    hide Fields, IsSpace, FirstWord;
    if a == "" {
      assert a + b == b;
      FieldsOfNothing();
    } else {
      FieldsUnfold(a);
      FieldsUnfold(a + b);
      if IsSpace(a[0]) {
        assert (a + b)[1..] == a[1..] + b;
        FieldsSplit(a[1..], b);
      } else {
        FirstWordIsPrefix(a);
        var w, rest := FirstWord(a), a[|FirstWord(a)|..];
        assert a == w + rest && a + b == w + (rest + b);
        FirstWordStops(w, rest + b);
        assert (a + b)[|w|..] == rest + b;
        FieldsSplit(rest, b);
      }
    }
  }

  lemma {:induction false} FieldsOfWord(w: string)
    requires IsWord(w)
    ensures Fields(w) == [w]
  {
    FirstWordStops(w, "");
    assert w + "" == w && w[0] in w;
  }

  lemma {:induction false} FieldsSkipSpace(sep: string, b: string)
    requires forall c | c in sep :: IsSpace(c)
    ensures Fields(sep + b) == Fields(b)
  {
    if sep == "" {
      assert sep + b == b;
    } else {
      assert sep[0] in sep;
      assert (sep + b)[1..] == sep[1..] + b;
      FieldsSkipSpace(sep[1..], b);
    }
  }

  // ---------- lines ----------

  /** How many bytes a character takes in UTF-8. */
  function Width(c: char): nat {
    var code := c as int;
    if code < 0x80 then 1 else if code < 0x800 then 2 else if code < 0x1_0000 then 3 else 4
  }

  /** The length of a text in bytes, which is what a line is measured by. */
  function Bytes(s: string): nat {
    if s == "" then 0 else Width(s[0]) + Bytes(s[1..])
  }

  lemma {:induction false} BytesAppend(a: string, b: string)
    ensures Bytes(a + b) == Bytes(a) + Bytes(b)
  {
    if a == "" {
      assert a + b == b;
    } else {
      assert (a + b)[1..] == a[1..] + b;
      BytesAppend(a[1..], b);
    }
  }

  /** A character takes one byte in ASCII, two below U+0800, three in the rest of the basic plane, and four past it. */
  lemma {:induction false} BytesOfRun(c: char, n: nat)
    ensures var s := seq(n, i => c);
            Bytes(s) == n * (if c <= '\U{007F}' then 1 else if c <= '\U{07FF}' then 2
                             else if c <= '\U{FFFF}' then 3 else 4)
  {
    if n > 0 {
      BytesOfRun(c, n - 1);
      assert seq(n, i => c)[1..] == seq(n - 1, i => c);
    }
  }

  lemma BytesJoin(a: string, b: string)
    ensures Bytes(a + " " + b) == Bytes(a) + 1 + Bytes(b)
  {
    BytesAppend(a + " ", b);
    BytesAppend(a, " ");
    assert Bytes(" ") == 1;
  }

  function LineText(words: seq<string>): string {
    Join(words, " ")
  }

  /** The number of words the first line takes, given that it already holds k of them. */
  function FirstBreak(words: seq<string>, k: nat, limit: nat): nat
    requires k <= |words|
    ensures k <= FirstBreak(words, k, limit) <= |words|
    decreases |words| - k
  {
    if k < |words| && Bytes(LineText(words[..k + 1])) <= limit then FirstBreak(words, k + 1, limit) else k
  }

  /** Each line takes as many words as fit, and always one. */
  function Greedy(words: seq<string>, limit: nat): (lines: seq<seq<string>>)
    decreases |words|
  {
    if words == [] then []
    else
      var k := FirstBreak(words, 1, limit);
      [words[..k]] + Greedy(words[k..], limit)
  }

  function Texts(lines: seq<seq<string>>): seq<string> {
    if lines == [] then [] else [LineText(lines[0])] + Texts(lines[1..])
  }

  function Spaces(n: nat): (s: string)
    ensures forall c | c in s :: IsSpace(c)
  {
    if n == 0 then "" else " " + Spaces(n - 1)
  }

  function Render(lines: seq<seq<string>>, indent: nat): string {
    Join(Texts(lines), "\n" + Spaces(indent))
  }

  function Limit(width: int, indent: nat): nat {
    if width - indent < MIN_WIDTH / 2 then MIN_WIDTH / 2 else width - indent
  }

  lemma {:induction false} JoinAppend(parts: seq<string>, last: string, sep: string)
    ensures Join(parts + [last], sep) == if parts == [] then last else Join(parts, sep) + sep + last
  {
    if parts != [] {
      assert (parts + [last])[1..] == parts[1..] + [last];
      JoinAppend(parts[1..], last, sep);
      if |parts| > 1 {
        assert Join(parts, sep) == parts[0] + sep + Join(parts[1..], sep);
      }
    }
  }

  lemma {:induction false} TextsAppend(lines: seq<seq<string>>, last: seq<string>)
    ensures Texts(lines + [last]) == Texts(lines) + [LineText(last)]
  {
    if lines != [] {
      assert (lines + [last])[1..] == lines[1..] + [last];
      TextsAppend(lines[1..], last);
    }
  }

  method WrapText(width: int, text: string, indent: nat) returns (out: string)
    ensures out == Render(Greedy(Fields(text), Limit(width, indent)), indent)
  {
    hide Fields, LineText, FirstBreak, Greedy, Bytes, Texts, Holds, IsWord;
    var limit := width - indent;
    if limit < MIN_WIDTH / 2 {
      limit := MIN_WIDTH / 2;
    }
    var words := Fields(text);
    FieldsAreWords(text);
    EmptyLine();
    if |words| == 0 {
      NoLines(limit);
      return "";
    }
    var lines: seq<string>, line := [], "";
    ghost var done: seq<seq<string>>, from := [], 0;
    assert words[0..] == words && done + Greedy(words, limit) == Greedy(words, limit);
    for i := 0 to |words|
      invariant from <= i && (from < i || i == 0)
      invariant lines == Texts(done)
      invariant line == LineText(words[from..i]) && (line == "" <==> i == 0)
      invariant Greedy(words, limit) == done + Greedy(words[from..], limit)
      invariant i > 0 ==> Holds(words, from, i, limit)
    {
      var word := words[i];
      GrowLine(words, from, i);
      BytesJoin(line, word);
      if |line| == 0 {
        line := line + word;
        OneWordHolds(words, i, limit);
      } else if Bytes(line) + 1 + Bytes(word) <= limit {
        line := line + " " + word;
        OneMoreHolds(words, from, i, limit);
      } else {
        lines := lines + [line];
        FinishLine(words, done, from, i, limit);
        done, from := done + [words[from..i]], i;
        line := word;
        GrowLine(words, i, i);
        OneWordHolds(words, i, limit);
      }
    }
    lines := lines + [line];
    FinishLine(words, done, from, |words|, limit);
    NoLines(limit);
    assert words[|words|..] == [];
    assert Greedy(words, limit) == done + [words[from..|words|]];
    out := Join(lines, "\n" + Spaces(indent));
  }

  /** The greedy line starting at `from` takes at least the words up to i. */
  predicate Holds(words: seq<string>, from: nat, i: nat, limit: nat) {
    from < i <= |words| && FirstBreak(words[from..], 1, limit) == FirstBreak(words[from..], i - from, limit)
  }

  lemma NoLines(limit: nat)
    ensures Greedy([], limit) == []
  {
  }

  lemma OneWordHolds(words: seq<string>, i: nat, limit: nat)
    requires i < |words|
    ensures Holds(words, i, i + 1, limit)
  {
  }

  lemma OneMoreHolds(words: seq<string>, from: nat, i: nat, limit: nat)
    requires i < |words| && Holds(words, from, i, limit) && Bytes(LineText(words[from..i + 1])) <= limit
    ensures Holds(words, from, i + 1, limit)
  {
    hide LineText;
    assert words[from..][..i - from + 1] == words[from..i + 1];
  }

  /** A line that cannot take the next word, or has none to take, is a greedy line. */
  lemma LineIsFull(words: seq<string>, from: nat, i: nat, limit: nat)
    requires Holds(words, from, i, limit)
    requires i < |words| ==> Bytes(LineText(words[from..i + 1])) > limit
    ensures Greedy(words[from..], limit) == [words[from..i]] + Greedy(words[i..], limit)
  {
    hide LineText;
    var rest := words[from..];
    assert rest[..i - from] == words[from..i] && rest[i - from..] == words[i..];
    if i < |words| {
      assert rest[..i - from + 1] == words[from..i + 1];
    }
  }

  /** Closing such a line adds it to the ones done, and the rest is still to be broken. */
  lemma FinishLine(words: seq<string>, done: seq<seq<string>>, from: nat, i: nat, limit: nat)
    requires from <= i <= |words| && Holds(words, from, i, limit)
    requires i < |words| ==> Bytes(LineText(words[from..i + 1])) > limit
    requires Greedy(words, limit) == done + Greedy(words[from..], limit)
    ensures Greedy(words, limit) == done + [words[from..i]] + Greedy(words[i..], limit)
    ensures Texts(done + [words[from..i]]) == Texts(done) + [LineText(words[from..i])]
  {
    hide LineText, Greedy, FirstBreak, Texts, Holds, Bytes;
    LineIsFull(words, from, i, limit);
    TextsAppend(done, words[from..i]);
  }

  lemma EmptyLine()
    ensures LineText([]) == "" && Texts([]) == []
  {
  }

  /** One more word on a line, as text and as a step of the greedy count. */
  lemma GrowLine(words: seq<string>, from: nat, i: nat)
    requires from <= i < |words| && IsWord(words[i])
    ensures LineText(words[from..i + 1]) ==
            if from == i then words[i] else LineText(words[from..i]) + " " + words[i]
    ensures LineText(words[from..i + 1]) != ""
  {
    assert words[from..i + 1] == words[from..i] + [words[i]];
    JoinAppend(words[from..i], words[i], " ");
  }

  // ---------- what it promises ----------

  function Flatten(lines: seq<seq<string>>): seq<string> {
    if lines == [] then [] else lines[0] + Flatten(lines[1..])
  }

  /** Within the limit, or one word too long for any line. */
  predicate Fits(line: seq<string>, limit: nat) {
    |line| == 1 || (line != [] && Bytes(LineText(line)) <= limit)
  }

  predicate IsBreaking(lines: seq<seq<string>>, words: seq<string>, limit: nat) {
    Flatten(lines) == words && forall line | line in lines :: Fits(line, limit)
  }

  lemma {:induction false} FirstBreakFits(words: seq<string>, k: nat, limit: nat)
    requires 1 <= k <= |words| && Fits(words[..k], limit)
    ensures Fits(words[..FirstBreak(words, k, limit)], limit)
    decreases |words| - k
  {
    hide LineText;
    if k < |words| && Bytes(LineText(words[..k + 1])) <= limit {
      FirstBreakFits(words, k + 1, limit);
    }
  }

  lemma {:induction false} GreedyBreaks(words: seq<string>, limit: nat)
    ensures IsBreaking(Greedy(words, limit), words, limit)
    decreases |words|
  {
    hide LineText;
    if words != [] {
      var k := FirstBreak(words, 1, limit);
      FirstBreakFits(words, 1, limit);
      GreedyBreaks(words[k..], limit);
      assert words == words[..k] + words[k..];
      assert Greedy(words, limit)[1..] == Greedy(words[k..], limit);
    }
  }

  lemma {:induction false} LongerLine(a: seq<string>, b: seq<string>)
    ensures Bytes(LineText(a)) <= Bytes(LineText(a + b)) && Bytes(LineText(b)) <= Bytes(LineText(a + b))
  {
    hide Bytes;
    if a == [] {
      assert a + b == b;
      NoBytes();
    } else if |a| == 1 && b == [] {
      assert a + b == a;
      NoBytes();
    } else {
      var rest := a[1..] + b;
      assert (a + b)[1..] == rest;
      LongerLine(a[1..], b);
      BytesJoin(a[0], LineText(rest));
      if |a| > 1 {
        BytesJoin(a[0], LineText(a[1..]));
      }
    }
  }

  lemma NoBytes()
    ensures Bytes("") == 0
  {
  }

  lemma {:induction false} FirstBreakTakes(words: seq<string>, k: nat, n: nat, limit: nat)
    requires k <= n <= |words| && Bytes(LineText(words[..n])) <= limit
    ensures FirstBreak(words, k, limit) >= n
    decreases n - k
  {
    hide LineText;
    if k < n {
      assert words[..n] == words[..k + 1] + words[k + 1..n];
      LongerLine(words[..k + 1], words[k + 1..n]);
      FirstBreakTakes(words, k + 1, n, limit);
    }
  }

  /** Greedy stays ahead: from a later start it still needs no more lines than any breaking. */
  lemma {:induction false} GreedyStaysAhead(words: seq<string>, i: nat, other: seq<seq<string>>, limit: nat)
    requires i <= |words| && IsBreaking(other, words, limit)
    ensures |Greedy(words[i..], limit)| <= |other|
    decreases |other|
  {
    hide LineText;
    if i < |words| {
      assert other != [];
      var first, rest := other[0], other[1..];
      var m := |first|;
      assert Fits(first, limit);
      assert words[..m] == first && words[m..] == Flatten(rest);
      assert IsBreaking(rest, words[m..], limit);
      var k := FirstBreak(words[i..], 1, limit);
      if i < m && m > 1 {
        assert first == words[..i] + words[i..m];
        LongerLine(words[..i], words[i..m]);
        assert words[i..][..m - i] == words[i..m];
        FirstBreakTakes(words[i..], 1, m - i, limit);
      }
      assert i + k >= m;
      assert words[m..][i + k - m..] == words[i..][k..];
      GreedyStaysAhead(words[m..], i + k - m, rest, limit);
    }
  }

  /** No breaking of the same words within the limit uses fewer lines. */
  lemma GreedyIsFewest(words: seq<string>, other: seq<seq<string>>, limit: nat)
    requires IsBreaking(other, words, limit)
    ensures |Greedy(words, limit)| <= |other|
  {
    assert words[0..] == words;
    GreedyStaysAhead(words, 0, other, limit);
  }

  lemma {:induction false} FieldsOfLine(words: seq<string>)
    requires forall w | w in words :: IsWord(w)
    ensures Fields(LineText(words)) == words
  {
    hide Fields, IsSpace;
    if words == [] {
      FieldsOfNothing();
    } else {
      FieldsOfWord(words[0]);
      if |words| > 1 {
        var rest := LineText(words[1..]);
        SpaceIsSpace();
        FieldsSplit(words[0], " " + rest);
        assert words[0] + " " + rest == words[0] + (" " + rest);
        FieldsSkipSpace(" ", rest);
        FieldsOfLine(words[1..]);
      }
    }
  }

  lemma FieldsOfNothing()
    ensures Fields("") == []
  {
  }

  lemma SpaceIsSpace()
    ensures IsSpace(' ') && IsSpace('\n')
  {
  }

  lemma {:induction false} FieldsOfRender(lines: seq<seq<string>>, indent: nat)
    requires forall line | line in lines :: forall w | w in line :: IsWord(w)
    ensures Fields(Render(lines, indent)) == Flatten(lines)
  {
    hide Fields, IsSpace, LineText, IsWord, Render;
    RenderFirst(lines, indent);
    if lines == [] {
      FieldsOfNothing();
    } else {
      assert lines[0] in lines && forall line | line in lines[1..] :: line in lines;
      FieldsOfLine(lines[0]);
      if |lines| == 1 {
        assert lines[1..] == [] && Flatten(lines) == lines[0];
      } else {
        var sep, rest := "\n" + Spaces(indent), Render(lines[1..], indent);
        SpaceIsSpace();
        FieldsSplit(LineText(lines[0]), sep + rest);
        FieldsSkipSpace(sep, rest);
        FieldsOfRender(lines[1..], indent);
      }
    }
  }

  lemma RenderFirst(lines: seq<seq<string>>, indent: nat)
    ensures lines == [] ==> Render(lines, indent) == ""
    ensures |lines| == 1 ==> Render(lines, indent) == LineText(lines[0])
    ensures |lines| > 1 ==>
              Render(lines, indent) == LineText(lines[0]) + (("\n" + Spaces(indent)) + Render(lines[1..], indent))
  {
    hide LineText;
    if |lines| > 1 {
      var sep := "\n" + Spaces(indent);
      assert Texts(lines)[1..] == Texts(lines[1..]) != [];
      assert LineText(lines[0]) + sep + Render(lines[1..],
          indent) == LineText(lines[0]) + (sep + Render(lines[1..], indent));
    } else if |lines| == 1 {
      assert lines[1..] == [] && Texts(lines) == [LineText(lines[0])] + Texts([]);
    }
  }

  lemma {:induction false} FlattenMembers(lines: seq<seq<string>>, line: seq<string>, w: string)
    requires line in lines && w in line
    ensures w in Flatten(lines)
  {
    if line != lines[0] {
      FlattenMembers(lines[1..], line, w);
    }
  }

  /** The wrapped text holds the words of the original, in order, and wrapping it again changes nothing. */
  lemma WrappingKeepsWords(width: int, text: string, indent: nat)
    ensures var wrapped := Render(Greedy(Fields(text), Limit(width, indent)), indent);
            Fields(wrapped) == Fields(text) &&
            Render(Greedy(Fields(wrapped), Limit(width, indent)), indent) == wrapped
  {
    hide Fields, LineText;
    var words, limit := Fields(text), Limit(width, indent);
    var lines := Greedy(words, limit);
    FieldsAreWords(text);
    GreedyBreaks(words, limit);
    forall line, w | line in lines && w in line
      ensures IsWord(w)
    {
      FlattenMembers(lines, line, w);
    }
    FieldsOfRender(lines, indent);
  }

  /** Every line of the wrapped text fits the width less the indent, or thirty on a narrow terminal, or is one
      word. */
  lemma LinesFitTheWidth(width: int, text: string, indent: nat)
    ensures forall line | line in Greedy(Fields(text), Limit(width, indent)) ::
              |line| == 1 || Bytes(LineText(line)) <= width - indent || Bytes(LineText(line)) <= 30
  {
    hide Bytes, LineText, Greedy, Fields;
    GreedyBreaks(Fields(text), Limit(width, indent));
  }

  // ---------- numbers ----------

  /** The report's own number printing. */
  method PrintNumber(n: int) returns (text: string)
    ensures text == SignedText(n)
  {
    if n == 0 {
      return "0";
    }
    var digits := "";
    var negative := n < 0;
    var rest := if negative then -n else n;
    ghost var start := rest;
    while rest > 0
      invariant rest >= 0 && (digits == "" <==> rest == start)
      invariant if rest > 0 then Itoa(start) == Itoa(rest) + digits else Itoa(start) == digits
    {
      PrintStep(rest);
      digits := ['0' + (rest % 10) as char] + digits;
      rest := rest / 10;
    }
    text := if negative then "-" + digits else digits;
  }

  lemma PrintStep(n: nat)
    requires n > 0
    ensures Itoa(n) == (if n < 10 then "" else Itoa(n / 10)) + ['0' + (n % 10) as char]
  {
  }
}
