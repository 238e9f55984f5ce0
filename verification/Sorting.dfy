/** Go's sort package, as what it promises: a sorted rearrangement. Where the order tells any two
    elements apart there is only one, so the algorithm and the order of arrival do not matter. */
module Sorting {

  ghost predicate TotalPreorder<T(!new)>(leq: (T, T) -> bool) {
    && (forall a, b :: leq(a, b) || leq(b, a))
    && (forall a, b, c :: leq(a, b) && leq(b, c) ==> leq(a, c))
  }

  ghost predicate Sorted<T>(s: seq<T>, leq: (T, T) -> bool) {
    forall i, j | 0 <= i < j < |s| :: leq(s[i], s[j])
  }

  /** The order distinguishes any two different elements of s. */
  ghost predicate Decisive<T>(s: seq<T>, leq: (T, T) -> bool) {
    forall x, y | x in s && y in s && leq(x, y) && leq(y, x) :: x == y
  }

  function Insert<T>(x: T, s: seq<T>, leq: (T, T) -> bool): seq<T> {
    if s == [] || leq(x, s[0]) then [x] + s else [s[0]] + Insert(x, s[1..], leq)
  }

  /** A stable insertion sort. */
  function SortBy<T>(s: seq<T>, leq: (T, T) -> bool): seq<T> {
    if s == [] then [] else Insert(s[0], SortBy(s[1..], leq), leq)
  }

  lemma {:induction false} InsertKeeps<T(!new)>(x: T, s: seq<T>, leq: (T, T) -> bool)
    ensures multiset(Insert(x, s, leq)) == multiset(s) + multiset{x}
  {
    if s != [] && !leq(x, s[0]) {
      InsertKeeps(x, s[1..], leq);
      assert s == [s[0]] + s[1..];
    }
  }

  lemma Transitive<T(!new)>(leq: (T, T) -> bool, a: T, b: T, c: T)
    requires TotalPreorder(leq) && leq(a, b) && leq(b, c)
    ensures leq(a, c)
  {
  }

  lemma Total<T(!new)>(leq: (T, T) -> bool, a: T, b: T)
    requires TotalPreorder(leq)
    ensures leq(a, b) || leq(b, a)
  {
  }

  lemma {:induction false} InsertSorts<T(!new)>(x: T, s: seq<T>, leq: (T, T) -> bool)
    requires TotalPreorder(leq) && Sorted(s, leq)
    ensures Sorted(Insert(x, s, leq), leq)
    ensures multiset(Insert(x, s, leq)) == multiset(s) + multiset{x}
  {
    hide TotalPreorder;
    InsertKeeps(x, s, leq);
    if s != [] && !leq(x, s[0]) {
      InsertSorts(x, s[1..], leq);
      InsertKeeps(x, s[1..], leq);
      Total(leq, x, s[0]);
      var rest := Insert(x, s[1..], leq);
      forall j | 0 <= j < |rest|
        ensures leq(s[0], rest[j])
      {
        assert rest[j] in multiset(rest);
        assert rest[j] == x || rest[j] in s[1..];
      }
    } else if s != [] {
      forall j | 0 <= j < |s|
        ensures leq(x, s[j])
      {
        if j > 0 {
          Transitive(leq, x, s[0], s[j]);
        }
      }
    }
  }

  lemma {:induction false} SortBySorts<T(!new)>(s: seq<T>, leq: (T, T) -> bool)
    requires TotalPreorder(leq)
    ensures Sorted(SortBy(s, leq), leq)
    ensures multiset(SortBy(s, leq)) == multiset(s)
  {
    if s != [] {
      SortBySorts(s[1..], leq);
      InsertSorts(s[0], SortBy(s[1..], leq), leq);
      assert s == [s[0]] + s[1..];
    }
  }

  lemma HeadIsLeast<T(!new)>(s: seq<T>, x: T, leq: (T, T) -> bool)
    requires Sorted(s, leq) && x in s
    ensures x == s[0] || leq(s[0], x)
  {
  }

  /** Two sorted rearrangements of the same elements are the same list. */
  lemma {:induction false} SortedIsUnique<T(!new)>(s: seq<T>, t: seq<T>, leq: (T, T) -> bool)
    requires Sorted(s, leq) && Sorted(t, leq) && multiset(s) == multiset(t)
    requires Decisive(s, leq)
    ensures s == t
  {
    hide Sorted, Decisive;
    assert |s| == |multiset(s)| == |multiset(t)| == |t|;
    if s != [] {
      SameHead(s, t, leq);
      HeadAndTail(s);
      HeadAndTail(t);
      TailsStaySorted(s, leq);
      TailsStaySorted(t, leq);
      SortedIsUnique(s[1..], t[1..], leq);
    }
  }

  lemma SameHead<T(!new)>(s: seq<T>, t: seq<T>, leq: (T, T) -> bool)
    requires Sorted(s, leq) && Sorted(t, leq) && multiset(s) == multiset(t) && s != [] && t != []
    requires Decisive(s, leq)
    ensures s[0] == t[0]
  {
    assert t[0] in multiset(s) && s[0] in multiset(t);
    HeadIsLeast(s, t[0], leq);
    HeadIsLeast(t, s[0], leq);
  }

  lemma HeadAndTail<T>(s: seq<T>)
    requires s != []
    ensures s == [s[0]] + s[1..] && multiset(s[1..]) == multiset(s) - multiset{s[0]}
  {
    assert s == [s[0]] + s[1..];
  }

  lemma TailsStaySorted<T(!new)>(s: seq<T>, leq: (T, T) -> bool)
    requires s != []
    ensures Sorted(s, leq) ==> Sorted(s[1..], leq)
    ensures Decisive(s, leq) ==> Decisive(s[1..], leq)
  {
    assert forall x | x in s[1..] :: x in s;
  }

  /** The elements the order does not tell apart from x, in the order they come. */
  function Alike<T>(s: seq<T>, x: T, leq: (T, T) -> bool): seq<T> {
    if s == [] then []
    else (if leq(s[0], x) && leq(x, s[0]) then [s[0]] else []) + Alike(s[1..], x, leq)
  }

  predicate Ties<T>(leq: (T, T) -> bool, a: T, b: T) {
    leq(a, b) && leq(b, a)
  }

  lemma AlikeFirst<T(!new)>(y: T, s: seq<T>, x: T, leq: (T, T) -> bool)
    ensures Alike([y] + s, x, leq) == (if Ties(leq, y, x) then [y] else []) + Alike(s, x, leq)
  {
    assert ([y] + s)[1..] == s;
  }

  lemma {:induction false} InsertIsStable<T(!new)>(y: T, s: seq<T>, x: T, leq: (T, T) -> bool)
    requires TotalPreorder(leq)
    ensures Alike(Insert(y, s, leq), x, leq) == (if Ties(leq, y, x) then [y] else []) + Alike(s, x, leq)
  {
    hide TotalPreorder, Alike;
    if s == [] || leq(y, s[0]) {
      AlikeFirst(y, s, x, leq);
    } else {
      var first, rest := s[0], s[1..];
      InsertIsStable(y, rest, x, leq);
      AlikeFirst(first, rest, x, leq);
      AlikeFirst(first, Insert(y, rest, leq), x, leq);
      assert s == [first] + rest;
      if leq(y, x) && leq(x, first) {
        Transitive(leq, y, x, first);
      }
      assert !(Ties(leq, y, x) && Ties(leq, first, x));
    }
  }

  /** Sorting leaves elements the order does not tell apart in the order they came. */
  lemma {:induction false} SortIsStable<T(!new)>(s: seq<T>, x: T, leq: (T, T) -> bool)
    requires TotalPreorder(leq)
    ensures Alike(SortBy(s, leq), x, leq) == Alike(s, x, leq)
  {
    hide TotalPreorder, Alike;
    if s != [] {
      SortIsStable(s[1..], x, leq);
      InsertIsStable(s[0], SortBy(s[1..], leq), x, leq);
      AlikeFirst(s[0], s[1..], x, leq);
      assert s == [s[0]] + s[1..];
    }
  }

  // ---------- text ----------

  predicate TextLeq(a: string, b: string) {
    a == "" || (b != "" && (a[0] < b[0] || (a[0] == b[0] && TextLeq(a[1..], b[1..]))))
  }

  lemma {:induction false} TextLeqOrders(a: string, b: string, c: string)
    ensures TextLeq(a, b) || TextLeq(b, a)
    ensures TextLeq(a, b) && TextLeq(b, a) ==> a == b
    ensures TextLeq(a, b) && TextLeq(b, c) ==> TextLeq(a, c)
    decreases |a|
  {
    if a != "" {
      if b != "" && a[0] == b[0] {
        TextLeqOrders(a[1..], b[1..], if c == "" then "" else c[1..]);
        assert a == [a[0]] + a[1..] && b == [b[0]] + b[1..];
      }
    }
  }

  ghost predicate DiffersBelow(a: string, b: string, k: nat) {
    k < |a| && k < |b| && a[..k] == b[..k] && a[k] < b[k]
  }

  lemma SameBeforeDiffering(a: string, b: string, k: nat)
    ensures DiffersBelow(a, b, k) && k > 0 ==> a[0] == b[0]
  {
    if k > 0 && k < |a| && k < |b| {
      assert a[..k][0] == a[0] && b[..k][0] == b[0];
    }
  }

  lemma DiffersLater(c: char, a: string, b: string, k: nat)
    ensures DiffersBelow([c] + a, [c] + b, k + 1) <==> DiffersBelow(a, b, k)
    ensures !DiffersBelow([c] + a, [c] + b, 0)
  {
    if k < |a| && k < |b| {
      assert ([c] + a)[..k + 1] == [c] + a[..k] && ([c] + b)[..k + 1] == [c] + b[..k];
      assert ([c] + a[..k])[1..] == a[..k] && ([c] + b[..k])[1..] == b[..k];
    }
  }

  /** Text comes before text it begins, and otherwise by the first character that differs. */
  lemma {:induction false} TextLeqMeans(a: string, b: string)
    ensures TextLeq(a, b) <==> a <= b || exists k: nat :: DiffersBelow(a, b, k)
    decreases |a|, 0
  {
    if a != "" && b != "" {
      assert a == [a[0]] + a[1..] && b == [b[0]] + b[1..];
      if a[0] == b[0] {
        SameFirst(a[0], a[1..], b[1..]);
      } else {
        assert DiffersBelow(a, b, 0) <==> a[0] < b[0];
        forall k: nat
          ensures DiffersBelow(a, b, k) ==> k == 0 || a[0] == b[0]
        {
          SameBeforeDiffering(a, b, k);
        }
      }
    }
  }

  lemma {:induction false} SameFirst(c: char, a: string, b: string)
    ensures TextLeq([c] + a, [c] + b) <==> [c] + a <= [c] + b || exists k: nat :: DiffersBelow([c] + a, [c] + b, k)
    decreases |a|, 1
  {
    hide DiffersBelow;
    TextLeqMeans(a, b);
    assert ([c] + a)[1..] == a && ([c] + b)[1..] == b;
    if k: nat :| DiffersBelow(a, b, k) {
      DiffersLater(c, a, b, k);
    }
    if k: nat :| DiffersBelow([c] + a, [c] + b, k) {
      DiffersLater(c, a, b, if k == 0 then 0 else k - 1);
    }
    assert [c] + a <= [c] + b <==> a <= b by {
      if [c] + a <= [c] + b {
        assert a == ([c] + b)[1..|a| + 1];
      }
    }
  }

  lemma TextLeqTotal()
    ensures TotalPreorder(TextLeq)
  {
    forall a, b
      ensures TextLeq(a, b) || TextLeq(b, a)
    {
      TextLeqOrders(a, b, "");
    }
    forall a, b, c | TextLeq(a, b) && TextLeq(b, c)
      ensures TextLeq(a, c)
    {
      TextLeqOrders(a, b, c);
    }
  }

  lemma TextLeqDecisive(s: seq<string>)
    ensures Decisive(s, TextLeq)
  {
    forall a, b | TextLeq(a, b) && TextLeq(b, a)
      ensures a == b
    {
      TextLeqOrders(a, b, "");
    }
  }

  /** sort.Strings */
  function SortTexts(s: seq<string>): seq<string> {
    SortBy(s, TextLeq)
  }

  /** Sorting text forgets the order it came in, and nothing else. */
  lemma SortTextsForgetsOrder(s: seq<string>, t: seq<string>)
    ensures SortTexts(s) == SortTexts(t) <==> multiset(s) == multiset(t)
    ensures multiset(SortTexts(s)) == multiset(s) && Sorted(SortTexts(s), TextLeq)
  {
    hide TotalPreorder, Decisive, Sorted, TextLeq;
    TextLeqTotal();
    SortBySorts(s, TextLeq);
    SortBySorts(t, TextLeq);
    if multiset(s) == multiset(t) {
      TextLeqDecisive(SortTexts(s));
      SortedIsUnique(SortTexts(s), SortTexts(t), TextLeq);
    }
  }

  /** The elements of a set of text, sorted. */
  ghost predicate ListsSet(out: seq<string>, s: set<string>) {
    && Sorted(out, TextLeq)
    && (forall x :: x in out <==> x in s)
    && (forall i, j | 0 <= i < j < |out| :: out[i] != out[j])
  }

  lemma ListingIsUnique(a: seq<string>, b: seq<string>, s: set<string>)
    requires ListsSet(a, s) && ListsSet(b, s)
    ensures a == b
  {
    hide Decisive, Sorted, TextLeq;
    TextLeqDecisive(a);
    MultisetOfDistinct(a, s);
    MultisetOfDistinct(b, s);
    SortedIsUnique(a, b, TextLeq);
  }

  lemma {:induction false} MultisetOfDistinct<T>(a: seq<T>, s: set<T>)
    requires (forall x :: x in a <==> x in s) && forall i, j | 0 <= i < j < |a| :: a[i] != a[j]
    ensures multiset(a) == multiset(s)
  {
    if a == [] {
      assert s == {};
    } else {
      var front, last := a[..|a| - 1], a[|a| - 1];
      assert a == front + [last];
      forall x
        ensures x in front <==> x in s - {last}
      {
        if x in s - {last} {
          assert x in front + [last];
        }
      }
      MultisetOfDistinct(front, s - {last});
      assert s == (s - {last}) + {last};
    }
  }

  // ---------- lists made element by element ----------

  function Indices(n: nat): (s: seq<nat>)
    ensures |s| == n && forall i | 0 <= i < n :: s[i] == i
  {
    seq(n, i => i)
  }

  function Mapped<A, B>(s: seq<A>, f: A -> B): (r: seq<B>)
    ensures |r| == |s| && forall i | 0 <= i < |s| :: r[i] == f(s[i])
  {
    seq(|s|, i requires 0 <= i < |s| => f(s[i]))
  }

  /** Taking out one occurrence of an element. */
  lemma WithoutOne<T>(b: seq<T>, i: nat)
    requires i < |b|
    ensures multiset(b[..i] + b[i + 1..]) == multiset(b) - multiset{b[i]}
  {
    assert b == b[..i] + [b[i]] + b[i + 1..];
  }

  lemma MappedAppends<A, B>(a: seq<A>, b: seq<A>, f: A -> B)
    ensures Mapped(a + b, f) == Mapped(a, f) + Mapped(b, f)
  {
  }

  lemma MappedMoves<A, B>(b: seq<A>, i: nat, f: A -> B)
    requires i < |b|
    ensures multiset(Mapped(b, f)) == multiset(Mapped([b[i]], f)) + multiset(Mapped(b[..i] + b[i + 1..], f))
  {
    hide Mapped;
    MappedAppends(b[..i], b[i + 1..], f);
    MappedAppends([b[i]], b[i + 1..], f);
    MappedAppends(b[..i], [b[i]] + b[i + 1..], f);
    assert b == b[..i] + ([b[i]] + b[i + 1..]);
  }

  lemma {:induction false} MappedForgetsOrder<A, B>(a: seq<A>, b: seq<A>, f: A -> B)
    requires multiset(a) == multiset(b)
    ensures multiset(Mapped(a, f)) == multiset(Mapped(b, f))
    decreases |a|
  {
    hide Mapped;
    if a == [] {
      assert |b| == |multiset(b)| == 0;
    } else {
      assert a == [a[0]] + a[1..];
      assert a[0] in multiset(b);
      var i :| 0 <= i < |b| && b[i] == a[0];
      WithoutOne(b, i);
      MappedForgetsOrder(a[1..], b[..i] + b[i + 1..], f);
      MappedMoves(b, i, f);
      MappedAppends([a[0]], a[1..], f);
    }
  }

  /** Go iterates a map in no fixed order; listing the keys and sorting them removes the accident. */
  method SortedKeys(s: set<string>) returns (out: seq<string>)
    ensures ListsSet(out, s)
  {
    var rest := s;
    var found: seq<string> := [];
    while rest != {}
      invariant rest <= s
      invariant forall x :: x in found <==> x in s - rest
      invariant forall i, j | 0 <= i < j < |found| :: found[i] != found[j]
      decreases rest
    {
      var x :| x in rest;
      assert x !in found;
      found := found + [x];
      rest := rest - {x};
    }
    out := SortTexts(found);
    SortedKeepsSet(found, s);
  }

  lemma SortedKeepsSet(found: seq<string>, s: set<string>)
    requires forall x :: x in found <==> x in s
    requires forall i, j | 0 <= i < j < |found| :: found[i] != found[j]
    ensures ListsSet(SortTexts(found), s)
  {
    hide Sorted, TextLeq;
    var out := SortTexts(found);
    SortTextsForgetsOrder(found, found);
    MultisetOfDistinct(found, s);
    forall x
      ensures x in out <==> x in s
    {
      assert x in out <==> x in multiset(out);
    }
    forall i, j | 0 <= i < j < |out|
      ensures out[i] != out[j]
    {
      if out[i] == out[j] {
        TwiceCounts(out, i, j);
      }
    }
  }

  lemma TwiceCounts<T>(s: seq<T>, i: nat, j: nat)
    requires i < j < |s| && s[i] == s[j]
    ensures multiset(s)[s[i]] >= 2
  {
    assert s == s[..j] + [s[j]] + s[j + 1..];
    assert s[i] in s[..j];
    assert multiset(s) == multiset(s[..j]) + multiset{s[j]} + multiset(s[j + 1..]);
  }

  /** The least text of a set; there is only one. */
  function Least(s: set<string>): (x: string)
    requires s != {}
    ensures IsLeast(x, s)
  {
    SomeLeast(s);
    LeastIsUnique(s);
    var x :| x in s && IsLeast(x, s);
    x
  }

  predicate IsLeast(x: string, s: set<string>) {
    x in s && forall y | y in s :: TextLeq(x, y)
  }

  lemma {:induction false} LeastExists(s: set<string>) returns (least: string)
    requires s != {}
    ensures IsLeast(least, s)
  {
    hide TextLeq;
    var x :| x in s;
    TextLeqOrders(x, x, x);
    if s == {x} {
      least := x;
    } else {
      var m := LeastExists(s - {x});
      TextLeqOrders(x, m, m);
      least := if TextLeq(m, x) then m else x;
      LeastStep(s, x, m, least);
    }
  }

  lemma SomeLeast(s: set<string>)
    requires s != {}
    ensures exists x :: x in s && IsLeast(x, s)
  {
    var least := LeastExists(s);
  }

  lemma LeastStep(s: set<string>, x: string, m: string, least: string)
    requires x in s && IsLeast(m, s - {x})
    requires least == (if TextLeq(m, x) then m else x) && TextLeq(least, m) && TextLeq(least, x)
    ensures IsLeast(least, s)
  {
    hide TextLeq;
    forall y | y in s
      ensures TextLeq(least, y)
    {
      TextLeqOrders(least, m, y);
    }
  }

  lemma LeastIsUnique(s: set<string>)
    ensures forall x, y | IsLeast(x, s) && IsLeast(y, s) :: x == y
  {
    forall x, y | IsLeast(x, s) && IsLeast(y, s)
      ensures x == y
    {
      TextLeqOrders(x, y, y);
    }
  }

  /** The sorted list of a set, as one value. */
  function Listing(s: set<string>): (out: seq<string>)
    ensures ListsSet(out, s)
  {
    if s == {} then []
    else
      var x := Least(s);
      var rest := Listing(s - {x});
      assert forall i | 0 <= i < |rest| :: rest[i] in rest;
      [x] + rest
  }

  lemma EmptyListing()
    ensures Listing({}) == []
  {
  }
}
