/**
 * `multisort`: sort a list by several attributes, most significant first, by
 * running Python's stable `list.sort` once per attribute from the least
 * significant to the most significant one. `reverse=True` sorts descending
 * and still keeps equal elements in their original order. The element type
 * is left generic; an attribute is the key function `attrgetter` builds.
 */
module Sorting {

  /** One `(attribute, reverse)` pair of a sort specification, the attribute read as a number. */
  datatype SortSpec<!T> = SortSpec(key: T -> real, reverse: bool)

  /** `a` belongs strictly before `b` under this spec. */
  predicate Before<T>(s: SortSpec<T>, a: T, b: T) {
    if s.reverse then s.key(a) > s.key(b) else s.key(a) < s.key(b)
  }

  predicate Tie<T>(s: SortSpec<T>, a: T, b: T) {
    s.key(a) == s.key(b)
  }

  predicate SortedBy<T>(s: SortSpec<T>, xs: seq<T>) {
    forall i, j :: 0 <= i < j < |xs| ==> !Before(s, xs[j], xs[i])
  }

  /** `a` comes no later than `b` in the lexicographic order of the specs. */
  predicate LexLe<T>(specs: seq<SortSpec<T>>, a: T, b: T) {
    if specs == [] then true
    else Before(specs[0], a, b) || (Tie(specs[0], a, b) && LexLe(specs[1..], a, b))
  }

  predicate LexSorted<T>(specs: seq<SortSpec<T>>, xs: seq<T>) {
    forall i, j :: 0 <= i < j < |xs| ==> LexLe(specs, xs[i], xs[j])
  }

  /** `a` and `b` have equal keys under every spec. */
  predicate AllTie<T>(specs: seq<SortSpec<T>>, a: T, b: T) {
    if specs == [] then true else Tie(specs[0], a, b) && AllTie(specs[1..], a, b)
  }

  /** The elements of `xs` whose keys all equal those of `e`, in their order in `xs`. */
  function Ties<T>(specs: seq<SortSpec<T>>, e: T, xs: seq<T>): (r: seq<T>)
    ensures |r| <= |xs|
  {
    if xs == [] then []
    else (if AllTie(specs, xs[0], e) then [xs[0]] else []) + Ties(specs, e, xs[1..])
  }

  /** A stable sort keeps every class of equal keys in its original order. */
  ghost predicate KeepsTies<T(!new)>(specs: seq<SortSpec<T>>, xs: seq<T>, ys: seq<T>) {
    forall e :: Ties(specs, e, ys) == Ties(specs, e, xs)
  }

  lemma AllTieSingle<T>(s: SortSpec<T>, a: T, b: T)
    ensures AllTie([s], a, b) == Tie(s, a, b)
  {
    assert [s][1..] == [];
  }

  lemma TiesSingleton<T>(specs: seq<SortSpec<T>>, e: T, x: T)
    ensures Ties(specs, e, [x]) == if AllTie(specs, x, e) then [x] else []
  {
    assert [x][1..] == [];
  }

  // ---------------------------------------------------------------------
  // One stable sort

  /** Place `x` after every element that does not belong strictly after it. */
  function Insert<T>(s: SortSpec<T>, x: T, xs: seq<T>): (r: seq<T>)
    ensures |r| == |xs| + 1
  {
    if xs == [] then [x]
    else if Before(s, x, xs[0]) then [x] + xs
    else [xs[0]] + Insert(s, x, xs[1..])
  }

  /** `list.sort(key=..., reverse=...)` as a stable insertion sort. */
  function SortBy<T>(s: SortSpec<T>, xs: seq<T>): (r: seq<T>)
    ensures |r| == |xs|
  {
    if xs == [] then [] else Insert(s, xs[|xs| - 1], SortBy(s, xs[..|xs| - 1]))
  }

  lemma {:induction false} InsertPermutes<T>(s: SortSpec<T>, x: T, xs: seq<T>)
    ensures multiset(Insert(s, x, xs)) == multiset(xs) + multiset{x}
  {
    if xs != [] && !Before(s, x, xs[0]) {
      InsertPermutes(s, x, xs[1..]);
      assert xs == [xs[0]] + xs[1..];
    }
  }

  /** Sorting only rearranges: the result is a permutation of the input. */
  lemma {:induction false} SortByPermutes<T>(s: SortSpec<T>, xs: seq<T>)
    ensures multiset(SortBy(s, xs)) == multiset(xs)
  {
    if xs != [] {
      SortByPermutes(s, xs[..|xs| - 1]);
      InsertPermutes(s, xs[|xs| - 1], SortBy(s, xs[..|xs| - 1]));
      assert xs == xs[..|xs| - 1] + [xs[|xs| - 1]];
    }
  }

  lemma {:induction false} InsertSorted<T>(s: SortSpec<T>, x: T, xs: seq<T>)
    requires SortedBy(s, xs)
    ensures SortedBy(s, Insert(s, x, xs))
  {
    if xs != [] && !Before(s, x, xs[0]) {
      InsertSorted(s, x, xs[1..]);
      InsertPermutes(s, x, xs[1..]);
      var rest := Insert(s, x, xs[1..]);
      forall j | 0 <= j < |rest|
        ensures !Before(s, rest[j], xs[0])
      {
        assert rest[j] in multiset(rest);
        assert rest[j] == x || rest[j] in multiset(xs[1..]);
        if rest[j] != x {
          var k :| 1 <= k < |xs| && xs[k] == rest[j];
        }
      }
    }
  }

  lemma {:induction false} SortBySorted<T>(s: SortSpec<T>, xs: seq<T>)
    ensures SortedBy(s, SortBy(s, xs))
  {
    if xs != [] {
      SortBySorted(s, xs[..|xs| - 1]);
      InsertSorted(s, xs[|xs| - 1], SortBy(s, xs[..|xs| - 1]));
    }
  }

  /** `xs` split at its head: the head's own share of `Ties`, then the rest's. */
  lemma TiesCons<T>(specs: seq<SortSpec<T>>, e: T, xs: seq<T>)
    requires xs != []
    ensures Ties(specs, e, xs) == Ties(specs, e, [xs[0]]) + Ties(specs, e, xs[1..])
  {
    TiesSingleton(specs, e, xs[0]);
  }

  lemma {:induction false} TiesConcat<T>(specs: seq<SortSpec<T>>, e: T, a: seq<T>, b: seq<T>)
    ensures Ties(specs, e, a + b) == Ties(specs, e, a) + Ties(specs, e, b)
  {
    if a == [] {
      assert a + b == b;
    } else {
      var ab := a + b;
      assert ab[0] == a[0] && ab[1..] == a[1..] + b;
      TiesConcat(specs, e, a[1..], b);
      TiesCons(specs, e, ab);
      TiesCons(specs, e, a);
      var h := Ties(specs, e, [a[0]]);
      assert Ties(specs, e, ab) == h + (Ties(specs, e, a[1..]) + Ties(specs, e, b));
      assert h + (Ties(specs, e, a[1..]) + Ties(specs, e, b)) == (h + Ties(specs, e, a[1..])) + Ties(specs, e, b);
    }
  }

  /** Under one spec, an element after which everything comes strictly later has no ties there. */
  lemma {:induction false} NoTiesAfter<T>(s: SortSpec<T>, x: T, e: T, xs: seq<T>)
    requires Tie(s, x, e)
    requires forall j :: 0 <= j < |xs| ==> Before(s, x, xs[j])
    ensures Ties([s], e, xs) == []
  {
    if xs != [] {
      NoTiesAfter(s, x, e, xs[1..]);
      AllTieSingle(s, xs[0], e);
    }
  }

  lemma {:induction false} InsertTies<T>(s: SortSpec<T>, x: T, e: T, xs: seq<T>)
    requires SortedBy(s, xs)
    ensures Ties([s], e, Insert(s, x, xs)) == Ties([s], e, xs) + Ties([s], e, [x])
  {
    var tx := Ties([s], e, [x]);
    TiesSingleton([s], e, x);
    if xs == [] {
      assert Insert(s, x, xs) == [x];
      assert Ties([s], e, xs) == [];
    } else if Before(s, x, xs[0]) {
      assert Insert(s, x, xs) == [x] + xs;
      TiesConcat([s], e, [x], xs);
      AllTieSingle(s, x, e);
      if Tie(s, x, e) {
        NoTiesAfter(s, x, e, xs);
      } else {
        assert tx == [];
      }
    } else {
      var rest := xs[1..];
      var head := if AllTie([s], xs[0], e) then [xs[0]] else [];
      assert SortedBy(s, rest);
      InsertTies(s, x, e, rest);
      var ins := [xs[0]] + Insert(s, x, rest);
      assert Insert(s, x, xs) == ins;
      assert ins[0] == xs[0] && ins[1..] == Insert(s, x, rest);
      calc {
        Ties([s], e, ins);
        head + Ties([s], e, Insert(s, x, rest));
        head + (Ties([s], e, rest) + tx);
        (head + Ties([s], e, rest)) + tx;
        Ties([s], e, xs) + tx;
      }
    }
  }

  /** Sorting by one spec is stable: each class of equal keys keeps its order. */
  lemma {:induction false} SortByTies<T>(s: SortSpec<T>, e: T, xs: seq<T>)
    ensures Ties([s], e, SortBy(s, xs)) == Ties([s], e, xs)
  {
    if xs != [] {
      var init, last := xs[..|xs| - 1], xs[|xs| - 1];
      SortByTies(s, e, init);
      SortBySorted(s, init);
      InsertTies(s, last, e, SortBy(s, init));
      TiesConcat([s], e, init, [last]);
      assert init + [last] == xs;
    }
  }

  // ---------------------------------------------------------------------
  // From one stable sort to the lexicographic order

  /** Tying under `specs` is tying under its head and then under its tail. */
  lemma AllTieCons<T>(specs: seq<SortSpec<T>>, x: T, e: T)
    requires specs != []
    ensures AllTie(specs, x, e) == (AllTie([specs[0]], x, e) && AllTie(specs[1..], x, e))
  {
    AllTieSingle(specs[0], x, e);
  }

  /** Selecting the ties under the tail of the specs, then under its head, selects the ties under all of them. */
  lemma {:induction false} TiesHeadOfTail<T>(specs: seq<SortSpec<T>>, e: T, xs: seq<T>)
    requires specs != []
    ensures Ties(specs, e, xs) == Ties([specs[0]], e, Ties(specs[1..], e, xs))
  {
    if xs != [] {
      var x, rest := xs[0], xs[1..];
      TiesHeadOfTail(specs, e, rest);
      AllTieCons(specs, x, e);
      TiesCons(specs, e, xs);
      TiesCons(specs[1..], e, xs);
      var hr := Ties(specs[1..], e, [x]);
      TiesSingleton(specs[1..], e, x);
      TiesConcat([specs[0]], e, hr, Ties(specs[1..], e, rest));
      TiesSingleton([specs[0]], e, x);
      TiesSingleton(specs, e, x);
    }
  }

  /** Selecting the ties under the head of the specs, then under its tail, selects the ties under all of them. */
  lemma {:induction false} TiesTailOfHead<T>(specs: seq<SortSpec<T>>, e: T, xs: seq<T>)
    requires specs != []
    ensures Ties(specs, e, xs) == Ties(specs[1..], e, Ties([specs[0]], e, xs))
  {
    if xs != [] {
      var x, rest := xs[0], xs[1..];
      TiesTailOfHead(specs, e, rest);
      AllTieCons(specs, x, e);
      TiesCons(specs, e, xs);
      TiesCons([specs[0]], e, xs);
      var hr := Ties([specs[0]], e, [x]);
      TiesSingleton([specs[0]], e, x);
      TiesConcat(specs[1..], e, hr, Ties([specs[0]], e, rest));
      TiesSingleton(specs[1..], e, x);
      TiesSingleton(specs, e, x);
    }
  }

  /** Every element of `Ties` is an element of `xs`. */
  lemma {:induction false} TiesWithin<T>(specs: seq<SortSpec<T>>, e: T, xs: seq<T>)
    ensures forall y :: y in Ties(specs, e, xs) ==> y in xs
  {
    if xs != [] {
      TiesWithin(specs, e, xs[1..]);
      TiesCons(specs, e, xs);
      TiesSingleton(specs, e, xs[0]);
    }
  }

  /** The ties of a sorted sequence are sorted. */
  lemma {:induction false} TiesSorted<T>(specs: seq<SortSpec<T>>, r: seq<SortSpec<T>>, e: T, xs: seq<T>)
    requires LexSorted(r, xs)
    ensures LexSorted(r, Ties(specs, e, xs))
  {
    if xs != [] {
      var x, rest := xs[0], xs[1..];
      assert LexSorted(r, rest);
      TiesSorted(specs, r, e, rest);
      TiesCons(specs, e, xs);
      TiesSingleton(specs, e, x);
      var t := Ties(specs, e, rest);
      if AllTie(specs, x, e) {
        TiesWithin(specs, e, rest);
        forall k | 0 <= k < |t|
          ensures LexLe(r, x, t[k])
        {
          assert t[k] in rest;
          var j :| 0 <= j < |rest| && rest[j] == t[k];
          assert xs[j + 1] == t[k];
        }
        var u := [x] + t;
        forall i, j | 0 <= i < j < |u|
          ensures LexLe(r, u[i], u[j])
        {
          if i > 0 {
            assert u[i] == t[i - 1] && u[j] == t[j - 1];
          } else {
            assert u[j] == t[j - 1];
          }
        }
      }
    }
  }

  /** An element of `xs` that ties with `e` appears in `Ties`. */
  lemma {:induction false} TiesContains<T>(specs: seq<SortSpec<T>>, e: T, xs: seq<T>, j: int)
    requires 0 <= j < |xs| && AllTie(specs, xs[j], e)
    ensures exists k :: 0 <= k < |Ties(specs, e, xs)| && Ties(specs, e, xs)[k] == xs[j]
  {
    TiesCons(specs, e, xs);
    TiesSingleton(specs, e, xs[0]);
    if j > 0 {
      TiesContains(specs, e, xs[1..], j - 1);
      var t, h := Ties(specs, e, xs[1..]), Ties(specs, e, [xs[0]]);
      var k :| 0 <= k < |t| && t[k] == xs[j];
      assert Ties(specs, e, xs)[|h| + k] == xs[j];
    } else {
      assert Ties(specs, e, xs)[0] == xs[0];
    }
  }

  /** Two elements of `xs` in order that both tie with `e` appear in that order in `Ties`. */
  lemma {:induction false} TiesPositions<T>(specs: seq<SortSpec<T>>, e: T, xs: seq<T>, i: int, j: int)
    requires 0 <= i < j < |xs| && AllTie(specs, xs[i], e) && AllTie(specs, xs[j], e)
    ensures var t := Ties(specs, e, xs);
      exists i', j' :: 0 <= i' < j' < |t| && t[i'] == xs[i] && t[j'] == xs[j]
  {
    TiesCons(specs, e, xs);
    TiesSingleton(specs, e, xs[0]);
    var t, h, tr := Ties(specs, e, xs), Ties(specs, e, [xs[0]]), Ties(specs, e, xs[1..]);
    if i > 0 {
      TiesPositions(specs, e, xs[1..], i - 1, j - 1);
      var i', j' :| 0 <= i' < j' < |tr| && tr[i'] == xs[i] && tr[j'] == xs[j];
      assert t[|h| + i'] == xs[i] && t[|h| + j'] == xs[j];
    } else {
      TiesContains(specs, e, xs[1..], j - 1);
      var k :| 0 <= k < |tr| && tr[k] == xs[j];
      assert t[0] == xs[i] && t[1 + k] == xs[j];
    }
  }

  /**
   * One stable sort by `s` of a sequence already sorted, stably, by the
   * remaining specs gives a sequence sorted, stably, by `s` followed by them.
   */
  lemma StableStep<T(!new)>(s: SortSpec<T>, rest: seq<SortSpec<T>>, xs: seq<T>, ts: seq<T>)
    requires LexSorted(rest, ts) && KeepsTies(rest, xs, ts)
    ensures LexSorted([s] + rest, SortBy(s, ts))
    ensures KeepsTies([s] + rest, xs, SortBy(s, ts))
  {
    StableStepSorted(s, rest, ts);
    forall e
      ensures Ties([s] + rest, e, SortBy(s, ts)) == Ties([s] + rest, e, xs)
    {
      StableStepTies(s, rest, e, xs, ts);
    }
  }

  lemma StableStepSorted<T>(s: SortSpec<T>, rest: seq<SortSpec<T>>, ts: seq<T>)
    requires LexSorted(rest, ts)
    ensures LexSorted([s] + rest, SortBy(s, ts))
  {
    var specs := [s] + rest;
    assert specs[0] == s && specs[1..] == rest;
    var ss := SortBy(s, ts);
    SortBySorted(s, ts);
    forall i, j | 0 <= i < j < |ss|
      ensures LexLe(specs, ss[i], ss[j])
    {
      if !Before(s, ss[i], ss[j]) {
        var e := ss[i];
        AllTieSingle(s, ss[i], e);
        AllTieSingle(s, ss[j], e);
        TiesPositions([s], e, ss, i, j);
        SortByTies(s, e, ts);
        TiesSorted([s], rest, e, ts);
        var t := Ties([s], e, ss);
        var i', j' :| 0 <= i' < j' < |t| && t[i'] == ss[i] && t[j'] == ss[j];
        assert LexLe(rest, t[i'], t[j']);
      }
    }
  }

  lemma StableStepTies<T>(s: SortSpec<T>, rest: seq<SortSpec<T>>, e: T, xs: seq<T>, ts: seq<T>)
    requires Ties(rest, e, ts) == Ties(rest, e, xs)
    ensures Ties([s] + rest, e, SortBy(s, ts)) == Ties([s] + rest, e, xs)
  {
    var specs := [s] + rest;
    assert specs[0] == s && specs[1..] == rest;
    TiesTailOfHead(specs, e, SortBy(s, ts));
    SortByTies(s, e, ts);
    TiesTailOfHead(specs, e, ts);
    TiesHeadOfTail(specs, e, ts);
    TiesHeadOfTail(specs, e, xs);
  }

  /**
   * `multisort(xs, specs)`: one stable sort per spec, the last spec first.
   * The result is a permutation of the input, sorted lexicographically by the
   * specs, and alerts equal under every spec keep their input order.
   */
  method Multisort<T(!new)>(xs: seq<T>, specs: seq<SortSpec<T>>) returns (ys: seq<T>)
    ensures multiset(ys) == multiset(xs)
    ensures LexSorted(specs, ys)
    ensures KeepsTies(specs, xs, ys)
  {
    ys := xs;
    var i := |specs|;
    while i > 0
      invariant 0 <= i <= |specs|
      invariant multiset(ys) == multiset(xs)
      invariant LexSorted(specs[i..], ys)
      invariant KeepsTies(specs[i..], xs, ys)
    {
      i := i - 1;
      StableStep(specs[i], specs[i + 1..], xs, ys);
      SortByPermutes(specs[i], ys);
      assert [specs[i]] + specs[i + 1..] == specs[i..];
      ys := SortBy(specs[i], ys);
    }
  }

  // ---------------------------------------------------------------------
  // The head of a sorted result

  lemma {:induction false} AllTieReflexive<T>(specs: seq<SortSpec<T>>, x: T)
    ensures AllTie(specs, x, x)
  {
    if specs != [] {
      AllTieReflexive(specs[1..], x);
    }
  }

  lemma {:induction false} LexLeReflexive<T>(specs: seq<SortSpec<T>>, x: T)
    ensures LexLe(specs, x, x)
  {
    if specs != [] {
      LexLeReflexive(specs[1..], x);
    }
  }

  /** The first of the ties is the first element of `xs` that ties with `e`. */
  lemma {:induction false} TiesFirst<T>(specs: seq<SortSpec<T>>, e: T, xs: seq<T>)
    requires Ties(specs, e, xs) != []
    ensures exists i ::
              && 0 <= i < |xs| && xs[i] == Ties(specs, e, xs)[0]
              && forall k :: 0 <= k < i ==> !AllTie(specs, xs[k], e)
  {
    TiesCons(specs, e, xs);
    TiesSingleton(specs, e, xs[0]);
    if !AllTie(specs, xs[0], e) {
      TiesFirst(specs, e, xs[1..]);
      var i :| 0 <= i < |xs[1..]| && xs[1..][i] == Ties(specs, e, xs[1..])[0]
        && forall k :: 0 <= k < i ==> !AllTie(specs, xs[1..][k], e);
      assert xs[i + 1] == Ties(specs, e, xs)[0];
      forall k | 0 <= k < i + 1
        ensures !AllTie(specs, xs[k], e)
      {
        if k > 0 {
          assert xs[k] == xs[1..][k - 1];
        }
      }
    } else {
      assert xs[0] == Ties(specs, e, xs)[0];
    }
  }

  /**
   * The head of a multisorted list comes no later than any element, and it
   * is the first element of the input among those with keys equal to its own.
   */
  lemma SortedHead<T(!new)>(specs: seq<SortSpec<T>>, xs: seq<T>, ys: seq<T>)
    requires ys != [] && LexSorted(specs, ys) && KeepsTies(specs, xs, ys)
    ensures forall j :: 0 <= j < |ys| ==> LexLe(specs, ys[0], ys[j])
    ensures exists i ::
              && 0 <= i < |xs| && xs[i] == ys[0]
              && forall k :: 0 <= k < i ==> !AllTie(specs, xs[k], ys[0])
  {
    LexLeReflexive(specs, ys[0]);
    var e := ys[0];
    AllTieReflexive(specs, e);
    TiesCons(specs, e, ys);
    TiesSingleton(specs, e, e);
    assert Ties(specs, e, ys)[0] == e;
    assert Ties(specs, e, xs) == Ties(specs, e, ys);
    TiesFirst(specs, e, xs);
  }
}
