/** Small pieces shared by every component: optional values, lists and sorting. */
module Common {

  datatype Option<+T> = None | Some(value: T)

  /** A new value, and whether the step that wrote it ran to its end rather than raising. */
  datatype Step<+T> = Step(value: T, ok: bool)

  /** A loop that rewrites a list item by item and stops at the first step that raises. */
  function StepAll<T>(xs: seq<T>, f: T -> Step<T>): (o: Step<seq<T>>)
    ensures |o.value| == |xs|
  {
    if xs == [] then Step([], true)
    else
      var head := f(xs[0]);
      if !head.ok then Step([head.value] + xs[1..], false)
      else
        var tail := StepAll(xs[1..], f);
        Step([head.value] + tail.value, tail.ok)
  }

  /** Each item ends stepped or untouched; if the loop ran to its end, every item was stepped. */
  lemma {:induction false} StepAllAt<T>(xs: seq<T>, f: T -> Step<T>, i: nat)
    requires i < |xs|
    ensures StepAll(xs, f).value[i] == xs[i] || StepAll(xs, f).value[i] == f(xs[i]).value
    ensures StepAll(xs, f).ok ==> f(xs[i]) == Step(StepAll(xs, f).value[i], true)
  {
    if i > 0 && f(xs[0]).ok {
      StepAllAt(xs[1..], f, i - 1);
    }
  }

  lemma {:induction false} StepAllOk<T>(xs: seq<T>, f: T -> Step<T>)
    requires forall i :: 0 <= i < |xs| ==> f(xs[i]).ok
    ensures StepAll(xs, f).ok
    ensures forall i :: 0 <= i < |xs| ==> StepAll(xs, f).value[i] == f(xs[i]).value
  {
    if xs != [] {
      assert f(xs[0]).ok;
      forall i | 0 <= i < |xs[1..]| ensures f(xs[1..][i]).ok { assert xs[1..][i] == xs[i + 1]; }
      StepAllOk(xs[1..], f);
    }
  }

  /** A list on which every step is the identity is left alone. */
  lemma StepAllFixed<T>(xs: seq<T>, f: T -> Step<T>)
    requires forall i :: 0 <= i < |xs| ==> f(xs[i]) == Step(xs[i], true)
    ensures StepAll(xs, f) == Step(xs, true)
  {
    StepAllOk(xs, f);
    assert StepAll(xs, f).value == xs;
  }

  function Iterate<T>(f: T -> T, x: T, n: nat): T {
    if n == 0 then x else f(Iterate(f, x, n - 1))
  }

  /** What every step keeps holds from then on. */
  lemma {:induction false} IterateKeeps<T(!new)>(f: T -> T, P: T -> bool, x: T, m: nat, n: nat)
    requires m <= n && P(Iterate(f, x, m)) && forall y {:trigger f(y)} :: P(y) ==> P(f(y))
    ensures P(Iterate(f, x, n))
    decreases n
  {
    if m < n { IterateKeeps(f, P, x, m, n - 1); }
  }

  /** What one step brings about, and the next cannot undo, stays for good. */
  lemma {:induction false} OnceForGood<T(!new)>(f: T -> T, P: T -> bool, bad: T -> bool, x: T, m: nat, n: nat)
    requires P(x) && !bad(x) && forall y {:trigger f(y)} :: P(y) ==> P(f(y))
    requires forall y {:trigger f(f(y))} :: P(y) && bad(f(y)) ==> bad(f(f(y)))
    requires m <= n && bad(Iterate(f, x, m))
    ensures bad(Iterate(f, x, n))
    decreases n
  {
    if m < n {
      var before := Iterate(f, x, n - 2);
      OnceForGood(f, P, bad, x, m, n - 1);
      IterateKeeps(f, P, x, 0, n - 2);
      assert f(f(before)) == Iterate(f, x, n);
    }
  }

  /** Elements of `s` that also occur in `keep`, in the order of `s`. */
  function Filter(s: seq<int>, keep: seq<int>): seq<int> {
    if s == [] then []
    else if s[0] in keep then [s[0]] + Filter(s[1..], keep)
    else Filter(s[1..], keep)
  }

  lemma {:induction false} FilterMultiset(s: seq<int>, keep: seq<int>, x: int)
    ensures multiset(Filter(s, keep))[x] == if x in keep then multiset(s)[x] else 0
  {
    if s != [] {
      FilterMultiset(s[1..], keep, x);
      assert s == [s[0]] + s[1..];
      assert multiset(s) == multiset{s[0]} + multiset(s[1..]);
      if s[0] in keep {
        assert multiset(Filter(s, keep)) == multiset{s[0]} + multiset(Filter(s[1..], keep));
      }
    }
  }

  /** Template-type names are modelled as ranks in the string order the source sorts by. */
  predicate Sorted(s: seq<int>) {
    forall i, j :: 0 <= i < j < |s| ==> s[i] <= s[j]
  }

  function Insert(x: int, s: seq<int>): seq<int> {
    if s == [] || x <= s[0] then [x] + s else [s[0]] + Insert(x, s[1..])
  }

  /** Python's `sorted`. */
  function Sort(s: seq<int>): seq<int> {
    if s == [] then [] else Insert(s[0], Sort(s[1..]))
  }

  lemma {:induction false} InsertMultiset(x: int, s: seq<int>)
    ensures multiset(Insert(x, s)) == multiset{x} + multiset(s)
  {
    if !(s == [] || x <= s[0]) {
      assert s == [s[0]] + s[1..];
      InsertMultiset(x, s[1..]);
    }
  }

  lemma {:induction false} InsertSorted(x: int, s: seq<int>)
    requires Sorted(s)
    ensures Sorted(Insert(x, s))
  {
    if !(s == [] || x <= s[0]) {
      InsertSorted(x, s[1..]);
      InsertMultiset(x, s[1..]);
      var t := Insert(x, s[1..]);
      forall j | 0 <= j < |t| ensures s[0] <= t[j] {
        assert t[j] in multiset(t);
        if t[j] != x { assert t[j] in s[1..]; }
      }
    }
  }

  /** `sorted` returns the same elements, in order. */
  lemma {:induction false} SortSorts(s: seq<int>)
    ensures Sorted(Sort(s)) && multiset(Sort(s)) == multiset(s)
  {
    if s != [] {
      SortSorts(s[1..]);
      assert s == [s[0]] + s[1..];
      InsertSorted(s[0], Sort(s[1..]));
      InsertMultiset(s[0], Sort(s[1..]));
    }
  }

  lemma SortEmpty(s: seq<int>)
    ensures Sort(s) == [] <==> s == []
  {
    SortSorts(s);
    assert |multiset(Sort(s))| == |multiset(s)|;
    assert |multiset(s)| == |s|;
  }

  lemma HeadIsLeast(a: seq<int>, b: seq<int>)
    requires Sorted(a) && a != [] && b != [] && multiset(a) == multiset(b)
    ensures a[0] <= b[0]
  {
    assert b[0] in multiset(b);
    assert b[0] in a;
  }

  /** A sorted list is determined by its elements, so `sorted` forgets order and nothing else. */
  lemma {:induction false} SortedUnique(a: seq<int>, b: seq<int>)
    requires Sorted(a) && Sorted(b) && multiset(a) == multiset(b)
    ensures a == b
  {
    if a == [] || b == [] {
      assert |multiset(a)| == |a| && |multiset(b)| == |b|;
    } else {
      HeadIsLeast(a, b);
      HeadIsLeast(b, a);
      assert a == [a[0]] + a[1..] && b == [b[0]] + b[1..];
      assert multiset(a[1..]) == multiset(a) - multiset{a[0]};
      assert multiset(b[1..]) == multiset(b) - multiset{b[0]};
      SortedUnique(a[1..], b[1..]);
    }
  }

  lemma SortEqual(a: seq<int>, b: seq<int>)
    requires multiset(a) == multiset(b)
    ensures Sort(a) == Sort(b)
  {
    SortSorts(a);
    SortSorts(b);
    SortedUnique(Sort(a), Sort(b));
  }

  lemma SortIdempotent(s: seq<int>)
    ensures Sort(Sort(s)) == Sort(s)
  {
    SortSorts(s);
    SortEqual(Sort(s), s);
  }

  /** A list is in order exactly when sorting does not change it. */
  lemma SortedIff(s: seq<int>)
    ensures Sort(s) == s <==> Sorted(s)
  {
    SortSorts(s);
    if Sorted(s) { SortedUnique(Sort(s), s); }
  }

  /** Filtering before or after sorting leaves the same elements. */
  lemma SortFilter(s: seq<int>, keep: seq<int>)
    ensures Sort(Filter(Sort(s), keep)) == Sort(Filter(s, keep))
  {
    SortSorts(s);
    forall x ensures multiset(Filter(Sort(s), keep))[x] == multiset(Filter(s, keep))[x] {
      FilterMultiset(Sort(s), keep, x);
      FilterMultiset(s, keep, x);
    }
    SortEqual(Filter(Sort(s), keep), Filter(s, keep));
  }
}
