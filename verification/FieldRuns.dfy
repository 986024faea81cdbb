/** The field step repeated with the defaults held fixed, and what a change of the defaults does to it. */
module FieldRuns {
  import opened Common
  import opened ChangeFields

  function FieldStep(defaults: seq<ChangeField>): Outcome -> Outcome {
    (o: Outcome) => TablePass(o.rows, defaults)
  }

  /** The table after `n` passes, each of which loads it anew, and whether the last field step ran to its end. */
  function FieldRun(rows: seq<ChangeField>, defaults: seq<ChangeField>, n: nat): Outcome {
    Iterate(FieldStep(defaults), Outcome(rows, true), n)
  }

  // ---- the unique indexes ----

  lemma {:induction false} UpdateKeepsIndexes(rows: seq<ChangeField>, defaults: seq<ChangeField>, i: nat)
    requires Indexed(rows) && i <= |rows|
    ensures Indexed(UpdateFields(rows, defaults, i).rows)
    decreases |rows| - i
  {
    if i < |rows| {
      var t := Target(rows[i], defaults);
      if t == rows[i] {
        UpdateKeepsIndexes(rows, defaults, i + 1);
      } else if !ElementTaken(rows, i, t.element) {
        UpdateKeepsIndexes(rows[i := t], defaults, i + 1);
      }
    }
  }

  lemma {:induction false} InsertKeepsIndexes(rows: seq<ChangeField>, defaults: seq<ChangeField>, count: int, i: nat)
    requires Indexed(rows) && i <= |defaults|
    ensures Indexed(InsertFields(rows, defaults, count, i).rows)
    decreases |defaults| - i
  {
    if i < |defaults| {
      if defaults[i].element < count {
        InsertKeepsIndexes(rows, defaults, count, i + 1);
      } else if !Blocked(rows, defaults[i]) {
        InsertKeepsIndexes(rows + [defaults[i]], defaults, count, i + 1);
      }
    }
  }

  /** No field step, completed or not, breaks an index. */
  lemma PassKeepsIndexes(rows: seq<ChangeField>, defaults: seq<ChangeField>)
    requires Indexed(rows)
    ensures Indexed(FieldPass(rows, defaults).rows)
  {
    UpdateKeepsIndexes(rows, defaults, 0);
    var updated := UpdateFields(rows, defaults, 0).rows;
    InsertKeepsIndexes(updated, defaults, |rows|, 0);
    var added := InsertFields(updated, defaults, |rows|, 0).rows;
    KeepsUniqueKeys(updated, defaults);
    KeepsUniqueElements(updated, defaults);
    KeepsUniqueKeys(added, defaults);
    KeepsUniqueElements(added, defaults);
  }

  /** So a pass leaves a table. */
  lemma PassLeavesTable(rows: seq<ChangeField>, defaults: seq<ChangeField>)
    requires Indexed(rows)
    ensures IsTable(TablePass(rows, defaults).rows)
  {
    PassKeepsIndexes(rows, defaults);
    ByElementSorts(FieldPass(rows, defaults).rows);
    ByElementIndexed(FieldPass(rows, defaults).rows);
  }

  lemma RunLeavesTable(rows: seq<ChangeField>, defaults: seq<ChangeField>, n: nat)
    requires IsTable(rows)
    ensures IsTable(FieldRun(rows, defaults, n).rows)
  {
    var f := FieldStep(defaults);
    var table := (o: Outcome) => IsTable(o.rows);
    forall o | table(o) ensures table(f(o)) { PassLeavesTable(o.rows, defaults); }
    IterateKeeps(f, table, Outcome(rows, true), 0, n);
  }

  /** What does not depend on the order of the rows. */
  lemma LoadedSame(rows: seq<ChangeField>, defaults: seq<ChangeField>)
    ensures var t := ByElement(rows);
            && |t| == |rows| && (forall f :: f in t <==> f in rows)
            && (forall f :: Blocked(t, f) <==> Blocked(rows, f))
            && (KeysFit(t, defaults) <==> KeysFit(rows, defaults))
  {
    var t := ByElement(rows);
    ByElementSame(rows);
    forall key ensures HasKey(t, key) <==> HasKey(rows, key) {
      if HasKey(t, key) { var i :| 0 <= i < |t| && t[i].key == key; assert t[i] in rows; }
      if HasKey(rows, key) { var i :| 0 <= i < |rows| && rows[i].key == key; assert rows[i] in t; }
    }
    forall e ensures ElementTaken(t, -1, e) <==> ElementTaken(rows, -1, e) {
      if ElementTaken(t, -1, e) { var i :| 0 <= i < |t| && t[i].element == e; assert t[i] in rows; }
      if ElementTaken(rows, -1, e) { var i :| 0 <= i < |rows| && rows[i].element == e; assert rows[i] in t; }
    }
  }

  lemma LoadedSameFields(rows: seq<ChangeField>, defaults: seq<ChangeField>)
    requires UniqueKeys(rows)
    ensures SameFields(ByElement(rows), defaults) <==> SameFields(rows, defaults)
  {
    LoadedSame(rows, defaults);
    ByElementIndexed(rows);
  }

  // ---- a step that raises ----

  /** The field `f` is to be moved onto the element of `g`, which is above it or is deleted only later. */
  predicate Pinned(rows: seq<ChangeField>, defaults: seq<ChangeField>, f: ChangeField, g: ChangeField) {
    && f in rows && g in rows && f.key != g.key
    && HasKey(defaults, f.key) && Target(f, defaults).element == g.element
    && (HasKey(defaults, g.key) ==> f.element < g.element)
  }

  /** The elements of a table fit exactly when no field is moved up onto an element in use, or onto that of a field
      that is no default. */
  lemma ElementsFitIff(rows: seq<ChangeField>, defaults: seq<ChangeField>)
    requires IsTable(rows)
    ensures ElementsFit(rows, defaults) <==> forall f, g :: !Pinned(rows, defaults, f, g)
  {
    if !ElementsFit(rows, defaults) {
      var i :| 0 <= i < |rows| && !StepFits(rows, defaults, i);
      var j :| 0 <= j < |rows| && j != i && (i < j || !HasKey(defaults, rows[j].key))
               && rows[j].element == Target(rows[i], defaults).element;
      PinnedAt(rows, defaults, i, j);
    }
    if f, g :| Pinned(rows, defaults, f, g) {
      var i :| 0 <= i < |rows| && rows[i] == f;
      var j :| 0 <= j < |rows| && rows[j] == g;
      assert HasKey(defaults, g.key) ==> i < j;
      assert !StepFits(rows, defaults, i);
    }
  }

  lemma PinnedAt(rows: seq<ChangeField>, defaults: seq<ChangeField>, i: nat, j: nat)
    requires IsTable(rows) && i < |rows| && j < |rows| && i != j && HasKey(defaults, rows[i].key)
    requires rows[j].element == Target(rows[i], defaults).element && (i < j || !HasKey(defaults, rows[j].key))
    ensures Pinned(rows, defaults, rows[i], rows[j])
  {
    if i < j { assert rows[i].key != rows[j].key; } else { assert rows[j].key != rows[i].key; }
    if HasKey(defaults, rows[j].key) { assert rows[i].element != rows[j].element; }
  }

  /** Where the update loop raises. */
  lemma {:induction false} UpdateStops(rows: seq<ChangeField>, defaults: seq<ChangeField>, i: nat) returns (k: nat)
    requires Indexed(rows) && WellNumbered(defaults) && i <= |rows|
    requires !UpdateFields(Mixed(rows, defaults, i), defaults, i).ok
    ensures i <= k < |rows| && !StepFits(rows, defaults, k)
    ensures UpdateFields(Mixed(rows, defaults, i), defaults, i).rows == Mixed(rows, defaults, k)
    decreases |rows| - i
  {
    var m := Mixed(rows, defaults, i);
    var t := Target(rows[i], defaults);
    if HasKey(defaults, rows[i].key) && t != rows[i] && ElementTaken(m, i, t.element) {
      StepCollides(rows, defaults, i);
      k := i;
    } else {
      assert m[i := t] == Mixed(rows, defaults, i + 1);
      assert t == rows[i] ==> m == m[i := t];
      k := UpdateStops(rows, defaults, i + 1);
    }
  }

  /** An update that raised leaves a table in which the same field is pinned. */
  lemma UpdateAgain(rows: seq<ChangeField>, defaults: seq<ChangeField>)
    requires IsTable(rows) && WellNumbered(defaults) && !UpdateFields(rows, defaults, 0).ok
    ensures !FieldPass(ByElement(UpdateFields(rows, defaults, 0).rows), defaults).ok
  {
    assert Mixed(rows, defaults, 0) == rows;
    var k := UpdateStops(rows, defaults, 0);
    var j :| 0 <= j < |rows| && j != k && (k < j || !HasKey(defaults, rows[j].key))
             && rows[j].element == Target(rows[k], defaults).element;
    PinnedAt(rows, defaults, k, j);
    var m := Mixed(rows, defaults, k);
    assert m[k] == rows[k] && m[j] == rows[j];
    UpdateKeepsIndexes(rows, defaults, 0);
    ByElementIndexed(m);
    ByElementSorts(m);
    LoadedSame(m, defaults);
    assert Pinned(ByElement(m), defaults, rows[k], rows[j]);
    ElementsFitIff(ByElement(m), defaults);
    PassExactly(ByElement(m), defaults);
  }

  /** Where the insert loop raises, and what it had added. */
  lemma {:induction false} InsertStops(rows: seq<ChangeField>, defaults: seq<ChangeField>, count: int, i: nat)
    returns (k: nat)
    requires WellNumbered(defaults) && i <= |defaults| && !InsertFields(rows, defaults, count, i).ok
    ensures i <= k < |defaults| && defaults[k].element >= count
    ensures var r := InsertFields(rows, defaults, count, i).rows;
            r == rows + Between(defaults[i..k], count, |defaults|) && Blocked(r, defaults[k])
    decreases |defaults| - i
  {
    var d := defaults[i];
    if d.element < count {
      k := InsertStops(rows, defaults, count, i + 1);
      assert defaults[i..k][0] == d && defaults[i..k][1..] == defaults[i + 1..k];
    } else if Blocked(rows, d) {
      k := i;
      assert rows + [] == rows;
    } else {
      k := InsertStops(rows + [d], defaults, count, i + 1);
      assert defaults[i..k][0] == d && defaults[i..k][1..] == defaults[i + 1..k];
    }
  }

  /** Pigeonhole: among distinct numbers from `lo` on, one is at least as far as there are numbers. */
  lemma FarElement(s: seq<ChangeField>, lo: int) returns (k: nat)
    requires UniqueElements(s) && s != [] && forall f :: f in s ==> lo <= f.element
    ensures k < |s| && s[k].element >= lo + |s| - 1
  {
    if forall i :: 0 <= i < |s| ==> s[i].element < lo + |s| - 1 {
      ElementSetSize(s);
      SubsetSize(ElementSet(s), Numbers(lo, |s| - 1));
      assert false;
    }
    k :| 0 <= k < |s| && s[k].element >= lo + |s| - 1;
  }

  lemma AddedAndNext(defaults: seq<ChangeField>, count: int, k: nat)
    requires WellNumbered(defaults) && k < |defaults| && defaults[k].element >= count
    ensures var all := Between(defaults[..k], count, |defaults|) + [defaults[k]];
            Indexed(all) && forall f :: f in all ==> f in defaults && count <= f.element
  {
    assert defaults[..k + 1] == defaults[..k] + [defaults[k]];
    BetweenSplit(defaults[..k], [defaults[k]], count, |defaults|);
    assert Between([defaults[k]], count, |defaults|) == [defaults[k]];
    BetweenIsIndexed(defaults[..k + 1], count, |defaults|);
  }

  /** Among the defaults added before an insert raised and the one that raised, one is numbered so far up that it
      would be inserted again, and it is blocked. */
  lemma StillBlocked(rows: seq<ChangeField>, defaults: seq<ChangeField>, k: nat) returns (p: nat)
    requires WellNumbered(defaults) && k < |defaults| && defaults[k].element >= |rows|
    requires Blocked(rows + Between(defaults[..k], |rows|, |defaults|), defaults[k])
    ensures var r := rows + Between(defaults[..k], |rows|, |defaults|);
            p < |defaults| && defaults[p].element >= |r| && Blocked(r, defaults[p])
  {
    var added := Between(defaults[..k], |rows|, |defaults|);
    AddedAndNext(defaults, |rows|, k);
    var m := FarElement(added + [defaults[k]], |rows|);
    if m < |added| {
      assert (rows + added)[|rows| + m] == added[m] && added[m] in added;
      p :| 0 <= p < k && defaults[p] == added[m];
      assert HasKey(rows + added, defaults[p].key);
    } else {
      p := k;
    }
  }

  /** An insert that raised after adding some defaults leaves a table in which one is blocked again. */
  lemma InsertAgain(rows: seq<ChangeField>, defaults: seq<ChangeField>)
    requires WellNumbered(defaults) && !InsertFields(rows, defaults, |rows|, 0).ok
    ensures var r := InsertFields(rows, defaults, |rows|, 0).rows;
            && |r| < |defaults| && !InsertFields(r, defaults, |r|, 0).ok
            && |rows| <= |r| && r[..|rows|] == rows && forall j :: |rows| <= j < |r| ==> r[j] in defaults
  {
    var r := InsertFields(rows, defaults, |rows|, 0).rows;
    var k := InsertStops(rows, defaults, |rows|, 0);
    assert defaults[0..k] == defaults[..k];
    var added := Between(defaults[..k], |rows|, |defaults|);
    var p := StillBlocked(rows, defaults, k);
    InsertsExactly(r, defaults, |r|, 0);
    assert !InsertsFree(r, defaults, |r|, 0);
    forall j | |rows| <= j < |r| ensures r[j] in defaults {
      assert added[j - |rows|] in added;
    }
  }

  lemma {:induction false} BetweenSplit(a: seq<ChangeField>, b: seq<ChangeField>, lo: int, hi: int)
    ensures Between(a + b, lo, hi) == Between(a, lo, hi) + Between(b, lo, hi)
  {
    if a == [] {
      assert a + b == b;
    } else {
      assert (a + b)[0] == a[0] && (a + b)[1..] == a[1..] + b;
      BetweenSplit(a[1..], b, lo, hi);
    }
  }

  lemma MixedNothing(t: seq<ChangeField>, defaults: seq<ChangeField>)
    requires forall f :: f in t ==> Target(f, defaults) == f
    ensures Mixed(t, defaults, |t|) == t
  {
    forall k | 0 <= k < |t| ensures Target(t[k], defaults) == t[k] { assert t[k] in t; }
  }

  lemma StillNotFree(r: seq<ChangeField>, t: seq<ChangeField>, defaults: seq<ChangeField>, count: int)
    requires forall f :: Blocked(t, f) <==> Blocked(r, f)
    ensures InsertsFree(t, defaults, count, 0) <==> InsertsFree(r, defaults, count, 0)
  {
    forall k | 0 <= k < |defaults| ensures Blocked(t, defaults[k]) <==> Blocked(r, defaults[k]) {}
  }

  /** Rows brought to their defaults are left alone, and an insert that was blocked still is. */
  lemma BlockedAgain(r: seq<ChangeField>, defaults: seq<ChangeField>)
    requires Indexed(r) && WellNumbered(defaults) && !InsertsFree(r, defaults, |r|, 0)
    requires forall f :: f in r ==> Target(f, defaults) == f
    ensures !FieldPass(ByElement(r), defaults).ok
  {
    var t := ByElement(r);
    LoadedSame(r, defaults);
    ByElementIndexed(r);
    MixedNothing(t, defaults);
    StillNotFree(r, t, defaults, |r|);
    PassExactly(t, defaults);
  }

  /** A field step that raises leaves a table on which it raises again. */
  lemma RaisesAgain(rows: seq<ChangeField>, defaults: seq<ChangeField>)
    requires IsTable(rows) && WellNumbered(defaults) && !FieldPass(rows, defaults).ok
    ensures !FieldPass(TablePass(rows, defaults).rows, defaults).ok
  {
    if !UpdateFields(rows, defaults, 0).ok {
      UpdateAgain(rows, defaults);
    } else {
      var u := Mixed(rows, defaults, |rows|);
      assert Mixed(rows, defaults, 0) == rows;
      UpdatesExactly(rows, defaults, 0);
      InsertAgain(u, defaults);
      var r := InsertFields(u, defaults, |u|, 0).rows;
      InsertsExactly(r, defaults, |r|, 0);
      PassKeepsIndexes(rows, defaults);
      forall f | f in r ensures Target(f, defaults) == f {
        var j :| 0 <= j < |r| && r[j] == f;
        if j < |rows| {
          assert r[j] == r[..|rows|][j] == u[j];
        } else {
          DefaultOfKey(defaults, f);
        }
      }
      BlockedAgain(r, defaults);
    }
  }

  /** PERMANENCE. Once the field step of a change type raises, it raises in every later pass. */
  lemma RaiseIsPermanent(rows: seq<ChangeField>, defaults: seq<ChangeField>, m: nat, n: nat)
    requires IsTable(rows) && WellNumbered(defaults) && m <= n && !FieldRun(rows, defaults, m).ok
    ensures !FieldRun(rows, defaults, n).ok
  {
    var f := FieldStep(defaults);
    var table, raised := (o: Outcome) => IsTable(o.rows), (o: Outcome) => !o.ok;
    forall o | table(o) ensures table(f(o)) && (raised(f(o)) ==> raised(f(f(o)))) {
      PassLeavesTable(o.rows, defaults);
      if !FieldPass(o.rows, defaults).ok { RaisesAgain(o.rows, defaults); }
    }
    OnceForGood(f, table, raised, Outcome(rows, true), m, n);
  }

  // ---- when repeated steps reach the defaults ----

  /** The defaults present are exactly those numbered below `c`. */
  predicate PresentBelow(rows: seq<ChangeField>, defaults: seq<ChangeField>, c: nat) {
    forall k :: 0 <= k < |defaults| ==> (HasKey(rows, defaults[k].key) <==> defaults[k].element < c)
  }

  /** No field is moved onto an element still in use, and either the keys that the insert skips are there, or
      there are too many rows for an insert and the defaults among them are the first so many. */
  predicate FieldsFit(rows: seq<ChangeField>, defaults: seq<ChangeField>) {
    && ElementsFit(rows, defaults)
    && (KeysFit(rows, defaults)
        || (|rows| >= |defaults| && exists c: nat :: c <= |defaults| && PresentBelow(rows, defaults, c)))
  }

  /** Of rows that are all defaults, the keys fit exactly when none is numbered past their count. */
  lemma KeysFitIff(rows: seq<ChangeField>, defaults: seq<ChangeField>)
    requires Indexed(rows) && WellNumbered(defaults) && |rows| <= |defaults| && forall f :: f in rows ==> f in defaults
    ensures KeysFit(rows, defaults) <==> forall f :: f in rows ==> f.element < |rows|
    ensures ElementsFit(rows, defaults)
  {
    forall i | 0 <= i < |rows| ensures StepFits(rows, defaults, i) {
      DefaultOfKey(defaults, rows[i]);
      forall j | 0 <= j < |rows| && j != i ensures rows[j].element != rows[i].element {
        if i < j { assert rows[i].element != rows[j].element; }
      }
    }
    if KeysFit(rows, defaults) {
      forall f | f in rows ensures f.element < |rows| {
        NoExtraKeys(rows, defaults, f);
        var k :| 0 <= k < |defaults| && defaults[k].element < |rows| && defaults[k].key == f.key;
        SameKeySameField(defaults, defaults[k], f);
      }
    }
    if forall f :: f in rows ==> f.element < |rows| {
      LowRowsFit(rows, defaults);
    }
  }

  lemma SameKeySameField(defaults: seq<ChangeField>, f: ChangeField, g: ChangeField)
    requires UniqueKeys(defaults) && f in defaults && g in defaults && f.key == g.key
    ensures f == g
  {
    var i :| 0 <= i < |defaults| && defaults[i] == f;
    var j :| 0 <= j < |defaults| && defaults[j] == g;
    assert i == j;
  }

  lemma LowRowsFit(rows: seq<ChangeField>, defaults: seq<ChangeField>)
    requires Indexed(rows) && WellNumbered(defaults) && |rows| <= |defaults|
    requires forall f :: f in rows ==> f in defaults && f.element < |rows|
    ensures KeysFit(rows, defaults)
  {
    ElementSetSize(rows);
    forall e | e in ElementSet(rows) ensures e in Numbers(0, |rows|) {
      var i :| 0 <= i < |rows| && rows[i].element == e;
      assert rows[i] in defaults;
    }
    SubsetSize(ElementSet(rows), Numbers(0, |rows|));
    forall k | 0 <= k < |defaults| && defaults[k].element < |rows| ensures HasKey(rows, defaults[k].key) {
      assert defaults[k].element in ElementSet(rows);
      var i :| 0 <= i < |rows| && rows[i].element == defaults[k].element;
      var m :| 0 <= m < |defaults| && defaults[m] == rows[i];
      assert m == k;
    }
  }

  /** A second step ends with the defaults exactly when the keys fit after the first; otherwise it raises. */
  lemma SecondStep(one: seq<ChangeField>, defaults: seq<ChangeField>)
    requires Indexed(one) && WellNumbered(defaults) && |one| <= |defaults| && forall f :: f in one ==> f in defaults
    ensures var two := FieldPass(one, defaults);
            && (KeysFit(one, defaults) ==> two.ok && SameFields(two.rows, defaults))
            && (!KeysFit(one, defaults) ==> !two.ok)
  {
    KeysFitIff(one, defaults);
    FieldPassConverges(one, defaults);
    PassExactly(one, defaults);
    if !KeysFit(one, defaults) {
      var f :| f in one && f.element >= |one|;
      var k :| 0 <= k < |defaults| && defaults[k] == f;
      var j :| 0 <= j < |one| && one[j] == f;
      DefaultOfKey(defaults, f);
      assert Mixed(one, defaults, |one|)[j].key == f.key;
      assert Blocked(Mixed(one, defaults, |one|), defaults[k]);
    }
  }

  /** The keys fit after a completed first step exactly when the fields fit before it. */
  lemma FitsAfterOne(rows: seq<ChangeField>, defaults: seq<ChangeField>)
    requires Indexed(rows) && WellNumbered(defaults) && FieldPass(rows, defaults).ok
    ensures KeysFit(FieldPass(rows, defaults).rows, defaults) <==> FieldsFit(rows, defaults)
  {
    var one := FieldPass(rows, defaults).rows;
    PassExactly(rows, defaults);
    PassLeavesDefaults(rows, defaults);
    if KeysFit(rows, defaults) {
      FieldPassConverges(rows, defaults);
    } else if |rows| < |defaults| {
      ShortTable(rows, defaults);
    } else {
      LongTable(rows, defaults);
    }
  }

  lemma ShortTable(rows: seq<ChangeField>, defaults: seq<ChangeField>)
    requires Indexed(rows) && WellNumbered(defaults) && FieldPass(rows, defaults).ok
    requires !KeysFit(rows, defaults) && |rows| < |defaults|
    ensures !KeysFit(FieldPass(rows, defaults).rows, defaults)
  {
    var one := FieldPass(rows, defaults).rows;
    PassExactly(rows, defaults);
    PassLeavesDefaults(rows, defaults);
    var last := Numbered(defaults, |defaults| - 1);
    ExpectedHas(rows, defaults, defaults[last]);
    if KeysFit(one, defaults) {
      KeysFitIff(one, defaults);
      assert |one| == |defaults|;
      FullTable(one, defaults);
      FieldPassConverges(rows, defaults);
    }
  }

  lemma FullTable(one: seq<ChangeField>, defaults: seq<ChangeField>)
    requires Indexed(one) && WellNumbered(defaults) && |one| == |defaults| && KeysFit(one, defaults)
    requires forall f :: f in one ==> f in defaults
    ensures SameFields(one, defaults)
  {
    forall f | f in defaults ensures f in one {
      var k :| 0 <= k < |defaults| && defaults[k] == f;
      var j :| 0 <= j < |one| && one[j].key == defaults[k].key;
      SameKeySameField(defaults, one[j], f);
    }
  }

  lemma PresentAfter(rows: seq<ChangeField>, defaults: seq<ChangeField>, k: nat)
    requires Indexed(rows) && WellNumbered(defaults) && FieldPass(rows, defaults).ok
    requires |rows| >= |defaults| && k < |defaults|
    ensures HasKey(FieldPass(rows, defaults).rows, defaults[k].key) <==> HasKey(rows, defaults[k].key)
  {
    var one := FieldPass(rows, defaults).rows;
    PassExactly(rows, defaults);
    PassLeavesDefaults(rows, defaults);
    ExpectedHas(rows, defaults, defaults[k]);
    if HasKey(one, defaults[k].key) {
      var j :| 0 <= j < |one| && one[j].key == defaults[k].key;
      SameKeySameField(defaults, one[j], defaults[k]);
    }
  }

  lemma LongTable(rows: seq<ChangeField>, defaults: seq<ChangeField>)
    requires Indexed(rows) && WellNumbered(defaults) && FieldPass(rows, defaults).ok && |rows| >= |defaults|
    ensures KeysFit(FieldPass(rows, defaults).rows, defaults)
            <==> exists c: nat :: c <= |defaults| && PresentBelow(rows, defaults, c)
  {
    var one := FieldPass(rows, defaults).rows;
    PassLeavesDefaults(rows, defaults);
    KeysFitIff(one, defaults);
    forall k | 0 <= k < |defaults|
      ensures HasKey(one, defaults[k].key) <==> HasKey(rows, defaults[k].key)
    {
      PresentAfter(rows, defaults, k);
    }
    if KeysFit(one, defaults) {
      forall k | 0 <= k < |defaults| && HasKey(one, defaults[k].key) ensures defaults[k].element < |one| {
        var j :| 0 <= j < |one| && one[j].key == defaults[k].key;
        SameKeySameField(defaults, one[j], defaults[k]);
      }
      assert PresentBelow(rows, defaults, |one|);
    }
    if c: nat :| c <= |defaults| && PresentBelow(rows, defaults, c) {
      CountBelow(one, defaults, c);
      forall k | 0 <= k < |defaults| && defaults[k].element < |one| ensures HasKey(one, defaults[k].key) {}
    }
  }

  lemma KeysBelow(one: seq<ChangeField>, defaults: seq<ChangeField>, c: nat, key: string)
    requires PresentBelow(one, defaults, c) && forall f :: f in one ==> f in defaults && 0 <= f.element
    ensures key in KeySet(Between(defaults, 0, c)) <==> key in KeySet(one)
  {
    var first := Between(defaults, 0, c);
    if key in KeySet(first) {
      var i :| 0 <= i < |first| && first[i].key == key;
      var k :| 0 <= k < |defaults| && defaults[k] == first[i];
      assert HasKey(one, defaults[k].key);
    }
    if key in KeySet(one) {
      var j :| 0 <= j < |one| && one[j].key == key;
      var k :| 0 <= k < |defaults| && defaults[k] == one[j];
      assert HasKey(one, defaults[k].key) && one[j] in first;
    }
  }

  lemma CountBelow(one: seq<ChangeField>, defaults: seq<ChangeField>, c: nat)
    requires Indexed(one) && WellNumbered(defaults) && c <= |defaults| && PresentBelow(one, defaults, c)
    requires forall f :: f in one ==> f in defaults
    ensures |one| == c
  {
    var first := Between(defaults, 0, c);
    BetweenIsIndexed(defaults, 0, c);
    FirstCount(defaults, c);
    KeySetSize(first);
    KeySetSize(one);
    forall key ensures key in KeySet(first) <==> key in KeySet(one) {
      KeysBelow(one, defaults, c, key);
    }
    assert KeySet(first) == KeySet(one);
  }

  lemma FitMeansOk(rows: seq<ChangeField>, defaults: seq<ChangeField>)
    requires Indexed(rows) && WellNumbered(defaults) && FieldsFit(rows, defaults)
    ensures FieldPass(rows, defaults).ok
  {
    PassExactly(rows, defaults);
    if KeysFit(rows, defaults) { KeysFitInserts(rows, defaults); }
  }

  lemma StaysSame(rows: seq<ChangeField>, defaults: seq<ChangeField>, m: nat, n: nat)
    requires IsTable(rows) && UniqueKeys(defaults) && m <= n
    requires FieldRun(rows, defaults, m).ok && SameFields(FieldRun(rows, defaults, m).rows, defaults)
    ensures FieldRun(rows, defaults, n) == FieldRun(rows, defaults, m)
  {
    var here := FieldRun(rows, defaults, m);
    RunLeavesTable(rows, defaults, m);
    FieldPassFixpoint(here.rows, defaults);
    ByElementIdle(here.rows);
    IterateKeeps(FieldStep(defaults), (o: Outcome) => o == here, Outcome(rows, true), m, n);
  }

  /** The table after a completed first pass, and what the second makes of it. */
  lemma TwoSteps(rows: seq<ChangeField>, defaults: seq<ChangeField>)
    requires IsTable(rows) && WellNumbered(defaults) && FieldPass(rows, defaults).ok
    ensures var one := TablePass(rows, defaults).rows;
            var two := TablePass(one, defaults);
            && (KeysFit(one, defaults) && ElementsFit(one, defaults) <==> FieldsFit(rows, defaults))
            && if FieldsFit(rows, defaults) then two.ok && SameFields(two.rows, defaults) else !two.ok
  {
    var raw := FieldPass(rows, defaults).rows;
    var one := ByElement(raw);
    PassLeavesDefaults(rows, defaults);
    FitsAfterOne(rows, defaults);
    LoadedSame(raw, defaults);
    ByElementIndexed(raw);
    KeysFitIff(one, defaults);
    SecondStep(one, defaults);
    PassKeepsIndexes(one, defaults);
    LoadedSameFields(FieldPass(one, defaults).rows, defaults);
  }

  /** EXACT CONDITION, one step. */
  lemma TablePassConverges(rows: seq<ChangeField>, defaults: seq<ChangeField>)
    requires IsTable(rows) && WellNumbered(defaults)
    ensures var o := TablePass(rows, defaults);
            o.ok && SameFields(o.rows, defaults) <==> KeysFit(rows, defaults) && ElementsFit(rows, defaults)
  {
    FieldPassConverges(rows, defaults);
    PassKeepsIndexes(rows, defaults);
    LoadedSameFields(FieldPass(rows, defaults).rows, defaults);
  }

  /** EXACT CONDITION, any number of steps. From two passes on, the field table of a change type that is
      refreshed in each of them is precisely the defaults if and only if the fields fit; otherwise the
      step has raised, and keeps raising. */
  lemma FieldRunConvergesIff(rows: seq<ChangeField>, defaults: seq<ChangeField>, n: nat)
    requires IsTable(rows) && WellNumbered(defaults) && 2 <= n
    ensures var o := FieldRun(rows, defaults, n);
            if FieldsFit(rows, defaults) then o.ok && SameFields(o.rows, defaults) else !o.ok
  {
    var one := TablePass(rows, defaults);
    assert FieldRun(rows, defaults, 0).rows == rows && FieldRun(rows, defaults, 1) == one;
    assert FieldRun(rows, defaults, 2) == TablePass(one.rows, defaults);
    if FieldsFit(rows, defaults) { FitMeansOk(rows, defaults); }
    if !one.ok {
      RaiseIsPermanent(rows, defaults, 1, n);
    } else {
      TwoSteps(rows, defaults);
      if FieldsFit(rows, defaults) {
        StaysSame(rows, defaults, 2, n);
      } else {
        RaiseIsPermanent(rows, defaults, 2, n);
      }
    }
  }

  /** One refresh is not always enough: of the first default `a` and two fields that are none, the first pass leaves
      `a`, because there are too many rows for an insert, and only the second adds the last default. */
  lemma SecondRefreshNeeded(a: ChangeField, b: ChangeField, x: ChangeField, y: ChangeField)
    requires a.element == 0 && b.element == 1 && x.element == 1 && y.element == 2
    requires a.key != b.key && a.key != x.key && a.key != y.key && b.key != x.key && b.key != y.key && x.key != y.key
    ensures FieldsFit([a, x, y], [a, b]) && !KeysFit([a, x, y], [a, b])
  {
    var rows, defaults := [a, x, y], [a, b];
    assert rows[0].key == a.key && defaults[0].key == a.key && defaults[1].key == b.key;
    DefaultOfKey(defaults, a);
    assert !HasKey(defaults, x.key) && !HasKey(defaults, y.key) && !HasKey(rows, b.key) && HasKey(rows, a.key);
    forall i | 0 <= i < |rows| ensures StepFits(rows, defaults, i) {}
    assert PresentBelow(rows, defaults, 1);
  }

  /** FIXPOINTS. The field step leaves a table alone if and only if it holds exactly the defaults, listed in any
      order. */
  lemma FieldFixpointIff(rows: seq<ChangeField>, defaults: seq<ChangeField>)
    requires IsTable(rows) && WellNumbered(defaults)
    ensures TablePass(rows, defaults) == Outcome(rows, true) <==> SameFields(rows, defaults)
  {
    if SameFields(rows, defaults) {
      FieldPassFixpoint(rows, defaults);
      ByElementIdle(rows);
    } else if TablePass(rows, defaults) == Outcome(rows, true) {
      var raw := FieldPass(rows, defaults).rows;
      PassLeavesDefaults(rows, defaults);
      LoadedSame(raw, defaults);
      SecondStep(rows, defaults);
      LoadedSameFields(raw, defaults);
    }
  }

  // ---- when the source changes its defaults ----

  /** The list `next` is `prev` with `extra` put at its number and the fields from there on moved up by one.
      Either list may be in any order, and the fields may change otherwise. */
  predicate Adds(prev: seq<ChangeField>, next: seq<ChangeField>, extra: ChangeField) {
    && WellNumbered(prev) && WellNumbered(next) && |next| == |prev| + 1
    && extra in next && !HasKey(prev, extra.key)
    && forall f :: f in prev ==>
         && HasKey(next, f.key)
         && Target(f, next).element == if f.element < extra.element then f.element else f.element + 1
  }

  lemma MovedField(prev: seq<ChangeField>, next: seq<ChangeField>, extra: ChangeField, e: int) returns (f: ChangeField)
    requires Adds(prev, next, extra) && 0 <= e < |prev|
    ensures f in prev && f.element == e && Target(f, next) in next
    ensures Target(f, next).element == if e < extra.element then e else e + 1
  {
    var k := Numbered(prev, e);
    f := prev[k];
  }

  lemma AddedLastFits(rows: seq<ChangeField>, prev: seq<ChangeField>, next: seq<ChangeField>, extra: ChangeField)
    requires Indexed(rows) && SameFields(rows, prev) && Adds(prev, next, extra) && extra.element == |prev|
    ensures KeysFit(rows, next) && ElementsFit(rows, next)
  {
    SameFieldsLength(rows, prev);
    forall k | 0 <= k < |next| && next[k].element < |rows| ensures HasKey(rows, next[k].key) {
      var f := MovedField(prev, next, extra, next[k].element);
      var m :| 0 <= m < |next| && next[m] == Target(f, next);
      assert m == k;
      var j :| 0 <= j < |rows| && rows[j] == f;
    }
    forall i | 0 <= i < |rows| ensures StepFits(rows, next, i) {
      assert rows[i] in prev;
      var p :| 0 <= p < |prev| && prev[p] == rows[i];
      assert Target(rows[i], next).element == rows[i].element;
      forall j | 0 <= j < |rows| && j != i ensures rows[j].element != rows[i].element {
        if i < j { assert rows[i].element != rows[j].element; }
      }
    }
  }

  lemma AddedBelowIsBlocked(rows: seq<ChangeField>, prev: seq<ChangeField>, next: seq<ChangeField>, extra: ChangeField)
    requires Indexed(rows) && SameFields(rows, prev) && Adds(prev, next, extra) && extra.element != |prev|
    ensures !FieldPass(rows, next).ok
  {
    SameFieldsLength(rows, prev);
    var f := MovedField(prev, next, extra, |prev| - 1);
    var t := Target(f, next);
    var j :| 0 <= j < |rows| && rows[j] == f;
    var k :| 0 <= k < |next| && next[k] == t;
    assert Mixed(rows, next, |rows|)[j].key == t.key;
    assert Blocked(Mixed(rows, next, |rows|), next[k]);
    PassExactly(rows, next);
  }

  /** A change type that equals its default can take up a new default field only if that field is numbered
      last, wherever the list names it: otherwise the pass raises, and so does every later one. */
  lemma AddingDefault(rows: seq<ChangeField>, prev: seq<ChangeField>, next: seq<ChangeField>, extra: ChangeField,
                      n: nat)
    requires IsTable(rows) && SameFields(rows, prev) && Adds(prev, next, extra) && 1 <= n
    ensures var o := FieldRun(rows, next, n);
            if extra.element == |prev| then o.ok && SameFields(o.rows, next) else !o.ok
  {
    assert FieldRun(rows, next, 0).rows == rows && FieldRun(rows, next, 1) == TablePass(rows, next);
    PassKeepsIndexes(rows, next);
    LoadedSameFields(FieldPass(rows, next).rows, next);
    if extra.element == |prev| {
      AddedLastFits(rows, prev, next, extra);
      FieldPassConverges(rows, next);
      StaysSame(rows, next, 1, n);
    } else {
      AddedBelowIsBlocked(rows, prev, next, extra);
      RaiseIsPermanent(rows, next, 1, n);
    }
  }

  lemma RemovedBelowCollides(rows: seq<ChangeField>, prev: seq<ChangeField>, next: seq<ChangeField>, gone: ChangeField)
    requires Indexed(rows) && SameFields(rows, prev) && Adds(next, prev, gone) && gone.element < |next|
    ensures !FieldPass(rows, next).ok
  {
    var above := MovedField(next, prev, gone, gone.element);
    var g := Target(above, prev);
    DefaultOfKey(next, above);
    var i :| 0 <= i < |rows| && rows[i] == g;
    var j :| 0 <= j < |rows| && rows[j] == gone;
    SameKeyTarget(g, above, next);
    assert !StepFits(rows, next, i);
    PassExactly(rows, next);
  }

  lemma SameKeyTarget(f: ChangeField, g: ChangeField, defaults: seq<ChangeField>)
    requires f.key == g.key && UniqueKeys(defaults) && g in defaults
    ensures HasKey(defaults, f.key) && Target(f, defaults) == g
  {
    DefaultOfKey(defaults, g);
  }

  lemma RemovedLastFits(rows: seq<ChangeField>, prev: seq<ChangeField>, next: seq<ChangeField>, gone: ChangeField)
    requires Indexed(rows) && SameFields(rows, prev) && Adds(next, prev, gone) && gone.element == |next|
    ensures KeysFit(rows, next) && ElementsFit(rows, next)
  {
    forall k | 0 <= k < |next| ensures HasKey(rows, next[k].key) {
      assert next[k] in next && Target(next[k], prev) in rows;
    }
    forall i | 0 <= i < |rows| ensures StepFits(rows, next, i) {
      if HasKey(next, rows[i].key) {
        var k :| 0 <= k < |next| && next[k].key == rows[i].key;
        SameKeyTarget(next[k], rows[i], prev);
        SameKeyTarget(rows[i], next[k], next);
        assert Target(rows[i], next).element == rows[i].element;
        forall j | 0 <= j < |rows| && j != i ensures rows[j].element != rows[i].element {
          if i < j { assert rows[i].element != rows[j].element; }
        }
      }
    }
  }

  /** A default field can be dropped only if it is numbered last: otherwise the next field is moved onto the
      element of the dropped one, which is deleted later, and the pass raises, as does every later one. */
  lemma RemovingDefault(rows: seq<ChangeField>, prev: seq<ChangeField>, next: seq<ChangeField>, gone: ChangeField,
                        n: nat)
    requires IsTable(rows) && SameFields(rows, prev) && Adds(next, prev, gone) && 1 <= n
    ensures var o := FieldRun(rows, next, n);
            if gone.element == |next| then o.ok && SameFields(o.rows, next) else !o.ok
  {
    assert FieldRun(rows, next, 0).rows == rows && FieldRun(rows, next, 1) == TablePass(rows, next);
    PassKeepsIndexes(rows, next);
    LoadedSameFields(FieldPass(rows, next).rows, next);
    if gone.element == |next| {
      RemovedLastFits(rows, prev, next, gone);
      FieldPassConverges(rows, next);
      StaysSame(rows, next, 1, n);
    } else {
      RemovedBelowCollides(rows, prev, next, gone);
      RaiseIsPermanent(rows, next, 1, n);
    }
  }

  // ---- the shipped lists ----

  /** How the permissions of an AWS identity get their fields: the elements of two fields are raised by one
      and the policy name is appended with element 0. */
  function WithPolicyName(arns: ChangeField, permissions: ChangeField, policyName: ChangeField): seq<ChangeField> {
    [arns.(element := 1), permissions.(element := 2), policyName.(element := 0)]
  }

  /** A change type shipped without the policy name could never have taken it up: the list of its fields
      is well numbered, but the new field is not numbered last although it is appended. */
  lemma PolicyNameNeverArrives(arns: ChangeField, permissions: ChangeField, policyName: ChangeField, n: nat)
    requires arns.key != permissions.key && arns.key != policyName.key && permissions.key != policyName.key
    requires arns.element == 0 && permissions.element == 1 && 1 <= n
    ensures WellNumbered(WithPolicyName(arns, permissions, policyName))
    ensures !FieldRun([arns, permissions], WithPolicyName(arns, permissions, policyName), n).ok
  {
    var prev, next := [arns, permissions], WithPolicyName(arns, permissions, policyName);
    assert WellNumbered(prev) && WellNumbered(next);
    SameKeyTarget(arns, next[0], next);
    SameKeyTarget(permissions, next[1], next);
    forall k | 0 <= k < |prev| ensures prev[k].key != policyName.key {}
    assert Adds(prev, next, next[2]);
    AddingDefault(prev, prev, next, next[2], n);
  }
}
