/** The change fields of one change type: rows of a table with two unique indexes, brought in line
    with an ordered list of default fields. */
module ChangeFields {
  import opened Common

  datatype FieldBody = FieldBody(
    fieldType: string, fieldText: string, description: string,
    allowNone: bool, allowMultiple: bool, maxChar: Option<int>,
    validationRegex: Option<string>, options: Option<seq<string>>,
    typeaheadHelper: Option<string>, defaultValue: Option<string>)

  datatype ChangeField = ChangeField(element: int, key: string, body: FieldBody)

  /** What a step leaves in the table, and whether it ran to its end: an insert or update that
      breaks a unique index raises, and earlier writes stay. */
  datatype Outcome = Outcome(rows: seq<ChangeField>, ok: bool)

  predicate UniqueKeys(rows: seq<ChangeField>) {
    forall i, j :: 0 <= i < j < |rows| ==> rows[i].key != rows[j].key
  }

  predicate UniqueElements(rows: seq<ChangeField>) {
    forall i, j :: 0 <= i < j < |rows| ==> rows[i].element != rows[j].element
  }

  /** The two unique indexes of the table. */
  predicate Indexed(rows: seq<ChangeField>) {
    UniqueKeys(rows) && UniqueElements(rows)
  }

  predicate SortedByElement(rows: seq<ChangeField>) {
    forall i, j :: 0 <= i < j < |rows| ==> rows[i].element <= rows[j].element
  }

  /** A table as it is loaded: its indexes hold, and its rows come ordered by element. */
  predicate IsTable(rows: seq<ChangeField>) {
    Indexed(rows) && SortedByElement(rows)
  }

  function InsertByElement(f: ChangeField, rows: seq<ChangeField>): seq<ChangeField> {
    if rows == [] || f.element <= rows[0].element then [f] + rows
    else [rows[0]] + InsertByElement(f, rows[1..])
  }

  /** The order in which rows committed in any order are loaded. */
  function ByElement(rows: seq<ChangeField>): seq<ChangeField> {
    if rows == [] then [] else InsertByElement(rows[0], ByElement(rows[1..]))
  }

  lemma {:induction false} InsertedByElement(f: ChangeField, rows: seq<ChangeField>)
    ensures |InsertByElement(f, rows)| == |rows| + 1
    ensures forall g :: g in InsertByElement(f, rows) <==> g == f || g in rows
  {
    if !(rows == [] || f.element <= rows[0].element) {
      InsertedByElement(f, rows[1..]);
      assert rows == [rows[0]] + rows[1..];
    }
  }

  lemma {:induction false} InsertedIsSorted(f: ChangeField, rows: seq<ChangeField>)
    requires SortedByElement(rows)
    ensures SortedByElement(InsertByElement(f, rows))
  {
    if !(rows == [] || f.element <= rows[0].element) {
      InsertedIsSorted(f, rows[1..]);
      InsertedByElement(f, rows[1..]);
      var rest := InsertByElement(f, rows[1..]);
      forall j | 0 <= j < |rest| ensures rows[0].element <= rest[j].element {
        assert rest[j] in rest;
        if rest[j] != f { assert rest[j] in rows[1..]; }
      }
    }
  }

  lemma {:induction false} InsertedUniqueKeys(f: ChangeField, rows: seq<ChangeField>)
    requires UniqueKeys(rows) && forall g :: g in rows ==> g.key != f.key
    ensures UniqueKeys(InsertByElement(f, rows))
  {
    if !(rows == [] || f.element <= rows[0].element) {
      InsertedUniqueKeys(f, rows[1..]);
      InsertedByElement(f, rows[1..]);
      var rest := InsertByElement(f, rows[1..]);
      forall j | 0 <= j < |rest| ensures rows[0].key != rest[j].key {
        assert rest[j] in rest;
      }
    }
  }

  lemma {:induction false} InsertedUniqueElements(f: ChangeField, rows: seq<ChangeField>)
    requires UniqueElements(rows) && forall g :: g in rows ==> g.element != f.element
    ensures UniqueElements(InsertByElement(f, rows))
  {
    if !(rows == [] || f.element <= rows[0].element) {
      InsertedUniqueElements(f, rows[1..]);
      InsertedByElement(f, rows[1..]);
      var rest := InsertByElement(f, rows[1..]);
      forall j | 0 <= j < |rest| ensures rows[0].element != rest[j].element {
        assert rest[j] in rest;
      }
    }
  }

  /** Loading keeps the rows. */
  lemma {:induction false} ByElementSame(rows: seq<ChangeField>)
    ensures |ByElement(rows)| == |rows|
    ensures forall g :: g in ByElement(rows) <==> g in rows
  {
    if rows != [] {
      ByElementSame(rows[1..]);
      InsertedByElement(rows[0], ByElement(rows[1..]));
      assert rows == [rows[0]] + rows[1..];
    }
  }

  lemma {:induction false} ByElementSorts(rows: seq<ChangeField>)
    ensures SortedByElement(ByElement(rows))
  {
    if rows != [] {
      ByElementSorts(rows[1..]);
      InsertedIsSorted(rows[0], ByElement(rows[1..]));
    }
  }

  lemma {:induction false} ByElementIndexed(rows: seq<ChangeField>)
    ensures UniqueKeys(rows) ==> UniqueKeys(ByElement(rows))
    ensures UniqueElements(rows) ==> UniqueElements(ByElement(rows))
  {
    if rows != [] {
      var rest := rows[1..];
      ByElementIndexed(rest);
      ByElementSame(rest);
      if UniqueKeys(rows) { InsertedUniqueKeys(rows[0], ByElement(rest)); }
      if UniqueElements(rows) { InsertedUniqueElements(rows[0], ByElement(rest)); }
    }
  }

  /** Rows that come in order stay as they are. */
  lemma {:induction false} ByElementIdle(rows: seq<ChangeField>)
    requires SortedByElement(rows)
    ensures ByElement(rows) == rows
  {
    if rows != [] { ByElementIdle(rows[1..]); }
  }

  /** Default fields have distinct keys and are numbered 0 to n-1, in whatever order they are listed:
      the AWS defaults put the field numbered 0 last. */
  predicate WellNumbered(defaults: seq<ChangeField>) {
    && Indexed(defaults)
    && forall i :: 0 <= i < |defaults| ==> 0 <= defaults[i].element < |defaults|
  }

  predicate HasKey(rows: seq<ChangeField>, key: string) {
    exists i :: 0 <= i < |rows| && rows[i].key == key
  }

  /** The lookup `default_change_field_map.get(key)`. */
  function Find(defaults: seq<ChangeField>, key: string): (d: Option<ChangeField>)
    ensures d.Some? <==> HasKey(defaults, key)
    ensures d.Some? ==> d.value in defaults && d.value.key == key
  {
    if defaults == [] then None
    else if defaults[|defaults| - 1].key == key then
      Some(defaults[|defaults| - 1])
    else
      var r := Find(defaults[..|defaults| - 1], key);
      assert HasKey(defaults, key) <==> HasKey(defaults[..|defaults| - 1], key);
      r
  }

  /** Some row other than number `i` already has this element. */
  predicate ElementTaken(rows: seq<ChangeField>, i: int, element: int) {
    exists j :: 0 <= j < |rows| && j != i && rows[j].element == element
  }

  /** "Update existing change fields", from row `i` on. */
  function UpdateFields(rows: seq<ChangeField>, defaults: seq<ChangeField>, i: nat): Outcome
    requires i <= |rows|
    decreases |rows| - i
  {
    if i == |rows| then Outcome(rows, true)
    else
      match Find(defaults, rows[i].key)
      case None => UpdateFields(rows, defaults, i + 1)
      case Some(d) =>
        if d == rows[i] then UpdateFields(rows, defaults, i + 1)
        else if ElementTaken(rows, i, d.element) then Outcome(rows, false)
        else UpdateFields(rows[i := d], defaults, i + 1)
  }

  /** An insert of `f` would break one of the two unique indexes. */
  predicate Blocked(rows: seq<ChangeField>, f: ChangeField) {
    ElementTaken(rows, -1, f.element) || HasKey(rows, f.key)
  }

  /** "Add new change fields": every default whose element is at least `count`, from `i` on. */
  function InsertFields(rows: seq<ChangeField>, defaults: seq<ChangeField>, count: int, i: nat): Outcome
    requires i <= |defaults|
    decreases |defaults| - i
  {
    if i == |defaults| then Outcome(rows, true)
    else if defaults[i].element < count then InsertFields(rows, defaults, count, i + 1)
    else if Blocked(rows, defaults[i]) then Outcome(rows, false)
    else InsertFields(rows + [defaults[i]], defaults, count, i + 1)
  }

  /** "Delete removed change fields". */
  function KeepDefaults(rows: seq<ChangeField>, defaults: seq<ChangeField>): (r: seq<ChangeField>)
    ensures forall f :: f in r <==> f in rows && HasKey(defaults, f.key)
  {
    if rows == [] then []
    else if Find(defaults, rows[0].key).Some? then [rows[0]] + KeepDefaults(rows[1..], defaults)
    else KeepDefaults(rows[1..], defaults)
  }

  lemma {:induction false} KeepsUniqueKeys(rows: seq<ChangeField>, defaults: seq<ChangeField>)
    requires UniqueKeys(rows)
    ensures UniqueKeys(KeepDefaults(rows, defaults))
  {
    if rows != [] {
      KeepsUniqueKeys(rows[1..], defaults);
      var rest := KeepDefaults(rows[1..], defaults);
      forall i | 0 <= i < |rest| ensures rest[i].key != rows[0].key {
        assert rest[i] in rows[1..];
      }
    }
  }

  lemma {:induction false} KeepsUniqueElements(rows: seq<ChangeField>, defaults: seq<ChangeField>)
    requires UniqueElements(rows)
    ensures UniqueElements(KeepDefaults(rows, defaults))
  {
    if rows != [] {
      KeepsUniqueElements(rows[1..], defaults);
      var rest := KeepDefaults(rows[1..], defaults);
      forall i | 0 <= i < |rest| ensures rest[i].element != rows[0].element {
        assert rest[i] in rows[1..];
      }
    }
  }

  /** The whole field step for one change type. */
  function FieldPass(rows: seq<ChangeField>, defaults: seq<ChangeField>): Outcome {
    var updated := UpdateFields(rows, defaults, 0);
    if !updated.ok then updated
    else
      var added := if |defaults| > |rows| then InsertFields(updated.rows, defaults, |rows|, 0) else updated;
      if !added.ok then added
      else Outcome(KeepDefaults(added.rows, defaults), true)
  }

  /** The whole field step, and the table as the next pass loads it. */
  function TablePass(rows: seq<ChangeField>, defaults: seq<ChangeField>): Outcome {
    var o := FieldPass(rows, defaults);
    Outcome(ByElement(o.rows), o.ok)
  }

  /** The table holds exactly the default fields. */
  predicate SameFields(rows: seq<ChangeField>, defaults: seq<ChangeField>) {
    && UniqueKeys(rows)
    && (forall f :: f in rows ==> f in defaults)
    && (forall f :: f in defaults ==> f in rows)
  }

  /** The keys that the count-based insert will not add are already there. */
  predicate KeysFit(rows: seq<ChangeField>, defaults: seq<ChangeField>) {
    forall k :: 0 <= k < |defaults| && defaults[k].element < |rows| ==> HasKey(rows, defaults[k].key)
  }

  /** No row is moved onto an element still held by a row that is visited later or is not a default. */
  predicate ElementsFit(rows: seq<ChangeField>, defaults: seq<ChangeField>) {
    forall i :: 0 <= i < |rows| ==> StepFits(rows, defaults, i)
  }

  /** What a row becomes: its default, when it has one. */
  function Target(f: ChangeField, defaults: seq<ChangeField>): (t: ChangeField)
    ensures t.key == f.key
    ensures HasKey(defaults, f.key) ==> t in defaults
    ensures !HasKey(defaults, f.key) ==> t == f
  {
    match Find(defaults, f.key)
    case None => f
    case Some(d) => d
  }

  lemma DefaultOfKey(defaults: seq<ChangeField>, f: ChangeField)
    requires UniqueKeys(defaults) && f in defaults
    ensures HasKey(defaults, f.key) && Target(f, defaults) == f
  {
    var i :| 0 <= i < |defaults| && defaults[i] == f;
    var t := Target(f, defaults);
    var j :| 0 <= j < |defaults| && defaults[j] == t;
    assert i == j;
  }

  /** Rows below `i` brought to their defaults, the rest as stored. */
  function Mixed(rows: seq<ChangeField>, defaults: seq<ChangeField>, i: nat): (r: seq<ChangeField>)
    requires i <= |rows|
    ensures |r| == |rows|
    ensures forall k :: 0 <= k < |rows| ==> r[k] == if k < i then Target(rows[k], defaults) else rows[k]
  {
    seq(|rows|, k requires 0 <= k < |rows| => if k < i then Target(rows[k], defaults) else rows[k])
  }

  /** The row numbered `i` can be moved when the rows before it already are. */
  predicate StepFits(rows: seq<ChangeField>, defaults: seq<ChangeField>, i: int)
    requires 0 <= i < |rows|
  {
    HasKey(defaults, rows[i].key) ==>
      forall j :: 0 <= j < |rows| && j != i && (i < j || !HasKey(defaults, rows[j].key)) ==>
        rows[j].element != Target(rows[i], defaults).element
  }

  /** Two distinct defaults have distinct elements. */
  lemma TargetsDiffer(f: ChangeField, g: ChangeField, defaults: seq<ChangeField>)
    requires UniqueElements(defaults) && f.key != g.key && HasKey(defaults, f.key) && HasKey(defaults, g.key)
    ensures Target(f, defaults).element != Target(g, defaults).element
  {
    var i :| 0 <= i < |defaults| && defaults[i] == Target(f, defaults);
    var j :| 0 <= j < |defaults| && defaults[j] == Target(g, defaults);
    if i == j { assert Target(f, defaults).key == f.key; }
  }

  /** One update collides exactly when the row's target element is held by a row not yet moved away. */
  lemma StepCollides(rows: seq<ChangeField>, defaults: seq<ChangeField>, i: nat)
    requires Indexed(rows) && WellNumbered(defaults) && i < |rows| && HasKey(defaults, rows[i].key)
    requires Target(rows[i], defaults) != rows[i]
    ensures ElementTaken(Mixed(rows, defaults, i), i, Target(rows[i], defaults).element)
            <==> !StepFits(rows, defaults, i)
  {
    var m, e := Mixed(rows, defaults, i), Target(rows[i], defaults).element;
    forall j | 0 <= j < |rows| && j != i
      ensures m[j].element == e <==> (i < j || !HasKey(defaults, rows[j].key)) && rows[j].element == e
    {
      assert rows[i].key != rows[j].key;
      if j < i && HasKey(defaults, rows[j].key) {
        TargetsDiffer(rows[i], rows[j], defaults);
      }
    }
    if ElementTaken(m, i, e) {
      var j :| 0 <= j < |m| && j != i && m[j].element == e;
      assert rows[j].element == e;
    }
    if !StepFits(rows, defaults, i) {
      var j :| 0 <= j < |rows| && i != j && (i < j || !HasKey(defaults, rows[j].key)) && rows[j].element == e;
      assert m[j].element == e;
    }
  }

  /** The update loop, from row `i` on, in closed form. */
  lemma {:induction false} UpdatesExactly(rows: seq<ChangeField>, defaults: seq<ChangeField>, i: nat)
    requires Indexed(rows) && WellNumbered(defaults) && i <= |rows|
    ensures var r := UpdateFields(Mixed(rows, defaults, i), defaults, i);
            && (r.ok <==> forall k :: i <= k < |rows| ==> StepFits(rows, defaults, k))
            && (r.ok ==> r.rows == Mixed(rows, defaults, |rows|))
    decreases |rows| - i
  {
    var m := Mixed(rows, defaults, i);
    if i < |rows| {
      UpdatesExactly(rows, defaults, i + 1);
      var t := Target(rows[i], defaults);
      assert m[i := t] == Mixed(rows, defaults, i + 1);
      if HasKey(defaults, rows[i].key) {
        if t != rows[i] {
          StepCollides(rows, defaults, i);
        } else {
          assert StepFits(rows, defaults, i);
          assert m == m[i := t];
        }
      } else {
        assert StepFits(rows, defaults, i);
        assert m == m[i := t];
      }
    }
  }

  /** The defaults numbered from `lo` up to `hi`, in the order they are listed. */
  function Between(defaults: seq<ChangeField>, lo: int, hi: int): (r: seq<ChangeField>)
    ensures forall f :: f in r <==> f in defaults && lo <= f.element < hi
  {
    if defaults == [] then []
    else if lo <= defaults[0].element < hi then [defaults[0]] + Between(defaults[1..], lo, hi)
    else Between(defaults[1..], lo, hi)
  }

  lemma {:induction false} BetweenIsIndexed(defaults: seq<ChangeField>, lo: int, hi: int)
    requires Indexed(defaults)
    ensures Indexed(Between(defaults, lo, hi))
  {
    if defaults != [] {
      var rest := Between(defaults[1..], lo, hi);
      BetweenIsIndexed(defaults[1..], lo, hi);
      forall i | 0 <= i < |rest| ensures rest[i].key != defaults[0].key && rest[i].element != defaults[0].element {
        assert rest[i] in defaults[1..];
      }
    }
  }

  lemma {:induction false} BetweenNone(defaults: seq<ChangeField>, lo: int, hi: int)
    requires hi <= lo
    ensures Between(defaults, lo, hi) == []
  {
    if defaults != [] { BetweenNone(defaults[1..], lo, hi); }
  }

  /** The defaults that a count of `count` rows leaves to be inserted. */
  function From(defaults: seq<ChangeField>, count: int): seq<ChangeField> {
    Between(defaults, count, |defaults|)
  }

  /** No default numbered from `count` on is blocked, from `i` on in the list. */
  predicate InsertsFree(rows: seq<ChangeField>, defaults: seq<ChangeField>, count: int, i: nat) {
    forall k :: i <= k < |defaults| && defaults[k].element >= count ==> !Blocked(rows, defaults[k])
  }

  lemma StillFree(rows: seq<ChangeField>, defaults: seq<ChangeField>, count: int, i: nat)
    requires Indexed(defaults) && i < |defaults| && !Blocked(rows, defaults[i])
    ensures InsertsFree(rows + [defaults[i]], defaults, count, i + 1) <==> InsertsFree(rows, defaults, count, i)
  {
    forall k | i < k < |defaults| ensures Blocked(rows + [defaults[i]], defaults[k]) <==> Blocked(rows, defaults[k]) {
      Appended(rows, defaults[i], defaults[k]);
    }
  }

  lemma BetweenStep(defaults: seq<ChangeField>, i: nat, count: int)
    requires WellNumbered(defaults) && i < |defaults|
    ensures var rest := Between(defaults[i + 1..], count, |defaults|);
            Between(defaults[i..], count, |defaults|) ==
              if defaults[i].element < count then rest else [defaults[i]] + rest
  {
    assert defaults[i..][0] == defaults[i] && defaults[i..][1..] == defaults[i + 1..];
  }

  lemma {:induction false} InsertsAll(rows: seq<ChangeField>, defaults: seq<ChangeField>, count: int, i: nat)
    requires WellNumbered(defaults) && i <= |defaults| && InsertFields(rows, defaults, count, i).ok
    ensures InsertFields(rows, defaults, count, i).rows == rows + Between(defaults[i..], count, |defaults|)
    decreases |defaults| - i
  {
    if i < |defaults| {
      BetweenStep(defaults, i, count);
      if defaults[i].element < count {
        InsertsAll(rows, defaults, count, i + 1);
      } else {
        InsertsAll(rows + [defaults[i]], defaults, count, i + 1);
      }
    } else {
      assert rows + [] == rows;
    }
  }

  lemma {:induction false} InsertsUnlessBlocked(rows: seq<ChangeField>, defaults: seq<ChangeField>,
                                                count: int, i: nat)
    requires Indexed(defaults) && i <= |defaults|
    ensures InsertFields(rows, defaults, count, i).ok <==> InsertsFree(rows, defaults, count, i)
    decreases |defaults| - i
  {
    if i < |defaults| {
      if defaults[i].element < count {
        InsertsUnlessBlocked(rows, defaults, count, i + 1);
      } else if !Blocked(rows, defaults[i]) {
        InsertsUnlessBlocked(rows + [defaults[i]], defaults, count, i + 1);
        StillFree(rows, defaults, count, i);
      }
    }
  }

  /** The insert loop in closed form: it raises exactly when one of the defaults numbered from `count`
      on is blocked, and otherwise adds them all. */
  lemma InsertsExactly(rows: seq<ChangeField>, defaults: seq<ChangeField>, count: int, i: nat)
    requires WellNumbered(defaults) && i <= |defaults|
    ensures InsertFields(rows, defaults, count, i).ok <==> InsertsFree(rows, defaults, count, i)
    ensures InsertFields(rows, defaults, count, i).ok ==>
              InsertFields(rows, defaults, count, i).rows == rows + Between(defaults[i..], count, |defaults|)
  {
    InsertsUnlessBlocked(rows, defaults, count, i);
    if InsertFields(rows, defaults, count, i).ok { InsertsAll(rows, defaults, count, i); }
  }

  lemma Appended(rows: seq<ChangeField>, d: ChangeField, f: ChangeField)
    requires d.key != f.key && d.element != f.element
    ensures Blocked(rows + [d], f) <==> Blocked(rows, f)
  {
    var more := rows + [d];
    forall j | 0 <= j < |rows| ensures more[j] == rows[j] {}
    if ElementTaken(rows, -1, f.element) {
      var j :| 0 <= j < |rows| && rows[j].element == f.element;
      assert more[j].element == f.element;
    }
    if HasKey(rows, f.key) {
      var j :| 0 <= j < |rows| && rows[j].key == f.key;
      assert more[j].key == f.key;
    }
  }

  // ---- counting ----

  function KeySet(rows: seq<ChangeField>): set<string> {
    set i | 0 <= i < |rows| :: rows[i].key
  }

  lemma {:induction false} KeySetSize(rows: seq<ChangeField>)
    requires UniqueKeys(rows)
    ensures |KeySet(rows)| == |rows|
  {
    if rows != [] {
      var front, last := rows[..|rows| - 1], rows[|rows| - 1];
      KeySetSize(front);
      assert KeySet(rows) == KeySet(front) + {last.key};
    }
  }

  function Numbers(lo: int, n: nat): (r: set<int>)
    ensures |r| == n && forall x :: x in r <==> lo <= x < lo + n
  {
    if n == 0 then {} else Numbers(lo, n - 1) + {lo + n - 1}
  }

  function ElementSet(rows: seq<ChangeField>): set<int> {
    set i | 0 <= i < |rows| :: rows[i].element
  }

  lemma {:induction false} ElementSetSize(rows: seq<ChangeField>)
    requires UniqueElements(rows)
    ensures |ElementSet(rows)| == |rows|
  {
    if rows != [] {
      var front, last := rows[..|rows| - 1], rows[|rows| - 1];
      ElementSetSize(front);
      assert ElementSet(rows) == ElementSet(front) + {last.element};
    }
  }

  lemma {:induction false} SubsetSize<T>(a: set<T>, b: set<T>)
    requires a <= b
    ensures |a| <= |b| && (|a| == |b| ==> a == b)
  {
    assert b == a + (b - a);
  }

  /** Every number below the length belongs to a default. */
  lemma Numbered(defaults: seq<ChangeField>, e: int) returns (k: nat)
    requires WellNumbered(defaults) && 0 <= e < |defaults|
    ensures k < |defaults| && defaults[k].element == e
  {
    ElementSetSize(defaults);
    SubsetSize(ElementSet(defaults), Numbers(0, |defaults|));
    assert e in ElementSet(defaults);
    k :| 0 <= k < |defaults| && defaults[k].element == e;
  }

  lemma FirstElements(defaults: seq<ChangeField>, c: nat)
    requires WellNumbered(defaults) && c <= |defaults|
    ensures ElementSet(Between(defaults, 0, c)) == Numbers(0, c)
  {
    var first := Between(defaults, 0, c);
    forall e ensures e in ElementSet(first) <==> e in Numbers(0, c) {
      if e in ElementSet(first) {
        var i :| 0 <= i < |first| && first[i].element == e;
        assert first[i] in first;
      }
      if 0 <= e < c {
        var k := Numbered(defaults, e);
        assert defaults[k] in first;
        var i :| 0 <= i < |first| && first[i] == defaults[k];
      }
    }
  }

  /** There are `c` defaults numbered below `c`. */
  lemma FirstCount(defaults: seq<ChangeField>, c: nat)
    requires WellNumbered(defaults) && c <= |defaults|
    ensures |Between(defaults, 0, c)| == c
  {
    BetweenIsIndexed(defaults, 0, c);
    ElementSetSize(Between(defaults, 0, c));
    FirstElements(defaults, c);
  }

  lemma FirstKeysPresent(rows: seq<ChangeField>, defaults: seq<ChangeField>)
    requires KeysFit(rows, defaults)
    ensures KeySet(Between(defaults, 0, |rows|)) <= KeySet(rows)
  {
    var first := Between(defaults, 0, |rows|);
    forall key | key in KeySet(first) ensures key in KeySet(rows) {
      var i :| 0 <= i < |first| && first[i].key == key;
      assert first[i] in first;
      var k :| 0 <= k < |defaults| && defaults[k] == first[i];
      assert HasKey(rows, defaults[k].key);
    }
  }

  /** Pigeonhole: when the first defaults are all present and the table is no longer than they are,
      every row is one of them. */
  lemma NoExtraKeys(rows: seq<ChangeField>, defaults: seq<ChangeField>, f: ChangeField)
    requires UniqueKeys(rows) && WellNumbered(defaults) && |rows| <= |defaults|
    requires KeysFit(rows, defaults) && f in rows
    ensures exists k :: 0 <= k < |defaults| && defaults[k].element < |rows| && defaults[k].key == f.key
  {
    var first := Between(defaults, 0, |rows|);
    FirstCount(defaults, |rows|);
    BetweenIsIndexed(defaults, 0, |rows|);
    KeySetSize(rows);
    KeySetSize(first);
    FirstKeysPresent(rows, defaults);
    SubsetSize(KeySet(first), KeySet(rows));
    assert f.key in KeySet(rows);
    var i :| 0 <= i < |first| && first[i].key == f.key;
    assert first[i] in first;
    var k :| 0 <= k < |defaults| && defaults[k] == first[i];
  }

  // ---- one field step ----

  /** The rows before removed fields are deleted, when nothing raised. */
  function Gathered(rows: seq<ChangeField>, defaults: seq<ChangeField>): seq<ChangeField> {
    Mixed(rows, defaults, |rows|) + From(defaults, |rows|)
  }

  /** The rows the whole step leaves when it runs to its end. */
  function Expected(rows: seq<ChangeField>, defaults: seq<ChangeField>): seq<ChangeField> {
    KeepDefaults(Gathered(rows, defaults), defaults)
  }

  /** The step in closed form. */
  lemma PassExactly(rows: seq<ChangeField>, defaults: seq<ChangeField>)
    requires Indexed(rows) && WellNumbered(defaults)
    ensures FieldPass(rows, defaults).ok <==>
              ElementsFit(rows, defaults) && InsertsFree(Mixed(rows, defaults, |rows|), defaults, |rows|, 0)
    ensures FieldPass(rows, defaults).ok ==> FieldPass(rows, defaults).rows == Expected(rows, defaults)
  {
    var updated := Mixed(rows, defaults, |rows|);
    assert Mixed(rows, defaults, 0) == rows;
    UpdatesExactly(rows, defaults, 0);
    InsertsExactly(updated, defaults, |rows|, 0);
    assert defaults[0..] == defaults;
    if |defaults| <= |rows| {
      BetweenNone(defaults, |rows|, |defaults|);
      assert updated + [] == updated;
    }
  }

  /** When the keys fit, no insert is blocked. */
  lemma KeysFitInserts(rows: seq<ChangeField>, defaults: seq<ChangeField>)
    requires Indexed(rows) && WellNumbered(defaults) && KeysFit(rows, defaults)
    ensures InsertsFree(Mixed(rows, defaults, |rows|), defaults, |rows|, 0)
  {
    var updated := Mixed(rows, defaults, |rows|);
    forall k | 0 <= k < |defaults| && defaults[k].element >= |rows| ensures !Blocked(updated, defaults[k]) {
      forall j | 0 <= j < |updated|
        ensures updated[j].element != defaults[k].element && updated[j].key != defaults[k].key
      {
        NoExtraKeys(rows, defaults, rows[j]);
        var p :| 0 <= p < |defaults| && defaults[p].element < |rows| && defaults[p].key == rows[j].key;
        DefaultOfKey(defaults, defaults[p]);
        assert updated[j] == defaults[p];
      }
    }
  }

  /** Which defaults a completed step leaves: those that were there and those numbered from the row count on. */
  lemma ExpectedHas(rows: seq<ChangeField>, defaults: seq<ChangeField>, f: ChangeField)
    requires WellNumbered(defaults) && f in defaults
    ensures f in Expected(rows, defaults) <==> |rows| <= f.element || HasKey(rows, f.key)
  {
    DefaultOfKey(defaults, f);
    var updated := Mixed(rows, defaults, |rows|);
    assert f in Expected(rows, defaults) <==> f in updated || f in From(defaults, |rows|);
    if HasKey(rows, f.key) {
      var j :| 0 <= j < |rows| && rows[j].key == f.key;
      assert updated[j] == f;
    }
    if f in updated {
      var j :| 0 <= j < |rows| && updated[j] == f;
      assert rows[j].key == f.key;
    }
  }

  /** A completed step leaves defaults only, each once. */
  lemma PassLeavesDefaults(rows: seq<ChangeField>, defaults: seq<ChangeField>)
    requires Indexed(rows) && WellNumbered(defaults) && FieldPass(rows, defaults).ok
    ensures var one := FieldPass(rows, defaults).rows;
            Indexed(one) && (forall f :: f in one ==> f in defaults) && |one| <= |defaults|
  {
    PassExactly(rows, defaults);
    var updated, more, all := Mixed(rows, defaults, |rows|), From(defaults, |rows|), Gathered(rows, defaults);
    BetweenIsIndexed(defaults, |rows|, |defaults|);
    forall i, j | 0 <= i < j < |all| ensures all[i].key != all[j].key {
      if j < |rows| {
        assert rows[i].key != rows[j].key;
      } else {
        assert all[j] == more[j - |rows|] && more[j - |rows|] in defaults;
        if i < |rows| { assert all[i] == updated[i]; } else { assert all[i] == more[i - |rows|]; }
      }
    }
    KeepsUniqueKeys(all, defaults);
    var one := Expected(rows, defaults);
    forall f | f in one ensures f in defaults {
      if f in updated {
        var j :| 0 <= j < |rows| && updated[j] == f;
        assert f == Target(rows[j], defaults);
      }
    }
    DefaultsAreIndexed(one, defaults);
  }

  /** Rows that are all defaults have distinct elements, and there are no more of them than defaults. */
  lemma DefaultsAreIndexed(rows: seq<ChangeField>, defaults: seq<ChangeField>)
    requires UniqueKeys(rows) && Indexed(defaults) && forall f :: f in rows ==> f in defaults
    ensures UniqueElements(rows) && |rows| <= |defaults|
  {
    forall i, j | 0 <= i < j < |rows| ensures rows[i].element != rows[j].element {
      DefaultOfKey(defaults, rows[i]);
      DefaultOfKey(defaults, rows[j]);
      TargetsDiffer(rows[i], rows[j], defaults);
    }
    KeySetSize(rows);
    KeySetSize(defaults);
    forall k | k in KeySet(rows) ensures k in KeySet(defaults) {
      var i :| 0 <= i < |rows| && rows[i].key == k;
      assert rows[i] in defaults;
    }
    SubsetSize(KeySet(rows), KeySet(defaults));
  }

  /** EXACT CONDITION, one step. The field step of a pass ends with precisely the default fields if and only
      if the keys fit and the elements fit. Both can be read off the table before the pass. */
  lemma FieldPassConverges(rows: seq<ChangeField>, defaults: seq<ChangeField>)
    requires Indexed(rows) && WellNumbered(defaults)
    ensures FieldPass(rows, defaults).ok && SameFields(FieldPass(rows, defaults).rows, defaults)
            <==> KeysFit(rows, defaults) && ElementsFit(rows, defaults)
  {
    PassExactly(rows, defaults);
    forall f | f in defaults
      ensures f in Expected(rows, defaults) <==> |rows| <= f.element || HasKey(rows, f.key)
    {
      ExpectedHas(rows, defaults, f);
    }
    if KeysFit(rows, defaults) && ElementsFit(rows, defaults) {
      KeysFitInserts(rows, defaults);
      PassLeavesDefaults(rows, defaults);
    }
  }

  /** A table that holds the default fields, in whatever order it is visited, is left alone. */
  lemma FieldPassFixpoint(rows: seq<ChangeField>, defaults: seq<ChangeField>)
    requires UniqueKeys(defaults) && SameFields(rows, defaults)
    ensures FieldPass(rows, defaults) == Outcome(rows, true)
  {
    SameFieldsLength(rows, defaults);
    forall k | 0 <= k < |rows| ensures Target(rows[k], defaults) == rows[k] {
      assert rows[k] in defaults;
      DefaultOfKey(defaults, rows[k]);
    }
    UpdatesNothing(rows, defaults, 0);
    KeepsAll(rows, defaults);
  }

  lemma SameFieldsLength(rows: seq<ChangeField>, defaults: seq<ChangeField>)
    requires UniqueKeys(defaults) && SameFields(rows, defaults)
    ensures |rows| == |defaults|
  {
    KeySetSize(rows);
    KeySetSize(defaults);
    forall k | k in KeySet(rows) ensures k in KeySet(defaults) {
      var i :| 0 <= i < |rows| && rows[i].key == k;
      assert rows[i] in defaults;
    }
    forall k | k in KeySet(defaults) ensures k in KeySet(rows) {
      var i :| 0 <= i < |defaults| && defaults[i].key == k;
      assert defaults[i] in rows;
    }
    assert KeySet(rows) == KeySet(defaults);
  }

  /** Rows up to number `i` already visited, and every later row either not a default or equal to it. */
  lemma {:induction false} UpdatesNothing(rows: seq<ChangeField>, defaults: seq<ChangeField>, i: nat)
    requires i <= |rows| && forall k :: i <= k < |rows| ==> Target(rows[k], defaults) == rows[k]
    ensures UpdateFields(rows, defaults, i) == Outcome(rows, true)
    decreases |rows| - i
  {
    if i < |rows| {
      UpdatesNothing(rows, defaults, i + 1);
    }
  }

  lemma {:induction false} KeepsAll(rows: seq<ChangeField>, defaults: seq<ChangeField>)
    requires forall f :: f in rows ==> f in defaults
    ensures KeepDefaults(rows, defaults) == rows
  {
    if rows != [] {
      assert rows[0] in defaults;
      KeepsAll(rows[1..], defaults);
    }
  }
}
