/** The reconciliation pass as it runs: objects loaded from the database are changed in memory, and only
    `write`, `delete` and `reinitialize` commit. Each method is proved to do what `RequestTypes` says. */
module Reconciler {
  import opened Common
  import opened ChangeFields
  import opened RequestTypes

  lemma {:induction false} KeepSplit(a: seq<ChangeField>, b: seq<ChangeField>, defaults: seq<ChangeField>)
    ensures KeepDefaults(a + b, defaults) == KeepDefaults(a, defaults) + KeepDefaults(b, defaults)
  {
    if a == [] {
      assert a + b == b;
    } else {
      assert (a + b)[0] == a[0] && (a + b)[1..] == a[1..] + b;
      KeepSplit(a[1..], b, defaults);
    }
  }

  /** The table while removed fields are being deleted: the first `v` have been looked at. */
  function Sifted(all: seq<ChangeField>, v: nat, defaults: seq<ChangeField>): seq<ChangeField>
    requires v <= |all|
  {
    KeepDefaults(all[..v], defaults) + all[v..]
  }

  lemma SiftStep(all: seq<ChangeField>, v: nat, defaults: seq<ChangeField>)
    requires v < |all|
    ensures var at, now := |KeepDefaults(all[..v], defaults)|, Sifted(all, v, defaults);
            && at < |now| && now[at] == all[v]
            && (if Find(defaults, all[v].key).None?
                then Sifted(all, v + 1, defaults) == now[..at] + now[at + 1..]
                     && |KeepDefaults(all[..v + 1], defaults)| == at
                else Sifted(all, v + 1, defaults) == now && |KeepDefaults(all[..v + 1], defaults)| == at + 1)
  {
    var kept := KeepDefaults(all[..v], defaults);
    assert all[..v + 1] == all[..v] + [all[v]];
    KeepSplit(all[..v], [all[v]], defaults);
    assert all[v..] == [all[v]] + all[v + 1..];
    if Find(defaults, all[v].key).None? {
      assert KeepDefaults([all[v]], defaults) == [];
      assert kept + [] == kept;
    } else {
      assert KeepDefaults([all[v]], defaults) == [all[v]];
      assert kept + ([all[v]] + all[v + 1..]) == (kept + [all[v]]) + all[v + 1..];
    }
  }

  lemma SiftedAll(all: seq<ChangeField>, count: nat, defaults: seq<ChangeField>)
    requires count <= |all| && forall k :: count <= k < |all| ==> all[k] in defaults
    ensures Sifted(all, count, defaults) == KeepDefaults(all, defaults)
  {
    assert all == all[..count] + all[count..];
    KeepSplit(all[..count], all[count..], defaults);
    KeepsAll(all[count..], defaults);
  }

  lemma {:induction false} InsertOnlyAdds(rows: seq<ChangeField>, defaults: seq<ChangeField>, count: int, i: nat)
    requires i <= |defaults|
    ensures var r := InsertFields(rows, defaults, count, i).rows;
            && |rows| <= |r| && r[..|rows|] == rows
            && forall k :: |rows| <= k < |r| ==> r[k] in defaults
    decreases |defaults| - i
  {
    if i < |defaults| {
      InsertOnlyAdds(rows, defaults, count, i + 1);
      InsertOnlyAdds(rows + [defaults[i]], defaults, count, i + 1);
    }
  }

  lemma {:induction false} UpdateKeepsKeys(rows: seq<ChangeField>, defaults: seq<ChangeField>, i: nat)
    requires i <= |rows|
    ensures var r := UpdateFields(rows, defaults, i).rows;
            |r| == |rows| && forall k :: 0 <= k < |rows| ==> r[k].key == rows[k].key
    decreases |rows| - i
  {
    if i < |rows| {
      UpdateKeepsKeys(rows, defaults, i + 1);
      UpdateKeepsKeys(rows[i := Target(rows[i], defaults)], defaults, i + 1);
    }
  }

  /** A change type as the pass holds it. Its fields are rows of their own table. */
  class ChangeTypeObject {
    var row: ChangeType            // in memory
    var stored: ChangeType         // committed
    var fields: seq<ChangeField>   // committed rows of the field table

    /** The committed change type with its committed fields, as the next pass loads them. */
    ghost function View(): ChangeType
      reads this
    {
      stored.(fields := ByElement(fields))
    }

    /** The fields come in the order of the database. */
    ghost predicate Loaded()
      reads this
    {
      SortedByElement(fields)
    }

    constructor (row: ChangeType)
      ensures stored == row && fields == row.fields
    {
      this.row, this.stored, this.fields := row, row, row.fields;
    }

    method Write()
      modifies this`stored
      ensures stored == row
    {
      stored := row;
    }

    /** Soft delete. */
    method Delete()
      modifies this`row, this`stored
      ensures stored == row == old(row).(deleted := true)
    {
      row := row.(deleted := true);
      Write();
    }

    method Reinitialize()
      modifies this`row, this`stored
      ensures stored == row == old(row).(updatedBy := NOQ, deleted := false)
    {
      row := row.(updatedBy := NOQ, deleted := false);
      Write();
    }

    /** Commit field number `i`; the unique index on the element may refuse it. */
    method WriteField(i: nat, f: ChangeField) returns (ok: bool)
      requires i < |fields|
      modifies this`fields
      ensures ok <==> !ElementTaken(old(fields), i, f.element)
      ensures fields == if ok then old(fields)[i := f] else old(fields)
    {
      ok := !ElementTaken(fields, i, f.element);
      if ok { fields := fields[i := f]; }
    }

    /** Commit a new field; either unique index may refuse it. */
    method InsertField(f: ChangeField) returns (ok: bool)
      modifies this`fields
      ensures ok <==> !ElementTaken(old(fields), -1, f.element) && !HasKey(old(fields), f.key)
      ensures fields == if ok then old(fields) + [f] else old(fields)
    {
      ok := !ElementTaken(fields, -1, f.element) && !HasKey(fields, f.key);
      if ok { fields := fields + [f]; }
    }

    /** Hard delete. */
    method DeleteField(i: nat)
      requires i < |fields|
      modifies this`fields
      ensures fields == old(fields)[..i] + old(fields)[i + 1..]
    {
      fields := fields[..i] + fields[i + 1..];
    }

    method UpdateExistingFields(defaults: seq<ChangeField>) returns (ok: bool)
      modifies this`fields
      ensures Outcome(fields, ok) == UpdateFields(old(fields), defaults, 0)
    {
      var i := 0;
      while i < |fields|
        invariant i <= |fields|
        invariant UpdateFields(fields, defaults, i) == UpdateFields(old(fields), defaults, 0)
      {
        var d := Find(defaults, fields[i].key);
        if d.Some? && d.value != fields[i] {
          ok := WriteField(i, d.value);
          if !ok { return; }
        }
        i := i + 1;
      }
      ok := true;
    }

    method AddNewFields(defaults: seq<ChangeField>, count: nat) returns (ok: bool)
      modifies this`fields
      ensures Outcome(fields, ok) == InsertFields(old(fields), defaults, count, 0)
    {
      var i := 0;
      while i < |defaults|
        invariant i <= |defaults|
        invariant InsertFields(fields, defaults, count, i) == InsertFields(old(fields), defaults, count, 0)
      {
        if defaults[i].element >= count {
          ok := InsertField(defaults[i]);
          if !ok { return; }
        }
        i := i + 1;
      }
      ok := true;
    }

    /** Remove those of the first `count` fields that have no default; the rest were just inserted. */
    method DeleteRemovedFields(defaults: seq<ChangeField>, count: nat)
      requires count <= |fields|
      requires forall k :: count <= k < |fields| ==> fields[k] in defaults
      modifies this`fields
      ensures fields == KeepDefaults(old(fields), defaults)
    {
      ghost var all := fields;
      assert Sifted(all, 0, defaults) == all;
      var visited, at := 0, 0;
      while visited < count
        invariant visited <= count && at == |KeepDefaults(all[..visited], defaults)|
        invariant fields == Sifted(all, visited, defaults)
      {
        SiftStep(all, visited, defaults);
        if Find(defaults, fields[at].key).None? {
          DeleteField(at);
        } else {
          at := at + 1;
        }
        visited := visited + 1;
      }
      SiftedAll(all, count, defaults);
    }

    method ReconcileFields(defaults: seq<ChangeField>) returns (ok: bool)
      modifies this`fields
      ensures Outcome(fields, ok) == FieldPass(old(fields), defaults)
    {
      var count := |fields|;
      UpdateKeepsKeys(fields, defaults, 0);
      ok := UpdateExistingFields(defaults);
      if !ok { return; }
      if |defaults| > count {
        InsertOnlyAdds(fields, defaults, count, 0);
        ok := AddNewFields(defaults, count);
        if !ok { return; }
      }
      DeleteRemovedFields(defaults, count);
    }

    /** The first half of the loop body: the type lists, and the branches they decide. */
    method ReconcileTypes(d: Option<ChangeType>, types: seq<int>) returns (settled: bool)
      modifies this`row, this`stored
      ensures var v := Classify(old(stored), d, types);
              && (settled <==> v in {Retire, Revive, Unwritten, Retype})
              && stored == (if settled then Committed(v, old(stored), Retyped(old(stored), d, types)) else old(stored))
              && (!settled ==> row == Retyped(stored, d, types))
    {
      row := stored;
      var initAvailable, initSupported := Sort(row.available), Sort(row.supported);
      SortEmpty(row.available);
      if d.Some? {
        row := row.(supported := Sort(d.value.supported));
      }
      row := row.(available := Sort(Filter(row.supported, types)));
      ghost var start, inStep := stored, initAvailable == row.available && initSupported == row.supported;
      ghost var v := Decide(start, row.available, inStep, d.Some?);
      assert row == Retyped(start, d, types) && v == Classify(start, d, types);
      settled := true;
      if row.available == [] && !row.deleted {
        row := row.(updatedBy := NOQ);
        Delete();
      } else if initAvailable == [] && row.available != [] {
        if row.updatedBy == NOQ {
          Reinitialize();
        }
      } else if row.deleted {
      } else if initAvailable != row.available || initSupported != row.supported {
        row := row.(updatedBy := NOQ);
        Write();
      } else {
        settled := false;
      }
    }

    /** The second half of the loop body, for a row that Noq manages and still ships. */
    method Refresh(d: ChangeType, types: seq<int>) returns (ok: bool)
      requires row == Retyped(stored, Some(d), types)
      modifies this
      ensures stored == Refreshed(old(stored), d, types)
      ensures Outcome(fields, ok) == FieldPass(old(fields), d.fields)
    {
      var writeChangeType := false;
      if row.attrs != d.attrs {
        row := row.(attrs := d.attrs, updatedBy := NOQ);
        writeChangeType := true;
      }
      if row.template != d.template {
        row := row.(template := d.template, updatedBy := NOQ);
        writeChangeType := true;
      }
      if writeChangeType { Write(); }
      ok := ReconcileFields(d.fields);
    }

    /** The body of the loop over change types. */
    method Reconcile(d: Option<ChangeType>, types: seq<int>) returns (ok: bool)
      requires Loaded()
      modifies this
      ensures Step(View(), ok) == RowPass(old(View()), d, types)
    {
      ghost var start := View();
      ByElementIdle(fields);
      FieldsAside(stored, fields, d, types);
      ok := true;
      var settled := ReconcileTypes(d, types);
      if settled { return; }
      if row.createdBy != NOQ || !NoqManaged(row.updatedBy) {
      } else if d.None? {
        Delete();
      } else {
        ok := Refresh(d.value, types);
      }
    }
  }

  /** Only a refresh looks at the fields. */
  lemma FieldsAside(row: ChangeType, fields: seq<ChangeField>, d: Option<ChangeType>, types: seq<int>)
    ensures Classify(row.(fields := fields), d, types) == Classify(row, d, types)
    ensures Retyped(row.(fields := fields), d, types) == Retyped(row, d, types).(fields := fields)
    ensures d.Some? ==>
                  Refreshed(row.(fields := fields), d.value, types) == Refreshed(row, d.value, types).(fields := fields)
  {
  }

  /** The committed change types of a list of objects. */
  ghost function Rows(objs: seq<ChangeTypeObject>): (r: seq<ChangeType>)
    reads objs
    ensures |r| == |objs| && forall i :: 0 <= i < |objs| ==> r[i] == objs[i].View()
  {
    seq(|objs|, i requires 0 <= i < |objs| reads objs => objs[i].View())
  }

  lemma RowsAre(objs: seq<ChangeTypeObject>, rows: seq<ChangeType>)
    requires |objs| == |rows| && forall k :: 0 <= k < |objs| ==> objs[k].View() == rows[k]
    ensures Rows(objs) == rows
  {
  }

  /** A loop that steps a list has reached item `i` and made the list `now`. */
  predicate Stepping<T(==)>(xs: seq<T>, f: T -> Step<T>, now: seq<T>, i: nat) {
    && i <= |now|
    && StepAll(xs, f) == Step(now[..i] + StepAll(now[i..], f).value, StepAll(now[i..], f).ok)
  }

  /** The loop is at item `i`, or it stopped there. */
  predicate Turned<T(==)>(xs: seq<T>, f: T -> Step<T>, now: seq<T>, i: nat, ok: bool) {
    if ok then Stepping(xs, f, now, i) else StepAll(xs, f) == Step(now, false)
  }

  lemma SteppingStarts<T>(xs: seq<T>, f: T -> Step<T>)
    ensures Stepping(xs, f, xs, 0)
  {
    assert xs[0..] == xs && xs[..0] + StepAll(xs, f).value == StepAll(xs, f).value;
  }

  /** One turn of the loop either moves on or ends it. */
  lemma SteppingTurn<T>(xs: seq<T>, f: T -> Step<T>, now: seq<T>, i: nat)
    requires i < |now| && Stepping(xs, f, now, i)
    ensures Turned(xs, f, now[i := f(now[i]).value], i + 1, f(now[i]).ok)
  {
    var one := f(now[i]);
    var next := now[i := one.value];
    assert now[i..][0] == now[i] && now[i..][1..] == now[i + 1..] == next[i + 1..];
    assert next[..i + 1] == now[..i] + [one.value];
    var rest := StepAll(now[i + 1..], f).value;
    assert now[..i] + ([one.value] + rest) == (now[..i] + [one.value]) + rest;
    assert next == now[..i] + ([one.value] + now[i + 1..]);
  }

  lemma SteppingEnds<T>(xs: seq<T>, f: T -> Step<T>, now: seq<T>)
    requires Stepping(xs, f, now, |now|)
    ensures StepAll(xs, f) == Step(now, true)
  {
    assert now[..|now|] + [] == now;
  }

  lemma {:induction false} MissingSplit(rows: seq<ChangeType>, a: seq<ChangeType>, b: seq<ChangeType>, types: seq<int>)
    ensures Missing(rows, a + b, types) == Missing(rows, a, types) + Missing(rows, b, types)
  {
    if a == [] {
      assert a + b == b;
    } else {
      assert (a + b)[0] == a[0] && (a + b)[1..] == a[1..] + b;
      MissingSplit(rows, a[1..], b, types);
    }
  }

  lemma MissingNext(rows: seq<ChangeType>, ds: seq<ChangeType>, types: seq<int>, n: nat)
    requires n < |ds|
    ensures Missing(rows, ds[..n + 1], types)
            == Missing(rows, ds[..n], types)
               + if FindChange(rows, ds[n].description).None? then [Prepared(ds[n], types)] else []
  {
    assert ds[..n + 1] == ds[..n] + [ds[n]];
    MissingSplit(rows, ds[..n], [ds[n]], types);
  }

  predicate AllByElement(rows: seq<ChangeType>) {
    forall k :: 0 <= k < |rows| ==> SortedByElement(rows[k].fields)
  }

  method LoadChangeTypes(rows: seq<ChangeType>) returns (objs: seq<ChangeTypeObject>)
    requires AllByElement(rows)
    ensures fresh(objs) && Rows(objs) == rows
    ensures forall k :: 0 <= k < |objs| ==> objs[k].Loaded()
    ensures forall i, j :: 0 <= i < j < |objs| ==> objs[i] != objs[j]
  {
    objs := [];
    while |objs| < |rows|
      invariant |objs| <= |rows| && fresh(objs)
      invariant forall k :: 0 <= k < |objs| ==> objs[k].View() == rows[k] && objs[k].Loaded()
      invariant forall i, j :: 0 <= i < j < |objs| ==> objs[i] != objs[j]
    {
      ByElementIdle(rows[|objs|].fields);
      var o := new ChangeTypeObject(rows[|objs|]);
      objs := objs + [o];
    }
    RowsAre(objs, rows);
  }

  class RequestTypeObject {
    const name: string
    var description: string
    var expressSupport: bool
    var updatedBy: Option<string>
    var deleted: bool
    var changeTypes: seq<ChangeTypeObject>

    ghost predicate Valid()
      reads this
    {
      forall i, j :: 0 <= i < j < |changeTypes| ==> changeTypes[i] != changeTypes[j]
    }

    ghost function View(): RequestType
      reads this, changeTypes
    {
      RequestType(name, description, expressSupport, updatedBy, deleted, Rows(changeTypes))
    }

    /** The fields of the change types not yet visited come in the order of the database. */
    ghost predicate LoadedFrom(i: int)
      reads this, changeTypes
    {
      forall k :: 0 <= i <= k < |changeTypes| ==> changeTypes[k].Loaded()
    }

    /** A request type loaded together with its change types. */
    constructor (r: RequestType)
      requires AllByElement(r.changeTypes)
      ensures Valid() && LoadedFrom(0) && View() == r && fresh(changeTypes)
    {
      name, description, expressSupport := r.name, r.description, r.expressSupport;
      updatedBy, deleted := r.updatedBy, r.deleted;
      var objs := LoadChangeTypes(r.changeTypes);
      changeTypes := objs;
    }

    /** `RequestType.delete`: one update statement flags the change types, then the request type. */
    method Delete()
      requires Valid()
      modifies this`deleted, changeTypes
      ensures Valid() && View() == Deleted(old(View()))
    {
      ghost var before := View();
      var i := 0;
      while i < |changeTypes|
        invariant i <= |changeTypes|
        invariant forall k :: 0 <= k < |changeTypes| ==>
                    changeTypes[k].View() ==
                      if k < i then before.changeTypes[k].(deleted := true) else before.changeTypes[k]
      {
        changeTypes[i].stored := changeTypes[i].stored.(deleted := true);
        i := i + 1;
      }
      deleted := true;
    }

    /** Item `i` is stepped, the others are not touched. */
    method ReconcileAt(i: nat, d: Option<RequestType>, types: seq<int>) returns (ok: bool)
      requires Valid() && i < |changeTypes| && changeTypes[i].Loaded()
      modifies changeTypes[i]
      ensures var o := RowStep(d, types)(old(Rows(changeTypes))[i]);
              ok == o.ok && Rows(changeTypes) == old(Rows(changeTypes))[i := o.value]
    {
      ghost var before, row := Rows(changeTypes), changeTypes[i].View();
      var o := changeTypes[i];
      ok := o.Reconcile(DefaultOf(d, o.stored.description), types);
      assert before[i] == row;
      RowsAre(changeTypes, before[i := o.View()]);
    }

    /** One turn of the loop over the stored change types. */
    method ReconcileTurn(ghost before: seq<ChangeType>, i: nat, d: Option<RequestType>, types: seq<int>)
      returns (ok: bool)
      requires Valid() && i < |changeTypes| && LoadedFrom(i)
      requires Turned(before, RowStep(d, types), Rows(changeTypes), i, true)
      modifies changeTypes[i]
      ensures LoadedFrom(i + 1) && Turned(before, RowStep(d, types), Rows(changeTypes), i + 1, ok)
    {
      SteppingTurn(before, RowStep(d, types), Rows(changeTypes), i);
      ok := ReconcileAt(i, d, types);
    }

    /** The loop over the stored change types. */
    method ReconcileChangeTypes(d: Option<RequestType>, types: seq<int>) returns (ok: bool)
      requires Valid() && LoadedFrom(0)
      modifies changeTypes
      ensures Valid() && unchanged(this)
      ensures Step(Rows(changeTypes), ok) == StepAll(old(Rows(changeTypes)), RowStep(d, types))
    {
      ghost var before := Rows(changeTypes);
      SteppingStarts(before, RowStep(d, types));
      var i := 0;
      ok := true;
      while ok && i < |changeTypes|
        invariant i <= |changeTypes| && unchanged(this) && LoadedFrom(i)
        invariant Turned(before, RowStep(d, types), Rows(changeTypes), i, ok)
      {
        ok := ReconcileTurn(before, i, d, types);
        i := i + 1;
      }
      if ok { SteppingEnds(before, RowStep(d, types), Rows(changeTypes)); }
    }

    /** "Add new change types". `known` are the descriptions read when the pass began. */
    method AddChangeTypes(known: seq<ChangeType>, ds: seq<ChangeType>, types: seq<int>)
      requires Valid()
      modifies this`changeTypes
      ensures Valid()
      ensures Rows(changeTypes) == old(Rows(changeTypes)) + Missing(known, ds, types)
    {
      ghost var before := Rows(changeTypes);
      var i := 0;
      while i < |ds|
        invariant i <= |ds| && Valid()
        invariant Rows(changeTypes) == before + Missing(known, ds[..i], types)
      {
        MissingNext(known, ds, types, i);
        if FindChange(known, ds[i].description).None? {
          ByElementSorts(ds[i].fields);
          ByElementIdle(Prepared(ds[i], types).fields);
          var o := new ChangeTypeObject(Prepared(ds[i], types));
          changeTypes := changeTypes + [o];
        }
        i := i + 1;
      }
      assert ds[..i] == ds;
    }

    /** The change types as the database has them now. */
    method Snapshot() returns (rows: seq<ChangeType>)
      ensures rows == Rows(changeTypes) && AllByElement(rows)
    {
      rows := [];
      var i := 0;
      while i < |changeTypes|
        invariant i <= |changeTypes| && |rows| == i && AllByElement(rows)
        invariant forall k :: 0 <= k < i ==> rows[k] == changeTypes[k].View()
      {
        ByElementSorts(changeTypes[i].fields);
        rows := rows + [changeTypes[i].stored.(fields := ByElement(changeTypes[i].fields))];
        i := i + 1;
      }
    }

    method ReconcileHead(d: RequestType)
      requires Valid()
      modifies this`description, this`expressSupport, this`updatedBy
      ensures Valid() && View() == HeadPass(old(View()), d)
    {
      if description != d.description {
        description, updatedBy := d.description, NOQ;
      }
      if expressSupport != d.expressSupport {
        expressSupport, updatedBy := d.expressSupport, NOQ;
      }
    }

    /** The body of the loop over request types. */
    method Reconcile(d: Option<RequestType>, types: seq<int>) returns (ok: bool)
      requires Valid() && LoadedFrom(0)
      modifies this, changeTypes
      ensures Valid()
      ensures Step(View(), ok) == RequestPass(old(View()), d, types)
    {
      ghost var before := View();
      var known := Snapshot();
      if NoqManaged(updatedBy) {
        if d.None? {
          Delete();
          return true;
        }
        ReconcileHead(d.value);
      }
      ghost var head := View();
      ok := ReconcileChangeTypes(d, types);
      assert View() == head.(changeTypes := Rows(changeTypes));
      if !ok || d.None? { return false; }
      AddChangeTypes(known, d.value.changeTypes, types);
      assert View() == head.(changeTypes := Rows(changeTypes));
    }
  }

  lemma {:induction false} MissingRequestsSplit(store: seq<RequestType>, a: seq<RequestType>,
                          b: seq<RequestType>, types: seq<int>)
    ensures MissingRequests(store, a + b, types) == MissingRequests(store, a, types) + MissingRequests(store, b, types)
  {
    if a == [] {
      assert a + b == b;
    } else {
      assert (a + b)[0] == a[0] && (a + b)[1..] == a[1..] + b;
      MissingRequestsSplit(store, a[1..], b, types);
    }
  }

  lemma MissingRequestsNext(store: seq<RequestType>, ds: seq<RequestType>, types: seq<int>, n: nat)
    requires n < |ds|
    ensures MissingRequests(store, ds[..n + 1], types) == MissingRequests(store, ds[..n], types)
            + if FindRequest(store, ds[n].name).None? then
                 [ds[n].(changeTypes := PreparedAll(ds[n].changeTypes, types))]
              else []
  {
    assert ds[..n + 1] == ds[..n] + [ds[n]];
    MissingRequestsSplit(store, ds[..n], [ds[n]], types);
  }

  lemma MissingAreByElement(store: seq<RequestType>, ds: seq<RequestType>, types: seq<int>)
    ensures forall r :: r in MissingRequests(store, ds, types) ==> AllByElement(r.changeTypes)
  {
    forall r | r in MissingRequests(store, ds, types) ensures AllByElement(r.changeTypes) {
      var d :| d in ds && r == d.(changeTypes := PreparedAll(d.changeTypes, types)) && FindRequest(store, d.name).None?;
      forall k | 0 <= k < |r.changeTypes| ensures SortedByElement(r.changeTypes[k].fields) {
        ByElementSorts(d.changeTypes[k].fields);
      }
    }
  }

  /** The request types stored for one tenant. A pass loads each as an object and commits through it. */
  class TenantRecord {
    var supported: seq<int>
    var requestTypes: seq<RequestType>

    /** The fields of every change type are stored in the order in which they are loaded. */
    ghost predicate Valid()
      reads this
    {
      forall k :: 0 <= k < |requestTypes| ==> AllByElement(requestTypes[k].changeTypes)
    }

    /** One turn of the loop over the stored request types. */
    method ReconcileAt(i: nat, env: Env) returns (ok: bool)
      requires Valid() && i < |requestTypes|
      modifies this`requestTypes
      ensures Valid()
      ensures var o := RequestStep(env)(old(requestTypes)[i]);
              ok == o.ok && requestTypes == old(requestTypes)[i := o.value]
    {
      var r := new RequestTypeObject(requestTypes[i]);
      ok := r.Reconcile(FindRequest(env.defaults, r.name), env.types);
      var rows := r.Snapshot();
      requestTypes := requestTypes[i :=
        RequestType(r.name, r.description, r.expressSupport, r.updatedBy, r.deleted, rows)];
    }

    /** The loop over the stored request types. */
    method ReconcileRequestTypes(env: Env) returns (ok: bool)
      requires Valid()
      modifies this`requestTypes
      ensures Valid() && Step(requestTypes, ok) == StepAll(old(requestTypes), RequestStep(env))
    {
      ghost var before, f := requestTypes, RequestStep(env);
      SteppingStarts(before, f);
      var i := 0;
      ok := true;
      while ok && i < |requestTypes|
        invariant Valid() && i <= |requestTypes| && Turned(before, f, requestTypes, i, ok)
      {
        SteppingTurn(before, f, requestTypes, i);
        ok := ReconcileAt(i, env);
        i := i + 1;
      }
      if ok { SteppingEnds(before, f, requestTypes); }
    }

    /** "Add new request types". `known` are the request types read when the pass began. */
    method AddRequestTypes(known: seq<RequestType>, ds: seq<RequestType>, types: seq<int>)
      requires Valid()
      modifies this`requestTypes
      ensures Valid() && requestTypes == old(requestTypes) + MissingRequests(known, ds, types)
    {
      var added: seq<RequestType> := [];
      var i := 0;
      while i < |ds|
        invariant i <= |ds| && added == MissingRequests(known, ds[..i], types) && requestTypes == old(requestTypes)
      {
        MissingRequestsNext(known, ds, types, i);
        if FindRequest(known, ds[i].name).None? {
          added := added + [ds[i].(changeTypes := PreparedAll(ds[i].changeTypes, types))];
        }
        i := i + 1;
      }
      assert ds[..i] == ds && added == MissingRequests(known, ds, types);
      MissingAreByElement(known, ds, types);
      requestTypes := requestTypes + added;
    }

    /** `upsert_tenant_request_types`, given the tenant's template types and what each provider's
        defaults loaded to. */
    method Upsert(templates: seq<int>, results: seq<Option<seq<RequestType>>>) returns (ok: bool)
      requires Valid()
      modifies this
      ensures Valid()
      ensures Step(requestTypes, ok) == TenantPass(old(requestTypes), Env(Gather(results), Sort(templates)))
      ensures supported == if old(supported) != [] && Sort(old(supported)) == Sort(templates)
                           then old(supported) else Sort(templates)
    {
      var types := Sort(templates);
      SortEmpty(supported);
      if supported == [] || types != Sort(supported) {
        supported := types;
        if supported == [] { return true; }
      }
      var defaults := Gather(results);
      var known := requestTypes;
      if known == [] {
        AddRequestTypes(known, defaults, types);
        return true;
      }
      ok := ReconcileRequestTypes(Env(defaults, types));
      if ok {
        AddRequestTypes(known, defaults, types);
      }
    }
  }
}
