/** What passes do to a single change type. */
module RowProofs {
  import opened Common
  import opened ChangeFields
  import opened FieldRuns
  import opened RequestTypes

  /** A live change type is available for something; a row inserted or written by a pass is. */
  predicate LiveIsAvailable(row: ChangeType) {
    !row.deleted ==> row.available != []
  }

  /** What the unique indexes guarantee of the row, and the shipped source of its default. */
  predicate FieldsValid(row: ChangeType, d: Option<ChangeType>) {
    IsTable(row.fields) && (d.Some? ==> WellNumbered(d.value.fields))
  }

  /** A single refresh brings the fields of the row to those of `d`. */
  predicate FieldsReady(row: ChangeType, d: ChangeType) {
    FieldsValid(row, Some(d)) && KeysFit(row.fields, d.fields) && ElementsFit(row.fields, d.fields)
  }

  /** Equal to its default in everything a pass compares. */
  predicate MatchesDefault(row: ChangeType, d: ChangeType, types: seq<int>) {
    && row.attrs == d.attrs && row.template == d.template
    && InStep(row, Some(d), types)
    && SameFields(row.fields, d.fields)
  }

  predicate TenantEdited(row: ChangeType) {
    row.createdBy != NOQ || !NoqManaged(row.updatedBy)
  }

  /** What the tenant can edit. */
  predicate SameContent(a: ChangeType, b: ChangeType) {
    a.attrs == b.attrs && a.template == b.template && a.fields == b.fields
  }

  /** What the database and the passes guarantee of a row. */
  predicate ValidRow(row: ChangeType) {
    LiveIsAvailable(row) && IsTable(row.fields)
  }

  lemma PassKeepsAvailable(row: ChangeType, d: Option<ChangeType>, types: seq<int>)
    requires LiveIsAvailable(row)
    ensures LiveIsAvailable(RowPass(row, d, types).value)
  {
    SortEmpty(row.available);
    var v := Classify(row, d, types);
    if v == Refresh {
      assert NewAvailable(row, d, types) != [];
    }
  }

  lemma PassKeepsValid(row: ChangeType, d: Option<ChangeType>, types: seq<int>)
    requires ValidRow(row)
    ensures ValidRow(RowPass(row, d, types).value)
  {
    PassKeepsAvailable(row, d, types);
    if Classify(row, d, types) == Refresh { PassLeavesTable(row.fields, d.value.fields); }
  }

  lemma PreparedIsValid(d: ChangeType, types: seq<int>)
    requires Indexed(d.fields)
    ensures ValidRow(Prepared(d, types))
  {
    ByElementSorts(d.fields);
    ByElementIndexed(d.fields);
  }

  function RowTwice(row: ChangeType, d: Option<ChangeType>, types: seq<int>): ChangeType {
    RowPass(RowPass(row, d, types).value, d, types).value
  }

  /** Once written, the type lists of a row with a default are in step. */
  lemma RetypedInStep(row: ChangeType, d: Option<ChangeType>, types: seq<int>)
    ensures d.Some? ==> InStep(Retyped(row, d, types), d, types)
    ensures NewAvailable(Retyped(row, d, types), d, types) == NewAvailable(row, d, types)
    ensures Sort(NewAvailable(row, d, types)) == NewAvailable(row, d, types)
  {
    SortIdempotent(Filter(NewSupported(row, d), types));
    if d.Some? { SortIdempotent(d.value.supported); }
  }

  lemma RefreshedMatches(row: ChangeType, d: ChangeType, types: seq<int>, fields: seq<ChangeField>)
    requires InStep(row, Some(d), types) && SameFields(fields, d.fields)
    ensures MatchesDefault(Refreshed(row, d, types).(fields := fields), d, types)
  {
    RetypedInStep(row, Some(d), types);
  }

  /** A row that Noq manages and whose type lists are in step is refreshed, again and again. */
  predicate Refreshable(row: ChangeType, d: ChangeType, types: seq<int>) {
    && !row.deleted && !TenantEdited(row) && InStep(row, Some(d), types)
    && NewAvailable(row, Some(d), types) != []
  }

  lemma RefreshableIs(row: ChangeType, d: ChangeType, types: seq<int>)
    ensures Refreshable(row, d, types) <==> Classify(row, Some(d), types) == Refresh
  {
    SortEmpty(row.available);
  }

  /** A refresh is followed by a refresh, whatever becomes of the fields. */
  lemma RefreshRepeats(row: ChangeType, d: ChangeType, types: seq<int>)
    requires Refreshable(row, d, types)
    ensures var o, f := RowPass(row, Some(d), types), TablePass(row.fields, d.fields);
            && o.ok == f.ok && o.value.fields == f.rows
            && Refreshable(o.value, d, types)
            && (SameFields(f.rows, d.fields) ==> MatchesDefault(o.value, d, types))
  {
    RefreshableIs(row, d, types);
    RetypedInStep(row, Some(d), types);
    var f := TablePass(row.fields, d.fields);
    assert RowPass(row, Some(d), types) == Step(Refreshed(row, d, types).(fields := f.rows), f.ok);
    if SameFields(f.rows, d.fields) { RefreshedMatches(row, d, types, f.rows); }
  }

  lemma RefreshLeavesDefault(row: ChangeType, d: ChangeType, types: seq<int>)
    requires FieldsReady(row, d) && Refreshable(row, d, types)
    ensures var o := RowPass(row, Some(d), types);
            o.ok && MatchesDefault(o.value, d, types) && Refreshable(o.value, d, types)
  {
    TablePassConverges(row.fields, d.fields);
    RefreshRepeats(row, d, types);
  }

  lemma MatchingRowIsLeftAlone(row: ChangeType, d: ChangeType, types: seq<int>)
    requires IsTable(row.fields) && UniqueKeys(d.fields)
    requires MatchesDefault(row, d, types) && Refreshable(row, d, types)
    ensures RowPass(row, Some(d), types) == Step(row, true)
  {
    RefreshableIs(row, d, types);
    FieldPassFixpoint(row.fields, d.fields);
    ByElementIdle(row.fields);
    assert row.(fields := row.fields) == row;
  }

  /** One pass over the row is the last that changes it, and leaves its default if Noq manages it. */
  predicate Settles(row: ChangeType, d: Option<ChangeType>, types: seq<int>) {
    var o := RowPass(row, d, types);
    && o.ok && LiveIsAvailable(o.value) && RowPass(o.value, d, types) == o
    && (!o.value.deleted && !TenantEdited(o.value) && d.Some? ==> MatchesDefault(o.value, d.value, types))
  }

  /** A row about to be refreshed settles exactly when one refresh is enough. */
  lemma RefreshSettlesIff(row: ChangeType, d: ChangeType, types: seq<int>)
    requires FieldsValid(row, Some(d)) && Refreshable(row, d, types)
    ensures Settles(row, Some(d), types) <==> FieldsReady(row, d)
  {
    RefreshRepeats(row, d, types);
    TablePassConverges(row.fields, d.fields);
    PassLeavesTable(row.fields, d.fields);
    var o := RowPass(row, Some(d), types);
    SortEmpty(o.value.available);
    if FieldsReady(row, d) { MatchingRowIsLeftAlone(o.value, d, types); }
  }

  /** The row as a revive or a retype writes it. */
  predicate Written(row: ChangeType, d: Option<ChangeType>, types: seq<int>) {
    && !row.deleted && row.updatedBy == NOQ && row.available != []
    && row.available == NewAvailable(row, d, types) && row.supported == NewSupported(row, d)
  }

  lemma ReviveAndRetypeWrite(row: ChangeType, d: Option<ChangeType>, types: seq<int>)
    requires Classify(row, d, types) == Revive || Classify(row, d, types) == Retype
    ensures var o := RowPass(row, d, types);
            o.ok && o.value.fields == row.fields && Written(o.value, d, types)
  {
    RetypedInStep(row, d, types);
  }

  /** A retired or withdrawn row is not touched by a further pass in the same setting. */
  lemma RetireAndWithdrawSettle(row: ChangeType, d: Option<ChangeType>, types: seq<int>)
    requires Classify(row, d, types) == Retire || Classify(row, d, types) == Withdraw
    ensures var o := RowPass(row, d, types);
            o.ok && Settles(o.value, d, types)
  {
    RetypedInStep(row, d, types);
    SortEmpty(row.available);
    assert Classify(RowPass(row, d, types).value, d, types) == Unwritten;
  }

  /** One more pass over a written row, other than a refresh, is the last that changes it. */
  lemma WrittenSettles(row: ChangeType, d: Option<ChangeType>, types: seq<int>)
    requires Written(row, d, types) && Classify(row, d, types) != Refresh
    ensures Settles(row, d, types)
  {
    RetypedInStep(row, d, types);
    var v := Classify(row, d, types);
    if v == Withdraw {
      RetireAndWithdrawSettle(row, d, types);
    } else if v == Retype {
      assert RowPass(row, d, types).value == row;
    } else {
      assert v == TenantOwned;
    }
  }

  lemma QuietRow(row: ChangeType, d: Option<ChangeType>, types: seq<int>)
    requires LiveIsAvailable(row) && (Classify(row, d, types) == Unwritten || Classify(row, d, types) == TenantOwned)
    ensures RowPass(row, d, types) == Step(row, true) && Settles(row, d, types)
  {
  }

  /** Both of two passes refresh the row. */
  predicate RefreshedTwice(row: ChangeType, d: Option<ChangeType>, types: seq<int>) {
    d.Some? && Refreshable(row, d.value, types)
  }

  /** The first of two passes revives the row or corrects its lists, and the second refreshes it: Noq created
      it and ships it, a type is available, and it was retired by Noq or is live and out of step. */
  predicate RefreshedOnce(row: ChangeType, d: Option<ChangeType>, types: seq<int>) {
    && d.Some? && row.createdBy == NOQ && NewAvailable(row, d, types) != []
    && if row.deleted then row.available == [] && row.updatedBy == NOQ else !InStep(row, d, types)
  }

  /** The fields can be brought to the default in the refreshes that two passes make. */
  predicate RowReady(row: ChangeType, d: Option<ChangeType>, types: seq<int>) {
    && (RefreshedTwice(row, d, types) ==> FieldsFit(row.fields, d.value.fields))
    && (RefreshedOnce(row, d, types) ==> FieldsReady(row, d.value))
  }

  lemma RefreshedTwiceConvergesIff(row: ChangeType, d: ChangeType, types: seq<int>)
    requires FieldsValid(row, Some(d)) && Refreshable(row, d, types)
    ensures var o := RowPass(row, Some(d), types);
            o.ok && Settles(o.value, Some(d), types) <==> FieldsFit(row.fields, d.fields)
  {
    var o, f := RowPass(row, Some(d), types), TablePass(row.fields, d.fields);
    RefreshRepeats(row, d, types);
    PassLeavesTable(row.fields, d.fields);
    if f.ok {
      TwoSteps(row.fields, d.fields);
      RefreshSettlesIff(o.value, d, types);
    } else if FieldsFit(row.fields, d.fields) {
      FitMeansOk(row.fields, d.fields);
    }
  }

  lemma WrittenConvergesIff(row: ChangeType, d: Option<ChangeType>, types: seq<int>)
    requires LiveIsAvailable(row) && FieldsValid(row, d)
    requires Classify(row, d, types) == Revive || Classify(row, d, types) == Retype
    ensures Settles(RowPass(row, d, types).value, d, types) <==>
                  (RefreshedOnce(row, d, types) ==> FieldsReady(row, d.value))
  {
    var one := RowPass(row, d, types).value;
    ReviveAndRetypeWrite(row, d, types);
    RetypedInStep(row, d, types);
    SortEmpty(row.available);
    if RefreshedOnce(row, d, types) {
      assert Refreshable(one, d.value, types);
      RefreshSettlesIff(one, d.value, types);
    } else {
      WrittenSettles(one, d, types);
    }
  }

  /** CONVERGENCE, one row. Two passes complete and reach a fixpoint, in which a live row that Noq manages
      matches its default, if and only if its fields fit the refreshes the two passes make. */
  lemma RowConvergesIff(row: ChangeType, d: Option<ChangeType>, types: seq<int>)
    requires LiveIsAvailable(row) && FieldsValid(row, d)
    ensures RowPass(row, d, types).ok && Settles(RowPass(row, d, types).value, d, types) <==> RowReady(row, d, types)
  {
    var v := Classify(row, d, types);
    SortEmpty(row.available);
    if v == Refresh {
      RefreshableIs(row, d.value, types);
      RefreshedTwiceConvergesIff(row, d.value, types);
    } else {
      if d.Some? { RefreshableIs(row, d.value, types); }
      if v == Revive || v == Retype {
        WrittenConvergesIff(row, d, types);
      } else if v == Retire || v == Withdraw {
        RetireAndWithdrawSettle(row, d, types);
      } else {
        QuietRow(row, d, types);
      }
    }
  }

  // ---- any number of passes ----

  function RowStepper(d: Option<ChangeType>, types: seq<int>): Step<ChangeType> -> Step<ChangeType> {
    (o: Step<ChangeType>) => RowPass(o.value, d, types)
  }

  /** The row after `n` passes in one setting, and whether the last of them completed. */
  function RowAfter(row: ChangeType, d: Option<ChangeType>, types: seq<int>, n: nat): Step<ChangeType> {
    Iterate(RowStepper(d, types), Step(row, true), n)
  }

  /** The fields of a row that passes refresh can be brought to the default, in one refresh or two. */
  predicate RowFits(row: ChangeType, d: Option<ChangeType>, types: seq<int>) {
    RefreshedTwice(row, d, types) || RefreshedOnce(row, d, types) ==> FieldsFit(row.fields, d.value.fields)
  }

  lemma ReadyFits(row: ChangeType, d: Option<ChangeType>, types: seq<int>)
    requires RowReady(row, d, types)
    ensures RowFits(row, d, types)
  {
  }

  lemma RowRaisesAgain(row: ChangeType, d: Option<ChangeType>, types: seq<int>)
    requires ValidRow(row) && FieldsValid(row, d) && !RowPass(row, d, types).ok
    ensures !RowPass(RowPass(row, d, types).value, d, types).ok
  {
    RefreshableIs(row, d.value, types);
    RefreshRepeats(row, d.value, types);
    RaisesAgain(row.fields, d.value.fields);
    RefreshRepeats(RowPass(row, d, types).value, d.value, types);
  }

  /** A refreshed row whose fields do not fit raises in its second refresh at the latest. */
  lemma UnfitRaises(row: ChangeType, d: ChangeType, types: seq<int>)
    requires ValidRow(row) && FieldsValid(row, Some(d)) && Refreshable(row, d, types)
    requires !FieldsFit(row.fields, d.fields)
    ensures !RowPass(RowPass(row, Some(d), types).value, Some(d), types).ok
  {
    RefreshRepeats(row, d, types);
    if RowPass(row, Some(d), types).ok {
      TwoSteps(row.fields, d.fields);
      RefreshRepeats(RowPass(row, Some(d), types).value, d, types);
    } else {
      RowRaisesAgain(row, Some(d), types);
    }
  }

  /** A row that the first of two passes does not refresh, and the second does. */
  lemma WrittenIsRefreshable(row: ChangeType, d: Option<ChangeType>, types: seq<int>)
    requires ValidRow(row) && RefreshedOnce(row, d, types)
    ensures var o := RowPass(row, d, types);
            o.ok && o.value.fields == row.fields && Refreshable(o.value, d.value, types)
  {
    SortEmpty(row.available);
    ReviveAndRetypeWrite(row, d, types);
    RetypedInStep(row, d, types);
  }

  /** After one pass a row that fits is ready. */
  lemma ReadyAfterOne(row: ChangeType, d: Option<ChangeType>, types: seq<int>)
    requires ValidRow(row) && FieldsValid(row, d) && RowFits(row, d, types)
    ensures RowPass(row, d, types).ok && RowReady(RowPass(row, d, types).value, d, types)
  {
    var one := RowPass(row, d, types).value;
    PassKeepsValid(row, d, types);
    if RefreshedTwice(row, d, types) {
      RefreshRepeats(row, d.value, types);
      FitMeansOk(row.fields, d.value.fields);
      TwoSteps(row.fields, d.value.fields);
      assert !RefreshedOnce(one, d, types);
    } else if RefreshedOnce(row, d, types) {
      WrittenIsRefreshable(row, d, types);
      assert !RefreshedOnce(one, d, types);
    } else {
      RowConvergesIff(row, d, types);
      RowConvergesIff(one, d, types);
    }
  }

  /** A row that does not fit has raised by its third pass. */
  lemma UnfitRaisesByThree(row: ChangeType, d: Option<ChangeType>, types: seq<int>)
    requires ValidRow(row) && FieldsValid(row, d) && !RowFits(row, d, types)
    ensures var two := RowPass(RowPass(row, d, types).value, d, types).value;
            !RowPass(two, d, types).ok
  {
    var one := RowPass(row, d, types).value;
    PassKeepsValid(row, d, types);
    if RefreshedTwice(row, d, types) {
      UnfitRaises(row, d.value, types);
      RowRaisesAgain(one, d, types);
    } else {
      WrittenIsRefreshable(row, d, types);
      UnfitRaises(one, d.value, types);
    }
  }

  lemma RowThrice(row: ChangeType, d: Option<ChangeType>, types: seq<int>)
    ensures RowAfter(row, d, types, 3)
            == RowPass(RowPass(RowPass(row, d, types).value, d, types).value, d, types)
  {
    var f, first := RowStepper(d, types), Step(row, true);
    assert Iterate(f, first, 0) == first;
    assert Iterate(f, first, 1) == RowPass(row, d, types);
    assert Iterate(f, first, 2) == f(Iterate(f, first, 1));
    assert Iterate(f, first, 3) == f(Iterate(f, first, 2));
  }

  /** FOR GOOD, one row. From the third pass on a row either is a fixpoint, which is the default if Noq manages the row,
      or its pass raises every time; which of the two can be read off the row at the start. (After two passes it
      is there already if and only if the row is ready.) */
  lemma RowSettlesOrRaises(row: ChangeType, d: Option<ChangeType>, types: seq<int>, n: nat)
    requires ValidRow(row) && FieldsValid(row, d) && 3 <= n
    ensures var o := RowAfter(row, d, types, n);
            if RowFits(row, d, types) then o.ok && o == RowAfter(row, d, types, 3) && Settles(o.value, d, types)
            else !o.ok
  {
    var f, first, o := RowStepper(d, types), Step(row, true), RowAfter(row, d, types, 3);
    var one := RowPass(row, d, types).value;
    var two := RowPass(one, d, types).value;
    RowThrice(row, d, types);
    PassKeepsValid(row, d, types);
    PassKeepsValid(one, d, types);
    PassKeepsValid(two, d, types);
    if RowFits(row, d, types) {
      ReadyAfterOne(row, d, types);
      RowConvergesIff(one, d, types);
      assert Settles(two, d, types);
      IterateKeeps(f, (x: Step<ChangeType>) => x == o, first, 3, n);
    } else {
      UnfitRaisesByThree(row, d, types);
      RowRaisesAgain(two, d, types);
      var raising := (x: Step<ChangeType>) => !x.ok && ValidRow(x.value) && !RowPass(x.value, d, types).ok;
      forall x | raising(x) ensures raising(f(x)) {
        PassKeepsValid(x.value, d, types);
        RowRaisesAgain(x.value, d, types);
      }
      IterateKeeps(f, raising, first, 3, n);
    }
  }

  // ---- what survives and what does not ----

  /** EXACT CONDITION. A soft-deleted change type comes back in a pass if and only if no available type
      was stored for it, Noq wrote it last, and some supported type is available now. */
  lemma ComesBackIff(row: ChangeType, d: Option<ChangeType>, types: seq<int>)
    requires row.deleted
    ensures !RowPass(row, d, types).value.deleted <==>
              row.available == [] && row.updatedBy == NOQ && NewAvailable(row, d, types) != []
  {
  }

  /** Deleted, and no pass can bring it back. */
  predicate Buried(row: ChangeType) {
    row.deleted && (row.available != [] || row.updatedBy != NOQ)
  }

  lemma BuriedStays(row: ChangeType, d: Option<ChangeType>, types: seq<int>)
    requires Buried(row)
    ensures RowPass(row, d, types) == Step(row, true)
  {
  }

  /** A default inserted while the tenant has none of its types is buried from the start: the defaults
      carry no `updated_by`. */
  lemma InsertedUnavailableIsBuried(d: ChangeType, types: seq<int>)
    requires d.updatedBy == None && Filter(d.supported, types) == []
    ensures Buried(Prepared(d, types))
  {
  }

  /** The settings of successive passes, as one row sees them. */
  datatype Setting = Setting(d: Option<ChangeType>, types: seq<int>)

  function RowRun(row: ChangeType, settings: seq<Setting>): ChangeType
    decreases |settings|
  {
    if settings == [] then row
    else RowRun(RowPass(row, settings[0].d, settings[0].types).value, settings[1..])
  }

  predicate Covers(row: ChangeType, s: Setting) {
    NewAvailable(row, s.d, s.types) != []
  }

  /** Some pass of the run leaves the row live. */
  predicate LiveAgain(row: ChangeType, settings: seq<Setting>) {
    exists k :: 0 <= k <= |settings| && !RowRun(row, settings[..k]).deleted
  }

  lemma LiveAgainStep(row: ChangeType, settings: seq<Setting>)
    requires row.deleted && settings != []
    ensures LiveAgain(row, settings) <==>
              LiveAgain(RowPass(row, settings[0].d, settings[0].types).value, settings[1..])
  {
    var next := RowPass(row, settings[0].d, settings[0].types).value;
    forall k | 0 < k <= |settings|
      ensures RowRun(row, settings[..k]) == RowRun(next, settings[1..][..k - 1])
    {
      assert settings[..k][0] == settings[0] && settings[..k][1..] == settings[1..][..k - 1];
    }
    if LiveAgain(row, settings) {
      var k :| 0 <= k <= |settings| && !RowRun(row, settings[..k]).deleted;
      assert k > 0 && !RowRun(next, settings[1..][..k - 1]).deleted;
    }
    if LiveAgain(next, settings[1..]) {
      var k :| 0 <= k <= |settings[1..]| && !RowRun(next, settings[1..][..k]).deleted;
      assert RowRun(row, settings[..k + 1]) == RowRun(next, settings[1..][..k + 1 - 1]);
    }
  }

  /** EXACT CONDITION, any number of passes. A soft-deleted change type becomes live in some pass of a run, whatever
      the defaults and the tenant's types do in it, if and only if no available type was stored for it,
      Noq wrote it last, and one of the passes finds a supported type available. */
  lemma {:induction false} ComesBackInRunIff(row: ChangeType, settings: seq<Setting>)
    requires row.deleted
    ensures LiveAgain(row, settings) <==>
              row.available == [] && row.updatedBy == NOQ && exists s :: s in settings && Covers(row, s)
    decreases |settings|
  {
    if settings == [] {
      assert forall k :: 0 <= k <= |settings| ==> settings[..k] == [];
    } else {
      var s := settings[0];
      var next := RowPass(row, s.d, s.types).value;
      LiveAgainStep(row, settings);
      ComesBackIff(row, s.d, s.types);
      assert forall x :: x in settings <==> x == s || x in settings[1..];
      if next.deleted {
        ComesBackInRunIff(next, settings[1..]);
        if Buried(row) { BuriedStays(row, s.d, s.types); } else { RetiredWaits(row, s); }
      } else {
        assert s in settings && Covers(row, s);
        assert settings[1..][..0] == [];
        assert LiveAgain(next, settings[1..]);
      }
    }
  }

  lemma RetiredWaits(row: ChangeType, s: Setting)
    requires row.deleted && row.available == [] && !Covers(row, s)
    ensures RowPass(row, s.d, s.types).value == row
  {
  }

  lemma {:induction false} RetiredWaitsLong(row: ChangeType, settings: seq<Setting>)
    requires row.deleted && row.available == [] && forall s :: s in settings ==> !Covers(row, s)
    ensures RowRun(row, settings) == row
    decreases |settings|
  {
    if settings != [] {
      RetiredWaits(row, settings[0]);
      RetiredWaitsLong(row, settings[1..]);
    }
  }

  /** ROUND TRIP. A live change type whose types all go away is soft-deleted; however many passes follow
      without support, the first pass in the original setting makes it live again with the same
      available types, whoever managed it. */
  lemma SupportRoundTrip(row: ChangeType, d: Option<ChangeType>, lost: seq<Setting>, types: seq<int>)
    requires !row.deleted && row.available != [] && InStep(row, d, types) && lost != []
    requires forall s :: s in lost ==> s.d == d && !Covers(row, s)
    ensures RowRun(row, lost).deleted && RowRun(row, lost).available == []
    ensures var back := RowPass(RowRun(row, lost), d, types).value;
            && !back.deleted && back.available == Sort(row.available) && SameContent(back, row)
            && Written(back, d, types) && back.createdBy == row.createdBy
  {
    var retired := RowPass(row, lost[0].d, lost[0].types).value;
    RetypedInStep(row, d, lost[0].types);
    assert Classify(row, d, lost[0].types) == Retire;
    assert retired.deleted && retired.available == [];
    assert NewSupported(retired, d) == NewSupported(row, d);
    forall s | s in lost[1..] ensures !Covers(retired, s) {
      assert s in lost && NewSupported(retired, s.d) == NewSupported(row, s.d);
    }
    RetiredWaitsLong(retired, lost[1..]);
    SortEmpty(row.available);
    assert NewAvailable(retired, d, types) == NewAvailable(row, d, types);
  }

  /** The revive has signed the row as Noq's: a shipped change type that the tenant had edited comes back with the
      edit, and the next pass overwrites it. */
  lemma EditLostOnReturn(row: ChangeType, d: ChangeType, lost: seq<Setting>, types: seq<int>)
    requires !row.deleted && row.available != [] && row.createdBy == NOQ && InStep(row, Some(d), types) && lost != []
    requires forall s :: s in lost ==> s.d == Some(d) && !Covers(row, s)
    ensures var back := RowPass(RowRun(row, lost), Some(d), types).value;
            var next := RowPass(back, Some(d), types).value;
            && SameContent(back, row)
            && next.attrs == d.attrs && next.template == d.template
            && next.fields == TablePass(row.fields, d.fields).rows
  {
    SupportRoundTrip(row, Some(d), lost, types);
    var back := RowPass(RowRun(row, lost), Some(d), types).value;
    RetypedInStep(back, Some(d), types);
    RetypedInStep(row, Some(d), types);
    SortIdempotent(d.supported);
    assert InStep(back, Some(d), types);
    RefreshableIs(back, d, types);
  }

  /** A change type created by the tenant keeps its content in every pass. */
  lemma TenantCreatedKeepsContent(row: ChangeType, d: Option<ChangeType>, types: seq<int>)
    requires row.createdBy != NOQ
    ensures SameContent(RowPass(row, d, types).value, row) && RowPass(row, d, types).ok
  {
    var v := Classify(row, d, types);
    assert v != Refresh && v != Withdraw;
  }

  predicate SameAsDefault(row: ChangeType, d: ChangeType) {
    row.attrs == d.attrs && row.template == d.template && SameFields(row.fields, d.fields)
  }

  /** The pass that corrects the lists is followed by one that writes the default over the edit. */
  lemma EditLost(row: ChangeType, d: ChangeType, types: seq<int>)
    requires !row.deleted && row.available != [] && row.createdBy == NOQ
    requires !InStep(row, Some(d), types) && NewAvailable(row, Some(d), types) != []
    ensures var two := RowTwice(row, Some(d), types);
            two.attrs == d.attrs && two.template == d.template && two.fields == TablePass(row.fields, d.fields).rows
  {
    assert Classify(row, Some(d), types) == Retype;
    ReviveAndRetypeWrite(row, Some(d), types);
    var one := RowPass(row, Some(d), types).value;
    RetypedInStep(row, Some(d), types);
    RefreshableIs(one, d, types);
  }

  lemma EditKept(row: ChangeType, d: ChangeType, types: seq<int>)
    requires !row.deleted && row.available != [] && !NoqManaged(row.updatedBy)
    requires InStep(row, Some(d), types) || NewAvailable(row, Some(d), types) == []
    ensures SameContent(RowTwice(row, Some(d), types), row)
  {
    var one := RowPass(row, Some(d), types).value;
    if NewAvailable(row, Some(d), types) == [] {
      RetypedInStep(row, Some(d), types);
      assert Classify(row, Some(d), types) == Retire;
      RetiredWaits(one, Setting(Some(d), types));
    } else {
      assert Classify(row, Some(d), types) == TenantOwned;
    }
  }

  /** Nothing of the default differs from the row as far as a refresh can write it. */
  predicate NothingToOverwrite(row: ChangeType, d: ChangeType) {
    row.attrs == d.attrs && row.template == d.template && TablePass(row.fields, d.fields).rows == row.fields
  }

  /** EXACT CONDITION. An edit that a tenant made to a shipped change type survives repeated passes if
      and only if the stored type lists were in step already, or every type has gone, or there is nothing to
      overwrite. Otherwise the pass that corrects the lists also signs the row as Noq's, and the next one
      overwrites the edit. */
  lemma TenantEditSurvivesIff(row: ChangeType, d: ChangeType, types: seq<int>)
    requires !row.deleted && row.available != [] && row.createdBy == NOQ && !NoqManaged(row.updatedBy)
    ensures SameContent(RowTwice(row, Some(d), types), row) <==>
              InStep(row, Some(d), types) || NewAvailable(row, Some(d), types) == [] || NothingToOverwrite(row, d)
  {
    if InStep(row, Some(d), types) || NewAvailable(row, Some(d), types) == [] {
      EditKept(row, d, types);
    } else {
      EditLost(row, d, types);
    }
  }

  /** In a table whose fields can be brought to the default, that leaves only the rows that already are the default. */
  lemma NothingToOverwriteIff(row: ChangeType, d: ChangeType)
    requires FieldsValid(row, Some(d)) && TablePass(row.fields, d.fields).ok
    ensures NothingToOverwrite(row, d) <==> SameAsDefault(row, d)
  {
    FieldFixpointIff(row.fields, d.fields);
  }

  /** One shipped template type more is enough to lose an edit. The row stores the type lists that earlier
      defaults gave it, and the tenant has only the type that was there all along. */
  lemma EditLostToNewType(edited: ChangeType, d: ChangeType)
    requires edited.supported == [1] && edited.available == [1] && d.supported == [1, 2]
    requires !edited.deleted && edited.createdBy == NOQ && edited.updatedBy == Some("tenant user")
    requires edited.template == "edited" && d.template == "shipped"
    ensures !NoqManaged(edited.updatedBy) && RowTwice(edited, Some(d), [1]).template == "shipped"
  {
    SortedIff([1, 2]);
    SortedIff([1]);
    assert Filter([1, 2], [1]) == [1] by {
      assert [1, 2][1..] == [2] && [2][1..] == [];
    }
    EditLost(edited, d, [1]);
  }

  /** The successive states of a row over passes in one setting. */
  predicate IsRun(rows: seq<ChangeType>, d: Option<ChangeType>, types: seq<int>) {
    forall k :: 0 < k < |rows| ==> rows[k] == RowPass(rows[k - 1], d, types).value
  }

  /** A live row that Noq manages, is available, and is no longer among the defaults. */
  predicate Dropped(row: ChangeType, types: seq<int>) {
    && !row.deleted && row.available != [] && NewAvailable(row, None, types) != []
    && row.createdBy == NOQ && NoqManaged(row.updatedBy)
  }

  predicate Stuck(row: ChangeType, types: seq<int>) {
    Dropped(row, types) && !Sorted(row.supported)
  }

  lemma UnsortedIsRetyped(row: ChangeType, types: seq<int>)
    requires Stuck(row, types)
    ensures Stuck(RowPass(row, None, types).value, types)
  {
    SortedIff(row.supported);
    assert Classify(row, None, types) == Retype;
  }

  lemma {:induction false} UnsortedNeverWithdrawn(rows: seq<ChangeType>, types: seq<int>, k: nat)
    requires k < |rows| && IsRun(rows, None, types)
    requires Stuck(rows[0], types)
    ensures Stuck(rows[k], types)
  {
    if k > 0 {
      var prev := rows[k - 1];
      UnsortedNeverWithdrawn(rows, types, k - 1);
      UnsortedIsRetyped(prev, types);
      assert rows[k] == RowPass(prev, None, types).value;
    }
  }

  lemma InStepIsWithdrawn(row: ChangeType, types: seq<int>)
    requires Dropped(row, types) && InStep(row, None, types)
    ensures Buried(RowPass(row, None, types).value)
  {
    SortEmpty(row.available);
    assert Classify(row, None, types) == Withdraw;
  }

  lemma SortedIsWithdrawn(row: ChangeType, types: seq<int>)
    requires Dropped(row, types) && Sorted(row.supported)
    ensures Buried(RowTwice(row, None, types))
  {
    var one := RowPass(row, None, types).value;
    if InStep(row, None, types) {
      InStepIsWithdrawn(row, types);
      BuriedStays(one, None, types);
    } else {
      assert Classify(row, None, types) == Retype;
      SortedIff(row.supported);
      RetypedInStep(row, None, types);
      InStepIsWithdrawn(one, types);
    }
  }

  lemma {:induction false} BuriedFrom(rows: seq<ChangeType>, d: Option<ChangeType>, types: seq<int>, i: nat, k: nat)
    requires i <= k < |rows| && IsRun(rows, d, types) && Buried(rows[i])
    ensures Buried(rows[k])
  {
    if i < k {
      BuriedFrom(rows, d, types, i, k - 1);
      BuriedStays(rows[k - 1], d, types);
    }
  }

  /** EXACT CONDITION. A change type that Noq manages and that is dropped from the defaults is deleted,
      in two passes at most, if and only if its stored list of supported types is sorted. The list is
      inserted in the order the defaults name it, so the condition can fail, and then no number of
      passes deletes the row. */
  lemma WithdrawnIff(rows: seq<ChangeType>, types: seq<int>, k: nat)
    requires 2 <= k < |rows| && IsRun(rows, None, types) && Dropped(rows[0], types)
    ensures rows[k].deleted <==> Sorted(rows[0].supported)
  {
    if Sorted(rows[0].supported) {
      SortedIsWithdrawn(rows[0], types);
      assert rows[1] == RowPass(rows[0], None, types).value;
      BuriedFrom(rows, None, types, 2, k);
    } else {
      UnsortedNeverWithdrawn(rows, types, k);
    }
  }

  /** The managed-policy change type ships with role, user and group as its types: in the order of their names
      group comes first, here 0, then role and user. */
  const ROLE_USER_GROUP := [1, 2, 0]

  /** Such a row as it was inserted is never withdrawn, however often the pass runs after Noq drops it. */
  lemma UnsortedDefaultStays(d: ChangeType, rows: seq<ChangeType>, types: seq<int>, k: nat)
    requires d.supported == ROLE_USER_GROUP && !d.deleted && d.createdBy == NOQ && d.updatedBy == None
    requires Filter(ROLE_USER_GROUP, types) != []
    requires k < |rows| && IsRun(rows, None, types) && rows[0] == Prepared(d, types)
    ensures !rows[k].deleted
  {
    SortEmpty(Filter(ROLE_USER_GROUP, types));
    SortFilter(ROLE_USER_GROUP, types);
    assert ROLE_USER_GROUP[0] > ROLE_USER_GROUP[2];
    assert Stuck(rows[0], types);
    UnsortedNeverWithdrawn(rows, types, k);
  }
}
