/** The model adapter: it reads a tenant's configuration, edits it at a dotted key, and writes it back. Each
    operation is proved to do what `TreeEditor` and `KeyedList` say. */
module ModelAdapter {
  import opened Common
  import opened ConfigTree
  import opened TreeEditor
  import opened KeyedList

  /** A list of objects, if that is what is stored. */
  function ToItems(t: Tree): Option<seq<Item>> {
    if t.List? && forall i :: 0 <= i < |t.items| ==> t.items[i].Dict? then
      Some(seq(|t.items|, i requires 0 <= i < |t.items| => t.items[i].m))
    else None
  }

  function FromItems(items: seq<Item>): Tree {
    List(seq(|items|, i requires 0 <= i < |items| => Dict(items[i])))
  }

  /** Storing and reading back a list of objects loses nothing. */
  lemma ItemsRoundTrip(items: seq<Item>)
    ensures ToItems(FromItems(items)) == Some(items)
  {
    var back := ToItems(FromItems(items));
    assert back.Some? && back.value == items;
  }

  function StoreItems(values: seq<Item>, on: seq<string>): Option<Tree> -> Result<Tree> {
    (child: Option<Tree>) =>
      var items := if child.None? then Some([]) else ToItems(child.value);
      if items.None? then Raises(TypeError)
      else
        var r := StoreAll(items.value, values, on);
        if r.Ok? then Ok(FromItems(r.value)) else Raises(r.error)
  }

  function RemoveTree(items: seq<Tree>, x: Tree): seq<Tree> {
    if items == [] then []
    else if items[0] == x then items[1..]
    else [items[0]] + RemoveTree(items[1..], x)
  }

  lemma {:induction false} RemoveTreeShrinks(items: seq<Tree>, x: Tree)
    requires x in items
    ensures |RemoveTree(items, x)| == |items| - 1
  {
    if items[0] != x { RemoveTreeShrinks(items[1..], x); }
  }

  /** `__objects_similar` asks an item that is no object for its keys only if there are any to compare. */
  function SimilarTree(v: Item, t: Tree, on: seq<string>): Result<bool> {
    if on == [] then Ok(true)
    else if t.Dict? then Ok(Similar(v, t.m, on))
    else Raises(TypeError)
  }

  /** The loop of `__nested_delete_from_list` over any list: an item that is no object raises if it is visited. */
  function SweepTrees(items: seq<Tree>, v: Item, on: seq<string>, i: nat): Result<seq<Tree>>
    decreases if i < |items| then |items| - i else 0
  {
    if i >= |items| then Ok(items)
    else
      var similar := SimilarTree(v, items[i], on);
      if similar.Raises? then Raises(similar.error)
      else if similar.value then
        RemoveTreeShrinks(items, items[i]);
        SweepTrees(RemoveTree(items, items[i]), v, on, i + 1)
      else SweepTrees(items, v, on, i + 1)
  }

  function AsTrees(items: seq<Item>): (r: seq<Tree>)
    ensures |r| == |items| && forall i :: 0 <= i < |items| ==> r[i] == Dict(items[i])
  {
    seq(|items|, i requires 0 <= i < |items| => Dict(items[i]))
  }

  lemma AsTreesCons(x: Item, items: seq<Item>)
    ensures AsTrees([x] + items) == [Dict(x)] + AsTrees(items)
  {
    assert |AsTrees([x] + items)| == |[Dict(x)] + AsTrees(items)|;
  }

  lemma {:induction false} RemoveTreeIsRemove(items: seq<Item>, x: Item)
    ensures RemoveTree(AsTrees(items), Dict(x)) == AsTrees(RemoveFirst(items, x))
  {
    if items != [] {
      var rest := AsTrees(items[1..]);
      assert items == [items[0]] + items[1..];
      AsTreesCons(items[0], items[1..]);
      assert AsTrees(items)[0] == Dict(items[0]) && AsTrees(items)[1..] == rest;
      if items[0] != x {
        RemoveTreeIsRemove(items[1..], x);
        AsTreesCons(items[0], RemoveFirst(items[1..], x));
      }
    }
  }

  /** For a list of objects it is the sweep of `KeyedList`. */
  lemma {:induction false} SweepTreesIsSweep(items: seq<Item>, v: Item, on: seq<string>, i: nat)
    ensures SweepTrees(AsTrees(items), v, on, i) == Ok(AsTrees(Sweep(items, v, on, i)))
    decreases if i < |items| then |items| - i else 0
  {
    if i < |items| {
      if Similar(v, items[i], on) {
        RemoveFirstShrinks(items, items[i]);
        RemoveTreeIsRemove(items, items[i]);
        SweepTreesIsSweep(RemoveFirst(items, items[i]), v, on, i + 1);
      } else {
        SweepTreesIsSweep(items, v, on, i + 1);
      }
    }
  }

  lemma {:induction false} RemoveTreeAt(items: seq<Tree>, k: nat)
    requires k < |items| && forall j :: 0 <= j < k ==> items[j] != items[k]
    ensures RemoveTree(items, items[k]) == items[..k] + items[k + 1..]
  {
    if k > 0 {
      assert items[1..][k - 1] == items[k];
      RemoveTreeAt(items[1..], k - 1);
      assert items[1..][..k - 1] == items[1..k] && items[1..][k..] == items[k + 1..];
    }
  }

  /** An item that is an object without the value's identity, and stays. */
  predicate StaysInSweep(v: Item, t: Tree, on: seq<string>) {
    t.Dict? && !Similar(v, t.m, on)
  }

  lemma {:induction false} SweepPasses(items: seq<Tree>, v: Item, on: seq<string>, i: nat, k: nat)
    requires on != [] && i <= k < |items| && forall j :: i <= j < k ==> StaysInSweep(v, items[j], on)
    ensures SweepTrees(items, v, on, i) == SweepTrees(items, v, on, k)
    decreases k - i
  {
    if i < k {
      assert StaysInSweep(v, items[i], on);
      SweepPasses(items, v, on, i + 1, k);
    }
  }

  /** The first item that is not an object of another identity: one that is no object raises, and a match is removed
      without a look at the item after it. */
  lemma SweepMeets(items: seq<Tree>, v: Item, on: seq<string>, k: nat)
    requires on != [] && k < |items| && !StaysInSweep(v, items[k], on)
    requires forall j :: 0 <= j < k ==> StaysInSweep(v, items[j], on)
    ensures SweepTrees(items, v, on, 0)
            == if items[k].Dict? then SweepTrees(items[..k] + items[k + 1..], v, on, k + 1) else Raises(TypeError)
  {
    SweepPasses(items, v, on, 0, k);
    if items[k].Dict? {
      assert forall j :: 0 <= j < k ==> StaysInSweep(v, items[j], on) && items[j] != items[k];
      RemoveTreeAt(items, k);
    }
  }

  /** An empty dictionary or text is a loop without a turn; what cannot be iterated raises, and so does the first
      key or letter of what is not empty. */
  function SweepItems(v: Item, on: seq<string>): Option<Tree> -> Result<Tree> {
    (child: Option<Tree>) =>
      if child.None? then Ok(List([]))
      else if child.value.List? then
        var r := SweepTrees(child.value.items, v, on, 0);
        if r.Ok? then Ok(List(r.value)) else Raises(r.error)
      else if child.value == EMPTY || child.value == Text("") then Ok(child.value)
      else Raises(TypeError)
  }

  /** What `delete_list` leaves at its path, which it edits through the looked-up list. */
  function PopItems(id: Item, on: seq<string>, n: nat): Option<Tree> -> Result<Tree> {
    (child: Option<Tree>) =>
      var items := if child.None? then None else ToItems(child.value);
      if items.None? then Raises(TypeError) else Ok(FromItems(PopTimes(items.value, id, on, n)))
  }

  // ---- editing the looked-up value in place ----

  lemma {:induction false} FoundIsThere(t: Tree, p: seq<string>)
    requires p != [] && Access(t, p).Ok? && Truthy(Access(t, p).value)
    ensures At(t, p) == Some(Access(t, p).value)
    decreases |p|
  {
    if |p| > 1 {
      FoundIsThere(if p[0] in t.m then t.m[p[0]] else EMPTY, p[1..]);
      assert At(EMPTY, p[1..]) == None;
    } else {
      assert p[1..] == [];
    }
  }

  /** The tree with another value at a path that is there. */
  function Replace(t: Tree, p: seq<string>, v: Tree): Tree
    requires At(t, p).Some?
    decreases |p|
  {
    if p == [] then v else Dict(t.m[p[0] := Replace(t.m[p[0]], p[1..], v)])
  }

  lemma {:induction false} ReplaceIsEdit(t: Tree, p: seq<string>, f: Option<Tree> -> Result<Tree>, v: Tree)
    requires p != [] && At(t, p).Some? && f(At(t, p)) == Ok(v)
    ensures Edit(t, p, f) == Ok(Replace(t, p, v))
    decreases |p|
  {
    if |p| > 1 {
      ReplaceIsEdit(t.m[p[0]], p[1..], f, v);
    } else {
      assert p[1..] == [];
    }
  }

  lemma {:induction false} EditRaises(t: Tree, p: seq<string>, f: Option<Tree> -> Result<Tree>)
    requires p != [] && At(t, p).Some? && f(At(t, p)).Raises?
    ensures Edit(t, p, f) == f(At(t, p))
    decreases |p|
  {
    if |p| > 1 {
      EditRaises(t.m[p[0]], p[1..], f);
    } else {
      assert p[1..] == [];
    }
  }

  /** The value that holds the last key of the path. */
  function ParentOf(t: Tree, path: seq<string>): Result<Tree>
    requires path != []
    decreases |path|
  {
    if |path| == 1 then Ok(t)
    else if !t.Dict? then Raises(TypeError)
    else ParentOf(if path[0] in t.m then t.m[path[0]] else EMPTY, path[1..])
  }

  lemma {:induction false} ParentOfEmpty(path: seq<string>)
    requires path != []
    ensures ParentOf(EMPTY, path) == Ok(EMPTY)
    decreases |path|
  {
    if |path| > 1 { ParentOfEmpty(path[1..]); }
  }

  lemma {:induction false} ParentIsThere(t: Tree, p: seq<string>)
    requires p != [] && ParentOf(t, p).Ok? && Truthy(ParentOf(t, p).value)
    ensures At(t, p[..|p| - 1]) == Some(ParentOf(t, p).value)
    decreases |p|
  {
    if |p| == 1 {
      assert p[..0] == [];
    } else if p[0] in t.m {
      ParentIsThere(t.m[p[0]], p[1..]);
      assert p[..|p| - 1][0] == p[0] && p[..|p| - 1][1..] == p[1..][..|p[1..]| - 1];
    } else {
      ParentOfEmpty(p[1..]);
    }
  }

  /** What `delete_key` does with the parent it found. */
  function DeleteInParent(t: Tree, p: seq<string>): Result<(Tree, bool)>
    requires p != []
  {
    var parent, k := ParentOf(t, p), p[|p| - 1];
    if parent.Raises? then Raises(parent.error)
    else if !Truthy(parent.value) then Ok((t, false))
    else if !parent.value.Dict? then Raises(TypeError)
    else if k !in parent.value.m then Raises(KeyError)
    else
      ParentIsThere(t, p);
      Ok((Replace(t, p[..|p| - 1], Dict(parent.value.m - {k})), true))
  }

  /** Deleting a key is deleting it in its parent, wherever that is. */
  lemma {:induction false} DeleteThroughParent(t: Tree, p: seq<string>)
    requires p != []
    ensures DeleteKey(t, p) == DeleteInParent(t, p)
    decreases |p|
  {
    if |p| == 1 {
      assert p[..0] == [];
    } else if t.Dict? {
      assert p[1..][|p[1..]| - 1] == p[|p| - 1];
      if p[0] in t.m {
        var child := t.m[p[0]];
        DeleteThroughParent(child, p[1..]);
        assert t.m[p[0] := child] == t.m;
        assert p[..|p| - 1][0] == p[0] && p[..|p| - 1][1..] == p[1..][..|p[1..]| - 1];
      } else {
        ParentOfEmpty(p[1..]);
      }
    }
  }

  /** EXACT CONDITION. Which of its outcomes a delete has when nothing is stored at the key: it raises if the walk to
      the parent meets something that is no dictionary, reports that nothing was done if the parent is missing or counts
      as nothing, and raises otherwise. */
  lemma DeleteKeyMisses(t: Tree, p: seq<string>)
    requires p != [] && At(t, p) == None
    ensures var r, parent := DeleteKey(t, p), At(t, p[..|p| - 1]);
            if exists i :: 0 <= i < |p| - 1 && NoDictAt(t, p[..i]) then r == Raises(TypeError)
            else if parent.None? || !Truthy(parent.value) then r == Ok((t, false))
            else r == Raises(if parent.value.Dict? then KeyError else TypeError)
  {
    DeleteThroughParent(t, p);
    ParentOfIs(t, p);
    assert p[..|p| - 1] + [p[|p| - 1]] == p;
    AtAppend(t, p[..|p| - 1], p[|p| - 1]);
  }

  lemma {:induction false} AtAppend(t: Tree, p: seq<string>, k: string)
    ensures At(t, p + [k]) == if At(t, p).Some? && At(t, p).value.Dict? && k in At(t, p).value.m
                              then Some(At(t, p).value.m[k]) else None
    decreases |p|
  {
    if p == [] {
      assert (p + [k])[1..] == [];
    } else {
      assert (p + [k])[0] == p[0] && (p + [k])[1..] == p[1..] + [k];
      if t.Dict? && p[0] in t.m { AtAppend(t.m[p[0]], p[1..], k); }
    }
  }

  /** The walk to the parent finds what is stored there, or an empty dictionary. */
  lemma {:induction false} ParentOfIs(t: Tree, p: seq<string>)
    requires p != []
    ensures var parent := At(t, p[..|p| - 1]);
            ParentOf(t, p) ==
              if exists i :: 0 <= i < |p| - 1 && NoDictAt(t, p[..i]) then Raises(TypeError)
              else Ok(if parent.Some? then parent.value else EMPTY)
    decreases |p|
  {
    assert p[..0] == [];
    if |p| > 1 {
      if t.Dict? {
        var child := if p[0] in t.m then t.m[p[0]] else EMPTY;
        ParentOfIs(child, p[1..]);
        AtBelow(t, p, |p| - 2);
        assert p[..|p| - 2 + 1] == p[..|p| - 1];
        assert p[1..][..|p[1..]| - 1] == p[1..][..|p| - 2];
        forall i | 0 <= i < |p| - 2 ensures NoDictAt(t, p[..i + 1]) <==> NoDictAt(child, p[1..][..i]) {
          AtBelow(t, p, i);
          if p[0] !in t.m { EmptyHasNone(p[1..][..i]); }
        }
        if i :| 0 <= i < |p[1..]| - 1 && NoDictAt(child, p[1..][..i]) { assert NoDictAt(t, p[..i + 1]); }
        if i :| 0 <= i < |p| - 1 && NoDictAt(t, p[..i]) {
          assert i > 0 && NoDictAt(child, p[1..][..i - 1]);
        }
        if p[0] !in t.m { ParentOfEmpty(p[1..]); }
      } else {
        assert NoDictAt(t, p[..0]);
      }
    }
  }

  /** Only a list of dictionaries reads as objects, and as exactly those. */
  lemma ToItemsIff(t: Tree)
    ensures ToItems(t).Some? <==> t.List? && forall x :: x in t.items ==> x.Dict?
    ensures ToItems(t).Some? ==> FromItems(ToItems(t).value) == t
  {
    if t.List? && forall x :: x in t.items ==> x.Dict? {
      forall i | 0 <= i < |t.items| ensures t.items[i].Dict? { assert t.items[i] in t.items; }
    }
    if ToItems(t).Some? { assert FromItems(ToItems(t).value).items == t.items; }
  }

  lemma NewListItems(values: seq<Item>, on: seq<string>)
    requires AllHaveKeys(values, on)
    ensures StoreItems(values, on)(None).Ok?
    ensures var now := StoreItems(values, on)(None).value;
            && ToItems(now).Some?
            && AsMap(ToItems(now).value, on) == Overwrite(map[], values, on)
            && Ids(ToItems(now).value, on) == NewIds([], values, on)
  {
    StoreAllRefines([], values, on);
    ItemsRoundTrip(StoreAll([], values, on).value);
    assert Ids([], on) == [];
  }

  /** NEW LIST. Storing objects that have their keys at an absent path succeeds if and only if nothing stands in the
      way, and reading the list back gives the values as a keyed map, each identity once, in order of arrival. */
  lemma NewListIsStored(t: Tree, p: seq<string>, values: seq<Item>, on: seq<string>)
    requires p != [] && At(t, p) == None && AllHaveKeys(values, on)
    ensures var r := Edit(t, p, StoreItems(values, on));
            && (r.Ok? <==> forall i :: 0 <= i < |p| ==> !StandsInTheWay(t, p[..i]))
            && (r.Ok? ==>
                  var now := Access(r.value, p);
                  && now.Ok? && ToItems(now.value).Some?
                  && AsMap(ToItems(now.value).value, on) == Overwrite(map[], values, on)
                  && Ids(ToItems(now.value).value, on) == NewIds([], values, on))
  {
    NewListItems(values, on);
    EditRaisesIff(t, p, StoreItems(values, on));
    if Edit(t, p, StoreItems(values, on)).Ok? { EditOnPath(t, p, StoreItems(values, on)); }
  }

  /** The first object of a new list. */
  lemma FirstObjectIsStored(t: Tree, p: seq<string>, v: Item, on: seq<string>)
    requires p != [] && At(t, p) == None && forall i :: 0 <= i < |p| ==> !StandsInTheWay(t, p[..i])
    ensures var r := Edit(t, p, StoreItems([v], on));
            r.Ok? && Access(r.value, p) == Ok(List([Dict(v)]))
  {
    assert [] + [v] == [v] && [v][1..] == [];
    assert StoreOne([], v, on) == Ok([v]);
    assert StoreAll([v], [v][1..], on) == Ok([v]);
    assert StoreAll([], [v], on) == Ok([v]);
    assert StoreItems([v], on)(None) == Ok(FromItems([v]));
    assert FromItems([v]) == List([Dict(v)]);
    EditRaisesIff(t, p, StoreItems([v], on));
    EditOnPath(t, p, StoreItems([v], on));
  }

  /** EXACT CONDITION. Storing objects at a path that holds something raises if and only if something stands in the way,
      or what is there is no list of objects, or the identities clash. */
  lemma ListStoreRaisesIff(t: Tree, p: seq<string>, values: seq<Item>, on: seq<string>)
    requires p != [] && At(t, p).Some?
    ensures Edit(t, p, StoreItems(values, on)).Raises? <==>
              || (exists i :: 0 <= i < |p| && StandsInTheWay(t, p[..i]))
              || !(At(t, p).value.List? && forall x :: x in At(t, p).value.items ==> x.Dict?)
              || Clashes(Ids(ToItems(At(t, p).value).value, on), Ids(values, on))
  {
    EditRaisesIff(t, p, StoreItems(values, on));
    ToItemsIff(At(t, p).value);
    if ToItems(At(t, p).value).Some? { StoreAllRaisesIff(ToItems(At(t, p).value).value, values, on); }
  }

  /** Deleting an object from what is no list of objects: an absent path gets an empty list, an empty list, dictionary
      or text stays, and anything else that is no list raises. */
  lemma SweptOtherwise(v: Item, on: seq<string>, t: Tree)
    ensures SweepItems(v, on)(None) == Ok(List([]))
    ensures t in {List([]), Dict(map[]), Text("")} ==> SweepItems(v, on)(Some(t)) == Ok(t)
    ensures !t.List? && t != Dict(map[]) && t != Text("") ==> SweepItems(v, on)(Some(t)) == Raises(TypeError)
  {
  }

  /** Popping from what is no list of objects raises. */
  lemma PoppedOtherwise(id: Item, on: seq<string>, n: nat, t: Tree)
    ensures PopItems(id, on, n)(None) == Raises(TypeError)
    ensures !t.List? || (exists x :: x in t.items && !x.Dict?) ==> PopItems(id, on, n)(Some(t)) == Raises(TypeError)
  {
    ToItemsIff(t);
  }

  /** LIST STORE. Storing objects at a path whose list is well formed succeeds, and reading the list back gives
      the old keyed map overwritten by the values. */
  lemma StoredListIsOverwritten(t: Tree, p: seq<string>, items: seq<Item>, values: seq<Item>, on: seq<string>)
    requires p != [] && At(t, p) == Some(FromItems(items)) && Edit(t, p, StoreItems(values, on)).Ok?
    requires AllHaveKeys(items, on) && AllHaveKeys(values, on) && UniqueIds(items, on)
    ensures var now := Access(Edit(t, p, StoreItems(values, on)).value, p);
            && now.Ok? && ToItems(now.value).Some?
            && AsMap(ToItems(now.value).value, on) == Overwrite(AsMap(items, on), values, on)
            && Ids(ToItems(now.value).value, on) == NewIds(Ids(items, on), values, on)
  {
    EditOnPath(t, p, StoreItems(values, on));
    ItemsRoundTrip(items);
    StoreAllRefines(items, values, on);
    ItemsRoundTrip(StoreAll(items, values, on).value);
  }

  /** LIST DELETE. Reading the list back after a delete gives exactly the objects of another identity, if the
      adapter holds at least as many models as there are matches. */
  lemma DeletedListIsClean(t: Tree, p: seq<string>, items: seq<Item>, id: Item, on: seq<string>, n: nat)
    requires p != [] && At(t, p) == Some(FromItems(items)) && Edit(t, p, PopItems(id, on, n)).Ok?
    ensures var now := Access(Edit(t, p, PopItems(id, on, n)).value, p);
            && now.Ok? && ToItems(now.value).Some?
            && (ToItems(now.value).value == Others(items, id, on) <==> Count(items, id, on) <= n)
  {
    EditOnPath(t, p, PopItems(id, on, n));
    ItemsRoundTrip(items);
    ItemsRoundTrip(PopTimes(items, id, on, n));
    DeleteListIff(items, id, on, n);
  }

  /** Deleting one object while iterating gives the same list when identities are unique. */
  lemma SweptListIsClean(t: Tree, p: seq<string>, items: seq<Item>, v: Item, on: seq<string>)
    requires p != [] && At(t, p) == Some(FromItems(items)) && Edit(t, p, SweepItems(v, on)).Ok?
    requires AllHaveKeys(items, on) && HasKeys(v, on) && UniqueIds(items, on)
    ensures var now := Access(Edit(t, p, SweepItems(v, on)).value, p);
            now.Ok? && ToItems(now.value) == Some(Others(items, FilterOn(v, on), on))
  {
    EditOnPath(t, p, SweepItems(v, on));
    SweepTreesIsSweep(items, v, on, 0);
    assert FromItems(items) == List(AsTrees(items));
    SweepWithUniqueIds(items, v, on);
    ItemsRoundTrip(Sweep(items, v, on, 0));
    assert FromItems(Sweep(items, v, on, 0)) == List(AsTrees(Sweep(items, v, on, 0)));
  }

  class Adapter {
    const path: seq<string>       // the key, split at its dots
    const compareOn: seq<string>
    var model: Option<Item>
    var modelArray: seq<Item>
    var stored: Tree              // the tenant's configuration in DynamoDB

    constructor (path: seq<string>, compareOn: seq<string>, stored: Tree)
      requires path != []
      ensures this.path == path && this.compareOn == compareOn && this.stored == stored
      ensures model == None && modelArray == []
    {
      this.path, this.compareOn, this.stored := path, compareOn, stored;
      model, modelArray := None, [];
    }

    /** The base case of `__nested_store_array`. */
    method StoreArray(start: seq<Item>, values: seq<Item>) returns (r: Result<seq<Item>>)
      ensures r == StoreAll(start, values, compareOn)
    {
      var items := start;
      var n := 0;
      assert values[0..] == values;
      while n < |values|
        invariant n <= |values| && StoreAll(items, values[n..], compareOn) == StoreAll(start, values, compareOn)
      {
        var value := values[n];
        assert values[n..][0] == value && values[n..][1..] == values[n + 1..];
        var similarItem := false;
        var k := 0;
        while k < |items|
          invariant k <= |items|
          invariant similarItem <==> exists j :: 0 <= j < k && Similar(value, items[j], compareOn)
        {
          if Similar(value, items[k], compareOn) {
            similarItem := true;
          }
          k := k + 1;
        }
        assert similarItem <==> AnySimilar(items, value, compareOn);
        if similarItem {
          var at := IndexOf(items, FilterOn(value, compareOn), compareOn);
          if at.None? {
            return Raises(ValueError);
          }
          items := items[at.value := value];
        } else {
          items := items + [value];
        }
        n := n + 1;
      }
      r := Ok(items);
    }

    /** The base case of `__nested_delete_from_list`: the list shrinks while the loop walks along it. */
    method SweepArray(start: seq<Tree>, value: Item) returns (r: Result<seq<Tree>>)
      ensures r == SweepTrees(start, value, compareOn, 0)
    {
      var items, position := start, 0;
      while position < |items|
        invariant SweepTrees(items, value, compareOn, position) == SweepTrees(start, value, compareOn, 0)
        decreases |items| - position
      {
        var item := items[position];
        if compareOn != [] && !item.Dict? { return Raises(TypeError); }
        if compareOn == [] || Similar(value, item.m, compareOn) {
          RemoveTreeShrinks(items, item);
          items := RemoveTree(items, item);
        }
        position := position + 1;
      }
      r := Ok(items);
    }

    /** The loop of `delete_list`: one turn for every model, each looking for the same identity. */
    method PopArray(start: seq<Item>, id: Item) returns (items: seq<Item>)
      ensures items == PopTimes(start, id, compareOn, |modelArray|)
    {
      items := start;
      var turn := 0;
      while turn < |modelArray|
        invariant turn <= |modelArray| && items == PopTimes(start, id, compareOn, turn)
      {
        var at := IndexOf(items, id, compareOn);
        if at.Some? {
          items := items[..at.value] + items[at.value + 1..];
        }
        turn := turn + 1;
      }
    }

    /** `__nested_store_array`. */
    method NestedStoreArray(t: Tree, p: seq<string>, values: seq<Item>) returns (r: Result<Tree>)
      requires p != []
      ensures r == Edit(t, p, StoreItems(values, compareOn))
      decreases |p|
    {
      var base := if Truthy(t) then t else EMPTY;
      if !base.Dict? { return Raises(TypeError); }
      var inner: Result<Tree>;
      if |p| == 1 {
        var child := if p[0] in base.m then Some(base.m[p[0]]) else None;
        var items := if child.None? then Some([]) else ToItems(child.value);
        if items.None? { return Raises(TypeError); }
        var stored := StoreArray(items.value, values);
        inner := if stored.Ok? then Ok(FromItems(stored.value)) else Raises(stored.error);
      } else {
        inner := NestedStoreArray(if p[0] in base.m then base.m[p[0]] else EMPTY, p[1..], values);
      }
      if inner.Raises? { return inner; }
      r := Ok(Dict(base.m[p[0] := inner.value]));
    }

    /** `__nested_delete_from_list`. */
    method NestedDeleteFromList(t: Tree, p: seq<string>, value: Item) returns (r: Result<Tree>)
      requires p != []
      ensures r == Edit(t, p, SweepItems(value, compareOn))
      decreases |p|
    {
      var base := if Truthy(t) then t else EMPTY;
      if !base.Dict? { return Raises(TypeError); }
      var inner: Result<Tree>;
      if |p| == 1 {
        var child := if p[0] in base.m then base.m[p[0]] else List([]);
        if child.List? {
          var left := SweepArray(child.items, value);
          inner := if left.Ok? then Ok(List(left.value)) else Raises(left.error);
        } else if child == EMPTY || child == Text("") {
          inner := Ok(child);
        } else {
          return Raises(TypeError);
        }
      } else {
        inner := NestedDeleteFromList(if p[0] in base.m then base.m[p[0]] else EMPTY, p[1..], value);
      }
      if inner.Raises? { return inner; }
      r := Ok(Dict(base.m[p[0] := inner.value]));
    }

    /** `__nested_store`. */
    method NestedStore(t: Tree, p: seq<string>, value: Item) returns (r: Result<Tree>)
      requires p != []
      ensures r == StoreItem(t, p, value)
      decreases |p|
    {
      var configItem := if Truthy(t) then t else EMPTY;
      if !configItem.Dict? { return Raises(TypeError); }
      var m := configItem.m;
      if |p| == 1 {
        if p[0] in m && m[p[0]].Dict? {
          m := m[p[0] := Dict(m[p[0]].m + value)];
        } else {
          m := m[p[0] := Dict(value)];
        }
        return Ok(Dict(m));
      }
      if p[0] !in m { m := m[p[0] := EMPTY]; }
      var inner := NestedStore(m[p[0]], p[1..], value);
      if inner.Raises? { return inner; }
      m := m[p[0] := inner.value];
      assert m == configItem.m[p[0] := inner.value];
      r := Ok(Dict(m));
    }

    /** `__access_subkey_parent`: the value that holds the last key. */
    method AccessSubkeyParent(t: Tree, p: seq<string>) returns (parent: Result<Tree>)
      requires p != []
      ensures parent == ParentOf(t, p)
    {
      var configItem, i := t, 0;
      assert p[0..] == p;
      while i < |p| - 1
        invariant i <= |p| - 1 && ParentOf(configItem, p[i..]) == ParentOf(t, p)
      {
        if !configItem.Dict? { return Raises(TypeError); }
        assert p[i..][0] == p[i] && p[i..][1..] == p[i + 1..];
        configItem := if p[i] in configItem.m then configItem.m[p[i]] else EMPTY;
        i := i + 1;
      }
      parent := Ok(configItem);
    }

    /** A raise leaves what is stored alone. */
    method Commit(r: Result<Tree>) returns (done: Result<bool>)
      modifies this`stored
      ensures r.Ok? ==> stored == r.value && done == Ok(true)
      ensures r.Raises? ==> stored == old(stored) && done == Raises(r.error)
    {
      if r.Raises? { return Raises(r.error); }
      stored := r.value;
      done := Ok(true);
    }

    method Store() returns (done: Result<bool>)
      requires path != []
      modifies this`stored
      ensures model.None? ==> done == Raises(ValueError) && stored == old(stored)
      ensures model.Some? ==>
                var r := StoreItem(old(stored), path, model.value);
                if r.Ok? then stored == r.value && done == Ok(true)
                else stored == old(stored) && done == Raises(r.error)
    {
      if model.None? { return Raises(ValueError); }
      var r := NestedStore(stored, path, model.value);
      done := Commit(r);
    }

    method StoreList() returns (done: Result<bool>)
      requires path != []
      modifies this`stored
      ensures modelArray == [] ==> done == Raises(ValueError) && stored == old(stored)
      ensures modelArray != [] ==>
                var r := Edit(old(stored), path, StoreItems(modelArray, compareOn));
                if r.Ok? then stored == r.value && done == Ok(true)
                else stored == old(stored) && done == Raises(r.error)
    {
      if modelArray == [] { return Raises(ValueError); }
      var r := NestedStoreArray(stored, path, modelArray);
      done := Commit(r);
    }

    method DeleteItemFromList() returns (done: Result<bool>)
      requires path != []
      modifies this`stored
      ensures model.None? ==> done == Raises(ValueError) && stored == old(stored)
      ensures model.Some? ==>
                var r := Edit(old(stored), path, SweepItems(model.value, compareOn));
                if r.Ok? then stored == r.value && done == Ok(true)
                else stored == old(stored) && done == Raises(r.error)
    {
      if model.None? { return Raises(ValueError); }
      var r := NestedDeleteFromList(stored, path, model.value);
      done := Commit(r);
    }

    /** `delete_list`. With models but no list, or no model to compare with, it raises. */
    method DeleteList() returns (done: Result<bool>)
      requires path != []
      modifies this`stored
      ensures var found := Access(old(stored), path);
              if found.Raises? then stored == old(stored) && done == Raises(found.error)
              else if modelArray == [] then stored == old(stored) && done == Ok(true)
              else if model.None? || !Truthy(found.value) then stored == old(stored) && done == Raises(TypeError)
              else
                var r := Edit(old(stored), path, PopItems(FilterOn(model.value, compareOn), compareOn, |modelArray|));
                if r.Ok? then stored == r.value && done == Ok(true)
                else stored == old(stored) && done == Raises(r.error)
    {
      var found := Access(stored, path);
      if found.Raises? { return Raises(found.error); }
      if modelArray == [] { return Ok(true); }
      if model.None? || !Truthy(found.value) { return Raises(TypeError); }
      var id := FilterOn(model.value, compareOn);
      FoundIsThere(stored, path);
      var items := ToItems(found.value);
      if items.None? {
        EditRaises(stored, path, PopItems(id, compareOn, |modelArray|));
        return Raises(TypeError);
      }
      var left := PopArray(items.value, id);
      ReplaceIsEdit(stored, path, PopItems(id, compareOn, |modelArray|), FromItems(left));
      stored := Replace(stored, path, FromItems(left));
      done := Ok(true);
    }

    /** `delete_key`. Asked to delete the root it finds no parent and reports that nothing was done. */
    method DeleteKey(deleteRoot: bool) returns (done: Result<bool>)
      requires path != []
      modifies this`stored
      ensures deleteRoot ==> done == Ok(false) && stored == old(stored)
      ensures !deleteRoot ==>
                var r := TreeEditor.DeleteKey(old(stored), path);
                if r.Ok? then stored == r.value.0 && done == Ok(r.value.1)
                else stored == old(stored) && done == Raises(r.error)
    {
      if deleteRoot { return Ok(false); }
      var parent := AccessSubkeyParent(stored, path);
      DeleteThroughParent(stored, path);
      if parent.Raises? { return Raises(parent.error); }
      if !Truthy(parent.value) { return Ok(false); }
      if !parent.value.Dict? { return Raises(TypeError); }
      var keyToDelete := path[|path| - 1];
      if keyToDelete !in parent.value.m { return Raises(KeyError); }
      ParentIsThere(stored, path);
      stored := Replace(stored, path[..|path| - 1], Dict(parent.value.m - {keyToDelete}));
      done := Ok(true);
    }
  }
}
