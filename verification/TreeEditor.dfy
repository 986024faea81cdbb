/** Editing a configuration tree at a dotted path, as the model adapter does. A path is the key split at its
    dots. */
module TreeEditor {
  import opened Common
  import opened ConfigTree

  type Item = map<string, Tree>

  /** What Python raises instead of a result; a missing attribute counts as a type error. */
  datatype Error = TypeError | KeyError | ValueError
  datatype Result<+T> = Ok(value: T) | Raises(error: Error)

  // ---- lookups ----

  /** `__access_subkey`: missing parents read as empty dictionaries; asking anything else for a key raises. */
  function Access(t: Tree, path: seq<string>): Result<Tree>
    requires path != []
    decreases |path|
  {
    if !t.Dict? then Raises(TypeError)
    else
      var child := if path[0] in t.m then Some(t.m[path[0]]) else None;
      if |path| == 1 then Ok(if child.Some? then child.value else Null)
      else Access(if child.Some? then child.value else EMPTY, path[1..])
  }

  /** What a lookup returns: a falsy value gives way to the default. */
  function Lookup(t: Tree, path: seq<string>, default: Tree): Result<Tree>
    requires path != []
  {
    var v := Access(t, path);
    if v.Ok? && !Truthy(v.value) then Ok(default) else v
  }

  // ---- edits ----

  /** The walk that the store and delete operations share: falsy values on the way become dictionaries, and
      `f` edits what is stored under the last key. */
  function Edit(t: Tree, path: seq<string>, f: Option<Tree> -> Result<Tree>): Result<Tree>
    requires path != []
    decreases |path|
  {
    var base := if Truthy(t) then t else EMPTY;
    if !base.Dict? then Raises(TypeError)
    else
      var k := path[0];
      var child := if k in base.m then Some(base.m[k]) else None;
      var r := if |path| == 1 then f(child)
               else Edit(if child.Some? then child.value else EMPTY, path[1..], f);
      if r.Ok? then Ok(Dict(base.m[k := r.value])) else r
  }

  /** `__nested_store`: update an existing dictionary, replace anything else. */
  function StoreDict(value: Item): Option<Tree> -> Result<Tree> {
    (child: Option<Tree>) =>
      if child.Some? && child.value.Dict? then Ok(Dict(child.value.m + value)) else Ok(Dict(value))
  }

  function StoreItem(t: Tree, path: seq<string>, value: Item): Result<Tree>
    requires path != []
  {
    Edit(t, path, StoreDict(value))
  }

  /** `del parent[key]`; an empty or missing parent is reported as nothing done. */
  function DeleteKey(t: Tree, path: seq<string>): Result<(Tree, bool)>
    requires path != []
    decreases |path|
  {
    if |path| == 1 then
      if !Truthy(t) then Ok((t, false))
      else if !t.Dict? then Raises(TypeError)
      else if path[0] !in t.m then Raises(KeyError)
      else Ok((Dict(t.m - {path[0]}), true))
    else if !t.Dict? then Raises(TypeError)
    else if path[0] !in t.m then Ok((t, false))
    else
      var r := DeleteKey(t.m[path[0]], path[1..]);
      if r.Raises? then r
      else Ok((Dict(t.m[path[0] := r.value.0]), r.value.1))
  }

  // ---- properties of the walk ----

  /** Neither path leads through the other. */
  predicate Apart(p: seq<string>, q: seq<string>) {
    !(p <= q) && !(q <= p)
  }

  /** An edit leaves every lookup off its path as it was, as long as that lookup did not raise. */
  lemma {:induction false} EditOffPath(t: Tree, p: seq<string>, f: Option<Tree> -> Result<Tree>, q: seq<string>)
    requires p != [] && q != [] && Apart(p, q) && Edit(t, p, f).Ok? && Access(t, q).Ok?
    ensures Access(Edit(t, p, f).value, q) == Access(t, q)
    decreases |p|
  {
    if p[0] == q[0] {
      assert p == [p[0]] + p[1..] && q == [q[0]] + q[1..];
      assert |p| > 1 && |q| > 1;
      assert Apart(p[1..], q[1..]);
      var child := if t.Dict? && p[0] in t.m then t.m[p[0]] else EMPTY;
      EditOffPath(child, p[1..], f, q[1..]);
    }
  }

  /** After an edit the lookup of its path finds what `f` made of the value that was there. */
  lemma {:induction false} EditOnPath(t: Tree, p: seq<string>, f: Option<Tree> -> Result<Tree>)
    requires p != [] && Edit(t, p, f).Ok?
    ensures Access(Edit(t, p, f).value, p) == f(At(t, p))
    decreases |p|
  {
    if |p| == 1 {
      assert p[1..] == [];
    } else {
      var child := if t.Dict? && p[0] in t.m then t.m[p[0]] else EMPTY;
      EditOnPath(child, p[1..], f);
    }
  }

  /** `f` changes nothing it has already changed. */
  ghost predicate Settles(f: Option<Tree> -> Result<Tree>) {
    forall c :: f(c).Ok? ==> f(Some(f(c).value)) == f(c)
  }

  lemma {:induction false} EditTwice(t: Tree, p: seq<string>, f: Option<Tree> -> Result<Tree>)
    requires p != [] && Settles(f) && Edit(t, p, f).Ok?
    ensures Edit(Edit(t, p, f).value, p, f) == Edit(t, p, f)
    decreases |p|
  {
    var once := Edit(t, p, f).value;
    var base := if Truthy(t) then t else EMPTY;
    var child := if p[0] in base.m then Some(base.m[p[0]]) else None;
    assert once.Dict? && p[0] in once.m && Truthy(once);
    if |p| == 1 {
      assert f(Some(once.m[p[0]])) == f(child);
    } else {
      EditTwice(if child.Some? then child.value else EMPTY, p[1..], f);
    }
    assert once.m[p[0] := once.m[p[0]]] == once.m;
  }

  /** STORE IS IDEMPOTENT. */
  lemma StoreTwice(t: Tree, p: seq<string>, value: Item)
    requires p != [] && StoreItem(t, p, value).Ok?
    ensures StoreItem(StoreItem(t, p, value).value, p, value) == StoreItem(t, p, value)
  {
    var f := StoreDict(value);
    forall c | f(c).Ok? ensures f(Some(f(c).value)) == f(c) {
      if c.Some? && c.value.Dict? {
        assert (c.value.m + value) + value == c.value.m + value;
      } else {
        assert value + value == value;
      }
    }
    EditTwice(t, p, f);
  }

  // ---- when the operations raise ----

  /** What counts as nothing in Python. */
  lemma FalsyIs(t: Tree)
    ensures !Truthy(t) <==>
              t == Null || t == Bool(false) || t == Num(0) || t == Text("") || t == List([]) || t == Dict(map[])
  {
  }

  /** Something other than a dictionary is stored at the path itself or on the way to it. */
  predicate NoDictAt(t: Tree, path: seq<string>) {
    At(t, path).Some? && !At(t, path).value.Dict?
  }

  /** A value on the way to the key that is neither nothing nor a dictionary. */
  predicate StandsInTheWay(t: Tree, path: seq<string>) {
    NoDictAt(t, path) && Truthy(At(t, path).value)
  }

  lemma AtBelow(t: Tree, p: seq<string>, i: nat)
    requires p != [] && i < |p|
    ensures At(t, p[..i + 1]) == if t.Dict? && p[0] in t.m then At(t.m[p[0]], p[1..][..i]) else None
  {
    assert p[..i + 1][0] == p[0] && p[..i + 1][1..] == p[1..][..i];
  }

  /** EXACT CONDITION. A lookup raises if and only if something other than a dictionary is asked for a key; what it
      finds otherwise is what is stored at the path, or None. */
  lemma {:induction false} AccessIs(t: Tree, p: seq<string>)
    requires p != []
    ensures Access(t, p).Raises? <==> exists i :: 0 <= i < |p| && NoDictAt(t, p[..i])
    ensures Access(t, p).Ok? ==> Access(t, p).value == if At(t, p).Some? then At(t, p).value else Null
    decreases |p|
  {
    assert p[..0] == [];
    if t.Dict? && |p| > 1 {
      var child := if p[0] in t.m then t.m[p[0]] else EMPTY;
      AccessIs(child, p[1..]);
      forall i | 0 <= i < |p| - 1 ensures NoDictAt(t, p[..i + 1]) <==> p[0] in t.m && NoDictAt(child, p[1..][..i]) {
        AtBelow(t, p, i);
      }
      if i :| 0 <= i < |p[1..]| && NoDictAt(child, p[1..][..i]) {
        if p[0] in t.m { assert NoDictAt(t, p[..i + 1]); } else { EmptyHasNone(p[1..][..i]); }
      }
      if i :| 0 <= i < |p| && NoDictAt(t, p[..i]) {
        assert i > 0 && NoDictAt(child, p[1..][..i - 1]);
      }
      if p[0] !in t.m { assert At(EMPTY, p[1..]) == None; }
    } else if t.Dict? {
      assert p[1..] == [];
      assert forall i :: 0 <= i < |p| ==> p[..i] == [];
    } else {
      assert NoDictAt(t, p[..0]);
    }
  }

  lemma EmptyHasNone(q: seq<string>)
    ensures !NoDictAt(EMPTY, q)
  {
  }

  /** EXACT CONDITION. An edit raises if and only if something stands in the way of the key, or the edit of the
      value itself does. */
  lemma {:induction false} EditRaisesIff(t: Tree, p: seq<string>, f: Option<Tree> -> Result<Tree>)
    requires p != []
    ensures Edit(t, p, f).Raises? <==>
              (exists i :: 0 <= i < |p| && StandsInTheWay(t, p[..i])) || f(At(t, p)).Raises?
    decreases |p|
  {
    assert p[..0] == [];
    if !Truthy(t) || t.Dict? {
      var base := if Truthy(t) then t else EMPTY;
      var child := if p[0] in base.m then base.m[p[0]] else EMPTY;
      if |p| == 1 {
        assert p[1..] == [];
        assert forall i :: 0 <= i < |p| ==> p[..i] == [];
      } else {
        EditRaisesIff(child, p[1..], f);
        forall i | 0 <= i < |p| - 1
          ensures StandsInTheWay(t, p[..i + 1]) <==> StandsInTheWay(child, p[1..][..i])
        {
          AtBelow(t, p, i);
          if p[0] !in base.m { EmptyHasNone(p[1..][..i]); }
        }
        if i :| 0 <= i < |p[1..]| && StandsInTheWay(child, p[1..][..i]) { assert StandsInTheWay(t, p[..i + 1]); }
        if i :| 0 <= i < |p| && StandsInTheWay(t, p[..i]) {
          assert i > 0 && StandsInTheWay(child, p[1..][..i - 1]);
        }
        assert At(t, p) == At(child, p[1..]);
      }
    } else {
      assert StandsInTheWay(t, p[..0]);
      if |p| > 0 { assert Edit(t, p, f) == Raises(TypeError); }
    }
  }

  /** Storing an object raises if and only if something stands in the way. */
  lemma StoreItemRaisesIff(t: Tree, p: seq<string>, value: Item)
    requires p != []
    ensures StoreItem(t, p, value).Raises? <==> exists i :: 0 <= i < |p| && StandsInTheWay(t, p[..i])
  {
    EditRaisesIff(t, p, StoreDict(value));
  }

  // ---- storing and deleting again ----

  /** The dictionary that holds the last key of the path is there. */
  predicate ParentThere(t: Tree, path: seq<string>)
    requires path != []
  {
    var parent := At(t, path[..|path| - 1]);
    parent.Some? && parent.value.Dict?
  }

  predicate ProperPrefix(q: seq<string>, p: seq<string>) {
    q < p
  }

  lemma ParentBelow(t: Tree, p: seq<string>)
    requires |p| > 1 && t.Dict?
    ensures ParentThere(t, p) <==> p[0] in t.m && ParentThere(t.m[p[0]], p[1..])
  {
    assert p[..|p| - 1][0] == p[0] && p[..|p| - 1][1..] == p[1..][..|p[1..]| - 1];
  }

  /** EXACT CONDITION. Storing at an absent path and deleting it again succeeds, and gives back the very same
      tree if and only if the parent was there; otherwise the empty parents it made remain. */
  lemma {:induction false} StoreThenDelete(t: Tree, p: seq<string>, f: Option<Tree> -> Result<Tree>)
    requires p != [] && t.Dict? && At(t, p) == None && Edit(t, p, f).Ok?
    ensures var r := DeleteKey(Edit(t, p, f).value, p);
            r.Ok? && r.value.1 && r.value.0.Dict? && (r.value.0 == t <==> ParentThere(t, p))
    decreases |p|, 0
  {
    var k, stored := p[0], Edit(t, p, f).value;
    if |p| == 1 {
      assert p[1..] == [] && p[..0] == [];
      assert stored.m - {k} == t.m;
    } else {
      ParentBelow(t, p);
      var child := if k in t.m then t.m[k] else EMPTY;
      if child.Dict? {
        StoreThenDelete(child, p[1..], f);
      } else {
        FalsyChild(child, p[1..], f);
      }
      var r := DeleteKey(stored.m[k], p[1..]).value.0;
      assert DeleteKey(stored, p) == Ok((Dict(stored.m[k := r]), true));
      if ParentThere(t, p) { assert stored.m[k := r] == t.m; }
      if r == child && k in t.m { assert stored.m[k := r] == t.m; }
    }
  }

  /** The walk through a falsy value that is not a dictionary is the walk through an empty one. */
  lemma FalsyChild(child: Tree, p: seq<string>, f: Option<Tree> -> Result<Tree>)
    requires p != [] && !child.Dict? && Edit(child, p, f).Ok?
    ensures var r := DeleteKey(Edit(child, p, f).value, p);
            r.Ok? && r.value.1 && r.value.0.Dict?
    ensures !ParentThere(child, p)
    decreases |p|, 1
  {
    assert At(EMPTY, p) == None;
    assert Edit(child, p, f) == Edit(EMPTY, p, f);
    StoreThenDelete(EMPTY, p, f);
    if |p| == 1 { assert p[..0] == []; }
  }

  /** Apart from the parents themselves, every lookup that did not raise returns what it did before, whatever
      its default. */
  lemma {:induction false} StoreThenDeleteUnseen(t: Tree, p: seq<string>,
                          f: Option<Tree> -> Result<Tree>, q: seq<string>)
    requires p != [] && q != [] && t.Dict? && At(t, p) == None && Edit(t, p, f).Ok?
    requires !ProperPrefix(q, p) && Access(t, q).Ok?
    ensures DeleteKey(Edit(t, p, f).value, p).Ok?
    ensures Access(DeleteKey(Edit(t, p, f).value, p).value.0, q) == Access(t, q)
    decreases |p|
  {
    StoreThenDelete(t, p, f);
    var k := p[0];
    if |p| == 1 {
      assert p[..0] == [] && ParentThere(t, p);
    } else if q[0] == k {
      assert p == [k] + p[1..] && q == [k] + q[1..];
      assert |q| > 1;
      var child := if k in t.m then t.m[k] else EMPTY;
      assert !ProperPrefix(q[1..], p[1..]);
      StoreThenDeleteUnseen(child, p[1..], f, q[1..]);
    }
  }

  /** Every lookup that returned returns the same, whatever its default. */
  ghost predicate SameAnswers(t: Tree, now: Tree) {
    forall q: seq<string>, default: Tree ::
      q != [] && Access(t, q).Ok? ==> Lookup(now, q, default) == Lookup(t, q, default)
  }

  /** Every lookup does the same, raising included. */
  ghost predicate SameLookups(t: Tree, now: Tree) {
    forall q: seq<string>, default: Tree :: q != [] ==> Lookup(now, q, default) == Lookup(t, q, default)
  }

  /** What the two operations leave under the first key. */
  lemma UnderFirstKey(t: Tree, p: seq<string>, f: Option<Tree> -> Result<Tree>)
    requires |p| > 1 && t.Dict? && At(t, p) == None && Edit(t, p, f).Ok?
    ensures var u := DeleteKey(Edit(t, p, f).value, p);
            && u.Ok? && u.value.0.Dict? && p[0] in u.value.0.m && u.value.0.m[p[0]].Dict?
            && u.value.0 == Dict(t.m[p[0] := u.value.0.m[p[0]]])
            && (|p| > 2 ==> p[1] in u.value.0.m[p[0]].m)
            && (|p| == 2 && !ParentThere(t, p) ==> u.value.0.m[p[0]] == EMPTY)
  {
    StoreThenDelete(t, p, f);
    var child := if p[0] in t.m then t.m[p[0]] else EMPTY;
    var below := if Truthy(child) then child else EMPTY;
    assert Edit(child, p[1..], f) == Edit(below, p[1..], f);
    var stored := Edit(child, p[1..], f).value;
    assert stored.Dict? && p[1] in stored.m;
    ParentBelow(t, p);
    if |p| == 2 {
      assert p[1..][1..] == [];
      assert p[1..][..0] == [];
      assert DeleteKey(stored, p[1..]) == Ok((Dict(stored.m - {p[1]}), true));
      if !ParentThere(t, p) { assert stored.m - {p[1]} == map[]; }
    } else {
      assert DeleteKey(stored, p[1..]).Ok? && p[1] in DeleteKey(stored, p[1..]).value.0.m;
    }
    assert Edit(t, p, f).value.m[p[0] := DeleteKey(stored, p[1..]).value.0]
           == t.m[p[0] := DeleteKey(stored, p[1..]).value.0];
  }

  lemma ParentsShow(t: Tree, p: seq<string>, f: Option<Tree> -> Result<Tree>)
    requires |p| > 2 && t.Dict? && At(t, p) == None && Edit(t, p, f).Ok? && !ParentThere(t, p)
    ensures var u := DeleteKey(Edit(t, p, f).value, p);
            u.Ok? && Access(t, [p[0]]).Ok? && Lookup(u.value.0, [p[0]], Null) != Lookup(t, [p[0]], Null)
  {
    UnderFirstKey(t, p, f);
    StoreThenDelete(t, p, f);
    var u := DeleteKey(Edit(t, p, f).value, p).value.0;
    assert p[0] in t.m ==> t.m[p[0] := t.m[p[0]]] == t.m;
  }

  lemma AnswersKept(t: Tree, p: seq<string>, f: Option<Tree> -> Result<Tree>, q: seq<string>, default: Tree)
    requires |p| <= 2 && p != [] && t.Dict? && At(t, p) == None && Edit(t, p, f).Ok? && q != [] && Access(t, q).Ok?
    ensures var u := DeleteKey(Edit(t, p, f).value, p);
            u.Ok? && Lookup(u.value.0, q, default) == Lookup(t, q, default)
  {
    if ProperPrefix(q, p) {
      assert q == [p[0]];
      UnderFirstKey(t, p, f);
      StoreThenDelete(t, p, f);
      ParentBelow(t, p);
    } else {
      StoreThenDeleteUnseen(t, p, f, q);
    }
  }

  /** An absent parent and an empty one answer every lookup alike; a falsy value that was not a dictionary
      raised for the keys below it. */
  lemma OneParent(t: Tree, p: seq<string>, f: Option<Tree> -> Result<Tree>)
    requires |p| == 2 && t.Dict? && At(t, p) == None && Edit(t, p, f).Ok? && !ParentThere(t, p)
    ensures DeleteKey(Edit(t, p, f).value, p).Ok?
    ensures SameLookups(t, DeleteKey(Edit(t, p, f).value, p).value.0) <==> p[0] !in t.m
  {
    UnderFirstKey(t, p, f);
    var u := DeleteKey(Edit(t, p, f).value, p).value.0;
    if p[0] !in t.m {
      forall q: seq<string>, default: Tree | q != [] ensures Lookup(u, q, default) == Lookup(t, q, default) {
        if q[0] == p[0] && |q| > 1 { assert Access(u, q) == Access(EMPTY, q[1..]) == Access(t, q); }
      }
    } else {
      ParentBelow(t, p);
      assert p[1..][..0] == [];
      assert Access(t, p) == Access(t.m[p[0]], p[1..]) && Access(u, p) == Access(EMPTY, p[1..]);
      assert Lookup(t, p, Null).Raises? && Lookup(u, p, Null).Ok?;
    }
  }

  /** EXACT CONDITION. Storing at an absent key and deleting it again is invisible to every lookup that returned
      if and only if the parent was there or is the only one made; and to every lookup, those that raised
      included, if and only if in the second case nothing was stored under the parent's name. */
  lemma StoreItemThenDeleteKey(t: Tree, p: seq<string>, value: Item)
    requires p != [] && t.Dict? && At(t, p) == None && StoreItem(t, p, value).Ok?
    ensures var r := DeleteKey(StoreItem(t, p, value).value, p);
            && r.Ok? && r.value.1
            && (SameAnswers(t, r.value.0) <==> ParentThere(t, p) || |p| == 2)
            && (SameLookups(t, r.value.0) <==> ParentThere(t, p) || (|p| == 2 && p[0] !in t.m))
  {
    var f := StoreDict(value);
    StoreThenDelete(t, p, f);
    var now := DeleteKey(Edit(t, p, f).value, p).value.0;
    if |p| == 1 { assert p[..0] == []; }
    if !ParentThere(t, p) {
      if |p| == 2 {
        OneParent(t, p, f);
        forall q: seq<string>, default: Tree | q != [] && Access(t, q).Ok?
          ensures Lookup(now, q, default) == Lookup(t, q, default)
        {
          AnswersKept(t, p, f, q, default);
        }
      } else {
        ParentsShow(t, p, f);
      }
    }
  }

  /** A store at a.b.c in an empty configuration, deleted again, leaves {b: {}} to be read at a. */
  lemma EmptyParentsRemain(value: Item)
    ensures var stored := StoreItem(EMPTY, ["a", "b", "c"], value);
            && stored.Ok? && DeleteKey(stored.value, ["a", "b", "c"]).Ok?
            && Lookup(EMPTY, ["a"], Null) == Ok(Null)
            && Lookup(DeleteKey(stored.value, ["a", "b", "c"]).value.0, ["a"], Null) == Ok(Dict(map["b" := EMPTY]))
  {
    var p, f, leaf := ["a", "b", "c"], StoreDict(value), Dict(map["c" := Dict(value)]);
    assert p[1..] == ["b", "c"] && p[1..][1..] == ["c"];
    assert Edit(EMPTY, ["c"], f) == Ok(leaf);
    assert Edit(EMPTY, ["b", "c"], f) == Ok(Dict(map["b" := leaf]));
    var stored := Edit(EMPTY, p, f).value;
    assert stored == Dict(map["a" := Dict(map["b" := leaf])]);
    assert leaf.m - {"c"} == map[];
    assert DeleteKey(leaf, ["c"]) == Ok((EMPTY, true));
    assert map["b" := leaf]["b" := EMPTY] == map["b" := EMPTY];
    assert ["b", "c"][1..] == ["c"];
    assert DeleteKey(Dict(map["b" := leaf]), ["b", "c"]) == Ok((Dict(map["b" := EMPTY]), true));
    assert stored.m["a" := Dict(map["b" := EMPTY])] == map["a" := Dict(map["b" := EMPTY])];
    assert DeleteKey(stored, p) == Ok((Dict(map["a" := Dict(map["b" := EMPTY])]), true));
  }

  /** What is read under a stored key: the stored fields, and beside them the fields a dictionary had there. */
  lemma StoredFieldsRead(t: Tree, p: seq<string>, value: Item)
    requires p != [] && StoreItem(t, p, value).Ok?
    ensures var now := Access(StoreItem(t, p, value).value, p);
            && now.Ok? && now.value.Dict?
            && (forall k :: k in value ==> k in now.value.m && now.value.m[k] == value[k])
            && (forall k :: k !in value ==>
                  (k in now.value.m <==> At(t, p).Some? && At(t, p).value.Dict? && k in At(t, p).value.m)
                  && (k in now.value.m ==> now.value.m[k] == At(t, p).value.m[k]))
  {
    EditOnPath(t, p, StoreDict(value));
  }

  /** Deleting a key that is there removes it and nothing off its path. */
  lemma {:induction false} DeleteKeyRemoves(t: Tree, p: seq<string>, q: seq<string>)
    requires p != [] && At(t, p).Some?
    ensures DeleteKey(t, p).Ok? && DeleteKey(t, p).value.1
    ensures At(DeleteKey(t, p).value.0, p) == None
    ensures Apart(p, q) ==> At(DeleteKey(t, p).value.0, q) == At(t, q)
    decreases |p|
  {
    if |p| == 1 {
      assert p == [p[0]] && (q != [] && q[0] == p[0] ==> p <= q);
    } else {
      if Apart(p, q) && q[0] == p[0] {
        assert p == [p[0]] + p[1..] && q == [q[0]] + q[1..];
        assert Apart(p[1..], q[1..]);
      }
      DeleteKeyRemoves(t.m[p[0]], p[1..], if q == [] then [] else q[1..]);
    }
  }

  /** Reported as not done, a delete has changed nothing. */
  lemma {:induction false} DeleteKeyNotDone(t: Tree, p: seq<string>)
    requires p != [] && DeleteKey(t, p).Ok? && !DeleteKey(t, p).value.1
    ensures DeleteKey(t, p).value.0 == t && At(t, p) == None
    decreases |p|
  {
    if |p| > 1 && p[0] in t.m {
      DeleteKeyNotDone(t.m[p[0]], p[1..]);
      assert t.m[p[0] := t.m[p[0]]] == t.m;
    }
  }
}
