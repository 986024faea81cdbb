/** Lists of objects that are told apart by some of their keys, as the model adapter stores them. */
module KeyedList {
  import opened Common
  import opened ConfigTree
  import opened TreeEditor

  /** `item.get(key)`. */
  function Get(item: Item, key: string): Tree {
    if key in item then item[key] else Null
  }

  function CountEqual(left: Item, right: Item, on: seq<string>): nat {
    if on == [] then 0
    else (if Get(left, on[0]) == Get(right, on[0]) then 1 else 0) + CountEqual(left, right, on[1..])
  }

  /** `__objects_similar`: as many keys compare equal as there are. */
  predicate Similar(left: Item, right: Item, on: seq<string>) {
    CountEqual(left, right, on) == |on|
  }

  /** `filter_on`: the identity of an item. */
  function FilterOn(item: Item, on: seq<string>): Item {
    map k | k in item && k in on :: item[k]
  }

  predicate HasKeys(item: Item, on: seq<string>) {
    forall k :: k in on ==> k in item
  }

  /** Keys stored as None. */
  function DropNulls(item: Item): Item {
    map k | k in item && item[k] != Null :: item[k]
  }

  lemma {:induction false} CountIff(left: Item, right: Item, on: seq<string>)
    ensures CountEqual(left, right, on) <= |on|
    ensures CountEqual(left, right, on) == |on| <==> forall k :: k in on ==> Get(left, k) == Get(right, k)
  {
    if on != [] {
      CountIff(left, right, on[1..]);
      assert forall k :: k in on <==> k == on[0] || k in on[1..];
    }
  }

  /** EXACT CONDITION. Two items are similar if and only if their identities are equal once keys stored as
      None are dropped. */
  lemma SimilarIff(left: Item, right: Item, on: seq<string>)
    ensures Similar(left, right, on) <==> DropNulls(FilterOn(left, on)) == DropNulls(FilterOn(right, on))
  {
    CountIff(left, right, on);
    var l, r := DropNulls(FilterOn(left, on)), DropNulls(FilterOn(right, on));
    if Similar(left, right, on) {
      forall k ensures (k in l <==> k in r) && (k in l ==> l[k] == r[k]) {
        if k in on { assert Get(left, k) == Get(right, k); }
      }
      assert l == r;
    } else {
      var k :| k in on && Get(left, k) != Get(right, k);
      if k in l { assert l[k] == Get(left, k); }
      if k in r { assert r[k] == Get(right, k); }
    }
  }

  /** For items that have all the compared keys, similar means the same identity. */
  lemma SimilarMeansSameIdentity(left: Item, right: Item, on: seq<string>)
    requires HasKeys(left, on) && HasKeys(right, on)
    ensures Similar(left, right, on) <==> FilterOn(left, on) == FilterOn(right, on)
  {
    CountIff(left, right, on);
    var l, r := FilterOn(left, on), FilterOn(right, on);
    if Similar(left, right, on) {
      forall k | k in on ensures k in l && k in r && l[k] == r[k] {
        assert Get(left, k) == Get(right, k);
      }
      assert l == r;
    } else {
      var k :| k in on && Get(left, k) != Get(right, k);
      assert l[k] != r[k];
    }
  }

  lemma SameIdentityIsSimilar(left: Item, right: Item, on: seq<string>)
    requires FilterOn(left, on) == FilterOn(right, on)
    ensures Similar(left, right, on)
  {
    SimilarIff(left, right, on);
  }

  // ---- storing ----

  predicate AnySimilar(items: seq<Item>, v: Item, on: seq<string>) {
    exists i :: 0 <= i < |items| && Similar(v, items[i], on)
  }

  /** `[filter_on(x) for x in items].index(id)`. */
  function IndexOf(items: seq<Item>, id: Item, on: seq<string>): (r: Option<nat>)
    ensures r.Some? ==> r.value < |items| && FilterOn(items[r.value], on) == id
                        && forall j :: 0 <= j < r.value ==> FilterOn(items[j], on) != id
    ensures r.None? ==> forall j :: 0 <= j < |items| ==> FilterOn(items[j], on) != id
  {
    if items == [] then None
    else if FilterOn(items[0], on) == id then Some(0)
    else
      var r := IndexOf(items[1..], id, on);
      if r.Some? then Some(r.value + 1) else None
  }

  /** One turn of the loop of `__nested_store_array`. */
  function StoreOne(items: seq<Item>, v: Item, on: seq<string>): Result<seq<Item>> {
    if AnySimilar(items, v, on) then
      var i := IndexOf(items, FilterOn(v, on), on);
      if i.Some? then Ok(items[i.value := v]) else Raises(ValueError)
    else Ok(items + [v])
  }

  function StoreAll(items: seq<Item>, values: seq<Item>, on: seq<string>): Result<seq<Item>>
    decreases |values|
  {
    if values == [] then Ok(items)
    else
      var r := StoreOne(items, values[0], on);
      if r.Ok? then StoreAll(r.value, values[1..], on) else r
  }

  function Ids(items: seq<Item>, on: seq<string>): (r: seq<Item>)
    ensures |r| == |items| && forall i :: 0 <= i < |items| ==> r[i] == FilterOn(items[i], on)
  {
    seq(|items|, i requires 0 <= i < |items| => FilterOn(items[i], on))
  }

  /** The identities after storing: the old ones in their places, each new one once, in order of arrival. */
  function NewIds(ids: seq<Item>, values: seq<Item>, on: seq<string>): seq<Item>
    decreases |values|
  {
    if values == [] then ids
    else
      var id := FilterOn(values[0], on);
      NewIds(if id in ids then ids else ids + [id], values[1..], on)
  }

  predicate UniqueIds(items: seq<Item>, on: seq<string>) {
    forall i, j :: 0 <= i < j < |items| ==> FilterOn(items[i], on) != FilterOn(items[j], on)
  }

  /** The keyed map that a list of items stands for. */
  function AsMap(items: seq<Item>, on: seq<string>): map<Item, Item> {
    if items == [] then map[]
    else AsMap(items[..|items| - 1], on)[FilterOn(items[|items| - 1], on) := items[|items| - 1]]
  }

  function Overwrite(m: map<Item, Item>, values: seq<Item>, on: seq<string>): map<Item, Item>
    decreases |values|
  {
    if values == [] then m else Overwrite(m[FilterOn(values[0], on) := values[0]], values[1..], on)
  }

  predicate AllHaveKeys(items: seq<Item>, on: seq<string>) {
    forall x :: x in items ==> HasKeys(x, on)
  }

  /** Different identities that agree once keys stored as None are dropped. */
  predicate Clash(a: Item, b: Item) {
    a != b && DropNulls(a) == DropNulls(b)
  }

  /** Identities clash exactly when every compared key reads the same from both items, and some compared key is
      stored as None in one of them and absent from the other. */
  lemma ClashIff(left: Item, right: Item, on: seq<string>)
    ensures Clash(FilterOn(left, on), FilterOn(right, on)) <==>
              && (forall k :: k in on ==> Get(left, k) == Get(right, k))
              && (exists k :: k in on && Get(left, k) == Null == Get(right, k) && !(k in left <==> k in right))
  {
    SimilarIff(left, right, on);
    CountIff(left, right, on);
    var l, r := FilterOn(left, on), FilterOn(right, on);
    if Clash(l, r) {
      if forall k :: k in on && Get(left, k) == Null ==> (k in left <==> k in right) {
        forall k ensures (k in l <==> k in r) && (k in l ==> l[k] == r[k]) {
          if k in on { assert Get(left, k) == Get(right, k); }
        }
        assert false;
      }
    }
    if k :| k in on && Get(left, k) == Null == Get(right, k) && !(k in left <==> k in right) {
      assert !(k in l <==> k in r);
    }
  }

  lemma SimilarById(items: seq<Item>, v: Item, on: seq<string>)
    ensures AnySimilar(items, v, on) <==>
                  exists id :: id in Ids(items, on) && DropNulls(id) == DropNulls(FilterOn(v, on))
  {
    var ids := Ids(items, on);
    if AnySimilar(items, v, on) {
      var i :| 0 <= i < |items| && Similar(v, items[i], on);
      SimilarIff(v, items[i], on);
      assert ids[i] in ids;
    }
    if id :| id in ids && DropNulls(id) == DropNulls(FilterOn(v, on)) {
      var i :| 0 <= i < |ids| && ids[i] == id;
      SimilarIff(v, items[i], on);
    }
  }

  lemma FoundById(items: seq<Item>, id: Item, on: seq<string>)
    ensures IndexOf(items, id, on).Some? <==> id in Ids(items, on)
  {
    var i, ids := IndexOf(items, id, on), Ids(items, on);
    if i.Some? { assert ids[i.value] == id; }
  }

  /** EXACT CONDITION, one value. Storing it raises if and only if its identity is new and clashes with that of an
      item; otherwise it joins the identities if it is new. */
  lemma StoreOneRaisesIff(items: seq<Item>, v: Item, on: seq<string>)
    ensures var ids, id, r := Ids(items, on), FilterOn(v, on), StoreOne(items, v, on);
            && (r.Raises? <==> id !in ids && exists x :: x in ids && Clash(id, x))
            && (r.Ok? ==> Ids(r.value, on) == if id in ids then ids else ids + [id])
  {
    var ids, id := Ids(items, on), FilterOn(v, on);
    SimilarById(items, v, on);
    FoundById(items, id, on);
    var i := IndexOf(items, id, on);
    if i.Some? { assert Ids(items[i.value := v], on) == ids; }
    if AnySimilar(items, v, on) {
      var x :| x in ids && DropNulls(x) == DropNulls(id);
      assert id !in ids ==> Clash(id, x);
    } else {
      assert Ids(items + [v], on) == ids + [id];
    }
  }

  /** Some value has an identity that no item has, and that clashes with the identity of an item or a value. */
  ghost predicate Clashes(ids: seq<Item>, more: seq<Item>) {
    exists a, b :: a in more && a !in ids && (b in ids || b in more) && Clash(a, b)
  }

  lemma ClashesStep(ids: seq<Item>, now: seq<Item>, more: seq<Item>)
    requires more != [] && now == if more[0] in ids then ids else ids + [more[0]]
    requires more[0] in ids || forall x :: x in ids ==> !Clash(more[0], x)
    ensures Clashes(ids, more) <==> Clashes(now, more[1..])
  {
    assert forall x :: x in more <==> x == more[0] || x in more[1..];
    if Clashes(ids, more) {
      var a, b :| a in more && a !in ids && (b in ids || b in more) && Clash(a, b);
      if a == more[0] {
        assert b in more[1..] && b !in ids;
        assert Clash(b, a) && b !in now && a in now;
      } else {
        assert a in more[1..] && a !in now && (b in now || b in more[1..]);
      }
    }
    if Clashes(now, more[1..]) {
      var a, b :| a in more[1..] && a !in now && (b in now || b in more[1..]) && Clash(a, b);
      assert a in more && a !in ids && (b in ids || b in more);
    }
  }

  /** EXACT CONDITION, whole lists. Storing values raises if and only if some value brings an identity that the list
      did not have and that clashes with one of the list or of another value, whatever their order. */
  lemma {:induction false} StoreAllRaisesIff(items: seq<Item>, values: seq<Item>, on: seq<string>)
    ensures StoreAll(items, values, on).Raises? <==> Clashes(Ids(items, on), Ids(values, on))
    decreases |values|
  {
    var ids, more := Ids(items, on), Ids(values, on);
    if values != [] {
      var r := StoreOne(items, values[0], on);
      StoreOneRaisesIff(items, values[0], on);
      assert more[0] == FilterOn(values[0], on) && more[1..] == Ids(values[1..], on);
      if r.Raises? {
        var x :| x in ids && Clash(more[0], x);
        assert more[0] in more;
      } else {
        StoreAllRaisesIff(r.value, values[1..], on);
        ClashesStep(ids, Ids(r.value, on), more);
      }
    }
  }

  lemma StoreOneById(items: seq<Item>, v: Item, on: seq<string>)
    requires AllHaveKeys(items, on) && HasKeys(v, on)
    ensures var i := IndexOf(items, FilterOn(v, on), on);
            StoreOne(items, v, on) == Ok(if i.Some? then items[i.value := v] else items + [v])
  {
    var i := IndexOf(items, FilterOn(v, on), on);
    if i.Some? {
      SameIdentityIsSimilar(v, items[i.value], on);
    } else {
      forall j | 0 <= j < |items| ensures !Similar(v, items[j], on) {
        assert items[j] in items;
        SimilarMeansSameIdentity(v, items[j], on);
      }
    }
  }

  lemma {:induction false} AsMapHas(items: seq<Item>, on: seq<string>, id: Item)
    ensures id in AsMap(items, on) <==> id in Ids(items, on)
    ensures UniqueIds(items, on) ==>
                  forall i :: 0 <= i < |items| && FilterOn(items[i], on) == id ==> AsMap(items, on)[id] == items[i]
  {
    if items != [] {
      var front, last := items[..|items| - 1], items[|items| - 1];
      AsMapHas(front, on, id);
      assert Ids(items, on) == Ids(front, on) + [FilterOn(last, on)];
      if UniqueIds(items, on) {
        forall i | 0 <= i < |items| && FilterOn(items[i], on) == id ensures AsMap(items, on)[id] == items[i] {
          if i < |front| { assert front[i] == items[i] && FilterOn(last, on) != id; }
        }
      }
    }
  }

  /** Replacing an item by one of the same identity. */
  lemma ReplaceIds(items: seq<Item>, i: nat, v: Item, on: seq<string>)
    requires i < |items| && FilterOn(items[i], on) == FilterOn(v, on)
    requires AllHaveKeys(items, on) && HasKeys(v, on) && UniqueIds(items, on)
    ensures var now := items[i := v];
            AllHaveKeys(now, on) && UniqueIds(now, on) && Ids(now, on) == Ids(items, on)
  {
    var now := items[i := v];
    assert Ids(now, on) == Ids(items, on);
    forall k, l | 0 <= k < l < |now| ensures FilterOn(now[k], on) != FilterOn(now[l], on) {
      assert FilterOn(items[k], on) != FilterOn(items[l], on);
      assert Ids(now, on)[k] == Ids(items, on)[k] && Ids(now, on)[l] == Ids(items, on)[l];
    }
  }

  lemma AppendIds(items: seq<Item>, v: Item, on: seq<string>)
    requires FilterOn(v, on) !in Ids(items, on)
    requires AllHaveKeys(items, on) && HasKeys(v, on) && UniqueIds(items, on)
    ensures var now := items + [v];
            AllHaveKeys(now, on) && UniqueIds(now, on) && Ids(now, on) == Ids(items, on) + [FilterOn(v, on)]
  {
    var now := items + [v];
    forall k, l | 0 <= k < l < |now| ensures FilterOn(now[k], on) != FilterOn(now[l], on) {
      if l == |items| {
        assert Ids(items, on)[k] == FilterOn(items[k], on);
      } else {
        assert FilterOn(items[k], on) != FilterOn(items[l], on);
      }
    }
  }

  lemma StoreOneIds(items: seq<Item>, v: Item, on: seq<string>)
    requires AllHaveKeys(items, on) && HasKeys(v, on) && UniqueIds(items, on)
    ensures StoreOne(items, v, on).Ok?
    ensures var id, now := FilterOn(v, on), StoreOne(items, v, on).value;
            && AllHaveKeys(now, on) && UniqueIds(now, on)
            && Ids(now, on) == (if id in Ids(items, on) then Ids(items, on) else Ids(items, on) + [id])
  {
    StoreOneById(items, v, on);
    var id := FilterOn(v, on);
    var i := IndexOf(items, id, on);
    if i.Some? {
      assert Ids(items, on)[i.value] == id;
      ReplaceIds(items, i.value, v, on);
    } else {
      forall k | 0 <= k < |items| ensures Ids(items, on)[k] != id {}
      AppendIds(items, v, on);
    }
  }

  /** The keyed map of a list made from `items` by storing `v`. */
  lemma MapAfter(items: seq<Item>, now: seq<Item>, v: Item, on: seq<string>)
    requires UniqueIds(items, on) && UniqueIds(now, on)
    requires var id := FilterOn(v, on);
             Ids(now, on) == if id in Ids(items, on) then Ids(items, on) else Ids(items, on) + [id]
    requires forall k :: 0 <= k < |now| ==> now[k] == v || (k < |items| && now[k] == items[k])
    requires v in now
    ensures AsMap(now, on) == AsMap(items, on)[FilterOn(v, on) := v]
  {
    forall x
      ensures x in AsMap(now, on) <==> x in AsMap(items, on)[FilterOn(v, on) := v]
      ensures x in AsMap(now, on) ==> AsMap(now, on)[x] == AsMap(items, on)[FilterOn(v, on) := v][x]
    {
      AsMapHas(now, on, x);
      AsMapHas(items, on, x);
      if x in AsMap(now, on) {
        if x == FilterOn(v, on) {
          var k :| 0 <= k < |now| && now[k] == v;
        } else {
          var k :| 0 <= k < |now| && Ids(now, on)[k] == x;
          assert FilterOn(now[k], on) == x && now[k] != v;
        }
      }
    }
  }

  lemma StoreOneMap(items: seq<Item>, v: Item, on: seq<string>)
    requires AllHaveKeys(items, on) && HasKeys(v, on) && UniqueIds(items, on)
    ensures StoreOne(items, v, on).Ok?
    ensures AsMap(StoreOne(items, v, on).value, on) == AsMap(items, on)[FilterOn(v, on) := v]
  {
    StoreOneIds(items, v, on);
    StoreOneById(items, v, on);
    var i, now := IndexOf(items, FilterOn(v, on), on), StoreOne(items, v, on).value;
    var at := if i.Some? then i.value else |items|;
    assert now[at] == v && forall k :: 0 <= k < |now| && k != at ==> k < |items| && now[k] == items[k];
    MapAfter(items, now, v, on);
  }

  /** REFINEMENT. When every item and value has the compared keys and identities are unique, storing values into
      the list is overwriting a keyed map: it succeeds, the map is overwritten value by value, existing
      items keep their positions, each new identity is appended once, and identities stay unique. */
  lemma {:induction false} StoreAllRefines(items: seq<Item>, values: seq<Item>, on: seq<string>)
    requires AllHaveKeys(items, on) && AllHaveKeys(values, on) && UniqueIds(items, on)
    ensures StoreAll(items, values, on).Ok?
    ensures var now := StoreAll(items, values, on).value;
            && AllHaveKeys(now, on) && UniqueIds(now, on)
            && Ids(now, on) == NewIds(Ids(items, on), values, on)
            && Ids(items, on) <= Ids(now, on)
            && AsMap(now, on) == Overwrite(AsMap(items, on), values, on)
    decreases |values|
  {
    if values != [] {
      assert values[0] in values;
      StoreOneIds(items, values[0], on);
      StoreOneMap(items, values[0], on);
      StoreAllRefines(StoreOne(items, values[0], on).value, values[1..], on);
    }
  }

  // ---- deleting ----

  function Count(items: seq<Item>, id: Item, on: seq<string>): nat {
    if items == [] then 0 else (if FilterOn(items[0], on) == id then 1 else 0) + Count(items[1..], id, on)
  }

  /** The items with another identity, in order. */
  function Others(items: seq<Item>, id: Item, on: seq<string>): seq<Item> {
    if items == [] then []
    else (if FilterOn(items[0], on) == id then [] else [items[0]]) + Others(items[1..], id, on)
  }

  /** One turn of the loop of `delete_list`: the first match is popped. */
  function PopFirst(items: seq<Item>, id: Item, on: seq<string>): seq<Item> {
    var i := IndexOf(items, id, on);
    if i.Some? then items[..i.value] + items[i.value + 1..] else items
  }

  function PopTimes(items: seq<Item>, id: Item, on: seq<string>, n: nat): seq<Item>
    decreases n
  {
    if n == 0 then items else PopFirst(PopTimes(items, id, on, n - 1), id, on)
  }

  lemma {:induction false} PopFirstCounts(items: seq<Item>, id: Item, on: seq<string>)
    ensures var now := PopFirst(items, id, on);
            && Count(now, id, on) == (if Count(items, id, on) > 0 then Count(items, id, on) - 1 else 0)
            && Others(now, id, on) == Others(items, id, on)
  {
    if items != [] {
      var now, rest := PopFirst(items, id, on), PopFirst(items[1..], id, on);
      PopFirstCounts(items[1..], id, on);
      if FilterOn(items[0], on) == id {
        assert now == items[1..];
      } else {
        assert now == [items[0]] + rest;
        assert now[1..] == rest;
      }
    }
  }

  lemma {:induction false} NoneLeftIff(items: seq<Item>, id: Item, on: seq<string>)
    ensures Others(items, id, on) == items <==> Count(items, id, on) == 0
    ensures |Others(items, id, on)| + Count(items, id, on) == |items|
  {
    if items != [] { NoneLeftIff(items[1..], id, on); }
  }

  lemma {:induction false} PopTimesCounts(items: seq<Item>, id: Item, on: seq<string>, n: nat)
    ensures var now := PopTimes(items, id, on, n);
            && Count(now, id, on) == (if Count(items, id, on) > n then Count(items, id, on) - n else 0)
            && Others(now, id, on) == Others(items, id, on)
    decreases n
  {
    if n > 0 {
      PopTimesCounts(items, id, on, n - 1);
      PopFirstCounts(PopTimes(items, id, on, n - 1), id, on);
    }
  }

  /** EXACT CONDITION. `delete_list` leaves exactly the items of another identity, in order, if and only if
      there are no more matches than the adapter holds models. */
  lemma DeleteListIff(items: seq<Item>, id: Item, on: seq<string>, n: nat)
    ensures PopTimes(items, id, on, n) == Others(items, id, on) <==> Count(items, id, on) <= n
  {
    PopTimesCounts(items, id, on, n);
    NoneLeftIff(items, id, on);
    NoneLeftIff(PopTimes(items, id, on, n), id, on);
  }

  /** After `load_config` there is one model for each item, which is always enough. */
  lemma DeleteListAfterLoad(items: seq<Item>, id: Item, on: seq<string>)
    ensures PopTimes(items, id, on, |items|) == Others(items, id, on)
  {
    DeleteListIff(items, id, on, |items|);
    NoneLeftIff(items, id, on);
  }

  // ---- deleting while iterating ----

  /** `list.remove(x)`: the first equal item goes. */
  function RemoveFirst(items: seq<Item>, x: Item): seq<Item> {
    if items == [] then []
    else if items[0] == x then items[1..]
    else [items[0]] + RemoveFirst(items[1..], x)
  }

  /** The loop of `__nested_delete_from_list` over its own list, standing at position `i`. */
  function Sweep(items: seq<Item>, v: Item, on: seq<string>, i: nat): seq<Item>
    decreases if i < |items| then |items| - i else 0
  {
    if i >= |items| then items
    else if Similar(v, items[i], on) then
      RemoveFirstShrinks(items, items[i]);
      Sweep(RemoveFirst(items, items[i]), v, on, i + 1)
    else Sweep(items, v, on, i + 1)
  }

  lemma {:induction false} RemoveFirstShrinks(items: seq<Item>, x: Item)
    requires x in items
    ensures |RemoveFirst(items, x)| == |items| - 1
  {
    if items[0] != x { RemoveFirstShrinks(items[1..], x); }
  }

  function Dissimilar(items: seq<Item>, v: Item, on: seq<string>): seq<Item> {
    if items == [] then []
    else (if Similar(v, items[0], on) then [] else [items[0]]) + Dissimilar(items[1..], v, on)
  }

  predicate NoneSimilar(items: seq<Item>, v: Item, on: seq<string>) {
    forall k :: 0 <= k < |items| ==> !Similar(v, items[k], on)
  }

  /** No two matches are next to each other, from position `i` on. */
  predicate Spaced(items: seq<Item>, v: Item, on: seq<string>, i: int) {
    forall k :: 0 <= k && i <= k < |items| - 1 ==> !(Similar(v, items[k], on) && Similar(v, items[k + 1], on))
  }

  lemma {:induction false} RemoveFirstAt(items: seq<Item>, i: nat)
    requires i < |items| && forall k :: 0 <= k < i ==> items[k] != items[i]
    ensures RemoveFirst(items, items[i]) == items[..i] + items[i + 1..]
  {
    if i > 0 {
      assert items[1..][i - 1] == items[i];
      RemoveFirstAt(items[1..], i - 1);
      assert items[..i] + items[i + 1..] == [items[0]] + (items[1..][..i - 1] + items[1..][i..]);
    }
  }

  lemma DissimilarCons(x: Item, items: seq<Item>, v: Item, on: seq<string>)
    ensures Dissimilar([x] + items, v, on) == (if Similar(v, x, on) then [] else [x]) + Dissimilar(items, v, on)
  {
    assert ([x] + items)[0] == x && ([x] + items)[1..] == items;
  }

  lemma Regroup(a: seq<Item>, b: seq<Item>, c: seq<Item>)
    ensures a + (b + c) == (a + b) + c
  {
  }

  lemma {:induction false} DissimilarSplit(a: seq<Item>, b: seq<Item>, v: Item, on: seq<string>)
    ensures Dissimilar(a + b, v, on) == Dissimilar(a, v, on) + Dissimilar(b, v, on)
  {
    if a == [] {
      assert a + b == b;
    } else {
      var x, rest := a[0], a[1..];
      assert a == [x] + rest;
      Regroup([x], rest, b);
      DissimilarCons(x, rest, v, on);
      DissimilarCons(x, rest + b, v, on);
      DissimilarSplit(rest, b, v, on);
      Regroup(if Similar(v, x, on) then [] else [x], Dissimilar(rest, v, on), Dissimilar(b, v, on));
    }
  }

  lemma {:induction false} NoneSimilarStays(items: seq<Item>, v: Item, on: seq<string>)
    requires NoneSimilar(items, v, on)
    ensures Dissimilar(items, v, on) == items
  {
    if items != [] {
      forall k | 0 <= k < |items[1..]| ensures !Similar(v, items[1..][k], on) { assert items[1..][k] == items[k + 1]; }
      NoneSimilarStays(items[1..], v, on);
    }
  }

  lemma DroppingMatch(items: seq<Item>, v: Item, on: seq<string>, i: nat)
    requires i < |items| && Similar(v, items[i], on)
    ensures Dissimilar(items[..i] + items[i + 1..], v, on) == Dissimilar(items, v, on)
  {
    assert items == items[..i] + ([items[i]] + items[i + 1..]);
    DissimilarSplit(items[..i], [items[i]] + items[i + 1..], v, on);
    DissimilarSplit([items[i]], items[i + 1..], v, on);
    DissimilarSplit(items[..i], items[i + 1..], v, on);
  }

  /** The list once the match at position `i` is gone. */
  lemma SpacedStep(items: seq<Item>, v: Item, on: seq<string>, i: nat)
    requires i < |items| && Similar(v, items[i], on) && Spaced(items, v, on, i) && NoneSimilar(items[..i], v, on)
    ensures var now := items[..i] + items[i + 1..];
            && RemoveFirst(items, items[i]) == now && Spaced(now, v, on, i + 1)
            && (i < |now| ==> NoneSimilar(now[..i + 1], v, on))
  {
    var now := items[..i] + items[i + 1..];
    forall k | 0 <= k < i ensures items[k] != items[i] { assert items[..i][k] == items[k]; }
    RemoveFirstAt(items, i);
    forall k | 0 <= k && i + 1 <= k < |now| - 1 ensures !(Similar(v, now[k], on) && Similar(v, now[k + 1], on)) {
      assert now[k] == items[k + 1] && now[k + 1] == items[k + 2];
    }
    if i < |now| {
      assert now[i] == items[i + 1] && now[..i + 1] == items[..i] + [items[i + 1]];
    }
  }

  /** With matches apart, each is removed where the loop stands, and only non-matches are skipped over. */
  lemma {:induction false} SpacedSweepIsClean(items: seq<Item>, v: Item, on: seq<string>, i: nat)
    requires Spaced(items, v, on, i) && i <= |items| && NoneSimilar(items[..i], v, on)
    ensures Sweep(items, v, on, i) == Dissimilar(items, v, on)
    decreases |items| - i
  {
    if i == |items| {
      assert items[..i] == items;
      NoneSimilarStays(items, v, on);
    } else if !Similar(v, items[i], on) {
      assert items[..i + 1] == items[..i] + [items[i]];
      SpacedSweepIsClean(items, v, on, i + 1);
    } else {
      SpacedStep(items, v, on, i);
      DroppingMatch(items, v, on, i);
      var now := items[..i] + items[i + 1..];
      if i < |now| {
        SpacedSweepIsClean(now, v, on, i + 1);
      } else {
        assert now == items[..i];
        NoneSimilarStays(now, v, on);
      }
    }
  }

  predicate HasSimilarBelow(items: seq<Item>, v: Item, on: seq<string>, i: nat) {
    exists k :: 0 <= k < i && k < |items| && Similar(v, items[k], on)
  }

  lemma {:induction false} RemoveFirstIndex(items: seq<Item>, i: nat) returns (j: nat)
    requires i < |items|
    ensures j <= i && items[j] == items[i] && RemoveFirst(items, items[i]) == items[..j] + items[j + 1..]
  {
    if items[0] == items[i] {
      j := 0;
    } else {
      j := RemoveFirstIndex(items[1..], i - 1);
      j := j + 1;
      assert items[..j] + items[j + 1..] == [items[0]] + (items[1..][..j - 1] + items[1..][j..]);
    }
  }

  /** The sweep from `i` on leaves a match behind. */
  predicate LeavesMatch(items: seq<Item>, v: Item, on: seq<string>, i: nat) {
    exists x :: x in Sweep(items, v, on, i) && Similar(v, x, on)
  }

  lemma LeavesAfterRemove(items: seq<Item>, v: Item, on: seq<string>, i: nat)
    requires i < |items| && Similar(v, items[i], on) && LeavesMatch(RemoveFirst(items, items[i]), v, on, i + 1)
    ensures LeavesMatch(items, v, on, i)
  {
    assert Sweep(items, v, on, i) == Sweep(RemoveFirst(items, items[i]), v, on, i + 1);
  }

  lemma LeavesAfterSkip(items: seq<Item>, v: Item, on: seq<string>, i: nat)
    requires i < |items| && !Similar(v, items[i], on) && LeavesMatch(items, v, on, i + 1)
    ensures LeavesMatch(items, v, on, i)
  {
    assert Sweep(items, v, on, i) == Sweep(items, v, on, i + 1);
  }

  /** Removing the match at `i` keeps a match below it. */
  lemma PassedAfterRemove(items: seq<Item>, v: Item, on: seq<string>, i: nat)
    requires i < |items| && Similar(v, items[i], on)
    requires HasSimilarBelow(items, v, on, i) || (i < |items| - 1 && Similar(v, items[i + 1], on))
    ensures HasSimilarBelow(RemoveFirst(items, items[i]), v, on, i + 1)
  {
    var j := RemoveFirstIndex(items, i);
    var now := RemoveFirst(items, items[i]);
    if j < i {
      assert now[i - 1] == items[i];
    } else if HasSimilarBelow(items, v, on, i) {
      var k :| 0 <= k < i && k < |items| && Similar(v, items[k], on);
      assert now[k] == items[k];
    } else {
      assert now[i] == items[i + 1];
    }
  }

  /** A match that the loop has passed is never removed without another taking its place. */
  lemma {:induction false} PassedMatchStays(items: seq<Item>, v: Item, on: seq<string>, i: nat)
    requires HasSimilarBelow(items, v, on, i)
    ensures LeavesMatch(items, v, on, i)
    decreases if i < |items| then |items| - i else 0
  {
    if i >= |items| {
      var k :| 0 <= k < i && k < |items| && Similar(v, items[k], on);
      assert items[k] in items;
    } else if !Similar(v, items[i], on) {
      assert HasSimilarBelow(items, v, on, i + 1);
      PassedMatchStays(items, v, on, i + 1);
      LeavesAfterSkip(items, v, on, i);
    } else {
      RemoveFirstShrinks(items, items[i]);
      PassedAfterRemove(items, v, on, i);
      PassedMatchStays(RemoveFirst(items, items[i]), v, on, i + 1);
      LeavesAfterRemove(items, v, on, i);
    }
  }

  /** Two adjacent matches at `k`. */
  predicate Adjacent(items: seq<Item>, v: Item, on: seq<string>, k: nat) {
    k < |items| - 1 && Similar(v, items[k], on) && Similar(v, items[k + 1], on)
  }

  /** Removing the match at `i` moves two adjacent ones further on, or passes one of them. */
  lemma AdjacentAfterRemove(items: seq<Item>, v: Item, on: seq<string>, i: nat, k: nat)
    requires i <= k && Adjacent(items, v, on, k) && Similar(v, items[i], on)
    ensures var now := RemoveFirst(items, items[i]);
            HasSimilarBelow(now, v, on, i + 1) || (k > i + 1 && Adjacent(now, v, on, k - 1))
  {
    var j := RemoveFirstIndex(items, i);
    var now := RemoveFirst(items, items[i]);
    if j < i || k <= i + 1 {
      if j < i { assert now[i - 1] == items[i]; }
      if j == i { assert now[i] == items[i + 1]; }
    } else {
      assert now[k - 1] == items[k] && now[k] == items[k + 1];
    }
  }

  /** Of two adjacent matches still ahead, one is skipped. */
  lemma {:induction false} AdjacentMatchStays(items: seq<Item>, v: Item, on: seq<string>, i: nat, k: nat)
    requires i <= k && Adjacent(items, v, on, k)
    ensures LeavesMatch(items, v, on, i)
    decreases |items| - i
  {
    if !Similar(v, items[i], on) {
      AdjacentMatchStays(items, v, on, i + 1, k);
      LeavesAfterSkip(items, v, on, i);
    } else {
      var now := RemoveFirst(items, items[i]);
      RemoveFirstShrinks(items, items[i]);
      AdjacentAfterRemove(items, v, on, i, k);
      if HasSimilarBelow(now, v, on, i + 1) {
        PassedMatchStays(now, v, on, i + 1);
      } else {
        AdjacentMatchStays(now, v, on, i + 1, k - 1);
      }
      LeavesAfterRemove(items, v, on, i);
    }
  }

  lemma {:induction false} DissimilarHasNone(items: seq<Item>, v: Item, on: seq<string>, x: Item)
    ensures x in Dissimilar(items, v, on) ==> !Similar(v, x, on)
  {
    if items != [] { DissimilarHasNone(items[1..], v, on, x); }
  }

  /** EXACT CONDITION. Removing matches from the list being iterated leaves exactly the other items, in
      order, if and only if no two matches are next to each other. */
  lemma SweepIsCleanIff(items: seq<Item>, v: Item, on: seq<string>)
    ensures Sweep(items, v, on, 0) == Dissimilar(items, v, on) <==> Spaced(items, v, on, 0)
  {
    if Spaced(items, v, on, 0) {
      SpacedSweepIsClean(items, v, on, 0);
    } else {
      var k: nat :| k < |items| - 1 && Similar(v, items[k], on) && Similar(v, items[k + 1], on);
      assert Adjacent(items, v, on, k);
      AdjacentMatchStays(items, v, on, 0, k);
      var x :| x in Sweep(items, v, on, 0) && Similar(v, x, on);
      DissimilarHasNone(items, v, on, x);
    }
  }

  /** With unique identities, deleting while iterating and popping give the same list. */
  lemma SweepWithUniqueIds(items: seq<Item>, v: Item, on: seq<string>)
    requires AllHaveKeys(items, on) && HasKeys(v, on) && UniqueIds(items, on)
    ensures Sweep(items, v, on, 0) == Others(items, FilterOn(v, on), on)
  {
    forall k | 0 <= k < |items| ensures Similar(v, items[k], on) <==> FilterOn(items[k], on) == FilterOn(v, on) {
      assert items[k] in items;
      SimilarMeansSameIdentity(v, items[k], on);
    }
    forall k | 0 <= k < |items| - 1 ensures !(Similar(v, items[k], on) && Similar(v, items[k + 1], on)) {
      assert FilterOn(items[k], on) != FilterOn(items[k + 1], on);
    }
    SweepIsCleanIff(items, v, on);
    DissimilarIsOthers(items, v, on);
  }

  lemma {:induction false} DissimilarIsOthers(items: seq<Item>, v: Item, on: seq<string>)
    requires AllHaveKeys(items, on) && HasKeys(v, on)
    ensures Dissimilar(items, v, on) == Others(items, FilterOn(v, on), on)
  {
    if items != [] {
      assert items[0] in items;
      SimilarMeansSameIdentity(v, items[0], on);
      forall x | x in items[1..] ensures HasKeys(x, on) { assert x in items; }
      DissimilarIsOthers(items[1..], v, on);
    }
  }
}
