/** Loading a configuration file and everything it extends. */
module ConfigLoader {
  import opened Common
  import opened ConfigTree

  /** `dict_merge`: what is already there wins, dictionaries are merged key by key. */
  function Merge(a: Tree, b: Tree): (r: Tree)
    ensures a.Dict? ==> r.Dict?
    decreases a
  {
    if a.Dict? && b.Dict? then
      Dict(map k | k in a.m.Keys + b.m.Keys ::
        if k in a.m then (if k in b.m then Merge(a.m[k], b.m[k]) else a.m[k]) else b.m[k])
    else a
  }

  /** `a` has a value at the path, or something other than a dictionary on the way to it. */
  predicate Occupied(a: Tree, path: seq<string>)
    decreases |path|
  {
    !a.Dict? || path == [] || (path[0] in a.m && Occupied(a.m[path[0]], path[1..]))
  }

  /** EXACT CONTENT. What can be read after a merge, at every path: the base where it is occupied, the merged
      file elsewhere. */
  lemma {:induction false} MergeLeaves(a: Tree, b: Tree, path: seq<string>)
    requires a.Dict?
    ensures LeafAt(Merge(a, b), path) ==
            if Occupied(a, path) then LeafAt(a, path) else LeafAt(if b.Dict? then b else EMPTY, path)
    decreases |path|
  {
    if LeafAt(a, path).Some? { LeafIsOccupied(a, path); }
    if path != [] && b.Dict? {
      var k := path[0];
      var m := Merge(a, b);
      if k in m.m {
        assert LeafAt(m, path) == LeafAt(m.m[k], path[1..]);
      }
      if k in a.m {
        assert LeafAt(a, path) == LeafAt(a.m[k], path[1..]);
        if k in b.m {
          assert LeafAt(b, path) == LeafAt(b.m[k], path[1..]);
          if a.m[k].Dict? {
            MergeLeaves(a.m[k], b.m[k], path[1..]);
          }
        }
      } else if k in b.m {
        assert LeafAt(b, path) == LeafAt(b.m[k], path[1..]);
      }
    }
  }

  /** Merging `b` into `x` changes nothing. */
  predicate Absorbed(x: Tree, b: Tree)
    decreases x
  {
    x.Dict? && b.Dict? ==>
      forall k :: k in b.m ==> k in x.m && Absorbed(x.m[k], b.m[k])
  }

  lemma {:induction false} AbsorbedIff(x: Tree, b: Tree)
    ensures Absorbed(x, b) <==> Merge(x, b) == x
    decreases x
  {
    if x.Dict? && b.Dict? {
      var m := Merge(x, b).m;
      forall k | k in x.m && k in b.m {
        AbsorbedIff(x.m[k], b.m[k]);
      }
      if Absorbed(x, b) {
        assert m == x.m;
      } else {
        var k :| k in b.m && !(k in x.m && Absorbed(x.m[k], b.m[k]));
        assert k in m;
        if k in x.m { assert m[k] == Merge(x.m[k], b.m[k]) != x.m[k]; }
      }
    }
  }

  lemma {:induction false} MergeAbsorbs(a: Tree, b: Tree)
    ensures Absorbed(Merge(a, b), b)
    decreases a
  {
    if a.Dict? && b.Dict? {
      forall k | k in b.m ensures k in Merge(a, b).m && Absorbed(Merge(a, b).m[k], b.m[k]) {
        if k in a.m {
          MergeAbsorbs(a.m[k], b.m[k]);
        } else {
          AbsorbsItself(b.m[k]);
        }
      }
    }
  }

  lemma {:induction false} AbsorbsItself(b: Tree)
    ensures Absorbed(b, b)
    decreases b
  {
    if b.Dict? {
      forall k | k in b.m ensures Absorbed(b.m[k], b.m[k]) { AbsorbsItself(b.m[k]); }
    }
  }

  /** What has been absorbed stays absorbed under further merges. */
  lemma {:induction false} AbsorbedStays(x: Tree, b: Tree, c: Tree)
    requires Absorbed(x, b)
    ensures Absorbed(Merge(x, c), b)
    decreases x
  {
    if x.Dict? && b.Dict? && c.Dict? {
      forall k | k in b.m ensures k in Merge(x, c).m && Absorbed(Merge(x, c).m[k], b.m[k]) {
        assert k in x.m && Absorbed(x.m[k], b.m[k]);
        if k in c.m { AbsorbedStays(x.m[k], b.m[k], c.m[k]); }
      }
    }
  }

  // ---- extends ----

  /** The files that can be opened, by the name they are extended under. */
  type Files = map<string, Tree>

  function Content(files: Files, name: string): Tree {
    if name in files && files[name].Dict? then files[name] else EMPTY
  }

  function Names(items: seq<Tree>): seq<string> {
    if items == [] then []
    else (if items[0].Text? then [items[0].s] else []) + Names(items[1..])
  }

  function Extends(t: Tree): seq<string> {
    if t.Dict? && "extends" in t.m && t.m["extends"].List? then Names(t.m["extends"].items) else []
  }

  lemma {:induction false} NamesAre(items: seq<Tree>)
    requires forall i :: 0 <= i < |items| ==> items[i].Text?
    ensures |Names(items)| == |items| && forall i :: 0 <= i < |items| ==> items[i] == Text(Names(items)[i])
  {
    if items != [] {
      forall i | 0 <= i < |items[1..]| ensures items[1..][i].Text? { assert items[1..][i] == items[i + 1]; }
      NamesAre(items[1..]);
      forall i | 0 < i < |items| ensures items[i] == Text(Names(items)[i]) {
        assert items[1..][i - 1] == items[i];
      }
    }
  }

  lemma {:induction false} NamesHas(items: seq<Tree>, name: string)
    ensures name in Names(items) <==> Text(name) in items
  {
    if items != [] {
      NamesHas(items[1..], name);
      assert items == [items[0]] + items[1..];
    }
  }

  /** What a file extends are the texts listed under its key "extends", in their order; without such a list, nothing. */
  lemma ExtendsAre(t: Tree)
    ensures forall name ::
              name in Extends(t) <==>
                && At(t, ["extends"]).Some? && At(t, ["extends"]).value.List?
                && Text(name) in At(t, ["extends"]).value.items
    ensures At(t, ["extends"]).Some? && At(t, ["extends"]).value.List?
            && (forall i :: 0 <= i < |At(t, ["extends"]).value.items| ==> At(t, ["extends"]).value.items[i].Text?) ==>
              var items := At(t, ["extends"]).value.items;
              |Extends(t)| == |items| && forall i :: 0 <= i < |items| ==> items[i] == Text(Extends(t)[i])
    ensures At(t, ["extends"]).None? || !At(t, ["extends"]).value.List? ==> Extends(t) == []
  {
    assert ["extends"][1..] == [];
    if t.Dict? && "extends" in t.m && t.m["extends"].List? {
      var items := t.m["extends"].items;
      assert At(t, ["extends"]) == Some(List(items));
      forall name ensures name in Extends(t) <==> Text(name) in items { NamesHas(items, name); }
      if forall i :: 0 <= i < |items| ==> items[i].Text? { NamesAre(items); }
    }
  }

  /** No file extends itself, directly or not: `rank` decreases along every extension. */
  ghost predicate Acyclic(files: Files, rank: map<string, nat>) {
    forall f, g :: g in Extends(Content(files, f)) ==> Rank(rank, g) < Rank(rank, f)
  }

  ghost function Rank(rank: map<string, nat>, name: string): nat {
    if name in rank then rank[name] else 0
  }

  /** Each name is extended by the one before it. */
  predicate Chain(p: seq<string>, files: Files) {
    forall i :: 0 <= i < |p| - 1 ==> p[i + 1] in Extends(Content(files, p[i]))
  }

  ghost predicate NoCycle(files: Files) {
    forall p :: Chain(p, files) && |p| > 1 ==> p[0] != p[|p| - 1]
  }

  lemma {:induction false} ChainDescends(p: seq<string>, files: Files, rank: map<string, nat>)
    requires Acyclic(files, rank) && Chain(p, files) && |p| > 1
    ensures Rank(rank, p[|p| - 1]) < Rank(rank, p[0])
  {
    assert p[1] in Extends(Content(files, p[0]));
    if |p| > 2 { ChainDescends(p[1..], files, rank); }
  }

  /** How many files the longest chain from one of the names has, counted up to `n`. */
  function Depth(names: seq<string>, files: Files, n: nat): nat
    decreases n, |names|
  {
    if n == 0 || names == [] then 0
    else
      var head, tail := 1 + Depth(Extends(Content(files, names[0])), files, n - 1), Depth(names[1..], files, n);
      if head > tail then head else tail
  }

  lemma {:induction false} DepthIsAChain(names: seq<string>, files: Files, n: nat) returns (p: seq<string>)
    requires Depth(names, files, n) >= n > 0
    ensures |p| == n && p[0] in names && Chain(p, files)
    decreases n, |names|
  {
    var next := Extends(Content(files, names[0]));
    if n == 1 {
      p := [names[0]];
    } else if 1 + Depth(next, files, n - 1) >= n {
      var rest := DepthIsAChain(next, files, n - 1);
      p := [names[0]] + rest;
    } else {
      p := DepthIsAChain(names[1..], files, n);
    }
  }

  /** A depth below the limit is the same under a higher one. */
  lemma {:induction false} DepthSettles(names: seq<string>, files: Files, n: nat)
    requires Depth(names, files, n) < n
    ensures Depth(names, files, n + 1) == Depth(names, files, n)
    decreases n, |names|
  {
    if names != [] {
      DepthSettles(Extends(Content(files, names[0])), files, n - 1);
      DepthSettles(names[1..], files, n);
    }
  }

  lemma {:induction false} DepthOf(names: seq<string>, files: Files, n: nat, name: string)
    requires name in names && n > 0
    ensures Depth(names, files, n) > Depth(Extends(Content(files, name)), files, n - 1)
    decreases |names|
  {
    if names[0] != name { DepthOf(names[1..], files, n, name); }
  }

  /** More names than there are files: one comes twice. */
  lemma {:induction false} SomeRepeats(p: seq<string>, among: set<string>) returns (i: nat, j: nat)
    requires |p| > |among| && forall x :: x in p ==> x in among
    ensures i < j < |p| && p[i] == p[j]
    decreases |p|
  {
    assert p[0] in among;
    if p[0] in p[1..] {
      i := 0;
      j :| 0 < j < |p| && p[j] == p[0];
    } else {
      i, j := SomeRepeats(p[1..], among - {p[0]});
      i, j := i + 1, j + 1;
    }
  }

  lemma RepeatIsACycle(p: seq<string>, files: Files, i: nat, j: nat)
    requires Chain(p, files) && i < j < |p| && p[i] == p[j]
    ensures !NoCycle(files)
  {
    var cycle := p[i..j + 1];
    forall k | 0 <= k < |cycle| - 1 ensures cycle[k + 1] in Extends(Content(files, cycle[k])) {
      assert cycle[k] == p[i + k] && cycle[k + 1] == p[i + k + 1];
    }
    assert Chain(cycle, files) && cycle[0] == cycle[|cycle| - 1];
  }

  lemma DepthIsBounded(names: seq<string>, files: Files)
    requires NoCycle(files)
    ensures Depth(names, files, |files| + 2) < |files| + 2
  {
    if Depth(names, files, |files| + 2) >= |files| + 2 {
      var p := DepthIsAChain(names, files, |files| + 2);
      var front := p[..|files| + 1];
      forall x | x in front ensures x in files.Keys {
        var k :| 0 <= k < |front| && front[k] == x;
        assert p[k + 1] in Extends(Content(files, p[k]));
      }
      assert |files| == |files.Keys|;
      var i, j := SomeRepeats(front, files.Keys);
      RepeatIsACycle(p, files, i, j);
    }
  }

  /** ACYCLIC. A rank exists if and only if no file extends itself, directly or through others. */
  lemma RankExistsIff(files: Files)
    ensures (exists rank :: Acyclic(files, rank)) <==> NoCycle(files)
  {
    if rank :| Acyclic(files, rank) {
      forall p | Chain(p, files) && |p| > 1 ensures p[0] != p[|p| - 1] {
        ChainDescends(p, files, rank);
      }
    }
    if NoCycle(files) {
      var n := |files| + 2;
      var rank := map f | f in files :: Depth(Extends(Content(files, f)), files, n);
      forall f, g | g in Extends(Content(files, f)) ensures Rank(rank, g) < Rank(rank, f) {
        DepthIsBounded(Extends(Content(files, f)), files);
        DepthSettles(Extends(Content(files, f)), files, n);
        DepthOf(Extends(Content(files, f)), files, n + 1, g);
      }
      assert Acyclic(files, rank);
    }
  }

  ghost predicate Below(names: seq<string>, rank: map<string, nat>, bound: nat) {
    forall n :: n in names ==> Rank(rank, n) < bound
  }

  /** The order in which files are merged: each before what it extends, and that before its successor. */
  ghost function Preorder(names: seq<string>, files: Files, rank: map<string, nat>, bound: nat): seq<string>
    requires Acyclic(files, rank) && Below(names, rank, bound)
    decreases bound, |names|
  {
    if names == [] then []
    else
      assert names[0] in names;
      [names[0]] + Preorder(Extends(Content(files, names[0])), files, rank, Rank(rank, names[0]))
        + Preorder(names[1..], files, rank, bound)
  }

  function Fold(config: Tree, names: seq<string>, files: Files): (r: Tree)
    ensures config.Dict? ==> r.Dict?
    decreases |names|
  {
    if names == [] then config else Fold(Merge(config, Content(files, names[0])), names[1..], files)
  }

  lemma {:induction false} FoldAppend(config: Tree, a: seq<string>, b: seq<string>, files: Files)
    ensures Fold(config, a + b, files) == Fold(Fold(config, a, files), b, files)
    decreases |a|
  {
    if a == [] {
      assert a + b == b;
    } else {
      assert (a + b)[0] == a[0] && (a + b)[1..] == a[1..] + b;
      FoldAppend(Merge(config, Content(files, a[0])), a[1..], b, files);
    }
  }

  /** The names in order, each only the first time it occurs and only if not `seen` before. */
  function Firsts(names: seq<string>, seen: seq<string>): seq<string>
    decreases |names|
  {
    if names == [] then []
    else if names[0] in seen then Firsts(names[1..], seen)
    else [names[0]] + Firsts(names[1..], seen + [names[0]])
  }

  /** ONCE IS ENOUGH. A file that several others extend is merged several times; only the first counts. */
  lemma {:induction false} RepeatsChangeNothing(config: Tree, names: seq<string>, seen: seq<string>, files: Files)
    requires forall n :: n in seen ==> Absorbed(config, Content(files, n))
    ensures Fold(config, names, files) == Fold(config, Firsts(names, seen), files)
    decreases |names|
  {
    if names != [] {
      var c := Content(files, names[0]);
      var next := Merge(config, c);
      forall n | n in seen ensures Absorbed(next, Content(files, n)) {
        AbsorbedStays(config, Content(files, n), c);
      }
      if names[0] in seen {
        AbsorbedIff(config, c);
        RepeatsChangeNothing(config, names[1..], seen, files);
      } else {
        MergeAbsorbs(config, c);
        RepeatsChangeNothing(next, names[1..], seen + [names[0]], files);
        var rest := Firsts(names[1..], seen + [names[0]]);
        assert ([names[0]] + rest)[1..] == rest;
      }
    }
  }

  /** Every value that can be read in the base is still there after any number of merges. */
  lemma {:induction false} BaseValuesStay(config: Tree, names: seq<string>, files: Files, path: seq<string>)
    requires config.Dict? && LeafAt(config, path).Some?
    ensures LeafAt(Fold(config, names, files), path) == LeafAt(config, path)
    decreases |names|
  {
    if names != [] {
      var c := Content(files, names[0]);
      LeafIsOccupied(config, path);
      MergeLeaves(config, c, path);
      BaseValuesStay(Merge(config, c), names[1..], files, path);
    }
  }

  lemma {:induction false} LeafIsOccupied(t: Tree, path: seq<string>)
    requires At(t, path).Some?
    ensures Occupied(t, path)
    decreases |path|
  {
    if t.Dict? && path != [] {
      LeafIsOccupied(t.m[path[0]], path[1..]);
    }
  }

  lemma MergedValueStays(config: Tree, name: string, after: seq<string>, files: Files, path: seq<string>)
    requires config.Dict? && !Occupied(config, path) && LeafAt(Content(files, name), path).Some?
    ensures LeafAt(Fold(Merge(config, Content(files, name)), after, files), path) == LeafAt(Content(files, name), path)
  {
    MergeLeaves(config, Content(files, name), path);
    BaseValuesStay(Merge(config, Content(files, name)), after, files, path);
  }

  lemma FoldStep(config: Tree, name: string, after: seq<string>, files: Files)
    ensures Fold(config, [name] + after, files) == Fold(Merge(config, Content(files, name)), after, files)
  {
    assert ([name] + after)[0] == name && ([name] + after)[1..] == after;
  }

  /** A later file is what is read at a path when no earlier one occupies it. */
  lemma FirstFileWins(config: Tree, before: seq<string>, name: string, after: seq<string>,
                      files: Files, path: seq<string>)
    requires config.Dict? && !Occupied(Fold(config, before, files), path)
    requires LeafAt(Content(files, name), path).Some?
    ensures LeafAt(Fold(config, before + ([name] + after), files), path) == LeafAt(Content(files, name), path)
  {
    FoldAppend(config, before, [name] + after, files);
    FoldStep(Fold(config, before, files), name, after, files);
    MergedValueStays(Fold(config, before, files), name, after, files, path);
  }

  // ---- which file is read ----

  /** The file can be opened, and its "extends" list names `g`. */
  predicate Lists(files: Files, f: string, g: string) {
    && f in files && files[f].Dict?
    && At(files[f], ["extends"]).Some? && At(files[f], ["extends"]).value.List?
    && Text(g) in At(files[f], ["extends"]).value.items
  }

  lemma ListsIff(files: Files, f: string, g: string)
    ensures g in Extends(Content(files, f)) <==> Lists(files, f, g)
  {
    ExtendsAre(Content(files, f));
    assert ["extends"][1..] == [];
  }

  /** A trail leads from one of the names to `g`, each file listing the next. */
  predicate IsTrail(p: seq<string>, files: Files, names: seq<string>, g: string) {
    && p != [] && p[0] in names && p[|p| - 1] == g
    && forall i :: 0 <= i < |p| - 1 ==> Lists(files, p[i], p[i + 1])
  }

  ghost predicate Reached(files: Files, names: seq<string>, g: string) {
    exists p :: IsTrail(p, files, names, g)
  }

  lemma ReachedThrough(files: Files, names: seq<string>, f: string, g: string)
    requires f in names && Reached(files, Extends(Content(files, f)), g)
    ensures Reached(files, names, g)
  {
    var p :| IsTrail(p, files, Extends(Content(files, f)), g);
    ListsIff(files, f, p[0]);
    var q := [f] + p;
    forall i | 0 <= i < |q| - 1 ensures Lists(files, q[i], q[i + 1]) {
      if i > 0 { assert Lists(files, p[i - 1], p[i]); }
    }
    assert IsTrail(q, files, names, g);
  }

  lemma ReachedItself(files: Files, names: seq<string>, g: string)
    requires g in names
    ensures Reached(files, names, g)
  {
    assert IsTrail([g], files, names, g);
  }

  lemma ReachedMore(files: Files, names: seq<string>, more: seq<string>, g: string)
    requires Reached(files, names, g) && forall n :: n in names ==> n in more
    ensures Reached(files, more, g)
  {
    var p :| IsTrail(p, files, names, g);
    assert IsTrail(p, files, more, g);
  }

  /** Only files that a trail reaches are merged. */
  lemma {:induction false} MergedIsReached(names: seq<string>, files: Files, rank: map<string, nat>, bound: nat,
                                           g: string)
    requires Acyclic(files, rank) && Below(names, rank, bound) && g in Preorder(names, files, rank, bound)
    ensures Reached(files, names, g)
    decreases bound, |names|
  {
    assert names[0] in names;
    var below := Extends(Content(files, names[0]));
    if g == names[0] {
      ReachedItself(files, names, g);
    } else if g in Preorder(below, files, rank, Rank(rank, names[0])) {
      MergedIsReached(below, files, rank, Rank(rank, names[0]), g);
      ReachedThrough(files, names, names[0], g);
    } else {
      MergedIsReached(names[1..], files, rank, bound, g);
      ReachedMore(files, names[1..], names, g);
    }
  }

  /** A merge takes no path that neither side takes. */
  lemma {:induction false} OccupiedMerge(a: Tree, b: Tree, path: seq<string>)
    requires a.Dict? && b.Dict? && !Occupied(a, path) && !Occupied(b, path)
    ensures !Occupied(Merge(a, b), path)
    decreases |path|
  {
    var k := path[0];
    if k in a.m && k in b.m { OccupiedMerge(a.m[k], b.m[k], path[1..]); }
  }

  /** No file of the list takes the path. */
  predicate NoneTakes(files: Files, names: seq<string>, path: seq<string>) {
    forall n :: n in names ==> !Occupied(Content(files, n), path)
  }

  lemma {:induction false} StillFree(config: Tree, names: seq<string>, files: Files, path: seq<string>)
    requires config.Dict? && !Occupied(config, path) && NoneTakes(files, names, path)
    ensures Fold(config, names, files).Dict? && !Occupied(Fold(config, names, files), path)
    decreases |names|
  {
    if names != [] {
      OccupiedMerge(config, Content(files, names[0]), path);
      StillFree(Merge(config, Content(files, names[0])), names[1..], files, path);
    }
  }

  lemma PreorderCons(names: seq<string>, files: Files, rank: map<string, nat>, bound: nat)
    requires Acyclic(files, rank) && Below(names, rank, bound) && names != []
    ensures Below(names[1..], rank, bound) && Rank(rank, names[0]) < bound
    ensures Below(Extends(Content(files, names[0])), rank, Rank(rank, names[0]))
    ensures Preorder(names, files, rank, bound)
            == [names[0]] + Preorder(Extends(Content(files, names[0])), files, rank, Rank(rank, names[0]))
               + Preorder(names[1..], files, rank, bound)
  {
    assert names[0] in names;
    forall n | n in names[1..] ensures n in names {}
  }

  lemma JoinRight(a: seq<string>, b: seq<string>, c: seq<string>, d: seq<string>)
    ensures a + b + (c + d) == (a + b + c) + d
  {
  }

  lemma FrontTail(names: seq<string>, j: nat)
    requires 0 < j <= |names|
    ensures names[..j] != [] && names[..j][0] == names[0] && names[..j][1..] == names[1..][..j - 1]
    ensures names[j..] == names[1..][j - 1..]
  {
  }

  lemma {:induction false} PreorderSplit(names: seq<string>, j: nat, files: Files, rank: map<string, nat>, bound: nat)
    requires Acyclic(files, rank) && j <= |names|
    requires Below(names, rank, bound) && Below(names[..j], rank, bound) && Below(names[j..], rank, bound)
    ensures Preorder(names, files, rank, bound)
            == Preorder(names[..j], files, rank, bound) + Preorder(names[j..], files, rank, bound)
    decreases j
  {
    if j == 0 {
      assert names[..0] == [] && names[0..] == names;
    } else {
      var front, tail := names[..j], names[1..];
      FrontTail(names, j);
      PreorderCons(names, files, rank, bound);
      PreorderCons(front, files, rank, bound);
      PreorderSplit(tail, j - 1, files, rank, bound);
      var below := Preorder(Extends(Content(files, names[0])), files, rank, Rank(rank, names[0]));
      var left := Preorder(tail[..j - 1], files, rank, bound);
      var right := Preorder(tail[j - 1..], files, rank, bound);
      JoinRight([names[0]], below, left, right);
    }
  }

  lemma BelowParts(names: seq<string>, j: nat, rank: map<string, nat>, bound: nat)
    requires Below(names, rank, bound) && j <= |names|
    ensures Below(names[..j], rank, bound) && Below(names[j..], rank, bound)
  {
    forall n | n in names[..j] ensures n in names {}
    forall n | n in names[j..] ensures n in names {}
  }

  /** Where a name of the list starts in the order of merging: after all that the names before it reach. */
  lemma PreorderAt(names: seq<string>, j: nat, files: Files, rank: map<string, nat>, bound: nat)
    returns (later: seq<string>)
    requires Acyclic(files, rank) && Below(names, rank, bound) && j < |names|
    ensures Below(names[..j], rank, bound)
    ensures Below(Extends(Content(files, names[j])), rank, Rank(rank, names[j]))
    ensures Preorder(names, files, rank, bound)
            == Preorder(names[..j], files, rank, bound)
               + ([names[j]] + Preorder(Extends(Content(files, names[j])), files, rank, Rank(rank, names[j])) + later)
  {
    BelowParts(names, j, rank, bound);
    PreorderSplit(names, j, files, rank, bound);
    PreorderCons(names[j..], files, rank, bound);
    later := Preorder(names[j..][1..], files, rank, bound);
  }

  /** A path that neither the base nor any file reached before takes is read from the next file merged. */
  lemma ReadAfter(config: Tree, before: seq<string>, name: string, rest: seq<string>, files: Files, path: seq<string>)
    requires config.Dict? && !Occupied(config, path) && NoneTakes(files, before, path)
    requires LeafAt(Content(files, name), path).Some?
    ensures LeafAt(Fold(config, before + [name] + rest, files), path) == LeafAt(Content(files, name), path)
  {
    StillFree(config, before, files, path);
    assert before + [name] + rest == before + ([name] + rest);
    FirstFileWins(config, before, name, rest, files, path);
  }

  lemma NoneBefore(names: seq<string>, files: Files, rank: map<string, nat>, bound: nat, path: seq<string>)
    requires Acyclic(files, rank) && Below(names, rank, bound)
    requires forall g :: Reached(files, names, g) ==> !Occupied(Content(files, g), path)
    ensures NoneTakes(files, Preorder(names, files, rank, bound), path)
  {
    forall n | n in Preorder(names, files, rank, bound) ensures !Occupied(Content(files, n), path) {
      MergedIsReached(names, files, rank, bound, n);
    }
  }

  lemma RegroupedOnce(a: seq<string>, x: string, b: seq<string>, c: seq<string>)
    ensures a + ([x] + b + c) == a + [x] + (b + c)
  {
  }

  /** LISTED FILES ARE READ. A value of a file that is loaded directly is readable at the end, if nothing stored before
      and no file that the names before it reach takes its path. */
  lemma ListedFileIsRead(config: Tree, names: seq<string>, j: nat, files: Files, rank: map<string, nat>, bound: nat,
                         path: seq<string>)
    requires config.Dict? && Acyclic(files, rank) && Below(names, rank, bound) && j < |names|
    requires names[j] in files && files[names[j]].Dict? && LeafAt(files[names[j]], path).Some?
    requires !Occupied(config, path)
    requires forall g :: Reached(files, names[..j], g) ==> !Occupied(Content(files, g), path)
    ensures LeafAt(Fold(config, Preorder(names, files, rank, bound), files), path) == LeafAt(files[names[j]], path)
  {
    var later := PreorderAt(names, j, files, rank, bound);
    var before := Preorder(names[..j], files, rank, bound);
    var below := Preorder(Extends(Content(files, names[j])), files, rank, Rank(rank, names[j]));
    NoneBefore(names[..j], files, rank, bound, path);
    RegroupedOnce(before, names[j], below, later);
    ReadAfter(config, before, names[j], below + later, files, path);
  }

  /** Trails that start at an entry of the list start at that entry alone. */
  lemma ReachedByEntries(files: Files, items: seq<Tree>, below: seq<string>, k: nat, path: seq<string>)
    requires k <= |items| == |below| && forall i :: 0 <= i < |items| ==> items[i] == Text(below[i])
    requires forall n, i :: 0 <= i < k && items[i].Text? && Reached(files, [items[i].s], n) ==>
                              !Occupied(Content(files, n), path)
    ensures forall n :: Reached(files, below[..k], n) ==> !Occupied(Content(files, n), path)
  {
    forall n | Reached(files, below[..k], n) ensures !Occupied(Content(files, n), path) {
      var p :| IsTrail(p, files, below[..k], n);
      var i :| 0 <= i < k && below[i] == p[0];
      assert items[i] == Text(below[i]) && IsTrail(p, files, [items[i].s], n);
    }
  }

  lemma NoneTakesAll(files: Files, a: seq<string>, name: string, b: seq<string>, path: seq<string>)
    requires NoneTakes(files, a, path) && !Occupied(Content(files, name), path) && NoneTakes(files, b, path)
    ensures NoneTakes(files, a + [name] + b, path)
  {
  }

  lemma Regrouped(a: seq<string>, x: string, b: seq<string>, y: string, c: seq<string>, d: seq<string>, e: seq<string>)
    ensures a + ([x] + (b + ([y] + c + d)) + e) == (a + [x] + b) + [y] + (c + d + e)
  {
  }

  /** EXTENDED FILES ARE READ. The same for the file named at position `k` of the "extends" list of a file that is
      loaded: what is merged before it are the files that the earlier names reach, the file that lists it, and what
      the earlier entries of the list reach. In particular it comes before everything loaded later. */
  lemma ExtendedFileIsRead(config: Tree, names: seq<string>, j: nat, items: seq<Tree>, k: nat, g: string, files: Files,
                           rank: map<string, nat>, bound: nat, path: seq<string>)
    requires config.Dict? && Acyclic(files, rank) && Below(names, rank, bound) && j < |names|
    requires names[j] in files && files[names[j]].Dict? && At(files[names[j]], ["extends"]) == Some(List(items))
    requires k < |items| && items[k] == Text(g) && forall i :: 0 <= i < |items| ==> items[i].Text?
    requires g in files && files[g].Dict? && LeafAt(files[g], path).Some?
    requires !Occupied(config, path) && !Occupied(files[names[j]], path)
    requires forall n :: Reached(files, names[..j], n) ==> !Occupied(Content(files, n), path)
    requires forall n, i :: 0 <= i < k && items[i].Text? && Reached(files, [items[i].s], n) ==>
                              !Occupied(Content(files, n), path)
    ensures LeafAt(Fold(config, Preorder(names, files, rank, bound), files), path) == LeafAt(files[g], path)
  {
    var f := names[j];
    var below := Extends(Content(files, f));
    ExtendsAre(files[f]);
    assert items[k] == Text(below[k]) && below[k] == g;
    var later := PreorderAt(names, j, files, rank, bound);
    var rest := PreorderAt(below, k, files, rank, Rank(rank, f));
    var before, first := Preorder(names[..j], files, rank, bound), Preorder(below[..k], files, rank, Rank(rank, f));
    var deeper := Preorder(Extends(Content(files, g)), files, rank, Rank(rank, g));
    NoneBefore(names[..j], files, rank, bound, path);
    ReachedByEntries(files, items, below, k, path);
    NoneBefore(below[..k], files, rank, Rank(rank, f), path);
    NoneTakesAll(files, before, f, first, path);
    Regrouped(before, f, first, g, deeper, rest, later);
    ReadAfter(config, before + [f] + first, g, deeper + rest + later, files, path);
  }

  // ---- as it runs ----

  /** The value of one key after a merge. */
  function MergedAt(a: map<string, Tree>, b: map<string, Tree>, k: string): Tree
    requires k in a || k in b
  {
    if k !in a then b[k]
    else if k in b && a[k].Dict? && b[k].Dict? then Merge(a[k], b[k])
    else a[k]
  }

  lemma MergeByKey(a: map<string, Tree>, b: map<string, Tree>, merged: map<string, Tree>)
    requires forall k :: k in merged <==> k in a || k in b
    requires forall k :: k in merged ==> merged[k] == MergedAt(a, b, k)
    ensures Dict(merged) == Merge(Dict(a), Dict(b))
  {
    assert merged == Merge(Dict(a), Dict(b)).m;
  }

  /** `dict_merge`, key by key, into its first argument. */
  method DictMerge(dct: Tree, mergeDct: Tree) returns (merged: Tree)
    requires dct.Dict? && mergeDct.Dict?
    ensures merged == Merge(dct, mergeDct)
    decreases mergeDct
  {
    var a, b := dct.m, mergeDct.m;
    var m, keys := a, b.Keys;
    while keys != {}
      invariant keys <= b.Keys
      invariant forall k :: k in m <==> k in a || (k in b && k !in keys)
      invariant forall k :: k in m ==> m[k] == if k in keys then a[k] else MergedAt(a, b, k)
      decreases |keys|
    {
      var k :| k in keys;
      keys := keys - {k};
      if k in m {
        if m[k].Dict? && b[k].Dict? {
          var inner := DictMerge(m[k], b[k]);
          m := m[k := inner];
        }
      } else {
        m := m[k := b[k]];
      }
    }
    MergeByKey(a, b, m);
    merged := Dict(m);
  }

  /** One turn of the loop: the file, then what it extends, then the rest of the list. */
  lemma PreorderTurn(config: Tree, names: seq<string>, i: nat, files: Files, rank: map<string, nat>, bound: nat)
    requires Acyclic(files, rank) && i < |names| && Below(names[i..], rank, bound)
    ensures Below(names[i + 1..], rank, bound) && Rank(rank, names[i]) < bound
    ensures Below(Extends(Content(files, names[i])), rank, Rank(rank, names[i]))
    ensures var order := Preorder(Extends(Content(files, names[i])), files, rank, Rank(rank, names[i]));
            Fold(config, Preorder(names[i..], files, rank, bound), files)
            == Fold(Fold(Merge(config, Content(files, names[i])), order, files),
                    Preorder(names[i + 1..], files, rank, bound), files)
  {
    var s := names[i];
    assert names[i..][0] == s && names[i..][1..] == names[i + 1..];
    assert s in names[i..];
    forall n | n in names[i + 1..] ensures n in names[i..] {}
    var order := Preorder(Extends(Content(files, s)), files, rank, Rank(rank, s));
    FoldAppend(config, [s] + order, Preorder(names[i + 1..], files, rank, bound), files);
    FoldStep(config, s, order, files);
  }

  class Configuration {
    var config: Tree

    constructor (config: Tree)
      ensures this.config == config
    {
      this.config := config;
    }

    /** `merge_extended_paths`: with acyclic extensions it ends, having merged the files in preorder. */
    method MergeExtendedPaths(names: seq<string>, files: Files, ghost rank: map<string, nat>, ghost bound: nat)
      requires config.Dict? && Acyclic(files, rank) && Below(names, rank, bound)
      modifies this
      ensures config == Fold(old(config), Preorder(names, files, rank, bound), files)
      decreases bound
    {
      var i := 0;
      assert names[0..] == names;
      while i < |names|
        invariant i <= |names| && config.Dict? && Below(names[i..], rank, bound)
        invariant Fold(config, Preorder(names[i..], files, rank, bound), files)
                  == Fold(old(config), Preorder(names, files, rank, bound), files)
      {
        var s := names[i];
        var extended := Content(files, s);
        PreorderTurn(config, names, i, files, rank, bound);
        config := DictMerge(config, extended);
        if Extends(extended) != [] {
          MergeExtendedPaths(Extends(extended), files, rank, Rank(rank, s));
        }
        i := i + 1;
      }
    }
  }
}
