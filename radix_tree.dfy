/** A trie keyed by path segments: every node may hold data and has its
    children in the order their keys were first added (the insertion order of
    a JavaScript `Map`).  The tree is a value; `Tree` is the object that
    holds it and whose methods replace it. */
module RadixTree {
  import opened Wrappers

  datatype Radix<T> = Radix(data: Option<T>, children: seq<Edge<T>>)

  datatype Edge<T> = Edge(key: string, child: Radix<T>)

  type Path = seq<string>

  /** `createRadix`: no data and no children. */
  function Empty<T>(): (r: Radix<T>)
    ensures r.data.None? && r.children == []
  {
    Radix(None, [])
  }

  /** Sibling keys are distinct, at every level, as in a `Map`. */
  predicate ValidTree<T>(r: Radix<T>)
    decreases r, 1
  {
    (forall i, j :: 0 <= i < j < |r.children| ==> r.children[i].key != r.children[j].key)
    && ValidEdges(r.children)
  }

  predicate ValidEdges<T>(edges: seq<Edge<T>>)
    decreases edges, 0
  {
    forall i :: 0 <= i < |edges| ==> ValidTree(edges[i].child)
  }

  // ---------------------------------------------------------------------
  // cleanPath
  // ---------------------------------------------------------------------

  /** A path argument: a dotted string or an array of segments. */
  datatype PathArg = Dotted(s: string) | Segments(segs: Path)

  /** `s.split('.')` */
  function Split(s: string): (r: Path)
    ensures |r| >= 1
    ensures forall seg :: seg in r ==> '.' !in seg
    decreases |s|
  {
    if s == [] then [""]
    else
      var rest := Split(s[1..]);
      if s[0] == '.' then [""] + rest
      else [[s[0]] + rest[0]] + rest[1..]
  }

  /** `segs.join('.')` */
  function JoinDots(segs: Path): string {
    if segs == [] then ""
    else if |segs| == 1 then segs[0]
    else segs[0] + "." + JoinDots(segs[1..])
  }

  /** Splitting undoes joining whenever no segment holds a dot. */
  lemma {:induction false} SplitJoin(segs: Path)
    requires |segs| >= 1
    requires forall seg :: seg in segs ==> '.' !in seg
    ensures Split(JoinDots(segs)) == segs
    decreases |segs|, |segs[0]|
  {
    var s0 := segs[0];
    if s0 == [] {
      if |segs| > 1 {
        assert JoinDots(segs) == "." + JoinDots(segs[1..]);
        SplitJoin(segs[1..]);
        assert [""] + segs[1..] == segs;
      }
    } else {
      var shorter := [s0[1..]] + segs[1..];
      assert s0[0] in s0;
      assert '.' !in s0[1..] by {
        assert forall c :: c in s0[1..] ==> c in s0;
      }
      assert forall seg :: seg in shorter ==> '.' !in seg by {
        assert forall seg :: seg in shorter ==> seg == s0[1..] || seg in segs[1..];
        assert forall seg :: seg in segs[1..] ==> seg in segs;
      }
      var joined := JoinDots(segs);
      assert joined[0] == s0[0] && joined[1..] == JoinDots(shorter) by {
        if |segs| > 1 {
          assert shorter[1..] == segs[1..];
          assert JoinDots(shorter) == s0[1..] + "." + JoinDots(segs[1..]);
        }
      }
      SplitJoin(shorter);
      assert Split(joined) == [[s0[0]] + s0[1..]] + segs[1..];
      assert [s0[0]] + s0[1..] == s0;
      assert [s0] + segs[1..] == segs;
    }
  }

  /** Joining undoes splitting. */
  lemma {:induction false} JoinSplit(s: string)
    ensures JoinDots(Split(s)) == s
    decreases |s|
  {
    if s != [] {
      JoinSplit(s[1..]);
      var rest := Split(s[1..]);
      if s[0] == '.' {
        assert JoinDots([""] + rest) == "." + JoinDots(rest) by {
          assert ([""] + rest)[1..] == rest;
        }
      } else {
        var r := [[s[0]] + rest[0]] + rest[1..];
        if |rest| > 1 {
          assert r[1..] == rest[1..];
          assert JoinDots(rest) == rest[0] + "." + JoinDots(rest[1..]);
        }
      }
    }
  }

  /** `cleanPath`: a string is split on '.', an array is kept; the empty
      string is one empty segment. */
  function CleanPath(p: PathArg): (r: Path)
    ensures p.Dotted? ==> |r| >= 1 && JoinDots(r) == p.s
    ensures p.Segments? ==> r == p.segs
  {
    match p
    case Dotted(s) => JoinSplit(s); Split(s)
    case Segments(segs) => segs
  }

  // ---------------------------------------------------------------------
  // Lookup and update
  // ---------------------------------------------------------------------

  /** `children.get(key)`, as the position of the edge. */
  function ChildIndex<T>(edges: seq<Edge<T>>, key: string): (r: Option<nat>)
    ensures r.None? <==> forall i :: 0 <= i < |edges| ==> edges[i].key != key
    ensures r.Some? ==> r.value < |edges| && edges[r.value].key == key
                        && forall i :: 0 <= i < r.value ==> edges[i].key != key
  {
    if edges == [] then None
    else if edges[0].key == key then Some(0)
    else
      var rest := ChildIndex(edges[1..], key);
      if rest.None? then None else Some(rest.value + 1)
  }

  function Child<T>(r: Radix<T>, key: string): Option<Radix<T>> {
    var i := ChildIndex(r.children, key);
    if i.None? then None else Some(r.children[i.value].child)
  }

  /** The node reached by following `path` from `r`, if every step exists. */
  function Find<T>(r: Radix<T>, path: Path): Option<Radix<T>>
    decreases |path|
  {
    if path == [] then Some(r)
    else
      var c := Child(r, path[0]);
      if c.None? then None else Find(c.value, path[1..])
  }

  /** The data at `path`, absent when the path or its data is. */
  function Lookup<T>(r: Radix<T>, path: Path): Option<T> {
    var n := Find(r, path);
    if n.None? then None else n.value.data
  }

  /** `radSet`'s effect: `data` stored at `path`, missing nodes created on
      the way without data and added after their existing siblings. */
  function SetAt<T>(r: Radix<T>, path: Path, data: T): Radix<T>
    decreases |path|
  {
    if path == [] then r.(data := Some(data))
    else
      var i := ChildIndex(r.children, path[0]);
      if i.Some? then
        var e := r.children[i.value];
        r.(children := r.children[i.value := Edge(e.key, SetAt(e.child, path[1..], data))])
      else
        r.(children := r.children + [Edge(path[0], SetAt(Empty(), path[1..], data))])
  }

  lemma ChildIndexAppend<T>(edges: seq<Edge<T>>, e: Edge<T>, key: string)
    requires e.key != key
    ensures ChildIndex(edges + [e], key) == ChildIndex(edges, key)
  {
    var a, b := ChildIndex(edges + [e], key), ChildIndex(edges, key);
    assert forall k :: 0 <= k < |edges| ==> (edges + [e])[k] == edges[k];
    assert (edges + [e])[|edges|] == e;
    if a.Some? && b.Some? {
      assert !(a.value < b.value) && !(b.value < a.value);
    }
  }

  lemma ChildIndexReplace<T>(edges: seq<Edge<T>>, i: nat, e: Edge<T>, key: string)
    requires i < |edges| && e.key == edges[i].key
    ensures ChildIndex(edges[i := e], key) == ChildIndex(edges, key)
  {
    var a, b := ChildIndex(edges[i := e], key), ChildIndex(edges, key);
    assert forall k :: 0 <= k < |edges| ==> edges[i := e][k].key == edges[k].key;
    if a.Some? && b.Some? {
      assert !(a.value < b.value) && !(b.value < a.value);
    }
  }

  /** After storing `data` at `path`, `path` holds `data`. */
  lemma {:induction false} SetThenLookup<T>(r: Radix<T>, path: Path, data: T)
    ensures Lookup(SetAt(r, path, data), path) == Some(data)
    decreases |path|
  {
    if path != [] {
      var i := ChildIndex(r.children, path[0]);
      if i.Some? {
        var e := r.children[i.value];
        ChildIndexReplace(r.children, i.value, Edge(e.key, SetAt(e.child, path[1..], data)), path[0]);
        SetThenLookup(e.child, path[1..], data);
      } else {
        var e := Edge(path[0], SetAt(Empty<T>(), path[1..], data));
        assert ChildIndex(r.children + [e], path[0]) == Some(|r.children|) by {
          assert (r.children + [e])[|r.children|] == e;
          assert forall k :: 0 <= k < |r.children| ==> (r.children + [e])[k] == r.children[k];
        }
        SetThenLookup(Empty<T>(), path[1..], data);
      }
    }
  }

  /** Nothing is stored at any path of the empty tree. */
  lemma EmptyHoldsNothing<T>(path: Path)
    ensures Lookup(Empty<T>(), path) == None
  {
    if path != [] {
      assert Child(Empty<T>(), path[0]) == None;
    }
  }

  /** Storing at `path` changes the data at no other path. */
  lemma {:induction false} SetLeavesOthers<T>(r: Radix<T>, path: Path, data: T, other: Path)
    requires other != path
    ensures Lookup(SetAt(r, path, data), other) == Lookup(r, other)
    decreases |path|
  {
    var r' := SetAt(r, path, data);
    if other == [] || path == [] {
      if path == [] {
        assert r'.children == r.children;
        if other != [] {
          assert Child(r', other[0]) == Child(r, other[0]);
        }
      }
    } else {
      var i := ChildIndex(r.children, path[0]);
      if i.Some? {
        var e := r.children[i.value];
        var e' := Edge(e.key, SetAt(e.child, path[1..], data));
        ChildIndexReplace(r.children, i.value, e', other[0]);
        if other[0] == path[0] {
          SetLeavesOthers(e.child, path[1..], data, other[1..]);
        }
      } else {
        var e' := Edge(path[0], SetAt(Empty<T>(), path[1..], data));
        if other[0] == path[0] {
          assert ChildIndex(r.children + [e'], path[0]) == Some(|r.children|) by {
            assert (r.children + [e'])[|r.children|] == e';
            assert forall k :: 0 <= k < |r.children| ==> (r.children + [e'])[k] == r.children[k];
          }
          SetLeavesOthers(Empty<T>(), path[1..], data, other[1..]);
          EmptyHoldsNothing<T>(other[1..]);
        } else {
          ChildIndexAppend(r.children, e', other[0]);
        }
      }
    }
  }

  /** After storing at `path`, every prefix of `path` leads to a node: the
      intermediate nodes exist. */
  lemma {:induction false} SetCreatesPrefixes<T>(r: Radix<T>, path: Path, data: T, k: nat)
    requires k <= |path|
    ensures Find(SetAt(r, path, data), path[..k]).Some?
    decreases |path|
  {
    if k > 0 {
      var i := ChildIndex(r.children, path[0]);
      assert path[..k][0] == path[0] && path[..k][1..] == path[1..][..k - 1];
      if i.Some? {
        var e := r.children[i.value];
        ChildIndexReplace(r.children, i.value, Edge(e.key, SetAt(e.child, path[1..], data)), path[0]);
        SetCreatesPrefixes(e.child, path[1..], data, k - 1);
      } else {
        var e := Edge(path[0], SetAt(Empty<T>(), path[1..], data));
        assert ChildIndex(r.children + [e], path[0]) == Some(|r.children|) by {
          assert (r.children + [e])[|r.children|] == e;
          assert forall j :: 0 <= j < |r.children| ==> (r.children + [e])[j] == r.children[j];
        }
        SetCreatesPrefixes(Empty<T>(), path[1..], data, k - 1);
      }
    }
  }

  /** Storing keeps sibling keys distinct. */
  lemma {:induction false} SetKeepsValid<T>(r: Radix<T>, path: Path, data: T)
    requires ValidTree(r)
    ensures ValidTree(SetAt(r, path, data))
    decreases |path|
  {
    if path != [] {
      var i := ChildIndex(r.children, path[0]);
      if i.Some? {
        var e := r.children[i.value];
        SetKeepsValid(e.child, path[1..], data);
      } else {
        SetKeepsValid(Empty<T>(), path[1..], data);
      }
    }
  }

  /** `radUpsert`'s effect: the path's prior data, or none, passed to `f`. */
  function Upserted<T>(r: Radix<T>, path: Path, f: Option<T> -> T): (r': Radix<T>)
    ensures Lookup(r', path) == Some(f(Lookup(r, path)))
    ensures forall q :: q != path ==> Lookup(r', q) == Lookup(r, q)
  {
    var r' := SetAt(r, path, f(Lookup(r, path)));
    SetThenLookup(r, path, f(Lookup(r, path)));
    forall q | q != path
      ensures Lookup(r', q) == Lookup(r, q)
    {
      SetLeavesOthers(r, path, f(Lookup(r, path)), q);
    }
    r'
  }

  /** Two upserts at one path compose: the second sees what the first
      stored. */
  lemma UpsertTwice<T>(r: Radix<T>, path: Path, f: Option<T> -> T, g: Option<T> -> T)
    ensures Lookup(Upserted(Upserted(r, path, f), path, g), path) == Some(g(Some(f(Lookup(r, path)))))
  {
  }

  // ---------------------------------------------------------------------
  // Traversal
  // ---------------------------------------------------------------------

  /** What the traversal callback receives for one node (the node object
      itself is not modelled). */
  datatype Visit<T> = Visit(path: Path, data: Option<T>, childCount: nat)

  /** `radTraverseDepthFirst`: the callback's arguments in call order, the
      node first, then each child's subtree in key insertion order. */
  function Visits<T>(r: Radix<T>, path: Path): (vs: seq<Visit<T>>)
    ensures |vs| >= 1 && vs[0] == Visit(path, r.data, |r.children|)
    decreases r, 1
  {
    [Visit(path, r.data, |r.children|)] + ForestVisits(r.children, path)
  }

  function ForestVisits<T>(edges: seq<Edge<T>>, path: Path): seq<Visit<T>>
    decreases edges, 0
  {
    if edges == [] then []
    else
      var last := edges[|edges| - 1];
      ForestVisits(edges[..|edges| - 1], path) + Visits(last.child, path + [last.key])
  }

  function Size<T>(r: Radix<T>): nat
    decreases r, 1
  {
    1 + ForestSize(r.children)
  }

  function ForestSize<T>(edges: seq<Edge<T>>): nat
    decreases edges, 0
  {
    if edges == [] then 0
    else
      var last := edges[|edges| - 1];
      ForestSize(edges[..|edges| - 1]) + Size(last.child)
  }

  /** The traversal visits each node once. */
  lemma {:induction false} VisitCount<T>(r: Radix<T>, path: Path)
    ensures |Visits(r, path)| == Size(r)
    decreases r, 1
  {
    ForestVisitCount(r.children, path);
  }

  lemma {:induction false} ForestVisitCount<T>(edges: seq<Edge<T>>, path: Path)
    ensures |ForestVisits(edges, path)| == ForestSize(edges)
    decreases edges, 0
  {
    if edges != [] {
      var last := edges[|edges| - 1];
      ForestVisitCount(edges[..|edges| - 1], path);
      VisitCount(last.child, path + [last.key]);
    }
  }

  /** Every visit below `path` reports the data stored at its path. */
  lemma {:induction false} VisitsReportStoredData<T>(r: Radix<T>, path: Path)
    requires ValidTree(r)
    ensures forall v :: v in Visits(r, path) ==>
      |v.path| >= |path| && v.path[..|path|] == path && v.data == Lookup(r, v.path[|path|..])
    decreases r, 1
  {
    ForestVisitsReportStoredData(r.children, r, path, |r.children|);
  }

  lemma {:induction false} ForestVisitsReportStoredData<T>(edges: seq<Edge<T>>, r: Radix<T>, path: Path, n: nat)
    requires ValidTree(r) && n <= |r.children| && edges == r.children[..n]
    ensures forall v :: v in ForestVisits(edges, path) ==>
      |v.path| > |path| && v.path[..|path|] == path && v.data == Lookup(r, v.path[|path|..])
    decreases edges, 0
  {
    if edges != [] {
      var last := edges[|edges| - 1];
      assert last == r.children[n - 1];
      assert edges[..|edges| - 1] == r.children[..n - 1];
      ForestVisitsReportStoredData(edges[..|edges| - 1], r, path, n - 1);
      var p' := path + [last.key];
      VisitsReportStoredData(last.child, p');
      assert ChildIndex(r.children, last.key) == Some(n - 1);
      forall v | v in Visits(last.child, p')
        ensures |v.path| > |path| && v.path[..|path|] == path && v.data == Lookup(r, v.path[|path|..])
      {
        var rel := v.path[|path|..];
        assert v.path[..|p'|] == p';
        assert rel[0] == last.key && rel[1..] == v.path[|p'|..];
      }
    }
  }

  /** `radTraverseValues`: the visits that carry data, as path and value,
      in visit order. */
  function TraverseValues<T>(r: Radix<T>): (pv: seq<(Path, T)>)
    ensures |pv| <= |Visits(r, [])|
    ensures forall i :: 0 <= i < |Visits(r, [])| && Visits(r, [])[i].data.Some? ==>
      (Visits(r, [])[i].path, Visits(r, [])[i].data.value) in pv
    ensures ValidTree(r) ==> forall x :: x in pv ==> Lookup(r, x.0) == Some(x.1)
  {
    ValuesComplete(Visits(r, []));
    if ValidTree(r) then
      ValuesStored(r);
      Values(Visits(r, []))
    else Values(Visits(r, []))
  }

  /** The path and value of every visit with data, in visit order. */
  function Values<T>(vs: seq<Visit<T>>): (pv: seq<(Path, T)>)
    ensures |pv| <= |vs|
    ensures forall x :: x in pv ==> Visit(x.0, Some(x.1), 0) in Zeroed(vs)
  {
    if vs == [] then []
    else
      var v := vs[0];
      (if v.data.Some? then [(v.path, v.data.value)] else []) + Values(vs[1..])
  }

  /** Every visit with data contributes its path and value. */
  lemma {:induction false} ValuesComplete<T>(vs: seq<Visit<T>>)
    ensures forall i :: 0 <= i < |vs| && vs[i].data.Some? ==> (vs[i].path, vs[i].data.value) in Values(vs)
  {
    if vs != [] {
      ValuesComplete(vs[1..]);
      forall i | 1 <= i < |vs| ensures vs[i] == vs[1..][i - 1] { }
    }
  }

  /** The values of consecutive visits follow each other, so the visits'
      order is kept. */
  lemma {:induction false} ValuesAppend<T>(a: seq<Visit<T>>, b: seq<Visit<T>>)
    ensures Values(a + b) == Values(a) + Values(b)
  {
    if a == [] {
      assert a + b == b;
    } else {
      var v, rest := a[0], a[1..];
      ValuesAppend(rest, b);
      assert a == [v] + rest;
      SeqAssoc([v], rest, b);
      ValuesCons(v, rest + b);
      ValuesCons(v, rest);
      SeqAssoc(if v.data.Some? then [(v.path, v.data.value)] else [], Values(rest), Values(b));
    }
  }

  lemma ValuesCons<T>(v: Visit<T>, rest: seq<Visit<T>>)
    ensures Values([v] + rest) == (if v.data.Some? then [(v.path, v.data.value)] else []) + Values(rest)
  {
    assert ([v] + rest)[1..] == rest;
  }

  lemma SeqAssoc<X>(x: seq<X>, y: seq<X>, z: seq<X>)
    ensures x + (y + z) == x + y + z
  {
  }

  /** `radTraverseValues` is `radUnfold` with the callback that keeps the
      nodes holding data. */
  lemma {:induction false} ValuesAsUnfold<T>(vs: seq<Visit<T>>)
    ensures Values(vs) == Unfolded(vs, (p: Path, d: Option<T>) => if d.Some? then Some((p, d.value)) else None)
    decreases |vs|
  {
    var f := (p: Path, d: Option<T>) => if d.Some? then Some((p, d.value)) else None;
    if vs != [] {
      var init, last := vs[..|vs| - 1], vs[|vs| - 1];
      ValuesAsUnfold(init);
      assert vs == init + [last];
      ValuesAppend(init, [last]);
      assert [last][1..] == [];
    }
  }

  /** With a valid tree, every reported pair is the data stored at that
      path. */
  lemma ValuesStored<T>(r: Radix<T>)
    requires ValidTree(r)
    ensures forall x :: x in Values(Visits(r, [])) ==> Lookup(r, x.0) == Some(x.1)
  {
    VisitsReportStoredData(r, []);
    var vs := Visits(r, []);
    forall x | x in Values(vs) ensures Lookup(r, x.0) == Some(x.1) {
      assert Visit(x.0, Some(x.1), 0) in Zeroed(vs);
      var i :| 0 <= i < |vs| && Zeroed(vs)[i] == Visit(x.0, Some(x.1), 0);
      assert vs[i] in vs && vs[i].path == x.0 && vs[i].data == Some(x.1);
      assert vs[i].path[0..] == vs[i].path;
    }
  }

  /** The visits with their child counts ignored. */
  function Zeroed<T>(vs: seq<Visit<T>>): (zs: seq<Visit<T>>)
    ensures |zs| == |vs|
    ensures forall i :: 0 <= i < |vs| ==> zs[i] == vs[i].(childCount := 0)
  {
    seq(|vs|, i requires 0 <= i < |vs| => vs[i].(childCount := 0))
  }

  /** `radUnfold`'s result: the defined results of `f` on the visits, in
      order. */
  function Unfolded<T, U>(vs: seq<Visit<T>>, f: (Path, Option<T>) -> Option<U>): (us: seq<U>)
    ensures |us| <= |vs|
  {
    if vs == [] then []
    else
      var u := f(vs[|vs| - 1].path, vs[|vs| - 1].data);
      Unfolded(vs[..|vs| - 1], f) + (if u.Some? then [u.value] else [])
  }

  /** Every result comes from a visit on which `f` is defined. */
  lemma {:induction false} UnfoldedSound<T, U>(vs: seq<Visit<T>>, f: (Path, Option<T>) -> Option<U>)
    ensures forall u :: u in Unfolded(vs, f) ==> exists i :: 0 <= i < |vs| && f(vs[i].path, vs[i].data) == Some(u)
    decreases |vs|
  {
    if vs != [] {
      var init := vs[..|vs| - 1];
      UnfoldedSound(init, f);
      forall u | u in Unfolded(vs, f) ensures exists i :: 0 <= i < |vs| && f(vs[i].path, vs[i].data) == Some(u) {
        if u !in Unfolded(init, f) {
          assert f(vs[|vs| - 1].path, vs[|vs| - 1].data) == Some(u);
        } else {
          var i :| 0 <= i < |init| && f(init[i].path, init[i].data) == Some(u);
          assert init[i] == vs[i];
        }
      }
    }
  }

  /** Every defined result is kept. */
  lemma {:induction false} UnfoldedComplete<T, U>(vs: seq<Visit<T>>, f: (Path, Option<T>) -> Option<U>)
    ensures forall i :: 0 <= i < |vs| && f(vs[i].path, vs[i].data).Some? ==>
      f(vs[i].path, vs[i].data).value in Unfolded(vs, f)
    decreases |vs|
  {
    if vs != [] {
      var init := vs[..|vs| - 1];
      UnfoldedComplete(init, f);
      forall i | 0 <= i < |vs| - 1 ensures vs[i] == init[i] { }
    }
  }

  /** The results of consecutive visits follow each other, so the defined
      results keep the visits' order. */
  lemma {:induction false} UnfoldedAppend<T, U>(a: seq<Visit<T>>, b: seq<Visit<T>>, f: (Path, Option<T>) -> Option<U>)
    ensures Unfolded(a + b, f) == Unfolded(a, f) + Unfolded(b, f)
    decreases |b|
  {
    if b == [] {
      assert a + b == a;
    } else {
      var init, last := b[..|b| - 1], b[|b| - 1];
      UnfoldedAppend(a, init, f);
      assert (a + b)[..|a + b| - 1] == a + init && (a + b)[|a + b| - 1] == last;
      var u := f(last.path, last.data);
      var tail := if u.Some? then [u.value] else [];
      assert Unfolded(a + b, f) == Unfolded(a + init, f) + tail;
      assert Unfolded(b, f) == Unfolded(init, f) + tail;
      SeqAssoc(Unfolded(a, f), Unfolded(init, f), tail);
    }
  }

  /** Every visit's result is kept when `f` is always defined. */
  lemma {:induction false} UnfoldedTotal<T, U>(vs: seq<Visit<T>>, f: (Path, Option<T>) -> Option<U>)
    requires forall i :: 0 <= i < |vs| ==> f(vs[i].path, vs[i].data).Some?
    ensures |Unfolded(vs, f)| == |vs|
    ensures forall i :: 0 <= i < |vs| ==> Unfolded(vs, f)[i] == f(vs[i].path, vs[i].data).value
  {
    if vs != [] {
      UnfoldedTotal(vs[..|vs| - 1], f);
    }
  }

  // ---------------------------------------------------------------------
  // radFoldUp
  // ---------------------------------------------------------------------

  /** The second argument of the fold callback (the node object itself is
      not modelled). */
  datatype FoldArgs<T, U> = FoldArgs(index: int, nodeData: Option<T>, childResults: seq<U>)

  /** The fold of the subtree `r` at `path`, its nodes numbered in reverse
      pre-order from `lo`: the last node of the subtree gets `lo` and its root
      `lo + Size(r) - 1`; each node receives its children's results in key
      insertion order. */
  function Fold<T, U>(r: Radix<T>, path: Path, f: (Path, FoldArgs<T, U>) -> U, lo: int): U
    decreases r, 1
  {
    f(path, FoldArgs(lo + Size(r) - 1, r.data, FoldForest(r.children, path, f, lo)))
  }

  function FoldForest<T, U>(edges: seq<Edge<T>>, path: Path, f: (Path, FoldArgs<T, U>) -> U, lo: int): (us: seq<U>)
    ensures |us| == |edges|
    decreases edges, 0
  {
    if edges == [] then []
    else
      var last := edges[|edges| - 1];
      FoldForest(edges[..|edges| - 1], path, f, lo + Size(last.child))
      + [Fold(last.child, path + [last.key], f, lo)]
  }

  /** One step of the stack machine: the visit's children results taken from
      the front of the result stack (`splice(0, childCount)`), and its own
      result put back in front (`unshift`). */
  function Step<T, U>(ustack: seq<U>, v: Visit<T>, f: (Path, FoldArgs<T, U>) -> U, index: int): seq<U> {
    var n := if v.childCount <= |ustack| then v.childCount else |ustack|;
    [f(v.path, FoldArgs(index, v.data, ustack[..n]))] + ustack[n..]
  }

  /** The stack machine run over the visits from the last to the first
      (`rstack.pop()`), numbering them from `index`. */
  function Run<T, U>(vs: seq<Visit<T>>, ustack: seq<U>, f: (Path, FoldArgs<T, U>) -> U, index: int): seq<U>
    decreases |vs|
  {
    if vs == [] then ustack
    else Run(vs[..|vs| - 1], Step(ustack, vs[|vs| - 1], f, index), f, index + 1)
  }

  lemma {:induction false} RunAppend<T, U>(a: seq<Visit<T>>, b: seq<Visit<T>>, ustack: seq<U>, f: (Path, FoldArgs<T, U>) -> U, index: int)
    ensures Run(a + b, ustack, f, index) == Run(a, Run(b, ustack, f, index), f, index + |b|)
    decreases |b|
  {
    if b != [] {
      var b', s' := b[..|b| - 1], Step(ustack, b[|b| - 1], f, index);
      assert (a + b)[..|a + b| - 1] == a + b';
      assert (a + b)[|a + b| - 1] == b[|b| - 1];
      assert Run(a + b, ustack, f, index) == Run(a + b', s', f, index + 1);
      assert Run(b, ustack, f, index) == Run(b', s', f, index + 1);
      RunAppend(a, b', s', f, index + 1);
    } else {
      assert a + b == a;
    }
  }

  /** Running the machine over a subtree's visits leaves exactly that
      subtree's fold on top of the stack. */
  lemma {:induction false} RunSubtree<T, U>(r: Radix<T>, path: Path, ustack: seq<U>, f: (Path, FoldArgs<T, U>) -> U, lo: int)
    ensures Run(Visits(r, path), ustack, f, lo) == [Fold(r, path, f, lo)] + ustack
    decreases r, 1
  {
    var forest := ForestVisits(r.children, path);
    RunAppend([Visit(path, r.data, |r.children|)], forest, ustack, f, lo);
    RunForest(r.children, path, ustack, f, lo);
    ForestVisitCount(r.children, path);
    var after := FoldForest(r.children, path, f, lo) + ustack;
    assert after[..|r.children|] == FoldForest(r.children, path, f, lo);
    assert after[|r.children|..] == ustack;
    assert [Visit(path, r.data, |r.children|)][..0] == [];
  }

  lemma {:induction false} RunForest<T, U>(edges: seq<Edge<T>>, path: Path, ustack: seq<U>, f: (Path, FoldArgs<T, U>) -> U, lo: int)
    ensures Run(ForestVisits(edges, path), ustack, f, lo) == FoldForest(edges, path, f, lo) + ustack
    decreases edges, 0
  {
    if edges != [] {
      var last := edges[|edges| - 1];
      var init := edges[..|edges| - 1];
      var p' := path + [last.key];
      RunAppend(ForestVisits(init, path), Visits(last.child, p'), ustack, f, lo);
      RunSubtree(last.child, p', ustack, f, lo);
      VisitCount(last.child, p');
      RunForest(init, path, [Fold(last.child, p', f, lo)] + ustack, f, lo + Size(last.child));
    }
  }

  /** `radFoldUp`'s result: the fold of the whole tree, the root numbered
      `nodeCount - 1`. */
  function FoldAll<T, U>(r: Radix<T>, f: (Path, FoldArgs<T, U>) -> U): (u: U)
    ensures u == f([], FoldArgs(Size(r) - 1, r.data, FoldForest(r.children, [], f, 0)))
  {
    Fold(r, [], f, 0)
  }

  // ---------------------------------------------------------------------
  // The tree object
  // ---------------------------------------------------------------------

  class Tree<T> {
    var root: Radix<T>

    ghost predicate Valid()
      reads this
    {
      ValidTree(root)
    }

    /** `createRadix` */
    constructor ()
      ensures root == Empty() && Valid()
    {
      root := Empty();
    }

    /** `radSet`: stores `data` at `path` and returns what was there. */
    method Set(path: Path, data: T) returns (oldData: Option<T>)
      requires Valid()
      modifies this
      ensures root == SetAt(old(root), path, data) && Valid()
      ensures oldData == Lookup(old(root), path)
      ensures Lookup(root, path) == Some(data)
    {
      oldData := Lookup(root, path);
      SetKeepsValid(root, path, data);
      SetThenLookup(root, path, data);
      root := SetAt(root, path, data);
    }

    /** `radGet`: follows the path one segment at a time. */
    method Get(path: Path) returns (r: Option<T>)
      ensures r == Lookup(root, path)
    {
      var pathCurr := path;
      var radCurr: Option<Radix<T>> := Some(root);
      while |pathCurr| > 0 && radCurr.Some?
        invariant Lookup(root, path) == if radCurr.None? then None else Lookup(radCurr.value, pathCurr)
        decreases |pathCurr|
      {
        var p := pathCurr[0];
        pathCurr := pathCurr[1..];
        radCurr := Child(radCurr.value, p);
      }
      r := if radCurr.Some? then radCurr.value.data else None;
    }

    /** `radUpsert` */
    method Upsert(path: PathArg, f: Option<T> -> T)
      requires Valid()
      modifies this
      ensures root == Upserted(old(root), CleanPath(path), f) && Valid()
    {
      var valpath := CleanPath(path);
      var prior := Get(valpath);
      var upVal := f(prior);
      var _ := Set(valpath, upVal);
    }

    /** `radInsert` */
    method Insert(path: PathArg, t: T)
      requires Valid()
      modifies this
      ensures Lookup(root, CleanPath(path)) == Some(t)
      ensures forall q :: q != CleanPath(path) ==> Lookup(root, q) == Lookup(old(root), q)
      ensures Valid()
    {
      Upsert(path, _ => t);
    }

    /** `radUnfold`: the defined results of `f` over the traversal. */
    method Unfold<U>(f: (Path, Option<T>) -> Option<U>) returns (res: seq<U>)
      ensures res == Unfolded(Visits(root, []), f)
    {
      var visits := Visits(root, []);
      res := [];
      for k := 0 to |visits|
        invariant res == Unfolded(visits[..k], f)
      {
        assert visits[..k + 1][..k] == visits[..k];
        var u := f(visits[k].path, visits[k].data);
        if u.Some? {
          res := res + [u.value];
        }
      }
      assert visits[..|visits|] == visits;
    }

    /** `radFoldUp`: the traversal recorded on `rstack`, then popped one
        node at a time, each node's children results taken from the front of
        `ustack` and its own result pushed back in front. */
    method FoldUp<U>(f: (Path, FoldArgs<T, U>) -> U) returns (u: U)
      ensures u == FoldAll(root, f)
    {
      var rstack := Visits(root, []);
      var ustack: seq<U> := [];
      var index := 0;
      while |rstack| > 0
        invariant Run(Visits(root, []), [], f, 0) == Run(rstack, ustack, f, index)
        decreases |rstack|
      {
        var v := rstack[|rstack| - 1];
        rstack := rstack[..|rstack| - 1];
        var n := if v.childCount <= |ustack| then v.childCount else |ustack|;
        var childResults := ustack[..n];
        ustack := ustack[n..];
        var ures := f(v.path, FoldArgs(index, v.data, childResults));
        ustack := [ures] + ustack;
        index := index + 1;
      }
      RunSubtree(root, [], [], f, 0);
      u := ustack[0];
    }
  }
}
