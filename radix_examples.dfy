/** The radix-tree examples of `radix-tree.test.ts`, worked out on the model:
    values are `int` in place of the test's records. */
module RadixExamples {
  import opened Wrappers
  import opened RadixTree

  /** The path of each visit, in visiting order. */
  function PathsOf(vs: seq<Visit<int>>): seq<Path> {
    seq(|vs|, i requires 0 <= i < |vs| => vs[i].path)
  }

  /** A node holding `data` and no children. */
  function Leaf(data: int): Radix<int> { Radix(Some(data), []) }

  /** A node without data whose only child is `child` under `key`. */
  function Link(key: string, child: Radix<int>): Radix<int> { Radix(None, [Edge(key, child)]) }

  /** Inserting 'a.b' and 'd.e.f' into a new tree gives two chains. */
  lemma BuildTwoBranches()
    ensures SetAt(SetAt(Empty<int>(), ["a", "b"], 123), ["d", "e", "f"], 345)
         == Radix(None, [Edge("a", Link("b", Leaf(123))), Edge("d", Link("e", Link("f", Leaf(345))))])
  {
    assert SetAt(Empty<int>(), ["b"], 123) == Link("b", Leaf(123));
    assert SetAt(Empty<int>(), ["a", "b"], 123) == Link("a", Link("b", Leaf(123)));
    assert SetAt(Empty<int>(), ["f"], 345) == Link("f", Leaf(345));
    assert SetAt(Empty<int>(), ["e", "f"], 345) == Link("e", Link("f", Leaf(345)));
    assert ChildIndex(Link("a", Link("b", Leaf(123))).children, "d") == None;
  }

  /** A dataless node with one child is visited before that child's subtree. */
  lemma LinkVisits(key: string, child: Radix<int>, path: Path)
    ensures Visits(Link(key, child), path) == [Visit(path, None, 1)] + Visits(child, path + [key])
  {
    var e := [Edge(key, child)];
    assert e[..0] == [] && e[|e| - 1] == Edge(key, child);
    assert ForestVisits(e[..0], path) == [];
    assert ForestVisits(e, path) == ForestVisits(e[..0], path) + Visits(child, path + [key]);
    assert Link(key, child).children == e;
  }

  /** Two sibling subtrees are visited one after the other, in insertion order. */
  lemma PairVisits(e1: Edge<int>, e2: Edge<int>, path: Path)
    ensures ForestVisits([e1, e2], path) == Visits(e1.child, path + [e1.key]) + Visits(e2.child, path + [e2.key])
  {
    var es := [e1, e2];
    assert es[..1] == [e1] && es[..1][..0] == [];
    assert ForestVisits(es[..1][..0], path) == [];
    assert ForestVisits(es[..1], path) == ForestVisits(es[..1][..0], path) + Visits(e1.child, path + [e1.key]);
  }

  /** The visits of the two-chain tree. */
  lemma TwoBranchVisits()
    ensures Visits(Radix(None, [Edge("a", Link("b", Leaf(123))), Edge("d", Link("e", Link("f", Leaf(345))))]), [])
         == [Visit([], None, 2), Visit(["a"], None, 1), Visit(["a", "b"], Some(123), 0),
             Visit(["d"], None, 1), Visit(["d", "e"], None, 1), Visit(["d", "e", "f"], Some(345), 0)]
  {
    assert ["a"] + ["b"] == ["a", "b"] && ["d"] + ["e"] == ["d", "e"] && ["d", "e"] + ["f"] == ["d", "e", "f"];
    assert [] + ["a"] == ["a"] && [] + ["d"] == ["d"];
    LinkVisits("b", Leaf(123), ["a"]);
    LinkVisits("f", Leaf(345), ["d", "e"]);
    LinkVisits("e", Link("f", Leaf(345)), ["d"]);
    PairVisits(Edge("a", Link("b", Leaf(123))), Edge("d", Link("e", Link("f", Leaf(345)))), []);
  }

  /** The unfold test: '', a, ab, d, de, def in that order, with data only at
      ab and def. */
  lemma UnfoldOrder()
    ensures var t := SetAt(SetAt(Empty<int>(), ["a", "b"], 123), ["d", "e", "f"], 345);
      PathsOf(Visits(t, [])) == [[], ["a"], ["a", "b"], ["d"], ["d", "e"], ["d", "e", "f"]]
  {
    BuildTwoBranches();
    TwoBranchVisits();
  }

  /** The fold test's callback, with the result kept as a tree instead of
      being printed: path, index, whether the node has data, children. */
  datatype Label = Label(path: Path, index: int, hasData: bool, kids: seq<Label>)

  function Labeller(): (Path, FoldArgs<int, Label>) -> Label {
    (p: Path, args: FoldArgs<int, Label>) => Label(p, args.index, args.nodeData.Some?, args.childResults)
  }

  /** Inserting 'a', 'a.b.c' and 'a.d.e' into a new tree. */
  lemma BuildFoldTree()
    ensures SetAt(SetAt(SetAt(Empty<int>(), ["a"], 0), ["a", "b", "c"], 1), ["a", "d", "e"], 2)
         == Link("a", Radix(Some(0), [Edge("b", Link("c", Leaf(1))), Edge("d", Link("e", Leaf(2)))]))
  {
    var t1 := Link("a", Leaf(0));
    assert SetAt(Empty<int>(), ["a"], 0) == t1;
    assert SetAt(Empty<int>(), ["c"], 1) == Link("c", Leaf(1));
    assert SetAt(Leaf(0), ["b", "c"], 1) == Radix(Some(0), [Edge("b", Link("c", Leaf(1)))]);
    var t2 := Link("a", Radix(Some(0), [Edge("b", Link("c", Leaf(1)))]));
    assert SetAt(t1, ["a", "b", "c"], 1) == t2;
    assert SetAt(Empty<int>(), ["e"], 2) == Link("e", Leaf(2));
    assert ChildIndex([Edge("b", Link("c", Leaf(1)))], "d") == None;
    assert SetAt(Radix(Some(0), [Edge("b", Link("c", Leaf(1)))]), ["d", "e"], 2)
        == Radix(Some(0), [Edge("b", Link("c", Leaf(1))), Edge("d", Link("e", Leaf(2)))]);
  }

  /** Folding a dataless node with one child: the child is folded first and
      the node takes the next index. */
  lemma FoldLink(key: string, child: Radix<int>, path: Path, lo: int)
    ensures Size(Link(key, child)) == 1 + Size(child)
    ensures Fold(Link(key, child), path, Labeller(), lo)
         == Label(path, lo + Size(child), false, [Fold(child, path + [key], Labeller(), lo)])
  {
    var e := [Edge(key, child)];
    assert e[..0] == [];
    assert ForestSize(e) == Size(child);
    assert FoldForest(e, path, Labeller(), lo) == [Fold(child, path + [key], Labeller(), lo)];
  }

  /** The fold of the subtree under 'a'. */
  lemma FoldMiddle()
    ensures Fold(Radix(Some(0), [Edge("b", Link("c", Leaf(1))), Edge("d", Link("e", Leaf(2)))]), ["a"], Labeller(), 0)
         == Label(["a"], 4, true, [
              Label(["a", "b"], 3, false, [Label(["a", "b", "c"], 2, true, [])]),
              Label(["a", "d"], 1, false, [Label(["a", "d", "e"], 0, true, [])])])
    ensures Size(Radix(Some(0), [Edge("b", Link("c", Leaf(1))), Edge("d", Link("e", Leaf(2)))])) == 5
  {
    var f := Labeller();
    assert ["a"] + ["b"] == ["a", "b"] && ["a", "b"] + ["c"] == ["a", "b", "c"];
    assert ["a"] + ["d"] == ["a", "d"] && ["a", "d"] + ["e"] == ["a", "d", "e"];
    assert Size(Leaf(1)) == 1 && Size(Leaf(2)) == 1;
    FoldLink("e", Leaf(2), ["a", "d"], 0);
    FoldLink("c", Leaf(1), ["a", "b"], 2);
    var es := [Edge("b", Link("c", Leaf(1))), Edge("d", Link("e", Leaf(2)))];
    assert es[..1] == [es[0]] && es[..1][..0] == [];
    assert ForestSize(es) == 4;
    assert FoldForest(es, ["a"], f, 0)
        == [Fold(Link("c", Leaf(1)), ["a", "b"], f, 2), Fold(Link("e", Leaf(2)), ["a", "d"], f, 0)];
  }

  /** The foldUp test: children are folded before their parent,
      the last-visited node gets index 0 and the root the highest index. */
  lemma FoldUpLabels()
    ensures var t := SetAt(SetAt(SetAt(Empty<int>(), ["a"], 0), ["a", "b", "c"], 1), ["a", "d", "e"], 2);
      FoldAll(t, Labeller())
      == Label([], 5, false, [
           Label(["a"], 4, true, [
             Label(["a", "b"], 3, false, [Label(["a", "b", "c"], 2, true, [])]),
             Label(["a", "d"], 1, false, [Label(["a", "d", "e"], 0, true, [])])])])
  {
    BuildFoldTree();
    assert [] + ["a"] == ["a"];
    FoldMiddle();
    FoldLink("a", Radix(Some(0), [Edge("b", Link("c", Leaf(1))), Edge("d", Link("e", Leaf(2)))]), [], 0);
  }
}
