/** The tree of lines that a document is kept in: leaves with chunks of lines, branches with cached sizes
    and heights. Parent links are left to module LineLinks. */
module LineTree {

  /** `id`: which line object it is. */
  datatype Line = Line(text: string, height: real, id: nat)

  datatype Node =
    | Leaf(lines: seq<Line>, height: real)
    | Branch(children: seq<Node>, size: int, height: real)

  const MAX_LEAF := 50
  const SPILL_LINES := 25
  const MAX_CHILDREN := 10
  const SPILL_CHILDREN := 5
  const COLLAPSE_BELOW := 25

  // ----- what a tree stands for -----

  function ChunkSize(n: Node): int
  {
    if n.Leaf? then |n.lines| else n.size
  }

  /** The lines of a tree, in order. */
  function Lines(n: Node): seq<Line>
    decreases n, 1
  {
    match n
    case Leaf(lines, _) => lines
    case Branch(children, _, _) => Flatten(children)
  }

  function Flatten(cs: seq<Node>): seq<Line>
    decreases cs, 0
  {
    if cs == [] then [] else Lines(cs[0]) + Flatten(cs[1..])
  }

  function TotalHeight(lines: seq<Line>): real
  {
    if lines == [] then 0.0 else lines[0].height + TotalHeight(lines[1..])
  }

  function SumSizes(cs: seq<Node>): int
  {
    if cs == [] then 0 else ChunkSize(cs[0]) + SumSizes(cs[1..])
  }

  function SumHeights(cs: seq<Node>): real
  {
    if cs == [] then 0.0 else cs[0].height + SumHeights(cs[1..])
  }

  /** Every cached size and height is the sum of what is below it. */
  ghost predicate Cached(n: Node)
    decreases n, 1
  {
    && n.height == TotalHeight(Lines(n)) && ChunkSize(n) == |Lines(n)|
    && (n.Branch? ==> CachedAll(n.children))
  }

  ghost predicate CachedAll(cs: seq<Node>)
    decreases cs, 0
  {
    cs == [] || (Cached(cs[0]) && CachedAll(cs[1..]))
  }

  /** Leaves hold 1 to 50 lines, branches 1 to 10 children. */
  ghost predicate Bounded(n: Node)
    decreases n, 1
  {
    match n
    case Leaf(lines, _) => 1 <= |lines| <= MAX_LEAF
    case Branch(children, _, _) => 1 <= |children| <= MAX_CHILDREN && BoundedAll(children)
  }

  ghost predicate BoundedAll(cs: seq<Node>)
    decreases cs, 0
  {
    cs == [] || (Bounded(cs[0]) && BoundedAll(cs[1..]))
  }

  // ----- sums and concatenation -----

  lemma {:induction false} TotalHeightConcat(a: seq<Line>, b: seq<Line>)
    ensures TotalHeight(a + b) == TotalHeight(a) + TotalHeight(b)
  {
    if a == [] {
      assert a + b == b;
    } else {
      TotalHeightConcat(a[1..], b);
      assert (a + b)[1..] == a[1..] + b;
    }
  }

  lemma {:induction false} ConcatNodes(a: seq<Node>, b: seq<Node>)
    ensures Flatten(a + b) == Flatten(a) + Flatten(b)
    ensures CachedAll(a + b) <==> CachedAll(a) && CachedAll(b)
    ensures BoundedAll(a + b) <==> BoundedAll(a) && BoundedAll(b)
    ensures SumSizes(a + b) == SumSizes(a) + SumSizes(b)
    ensures SumHeights(a + b) == SumHeights(a) + SumHeights(b)
  {
    hide Lines, Cached, Bounded, ChunkSize, Flatten, SumSizes, SumHeights;
    ConcatSums(a, b);
    if a == [] {
      assert a + b == b;
    } else {
      ConcatNodes(a[1..], b);
      assert (a + b)[1..] == a[1..] + b;
    }
  }

  lemma {:induction false} ConcatSums(a: seq<Node>, b: seq<Node>)
    ensures Flatten(a + b) == Flatten(a) + Flatten(b)
    ensures SumSizes(a + b) == SumSizes(a) + SumSizes(b)
    ensures SumHeights(a + b) == SumHeights(a) + SumHeights(b)
  {
    hide Lines, ChunkSize, Flatten;
    ConcatLines(a, b);
    if a == [] {
      assert a + b == b;
    } else {
      ConcatSums(a[1..], b);
      assert (a + b)[1..] == a[1..] + b;
    }
  }

  lemma {:induction false} ConcatLines(a: seq<Node>, b: seq<Node>)
    ensures Flatten(a + b) == Flatten(a) + Flatten(b)
  {
    hide Lines;
    if a == [] {
      assert a + b == b;
    } else {
      ConcatLines(a[1..], b);
      assert (a + b)[1..] == a[1..] + b;
      assert Flatten(a + b) == Lines(a[0]) + (Flatten(a[1..]) + Flatten(b));
    }
  }

  lemma OneNode(n: Node)
    ensures Flatten([n]) == Lines(n)
    ensures CachedAll([n]) <==> Cached(n)
    ensures BoundedAll([n]) <==> Bounded(n)
  {
    assert [n][1..] == [];
  }

  lemma {:induction false} CachedSums(cs: seq<Node>)
    requires CachedAll(cs)
    ensures SumSizes(cs) == |Flatten(cs)| && SumHeights(cs) == TotalHeight(Flatten(cs))
  {
    if cs != [] {
      CachedSums(cs[1..]);
      TotalHeightConcat(Lines(cs[0]), Flatten(cs[1..]));
    }
  }

  lemma {:induction false} BoundedIsNotEmpty(n: Node)
    requires Bounded(n)
    ensures Lines(n) != []
  {
    if n.Branch? {
      BoundedIsNotEmpty(n.children[0]);
    }
  }

  // ----- building nodes -----

  function NewLeaf(lines: seq<Line>): Node
  {
    Leaf(lines, TotalHeight(lines))
  }

  function NewBranch(cs: seq<Node>): Node
  {
    Branch(cs, SumSizes(cs), SumHeights(cs))
  }

  /** A leaf that has grown past 50 lines sheds leaves of 25 lines from its end. */
  function SplitLeaf(lines: seq<Line>, height: real): (r: seq<Node>)
  {
    if |lines| <= MAX_LEAF then [Leaf(lines, height)]
    else
      var k := |lines| - SPILL_LINES;
      var newleaf := NewLeaf(lines[k..]);
      SplitLeaf(lines[..k], height - newleaf.height) + [newleaf]
  }

  lemma {:induction false} SplitLeafKeeps(lines: seq<Line>, height: real)
    requires height == TotalHeight(lines) && lines != []
    ensures var r := SplitLeaf(lines, height);
            Flatten(r) == lines && CachedAll(r) && BoundedAll(r) && r != []
  {
    hide TotalHeight, Flatten, CachedAll, BoundedAll;
    if |lines| <= MAX_LEAF {
      OneNode(Leaf(lines, height));
    } else {
      var k := |lines| - SPILL_LINES;
      var newleaf := NewLeaf(lines[k..]);
      assert lines == lines[..k] + lines[k..];
      TotalHeightConcat(lines[..k], lines[k..]);
      SplitLeafKeeps(lines[..k], height - newleaf.height);
      OneNode(newleaf);
      ConcatNodes(SplitLeaf(lines[..k], height - newleaf.height), [newleaf]);
    }
  }

  /** A branch with more than 10 children sheds siblings of 5 children from its end. */
  function SpillBranch(cs: seq<Node>, size: int, height: real): (r: seq<Node>)
    ensures 1 <= |r| <= 1 + |cs| / SPILL_CHILDREN
  {
    if |cs| <= MAX_CHILDREN then [Branch(cs, size, height)]
    else
      var k := |cs| - SPILL_CHILDREN;
      var sibling := NewBranch(cs[k..]);
      SpillBranch(cs[..k], size - sibling.size, height - sibling.height) + [sibling]
  }

  lemma {:induction false} SpillBranchKeeps(cs: seq<Node>, size: int, height: real)
    requires CachedAll(cs) && BoundedAll(cs) && cs != []
    requires size == |Flatten(cs)| && height == TotalHeight(Flatten(cs))
    ensures var r := SpillBranch(cs, size, height);
            Flatten(r) == Flatten(cs) && CachedAll(r) && BoundedAll(r)
  {
    if |cs| <= MAX_CHILDREN {
      OneNode(Branch(cs, size, height));
    } else {
      var k := |cs| - SPILL_CHILDREN;
      var a, b := cs[..k], cs[k..];
      var sibling := NewBranch(b);
      assert cs == a + b;
      ConcatNodes(a, b);
      CachedSums(b);
      TotalHeightConcat(Flatten(a), Flatten(b));
      SpillBranchKeeps(a, size - sibling.size, height - sibling.height);
      OneNode(sibling);
      ConcatNodes(SpillBranch(a, size - sibling.size, height - sibling.height), [sibling]);
    }
  }

  /** The root does not get siblings: its children move into new branches below it, again and again. */
  function SpillRoot(cs: seq<Node>): (r: seq<Node>)
    decreases |cs|
  {
    if |cs| <= MAX_CHILDREN then cs
    else
      var k := |cs| - SPILL_CHILDREN;
      var sibling, copy := NewBranch(cs[k..]), NewBranch(cs[..k]);
      SpillRoot(SpillBranch(copy.children, copy.size, copy.height) + [sibling])
  }

  lemma {:induction false} SpillRootKeeps(cs: seq<Node>)
    requires CachedAll(cs) && BoundedAll(cs) && cs != []
    ensures var r := SpillRoot(cs);
            Flatten(r) == Flatten(cs) && CachedAll(r) && BoundedAll(r) && 1 <= |r| <= MAX_CHILDREN
    decreases |cs|
  {
    if |cs| > MAX_CHILDREN {
      var k := |cs| - SPILL_CHILDREN;
      var a, b := cs[..k], cs[k..];
      var sibling, copy := NewBranch(b), NewBranch(a);
      assert cs == a + b;
      ConcatNodes(a, b);
      CachedSums(a);
      CachedSums(b);
      SpillBranchKeeps(a, copy.size, copy.height);
      OneNode(sibling);
      var pieces := SpillBranch(a, copy.size, copy.height);
      ConcatNodes(pieces, [sibling]);
      SpillRootKeeps(pieces + [sibling]);
    }
  }

  // ----- inserting -----

  /** What replaces a child after insertInner has been called on it: the child and what it shed. */
  function Grow(n: Node, at: int, lines: seq<Line>, height: real): seq<Node>
    decreases n, 1
  {
    match n
    case Leaf(ls, h) =>
      if 0 <= at <= |ls| then SplitLeaf(ls[..at] + lines + ls[at..], h + height) else [n]
    case Branch(children, size, h) =>
      SpillBranch(InsertBelow(children, at, lines, height), size + |lines|, h + height)
  }

  /** insertInner's loop: the first child that can take the lines at offset `at` does. */
  function InsertBelow(cs: seq<Node>, at: int, lines: seq<Line>, height: real): seq<Node>
    decreases cs, 0
  {
    if cs == [] then []
    else if at <= ChunkSize(cs[0]) then Grow(cs[0], at, lines, height) + cs[1..]
    else [cs[0]] + InsertBelow(cs[1..], at - ChunkSize(cs[0]), lines, height)
  }

  ghost function Inserted<T>(s: seq<T>, at: int, t: seq<T>): (r: seq<T>)
    requires 0 <= at <= |s|
    ensures |r| == |s| + |t|
  {
    s[..at] + t + s[at..]
  }

  lemma InsertedInConcat<T>(a: seq<T>, b: seq<T>, at: int, t: seq<T>)
    requires 0 <= at <= |a| + |b|
    ensures at <= |a| ==> Inserted(a + b, at, t) == Inserted(a, at, t) + b
    ensures at >= |a| ==> Inserted(a + b, at, t) == a + Inserted(b, at - |a|, t)
  {
  }

  lemma InsertedHeight(s: seq<Line>, at: int, t: seq<Line>)
    requires 0 <= at <= |s|
    ensures TotalHeight(Inserted(s, at, t)) == TotalHeight(s) + TotalHeight(t)
  {
    TotalHeightConcat(s[..at] + t, s[at..]);
    TotalHeightConcat(s[..at], t);
    TotalHeightConcat(s[..at], s[at..]);
    assert s[..at] + s[at..] == s;
  }

  lemma {:induction false} GrowKeeps(n: Node, at: int, lines: seq<Line>)
    requires Cached(n) && Bounded(n) && 0 <= at <= |Lines(n)|
    ensures var r := Grow(n, at, lines, TotalHeight(lines));
            Flatten(r) == Inserted(Lines(n), at, lines) && CachedAll(r) && BoundedAll(r) && r != []
    decreases n, 1
  {
    var h := TotalHeight(lines);
    InsertedHeight(Lines(n), at, lines);
    match n {
      case Leaf(ls, hl) =>
        SplitLeafKeeps(Inserted(ls, at, lines), hl + h);
      case Branch(children, size, hb) =>
        InsertBelowKeeps(children, at, lines);
        SpillBranchKeeps(InsertBelow(children, at, lines, h), size + |lines|, hb + h);
    }
  }

  lemma {:induction false} InsertBelowKeeps(cs: seq<Node>, at: int, lines: seq<Line>)
    requires CachedAll(cs) && BoundedAll(cs) && cs != [] && 0 <= at <= |Flatten(cs)|
    ensures var r := InsertBelow(cs, at, lines, TotalHeight(lines));
            Flatten(r) == Inserted(Flatten(cs), at, lines) && CachedAll(r) && BoundedAll(r) && r != []
    decreases cs, 0
  {
    var h, sz := TotalHeight(lines), ChunkSize(cs[0]);
    InsertedInConcat(Lines(cs[0]), Flatten(cs[1..]), at, lines);
    hide Inserted;
    if at <= sz {
      GrowKeeps(cs[0], at, lines);
      ConcatNodes(Grow(cs[0], at, lines, h), cs[1..]);
    } else {
      assert cs[1..] != [];
      InsertBelowKeeps(cs[1..], at - sz, lines);
      var r := InsertBelow(cs[1..], at - sz, lines, h);
      OneNode(cs[0]);
      ConcatNodes([cs[0]], r);
    }
  }

  /** insert, called on the document itself. */
  function Insert(root: Node, at: int, lines: seq<Line>): Node
    requires root.Branch?
  {
    var height := TotalHeight(lines);
    Branch(SpillRoot(InsertBelow(root.children, at, lines, height)), root.size + |lines|, root.height + height)
  }

  /** A document's tree. */
  ghost predicate WellFormed(root: Node)
  {
    root.Branch? && Cached(root) && Bounded(root)
  }

  /** Inserting lines into the tree inserts them into its sequence of lines. */
  lemma InsertRefines(root: Node, at: int, lines: seq<Line>)
    requires WellFormed(root) && 0 <= at <= |Lines(root)|
    ensures WellFormed(Insert(root, at, lines))
    ensures Lines(Insert(root, at, lines)) == Inserted(Lines(root), at, lines)
  {
    InsertBelowKeeps(root.children, at, lines);
    SpillRootKeeps(InsertBelow(root.children, at, lines, TotalHeight(lines)));
    InsertedHeight(Lines(root), at, lines);
  }

  // ----- removing -----

  function Min(a: int, b: int): int { if a < b then a else b }

  /** removeInner on one node; `n` lines from offset `at`. */
  function Remove(node: Node, at: int, n: int): Node
    requires 0 <= at && 0 < n
    decreases node, 1
  {
    match node
    case Leaf(ls, h) =>
      if at + n <= |ls| then Leaf(ls[..at] + ls[at + n..], h - TotalHeight(ls[at..at + n])) else node
    case Branch(children, size, h) =>
      var p := RemoveBelow(children, at, n);
      Collapsed(Branch(p.left, size - n, h - p.gone))
  }

  /** The children that are left and the height that went. */
  datatype Pruned = Pruned(left: seq<Node>, gone: real)

  /** removeInner's loop. */
  function RemoveBelow(cs: seq<Node>, at: int, n: int): Pruned
    requires 0 <= at && 0 < n
    decreases cs, 0
  {
    if cs == [] then Pruned([], 0.0)
    else
      var sz := ChunkSize(cs[0]);
      if at < sz then
        var rm := Min(n, sz - at);
        var first := RemoveFrom(cs[0], at, rm);
        var others := if n == rm then Pruned(cs[1..], 0.0) else RemoveBelow(cs[1..], 0, n - rm);
        Pruned(first.left + others.left, first.gone + others.gone)
      else
        var others := RemoveBelow(cs[1..], at - sz, n);
        Pruned([cs[0]] + others.left, others.gone)
  }

  /** One round of the loop: the child stays, with lines removed, unless all its lines go. */
  function RemoveFrom(c: Node, at: int, rm: int): Pruned
    requires 0 <= at && 0 < rm
    decreases c, 2
  {
    var child := Remove(c, at, rm);
    Pruned(if ChunkSize(c) == rm then [] else [child], c.height - child.height)
  }

  /** A branch left with fewer than 25 lines becomes a branch with a single leaf. */
  function Collapsed(b: Node): Node
    requires b.Branch?
  {
    if b.size < COLLAPSE_BELOW && (|b.children| != 1 || !b.children[0].Leaf?)
    then Branch([NewLeaf(Flatten(b.children))], b.size, b.height)
    else b
  }

  ghost function Removed<T>(s: seq<T>, at: int, n: int): (r: seq<T>)
    requires 0 <= at && 0 <= n && at + n <= |s|
    ensures |r| == |s| - n
  {
    s[..at] + s[at + n..]
  }

  lemma RemovedInConcat<T>(a: seq<T>, b: seq<T>, at: int, n: int)
    requires 0 <= at && 0 <= n && at + n <= |a| + |b|
    ensures at + n <= |a| ==> Removed(a + b, at, n) == Removed(a, at, n) + b && (a + b)[at..at + n] == a[at..at + n]
    ensures at >= |a| ==>
              Removed(a + b, at, n) == a + Removed(b, at - |a|, n) && (a + b)[at..at + n] == b[at - |a|..at - |a| + n]
    ensures at <= |a| <= at + n ==>
              && Removed(a + b, at, n) == Removed(a, at, |a| - at) + Removed(b, 0, at + n - |a|)
              && (a + b)[at..at + n] == a[at..] + b[..at + n - |a|]
  {
  }

  lemma RemovedHeight(s: seq<Line>, at: int, n: int)
    requires 0 <= at && 0 <= n && at + n <= |s|
    ensures TotalHeight(Removed(s, at, n)) == TotalHeight(s) - TotalHeight(s[at..at + n])
  {
    hide TotalHeight;
    TotalHeightConcat(s[..at], s[at + n..]);
    TotalHeightConcat(s[..at] + s[at..at + n], s[at + n..]);
    TotalHeightConcat(s[..at], s[at..at + n]);
    assert s[..at] + s[at..at + n] + s[at + n..] == s;
  }

  /** Short enough to be one leaf means: it is one leaf. */
  ghost predicate SingleLeafWhenSmall(b: Node)
  {
    b.Branch? && (b.size < COLLAPSE_BELOW ==> |b.children| == 1 && b.children[0].Leaf?)
  }

  lemma CollapsedKeeps(b: Node)
    requires b.Branch? && Cached(b) && BoundedAll(b.children) && |b.children| <= MAX_CHILDREN
    ensures Cached(Collapsed(b)) && Lines(Collapsed(b)) == Lines(b)
    ensures Lines(b) != [] ==> Bounded(Collapsed(b))
    ensures SingleLeafWhenSmall(Collapsed(b))
  {
    var leaf := NewLeaf(Flatten(b.children));
    OneNode(leaf);
  }

  lemma {:induction false} RemoveKeeps(node: Node, at: int, n: int)
    requires Cached(node) && Bounded(node) && 0 <= at && 0 < n && at + n <= |Lines(node)|
    ensures var r := Remove(node, at, n);
            && Lines(r) == Removed(Lines(node), at, n) && Cached(r) && (Lines(r) != [] ==> Bounded(r))
            && (r.Branch? <==> node.Branch?) && (r.Branch? ==> SingleLeafWhenSmall(r))
    decreases node, 1
  {
    hide TotalHeight, Flatten, CachedAll, BoundedAll, SumSizes, SumHeights, RemoveBelow, Collapsed;
    RemovedHeight(Lines(node), at, n);
    if node.Branch? {
      RemoveBelowKeeps(node.children, at, n);
      var p := RemoveBelow(node.children, at, n);
      CachedSums(p.left);
      CollapsedKeeps(Branch(p.left, node.size - n, node.height - p.gone));
    }
  }

  /** `p` is what is left of `cs` without `n` lines from offset `at`. */
  ghost predicate Prunes(cs: seq<Node>, at: int, n: int, p: Pruned)
  {
    && 0 <= at && 0 <= n && at + n <= |Flatten(cs)|
    && Flatten(p.left) == Removed(Flatten(cs), at, n) && CachedAll(p.left) && BoundedAll(p.left)
    && |p.left| <= |cs| && p.gone == TotalHeight(Flatten(cs)[at..at + n])
  }

  lemma PrunesWithin(c: Node, others: seq<Node>, at: int, n: int, p: Pruned)
    requires 0 <= at && 0 <= n && at + n <= |Lines(c)| && Prunes([c], at, n, p)
    requires CachedAll(others) && BoundedAll(others)
    ensures Prunes([c] + others, at, n, Pruned(p.left + others, p.gone))
  {
    RemovedInConcat(Lines(c), Flatten(others), at, n);
    hide Removed, TotalHeight;
    OneNode(c);
    ConcatNodes([c], others);
    ConcatNodes(p.left, others);
  }

  lemma PrunesAcross(c: Node, others: seq<Node>, at: int, n: int, p: Pruned, q: Pruned)
    requires 0 <= at < |Lines(c)| < at + n <= |Lines(c)| + |Flatten(others)|
    requires Prunes([c], at, |Lines(c)| - at, p) && Prunes(others, 0, at + n - |Lines(c)|, q)
    ensures Prunes([c] + others, at, n, Pruned(p.left + q.left, p.gone + q.gone))
  {
    var a, b := Lines(c), Flatten(others);
    RemovedInConcat(a, b, at, n);
    hide Removed, TotalHeight;
    OneNode(c);
    ConcatNodes([c], others);
    ConcatNodes(p.left, q.left);
    TotalHeightConcat(a[at..], b[..at + n - |a|]);
    assert a[at..] == a[at..at + (|a| - at)] && b[..at + n - |a|] == b[0..0 + (at + n - |a|)];
  }

  lemma PrunesLater(c: Node, others: seq<Node>, at: int, n: int, q: Pruned)
    requires Cached(c) && Bounded(c) && |Lines(c)| <= at && Prunes(others, at - |Lines(c)|, n, q)
    ensures Prunes([c] + others, at, n, Pruned([c] + q.left, q.gone))
  {
    OneNode(c);
    ConcatNodes([c], others);
    ConcatNodes([c], q.left);
    RemovedInConcat(Lines(c), Flatten(others), at, n);
  }

  lemma {:induction false} RemoveBelowKeeps(cs: seq<Node>, at: int, n: int)
    requires CachedAll(cs) && BoundedAll(cs) && 0 <= at && 0 < n && at + n <= |Flatten(cs)|
    ensures Prunes(cs, at, n, RemoveBelow(cs, at, n))
    decreases cs, 0
  {
    var c, others := cs[0], cs[1..];
    var sz := ChunkSize(c);
    assert cs == [c] + others;
    if at < sz {
      var rm := Min(n, sz - at);
      RemoveFromKeeps(c, at, rm);
      if n == rm {
        PrunesWithin(c, others, at, n, RemoveFrom(c, at, rm));
      } else {
        RemoveBelowKeeps(others, 0, n - rm);
        PrunesAcross(c, others, at, n, RemoveFrom(c, at, rm), RemoveBelow(others, 0, n - rm));
      }
    } else {
      RemoveBelowKeeps(others, at - sz, n);
      PrunesLater(c, others, at, n, RemoveBelow(others, at - sz, n));
    }
  }

  lemma {:induction false} RemoveFromKeeps(c: Node, at: int, rm: int)
    requires Cached(c) && Bounded(c) && 0 <= at && 0 < rm && at + rm <= |Lines(c)|
    ensures Prunes([c], at, rm, RemoveFrom(c, at, rm))
    decreases c, 2
  {
    RemoveKeeps(c, at, rm);
    RemovedHeight(Lines(c), at, rm);
    OneNode(c);
    OneNode(Remove(c, at, rm));
  }

  /** Removing lines from the tree removes them from its sequence of lines; what is left is short only in
      the form of a single leaf. */
  lemma RemoveRefines(root: Node, at: int, n: int)
    requires WellFormed(root) && 0 <= at && 0 < n && at + n <= |Lines(root)| && n < |Lines(root)|
    ensures WellFormed(Remove(root, at, n)) && SingleLeafWhenSmall(Remove(root, at, n))
    ensures Lines(Remove(root, at, n)) == Removed(Lines(root), at, n)
  {
    RemoveKeeps(root, at, n);
  }
}
