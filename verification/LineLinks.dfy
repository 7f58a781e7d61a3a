/** The tree of lines with its parent links. Objects have identities, `parent` holds the identity of the object that
    contains a node or a line, and what insertInner, removeInner and maybeSpill do to the links is written out.
    Without identities and links this is the tree of module LineTree. */
module LineLinks {
  import opened Common
  import opened LineTree
  import I = LineIndex

  datatype LinkedLine = LinkedLine(line: Line, parent: Option<nat>)

  datatype LinkedNode =
    | LeafChunk(id: nat, parent: Option<nat>, lines: seq<LinkedLine>, height: real)
    | BranchChunk(id: nat, parent: Option<nat>, children: seq<LinkedNode>, size: int, height: real)

  /** Nodes, and the next identity that is free. */
  datatype Forest = Forest(nodes: seq<LinkedNode>, next: nat)

  // ----- what the links must be -----

  function PlainLines(ls: seq<LinkedLine>): (r: seq<Line>)
    ensures |r| == |ls| && forall i: nat | i < |r| :: r[i] == ls[i].line
  {
    seq(|ls|, i requires 0 <= i < |ls| => ls[i].line)
  }

  function Plain(n: LinkedNode): Node
    decreases n, 1
  {
    match n
    case LeafChunk(_, _, lines, height) => Leaf(PlainLines(lines), height)
    case BranchChunk(_, _, children, size, height) => Branch(PlainAll(children), size, height)
  }

  function PlainAll(cs: seq<LinkedNode>): (r: seq<Node>)
    ensures |r| == |cs| && forall i: nat | i < |r| :: r[i] == Plain(cs[i])
    decreases cs, 0
  {
    if cs == [] then [] else [Plain(cs[0])] + PlainAll(cs[1..])
  }

  ghost predicate LinesHang(ls: seq<LinkedLine>, p: nat)
  {
    forall i: nat | i < |ls| :: ls[i].parent == Some(p)
  }

  /** Below `n`, every node and every line has the identity of what contains it as its parent. */
  ghost predicate Linked(n: LinkedNode)
    decreases n, 1
  {
    match n
    case LeafChunk(id, _, lines, _) => LinesHang(lines, id)
    case BranchChunk(id, _, children, _, _) => Hang(children, Some(id))
  }

  ghost predicate Hang(cs: seq<LinkedNode>, p: Option<nat>)
    decreases cs, 0
  {
    forall i: nat | i < |cs| :: cs[i].parent == p && Linked(cs[i])
  }

  ghost function Ids(n: LinkedNode): multiset<nat>
    decreases n, 1
  {
    multiset{n.id} + if n.BranchChunk? then IdsOfAll(n.children) else multiset{}
  }

  ghost function IdsOfAll(cs: seq<LinkedNode>): multiset<nat>
    decreases cs, 0
  {
    if cs == [] then multiset{} else Ids(cs[0]) + IdsOfAll(cs[1..])
  }

  ghost function Fresh(a: nat, b: nat): (r: multiset<nat>)
    ensures forall x: nat :: r[x] == if a <= x < b then 1 else 0
    decreases b - a
  {
    if a >= b then multiset{} else multiset{a} + Fresh(a + 1, b)
  }

  /** No two nodes have the same identity. */
  ghost predicate Distinct(ids: multiset<nat>, next: nat)
  {
    forall x: nat :: ids[x] <= 1 && (x >= next ==> ids[x] == 0)
  }

  /** The tree of a document that is not linked into anything else. */
  ghost predicate ProperTree(root: LinkedNode, next: nat)
  {
    root.BranchChunk? && root.parent == None && Linked(root) && Distinct(Ids(root), next)
  }

  // ----- the operations -----

  /** The constructor of LeafChunk makes the lines its own. */
  function Claim(ls: seq<LinkedLine>, p: nat): (r: seq<LinkedLine>)
    ensures |r| == |ls| && forall i: nat | i < |r| :: r[i] == ls[i].(parent := Some(p))
  {
    seq(|ls|, i requires 0 <= i < |ls| => ls[i].(parent := Some(p)))
  }

  /** The constructor of BranchChunk makes the nodes its own. */
  function Adopt(cs: seq<LinkedNode>, p: nat): (r: seq<LinkedNode>)
    ensures |r| == |cs| && forall i: nat | i < |r| :: r[i] == cs[i].(parent := Some(p))
  {
    seq(|cs|, i requires 0 <= i < |cs| => cs[i].(parent := Some(p)))
  }

  function MakeLeaf(id: nat, parent: Option<nat>, ls: seq<LinkedLine>): LinkedNode
  {
    LeafChunk(id, parent, Claim(ls, id), TotalHeight(PlainLines(ls)))
  }

  function MakeBranch(id: nat, parent: Option<nat>, cs: seq<LinkedNode>): LinkedNode
  {
    BranchChunk(id, parent, Adopt(cs, id), SumSizes(PlainAll(cs)), SumHeights(PlainAll(cs)))
  }

  function SplitLinked(id: nat, parent: Option<nat>, ls: seq<LinkedLine>, height: real, next: nat): Forest
  {
    if |ls| <= MAX_LEAF then Forest([LeafChunk(id, parent, ls, height)], next)
    else
      var k := |ls| - SPILL_LINES;
      var newleaf := MakeLeaf(next, parent, ls[k..]);
      var f := SplitLinked(id, parent, ls[..k], height - newleaf.height, next + 1);
      Forest(f.nodes + [newleaf], f.next)
  }

  function SpillLinked(id: nat, parent: Option<nat>, cs: seq<LinkedNode>, size: int, height: real,
      next: nat): (f: Forest)
    ensures 1 <= |f.nodes| <= 1 + |cs| / SPILL_CHILDREN
  {
    if |cs| <= MAX_CHILDREN then Forest([BranchChunk(id, parent, cs, size, height)], next)
    else
      var k := |cs| - SPILL_CHILDREN;
      var sibling := MakeBranch(next, parent, cs[k..]);
      var f := SpillLinked(id, parent, cs[..k], size - sibling.size, height - sibling.height, next + 1);
      Forest(f.nodes + [sibling], f.next)
  }

  /** maybeSpill at the root `id`: a copy takes its children over, and the siblings hang beside the copy. */
  function SpillLinkedRoot(id: nat, cs: seq<LinkedNode>, next: nat): Forest
    decreases |cs|
  {
    if |cs| <= MAX_CHILDREN then Forest(cs, next)
    else
      var k := |cs| - SPILL_CHILDREN;
      var sibling := MakeBranch(next, Some(id), cs[k..]);
      var copy := MakeBranch(next + 1, Some(id), cs[..k]);
      var f := SpillLinked(copy.id, copy.parent, copy.children, copy.size, copy.height, next + 2);
      SpillLinkedRoot(id, f.nodes + [sibling], f.next)
  }

  function NewLines(lines: seq<Line>, p: nat): (r: seq<LinkedLine>)
    ensures |r| == |lines| && forall i: nat | i < |r| :: r[i] == LinkedLine(lines[i], Some(p))
  {
    seq(|lines|, i requires 0 <= i < |lines| => LinkedLine(lines[i], Some(p)))
  }

  function GrowLinked(n: LinkedNode, at: int, lines: seq<Line>, height: real, next: nat): Forest
    decreases n, 1
  {
    match n
    case LeafChunk(id, parent, ls, h) =>
      if 0 <= at <= |ls| then SplitLinked(id, parent, ls[..at] + NewLines(lines, id) + ls[at..], h + height, next)
      else Forest([n], next)
    case BranchChunk(id, parent, children, size, h) =>
      var f := InsertBelowLinked(children, at, lines, height, next);
      SpillLinked(id, parent, f.nodes, size + |lines|, h + height, f.next)
  }

  function InsertBelowLinked(cs: seq<LinkedNode>, at: int, lines: seq<Line>, height: real, next: nat): Forest
    decreases cs, 0
  {
    if cs == [] then Forest([], next)
    else
      var sz := ChunkSize(Plain(cs[0]));
      if at <= sz then
        var f := GrowLinked(cs[0], at, lines, height, next);
        Forest(f.nodes + cs[1..], f.next)
      else
        var f := InsertBelowLinked(cs[1..], at - sz, lines, height, next);
        Forest([cs[0]] + f.nodes, f.next)
  }

  function InsertLinked(root: LinkedNode, at: int, lines: seq<Line>, next: nat): (LinkedNode, nat)
    requires root.BranchChunk?
  {
    var height := TotalHeight(lines);
    var below := InsertBelowLinked(root.children, at, lines, height, next);
    var f := SpillLinkedRoot(root.id, below.nodes, below.next);
    (root.(children := f.nodes, size := root.size + |lines|, height := root.height + height), f.next)
  }

  function AllLines(n: LinkedNode): seq<LinkedLine>
    decreases n, 1
  {
    match n
    case LeafChunk(_, _, lines, _) => lines
    case BranchChunk(_, _, children, _, _) => AllLinesBelow(children)
  }

  function AllLinesBelow(cs: seq<LinkedNode>): seq<LinkedLine>
    decreases cs, 0
  {
    if cs == [] then [] else AllLines(cs[0]) + AllLinesBelow(cs[1..])
  }

  datatype LinkedPruned = LinkedPruned(left: seq<LinkedNode>, gone: real, next: nat)

  function RemoveLinked(node: LinkedNode, at: int, n: int, next: nat): (LinkedNode, nat)
    requires 0 <= at && 0 < n
    decreases node, 1
  {
    match node
    case LeafChunk(id, parent, ls, h) =>
      if at + n <= |ls|
      then (LeafChunk(id, parent, ls[..at] + ls[at + n..], h - TotalHeight(PlainLines(ls)[at..at + n])), next)
      else (node, next)
    case BranchChunk(id, parent, children, size, h) =>
      var p := RemoveBelowLinked(children, at, n, next);
      CollapsedLinked(BranchChunk(id, parent, p.left, size - n, h - p.gone), p.next)
  }

  function RemoveBelowLinked(cs: seq<LinkedNode>, at: int, n: int, next: nat): LinkedPruned
    requires 0 <= at && 0 < n
    decreases cs, 0
  {
    if cs == [] then LinkedPruned([], 0.0, next)
    else
      var sz := ChunkSize(Plain(cs[0]));
      if at < sz then
        var rm := Min(n, sz - at);
        var (child, next') := RemoveLinked(cs[0], at, rm, next);
        var left, gone := if sz == rm then [] else [child], cs[0].height - child.height;
        var others := if n == rm then LinkedPruned(cs[1..], 0.0, next')
          else RemoveBelowLinked(cs[1..], 0, n - rm, next');
        LinkedPruned(left + others.left, gone + others.gone, others.next)
      else
        var others := RemoveBelowLinked(cs[1..], at - sz, n, next);
        LinkedPruned([cs[0]] + others.left, others.gone, others.next)
  }

  function CollapsedLinked(b: LinkedNode, next: nat): (LinkedNode, nat)
    requires b.BranchChunk?
  {
    if b.size < COLLAPSE_BELOW && (|b.children| != 1 || !b.children[0].LeafChunk?)
    then (b.(children := [MakeLeaf(next, Some(b.id), AllLinesBelow(b.children))]), next + 1)
    else (b, next)
  }

  // ----- identities and concatenation -----

  lemma {:induction false} IdsConcat(a: seq<LinkedNode>, b: seq<LinkedNode>)
    ensures IdsOfAll(a + b) == IdsOfAll(a) + IdsOfAll(b)
  {
    hide Ids;
    if a == [] {
      assert a + b == b;
    } else {
      IdsConcat(a[1..], b);
      assert (a + b)[1..] == a[1..] + b;
      assert IdsOfAll(a + b) == Ids(a[0]) + IdsOfAll(a[1..] + b);
    }
  }

  lemma OneId(n: LinkedNode)
    ensures IdsOfAll([n]) == Ids(n)
  {
    hide Ids;
    assert [n][1..] == [];
  }

  lemma {:induction false} AdoptKeepsIds(cs: seq<LinkedNode>, p: nat)
    ensures IdsOfAll(Adopt(cs, p)) == IdsOfAll(cs)
  {
    hide Ids;
    if cs != [] {
      AdoptKeepsIds(cs[1..], p);
      assert Adopt(cs, p)[1..] == Adopt(cs[1..], p);
      SameIds(cs[0], p);
    }
  }

  lemma SameIds(n: LinkedNode, p: nat)
    ensures Ids(n.(parent := Some(p))) == Ids(n)
  {
    hide IdsOfAll;
  }

  lemma ConcatLinks(a: seq<LinkedNode>, b: seq<LinkedNode>, p: Option<nat>)
    ensures Hang(a + b, p) <==> Hang(a, p) && Hang(b, p)
    ensures PlainAll(a + b) == PlainAll(a) + PlainAll(b) && IdsOfAll(a + b) == IdsOfAll(a) + IdsOfAll(b)
  {
    hide Linked, IdsOfAll;
    IdsConcat(a, b);
    var c := a + b;
    if Hang(c, p) {
      forall i: nat | i < |a| ensures a[i].parent == p && Linked(a[i]) { assert c[i] == a[i]; }
      forall i: nat | i < |b| ensures b[i].parent == p && Linked(b[i]) { assert c[|a| + i] == b[i]; }
    }
  }

  lemma CutLinks(cs: seq<LinkedNode>, k: nat, p: Option<nat>)
    requires k <= |cs| && Hang(cs, p)
    ensures Hang(cs[..k], p) && Hang(cs[k..], p) && IdsOfAll(cs) == IdsOfAll(cs[..k]) + IdsOfAll(cs[k..])
    ensures PlainAll(cs)[..k] == PlainAll(cs[..k]) && PlainAll(cs)[k..] == PlainAll(cs[k..])
  {
    hide Hang, IdsOfAll, Plain, PlainAll;
    ConcatLinks(cs[..k], cs[k..], p);
    assert cs == cs[..k] + cs[k..];
  }

  lemma OneLinked(n: LinkedNode)
    ensures Hang([n], n.parent) <==> Linked(n)
    ensures PlainAll([n]) == [Plain(n)] && IdsOfAll([n]) == Ids(n)
  {
    hide Ids, Linked, Plain;
    OneId(n);
    assert [n][0] == n;
  }

  lemma BranchIs(id: nat, parent: Option<nat>, cs: seq<LinkedNode>, size: int, height: real)
    ensures var b := BranchChunk(id, parent, cs, size, height);
            && Plain(b) == Branch(PlainAll(cs), size, height) && Ids(b) == multiset{id} + IdsOfAll(cs)
            && (Linked(b) <==> Hang(cs, Some(id)))
  {
  }

  /** A new branch over nodes that are linked below. */
  lemma MakesBranch(id: nat, parent: Option<nat>, cs: seq<LinkedNode>, from: Option<nat>)
    requires Hang(cs, from)
    ensures var b := MakeBranch(id, parent, cs);
            && Plain(b) == NewBranch(PlainAll(cs)) && Linked(b) && Hang(b.children, Some(id))
            && Ids(b) == multiset{id} + IdsOfAll(cs)
            && PlainAll(b.children) == PlainAll(cs) && IdsOfAll(b.children) == IdsOfAll(cs)
            && b == BranchChunk(id, parent, b.children, NewBranch(PlainAll(cs)).size, NewBranch(PlainAll(cs)).height)
  {
    var r := Adopt(cs, id);
    forall i: nat | i < |cs| ensures Plain(r[i]) == Plain(cs[i]) && Linked(r[i]) {
    }
    assert PlainAll(r) == PlainAll(cs);
    AdoptKeepsIds(cs, id);
  }

  lemma MakesLeaf(id: nat, parent: Option<nat>, ls: seq<LinkedLine>)
    ensures var n := MakeLeaf(id, parent, ls);
            Plain(n) == NewLeaf(PlainLines(ls)) && Linked(n) && Ids(n) == multiset{id}
  {
    assert PlainLines(Claim(ls, id)) == PlainLines(ls);
  }

  lemma FreshConcat(a: nat, b: nat, c: nat)
    requires a <= b <= c
    ensures Fresh(a, c) == Fresh(a, b) + Fresh(b, c)
  {
  }

  lemma FreshNext(a: nat, b: nat)
    requires a < b
    ensures Fresh(a, b) == multiset{a} + Fresh(a + 1, b)
  {
  }

  lemma FreshNone(a: nat)
    ensures Fresh(a, a) == multiset{}
  {
  }

  // ----- inserting keeps the links -----

  /** `f` stands for the plain nodes `ns`, hangs from `p`, and has the identities `ids` and fresh ones. */
  ghost predicate Stands(f: Forest, ns: seq<Node>, p: Option<nat>, ids: multiset<nat>, next: nat)
  {
    && PlainAll(f.nodes) == ns && Hang(f.nodes, p)
    && next <= f.next && IdsOfAll(f.nodes) == ids + Fresh(next, f.next)
  }

  lemma AloneStands(n: LinkedNode, next: nat)
    requires Linked(n)
    ensures Stands(Forest([n], next), [Plain(n)], n.parent, Ids(n), next)
  {
    hide Ids, IdsOfAll, Hang, Linked, Plain, PlainAll, Fresh;
    OneLinked(n);
    FreshNone(next);
  }

  /** A forest made after some identities have been used: these count as fresh as well. */
  lemma StandsAfter(f: Forest, ns: seq<Node>, p: Option<nat>, ids: multiset<nat>, next: nat, mid: nat)
    requires next <= mid && Stands(f, ns, p, ids + Fresh(next, mid), mid)
    ensures Stands(f, ns, p, ids, next)
  {
    hide IdsOfAll, Hang, PlainAll, Fresh;
    FreshConcat(next, mid, f.next);
  }

  /** A node with identity `next` put behind a forest whose identities are fresh from `next` + 1 on. */
  lemma OneMoreStands(f: Forest, ns: seq<Node>, n: LinkedNode, p: Option<nat>, ids: multiset<nat>, next: nat,
      below: multiset<nat>)
    requires Stands(f, ns, p, ids, next + 1) && n.parent == p && Linked(n) && Ids(n) == multiset{next} + below
    ensures Stands(Forest(f.nodes + [n], f.next), ns + [Plain(n)], p, ids + below, next)
  {
    hide Ids, IdsOfAll, Hang, Linked, Plain, PlainAll, Fresh;
    ConcatLinks(f.nodes, [n], p);
    OneLinked(n);
    FreshNext(next, f.next);
    assert ids + Fresh(next + 1, f.next) + (multiset{next} + below)
        == ids + below + (multiset{next} + Fresh(next + 1, f.next));
  }

  /** A forest between nodes that stay. */
  lemma StandsBeside(f: Forest, ns: seq<Node>, p: Option<nat>, ids: multiset<nat>, next: nat, a: seq<LinkedNode>,
      b: seq<LinkedNode>)
    requires Stands(f, ns, p, ids, next) && Hang(a, p) && Hang(b, p)
    ensures Stands(Forest(a + f.nodes + b, f.next), PlainAll(a) + ns + PlainAll(b), p, IdsOfAll(a) + ids + IdsOfAll(b),
              next)
  {
    hide IdsOfAll, Hang, PlainAll, Fresh;
    ConcatLinks(a, f.nodes, p);
    ConcatLinks(a + f.nodes, b, p);
    assert IdsOfAll(a) + (ids + Fresh(next, f.next)) + IdsOfAll(b)
        == IdsOfAll(a) + ids + IdsOfAll(b) + Fresh(next, f.next);
  }

  lemma {:induction false} SplitLinks(id: nat, parent: Option<nat>, ls: seq<LinkedLine>, height: real, next: nat)
    requires LinesHang(ls, id)
    ensures Stands(SplitLinked(id, parent, ls, height, next), SplitLeaf(PlainLines(ls), height), parent, multiset{id},
              next)
  {
    hide Stands, Hang, IdsOfAll, PlainAll, Fresh;
    if |ls| <= MAX_LEAF {
      AloneStands(LeafChunk(id, parent, ls, height), next);
      assert Ids(LeafChunk(id, parent, ls, height)) == multiset{id};
    } else {
      var k := |ls| - SPILL_LINES;
      var newleaf := MakeLeaf(next, parent, ls[k..]);
      MakesLeaf(next, parent, ls[k..]);
      var f := SplitLinked(id, parent, ls[..k], height - newleaf.height, next + 1);
      assert PlainLines(ls)[..k] == PlainLines(ls[..k]) && PlainLines(ls)[k..] == PlainLines(ls[k..]);
      SplitLinks(id, parent, ls[..k], height - newleaf.height, next + 1);
      OneMoreStands(f, SplitLeaf(PlainLines(ls[..k]), height - newleaf.height), newleaf, parent, multiset{id}, next,
        multiset{});
      assert multiset{id} + multiset{} == multiset{id};
    }
  }

  lemma {:induction false} SpillLinks(id: nat, parent: Option<nat>, cs: seq<LinkedNode>, size: int, height: real,
      next: nat)
    requires Hang(cs, Some(id))
    ensures Stands(SpillLinked(id, parent, cs, size, height, next), SpillBranch(PlainAll(cs), size, height), parent,
                   multiset{id} + IdsOfAll(cs), next)
  {
    hide Stands, Hang, Ids, IdsOfAll, Plain, PlainAll, Linked, Fresh, MakeBranch;
    if |cs| <= MAX_CHILDREN {
      BranchIs(id, parent, cs, size, height);
      AloneStands(BranchChunk(id, parent, cs, size, height), next);
    } else {
      var k := |cs| - SPILL_CHILDREN;
      var a, b := cs[..k], cs[k..];
      CutLinks(cs, k, Some(id));
      var sibling := MakeBranch(next, parent, b);
      MakesBranch(next, parent, b, Some(id));
      SpillLinks(id, parent, a, size - sibling.size, height - sibling.height, next + 1);
      var f := SpillLinked(id, parent, a, size - sibling.size, height - sibling.height, next + 1);
      var ns := SpillBranch(PlainAll(a), size - sibling.size, height - sibling.height);
      OneMoreStands(f, ns, sibling, parent, multiset{id} + IdsOfAll(a), next, IdsOfAll(b));
      assert multiset{id} + IdsOfAll(a) + IdsOfAll(b) == multiset{id} + IdsOfAll(cs);
    }
  }

  lemma {:induction false} SpillRootLinks(id: nat, cs: seq<LinkedNode>, next: nat)
    requires Hang(cs, Some(id))
    ensures Stands(SpillLinkedRoot(id, cs, next), SpillRoot(PlainAll(cs)), Some(id), IdsOfAll(cs), next)
    decreases |cs|
  {
    hide Hang, IdsOfAll, PlainAll, Fresh, SpillLinked, MakeBranch;
    if |cs| <= MAX_CHILDREN {
      SelfStands(cs, Some(id), next);
    } else {
      SpillRootOnce(id, cs, next);
      var f := SpillOnce(id, cs, next);
      SpillRootLinks(id, f.nodes, f.next);
      SpillOnceMore(id, cs, next);
      StandsAfter(SpillLinkedRoot(id, f.nodes, f.next), SpillRoot(PlainAll(f.nodes)), Some(id), IdsOfAll(cs), next,
        f.next);
    }
  }

  lemma SelfStands(cs: seq<LinkedNode>, p: Option<nat>, next: nat)
    requires Hang(cs, p)
    ensures Stands(Forest(cs, next), PlainAll(cs), p, IdsOfAll(cs), next)
  {
    hide Hang, IdsOfAll, PlainAll, Fresh;
    FreshNone(next);
  }

  lemma SpillOnceMore(id: nat, cs: seq<LinkedNode>, next: nat)
    requires |cs| > MAX_CHILDREN
    ensures var f := SpillOnce(id, cs, next); SpillLinkedRoot(id, cs, next) == SpillLinkedRoot(id, f.nodes, f.next)
  {
    hide MakeBranch, SpillLinked;
  }

  /** One round of maybeSpill at the root. */
  function SpillOnce(id: nat, cs: seq<LinkedNode>, next: nat): (f: Forest)
    requires |cs| > MAX_CHILDREN
    ensures |f.nodes| < |cs|
  {
    var k := |cs| - SPILL_CHILDREN;
    var sibling, copy := MakeBranch(next, Some(id), cs[k..]), MakeBranch(next + 1, Some(id), cs[..k]);
    var f := SpillLinked(copy.id, copy.parent, copy.children, copy.size, copy.height, next + 2);
    Forest(f.nodes + [sibling], f.next)
  }

  lemma SpillRootOnce(id: nat, cs: seq<LinkedNode>, next: nat)
    requires Hang(cs, Some(id)) && |cs| > MAX_CHILDREN
    ensures var copy := NewBranch(PlainAll(cs)[..|cs| - SPILL_CHILDREN]);
            var ns := SpillBranch(copy.children, copy.size, copy.height) +
              [NewBranch(PlainAll(cs)[|cs| - SPILL_CHILDREN..])];
            Stands(SpillOnce(id, cs, next), ns, Some(id), IdsOfAll(cs), next)
  {
    hide Stands, Hang, Ids, IdsOfAll, Plain, Linked, Fresh, PlainAll, MakeBranch, SpillLinked, SpillBranch;
    var k := |cs| - SPILL_CHILDREN;
    var a, b := cs[..k], cs[k..];
    CutLinks(cs, k, Some(id));
    var sibling, copy := MakeBranch(next, Some(id), b), MakeBranch(next + 1, Some(id), a);
    MakesBranch(next, Some(id), b, Some(id));
    MakesBranch(next + 1, Some(id), a, Some(id));
    SpillLinks(copy.id, copy.parent, copy.children, copy.size, copy.height, next + 2);
    var f := SpillLinked(copy.id, copy.parent, copy.children, copy.size, copy.height, next + 2);
    var ns := SpillBranch(PlainAll(a), copy.size, copy.height);
    SpentOne(f, ns, Some(id), IdsOfAll(a), next + 1);
    OneMoreStands(f, ns, sibling, Some(id), IdsOfAll(a), next, IdsOfAll(b));
  }

  /** An identity of the forest that was the next one before it counts as fresh. */
  lemma SpentOne(f: Forest, ns: seq<Node>, p: Option<nat>, ids: multiset<nat>, next: nat)
    requires Stands(f, ns, p, multiset{next} + ids, next + 1)
    ensures Stands(f, ns, p, ids, next)
  {
    hide IdsOfAll, Hang, PlainAll, Fresh;
    FreshNext(next, f.next);
    assert multiset{next} + ids + Fresh(next + 1, f.next) == ids + (multiset{next} + Fresh(next + 1, f.next));
  }

  lemma {:induction false} GrowLinks(n: LinkedNode, at: int, lines: seq<Line>, height: real, next: nat)
    requires Linked(n)
    ensures Stands(GrowLinked(n, at, lines, height, next), Grow(Plain(n), at, lines, height), n.parent, Ids(n), next)
    decreases n, 1
  {
    hide Stands, Hang, Ids, IdsOfAll, Fresh, Plain, PlainAll, Linked;
    if n.LeafChunk? {
      GrowLeafLinks(n, at, lines, height, next);
    } else {
      BranchIs(n.id, n.parent, n.children, n.size, n.height);
      InsertBelowLinks(n.children, at, lines, height, next, Some(n.id));
      var f := InsertBelowLinked(n.children, at, lines, height, next);
      GrowBranchLinks(n, f, InsertBelow(PlainAll(n.children), at, lines, height), n.size + |lines|, n.height + height,
        next);
    }
  }

  lemma GrowLeafLinks(n: LinkedNode, at: int, lines: seq<Line>, height: real, next: nat)
    requires n.LeafChunk? && Linked(n)
    ensures Stands(GrowLinked(n, at, lines, height, next), Grow(Plain(n), at, lines, height), n.parent, Ids(n), next)
  {
    hide Stands, Hang, IdsOfAll, Fresh, PlainAll;
    var ls := n.lines;
    if 0 <= at <= |ls| {
      var r := ls[..at] + NewLines(lines, n.id) + ls[at..];
      assert PlainLines(r) == PlainLines(ls)[..at] + lines + PlainLines(ls)[at..];
      SplitLinks(n.id, n.parent, r, n.height + height, next);
      assert Ids(n) == multiset{n.id};
    } else {
      AloneStands(n, next);
    }
  }

  /** A branch over children that have grown, with the siblings it sheds. */
  lemma GrowBranchLinks(n: LinkedNode, f: Forest, ns: seq<Node>, size: int, height: real, next: nat)
    requires n.BranchChunk? && Stands(f, ns, Some(n.id), IdsOfAll(n.children), next)
    ensures Stands(SpillLinked(n.id, n.parent, f.nodes, size, height, f.next), SpillBranch(ns, size, height), n.parent,
              Ids(n), next)
  {
    hide Hang, Ids, IdsOfAll, Fresh, Plain, PlainAll, Linked;
    BranchIs(n.id, n.parent, n.children, n.size, n.height);
    SpillLinks(n.id, n.parent, f.nodes, size, height, f.next);
    var g := SpillLinked(n.id, n.parent, f.nodes, size, height, f.next);
    assert multiset{n.id} + (IdsOfAll(n.children) + Fresh(next, f.next)) == Ids(n) + Fresh(next, f.next);
    StandsAfter(g, SpillBranch(ns, size, height), n.parent, Ids(n), next, f.next);
  }

  lemma {:induction false} InsertBelowLinks(cs: seq<LinkedNode>, at: int, lines: seq<Line>, height: real, next: nat,
      p: Option<nat>)
    requires Hang(cs, p)
    ensures Stands(InsertBelowLinked(cs, at, lines, height, next), InsertBelow(PlainAll(cs), at, lines, height), p,
              IdsOfAll(cs), next)
    decreases cs, 0
  {
    hide Stands, Hang, Ids, IdsOfAll, Plain, PlainAll, Linked, Fresh;
    NothingHangs(p);
    if cs == [] {
      SelfStands([], p, next);
    } else {
      HeadLinks(cs, p);
      var sz := ChunkSize(Plain(cs[0]));
      if at <= sz {
        GrowLinks(cs[0], at, lines, height, next);
        var f := GrowLinked(cs[0], at, lines, height, next);
        StandsBeside(f, Grow(Plain(cs[0]), at, lines, height), p, Ids(cs[0]), next, [], cs[1..]);
        assert [] + f.nodes + cs[1..] == f.nodes + cs[1..];
        assert [] + Grow(Plain(cs[0]), at, lines, height) == Grow(Plain(cs[0]), at, lines, height);
        assert PlainAll(cs)[1..] == PlainAll(cs[1..]) && multiset{} + Ids(cs[0]) == Ids(cs[0]);
      } else {
        InsertBelowLinks(cs[1..], at - sz, lines, height, next, p);
        var f := InsertBelowLinked(cs[1..], at - sz, lines, height, next);
        StandsBeside(f, InsertBelow(PlainAll(cs[1..]), at - sz, lines, height), p, IdsOfAll(cs[1..]), next, [cs[0]],
          []);
        assert [cs[0]] + f.nodes + [] == [cs[0]] + f.nodes;
        assert PlainAll(cs)[1..] == PlainAll(cs[1..]);
        var ns := InsertBelow(PlainAll(cs[1..]), at - sz, lines, height);
        assert [Plain(cs[0])] + ns + [] == [Plain(cs[0])] + ns;
        assert Ids(cs[0]) + IdsOfAll(cs[1..]) + multiset{} == IdsOfAll(cs);
      }
    }
  }

  lemma HeadLinks(cs: seq<LinkedNode>, p: Option<nat>)
    requires Hang(cs, p) && cs != []
    ensures cs[0].parent == p && Linked(cs[0]) && Hang([cs[0]], p) && Hang(cs[1..], p)
    ensures PlainAll([cs[0]]) == [Plain(cs[0])] && PlainAll(cs) == [Plain(cs[0])] + PlainAll(cs[1..])
    ensures IdsOfAll([cs[0]]) == Ids(cs[0]) && IdsOfAll(cs) == Ids(cs[0]) + IdsOfAll(cs[1..])
  {
    hide Ids, Plain, Linked;
    OneId(cs[0]);
    assert cs[..1] == [cs[0]];
  }

  lemma NothingHangs(p: Option<nat>)
    ensures Hang([], p) && PlainAll([]) == [] && IdsOfAll([]) == multiset{}
  {
  }

  /** Inserting with links is inserting, and every link is right again. */
  lemma InsertKeepsLinks(root: LinkedNode, at: int, lines: seq<Line>, next: nat)
    requires ProperTree(root, next)
    ensures var (r, next') := InsertLinked(root, at, lines, next);
            ProperTree(r, next') && Plain(r) == Insert(Plain(root), at, lines)
  {
    hide Hang, IdsOfAll, Fresh, PlainAll, Distinct;
    var height := TotalHeight(lines);
    BranchIs(root.id, root.parent, root.children, root.size, root.height);
    InsertBelowLinks(root.children, at, lines, height, next, Some(root.id));
    var below := InsertBelowLinked(root.children, at, lines, height, next);
    SpillRootLinks(root.id, below.nodes, below.next);
    var f := SpillLinkedRoot(root.id, below.nodes, below.next);
    StandsAfter(f, SpillRoot(PlainAll(below.nodes)), Some(root.id), IdsOfAll(root.children), next, below.next);
    BranchIs(root.id, root.parent, f.nodes, root.size + |lines|, root.height + height);
    assert multiset{root.id} + (IdsOfAll(root.children) + Fresh(next, f.next)) == Ids(root) + Fresh(next, f.next);
    StaysDistinct(Ids(root), Ids(root) + Fresh(next, f.next), next, f.next);
  }

  /** Identities that were distinct stay so when some go and fresh ones come. */
  lemma StaysDistinct(ids: multiset<nat>, ids': multiset<nat>, next: nat, next': nat)
    requires Distinct(ids, next) && next <= next' && ids' <= ids + Fresh(next, next')
    ensures Distinct(ids', next')
  {
    forall x: nat ensures ids'[x] <= 1 && (x >= next' ==> ids'[x] == 0) {
      assert ids'[x] <= (ids + Fresh(next, next'))[x];
    }
  }

  // ----- removing keeps the links -----

  lemma {:induction false} AllPlainLines(n: LinkedNode)
    ensures PlainLines(AllLines(n)) == Lines(Plain(n))
    decreases n, 1
  {
    if n.BranchChunk? { AllPlainLinesBelow(n.children); }
  }

  lemma {:induction false} AllPlainLinesBelow(cs: seq<LinkedNode>)
    ensures PlainLines(AllLinesBelow(cs)) == Flatten(PlainAll(cs))
    decreases cs, 0
  {
    if cs != [] {
      AllPlainLines(cs[0]);
      AllPlainLinesBelow(cs[1..]);
      assert PlainAll(cs)[1..] == PlainAll(cs[1..]);
    }
  }

  /** `r` stands in for `node`, with some identities gone and fresh ones come. */
  ghost predicate Replaces(r: LinkedNode, next': nat, node: LinkedNode, ids: multiset<nat>, next: nat)
  {
    && r.parent == node.parent && Linked(r) && (r.BranchChunk? <==> node.BranchChunk?) && r.id == node.id
    && next <= next' && Ids(r) <= ids + Fresh(next, next')
  }

  /** `left` hangs from `p`, with some identities of `ids` gone and fresh ones come. */
  ghost predicate Remains(left: seq<LinkedNode>, next': nat, p: Option<nat>, ids: multiset<nat>, next: nat)
  {
    Hang(left, p) && next <= next' && IdsOfAll(left) <= ids + Fresh(next, next')
  }

  lemma CollapsedLinks(b: LinkedNode, next: nat)
    requires b.BranchChunk? && Linked(b)
    ensures var (r, next') := CollapsedLinked(b, next);
            Plain(r) == Collapsed(Plain(b)) && Replaces(r, next', b, Ids(b), next)
  {
    var (r, next') := CollapsedLinked(b, next);
    var leaf := MakeLeaf(next, Some(b.id), AllLinesBelow(b.children));
    AllPlainLinesBelow(b.children);
    MakesLeaf(next, Some(b.id), AllLinesBelow(b.children));
    OneLinked(leaf);
    hide IdsOfAll, Fresh, Hang;
    if r == b {
      FreshNone(next);
    } else {
      FreshNone(next + 1);
      FreshNext(next, next + 1);
      assert Ids(r) == multiset{b.id} + multiset{next};
    }
  }

  lemma {:induction false} RemoveLinks(node: LinkedNode, at: int, n: int, next: nat)
    requires Linked(node) && 0 <= at && 0 < n
    ensures var (r, next') := RemoveLinked(node, at, n, next);
            Plain(r) == Remove(Plain(node), at, n) && Replaces(r, next', node, Ids(node), next)
    decreases node, 2
  {
    hide Hang, Ids, IdsOfAll, Fresh, Plain, PlainAll, Linked, Replaces, Remains, RemoveBelow, RemoveBelowLinked,
      Collapsed, CollapsedLinked;
    if node.LeafChunk? {
      RemoveLeafLinks(node, at, n, next);
    } else {
      var q := RemoveBelowLinked(node.children, at, n, next);
      BranchIs(node.id, node.parent, node.children, node.size, node.height);
      RemoveBelowLinks(node.children, at, n, next, Some(node.id));
      RemoveBranchLinks(node, n, q, next);
    }
  }

  lemma RemoveLeafLinks(node: LinkedNode, at: int, n: int, next: nat)
    requires node.LeafChunk? && Linked(node) && 0 <= at && 0 < n
    ensures var (r, next') := RemoveLinked(node, at, n, next);
            Plain(r) == Remove(Plain(node), at, n) && Replaces(r, next', node, Ids(node), next)
  {
    hide Fresh;
    FreshNone(next);
    var ls := node.lines;
    if at + n <= |ls| {
      assert PlainLines(ls[..at] + ls[at + n..]) == PlainLines(ls)[..at] + PlainLines(ls)[at + n..];
    }
  }

  /** The branch that removeInner leaves, collapsed or not. */
  lemma RemoveBranchLinks(node: LinkedNode, n: int, q: LinkedPruned, next: nat)
    requires node.BranchChunk? && Remains(q.left, q.next, Some(node.id), IdsOfAll(node.children), next)
    ensures var b := BranchChunk(node.id, node.parent, q.left, node.size - n, node.height - q.gone);
            var (r, next') := CollapsedLinked(b, q.next);
            && Plain(r) == Collapsed(Branch(PlainAll(q.left), node.size - n, node.height - q.gone))
            && Replaces(r, next', node, Ids(node), next)
  {
    hide Hang, Ids, IdsOfAll, Fresh, Plain, PlainAll, Linked, Collapsed, CollapsedLinked;
    BranchIs(node.id, node.parent, node.children, node.size, node.height);
    BranchIs(node.id, node.parent, q.left, node.size - n, node.height - q.gone);
    var b := BranchChunk(node.id, node.parent, q.left, node.size - n, node.height - q.gone);
    CollapsedLinks(b, q.next);
    var (r, next') := CollapsedLinked(b, q.next);
    FreshConcat(next, q.next, next');
    GoneAndCome(Ids(r), Ids(b), Ids(node), Fresh(next, q.next), Fresh(q.next, next'), Fresh(next, next'),
                multiset{node.id}, IdsOfAll(q.left), IdsOfAll(node.children));
  }

  lemma GoneAndCome(r: multiset<nat>, b: multiset<nat>, node: multiset<nat>, f1: multiset<nat>, f2: multiset<nat>,
      f: multiset<nat>, id: multiset<nat>, left: multiset<nat>, children: multiset<nat>)
    requires r <= b + f2 && b == id + left && left <= children + f1 && node == id + children && f == f1 + f2
    ensures r <= node + f
  {
    assert b <= node + f1;
  }

  lemma {:induction false} RemoveBelowLinks(cs: seq<LinkedNode>, at: int, n: int, next: nat, p: Option<nat>)
    requires Hang(cs, p) && 0 <= at && 0 < n
    ensures var q := RemoveBelowLinked(cs, at, n, next);
            RemoveBelow(PlainAll(cs), at, n) == Pruned(PlainAll(q.left), q.gone) &&
              Remains(q.left, q.next, p, IdsOfAll(cs), next)
    decreases cs, 1
  {
    hide Hang, Ids, IdsOfAll, Plain, PlainAll, Linked, Fresh, Remains, Replaces, RemoveLinked, Remove;
    NothingHangs(p);
    if cs == [] {
      AllRemain([], p, next);
    } else {
      HeadLinks(cs, p);
      assert PlainAll(cs)[1..] == PlainAll(cs[1..]);
      var sz := ChunkSize(Plain(cs[0]));
      PlainHeight(cs[0]);
      if at < sz {
        RemoveWithinLinks(cs, at, n, next, p);
      } else {
        RemoveBelowLinks(cs[1..], at - sz, n, next, p);
        var others := RemoveBelowLinked(cs[1..], at - sz, n, next);
        AllRemain([cs[0]], p, next);
        ConcatRemains([cs[0]], Ids(cs[0]), next, next, others.left, IdsOfAll(cs[1..]), others.next, p);
      }
    }
  }

  /** Removing starts in the first child. */
  lemma {:induction false} RemoveWithinLinks(cs: seq<LinkedNode>, at: int, n: int, next: nat, p: Option<nat>)
    requires Hang(cs, p) && 0 <= at && 0 < n && cs != [] && at < ChunkSize(Plain(cs[0]))
    ensures var q := RemoveBelowLinked(cs, at, n, next);
            RemoveBelow(PlainAll(cs), at, n) == Pruned(PlainAll(q.left), q.gone) &&
              Remains(q.left, q.next, p, IdsOfAll(cs), next)
    decreases cs, 0
  {
    hide Hang, Ids, IdsOfAll, Plain, PlainAll, Linked, Fresh, Remains, Replaces, RemoveLinked, Remove;
    HeadLinks(cs, p);
    assert PlainAll(cs)[1..] == PlainAll(cs[1..]);
    var sz := ChunkSize(Plain(cs[0]));
    var rm := Min(n, sz - at);
    RemoveLinks(cs[0], at, rm, next);
    var (child, next') := RemoveLinked(cs[0], at, rm, next);
    PlainHeight(cs[0]);
    PlainHeight(child);
    var left := if sz == rm then [] else [child];
    ChildRemains(child, next', cs[0], next, sz == rm);
    if n == rm {
      AllRemain(cs[1..], p, next');
      ConcatRemains(left, Ids(cs[0]), next, next', cs[1..], IdsOfAll(cs[1..]), next', p);
    } else {
      RemoveBelowLinks(cs[1..], 0, n - rm, next', p);
      var others := RemoveBelowLinked(cs[1..], 0, n - rm, next');
      ConcatRemains(left, Ids(cs[0]), next, next', others.left, IdsOfAll(cs[1..]), others.next, p);
    }
  }

  lemma PlainHeight(n: LinkedNode)
    ensures Plain(n).height == n.height
  {
  }

  lemma AllRemain(cs: seq<LinkedNode>, p: Option<nat>, next: nat)
    requires Hang(cs, p)
    ensures Remains(cs, next, p, IdsOfAll(cs), next)
  {
  }

  lemma ChildRemains(child: LinkedNode, next': nat, c: LinkedNode, next: nat, gone: bool)
    requires Replaces(child, next', c, Ids(c), next)
    ensures var left := if gone then [] else [child];
            Remains(left, next', c.parent, Ids(c), next) && PlainAll(left) == if gone then [] else [Plain(child)]
  {
    hide Ids, Linked, Plain, Fresh;
    OneLinked(child);
  }

  lemma ConcatRemains(a: seq<LinkedNode>, ids: multiset<nat>, next: nat, mid: nat, b: seq<LinkedNode>,
      others: multiset<nat>, next': nat, p: Option<nat>)
    requires Remains(a, mid, p, ids, next) && Remains(b, next', p, others, mid)
    ensures Remains(a + b, next', p, ids + others, next) && PlainAll(a + b) == PlainAll(a) + PlainAll(b)
  {
    hide Hang, IdsOfAll, Fresh, PlainAll;
    ConcatLinks(a, b, p);
    FreshConcat(next, mid, next');
    assert IdsOfAll(a + b) <= (ids + Fresh(next, mid)) + (others + Fresh(mid, next'));
    assert (ids + Fresh(next, mid)) + (others + Fresh(mid, next'))
        == ids + others + (Fresh(next, mid) + Fresh(mid, next'));
  }

  /** Removing with links is removing, and every link is right again. */
  lemma RemoveKeepsLinks(root: LinkedNode, at: int, n: int, next: nat)
    requires ProperTree(root, next) && 0 <= at && 0 < n
    ensures var (r, next') := RemoveLinked(root, at, n, next);
            ProperTree(r, next') && Plain(r) == Remove(Plain(root), at, n)
  {
    hide Hang, IdsOfAll, Fresh, PlainAll, Distinct, RemoveLinked;
    RemoveLinks(root, at, n, next);
    var (r, next') := RemoveLinked(root, at, n, next);
    StaysDistinct(Ids(root), Ids(r), next, next');
  }

  // ----- walking up the links -----

  /** The node `j` steps down the way `p`. */
  function Below(n: LinkedNode, p: I.Path, j: nat): LinkedNode
    requires I.Leads(Plain(n), p) && j < |p|
    decreases j
  {
    if j == 0 then n else Below(n.children[p[0]], p[1..], j - 1)
  }

  /** Following a link: the object with identity `id`. */
  function Lookup(n: LinkedNode, id: nat): Option<LinkedNode>
    decreases n, 1
  {
    if n.id == id then Some(n) else if n.BranchChunk? then LookupAmong(n.children, id) else None
  }

  function LookupAmong(cs: seq<LinkedNode>, id: nat): Option<LinkedNode>
    decreases cs, 0
  {
    if cs == [] then None
    else
      var found := Lookup(cs[0], id);
      if found.Some? then found else LookupAmong(cs[1..], id)
  }

  lemma {:induction false} NotThere(n: LinkedNode, id: nat)
    requires id !in Ids(n)
    ensures Lookup(n, id) == None
    decreases n, 1
  {
    if n.BranchChunk? { NotAmong(n.children, id); }
  }

  lemma {:induction false} NotAmong(cs: seq<LinkedNode>, id: nat)
    requires id !in IdsOfAll(cs)
    ensures LookupAmong(cs, id) == None
    decreases cs, 0
  {
    if cs != [] {
      NotThere(cs[0], id);
      NotAmong(cs[1..], id);
    }
  }

  /** An identity that is in one child only is found there. */
  lemma {:induction false} FoundAmong(cs: seq<LinkedNode>, i: nat, id: nat)
    requires i < |cs| && id in Ids(cs[i]) && IdsOfAll(cs)[id] <= 1
    ensures LookupAmong(cs, id) == Lookup(cs[i], id) || Lookup(cs[i], id) == None
    ensures Ids(cs[i]) <= IdsOfAll(cs)
    ensures forall k: nat | k < i :: id !in Ids(cs[k])
  {
    hide Ids, Lookup;
    if i > 0 {
      FoundAmong(cs[1..], i - 1, id);
      assert cs[i] == cs[1..][i - 1];
      assert IdsOfAll(cs)[id] == Ids(cs[0])[id] + IdsOfAll(cs[1..])[id];
      NotThere(cs[0], id);
      forall k: nat | k < i ensures id !in Ids(cs[k]) {
        if k > 0 { assert cs[k] == cs[1..][k - 1]; }
      }
    }
  }

  /** On a tree without repeated identities a link leads to the node that bears it. */
  lemma {:induction false} LinkLeadsTo(n: LinkedNode, p: I.Path, j: nat)
    requires I.Leads(Plain(n), p) && j < |p| && forall x: nat :: Ids(n)[x] <= 1
    ensures var m := Below(n, p, j); m.id in Ids(n) && Lookup(n, m.id) == Some(m)
    decreases j
  {
    hide Ids, IdsOfAll, Lookup, LookupAmong;
    if j == 0 {
      OwnId(n);
    } else {
      var cs, i, m := n.children, p[0], Below(n, p, j);
      assert m == Below(cs[i], p[1..], j - 1);
      AmongSome(cs, i);
      forall x: nat ensures Ids(cs[i])[x] <= 1 {
        UnderBranch(n, x);
        assert Ids(cs[i])[x] <= IdsOfAll(cs)[x];
      }
      LinkLeadsTo(cs[i], p[1..], j - 1);
      UnderBranch(n, m.id);
      FoundAmong(cs, i, m.id);
    }
  }

  lemma OwnId(n: LinkedNode)
    ensures n.id in Ids(n) && Lookup(n, n.id) == Some(n)
  {
    hide IdsOfAll;
  }

  lemma {:induction false} AmongSome(cs: seq<LinkedNode>, i: nat)
    requires i < |cs|
    ensures Ids(cs[i]) <= IdsOfAll(cs)
  {
    hide Ids;
    if i > 0 { AmongSome(cs[1..], i - 1); }
  }

  lemma UnderBranch(n: LinkedNode, id: nat)
    requires n.BranchChunk? && forall x: nat :: Ids(n)[x] <= 1
    ensures IdsOfAll(n.children)[id] <= 1 && (id in IdsOfAll(n.children) ==> id in Ids(n) && n.id != id)
    ensures n.id != id ==> Lookup(n, id) == LookupAmong(n.children, id)
  {
    hide IdsOfAll;
    assert Ids(n)[n.id] == 1 + IdsOfAll(n.children)[n.id];
  }

  /** One link up from where the way has come to. */
  lemma {:induction false} LinkUp(n: LinkedNode, p: I.Path, j: nat)
    requires Linked(n) && I.Leads(Plain(n), p) && 0 < j < |p|
    ensures var c, d := Below(n, p, j - 1), Below(n, p, j);
            && c.BranchChunk? && p[j - 1] < |c.children| && c.children[p[j - 1]] == d
            && d.parent == Some(c.id) && Linked(d)
    decreases j
  {
    var c := n.children[p[0]];
    assert c.parent == Some(n.id) && Linked(c);
    if j == 1 {
      assert Below(n, p, 1) == Below(c, p[1..], 0) == c;
    } else {
      hide Linked;
      LinkUp(c, p[1..], j - 1);
      assert Below(n, p, j - 1) == Below(c, p[1..], j - 2) && Below(n, p, j) == Below(c, p[1..], j - 1);
    }
  }

  /** The way to a line ends in its leaf, which its link names. */
  lemma {:induction false} LineUp(n: LinkedNode, p: I.Path)
    requires Linked(n) && I.Leads(Plain(n), p)
    ensures var leaf := Below(n, p, |p| - 1);
            leaf.LeafChunk? && p[|p| - 1] < |leaf.lines| && leaf.lines[p[|p| - 1]].parent == Some(leaf.id)
    decreases |p|
  {
    if n.BranchChunk? {
      assert Linked(n.children[p[0]]);
      LineUp(n.children[p[0]], p[1..]);
    }
  }

  lemma {:induction false} DistinctBelow(n: LinkedNode, p: I.Path, j: nat)
    requires I.Leads(Plain(n), p) && j < |p| && forall x: nat :: Ids(n)[x] <= 1
    ensures forall x: nat :: Ids(Below(n, p, j))[x] <= 1
    decreases j
  {
    hide Ids, IdsOfAll;
    if j > 0 {
      var cs, i := n.children, p[0];
      AmongSome(cs, i);
      forall x: nat ensures Ids(cs[i])[x] <= 1 {
        UnderBranch(n, x);
        assert Ids(cs[i])[x] <= IdsOfAll(cs)[x];
      }
      DistinctBelow(cs[i], p[1..], j - 1);
    }
  }

  /** indexOf in the children, by identity, finds the child and not one before it. */
  lemma DistinctSiblings(c: LinkedNode, i: nat, k: nat)
    requires c.BranchChunk? && k < i < |c.children| && forall x: nat :: Ids(c)[x] <= 1
    ensures c.children[k].id != c.children[i].id
  {
    hide Ids, IdsOfAll;
    var id := c.children[i].id;
    OwnId(c.children[i]);
    OwnId(c.children[k]);
    UnderBranch(c, id);
    FoundAmong(c.children, i, id);
  }

  /** The lines before the node `j` steps down the way `p`. */
  ghost function Offset(n: LinkedNode, p: I.Path, j: nat): int
    requires I.Leads(Plain(n), p) && j < |p|
    decreases j
  {
    if j == 0 then 0 else SumSizes(PlainAll(n.children)[..p[0]]) + Offset(n.children[p[0]], p[1..], j - 1)
  }

  lemma {:induction false} OffsetUp(n: LinkedNode, p: I.Path, j: nat)
    requires I.Leads(Plain(n), p) && 0 < j < |p|
    ensures var c := Below(n, p, j - 1);
            && c.BranchChunk? && p[j - 1] < |c.children|
            && Offset(n, p, j) == Offset(n, p, j - 1) + SumSizes(PlainAll(c.children)[..p[j - 1]])
    decreases j
  {
    if j > 1 { OffsetUp(n.children[p[0]], p[1..], j - 1); }
  }

  lemma {:induction false} LineNoIsOffset(n: LinkedNode, p: I.Path)
    requires I.Leads(Plain(n), p)
    ensures I.LineNo(Plain(n), p) == Offset(n, p, |p| - 1) + p[|p| - 1]
    decreases |p|
  {
    if n.BranchChunk? { LineNoIsOffset(n.children[p[0]], p[1..]); }
  }

  lemma NextSize(ns: seq<Node>, i: nat)
    requires i < |ns|
    ensures SumSizes(ns[..i + 1]) == SumSizes(ns[..i]) + ChunkSize(ns[i])
  {
    assert ns[..i + 1] == ns[..i] + [ns[i]] && [ns[i]][1..] == [];
    ConcatNodes(ns[..i], [ns[i]]);
  }

  /** No line object occurs twice. */
  ghost predicate DistinctLines(lines: seq<Line>)
  {
    forall i: nat, j: nat | i < j < |lines| :: lines[i].id != lines[j].id
  }

  /** The lines of the leaf a way ends in, from line `at` of the tree on. */
  lemma {:induction false} LeafWithin(n: LinkedNode, p: I.Path) returns (at: nat)
    requires I.Leads(Plain(n), p)
    ensures var lines, leaf := Lines(Plain(n)), Plain(Below(n, p, |p| - 1));
            leaf.Leaf? && at + |leaf.lines| <= |lines| && lines[at..at + |leaf.lines|] == leaf.lines
    decreases |p|
  {
    hide Flatten;
    if n.LeafChunk? {
      at := 0;
    } else {
      var i, cs := p[0], PlainAll(n.children);
      var k := LeafWithin(n.children[i], p[1..]);
      at := |Flatten(cs[..i])| + k;
      LinesOfChild(cs, i);
      hide Lines, Plain, PlainAll, I.Leads;
      SliceInside(Flatten(cs[..i]), Lines(cs[i]), Flatten(cs[i + 1..]), k, |Plain(Below(n, p, |p| - 1)).lines|);
    }
  }

  lemma SliceInside(a: seq<Line>, b: seq<Line>, c: seq<Line>, k: nat, m: nat)
    requires k + m <= |b|
    ensures (a + b + c)[|a| + k..|a| + k + m] == b[k..k + m]
  {
  }

  lemma LinesOfChild(cs: seq<Node>, i: nat)
    requires i < |cs|
    ensures Flatten(cs) == Flatten(cs[..i]) + Lines(cs[i]) + Flatten(cs[i + 1..])
  {
    hide Flatten, Lines;
    assert cs == cs[..i] + ([cs[i]] + cs[i + 1..]);
    ConcatNodes(cs[..i], [cs[i]] + cs[i + 1..]);
    ConcatNodes([cs[i]], cs[i + 1..]);
    OneNode(cs[i]);
  }

  /** indexOf in the lines of a leaf, by identity, finds the line and not one before it. */
  lemma DistinctInLeaf(root: LinkedNode, p: I.Path, k: nat)
    requires I.Leads(Plain(root), p) && DistinctLines(Lines(Plain(root))) && k < p[|p| - 1]
    ensures var leaf := Below(root, p, |p| - 1);
            leaf.LeafChunk? && p[|p| - 1] < |leaf.lines| ==> leaf.lines[k].line.id != leaf.lines[p[|p| - 1]].line.id
  {
    var at := LeafWithin(root, p);
    hide Below, Lines, I.Leads;
    var leaf, i, lines := Below(root, p, |p| - 1), p[|p| - 1], Lines(Plain(root));
    if leaf.LeafChunk? && i < |leaf.lines| {
      assert lines[at..at + |leaf.lines|][k] == lines[at + k] == leaf.lines[k].line;
      assert lines[at..at + |leaf.lines|][i] == lines[at + i] == leaf.lines[i].line;
    }
  }

  /** lineNo: from a line up the parent links, counting what is before. `p`: where the line is. */
  method LineNo(root: LinkedNode, line: LinkedLine, ghost p: I.Path) returns (no: int)
    requires Linked(root) && root.parent == None && (forall x: nat :: Ids(root)[x] <= 1)
    requires DistinctLines(Lines(Plain(root))) && I.Leads(Plain(root), p)
    requires var leaf := Below(root, p, |p| - 1);
             leaf.LeafChunk? && p[|p| - 1] < |leaf.lines| && line == leaf.lines[p[|p| - 1]]
    ensures no == I.LineNo(Plain(root), p)
  {
    hide Linked, Ids, Lookup, Plain, PlainAll, Offset, Below, I.Leads, I.LineNo, SumSizes, DistinctLines, Lines;
    AtRoot(root, p);
    ghost var j: nat := |p| - 1;
    LineUp(root, p);
    LinkLeadsTo(root, p, j);
    var cur := Lookup(root, line.parent.value).value;
    var index: nat := 0;
    while cur.lines[index].line.id != line.line.id
      invariant index <= p[j]
      decreases p[j] - index
    {
      index := index + 1;
    }
    if index < p[j] { DistinctInLeaf(root, p, index); }
    no := index;
    LineNoIsOffset(root, p);
    while cur.parent.Some?
      invariant j < |p| && cur == Below(root, p, j) && no + Offset(root, p, j) == I.LineNo(Plain(root), p)
      decreases j
    {
      LinkUp(root, p, j);
      LinkLeadsTo(root, p, j - 1);
      OffsetUp(root, p, j);
      DistinctBelow(root, p, j - 1);
      var chunk := Lookup(root, cur.parent.value).value;
      var i: nat := 0;
      NoSize(PlainAll(chunk.children));
      ghost var before := no;
      while chunk.children[i].id != cur.id
        invariant i <= p[j - 1] && no == before + SumSizes(PlainAll(chunk.children)[..i])
        decreases p[j - 1] - i
      {
        NextSize(PlainAll(chunk.children), i);
        no := no + ChunkSize(Plain(chunk.children[i]));
        i := i + 1;
      }
      if i < p[j - 1] { DistinctSiblings(chunk, p[j - 1], i); }
      cur := chunk;
      j := j - 1;
    }
    if j > 0 { LinkUp(root, p, j); }
  }

  lemma AtRoot(root: LinkedNode, p: I.Path)
    requires I.Leads(Plain(root), p)
    ensures |p| > 0 && Below(root, p, 0) == root && Offset(root, p, 0) == 0
  {
  }

  lemma NoSize(ns: seq<Node>)
    ensures SumSizes(ns[..0]) == 0
  {
  }

  // ----- whole runs -----

  datatype LineEdit = InsertAt(at: int, lines: seq<Line>) | RemoveAt(at: int, n: int)

  /** What the document is asked for: positions within it, and never to remove its last line. */
  predicate InBounds(s: seq<Line>, e: LineEdit)
  {
    match e
    case InsertAt(at, _) => 0 <= at <= |s|
    case RemoveAt(at, n) => 0 <= at && 0 < n < |s| && at + n <= |s|
  }

  ghost function Edited(s: seq<Line>, e: LineEdit): seq<Line>
    requires InBounds(s, e)
  {
    match e
    case InsertAt(at, lines) => Inserted(s, at, lines)
    case RemoveAt(at, n) => Removed(s, at, n)
  }

  ghost predicate AllInBounds(s: seq<Line>, es: seq<LineEdit>)
    decreases |es|
  {
    es == [] || (InBounds(s, es[0]) && AllInBounds(Edited(s, es[0]), es[1..]))
  }

  ghost function EditedAll(s: seq<Line>, es: seq<LineEdit>): seq<Line>
    requires AllInBounds(s, es)
    decreases |es|
  {
    if es == [] then s else EditedAll(Edited(s, es[0]), es[1..])
  }

  /** One edit of the tree; `root` is the document. */
  function EditTree(root: LinkedNode, next: nat, e: LineEdit): (LinkedNode, nat)
  {
    match e
    case InsertAt(at, lines) => if root.BranchChunk? then InsertLinked(root, at, lines, next) else (root, next)
    case RemoveAt(at, n) => if 0 <= at && 0 < n then RemoveLinked(root, at, n, next) else (root, next)
  }

  function EditTreeAll(root: LinkedNode, next: nat, es: seq<LineEdit>): (LinkedNode, nat)
    decreases |es|
  {
    if es == [] then (root, next)
    else
      var (r, next') := EditTree(root, next, es[0]);
      EditTreeAll(r, next', es[1..])
  }

  /** In every run of edits the tree of chunks stays linked, within its bounds and summed up, and stands for
      the edited lines. */
  lemma {:induction false} RunKeepsTree(root: LinkedNode, next: nat, es: seq<LineEdit>)
    requires ProperTree(root, next) && WellFormed(Plain(root)) && AllInBounds(Lines(Plain(root)), es)
    ensures var (r, next') := EditTreeAll(root, next, es);
            ProperTree(r, next') && WellFormed(Plain(r)) && Lines(Plain(r)) == EditedAll(Lines(Plain(root)), es)
    decreases |es|
  {
    hide Linked, Distinct, Ids, InsertLinked, RemoveLinked, Insert, Remove, WellFormed, Inserted, Removed, Lines;
    if es != [] {
      EditKeepsTree(root, next, es[0]);
      var (r, next') := EditTree(root, next, es[0]);
      RunKeepsTree(r, next', es[1..]);
    }
  }

  lemma EditKeepsTree(root: LinkedNode, next: nat, e: LineEdit)
    requires ProperTree(root, next) && WellFormed(Plain(root)) && InBounds(Lines(Plain(root)), e)
    ensures var (r, next') := EditTree(root, next, e);
            ProperTree(r, next') && WellFormed(Plain(r)) && Lines(Plain(r)) == Edited(Lines(Plain(root)), e)
  {
    hide Linked, Distinct, Ids, InsertLinked, RemoveLinked, Insert, Remove, WellFormed, Inserted, Removed, Lines;
    match e
    case InsertAt(at, lines) =>
      InsertKeepsLinks(root, at, lines, next);
      InsertRefines(Plain(root), at, lines);
    case RemoveAt(at, n) =>
      RemoveKeepsLinks(root, at, n, next);
      RemoveRefines(Plain(root), at, n);
  }

  /** The tree that a document starts with: one leaf with one empty line. */
  lemma NewTree(line: Line)
    ensures var root := BranchChunk(0, None, [MakeLeaf(1, Some(0), [LinkedLine(line, None)])], 1, line.height);
            ProperTree(root, 2) && WellFormed(Plain(root)) && Lines(Plain(root)) == [line]
  {
    var ls := [LinkedLine(line, None)];
    var leaf := MakeLeaf(1, Some(0), ls);
    assert PlainLines(ls) == [line] && [line][1..] == [];
    MakesLeaf(1, Some(0), ls);
    OneLinked(leaf);
    BranchIs(0, None, [leaf], 1, line.height);
    OneNode(Plain(leaf));
    assert Ids(BranchChunk(0, None, [leaf], 1, line.height)) == multiset{0, 1};
  }
}
