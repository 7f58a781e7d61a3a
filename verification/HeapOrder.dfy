/** Binary heaps as sequences: order along parent edges, one violated position, and where elements are. */
module HeapOrder {

  /** The macros a heap is defined with: `less(a, b)` is `order(a, b) < 0`; `ident` is what newpos reports about. */
  datatype Ops<!E, !Key, +Id> = Ops(less: (E, E) -> bool, setkey: (E, Key) -> E, ident: E -> Id)

  /** `order` is a comparison (a strict weak order), and re-keying an element keeps its identity. */
  ghost predicate Lawful<E(!new), Key(!new), Id>(ops: Ops<E, Key, Id>)
  {
    && (forall a, b :: ops.less(a, b) ==> !ops.less(b, a))
    && (forall a, b, c :: AtMost(ops, a, b) && AtMost(ops, b, c) ==> AtMost(ops, a, c))
    && (forall e, k :: ops.ident(ops.setkey(e, k)) == ops.ident(e))
  }

  predicate AtMost<E, Key, Id>(ops: Ops<E, Key, Id>, a: E, b: E)
  {
    !ops.less(b, a)
  }

  function Parent(j: nat): (p: nat)
    requires j > 0
    ensures p < j
  {
    (j + 1) / 2 - 1
  }

  function Left(p: nat): (l: nat)
    ensures l > p && Parent(l) == p
  {
    (p + 1) * 2 - 1
  }

  function Right(p: nat): (r: nat)
    ensures r > p && Parent(r) == p
  {
    (p + 1) * 2
  }

  /** The element at `j` is not below its parent. */
  ghost predicate Edge<E, Key, Id>(ops: Ops<E, Key, Id>, s: seq<E>, j: nat)
    requires 0 < j < |s|
  {
    AtMost(ops, s[Parent(j)], s[j])
  }

  ghost predicate Ordered<E, Key, Id>(ops: Ops<E, Key, Id>, s: seq<E>)
  {
    forall j: nat | 0 < j < |s| :: Edge(ops, s, j)
  }

  /** Ordered, but the edge above `q` may be violated; what is below `q` is not below the parent of `q`. */
  ghost predicate OrderedBelow<E, Key, Id>(ops: Ops<E, Key, Id>, s: seq<E>, q: nat)
  {
    && (forall j: nat | 0 < j < |s| && j != q :: Edge(ops, s, j))
    && Bridged(ops, s, q)
  }

  ghost predicate Bridged<E, Key, Id>(ops: Ops<E, Key, Id>, s: seq<E>, q: nat)
  {
    forall j: nat | 0 < j < |s| && Parent(j) == q && q > 0 :: AtMost(ops, s[Parent(q)], s[j])
  }

  /** Ordered, but the edges around `q` may be violated: below it, and above it too unless `topOk`. */
  ghost predicate OrderedAround<E, Key, Id>(ops: Ops<E, Key, Id>, s: seq<E>, q: nat, topOk: bool)
  {
    && (forall j: nat | 0 < j < |s| && Parent(j) != q && (topOk || j != q) :: Edge(ops, s, j))
    && Bridged(ops, s, q)
  }

  /** Some child of `p` is below `p`: heapify exchanges. */
  predicate Sinks<E, Key, Id>(ops: Ops<E, Key, Id>, s: seq<E>, p: nat)
    requires p < |s|
  {
    (Left(p) < |s| && ops.less(s[Left(p)], s[p])) || (Right(p) < |s| && ops.less(s[Right(p)], s[p]))
  }

  function Swap<E>(s: seq<E>, i: nat, j: nat): (r: seq<E>)
    requires i < |s| && j < |s|
    ensures |r| == |s| && multiset(r) == multiset(s)
  {
    s[i := s[j]][j := s[i]]
  }

  lemma OnlyTwoChildren(j: nat)
    requires j > 0
    ensures j == Left(Parent(j)) || j == Right(Parent(j))
  {
  }

  /** The smallest of an element and its children. */
  ghost predicate Smallest<E, Key, Id>(ops: Ops<E, Key, Id>, s: seq<E>, p: nat, c: nat)
    requires p < |s|
  {
    && c < |s| && c > 0 && Parent(c) == p && ops.less(s[c], s[p])
    && (forall j: nat | 0 < j < |s| && Parent(j) == p :: AtMost(ops, s[c], s[j]))
  }

  /** One step of heapify. */
  lemma SinkStep<E(!new), Key(!new), Id>(ops: Ops<E, Key, Id>, s: seq<E>, p: nat, c: nat, topOk: bool)
    requires Lawful(ops) && p < |s| && Smallest(ops, s, p, c) && OrderedAround(ops, s, p, topOk)
    ensures OrderedAround(ops, Swap(s, p, c), c, true)
  {
    var r := Swap(s, p, c);
    forall j: nat | 0 < j < |r| && Parent(j) != c ensures Edge(ops, r, j) {
      if j != p && Parent(j) != p { assert Edge(ops, s, j); }
    }
    forall j: nat | 0 < j < |r| && Parent(j) == c ensures AtMost(ops, r[p], r[j]) {
      assert Edge(ops, s, j);
    }
  }

  lemma SinkDone<E(!new), Key(!new), Id>(ops: Ops<E, Key, Id>, s: seq<E>, p: nat, topOk: bool)
    requires Lawful(ops) && p < |s| && !Sinks(ops, s, p) && OrderedAround(ops, s, p, topOk)
    ensures OrderedBelow(ops, s, p) && (topOk ==> Ordered(ops, s))
  {
    forall j: nat | 0 < j < |s| && Parent(j) == p ensures Edge(ops, s, j) {
      OnlyTwoChildren(j);
    }
  }

  lemma OrderedIsBelow<E(!new), Key(!new), Id>(ops: Ops<E, Key, Id>, s: seq<E>, q: nat)
    requires Lawful(ops) && Ordered(ops, s) && q < |s|
    ensures OrderedBelow(ops, s, q)
  {
    forall j: nat | 0 < j < |s| && Parent(j) == q && q > 0 ensures AtMost(ops, s[Parent(q)], s[j]) {
      assert Edge(ops, s, j) && Edge(ops, s, q);
    }
  }

  /** One step of the rising loop. */
  lemma RiseStep<E(!new), Key(!new), Id>(ops: Ops<E, Key, Id>, s: seq<E>, q: nat)
    requires Lawful(ops) && 0 < q < |s| && OrderedBelow(ops, s, q) && ops.less(s[q], s[Parent(q)])
    ensures OrderedBelow(ops, Swap(s, q, Parent(q)), Parent(q))
  {
    var p := Parent(q);
    var r := Swap(s, q, p);
    forall j: nat | 0 < j < |r| && j != p ensures Edge(ops, r, j) {
      if j != q { assert Edge(ops, s, j); }
    }
    if p > 0 {
      assert Edge(ops, s, p);
      forall j: nat | 0 < j < |r| && Parent(j) == p ensures AtMost(ops, r[Parent(p)], r[j]) {
        if j != q { assert Edge(ops, s, j); }
      }
    }
  }

  lemma RiseDone<E(!new), Key(!new), Id>(ops: Ops<E, Key, Id>, s: seq<E>, q: nat)
    requires OrderedBelow(ops, s, q) && q < |s| && (q == 0 || !ops.less(s[q], s[Parent(q)]))
    ensures Ordered(ops, s)
  {
  }

  /** Replacing one element leaves the order around it open. */
  lemma ReplaceElement<E(!new), Key(!new), Id>(ops: Ops<E, Key, Id>, s: seq<E>, q: nat, e: E)
    requires Lawful(ops) && Ordered(ops, s) && q < |s|
    ensures OrderedAround(ops, s[q := e], q, false)
  {
    var r := s[q := e];
    forall j: nat | 0 < j < |r| && Parent(j) != q && j != q ensures Edge(ops, r, j) {
      assert Edge(ops, s, j);
    }
    forall j: nat | 0 < j < |r| && Parent(j) == q && q > 0 ensures AtMost(ops, r[Parent(q)], r[j]) {
      assert Edge(ops, s, j) && Edge(ops, s, q);
    }
  }

  lemma OrderedPrefix<E, Key, Id>(ops: Ops<E, Key, Id>, s: seq<E>, n: nat)
    requires Ordered(ops, s) && n <= |s|
    ensures Ordered(ops, s[..n])
  {
    forall j: nat | 0 < j < n ensures Edge(ops, s[..n], j) {
      assert Edge(ops, s, j);
    }
  }

  lemma AppendElement<E(!new), Key(!new), Id>(ops: Ops<E, Key, Id>, s: seq<E>, e: E)
    requires Lawful(ops) && Ordered(ops, s)
    ensures OrderedAround(ops, s + [e], |s|, false)
  {
    var r := s + [e];
    forall j: nat | 0 < j < |r| && Parent(j) != |s| && j != |s| ensures Edge(ops, r, j) {
      assert Edge(ops, s, j);
    }
  }

  /** The root of a heap is a least element. */
  lemma {:induction false} RootIsLeast<E(!new), Key(!new), Id>(ops: Ops<E, Key, Id>, s: seq<E>, j: nat)
    requires Lawful(ops) && Ordered(ops, s) && j < |s|
    ensures AtMost(ops, s[0], s[j])
  {
    if j > 0 {
      RootIsLeast(ops, s, Parent(j));
      assert Edge(ops, s, j);
    }
  }

  /** `e` is not above any element of `s`. */
  ghost predicate IsLeast<E, Key, Id>(ops: Ops<E, Key, Id>, e: E, s: seq<E>)
  {
    forall j: nat | j < |s| :: AtMost(ops, e, s[j])
  }

  /** Taking the root out of `s` moves the new root down, so its position is reported. */
  ghost predicate RootMoves<E, Key, Id>(ops: Ops<E, Key, Id>, s: seq<E>)
    requires s != []
  {
    var last, n := s[|s| - 1], |s| - 1;
    (1 < n && ops.less(s[1], last)) || (2 < n && ops.less(s[2], last))
  }

  /** The element a delete moves into place `pos` is not below its new parent (or nothing is moved). */
  ghost predicate DeleteKeepsOrder<E, Key, Id>(ops: Ops<E, Key, Id>, s: seq<E>, pos: nat)
    requires pos < |s|
  {
    pos == 0 || pos == |s| - 1 || !ops.less(s[|s| - 1], s[Parent(pos)])
  }

  // ----- reported positions -----

  /** newpos has last reported, for every element, the index it is at. */
  ghost predicate Tracked<E, Key, Id>(ops: Ops<E, Key, Id>, s: seq<E>, reported: map<Id, nat>)
  {
    forall j: nat | j < |s| :: ops.ident(s[j]) in reported && reported[ops.ident(s[j])] == j
  }

  /** All but the element at `q`, whose identity is its own. */
  ghost predicate TrackedBut<E, Key, Id>(ops: Ops<E, Key, Id>, s: seq<E>, reported: map<Id, nat>, q: nat)
  {
    forall j: nat | j < |s| && j != q ::
      && ops.ident(s[j]) in reported && reported[ops.ident(s[j])] == j
      && (q < |s| ==> ops.ident(s[j]) != ops.ident(s[q]))
  }

  function Report<E, Key, Id(==)>(ops: Ops<E, Key, Id>, s: seq<E>, reported: map<Id, nat>, i: nat): map<Id, nat>
    requires i < |s|
  {
    reported[ops.ident(s[i]) := i]
  }

  lemma TrackedIsBut<E, Key, Id>(ops: Ops<E, Key, Id>, s: seq<E>, reported: map<Id, nat>, q: nat)
    requires Tracked(ops, s, reported)
    ensures TrackedBut(ops, s, reported, q)
  {
  }

  /** Exchanging two elements and reporting both. */
  lemma SwapTracks<E, Key, Id>(ops: Ops<E, Key, Id>, s: seq<E>, reported: map<Id, nat>, i: nat, j: nat)
    requires i < |s| && j < |s| && TrackedBut(ops, s, reported, i)
    ensures Tracked(ops, Swap(s, i, j), Report(ops, Swap(s, i, j), Report(ops, Swap(s, i, j), reported, i), j))
  {
  }

  lemma SetkeyTracks<E(!new), Key(!new), Id>(ops: Ops<E, Key, Id>, s: seq<E>, reported: map<Id, nat>, q: nat, k: Key)
    requires Lawful(ops) && Tracked(ops, s, reported) && q < |s|
    ensures Tracked(ops, s[q := ops.setkey(s[q], k)], reported)
  {
    var r := s[q := ops.setkey(s[q], k)];
    forall j: nat | j < |r| ensures ops.ident(r[j]) == ops.ident(s[j]) {
    }
  }
}
