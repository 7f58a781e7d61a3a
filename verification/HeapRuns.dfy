/** Whole runs of the binary heap against multisets. */
module HeapRuns {
  import opened Common
  import opened HeapOrder
  import opened BinaryHeap

  /** Draining a heap yields its elements in order. */
  method Drain<E(0, !new), Key(!new), Id(==)>(h: Heap<E, Key, Id>, mayAlloc: nat -> bool) returns (out: seq<E>)
    requires h.Valid()
    modifies h, h.heaptable
    ensures h.Valid() && h.size == 0
    ensures multiset(out) == old(multiset(h.Live()))
    ensures forall i: nat, j: nat | i < j < |out| :: AtMost(h.ops, out[i], out[j])
  {
    hide Lawful, Heap.Valid, Heap.Live, Heap.Reported, IsLeast, AtMost, RootMoves, Wanted;
    out := [];
    ValidIsSized(h);
    while true
      invariant h.Valid() && h.heaptable != null && h.size <= h.heaptable.Length
      invariant h.heaptable == old(h.heaptable) || fresh(h.heaptable)
      invariant multiset(out) + multiset(h.Live()) == old(multiset(h.Live()))
      invariant forall i: nat, j: nat | i < j < |out| :: AtMost(h.ops, out[i], out[j])
      invariant forall i: nat | i < |out| :: IsLeast(h.ops, out[i], h.Live())
      decreases h.size
    {
      ghost var before := h.Live();
      var code, rv := h.ExtractMin(mayAlloc(|out|));
      ValidIsSized(h);
      if code == UNDERFLOW {
        assert h.Live() == [];
        return;
      }
      LeastStaysLeast(h.ops, out, before, h.Live(), rv.value);
      out := out + [rv.value];
    }
  }

  lemma ValidIsSized<E(0, !new), Key(!new), Id>(h: Heap<E, Key, Id>)
    requires h.Valid()
    ensures h.heaptable != null && h.size <= h.heaptable.Length
  {
  }

  /** Taking `e`, a least element, out of `s` leaves everything at or above what was taken before and `e`. */
  lemma LeastStaysLeast<E(!new), Key(!new), Id>(ops: Ops<E, Key, Id>, out: seq<E>, s: seq<E>, t: seq<E>, e: E)
    requires s != [] && e == s[0] && IsLeast(ops, e, s) && multiset(t) == multiset(s) - multiset{e}
    requires forall i: nat | i < |out| :: IsLeast(ops, out[i], s)
    ensures forall i: nat | i < |out + [e]| :: IsLeast(ops, (out + [e])[i], t)
    ensures forall i: nat | i < |out| :: AtMost(ops, out[i], e)
  {
    forall j: nat | j < |t| ensures t[j] in s {
      assert t[j] in multiset(t);
      assert t[j] in multiset(s);
    }
  }

  datatype Op<+E, +Key> = InsertOp(data: E, key: Key) | ExtractOp | ChangeOp(pos: nat, newkey: Key)

  datatype Answer<+E> = Answer(code: Code, value: Option<E>)

  /** One call on a multiset. */
  ghost predicate Step<E, Key, Id>(ops: Ops<E, Key, Id>, m: multiset<E>, op: Op<E, Key>, a: Answer<E>, m': multiset<E>)
  {
    match op
    case InsertOp(data, key) =>
      if a.code == OK then m' == m + multiset{ops.setkey(data, key)} else a.code == OUTOFMEM && m' == m
    case ExtractOp =>
      if |m| == 0 then a.code == UNDERFLOW && m' == m
      else a.code == OK && a.value.Some? && a.value.value in m && m' == m - multiset{a.value.value} &&
           forall e | e in m :: AtMost(ops, a.value.value, e)
    case ChangeOp(pos, newkey) =>
      if |m| <= pos then a.code == DNE && m' == m
      else a.code == OK && exists e | e in m :: m' == m - multiset{e} + multiset{ops.setkey(e, newkey)}
  }

  /** What a call does to the size of the array. An insertion fails exactly when another size is due and cannot be
      allocated. */
  ghost predicate Resizes<E, Key>(size: nat, maxsize: nat, op: Op<E, Key>, a: Answer<E>, size': nat, maxsize': nat,
      mayAlloc: bool)
  {
    match op
    case InsertOp(_, _) =>
      && (a.code == OUTOFMEM <==> !mayAlloc && Wanted(size + 1, maxsize) != maxsize)
      && maxsize' == if a.code == OK then Wanted(size + 1, maxsize) else maxsize
    case ExtractOp => maxsize' == if a.code == OK && mayAlloc then Wanted(size', maxsize) else maxsize
    case ChangeOp(_, _) => maxsize' == maxsize
  }

  /** A run: the answers to the calls, the multisets and the array sizes between them. */
  ghost predicate Trace<E, Key, Id>(ops: Ops<E, Key, Id>, calls: seq<Op<E, Key>>, mayAlloc: nat -> bool,
      answers: seq<Answer<E>>, ms: seq<multiset<E>>, sizes: seq<nat>)
  {
    && |answers| == |calls| && |ms| == |sizes| == |calls| + 1
    && (forall i: nat | i < |calls| :: Step(ops, ms[i], calls[i], answers[i], ms[i + 1]))
    && (forall i: nat | i < |calls| ::
      Resizes(|ms[i]|, sizes[i], calls[i], answers[i], |ms[i + 1]|, sizes[i + 1], mayAlloc(i)))
  }

  method Call<E(0, !new), Key(!new), Id(==)>(h: Heap<E, Key, Id>, call: Op<E, Key>, mayAlloc: bool)
      returns (answer: Answer<E>)
    requires h.Valid()
    modifies h, h.heaptable
    ensures h.Valid() && (h.heaptable == old(h.heaptable) || fresh(h.heaptable))
    ensures Step(h.ops, old(multiset(h.Live())), call, answer, multiset(h.Live()))
    ensures Resizes(old(|h.Live()|), old(h.maxsize), call, answer, |h.Live()|, h.maxsize, mayAlloc)
  {
    hide Lawful, Heap.Rekeyed, Wanted, Heap.Reported, Heap.IsNew, IsLeast, Ordered, Heap.Live;
    ghost var s := h.Live();
    var code, rv := OK, None;
    match call {
      case InsertOp(data, key) => code := h.Insert(data, key, mayAlloc);
      case ExtractOp =>
        code, rv := h.ExtractMin(mayAlloc);
        ExtractedFromMultiset(h.ops, s);
      case ChangeOp(pos, newkey) =>
        code := h.ChangeKey(pos, newkey);
        if pos < |s| { RekeyedInMultiset(h, s, pos, newkey); }
    }
    answer := Answer(code, rv);
  }

  /** Any run of insert, extractmin and changekey, with malloc answering in any way: every answer is the
      multiset's answer, and the heap ends up holding exactly the multiset. */
  method Run<E(0, !new), Key(!new), Id(==)>(h: Heap<E, Key, Id>, calls: seq<Op<E, Key>>, mayAlloc: nat -> bool)
    returns (answers: seq<Answer<E>>, ghost ms: seq<multiset<E>>, ghost sizes: seq<nat>)
    requires h.Valid()
    modifies h, h.heaptable
    ensures h.Valid() && Trace(h.ops, calls, mayAlloc, answers, ms, sizes)
    ensures ms[0] == old(multiset(h.Live())) && ms[|calls|] == multiset(h.Live())
    ensures sizes[0] == old(h.maxsize) && sizes[|calls|] == h.maxsize
  {
    hide Heap.Valid, Heap.Live, Step, Resizes;
    ValidIsSized(h);
    answers, ms, sizes := [], [multiset(h.Live())], [h.maxsize];
    for i := 0 to |calls|
      invariant h.Valid() && h.heaptable != null && h.size <= h.heaptable.Length
      invariant h.heaptable == old(h.heaptable) || fresh(h.heaptable)
      invariant |answers| == i && Trace(h.ops, calls[..i], mayAlloc, answers, ms, sizes)
      invariant ms[0] == old(multiset(h.Live())) && ms[i] == multiset(h.Live())
      invariant sizes[0] == old(h.maxsize) && sizes[i] == h.maxsize
    {
      var answer := Call(h, calls[i], mayAlloc(i));
      ValidIsSized(h);
      answers := answers + [answer];
      ms, sizes := ms + [multiset(h.Live())], sizes + [h.maxsize];
    }
    assert calls[..|calls|] == calls;
  }

  lemma ExtractedFromMultiset<E(!new), Key(!new), Id>(ops: Ops<E, Key, Id>, s: seq<E>)
    ensures s != [] && IsLeast(ops, s[0], s) ==>
              s[0] in multiset(s) && forall e | e in multiset(s) :: AtMost(ops, s[0], e)
  {
  }

  lemma RekeyedInMultiset<E(0, !new), Key(!new), Id>(h: Heap<E, Key, Id>, s: seq<E>, pos: nat, k: Key)
    requires pos < |s|
    ensures exists e | e in multiset(s) ::
              h.Rekeyed(s, pos, k) == multiset(s) - multiset{e} + multiset{h.ops.setkey(e, k)}
  {
    assert s[pos] in multiset(s);
  }

  // ----- inputs on which delete and extractmin fall short -----

  /** Numbers in their usual order, each its own identity, never re-keyed to another identity. */
  const NUMBERS: Ops<(int, int), int, int> :=
    Ops((a: (int, int), b: (int, int)) => a.0 < b.0, (e: (int, int), k: int) => (k, e.1), (e: (int, int)) => e.1)

  /** Deleting index 3 moves the 2 at the end below the 10 at index 1. */
  const HEAP_OF_SIX: seq<(int, int)> := [(0, 0), (10, 1), (1, 2), (11, 3), (12, 4), (2, 5)]

  /** heapdelete on a heap of six, with positions known: what is left is not a heap. */
  method DeleteCanBreakOrder(h: Heap<(int, int), int, int>, mayAlloc: bool)
    requires h.Valid() && h.ops == NUMBERS && h.Live() == HEAP_OF_SIX
    modifies h, h.heaptable
    ensures h.Roomy() && !Ordered(NUMBERS, h.Live())
    ensures multiset(h.Live()) == multiset(HEAP_OF_SIX) - multiset{(11, 3)}
  {
    SixIsNotKept();
    var code := h.Delete(3, mayAlloc);
  }

  lemma SixIsNotKept()
    ensures !DeleteKeepsOrder(NUMBERS, HEAP_OF_SIX, 3)
  {
    assert Parent(1) == 0 && Parent(2) == 0 && Parent(3) == 1 && Parent(4) == 1 && Parent(5) == 2;
  }

  /** There is such a heap. */
  lemma SixIsAHeap()
    ensures Lawful(NUMBERS) && Ordered(NUMBERS, HEAP_OF_SIX)
  {
    assert Parent(1) == 0 && Parent(2) == 0 && Parent(3) == 1 && Parent(4) == 1 && Parent(5) == 2;
  }

  /** Taking the root out of a heap of two moves the other element to index 0, and its reported position is
      still 1. */
  method ExtractCanForgetToReport(h: Heap<(int, int), int, int>, mayAlloc: bool)
    requires h.Valid() && h.Reported() && h.ops == NUMBERS && h.Live() == [(0, 0), (1, 1)]
    modifies h, h.heaptable
    ensures h.Valid() && h.Live() == [(1, 1)] && !h.Reported()
  {
    TwoForgets();
    var code, least := h.ExtractMin(mayAlloc);
    TwoWithoutOne(h.Live());
  }

  lemma TwoForgets()
    ensures !RootMoves(NUMBERS, [(0, 0), (1, 1)])
  {
  }

  lemma TwoWithoutOne(s: seq<(int, int)>)
    requires |s| == 1 && multiset(s) == multiset([(0, 0), (1, 1)]) - multiset{(0, 0)}
    ensures s == [(1, 1)]
  {
    assert s[0] in multiset(s);
  }
}
