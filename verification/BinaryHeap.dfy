/** The array binary heap of binaryheap.c, with change-key, position call-backs and a resizing array. */
module BinaryHeap {
  import opened Common
  import opened HeapOrder

  datatype Code = OK | OUTOFMEM | UNDERFLOW | DNE

  const MINHEAPARRAY := 10
  const MINHEAP := 8

  /** The size that heapresize wants for an array of `maxsize` with `size` elements. */
  function Wanted(size: nat, maxsize: nat): (newsize: nat)
    ensures newsize == maxsize || newsize >= MINHEAPARRAY
    ensures size <= maxsize && (maxsize == 0 || maxsize >= MINHEAPARRAY) ==> size < newsize && MINHEAPARRAY <= newsize
  {
    var n := if size == maxsize then 2 * size else maxsize / (MINHEAP / 2);
    if size != maxsize && size > maxsize / MINHEAP then maxsize
    else if n < MINHEAPARRAY then MINHEAPARRAY else n
  }

  class Heap<E(0, !new), Key(!new), Id(==)> {
    const ops: Ops<E, Key, Id>
    var heaptable: array?<E>
    var size: nat
    var maxsize: nat
    /** What newpos has reported: the last index for each element. */
    var reported: map<Id, nat>

    /** The array fits the counters; a maxsize of 0 says nothing about it. */
    ghost predicate Shaped()
      reads this
    {
      size <= maxsize && (maxsize > 0 ==> heaptable != null && heaptable.Length == maxsize)
    }

    /** Shaped, with room for one more element. */
    ghost predicate Roomy()
      reads this
    {
      && Lawful(ops) && heaptable != null && heaptable.Length == maxsize
      && MINHEAPARRAY <= maxsize && size < maxsize
    }

    ghost function Live(): (s: seq<E>)
      requires heaptable != null && size <= heaptable.Length
      reads this, heaptable
      ensures |s| == size
    {
      heaptable[..size]
    }

    ghost predicate Valid()
      reads this, heaptable
    {
      Roomy() && Ordered(ops, Live())
    }

    ghost predicate Reported()
      requires heaptable != null && size <= heaptable.Length
      reads this, heaptable
    {
      Tracked(ops, Live(), reported)
    }

    /** heapinit; `mayAlloc`: what realloc and then malloc answer. */
    constructor (ops: Ops<E, Key, Id>)
      ensures this.ops == ops && heaptable == null && size == 0 && maxsize == 0
    {
      this.ops := ops;
      heaptable, size, maxsize, reported := null, 0, 0, map[];
    }

    /** reinit, the rest of heapinit */
    method Reinit(mayAlloc: bool) returns (code: Code)
      requires Lawful(ops)
      modifies this
      ensures code == if mayAlloc then OK else OUTOFMEM
      ensures code == OK ==> Valid() && size == 0 && maxsize == MINHEAPARRAY && fresh(heaptable)
      ensures size == 0 && (code == OUTOFMEM ==> maxsize == 0)
    {
      size := 0;
      maxsize := 0;
      var failed := Resize(mayAlloc);
      return if failed then OUTOFMEM else OK;
    }

    /** heapresize: grows a full array, shrinks one that is at most an eighth full; keeps the elements. */
    method Resize(mayAlloc: bool) returns (failed: bool)
      requires Shaped() && (maxsize == 0 || maxsize >= MINHEAPARRAY)
      modifies this
      ensures size == old(size) && reported == old(reported)
      ensures failed <==> !mayAlloc && Wanted(size, old(maxsize)) != old(maxsize)
      ensures failed ==> heaptable == old(heaptable) && maxsize == old(maxsize)
      ensures !failed ==> maxsize == Wanted(size, old(maxsize)) && size < maxsize && MINHEAPARRAY <= maxsize
      ensures !failed ==> heaptable != null && heaptable.Length == maxsize
      ensures if maxsize == old(maxsize) then heaptable == old(heaptable) else fresh(heaptable)
      ensures !failed && old(maxsize) > 0 ==> heaptable[..size] == old(heaptable[..size])
    {
      var newsize;
      if size == maxsize {
        newsize := 2 * size;
      } else if size > maxsize / MINHEAP {
        return false;
      } else {
        newsize := maxsize / (MINHEAP / 2);
      }
      newsize := if MINHEAPARRAY < newsize then newsize else MINHEAPARRAY;
      if maxsize == newsize { return false; }
      if !mayAlloc { return true; }
      var tmptable := new E[newsize];
      var n := if maxsize < newsize then maxsize else newsize;
      for i := 0 to n
        invariant unchanged(this)
        invariant maxsize > 0 ==> heaptable[..i] == tmptable[..i] && unchanged(heaptable)
      {
        tmptable[i] := heaptable[i];
      }
      heaptable := tmptable;
      maxsize := newsize;
      return false;
    }

    /** heapex: exchanges two elements and reports both. */
    method Exchange(pos: nat, smallest: nat)
      requires heaptable != null && pos < size <= heaptable.Length && smallest < size
      modifies this`reported, heaptable
      ensures Live() == Swap(old(Live()), pos, smallest)
      ensures reported == Report(ops, Live(), Report(ops, Live(), old(reported), pos), smallest)
    {
      ghost var s := Live();
      var temp := heaptable[pos];
      heaptable[pos] := heaptable[smallest];
      heaptable[smallest] := temp;
      assert Live() == Swap(s, pos, smallest);
      reported := reported[ops.ident(heaptable[pos]) := pos];
      reported := reported[ops.ident(heaptable[smallest]) := smallest];
    }

    /** heapify: sinks the element at `pos`. The edge above `pos` may be violated too, unless `topOk`. */
    method Heapify(pos: nat, ghost topOk: bool)
      requires Roomy() && pos <= size
      requires pos < size ==> OrderedAround(ops, Live(), pos, topOk)
      requires pos == size ==> Ordered(ops, Live())
      modifies this`reported, heaptable
      ensures multiset(Live()) == old(multiset(Live()))
      ensures OrderedBelow(ops, Live(), pos)
      ensures topOk || pos == size || old(Sinks(ops, Live(), pos)) ==> Ordered(ops, Live())
      ensures pos == size || !old(Sinks(ops, Live(), pos)) ==> Live() == old(Live()) && reported == old(reported)
      ensures pos < size && old(Sinks(ops, Live(), pos)) && old(TrackedBut(ops, Live(), reported, pos)) ==> Reported()
      decreases size - pos
    {
      hide Lawful, Ordered, OrderedAround, OrderedBelow, Bridged, Tracked, TrackedBut, Report, Swap;
      ghost var s := Live();
      var l, r := Left(pos), Right(pos);
      var smallest;
      if l < size && ops.less(heaptable[l], heaptable[pos]) {
        smallest := l;
      } else {
        smallest := pos;
      }
      if r < size && ops.less(heaptable[r], heaptable[smallest]) {
        smallest := r;
      }
      if smallest != pos {
        PickedSmallest(s, pos, smallest);
        SinkStep(ops, s, pos, smallest, topOk);
        Exchange(pos, smallest);
        ghost var tracked := old(TrackedBut(ops, Live(), reported, pos));
        if tracked {
          SwapTracks(ops, s, old(reported), pos, smallest);
          TrackedIsBut(ops, Live(), reported, smallest);
        }
        Heapify(smallest, true);
        OrderedIsBelow(ops, Live(), pos);
      } else if pos < size {
        NotSinking(s, pos);
        SinkDone(ops, s, pos, topOk);
      } else {
        OrderedPastEnd(s);
      }
    }

    lemma PickedSmallest(s: seq<E>, pos: nat, c: nat)
      requires Lawful(ops) && pos < |s| && c < |s|
      requires c == Left(pos) || c == Right(pos)
      requires c == Left(pos) ==> ops.less(s[c], s[pos]) && (Right(pos) < |s| ==> !ops.less(s[Right(pos)], s[c]))
      requires c == Right(pos) && ops.less(s[Left(pos)], s[pos]) ==> ops.less(s[c], s[Left(pos)])
      requires c == Right(pos) && !ops.less(s[Left(pos)], s[pos]) ==> ops.less(s[c], s[pos])
      ensures Smallest(ops, s, pos, c) && Sinks(ops, s, pos)
    {
      var e, l := s[pos], s[Left(pos)];
      assert AtMost(ops, e, s[c]) && AtMost(ops, s[c], l) ==> AtMost(ops, e, l);
      assert AtMost(ops, s[c], e) && AtMost(ops, e, l) ==> AtMost(ops, s[c], l);
      forall j: nat | 0 < j < |s| && Parent(j) == pos ensures AtMost(ops, s[c], s[j]) {
        OnlyTwoChildren(j);
      }
    }

    lemma NotSinking(s: seq<E>, pos: nat)
      requires pos < |s| && !(Left(pos) < |s| && ops.less(s[Left(pos)], s[pos]))
      requires !(Right(pos) < |s| && ops.less(s[Right(pos)], s[pos]))
      ensures !Sinks(ops, s, pos)
    {
    }

    lemma OrderedPastEnd(s: seq<E>)
      requires Ordered(ops, s)
      ensures OrderedBelow(ops, s, |s|)
    {
    }

    /** heapminimal */
    method Minimal() returns (code: Code, rv: Option<E>)
      requires Valid()
      ensures code == if size == 0 then UNDERFLOW else OK
      ensures code == OK ==> rv.Some? && rv.value in Live() && IsLeast(ops, rv.value, Live())
    {
      if size == 0 { return UNDERFLOW, None; }
      RootIsBelowAll(Live());
      return OK, Some(heaptable[0]);
    }

    lemma RootIsBelowAll(s: seq<E>)
      requires Lawful(ops) && Ordered(ops, s) && s != []
      ensures IsLeast(ops, s[0], s)
    {
      forall j: nat | j < |s| ensures AtMost(ops, s[0], s[j]) {
        RootIsLeast(ops, s, j);
      }
    }

    /** heapextractmin: takes out a least element. The element moved to the root is not reported when it
        stays there. */
    method ExtractMin(mayAlloc: bool) returns (code: Code, rv: Option<E>)
      requires Valid()
      modifies this, heaptable
      ensures Valid() && (heaptable == old(heaptable) || fresh(heaptable))
      ensures code == if old(size) == 0 then UNDERFLOW else OK
      ensures code == UNDERFLOW ==> Live() == old(Live()) && reported == old(reported) && rv == None
      ensures code == OK ==> rv == Some(old(Live())[0]) && size == old(size) - 1
      ensures code == OK ==> multiset(Live()) == old(multiset(Live())) - multiset{rv.value}
      ensures code == OK ==> IsLeast(ops, rv.value, old(Live()))
      ensures code == OK && old(Reported()) ==> (Reported() <==> size == 0 || old(RootMoves(ops, Live())))
      ensures maxsize == if code == OK && mayAlloc then Wanted(size, old(maxsize)) else old(maxsize)
    {
      hide Lawful, Ordered, OrderedAround, OrderedBelow, Tracked, TrackedBut, LastToRoot, RootMoves, Sinks, IsLeast;
      if size == 0 { return UNDERFLOW, None; }
      ghost var s := Live();
      RootIsBelowAll(s);
      LastToRootElements(s);
      LastToRootOrder(s);
      if Reported() { LastToRootTracking(s, reported); }
      rv := Some(heaptable[0]);
      TakeRoot();
      Heapify(0, true);
      label Sunk:
      var _ := Resize(mayAlloc);
      assert Live() == old@Sunk(Live());
      return OK, rv;
    }

    /** Moves the last element over the root and drops its old place. */
    method TakeRoot()
      requires Roomy() && size > 0
      modifies this`size, heaptable
      ensures Roomy() && size == old(size) - 1 && Live() == LastToRoot(old(Live()))
    {
      ghost var s := Live();
      heaptable[0] := heaptable[size - 1];
      assert heaptable[..size] == s[0 := s[|s| - 1]];
      size := size - 1;
    }

    /** The live elements once the last one has been moved over the root. */
    ghost function LastToRoot(s: seq<E>): (t: seq<E>)
      requires s != []
      ensures |t| == |s| - 1
    {
      if |s| == 1 then [] else s[0 := s[|s| - 1]][..|s| - 1]
    }

    lemma LastToRootElements(s: seq<E>)
      requires s != []
      ensures multiset(LastToRoot(s)) == multiset(s) - multiset{s[0]}
    {
      var n := |s| - 1;
      if n == 0 {
        assert s == [s[0]];
      } else {
        assert s == [s[0]] + (s[1..n] + [s[n]]);
        assert LastToRoot(s) == [s[n]] + s[1..n];
      }
    }

    lemma LastToRootOrder(s: seq<E>)
      requires Lawful(ops) && Ordered(ops, s) && s != []
      ensures var t := LastToRoot(s);
              if t == [] then Ordered(ops, t)
                else OrderedAround(ops, t, 0, true) && (Sinks(ops, t, 0) <==> RootMoves(ops, s))
    {
      var t := LastToRoot(s);
      forall j: nat | 0 < j < |t| && Parent(j) != 0 ensures Edge(ops, t, j) {
        assert Edge(ops, s, j);
      }
    }

    lemma LastToRootTracking(s: seq<E>, where: map<Id, nat>)
      requires Tracked(ops, s, where) && s != []
      ensures var t := LastToRoot(s);
              if t == [] then Tracked(ops, t, where) else TrackedBut(ops, t, where, 0) && !Tracked(ops, t, where)
    {
      var t := LastToRoot(s);
      if t != [] {
        assert where[ops.ident(t[0])] == |t|;
        forall j: nat | 0 < j < |t| ensures t[j] == s[j] && ops.ident(t[j]) != ops.ident(t[0]) {
          assert where[ops.ident(s[j])] == j;
        }
      }
    }

    /** The elements of `s` with the one at `pos` re-keyed. */
    ghost function Rekeyed(s: seq<E>, pos: nat, newkey: Key): multiset<E>
      requires pos < |s|
    {
      multiset(s) - multiset{s[pos]} + multiset{ops.setkey(s[pos], newkey)}
    }

    /** heapchangekey: any new key, smaller or larger. Inserting calls it with an element that is not yet in
        order at `pos`. */
    method ChangeKey(pos: nat, newkey: Key) returns (code: Code)
      requires Valid() || (Roomy() && pos < size && OrderedAround(ops, Live(), pos, false))
      modifies this`reported, heaptable
      ensures Valid()
      ensures code == if pos >= size then DNE else OK
      ensures code == DNE ==> Live() == old(Live()) && reported == old(reported)
      ensures code == OK ==> multiset(Live()) == Rekeyed(old(Live()), pos, newkey)
      ensures old(Reported()) ==> Reported()
    {
      if pos >= size { return DNE; }
      ghost var s := Live();
      RekeyedOrder(s, pos, ops.setkey(s[pos], newkey));
      if Tracked(ops, s, reported) {
        SetkeyTracks(ops, s, reported, pos, newkey);
      }
      heaptable[pos] := ops.setkey(heaptable[pos], newkey);
      assert Live() == s[pos := ops.setkey(s[pos], newkey)];
      SinkThenRise(pos);
      return OK;
    }

    lemma RekeyedOrder(s: seq<E>, pos: nat, e: E)
      requires Lawful(ops) && pos < |s| && (Ordered(ops, s) || OrderedAround(ops, s, pos, false))
      ensures OrderedAround(ops, s[pos := e], pos, false)
    {
      if Ordered(ops, s) {
        ReplaceElement(ops, s, pos, e);
      } else {
        forall j: nat | 0 < j < |s| && Parent(j) != pos && j != pos ensures Edge(ops, s[pos := e], j) {
          assert Edge(ops, s, j);
        }
      }
    }

    /** The rest of heapchangekey, once the key at `pos` has been set. */
    method SinkThenRise(pos: nat)
      requires Roomy() && pos < size && OrderedAround(ops, Live(), pos, false)
      modifies this`reported, heaptable
      ensures Valid() && multiset(Live()) == old(multiset(Live()))
      ensures old(Reported()) ==> Reported()
    {
      hide Lawful, Ordered, OrderedAround, OrderedBelow, Bridged, Tracked, TrackedBut, Report, Swap;
      ghost var tracked := Tracked(ops, Live(), reported);
      if tracked { TrackedIsBut(ops, Live(), reported, pos); }
      Heapify(pos, false);
      var q: nat := pos;
      while q > 0 && ops.less(heaptable[q], heaptable[Parent(q)])
        invariant q < size && OrderedBelow(ops, Live(), q)
        invariant multiset(Live()) == old(multiset(Live()))
        invariant tracked ==> Reported()
      {
        var p := Parent(q);
        RiseStep(ops, Live(), q);
        if tracked {
          TrackedIsBut(ops, Live(), reported, q);
          SwapTracks(ops, Live(), reported, q, p);
        }
        Exchange(q, p);
        q := p;
      }
      RiseDone(ops, Live(), q);
    }

    /** heapinsert: stores `data` re-keyed with `key`. */
    method Insert(data: E, key: Key, mayAlloc: bool) returns (code: Code)
      requires Valid()
      modifies this, heaptable
      ensures Valid() && (heaptable == old(heaptable) || fresh(heaptable))
      ensures code == OK || code == OUTOFMEM
      ensures code == OUTOFMEM <==> !mayAlloc && Wanted(old(size) + 1, old(maxsize)) != old(maxsize)
      ensures code == OUTOFMEM ==> Live() == old(Live()) && reported == old(reported)
      ensures maxsize == if code == OK then Wanted(old(size) + 1, old(maxsize)) else old(maxsize)
      ensures code == OK ==> multiset(Live()) == old(multiset(Live())) + multiset{ops.setkey(data, key)}
      ensures code == OK && old(Reported() && IsNew(data)) ==> Reported()
    {
      hide Lawful, Ordered, OrderedAround, Tracked, Wanted, IsNew, Rekeyed;
      ghost var s := Live();
      var failed := Append(data, mayAlloc);
      if failed { return OUTOFMEM; }
      AppendElement(ops, s, data);
      code := ChangeKey(size - 1, key);
      RekeyedLast(s, data, key);
    }

    lemma RekeyedLast(s: seq<E>, data: E, key: Key)
      ensures Rekeyed(s + [data], |s|, key) == multiset(s) + multiset{ops.setkey(data, key)}
    {
    }

    /** heapinsert up to its call of heapchangekey. */
    method Append(data: E, mayAlloc: bool) returns (failed: bool)
      requires Roomy()
      modifies this, heaptable
      ensures Roomy() && (heaptable == old(heaptable) || fresh(heaptable))
      ensures failed <==> !mayAlloc && Wanted(old(size) + 1, old(maxsize)) != old(maxsize)
      ensures failed ==> Live() == old(Live()) && reported == old(reported)
      ensures maxsize == if failed then old(maxsize) else Wanted(old(size) + 1, old(maxsize))
      ensures !failed ==> Live() == old(Live()) + [data]
      ensures !failed && old(Reported() && IsNew(data)) ==> Reported()
    {
      ghost var s, where := Live(), reported;
      size := size + 1;
      label Counted:
      failed := Resize(mayAlloc);
      if failed {
        size := size - 1;
        return;
      }
      assert heaptable[..size] == old@Counted(heaptable[..size]);
      assert heaptable[..size - 1] == s by {
        assert heaptable[..size - 1] == old@Counted(heaptable[..size])[..size - 1];
      }
      heaptable[size - 1] := data;
      reported := reported[ops.ident(data) := size - 1];
      assert Live() == s + [data];
      AppendTracks(s, data, where);
    }

    /** No element of the heap is reported under the identity of `data`. */
    ghost predicate IsNew(data: E)
      requires heaptable != null && size <= heaptable.Length
      reads this, heaptable
    {
      forall j: nat | j < size :: ops.ident(Live()[j]) != ops.ident(data)
    }

    lemma AppendTracks(s: seq<E>, data: E, where: map<Id, nat>)
      ensures Tracked(ops, s, where) && (forall j: nat | j < |s| :: ops.ident(s[j]) != ops.ident(data)) ==>
                Tracked(ops, s + [data], where[ops.ident(data) := |s|])
    {
    }

    /** heapdelete, as written: it only sinks the moved element, so the result is a heap exactly when that
        element is not below the parent of `pos`. */
    method Delete(pos: nat, mayAlloc: bool) returns (code: Code)
      requires Valid()
      modifies this, heaptable
      ensures Roomy() && (heaptable == old(heaptable) || fresh(heaptable))
      ensures code == if pos >= old(size) then DNE else OK
      ensures code == DNE ==> Live() == old(Live()) && reported == old(reported)
      ensures code == OK ==> size == old(size) - 1
      ensures code == OK ==> multiset(Live()) == old(multiset(Live())) - multiset{old(Live())[pos]}
      ensures code == OK ==> (Valid() <==> DeleteKeepsOrder(ops, old(Live()), pos))
      ensures old(Reported()) ==> Reported()
    {
      hide Lawful, Ordered, OrderedAround, OrderedBelow, Tracked, TrackedBut, Sinks, DeleteKeepsOrder, LastTo;
      if pos >= size { return DNE; }
      ghost var s := Live();
      LastToElements(s, pos);
      LastToOrder(s, pos);
      ExchangeWithLast(pos);
      if Tracked(ops, Live(), reported) { TrackedIsBut(ops, Live(), reported, pos); }
      Heapify(pos, DeleteKeepsOrder(ops, s, pos));
      label Sunk:
      var _ := Resize(mayAlloc);
      assert Live() == old@Sunk(Live());
      return OK;
    }

    /** heapdelete up to its call of heapify. */
    method ExchangeWithLast(pos: nat)
      requires Roomy() && pos < size
      modifies this`size, this`reported, heaptable
      ensures Roomy() && size == old(size) - 1 && Live() == LastTo(old(Live()), pos)
      ensures old(Reported()) ==> Reported()
    {
      hide Lawful, Tracked, Report, Swap, LastTo;
      ghost var s := Live();
      if Reported() { LastToTracks(s, reported, pos); }
      LastToIsSwap(s, pos);
      Exchange(pos, size - 1);
      ghost var u := Live();
      size := size - 1;
      assert Live() == u[..size];
    }

    /** Exchanging with the last element, reporting both, and leaving the last one out. */
    lemma LastToTracks(s: seq<E>, where: map<Id, nat>, pos: nat)
      requires pos < |s| && Tracked(ops, s, where)
      ensures var u := Swap(s, pos, |s| - 1);
              Tracked(ops, u[..|s| - 1], Report(ops, u, Report(ops, u, where, pos), |s| - 1))
    {
      hide Tracked, TrackedBut, Report;
      TrackedIsBut(ops, s, where, pos);
      SwapTracks(ops, s, where, pos, |s| - 1);
      var u := Swap(s, pos, |s| - 1);
      TrackedPrefix(u, Report(ops, u, Report(ops, u, where, pos), |s| - 1));
    }

    ghost function LastTo(s: seq<E>, pos: nat): (t: seq<E>)
      requires pos < |s|
      ensures |t| == |s| - 1
    {
      s[pos := s[|s| - 1]][..|s| - 1]
    }

    lemma LastToIsSwap(s: seq<E>, pos: nat)
      requires pos < |s|
      ensures Swap(s, pos, |s| - 1)[..|s| - 1] == LastTo(s, pos)
    {
    }

    lemma TrackedPrefix(u: seq<E>, where: map<Id, nat>)
      requires Tracked(ops, u, where) && u != []
      ensures Tracked(ops, u[..|u| - 1], where)
    {
    }

    lemma LastToElements(s: seq<E>, pos: nat)
      requires pos < |s|
      ensures multiset(LastTo(s, pos)) == multiset(s) - multiset{s[pos]}
    {
      var n := |s| - 1;
      var u := s[pos := s[n]];
      assert multiset(u) == multiset(s) - multiset{s[pos]} + multiset{s[n]};
      assert u == LastTo(s, pos) + [u[n]];
      assert multiset(u) == multiset(LastTo(s, pos)) + multiset{s[n]};
      CancelElement(multiset(LastTo(s, pos)), multiset(s) - multiset{s[pos]}, s[n]);
    }

    lemma CancelElement(a: multiset<E>, b: multiset<E>, x: E)
      requires a + multiset{x} == b + multiset{x}
      ensures a == b
    {
      assert a == a + multiset{x} - multiset{x};
    }

    lemma LastToOrder(s: seq<E>, pos: nat)
      requires Lawful(ops) && Ordered(ops, s) && pos < |s|
      ensures var t := LastTo(s, pos);
              && (pos == |t| ==> Ordered(ops, t) && DeleteKeepsOrder(ops, s, pos))
              && (pos < |t| ==> OrderedAround(ops, t, pos, DeleteKeepsOrder(ops, s, pos)))
              && (!DeleteKeepsOrder(ops, s, pos) ==> pos < |t| && !Sinks(ops, t, pos) && !Ordered(ops, t))
    {
      var t, n := LastTo(s, pos), |s| - 1;
      if pos == n {
        assert t == s[..n];
        OrderedPrefix(ops, s, n);
      } else {
        ReplaceElement(ops, s, pos, s[n]);
        forall j: nat | 0 < j < n && Parent(j) != pos && j != pos ensures Edge(ops, t, j) {
          assert Edge(ops, s[pos := s[n]], j);
        }
        if !DeleteKeepsOrder(ops, s, pos) {
          assert !Edge(ops, t, pos);
          forall j: nat | 0 < j < n && Parent(j) == pos ensures !ops.less(t[j], t[pos]) {
            var above := s[Parent(pos)];
            assert Edge(ops, s, j) && Edge(ops, s, pos);
            var child, moved := t[j], t[pos];
            assert AtMost(ops, above, child);
            assert AtMost(ops, child, moved) ==> AtMost(ops, above, moved);
            assert ops.less(child, moved) ==> AtMost(ops, child, moved);
          }
        }
      }
    }
  }
}
