/** Storing hash values is transparent: without erases, the two hash tables cannot be told apart. */
module PolyRuns {
  import opened Common
  import opened Probing
  import opened HashMap
  import opened PolyHashMap
  import opened HashRuns

  /** Both tables stand for the same map and have the same size. */
  ghost predicate Alike<K(!new), V>(h: HashTable<K, V>, p: PolyTable<K, V>)
    reads h, h.table, p, p.table
  {
    && h.Valid() && p.Valid() && h.kf == p.kf
    && h.Contents == p.Contents && h.hashTableSize == p.hashTableSize
  }

  lemma SameUsed<K(!new), V>(h: HashTable<K, V>, p: PolyTable<K, V>)
    requires Alike(h, p)
    ensures h.hashTableUsed == p.hashTableUsed && OnePerClass(h.kf, h.Contents) && Lawful(h.kf)
  {
    h.Cardinality();
    p.Cardinality();
  }

  lemma SameValue<K(!new), V>(kf: Keying<K>, m: map<K, V>, key: K, v: Option<V>, w: Option<V>)
    requires Lawful(kf) && OnePerClass(kf, m)
    requires exists k | k in m :: kf.equal(k, key) && v == Some(m[k])
    requires exists k | k in m :: kf.equal(k, key) && w == Some(m[k])
    ensures v == w
  {
    var a :| a in m && kf.equal(a, key) && v == Some(m[a]);
    var b :| b in m && kf.equal(b, key) && w == Some(m[b]);
    assert kf.equal(key, b);
    assert kf.equal(a, b);
  }

  /** Any calls but erase, on both tables, with malloc answering alike: the answers agree one by one. */
  method SideBySide<K(!new), V>(h: HashTable<K, V>, p: PolyTable<K, V>, ops: seq<Op<K, V>>, mayAlloc: nat -> bool)
    returns (hs: seq<Answer<V>>, ps: seq<Answer<V>>)
    requires Alike(h, p) && {h as object, h.table} !! {p as object, p.table}
    requires forall i: nat | i < |ops| :: !ops[i].EraseOp?
    modifies h, h.table, p, p.table
    ensures hs == ps
    ensures |hs| == |ops| ==> Alike(h, p)
    ensures |hs| < |ops| ==> ops[|hs|] == ReinitOp && !mayAlloc(|hs|)
  {
    hide HashTable.Valid, PolyTable.Valid, Alike;
    hs, ps := [], [];
    for i := 0 to |ops|
      invariant Alike(h, p) && h.kf == old(h.kf)
      invariant (h.table == old(h.table) || fresh(h.table)) && (p.table == old(p.table) || fresh(p.table))
      invariant {h as object, h.table} !! {p as object, p.table}
      invariant hs == ps && |hs| == i
    {
      var a, b := Both(h, p, ops[i], mayAlloc(i));
      if ops[i].ReinitOp? && !mayAlloc(i) { return; }
      hs, ps := hs + [a], ps + [b];
    }
  }

  /** One call on both tables. */
  method Both<K(!new), V>(h: HashTable<K, V>, p: PolyTable<K, V>, op: Op<K, V>, mayAlloc: bool)
    returns (a: Answer<V>, b: Answer<V>)
    requires Alike(h, p) && {h as object, h.table} !! {p as object, p.table} && !op.EraseOp?
    modifies h, h.table, p, p.table
    ensures h.kf == old(h.kf) && a == b
    ensures !(op.ReinitOp? && !mayAlloc) ==> Alike(h, p) && {h as object, h.table} !! {p as object, p.table}
    ensures !(op.ReinitOp? && !mayAlloc) ==>
              (h.table == old(h.table) || fresh(h.table)) && (p.table == old(p.table) || fresh(p.table))
  {
    hide Has, Put, Without, HashTable.Valid, PolyTable.Valid, TargetSize, Lawful, OnePerClass;
    SameUsed(h, p);
    var code, code', value, value' := OK, OK, None, None;
    match op {
      case FindOp(key) =>
        code, value := h.Find(key);
        code', value' := p.Find(key);
        if code == OK { SameValue(h.kf, h.Contents, key, value, value'); }
      case InsertOp(key, v) =>
        code := h.Insert(key, v, mayAlloc);
        code' := p.Insert(key, v, mayAlloc);
      case UpdateOp(key, v) =>
        code := h.Update(key, v, mayAlloc);
        code' := p.Update(key, v, mayAlloc);
      case ReinitOp =>
        code := h.Reinit(mayAlloc);
        code' := p.Reinit(mayAlloc);
    }
    a, b := Answer(code, value), Answer(code', value');
  }
}
