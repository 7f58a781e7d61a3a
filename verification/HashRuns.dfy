/** Whole runs of the hash table against finite maps keyed modulo `equal`. */
module HashRuns {
  import opened Common
  import opened Probing
  import opened HashMap

  datatype Op<+K, +V> =
    | FindOp(key: K)
    | InsertOp(key: K, value: V)
    | UpdateOp(key: K, value: V)
    | EraseOp(key: K)
    | ReinitOp

  datatype Answer<+V> = Answer(code: Code, value: Option<V>)

  /** The value stored under a key equal to `key`. */
  ghost predicate Holds<K, V>(kf: Keying<K>, m: map<K, V>, key: K, value: V)
  {
    exists k | k in m :: kf.equal(k, key) && m[k] == value
  }

  /** One call on the finite map: from `m` to `m'`, answering `a`. */
  ghost predicate Step<K, V>(kf: Keying<K>, m: map<K, V>, op: Op<K, V>, a: Answer<V>, m': map<K, V>)
  {
    match op
    case FindOp(key) =>
      m' == m && a.code == (if Has(kf, m, key) then OK else DNE) &&
      (if a.code == OK then a.value.Some? && Holds(kf, m, key, a.value.value) else a.value == None)
    case InsertOp(key, value) =>
      || (a.code == OUTOFMEM && m' == m)
      || (a.code == AE && Has(kf, m, key) && m' == m)
      || (a.code == OK && !Has(kf, m, key) && m' == Put(kf, m, key, value))
    case UpdateOp(key, value) =>
      || (a.code == OUTOFMEM && m' == m)
      || (a.code == OK && m' == Put(kf, m, key, value))
    case EraseOp(key) =>
      a.code == (if Has(kf, m, key) then OK else DNE) && m' == Without(kf, m, key)
    case ReinitOp =>
      a.code == OK && m' == map[]
  }

  /** What a call does to the size of a table with `used` slots in use. A store fails exactly when another size is
      due and cannot be allocated. */
  ghost predicate Resizes<K, V>(used: nat, size: nat, op: Op<K, V>, a: Answer<V>, used': nat, size': nat,
      mayAlloc: bool)
  {
    && size >= MINHASHSIZE
    && match op
       case FindOp(_) => size' == size
       case InsertOp(_, _) => Stored(used, size, a, size', mayAlloc)
       case UpdateOp(_, _) => Stored(used, size, a, size', mayAlloc)
       case EraseOp(_) => size' == if a.code == OK && mayAlloc then TargetSize(size, used') else size
       case ReinitOp => size' == MINHASHSIZE && mayAlloc
  }

  ghost predicate Stored<V>(used: nat, size: nat, a: Answer<V>, size': nat, mayAlloc: bool)
    requires size >= MINHASHSIZE
  {
    && (a.code == OUTOFMEM <==> !mayAlloc && TargetSize(size, used) != size)
    && size' == if a.code == OUTOFMEM then size else TargetSize(size, used)
  }

  /** A run: the answers to the calls, the maps and the table sizes between them. */
  ghost predicate Trace<K, V>(kf: Keying<K>, ops: seq<Op<K, V>>, mayAlloc: nat -> bool, answers: seq<Answer<V>>,
      ms: seq<map<K, V>>, sizes: seq<nat>)
  {
    && |answers| <= |ops| && |ms| == |sizes| == |answers| + 1
    && (forall i: nat | i < |answers| :: Step(kf, ms[i], ops[i], answers[i], ms[i + 1]))
    && (forall i: nat | i < |answers| ::
      Resizes(|ms[i]|, sizes[i], ops[i], answers[i], |ms[i + 1]|, sizes[i + 1], mayAlloc(i)))
  }

  /** Any calls, with malloc answering in any way: every answer is the finite map's answer. The run stops
      early only when a reinit finds no memory at all. */
  method Run<K(!new), V>(h: HashTable<K, V>, ops: seq<Op<K, V>>, mayAlloc: nat -> bool)
    returns (answers: seq<Answer<V>>, ghost ms: seq<map<K, V>>, ghost sizes: seq<nat>)
    requires h.Valid()
    modifies h, h.table
    ensures h.kf == old(h.kf) && Trace(h.kf, ops, mayAlloc, answers, ms, sizes)
    ensures |ms| == |sizes| == |answers| + 1 && ms[0] == old(h.Contents) && sizes[0] == old(h.hashTableSize)
    ensures |answers| == |ops| ==> h.Valid() && h.Contents == ms[|ops|] && h.hashTableUsed == |ms[|ops|]|
    ensures |answers| == |ops| ==> h.hashTableSize == sizes[|ops|]
    ensures |answers| < |ops| ==> ops[|answers|] == ReinitOp && !mayAlloc(|answers|)
  {
    hide Trace, HashTable.Valid, Lawful, TargetSize, OnePerClass;
    answers, ms, sizes := [], [h.Contents], [h.hashTableSize];
    NoCalls(h.kf, ops, mayAlloc, h.Contents, h.hashTableSize);
    for i := 0 to |ops|
      invariant h.Valid() && h.kf == old(h.kf) && (h.table == old(h.table) || fresh(h.table))
      invariant |answers| == i && |ms| == |sizes| == i + 1 && Trace(h.kf, ops, mayAlloc, answers, ms, sizes)
      invariant ms[0] == old(h.Contents) && h.Contents == ms[i]
      invariant sizes[0] == old(h.hashTableSize) && h.hashTableSize == sizes[i]
    {
      var answer;
      if ops[i].ReinitOp? {
        LawfulTable(h);
        answer := Reinit(h, mayAlloc(i));
        if answer.code == OUTOFMEM { return; }
      } else {
        answer := Call(h, ops[i], mayAlloc(i));
      }
      OneMoreCall(h.kf, ops, mayAlloc, answers, ms, sizes, answer, h.Contents, h.hashTableSize);
      answers := answers + [answer];
      ms, sizes := ms + [h.Contents], sizes + [h.hashTableSize];
    }
    h.Cardinality();
  }

  lemma NoCalls<K, V>(kf: Keying<K>, ops: seq<Op<K, V>>, mayAlloc: nat -> bool, m: map<K, V>, size: nat)
    ensures Trace(kf, ops, mayAlloc, [], [m], [size])
  {
  }

  lemma OneMoreCall<K, V>(kf: Keying<K>, ops: seq<Op<K, V>>, mayAlloc: nat -> bool, answers: seq<Answer<V>>,
      ms: seq<map<K, V>>, sizes: seq<nat>, a: Answer<V>, m: map<K, V>, size: nat)
    requires Trace(kf, ops, mayAlloc, answers, ms, sizes) && |answers| < |ops|
    requires var i := |answers|;
             && Step(kf, ms[i], ops[i], a, m)
             && Resizes(|ms[i]|, sizes[i], ops[i], a, |m|, size, mayAlloc(i))
    ensures Trace(kf, ops, mayAlloc, answers + [a], ms + [m], sizes + [size])
  {
    hide Step, Resizes;
  }

  /** One call other than reinit. */
  method Call<K(!new), V>(h: HashTable<K, V>, op: Op<K, V>, mayAlloc: bool) returns (answer: Answer<V>)
    requires h.Valid() && !op.ReinitOp?
    modifies h, h.table
    ensures h.Valid() && h.kf == old(h.kf) && (h.table == old(h.table) || fresh(h.table))
    ensures Step(h.kf, old(h.Contents), op, answer, h.Contents)
    ensures Resizes(|old(h.Contents)|, old(h.hashTableSize), op, answer, |h.Contents|, h.hashTableSize, mayAlloc)
  {
    hide Has, Put, Without, HashTable.Valid, Holds, TargetSize;
    h.Cardinality();
    EnoughSlots(h);
    ghost var m := h.Contents;
    var code, value := OK, None;
    match op {
      case FindOp(key) =>
        code, value := h.Find(key);
        HoldsFound(h.kf, m, key, code, value);
      case InsertOp(key, v) => code := h.Insert(key, v, mayAlloc);
      case UpdateOp(key, v) => code := h.Update(key, v, mayAlloc);
      case EraseOp(key) => code := h.Erase(key, mayAlloc);
    }
    h.Cardinality();
    answer := Answer(code, value);
  }

  method Reinit<K(!new), V>(h: HashTable<K, V>, mayAlloc: bool) returns (answer: Answer<V>)
    requires h.Valid() && Lawful(h.kf)
    modifies h
    ensures h.kf == old(h.kf) && answer.code == if mayAlloc then OK else OUTOFMEM
    ensures mayAlloc ==> h.Valid() && fresh(h.table) && Step(h.kf, old(h.Contents), ReinitOp, answer, h.Contents)
    ensures mayAlloc ==>
              Resizes<K, V>(|old(h.Contents)|, old(h.hashTableSize), ReinitOp, answer, |h.Contents|, h.hashTableSize,
                mayAlloc)
  {
    hide HashTable.Valid;
    EnoughSlots(h);
    var code := h.Reinit(mayAlloc);
    answer := Answer(code, None);
  }

  lemma EnoughSlots<K(!new), V>(h: HashTable<K, V>)
    requires h.Valid()
    ensures h.hashTableSize >= MINHASHSIZE
  {
    TargetSizeIsSafe(h.hashTableSize, h.hashTableUsed);
  }

  lemma HoldsFound<K, V>(kf: Keying<K>, m: map<K, V>, key: K, code: Code, value: Option<V>)
    requires code == OK ==> exists k | k in m :: kf.equal(k, key) && value == Some(m[k])
    ensures code == OK ==> value.Some? && Holds(kf, m, key, value.value)
  {
  }

  lemma LawfulTable<K(!new), V>(h: HashTable<K, V>)
    requires h.Valid()
    ensures Lawful(h.kf)
  {
  }

  // ----- what the finite map's runs mean to a caller -----

  /** The call stored a value under a key equal to `key`. */
  ghost predicate Stores<K, V>(kf: Keying<K>, op: Op<K, V>, a: Answer<V>, key: K)
  {
    (op.InsertOp? || op.UpdateOp?) && a.code == OK && kf.equal(op.key, key)
  }

  /** The call removed whatever was stored under keys equal to `key`. */
  ghost predicate Removes<K, V>(kf: Keying<K>, op: Op<K, V>, key: K)
  {
    op.ReinitOp? || (op.EraseOp? && kf.equal(op.key, key))
  }

  lemma StepStores<K(!new), V>(kf: Keying<K>, m: map<K, V>, op: Op<K, V>, a: Answer<V>, m': map<K, V>, key: K)
    requires Lawful(kf) && Step(kf, m, op, a, m') && Stores(kf, op, a, key)
    ensures forall v :: Holds(kf, m', key, v) <==> v == op.value
  {
    assert op.key in m' && m'[op.key] == op.value;
    forall k | k in m' && kf.equal(k, key) ensures k == op.key {
      assert kf.equal(key, op.key);
      assert kf.equal(k, op.key);
    }
  }

  lemma StepRemoves<K(!new), V>(kf: Keying<K>, m: map<K, V>, op: Op<K, V>, a: Answer<V>, m': map<K, V>, key: K)
    requires Lawful(kf) && Step(kf, m, op, a, m') && Removes(kf, op, key)
    ensures forall v :: !Holds(kf, m', key, v)
  {
    if op.EraseOp? {
      forall k | k in m' ensures !kf.equal(k, key) {
        var erased := op.key;
        assert kf.equal(k, key) && kf.equal(key, erased) ==> kf.equal(k, erased);
      }
    }
  }

  lemma StepKeeps<K(!new), V>(kf: Keying<K>, m: map<K, V>, op: Op<K, V>, a: Answer<V>, m': map<K, V>, key: K)
    requires Lawful(kf) && Step(kf, m, op, a, m') && !Stores(kf, op, a, key) && !Removes(kf, op, key)
    ensures forall v :: Holds(kf, m, key, v) <==> Holds(kf, m', key, v)
  {
    if !op.ReinitOp? {
      var k0 := op.key;
      assert forall k :: kf.equal(k, k0) && kf.equal(k, key) ==> kf.equal(k0, key);
      forall v ensures Holds(kf, m, key, v) <==> Holds(kf, m', key, v) {
        forall k | k in m && kf.equal(k, key) && m[k] == v ensures Holds(kf, m', key, v) {
          assert k in m' && m'[k] == v;
        }
        forall k | k in m' && kf.equal(k, key) && m'[k] == v ensures Holds(kf, m, key, v) {
          assert k in m && m[k] == v;
        }
      }
    }
  }

  /** After calls i..j none of which touches `key`, the table still answers for it as it did at i. */
  lemma {:induction false} Untouched<K(!new), V>(kf: Keying<K>, ops: seq<Op<K, V>>, answers: seq<Answer<V>>,
      mayAlloc: nat -> bool, ms: seq<map<K, V>>, sizes: seq<nat>, key: K, i: nat, j: nat)
    requires Lawful(kf) && Trace(kf, ops, mayAlloc, answers, ms, sizes) && i <= j <= |answers|
    requires forall l: nat | i <= l < j :: !Stores(kf, ops[l], answers[l], key) && !Removes(kf, ops[l], key)
    ensures forall v :: Holds(kf, ms[i], key, v) <==> Holds(kf, ms[j], key, v)
  {
    if i < j {
      Untouched(kf, ops, answers, mayAlloc, ms, sizes, key, i, j - 1);
      assert Step(kf, ms[j - 1], ops[j - 1], answers[j - 1], ms[j]);
      StepKeeps(kf, ms[j - 1], ops[j - 1], answers[j - 1], ms[j], key);
    }
  }

  /** A find answers with the value stored last under an equal key. */
  lemma FindReturnsLastStored<K(!new), V>(kf: Keying<K>, ops: seq<Op<K, V>>, answers: seq<Answer<V>>,
      mayAlloc: nat -> bool, ms: seq<map<K, V>>, sizes: seq<nat>, i: nat, j: nat)
    requires Lawful(kf) && Trace(kf, ops, mayAlloc, answers, ms, sizes) && i < j < |answers|
    requires ops[j].FindOp? && Stores(kf, ops[i], answers[i], ops[j].key)
    requires forall l: nat | i < l < j ::
               !Stores(kf, ops[l], answers[l], ops[j].key) && !Removes(kf, ops[l], ops[j].key)
    ensures answers[j] == Answer(OK, Some(ops[i].value))
  {
    var key := ops[j].key;
    StepStores(kf, ms[i], ops[i], answers[i], ms[i + 1], key);
    Untouched(kf, ops, answers, mayAlloc, ms, sizes, key, i + 1, j);
    assert Holds(kf, ms[j], key, ops[i].value);
    assert Step(kf, ms[j], ops[j], answers[j], ms[j + 1]);
  }

  /** A find answers DNE after a removal, or at the start of an empty table, with no store since. */
  lemma FindMissesRemoved<K(!new), V>(kf: Keying<K>, ops: seq<Op<K, V>>, answers: seq<Answer<V>>,
      mayAlloc: nat -> bool, ms: seq<map<K, V>>, sizes: seq<nat>, i: nat, j: nat)
    requires Lawful(kf) && Trace(kf, ops, mayAlloc, answers, ms, sizes) && i <= j < |answers| && ops[j].FindOp?
    requires if i == 0 then ms[0] == map[] else Removes(kf, ops[i - 1], ops[j].key)
    requires forall l: nat | i <= l < j ::
               !Stores(kf, ops[l], answers[l], ops[j].key) && !Removes(kf, ops[l], ops[j].key)
    ensures answers[j] == Answer(DNE, None)
  {
    var key := ops[j].key;
    if i > 0 {
      assert Step(kf, ms[i - 1], ops[i - 1], answers[i - 1], ms[i]);
      StepRemoves(kf, ms[i - 1], ops[i - 1], answers[i - 1], ms[i], key);
    }
    Untouched(kf, ops, answers, mayAlloc, ms, sizes, key, i, j);
    assert Step(kf, ms[j], ops[j], answers[j], ms[j + 1]);
    forall k | k in ms[j] ensures !kf.equal(k, key) {
      var v := ms[j][k];
      assert !Holds(kf, ms[j], key, v);
    }
  }
}
