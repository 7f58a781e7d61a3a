/** Circular probe sequences over a table of slots: the invariant of linear probing, the mapping a
    table stands for, and what filling, overwriting and freeing one slot does to both. */
module Probing {

  /** A table slot: `used == 0`, or `used == 1` with its key and value. */
  datatype Slot<+K, +V> = Free | Used(key: K, value: V)

  /** The two functions a table is created with. */
  datatype Keying<!K> = Keying(hash: K -> nat, equal: (K, K) -> bool)

  type Table<+K, +V> = seq<Slot<K, V>>

  /** What the C code relies on: `equal` is an equivalence and equal keys hash alike. */
  ghost predicate Lawful<K(!new)>(kf: Keying<K>)
  {
    && (forall a :: kf.equal(a, a))
    && (forall a, b :: kf.equal(a, b) ==> kf.equal(b, a) && kf.hash(a) == kf.hash(b))
    && (forall a, b, c :: kf.equal(a, b) && kf.equal(b, c) ==> kf.equal(a, c))
  }

  /** Steps from slot `from` to slot `to`, walking upwards and around the end of a table of size n. */
  function Dist(from: nat, to: nat, n: nat): (d: nat)
    requires from < n && to < n
    ensures d < n
  {
    if from <= to then to - from else to + n - from
  }

  function Next(i: nat, n: nat): (j: nat)
    requires i < n
    ensures j < n && j == (i + 1) % n
  {
    if i + 1 == n then 0 else i + 1
  }

  function Home<K>(kf: Keying<K>, k: K, n: nat): (h: nat)
    requires n > 0
    ensures h < n
  {
    kf.hash(k) % n
  }

  /** Every slot from a key's home up to the slot before `i` is used: probing for that key reaches `i`. */
  ghost predicate Reached<K, V>(kf: Keying<K>, t: Table<K, V>, i: nat)
    requires i < |t| && t[i].Used?
  {
    var h := Home(kf, t[i].key, |t|);
    forall j: nat | j < |t| && Dist(h, j, |t|) < Dist(h, i, |t|) :: t[j].Used?
  }

  ghost predicate AllReached<K, V>(kf: Keying<K>, t: Table<K, V>)
  {
    forall i: nat | i < |t| && t[i].Used? :: Reached(kf, t, i)
  }

  ghost predicate NoDuplicates<K, V>(kf: Keying<K>, t: Table<K, V>)
  {
    forall i: nat, j: nat | i < |t| && j < |t| && t[i].Used? && t[j].Used? && kf.equal(t[i].key, t[j].key) :: i == j
  }

  ghost predicate ProbeInv<K, V>(kf: Keying<K>, t: Table<K, V>)
  {
    AllReached(kf, t) && NoDuplicates(kf, t)
  }

  /** Table `t` holds exactly the entries of `m`. */
  ghost predicate Represents<K, V>(t: Table<K, V>, m: map<K, V>)
  {
    && (forall k | k in m :: Used(k, m[k]) in t)
    && (forall i: nat | i < |t| && t[i].Used? :: t[i].key in m && m[t[i].key] == t[i].value)
  }

  // ----- finite maps keyed modulo `equal` -----

  ghost predicate Has<K, V>(kf: Keying<K>, m: map<K, V>, key: K)
  {
    exists k | k in m :: kf.equal(k, key)
  }

  /** `m` without the keys equal to `key`. */
  ghost function Without<K, V>(kf: Keying<K>, m: map<K, V>, key: K): map<K, V>
  {
    map k | k in m && !kf.equal(k, key) :: m[k]
  }

  ghost function Put<K, V>(kf: Keying<K>, m: map<K, V>, key: K, value: V): map<K, V>
  {
    Without(kf, m, key)[key := value]
  }

  lemma WithoutAbsent<K, V>(kf: Keying<K>, m: map<K, V>, key: K)
    requires !Has(kf, m, key)
    ensures Without(kf, m, key) == m
  {
  }

  /** At most one key of each class. */
  ghost predicate OnePerClass<K, V>(kf: Keying<K>, m: map<K, V>)
  {
    forall a, b | a in m && b in m && kf.equal(a, b) :: a == b
  }

  // ----- counting used slots -----

  ghost function Count<K, V>(t: Table<K, V>): (c: nat)
    ensures c <= |t|
  {
    if t == [] then 0 else Count(t[..|t| - 1]) + if t[|t| - 1].Used? then 1 else 0
  }

  lemma {:induction false} CountUpdate<K, V>(t: Table<K, V>, i: nat, s: Slot<K, V>)
    requires i < |t|
    ensures Count(t[i := s]) == Count(t) - (if t[i].Used? then 1 else 0) + (if s.Used? then 1 else 0)
  {
    var u, n := t[i := s], |t| - 1;
    if i == n {
      assert u[..n] == t[..n];
    } else {
      assert u[..n] == t[..n][i := s];
      CountUpdate(t[..n], i, s);
    }
  }

  lemma CountPrefix<K, V>(t: Table<K, V>, i: nat)
    requires i < |t|
    ensures Count(t[..i + 1]) == Count(t[..i]) + if t[i].Used? then 1 else 0
  {
    assert t[..i + 1][..i] == t[..i];
  }

  lemma {:induction false} CountOfPrefix<K, V>(t: Table<K, V>, i: nat)
    requires i <= |t|
    ensures Count(t[..i]) <= Count(t)
  {
    if i < |t| {
      CountOfPrefix(t[..|t| - 1], i);
      assert t[..|t| - 1][..i] == t[..i];
    } else {
      assert t[..i] == t;
    }
  }

  lemma {:induction false} FullWhenCountIsSize<K, V>(t: Table<K, V>)
    requires forall i: nat | i < |t| :: t[i].Used?
    ensures Count(t) == |t|
  {
    if t != [] {
      FullWhenCountIsSize(t[..|t| - 1]);
    }
  }

  lemma {:induction false} EmptyTable<K, V>(kf: Keying<K>, t: Table<K, V>)
    requires forall i: nat | i < |t| :: t[i].Free?
    ensures Count(t) == 0 && ProbeInv(kf, t) && Represents(t, map[])
  {
    if t != [] {
      EmptyTable(kf, t[..|t| - 1]);
    }
  }

  /** A table with spare capacity has a slot where every probe stops. */
  lemma FreeSlot<K, V>(t: Table<K, V>) returns (f: nat)
    requires Count(t) < |t|
    ensures f < |t| && t[f].Free?
  {
    if forall i: nat | i < |t| :: t[i].Used? {
      FullWhenCountIsSize(t);
    }
    f :| f < |t| && t[f].Free?;
  }

  /** Dropping the last slot of a table drops its entry, if it has one. */
  lemma LastSlot<K(!new), V>(kf: Keying<K>, t: Table<K, V>, m: map<K, V>)
    requires Lawful(kf) && NoDuplicates(kf, t) && Represents(t, m) && t != []
    ensures NoDuplicates(kf, t[..|t| - 1])
    ensures var s := t[|t| - 1];
            Represents(t[..|t| - 1], if s.Free? then m else m - {s.key}) && (s.Used? ==> s.key in m)
  {
    var n := |t| - 1;
    var u, s := t[..n], t[n];
    forall i: nat, j: nat | i < n && j < n && u[i].Used? && u[j].Used? && kf.equal(u[i].key, u[j].key) ensures i == j {
      assert t[i] == u[i] && t[j] == u[j];
    }
    var m' := if s.Free? then m else m - {s.key};
    forall k | k in m' ensures Used(k, m'[k]) in u {
      var i :| 0 <= i < |t| && t[i] == Used(k, m[k]);
      assert u[i] == t[i];
    }
    forall i: nat | i < n && u[i].Used? ensures u[i].key in m' && m'[u[i].key] == u[i].value {
      assert t[i] == u[i] && i != n;
      var k := u[i].key;
      assert kf.equal(k, k);
    }
  }

  lemma {:induction false} CountIsCardinality<K(!new), V>(kf: Keying<K>, t: Table<K, V>, m: map<K, V>)
    requires Lawful(kf) && NoDuplicates(kf, t) && Represents(t, m)
    ensures Count(t) == |m|
  {
    if t == [] {
      assert m == map[];
    } else {
      LastSlot(kf, t, m);
      var s := t[|t| - 1];
      if s.Free? {
        CountIsCardinality(kf, t[..|t| - 1], m);
      } else {
        CountIsCardinality(kf, t[..|t| - 1], m - {s.key});
        assert (m - {s.key}).Keys == m.Keys - {s.key};
        assert |m - {s.key}| == |(m - {s.key}).Keys| && |m| == |m.Keys|;
      }
    }
  }

  // ----- what a probe finds -----

  /** A probe for `key` has come to slot `i`: every slot before it holds some other key. */
  ghost predicate Passed<K, V>(kf: Keying<K>, t: Table<K, V>, key: K, i: nat)
    requires i < |t|
  {
    var h := Home(kf, key, |t|);
    forall j: nat | j < |t| && Dist(h, j, |t|) < Dist(h, i, |t|) :: t[j].Used? && !kf.equal(t[j].key, key)
  }

  lemma PassNone<K, V>(kf: Keying<K>, t: Table<K, V>, key: K)
    requires |t| > 0
    ensures Passed(kf, t, key, Home(kf, key, |t|)) && Dist(Home(kf, key, |t|), Home(kf, key, |t|), |t|) == 0
  {
  }

  /** One probe step; a free slot `f` ahead bounds the number of steps. */
  lemma PassOn<K, V>(kf: Keying<K>, t: Table<K, V>, key: K, i: nat, f: nat)
    requires i < |t| && f < |t| && t[f].Free? && t[i].Used? && !kf.equal(t[i].key, key)
    requires Passed(kf, t, key, i)
    requires var h := Home(kf, key, |t|); Dist(h, i, |t|) <= Dist(h, f, |t|)
    ensures Passed(kf, t, key, Next(i, |t|))
    ensures var h := Home(kf, key, |t|);
            Dist(h, Next(i, |t|), |t|) == Dist(h, i, |t|) + 1 <= Dist(h, f, |t|)
  {
  }

  /** A free slot that a probe for `key` runs into first: the key is not in the table. */
  lemma ProbeMisses<K(!new), V>(kf: Keying<K>, t: Table<K, V>, m: map<K, V>, key: K, i: nat)
    requires Lawful(kf) && ProbeInv(kf, t) && Represents(t, m)
    requires i < |t| && t[i].Free?
    requires Passed(kf, t, key, i)
    ensures !Has(kf, m, key)
  {
    forall k | k in m ensures !kf.equal(k, key) {
      var a :| 0 <= a < |t| && t[a] == Used(k, m[k]);
      assert Reached(kf, t, a);
      var here, there := Home(kf, k, |t|), Home(kf, key, |t|);
      assert kf.equal(k, key) ==> here == there;
    }
  }

  lemma NoneEqual<K, V>(kf: Keying<K>, t: Table<K, V>, m: map<K, V>, key: K, i: nat)
    requires Represents(t, m) && !Has(kf, m, key) && i < |t| && t[i].Used?
    ensures !kf.equal(t[i].key, key)
  {
  }

  /** The only key of `m` equal to `key` is the one in slot `i`. */
  lemma OnlyMatch<K(!new), V>(kf: Keying<K>, t: Table<K, V>, m: map<K, V>, key: K, i: nat)
    requires Lawful(kf) && NoDuplicates(kf, t) && Represents(t, m)
    requires i < |t| && t[i].Used? && kf.equal(t[i].key, key)
    ensures Has(kf, m, key)
    ensures t[i].key in m && m[t[i].key] == t[i].value
    ensures forall k | k in m && kf.equal(k, key) :: k == t[i].key
  {
    forall k | k in m && kf.equal(k, key) ensures k == t[i].key {
      var a :| 0 <= a < |t| && t[a] == Used(k, m[k]);
      assert kf.equal(key, t[i].key);
      assert kf.equal(t[a].key, t[i].key);
    }
  }

  // ----- what one write does -----

  /** A new entry in the free slot its probe stops at can be reached, and so can all the others. */
  lemma FillKeepsProbing<K(!new), V>(kf: Keying<K>, t: Table<K, V>, m: map<K, V>, i: nat, key: K, value: V)
    requires Lawful(kf) && ProbeInv(kf, t) && Represents(t, m)
    requires i < |t| && t[i].Free? && !Has(kf, m, key)
    requires Passed(kf, t, key, i)
    ensures ProbeInv(kf, t[i := Used(key, value)])
  {
    var u := t[i := Used(key, value)];
    forall a: nat | a < |u| && u[a].Used? ensures Reached(kf, u, a) {
      if a != i { assert Reached(kf, t, a); }
    }
    forall a: nat | a < |t| && t[a].Used? ensures !kf.equal(t[a].key, key) && !kf.equal(key, t[a].key) {
      assert t[a].key in m;
    }
  }

  /** Storing an absent key in the free slot its probe stops at. */
  lemma FillSlot<K(!new), V>(kf: Keying<K>, t: Table<K, V>, m: map<K, V>, i: nat, key: K, value: V)
    requires Lawful(kf) && ProbeInv(kf, t) && Represents(t, m)
    requires i < |t| && t[i].Free? && !Has(kf, m, key)
    requires Passed(kf, t, key, i)
    ensures ProbeInv(kf, t[i := Used(key, value)])
    ensures Represents(t[i := Used(key, value)], Put(kf, m, key, value))
    ensures Count(t[i := Used(key, value)]) == Count(t) + 1
  {
    FillKeepsProbing(kf, t, m, i, key, value);
    CountUpdate(t, i, Used(key, value));
    assert Without(kf, m, key) == m;
    assert key !in m by { assert kf.equal(key, key); }
    var u, m' := t[i := Used(key, value)], m[key := value];
    forall k | k in m' ensures Used(k, m'[k]) in u {
      if k == key {
        assert u[i] == Used(k, m'[k]);
      } else {
        var a :| 0 <= a < |t| && t[a] == Used(k, m[k]);
        assert u[a] == t[a];
      }
    }
  }

  lemma OverwriteKeepsProbing<K(!new), V>(kf: Keying<K>, t: Table<K, V>, i: nat, key: K, value: V)
    requires Lawful(kf) && ProbeInv(kf, t)
    requires i < |t| && t[i].Used? && kf.equal(t[i].key, key)
    ensures ProbeInv(kf, t[i := Used(key, value)])
  {
    var u := t[i := Used(key, value)];
    forall a: nat | a < |u| && u[a].Used? ensures Reached(kf, u, a) {
      assert Reached(kf, t, a);
      assert Home(kf, u[a].key, |t|) == Home(kf, t[a].key, |t|);
    }
    forall a: nat, b: nat | a < |u| && b < |u| && u[a].Used? && u[b].Used? && kf.equal(u[a].key, u[b].key)
      ensures a == b {
      assert kf.equal(t[a].key, u[a].key) && kf.equal(u[b].key, t[b].key);
      assert kf.equal(t[a].key, u[b].key);
    }
  }

  /** Overwriting the entry whose key is equal to `key`; the stored key is replaced too. */
  lemma OverwriteSlot<K(!new), V>(kf: Keying<K>, t: Table<K, V>, m: map<K, V>, i: nat, key: K, value: V)
    requires Lawful(kf) && ProbeInv(kf, t) && Represents(t, m)
    requires i < |t| && t[i].Used? && kf.equal(t[i].key, key)
    ensures ProbeInv(kf, t[i := Used(key, value)])
    ensures Represents(t[i := Used(key, value)], Put(kf, m, key, value))
    ensures Count(t[i := Used(key, value)]) == Count(t)
  {
    OverwriteKeepsProbing(kf, t, i, key, value);
    var u, m' := t[i := Used(key, value)], Put(kf, m, key, value);
    CountUpdate(t, i, Used(key, value));
    OnlyMatch(kf, t, m, key, i);
    forall k | k in m' ensures Used(k, m'[k]) in u {
      if k == key {
        assert u[i] == Used(k, m'[k]);
      } else {
        var a :| 0 <= a < |t| && t[a] == Used(k, m[k]);
        assert u[a] == t[a];
      }
    }
    forall a: nat | a < |u| && u[a].Used? ensures u[a].key in m' && m'[u[a].key] == u[a].value {
      if a != i {
        var there, here := t[a].key, t[i].key;
        assert kf.equal(there, key) ==> kf.equal(there, here);
      }
    }
  }

  // ----- copying a table slot by slot -----

  /** The entry of slot `i` is not among those of the slots before it. */
  lemma CopyNext<K(!new), V>(kf: Keying<K>, t: Table<K, V>, m: map<K, V>, i: nat)
    requires Lawful(kf) && NoDuplicates(kf, t) && i < |t| && Represents(t[..i], m)
    ensures t[i].Free? ==> Represents(t[..i + 1], m)
    ensures t[i].Used? ==> !Has(kf, m, t[i].key) && Represents(t[..i + 1], Put(kf, m, t[i].key, t[i].value))
  {
    var u := t[..i + 1];
    forall k | k in m ensures Used(k, m[k]) in u && (t[i].Used? ==> !kf.equal(k, t[i].key)) {
      var a :| 0 <= a < i && t[..i][a] == Used(k, m[k]);
      assert u[a] == t[a];
    }
    if t[i].Used? {
      assert Without(kf, m, t[i].key) == m;
      assert kf.equal(t[i].key, t[i].key);
      assert u[i] == t[i];
    }
    forall a: nat | a < i && u[a].Used? ensures u[a].key in m && m[u[a].key] == u[a].value {
      assert t[..i][a] == u[a];
    }
  }

  lemma SameMap<K, V>(t: Table<K, V>, m: map<K, V>, m': map<K, V>)
    requires Represents(t, m) && Represents(t, m')
    ensures m == m'
  {
    forall k | k in m ensures k in m' && m'[k] == m[k] {
      var a :| 0 <= a < |t| && t[a] == Used(k, m[k]);
    }
    forall k | k in m' ensures k in m {
      var a :| 0 <= a < |t| && t[a] == Used(k, m'[k]);
    }
  }

  // ----- visiting every entry -----

  /** The entries in slot order. */
  ghost function Entries<K, V>(t: Table<K, V>): seq<(K, V)>
  {
    if t == [] then []
    else
      var last := t[|t| - 1];
      Entries(t[..|t| - 1]) + if last.Used? then [(last.key, last.value)] else []
  }

  ghost function FoldLeft<K, V, A>(f: (K, V, A) -> A, es: seq<(K, V)>, first: A): A
  {
    if es == [] then first
    else
      var last := es[|es| - 1];
      f(last.0, last.1, FoldLeft(f, es[..|es| - 1], first))
  }

  /** `es` lists each entry of `m` exactly once. */
  ghost predicate Enumerates<K, V>(es: seq<(K, V)>, m: map<K, V>)
  {
    && |es| == |m|
    && (forall i: nat | i < |es| :: es[i].0 in m && m[es[i].0] == es[i].1)
    && (forall i: nat, j: nat | i < j < |es| :: es[i].0 != es[j].0)
    && (forall k | k in m :: (k, m[k]) in es)
  }

  lemma EnumeratesOneMore<K, V>(es: seq<(K, V)>, m: map<K, V>, k0: K)
    requires k0 in m && Enumerates(es, m - {k0})
    ensures Enumerates(es + [(k0, m[k0])], m)
  {
    var m', es' := m - {k0}, es + [(k0, m[k0])];
    assert m'.Keys == m.Keys - {k0};
    assert |m'| == |m'.Keys| && |m| == |m.Keys|;
    assert es'[|es|] == (k0, m[k0]);
    forall k | k in m ensures (k, m[k]) in es' {
      if k != k0 { assert (k, m'[k]) in es; }
    }
  }

  lemma {:induction false} EntriesEnumerate<K(!new), V>(kf: Keying<K>, t: Table<K, V>, m: map<K, V>)
    requires Lawful(kf) && NoDuplicates(kf, t) && Represents(t, m)
    ensures Enumerates(Entries(t), m)
  {
    if t == [] {
      assert m == map[];
    } else {
      hide Enumerates, NoDuplicates;
      var last := t[|t| - 1];
      LastSlot(kf, t, m);
      EntriesEnumerate(kf, t[..|t| - 1], if last.Free? then m else m - {last.key});
      if last.Free? {
        assert Entries(t) == Entries(t[..|t| - 1]);
      } else {
        assert m[last.key] == last.value;
        EnumeratesOneMore(Entries(t[..|t| - 1]), m, last.key);
      }
    }
  }

  lemma FoldNext<K, V, A>(f: (K, V, A) -> A, t: Table<K, V>, i: nat, first: A)
    requires i < |t|
    ensures var acc := FoldLeft(f, Entries(t[..i]), first);
            FoldLeft(f, Entries(t[..i + 1]), first) == if t[i].Used? then f(t[i].key, t[i].value, acc) else acc
  {
    assert t[..i + 1][..i] == t[..i];
    var es, es' := Entries(t[..i]), Entries(t[..i + 1]);
    if t[i].Used? {
      assert es'[..|es'| - 1] == es;
    } else {
      assert es' == es;
    }
  }

  // ----- erasing: the hole that moves -----

  /** During an erase slot `h` is the hole and slots up to (not including) `i` have been looked at.
      Only entries at or after `i` may still have the hole in their probe path. */
  ghost predicate Holed<K, V>(kf: Keying<K>, t: Table<K, V>, h: nat, i: nat)
    requires h < |t| && i < |t|
  {
    && t[h].Free?
    && (forall j: nat | j < |t| && 0 < Dist(h, j, |t|) < Dist(h, i, |t|) :: t[j].Used?)
    && (forall a: nat | a < |t| && t[a].Used? :: ReachedBut(kf, t, a, h, Dist(h, i, |t|) <= Dist(h, a, |t|)))
  }

  /** As Reached, except that the hole `h` may be on the way when `excused`. */
  ghost predicate ReachedBut<K, V>(kf: Keying<K>, t: Table<K, V>, a: nat, h: nat, excused: bool)
    requires a < |t| && t[a].Used? && h < |t|
  {
    var home := Home(kf, t[a].key, |t|);
    forall j: nat | j < |t| && Dist(home, j, |t|) < Dist(home, a, |t|) :: t[j].Used? || (excused && j == h)
  }

  /** Freeing slot `h` opens the hole. */
  lemma OpenHole<K, V>(kf: Keying<K>, t: Table<K, V>, h: nat)
    requires AllReached(kf, t) && h < |t| && t[h].Used? && |t| > 1
    ensures Holed(kf, t[h := Free], h, Next(h, |t|))
  {
    var g, n := t[h := Free], |t|;
    forall a: nat | a < n && g[a].Used? ensures ReachedBut(kf, g, a, h, Dist(h, Next(h, n), n) <= Dist(h, a, n)) {
      assert Reached(kf, t, a);
    }
  }

  /** The three-way comparison of the erase loop asks whether the home `tmp` lies after the hole `h` and up to `i`. */
  lemma HomeAfterHole(h: nat, tmp: nat, i: nat, n: nat)
    requires h < n && tmp < n && i < n && h != i
    ensures (h < tmp <= i || tmp <= i < h || i < h < tmp) <==> Dist(tmp, i, n) < Dist(h, i, n)
  {
  }

  /** One step further from `i` towards `f`, for a hole at `h` and for one at `i`. */
  lemma StepTowards(h: nat, i: nat, f: nat, n: nat)
    requires h < n && i < n && f < n && h != i && i != f && Dist(h, i, n) <= Dist(h, f, n)
    ensures Next(i, n) != h && Dist(h, Next(i, n), n) <= Dist(h, f, n)
    ensures Next(i, n) != i && Dist(i, Next(i, n), n) <= Dist(i, f, n)
    ensures Dist(Next(i, n), f, n) < Dist(i, f, n)
  {
  }

  lemma FirstStep(h: nat, f: nat, n: nat)
    requires h < n && f < n && h != f
    ensures Next(h, n) != h && Dist(h, Next(h, n), n) <= Dist(h, f, n)
  {
  }

  /** The entry at `i` has its home after the hole: leave it. */
  lemma SkipEntry<K, V>(kf: Keying<K>, g: Table<K, V>, h: nat, i: nat)
    requires h < |g| && i < |g| && h != i && g[i].Used? && Holed(kf, g, h, i)
    requires Dist(Home(kf, g[i].key, |g|), i, |g|) < Dist(h, i, |g|)
    requires Next(i, |g|) != h
    ensures Holed(kf, g, h, Next(i, |g|))
  {
    var n := |g|;
    forall a: nat | a < n && g[a].Used? ensures ReachedBut(kf, g, a, h, Dist(h, Next(i, n), n) <= Dist(h, a, n)) {
      assert ReachedBut(kf, g, a, h, Dist(h, i, n) <= Dist(h, a, n));
    }
  }

  /** The entry at `i` reaches back over the hole: move it there, and `i` becomes the hole. */
  lemma MoveEntry<K, V>(kf: Keying<K>, g: Table<K, V>, h: nat, i: nat)
    requires h < |g| && i < |g| && h != i && g[i].Used? && Holed(kf, g, h, i)
    requires Dist(Home(kf, g[i].key, |g|), i, |g|) >= Dist(h, i, |g|)
    requires |g| > 1
    ensures Holed(kf, g[h := g[i]][i := Free], i, Next(i, |g|))
  {
    var n := |g|;
    var u := g[h := g[i]][i := Free];
    forall a: nat | a < n && u[a].Used? ensures ReachedBut(kf, u, a, i, Dist(i, Next(i, n), n) <= Dist(i, a, n)) {
      var from := if a == h then i else a;
      assert ReachedBut(kf, g, from, h, Dist(h, i, n) <= Dist(h, from, n));
    }
  }

  /** A free slot ends the scan: no probe path contains the hole any more. */
  lemma CloseHole<K, V>(kf: Keying<K>, g: Table<K, V>, h: nat, i: nat)
    requires h < |g| && i < |g| && h != i && g[i].Free? && Holed(kf, g, h, i)
    ensures AllReached(kf, g)
  {
    var n := |g|;
    forall a: nat | a < n && g[a].Used? ensures Reached(kf, g, a) {
      assert ReachedBut(kf, g, a, h, Dist(h, i, n) <= Dist(h, a, n));
      var home := Home(kf, g[a].key, n);
      var overHole, overFree := Dist(home, h, n) < Dist(home, a, n), Dist(home, i, n) < Dist(home, a, n);
      assert overHole && Dist(h, i, n) <= Dist(h, a, n) ==> overFree;
    }
  }

  /** Moving an entry keeps what the table stores. */
  lemma MoveKeepsEntries<K, V>(kf: Keying<K>, g: Table<K, V>, m: map<K, V>, h: nat, i: nat)
    requires h < |g| && i < |g| && h != i && g[h].Free? && g[i].Used?
    requires NoDuplicates(kf, g) && Represents(g, m)
    ensures NoDuplicates(kf, g[h := g[i]][i := Free]) && Represents(g[h := g[i]][i := Free], m)
    ensures Count(g[h := g[i]][i := Free]) == Count(g)
  {
    CountUpdate(g, h, g[i]);
    CountUpdate(g[h := g[i]], i, Free);
    var u := g[h := g[i]][i := Free];
    forall a: nat, b: nat | a < |u| && b < |u| && u[a].Used? && u[b].Used? && kf.equal(u[a].key, u[b].key)
      ensures a == b {
      var a', b' := if a == h then i else a, if b == h then i else b;
      assert g[a'] == u[a] && g[b'] == u[b];
    }
    forall k | k in m ensures Used(k, m[k]) in u {
      var a :| 0 <= a < |g| && g[a] == Used(k, m[k]);
      assert u[if a == i then h else a] == g[a];
    }
  }

  /** Freeing the slot of `key` removes exactly that key. */
  lemma FreeKeepsOthers<K(!new), V>(kf: Keying<K>, t: Table<K, V>, m: map<K, V>, key: K, h: nat)
    requires Lawful(kf) && NoDuplicates(kf, t) && Represents(t, m)
    requires h < |t| && t[h].Used? && kf.equal(t[h].key, key)
    ensures NoDuplicates(kf, t[h := Free]) && Represents(t[h := Free], Without(kf, m, key))
    ensures Count(t[h := Free]) == Count(t) - 1
  {
    CountUpdate(t, h, Free);
    var u, m' := t[h := Free], Without(kf, m, key);
    OnlyMatch(kf, t, m, key, h);
    forall k | k in m' ensures Used(k, m'[k]) in u {
      var a :| 0 <= a < |t| && t[a] == Used(k, m[k]);
      assert u[a] == t[a];
    }
    forall a: nat | a < |u| && u[a].Used? ensures u[a].key in m' {
      var there, here := t[a].key, t[h].key;
      assert kf.equal(there, key) ==> kf.equal(there, here);
    }
  }

  // ----- how far the load may go -----

  const MINHASHSIZE := 10
  const MINHASH := 150
  const MAXHASH := 800

  /** The number of used slots at which a table of `size` slots is grown. */
  function Threshold(size: nat): nat
  {
    size / 1024 * MAXHASH + size % 1024 * MAXHASH / 1024
  }

  /** 800 of 1024 slots, rounded down, though computed without large products. */
  lemma ThresholdIsLoad(size: nat)
    ensures Threshold(size) == size * 800 / 1024
  {
    assert size == 1024 * (size / 1024) + size % 1024;
  }

  function Pow2(k: nat): (p: nat)
    ensures p >= 1
  {
    if k == 0 then 1 else 2 * Pow2(k - 1)
  }

  /** The sizes a table can have: 10, 23, 49, ... */
  ghost predicate LegalSize(size: nat)
  {
    exists k: nat :: size == 13 * Pow2(k) - 3
  }

  /** The size rehashing moves to (the current one: no rehash). */
  function TargetSize(size: nat, used: nat): nat
    requires size >= MINHASHSIZE
  {
    if used >= Threshold(size) then 2 * size + 3
    else if used >= size / 1024 * MINHASH || size == MINHASHSIZE then size
    else (size - 3) / 2
  }

  /** The load arithmetic: from any legal size within its threshold, rehashing gives a legal size that is
      strictly below its own threshold, and a threshold always leaves a free slot. */
  lemma TargetSizeIsSafe(size: nat, used: nat)
    requires LegalSize(size) && used <= Threshold(size)
    ensures size >= MINHASHSIZE && Threshold(size) < size
    ensures var s := TargetSize(size, used);
            LegalSize(s) && used < Threshold(s) && Threshold(s) < s
  {
    var k: nat :| size == 13 * Pow2(k) - 3;
    assert 2 * size + 3 == 13 * Pow2(k + 1) - 3;
    if k > 0 {
      assert (size - 3) / 2 == 13 * Pow2(k - 1) - 3;
    } else {
      assert size == MINHASHSIZE;
    }
  }
}
