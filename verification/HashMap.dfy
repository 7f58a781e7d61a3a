/** The linear-probing hash table of hashmap.c: open addressing, backward-shift erase, rehashing. */
module HashMap {
  import opened Common
  import opened Probing

  datatype Code = OK | DNE | AE | OUTOFMEM

  class HashTable<K(!new), V> {
    var table: array?<Slot<K, V>>
    var hashTableSize: nat
    var hashTableUsed: nat
    var kf: Keying<K>

    /** The finite map the table stands for. */
    ghost var Contents: map<K, V>

    ghost predicate Valid()
      reads this, table
    {
      && table != null && table.Length == hashTableSize
      && Lawful(kf) && LegalSize(hashTableSize)
      && hashTableUsed == Count(table[..]) <= Threshold(hashTableSize)
      && ProbeInv(kf, table[..]) && Represents(table[..], Contents)
    }

    /** hashTableUsed is the number of entries; two different keys of the map are never `equal`. */
    lemma Cardinality()
      requires Valid()
      ensures hashTableUsed == |Contents| && OnePerClass(kf, Contents)
    {
      CountIsCardinality(kf, table[..], Contents);
      forall a, b | a in Contents && b in Contents && kf.equal(a, b) ensures a == b {
        var i :| 0 <= i < table.Length && table[..][i] == Used(a, Contents[a]);
        var j :| 0 <= j < table.Length && table[..][j] == Used(b, Contents[b]);
      }
    }

    /** A table that has not been initialised. */
    constructor (kf: Keying<K>)
      ensures table == null && this.kf == kf
    {
      table, this.kf := null, kf;
    }

    /** hashinit. `mayAlloc`: what malloc answers. */
    method Init(kf: Keying<K>, mayAlloc: bool) returns (code: Code)
      requires Lawful(kf)
      modifies this
      ensures code == if mayAlloc then OK else OUTOFMEM
      ensures code == OK ==> Valid() && fresh(table) && Contents == map[] && this.kf == kf
      ensures code == OUTOFMEM ==> table == null
    {
      this.kf := kf;
      table := null;
      code := Reinit(mayAlloc);
    }

    /** hashreinit: realloc first, malloc when that fails; `mayAlloc`: one of the two succeeds. */
    method Reinit(mayAlloc: bool) returns (code: Code)
      requires Lawful(kf)
      modifies this
      ensures kf == old(kf)
      ensures code == if mayAlloc then OK else OUTOFMEM
      ensures code == OK ==> Valid() && fresh(table) && Contents == map[] && hashTableSize == MINHASHSIZE
      ensures code == OUTOFMEM ==> table == null
    {
      table := null;
      if !mayAlloc { return OUTOFMEM; }
      table := new Slot<K, V>[MINHASHSIZE](_ => Free);
      hashTableSize, hashTableUsed := MINHASHSIZE, 0;
      Contents := map[];
      EmptyTable(kf, table[..]);
      assert MINHASHSIZE == 13 * Pow2(0) - 3;
      return OK;
    }

    /** hashfind: the value stored under a key equal to `key`, or DNE when there is none. */
    method Find(key: K) returns (code: Code, value: Option<V>)
      requires Valid()
      ensures code == if Has(kf, Contents, key) then OK else DNE
      ensures code == OK ==> exists k | k in Contents :: kf.equal(k, key) && value == Some(Contents[k])
      ensures code == DNE ==> value == None
    {
      hide Lawful, LegalSize, Count, NoDuplicates, AllReached, Represents, Passed, Dist, Has, Put, Without, Threshold;
      TargetSizeIsSafe(hashTableSize, hashTableUsed);
      var slots: array<Slot<K, V>> := table;
      ghost var t, n := slots[..], hashTableSize;
      ghost var home := Home(kf, key, n);
      ghost var f := FreeSlot(t);
      PassNone(kf, t, key);
      var hashval: nat := kf.hash(key);
      ghost var p := home;
      while true
        invariant p < n && hashval % n == p && Passed(kf, t, key, p)
        invariant Dist(home, p, n) <= Dist(home, f, n)
        decreases Dist(home, f, n) - Dist(home, p, n)
      {
        hashval := hashval % hashTableSize;
        if slots[hashval].Free? {
          ProbeMisses(kf, t, Contents, key, p);
          return DNE, None;
        }
        hashval := hashval + 1;
        if kf.equal(slots[hashval - 1].key, key) {
          OnlyMatch(kf, t, Contents, key, p);
          return OK, Some(slots[hashval - 1].value);
        }
        PassOn(kf, t, key, p, f);
        p := Next(p, n);
      }
    }

    /** hashupdate: replaces the entry with an equal key, or adds one. */
    method Update(key: K, value: V, mayAlloc: bool) returns (code: Code)
      requires Valid()
      modifies this, table
      ensures Valid() && kf == old(kf) && (table == old(table) || fresh(table))
      ensures code == OK || code == OUTOFMEM
      ensures code == OUTOFMEM <==>
                !mayAlloc && TargetSize(old(hashTableSize), old(hashTableUsed)) != old(hashTableSize)
      ensures code == OUTOFMEM ==> Contents == old(Contents) && table == old(table) && table[..] == old(table[..])
      ensures code == OUTOFMEM ==> hashTableSize == old(hashTableSize) && hashTableUsed == old(hashTableUsed)
      ensures code != OUTOFMEM ==> hashTableSize == TargetSize(old(hashTableSize), old(hashTableUsed))
      ensures code == OK ==> Contents == Put(kf, old(Contents), key, value)
    {
      hide Lawful, LegalSize, Count, NoDuplicates, AllReached, Represents, Passed, Dist, Has, Put, Without, Threshold;
      var failed := Rehash(mayAlloc);
      if failed { return OUTOFMEM; }
      TargetSizeIsSafe(hashTableSize, hashTableUsed);
      var slots: array<Slot<K, V>> := table;
      ghost var t, n := slots[..], hashTableSize;
      ghost var home := Home(kf, key, n);
      ghost var f := FreeSlot(t);
      PassNone(kf, t, key);
      label Probe:
      var hashval: nat := kf.hash(key) % hashTableSize;
      while true
        invariant hashval < n && Passed(kf, t, key, hashval)
        invariant Dist(home, hashval, n) <= Dist(home, f, n)
        invariant unchanged@Probe(this, slots)
        decreases Dist(home, f, n) - Dist(home, hashval, n)
      {
        if slots[hashval].Free? {
          ProbeMisses(kf, t, Contents, key, hashval);
          FillSlot(kf, t, Contents, hashval, key, value);
          slots[hashval] := Used(key, value);
          assert slots[..] == t[hashval := Used(key, value)];
          hashTableUsed := hashTableUsed + 1;
          Contents := Put(kf, Contents, key, value);
          return OK;
        } else if kf.equal(slots[hashval].key, key) {
          OverwriteSlot(kf, t, Contents, hashval, key, value);
          slots[hashval] := Used(key, value);
          assert slots[..] == t[hashval := Used(key, value)];
          Contents := Put(kf, Contents, key, value);
          return OK;
        } else {
          PassOn(kf, t, key, hashval, f);
          hashval := hashval + 1;
          hashval := hashval % hashTableSize;
        }
      }
    }

    /** hashinsert: adds an entry, and refuses when an equal key is present. */
    method Insert(key: K, value: V, mayAlloc: bool) returns (code: Code)
      requires Valid()
      modifies this, table
      ensures Valid() && kf == old(kf) && (table == old(table) || fresh(table))
      ensures code == OK || code == AE || code == OUTOFMEM
      ensures code == OUTOFMEM <==>
                !mayAlloc && TargetSize(old(hashTableSize), old(hashTableUsed)) != old(hashTableSize)
      ensures code == OUTOFMEM ==> Contents == old(Contents) && table == old(table) && table[..] == old(table[..])
      ensures code == OUTOFMEM ==> hashTableSize == old(hashTableSize) && hashTableUsed == old(hashTableUsed)
      ensures code != OUTOFMEM ==> hashTableSize == TargetSize(old(hashTableSize), old(hashTableUsed))
      ensures code != OUTOFMEM ==> (code == AE <==> Has(kf, old(Contents), key))
      ensures code == AE ==> Contents == old(Contents)
      ensures code == OK ==> Contents == Put(kf, old(Contents), key, value)
    {
      hide Lawful, LegalSize, Count, NoDuplicates, AllReached, Represents, Passed, Dist, Has, Put, Without, Threshold;
      var failed := Rehash(mayAlloc);
      if failed { return OUTOFMEM; }
      TargetSizeIsSafe(hashTableSize, hashTableUsed);
      var slots: array<Slot<K, V>> := table;
      ghost var t, n := slots[..], hashTableSize;
      ghost var home := Home(kf, key, n);
      ghost var f := FreeSlot(t);
      PassNone(kf, t, key);
      var hashval: nat := kf.hash(key) % hashTableSize;
      while slots[hashval].Used?
        invariant hashval < n && Passed(kf, t, key, hashval)
        invariant Dist(home, hashval, n) <= Dist(home, f, n)
        decreases Dist(home, f, n) - Dist(home, hashval, n)
        modifies {}
      {
        if kf.equal(slots[hashval].key, key) {
          OnlyMatch(kf, t, Contents, key, hashval);
          return AE;
        }
        PassOn(kf, t, key, hashval, f);
        hashval := hashval + 1;
        hashval := hashval % hashTableSize;
      }
      ProbeMisses(kf, t, Contents, key, hashval);
      FillSlot(kf, t, Contents, hashval, key, value);
      slots[hashval] := Used(key, value);
      assert slots[..] == t[hashval := Used(key, value)];
      hashTableUsed := hashTableUsed + 1;
      Contents := Put(kf, Contents, key, value);
      return OK;
    }

    /** hashFold: folds `f` over all entries, each visited exactly once. */
    method Fold<A>(f: (K, V, A) -> A, first: A) returns (acc: A)
      requires Valid()
      ensures Enumerates(Entries(table[..]), Contents)
      ensures acc == FoldLeft(f, Entries(table[..]), first)
    {
      hide Lawful, LegalSize, Count, NoDuplicates, AllReached, Represents, Threshold, Enumerates;
      var slots: array<Slot<K, V>> := table;
      ghost var t := slots[..];
      EntriesEnumerate(kf, t, Contents);
      acc := first;
      for i := 0 to hashTableSize
        invariant acc == FoldLeft(f, Entries(t[..i]), first)
      {
        FoldNext(f, t, i, first);
        if slots[i].Used? {
          acc := f(slots[i].key, slots[i].value, acc);
        }
      }
      assert t[..hashTableSize] == t;
    }

    /** hashrehash: moves to the target size, dropping nothing; reports a failed allocation. */
    method Rehash(mayAlloc: bool) returns (failed: bool)
      requires Valid()
      modifies this
      ensures Valid() && kf == old(kf) && Contents == old(Contents) && hashTableUsed == old(hashTableUsed)
      ensures failed <==> !mayAlloc && TargetSize(old(hashTableSize), hashTableUsed) != old(hashTableSize)
      ensures failed ==> table == old(table) && hashTableSize == old(hashTableSize)
      ensures !failed ==> hashTableSize == TargetSize(old(hashTableSize), hashTableUsed)
      ensures !failed ==> hashTableUsed < Threshold(hashTableSize)
      ensures table == old(table) || fresh(table)
    {
      hide Lawful, LegalSize, Count, NoDuplicates, AllReached, Represents, Passed, Dist, Has, Put, Without;
      TargetSizeIsSafe(hashTableSize, hashTableUsed);
      var newsize;
      var tmpupper, tmplower := hashTableSize / 1024, hashTableSize % 1024;
      if hashTableUsed >= tmpupper * MAXHASH + tmplower * MAXHASH / 1024 {
        newsize := 2 * hashTableSize + 3;
      } else if hashTableUsed >= hashTableSize / 1024 * MINHASH || hashTableSize == MINHASHSIZE {
        return false;
      } else {
        newsize := (hashTableSize - 3) / 2;
      }
      if !mayAlloc { return true; }
      var newtable := new Slot<K, V>[newsize](_ => Free);
      EmptyTable(kf, newtable[..]);
      CopyAll(table, newtable, Contents);
      table := newtable;
      hashTableSize := newsize;
      return false;
    }

    /** The copying loop of hashrehash. */
    method CopyAll(slots: array<Slot<K, V>>, newtable: array<Slot<K, V>>, ghost m: map<K, V>)
      requires slots != newtable && Lawful(kf) && ProbeInv(kf, slots[..]) && Represents(slots[..], m)
      requires ProbeInv(kf, newtable[..]) && Count(newtable[..]) == 0 && Represents(newtable[..], map[])
      requires Count(slots[..]) < newtable.Length
      modifies newtable
      ensures ProbeInv(kf, newtable[..]) && Represents(newtable[..], m)
      ensures Count(newtable[..]) == Count(slots[..])
    {
      hide Lawful, Count, NoDuplicates, AllReached, Represents, Has, Put;
      ghost var t, copied: map<K, V> := slots[..], map[];
      EmptyTable(kf, t[..0]);
      for i := 0 to slots.Length
        invariant slots[..] == t
        invariant Represents(t[..i], copied) && Represents(newtable[..], copied) && ProbeInv(kf, newtable[..])
        invariant Count(newtable[..]) == Count(t[..i])
      {
        CopyNext(kf, t, copied, i);
        CountPrefix(t, i);
        CountOfPrefix(t, i);
        if slots[i].Used? {
          CopyEntry(newtable, slots[i].key, slots[i].value, copied);
          copied := Put(kf, copied, slots[i].key, slots[i].value);
        }
      }
      assert t[..slots.Length] == t;
      SameMap(t, copied, m);
    }

    /** The inner loop of hashrehash: stores an entry known to be new in a table with room. */
    method CopyEntry(newtable: array<Slot<K, V>>, key: K, value: V, ghost m: map<K, V>)
      requires Lawful(kf) && ProbeInv(kf, newtable[..]) && Represents(newtable[..], m) && !Has(kf, m, key)
      requires Count(newtable[..]) < newtable.Length
      modifies newtable
      ensures ProbeInv(kf, newtable[..]) && Represents(newtable[..], Put(kf, m, key, value))
      ensures Count(newtable[..]) == old(Count(newtable[..])) + 1
    {
      hide Lawful, LegalSize, Count, NoDuplicates, AllReached, Represents, Passed, Dist, Has, Put, Without, Threshold;
      ghost var t, n := newtable[..], newtable.Length;
      ghost var home := Home(kf, key, n);
      ghost var f := FreeSlot(t);
      PassNone(kf, t, key);
      var hashval: nat := kf.hash(key) % newtable.Length;
      while newtable[hashval].Used?
        invariant hashval < n && Passed(kf, t, key, hashval)
        invariant Dist(home, hashval, n) <= Dist(home, f, n)
        decreases Dist(home, f, n) - Dist(home, hashval, n)
        modifies {}
      {
        NoneEqual(kf, t, m, key, hashval);
        PassOn(kf, t, key, hashval, f);
        hashval := hashval + 1;
        hashval := hashval % newtable.Length;
      }
      FillSlot(kf, t, m, hashval, key, value);
      newtable[hashval] := Used(key, value);
      assert newtable[..] == t[hashval := Used(key, value)];
    }

    /** hasherase: removes the entry with an equal key, by moving later entries back over the hole. */
    method Erase(key: K, mayAlloc: bool) returns (code: Code)
      requires Valid()
      modifies this, table
      ensures Valid() && kf == old(kf) && (table == old(table) || fresh(table))
      ensures code == if Has(kf, old(Contents), key) then OK else DNE
      ensures Contents == Without(kf, old(Contents), key)
      ensures hashTableUsed == old(hashTableUsed) - if code == OK then 1 else 0
      ensures hashTableSize == if code == OK && mayAlloc then TargetSize(old(hashTableSize), hashTableUsed)
                else old(hashTableSize)
    {
      hide Lawful, LegalSize, Count, NoDuplicates, AllReached, Represents, Passed, Dist, Has, Put, Without, Threshold,
        Holed;
      TargetSizeIsSafe(hashTableSize, hashTableUsed);
      var slots: array<Slot<K, V>> := table;
      ghost var t, n, m := slots[..], hashTableSize, Contents;
      ghost var home := Home(kf, key, n);
      ghost var f := FreeSlot(t);
      PassNone(kf, t, key);
      var hashval: nat := kf.hash(key);
      ghost var p := home;
      while true
        invariant p < n && hashval % n == p && Passed(kf, t, key, p)
        invariant Dist(home, p, n) <= Dist(home, f, n)
        decreases Dist(home, f, n) - Dist(home, p, n)
        invariant slots[..] == t
        modifies {}
      {
        hashval := hashval % hashTableSize;
        if slots[hashval].Free? {
          ProbeMisses(kf, t, m, key, p);
          WithoutAbsent(kf, m, key);
          return DNE;
        }
        hashval := hashval + 1;
        if kf.equal(slots[hashval - 1].key, key) { break; }
        PassOn(kf, t, key, p, f);
        p := Next(p, n);
      }
      hashval := hashval - 1;
      OnlyMatch(kf, t, m, key, hashval);
      CloseGap(slots, hashval, key, f, m);
      Contents := Without(kf, m, key);
      hashTableUsed := hashTableUsed - 1;
      var _ := Rehash(mayAlloc);
      return OK;
    }

    /** The hole-moving loop of hasherase, from the slot of the erased key on. `f` is any free slot. */
    method CloseGap(slots: array<Slot<K, V>>, pos: nat, key: K, ghost f: nat, ghost m: map<K, V>)
      requires Lawful(kf) && ProbeInv(kf, slots[..]) && Represents(slots[..], m)
      requires pos < slots.Length && slots[pos].Used? && kf.equal(slots[pos].key, key)
      requires f < slots.Length && slots[f].Free?
      modifies slots
      ensures ProbeInv(kf, slots[..]) && Represents(slots[..], Without(kf, m, key))
      ensures Count(slots[..]) == old(Count(slots[..])) - 1
    {
      hide Lawful, Count, NoDuplicates, AllReached, Represents, Without, Holed, Dist, Next;
      var size: nat, hashval: nat := slots.Length, pos;
      FirstStep(pos, f, size);
      ghost var m' := Without(kf, m, key);
      // `g` is the table with the hole freed; the C code leaves a stale copy there until the end
      ghost var g := slots[..][pos := Free];
      FreeKeepsOthers(kf, slots[..], m, key, pos);
      OpenHole(kf, slots[..], pos);
      var i: nat := (hashval + 1) % size;
      while slots[i].Used?
        invariant hashval < size && i < size && i != hashval && slots[hashval].Used?
        invariant g == slots[..][hashval := Free] && slots[f].Free?
        invariant Dist(hashval, i, size) <= Dist(hashval, f, size)
        invariant Holed(kf, g, hashval, i) && NoDuplicates(kf, g) && Represents(g, m')
        invariant Count(g) == old(Count(slots[..])) - 1
        decreases Dist(i, f, size)
      {
        var tmp: nat := kf.hash(slots[i].key) % size;
        HomeAfterHole(hashval, tmp, i, size);
        StepTowards(hashval, i, f, size);
        if !(hashval < tmp <= i || tmp <= i < hashval || i < hashval < tmp) {
          MoveEntry(kf, g, hashval, i);
          MoveKeepsEntries(kf, g, m', hashval, i);
          g := g[hashval := g[i]][i := Free];
          slots[hashval] := slots[i];
          hashval := i;
        } else {
          SkipEntry(kf, g, hashval, i);
        }
        i := (i + 1) % size;
      }
      CloseHole(kf, g, hashval, i);
      slots[hashval] := Free;
      assert slots[..] == g;
    }
  }
}
