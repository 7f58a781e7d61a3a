/** The hash table of polyhashmap.c, which stores each key's hash value in its slot and compares hash
    values before calling `equal`. */
module PolyHashMap {
  import opened Common
  import opened Probing
  import opened CachedErase
  import opened HashMap

  /** A slot with `hashval`, the unreduced hash of its key. */
  datatype Cell<+K, +V> = Empty | Full(key: K, value: V, hashval: nat)

  function PlainSlot<K, V>(c: Cell<K, V>): Slot<K, V>
  {
    if c.Empty? then Free else Used(c.key, c.value)
  }

  /** The same table without the stored hash values. */
  function Plain<K, V>(t: seq<Cell<K, V>>): (r: Table<K, V>)
    ensures |r| == |t| && forall i: nat | i < |t| :: r[i] == PlainSlot(t[i])
  {
    seq(|t|, i requires 0 <= i < |t| => PlainSlot(t[i]))
  }

  /** Every stored hash value is the hash of the key beside it. */
  ghost predicate Cached<K, V>(kf: Keying<K>, t: seq<Cell<K, V>>)
  {
    forall i: nat | i < |t| && t[i].Full? :: t[i].hashval == kf.hash(t[i].key)
  }

  lemma PlainUpdate<K, V>(t: seq<Cell<K, V>>, i: nat, c: Cell<K, V>)
    requires i < |t|
    ensures Plain(t[i := c]) == Plain(t)[i := PlainSlot(c)]
  {
  }

  lemma CachedUpdate<K, V>(kf: Keying<K>, t: seq<Cell<K, V>>, i: nat, c: Cell<K, V>)
    requires i < |t| && Cached(kf, t) && (c.Full? ==> c.hashval == kf.hash(c.key))
    ensures Cached(kf, t[i := c])
  {
  }

  /** Comparing hash values first never changes the answer. */
  lemma CachedTest<K(!new), V>(kf: Keying<K>, c: Cell<K, V>, key: K)
    requires Lawful(kf) && c.Full? && c.hashval == kf.hash(c.key)
    ensures (c.hashval == kf.hash(key) && kf.equal(c.key, key)) <==> kf.equal(c.key, key)
  {
  }

  class PolyTable<K(!new), V> {
    var table: array?<Cell<K, V>>
    var hashTableSize: nat
    var hashTableUsed: nat
    var kf: Keying<K>

    ghost var Contents: map<K, V>

    /** Everything but that each entry can be reached by probing. */
    ghost predicate Stored()
      reads this, table
    {
      && table != null && table.Length == hashTableSize
      && Lawful(kf) && LegalSize(hashTableSize)
      && hashTableUsed == Count(Plain(table[..])) <= Threshold(hashTableSize)
      && NoDuplicates(kf, Plain(table[..])) && Represents(Plain(table[..]), Contents) && Cached(kf, table[..])
    }

    ghost predicate Valid()
      reads this, table
    {
      Stored() && AllReached(kf, Plain(table[..]))
    }

    lemma Cardinality()
      requires Stored()
      ensures hashTableUsed == |Contents|
    {
      CountIsCardinality(kf, Plain(table[..]), Contents);
    }

    constructor (kf: Keying<K>)
      ensures table == null && this.kf == kf
    {
      table, this.kf := null, kf;
    }

    /** _reinit, also the last step of _init and _new. `mayAlloc`: one of realloc and malloc succeeds. */
    method Reinit(mayAlloc: bool) returns (code: Code)
      requires Lawful(kf)
      modifies this
      ensures kf == old(kf)
      ensures code == if mayAlloc then OK else OUTOFMEM
      ensures code == OK ==> Valid() && fresh(table) && Contents == map[] && hashTableSize == MINHASHSIZE
      ensures code == OUTOFMEM ==> table == null
    {
      table := null;
      if !mayAlloc { return OUTOFMEM; }
      table := new Cell<K, V>[MINHASHSIZE](_ => Empty);
      hashTableSize, hashTableUsed := MINHASHSIZE, 0;
      Contents := map[];
      EmptyTable(kf, Plain(table[..]));
      assert MINHASHSIZE == 13 * Pow2(0) - 3;
      return OK;
    }

    /** _find */
    method Find(key: K) returns (code: Code, value: Option<V>)
      requires Valid()
      ensures code == if Has(kf, Contents, key) then OK else DNE
      ensures code == OK ==> exists k | k in Contents :: kf.equal(k, key) && value == Some(Contents[k])
      ensures code == DNE ==> value == None
    {
      hide Lawful, LegalSize, Count, NoDuplicates, AllReached, Represents, Passed, Dist, Has, Threshold;
      TargetSizeIsSafe(hashTableSize, hashTableUsed);
      var cells: array<Cell<K, V>> := table;
      ghost var t, n := Plain(cells[..]), hashTableSize;
      ghost var home := Home(kf, key, n);
      ghost var f := FreeSlot(t);
      PassNone(kf, t, key);
      var keyhashval: nat := kf.hash(key);
      var hashval: nat := keyhashval;
      ghost var p := home;
      while true
        invariant p < n && hashval % n == p && Passed(kf, t, key, p)
        invariant Dist(home, p, n) <= Dist(home, f, n)
        decreases Dist(home, f, n) - Dist(home, p, n)
      {
        hashval := hashval % hashTableSize;
        if cells[hashval].Empty? {
          ProbeMisses(kf, t, Contents, key, p);
          return DNE, None;
        }
        hashval := hashval + 1;
        CachedTest(kf, cells[p], key);
        if cells[hashval - 1].hashval == keyhashval && kf.equal(cells[hashval - 1].key, key) {
          OnlyMatch(kf, t, Contents, key, p);
          return OK, Some(cells[hashval - 1].value);
        }
        PassOn(kf, t, key, p, f);
        p := Next(p, n);
      }
    }

    /** _update */
    method Update(key: K, value: V, mayAlloc: bool) returns (code: Code)
      requires Valid()
      modifies this, table
      ensures Valid() && kf == old(kf) && (table == old(table) || fresh(table))
      ensures code == OK || code == OUTOFMEM
      ensures code == OUTOFMEM <==>
                !mayAlloc && TargetSize(old(hashTableSize), old(hashTableUsed)) != old(hashTableSize)
      ensures code == OUTOFMEM ==> Contents == old(Contents) && hashTableSize == old(hashTableSize)
      ensures code != OUTOFMEM ==> hashTableSize == TargetSize(old(hashTableSize), old(hashTableUsed))
      ensures code == OK ==> Contents == Put(kf, old(Contents), key, value)
    {
      hide Lawful, LegalSize, Count, NoDuplicates, AllReached, Represents, Passed, Dist, Has, Put, Threshold, Plain,
        Cached;
      var failed := Rehash(mayAlloc);
      if failed { return OUTOFMEM; }
      TargetSizeIsSafe(hashTableSize, hashTableUsed);
      var cells: array<Cell<K, V>> := table;
      ghost var c, n := cells[..], hashTableSize;
      ghost var t := Plain(c);
      ghost var home := Home(kf, key, n);
      ghost var f := FreeSlot(t);
      PassNone(kf, t, key);
      label Probe:
      var keyhashval: nat := kf.hash(key);
      var hashval: nat := keyhashval % hashTableSize;
      while true
        invariant hashval < n && Passed(kf, t, key, hashval)
        invariant Dist(home, hashval, n) <= Dist(home, f, n)
        invariant unchanged@Probe(this) && cells[..] == c
        decreases Dist(home, f, n) - Dist(home, hashval, n)
      {
        if cells[hashval].Empty? {
          ProbeMisses(kf, t, Contents, key, hashval);
          FillSlot(kf, t, Contents, hashval, key, value);
          SetCell(cells, hashval, Full(key, value, keyhashval), kf);
          hashTableUsed := hashTableUsed + 1;
          Contents := Put(kf, Contents, key, value);
          return OK;
        }
        CachedAt(kf, c, hashval);
        CachedTest(kf, cells[hashval], key);
        if cells[hashval].hashval == keyhashval && kf.equal(cells[hashval].key, key) {
          OverwriteSlot(kf, t, Contents, hashval, key, value);
          SetCell(cells, hashval, Full(key, value, cells[hashval].hashval), kf);
          Contents := Put(kf, Contents, key, value);
          return OK;
        } else {
          PassOn(kf, t, key, hashval, f);
          hashval := hashval + 1;
          hashval := hashval % hashTableSize;
        }
      }
    }

    /** _insert */
    method Insert(key: K, value: V, mayAlloc: bool) returns (code: Code)
      requires Valid()
      modifies this, table
      ensures Valid() && kf == old(kf) && (table == old(table) || fresh(table))
      ensures code == OK || code == AE || code == OUTOFMEM
      ensures code == OUTOFMEM <==>
                !mayAlloc && TargetSize(old(hashTableSize), old(hashTableUsed)) != old(hashTableSize)
      ensures code == OUTOFMEM ==> Contents == old(Contents) && hashTableSize == old(hashTableSize)
      ensures code != OUTOFMEM ==> hashTableSize == TargetSize(old(hashTableSize), old(hashTableUsed))
      ensures code != OUTOFMEM ==> (code == AE <==> Has(kf, old(Contents), key))
      ensures code == AE ==> Contents == old(Contents)
      ensures code == OK ==> Contents == Put(kf, old(Contents), key, value)
    {
      hide Lawful, LegalSize, Count, NoDuplicates, AllReached, Represents, Passed, Dist, Has, Put, Threshold, Plain,
        Cached;
      var failed := Rehash(mayAlloc);
      if failed { return OUTOFMEM; }
      TargetSizeIsSafe(hashTableSize, hashTableUsed);
      var cells: array<Cell<K, V>> := table;
      ghost var c, n := cells[..], hashTableSize;
      ghost var t := Plain(c);
      ghost var home := Home(kf, key, n);
      ghost var f := FreeSlot(t);
      PassNone(kf, t, key);
      var keyhashval: nat := kf.hash(key);
      var hashval: nat := keyhashval % hashTableSize;
      while cells[hashval].Full?
        invariant hashval < n && Passed(kf, t, key, hashval)
        invariant Dist(home, hashval, n) <= Dist(home, f, n)
        invariant cells[..] == c
        decreases Dist(home, f, n) - Dist(home, hashval, n)
        modifies {}
      {
        CachedAt(kf, c, hashval);
        CachedTest(kf, cells[hashval], key);
        if cells[hashval].hashval == keyhashval && kf.equal(cells[hashval].key, key) {
          OnlyMatch(kf, t, Contents, key, hashval);
          return AE;
        }
        PassOn(kf, t, key, hashval, f);
        hashval := hashval + 1;
        hashval := hashval % hashTableSize;
      }
      ProbeMisses(kf, t, Contents, key, hashval);
      FillSlot(kf, t, Contents, hashval, key, value);
      SetCell(cells, hashval, Full(key, value, keyhashval), kf);
      hashTableUsed := hashTableUsed + 1;
      Contents := Put(kf, Contents, key, value);
      return OK;
    }

    static lemma CachedAt(kf: Keying<K>, c: seq<Cell<K, V>>, i: nat)
      requires Cached(kf, c) && i < |c| && c[i].Full?
      ensures c[i].hashval == kf.hash(c[i].key)
    {
    }

    /** Writes one slot. */
    static method SetCell(cells: array<Cell<K, V>>, i: nat, c: Cell<K, V>, ghost kf: Keying<K>)
      requires i < cells.Length && Cached(kf, cells[..]) && (c.Full? ==> c.hashval == kf.hash(c.key))
      modifies cells
      ensures cells[..] == old(cells[..])[i := c] && Cached(kf, cells[..])
      ensures Plain(cells[..]) == old(Plain(cells[..]))[i := PlainSlot(c)]
    {
      ghost var t := cells[..];
      PlainUpdate(t, i, c);
      CachedUpdate(kf, t, i, c);
      cells[i] := c;
      assert cells[..] == t[i := c];
    }

    /** _rehash: hashes from the stored values. Copying makes every entry reachable again. */
    method Rehash(mayAlloc: bool) returns (failed: bool)
      requires Stored()
      modifies this
      ensures Stored() && kf == old(kf) && Contents == old(Contents) && hashTableUsed == old(hashTableUsed)
      ensures failed <==> !mayAlloc && TargetSize(old(hashTableSize), hashTableUsed) != old(hashTableSize)
      ensures failed || hashTableSize == old(hashTableSize) ==>
                table == old(table) && hashTableSize == old(hashTableSize) && unchanged(table)
      ensures !failed ==> hashTableSize == TargetSize(old(hashTableSize), hashTableUsed)
      ensures !failed ==> hashTableUsed < Threshold(hashTableSize)
      ensures hashTableSize != old(hashTableSize) || old(Valid()) ==> Valid()
      ensures table == old(table) || fresh(table)
    {
      hide Lawful, LegalSize, Count, NoDuplicates, AllReached, Represents, Plain, Cached;
      TargetSizeIsSafe(hashTableSize, hashTableUsed);
      var newsize;
      var tmpupper, tmplower := hashTableSize / 1024, hashTableSize % 1024;
      if hashTableUsed >= tmpupper * MAXHASH + tmplower * MAXHASH / 1024 {
        newsize := 2 * hashTableSize + 3;
      } else if hashTableUsed >= hashTableSize / 1024 * MINHASH || hashTableSize == MINHASHSIZE {
        return false;
      } else {
        newsize := (hashTableSize - 3) / 2;
      }
      if !mayAlloc { return true; }
      var newtable := new Cell<K, V>[newsize](_ => Empty);
      EmptyCells(kf, newtable[..]);
      CopyAll(table, newtable, kf, Contents);
      table := newtable;
      hashTableSize := newsize;
      return false;
    }

    static lemma EmptyCells(kf: Keying<K>, c: seq<Cell<K, V>>)
      requires forall i: nat | i < |c| :: c[i].Empty?
      ensures Count(Plain(c)) == 0 && ProbeInv(kf, Plain(c)) && Represents(Plain(c), map[]) && Cached(kf, c)
    {
      EmptyTable(kf, Plain(c));
    }

    static method CopyAll(cells: array<Cell<K, V>>, newtable: array<Cell<K, V>>, kf: Keying<K>, ghost m: map<K, V>)
      requires cells != newtable && Lawful(kf) && NoDuplicates(kf, Plain(cells[..])) && Represents(Plain(cells[..]), m)
      requires Cached(kf, cells[..]) && Cached(kf, newtable[..])
      requires ProbeInv(kf, Plain(newtable[..])) && Count(Plain(newtable[..])) == 0 &&
                 Represents(Plain(newtable[..]), map[])
      requires Count(Plain(cells[..])) < newtable.Length
      modifies newtable
      ensures ProbeInv(kf, Plain(newtable[..])) && Represents(Plain(newtable[..]), m) && Cached(kf, newtable[..])
      ensures Count(Plain(newtable[..])) == Count(Plain(cells[..]))
    {
      hide Lawful, Count, NoDuplicates, AllReached, Represents, Has, Put, Plain, Cached;
      ghost var c := cells[..];
      ghost var t, copied: map<K, V> := Plain(c), map[];
      EmptyTable(kf, t[..0]);
      for i := 0 to cells.Length
        invariant cells[..] == c && Cached(kf, newtable[..])
        invariant Represents(t[..i], copied) && Represents(Plain(newtable[..]), copied) &&
                    ProbeInv(kf, Plain(newtable[..]))
        invariant Count(Plain(newtable[..])) == Count(t[..i])
      {
        CopyNext(kf, t, copied, i);
        CountPrefix(t, i);
        CountOfPrefix(t, i);
        if cells[i].Full? {
          CachedAt(kf, c, i);
          CopyEntry(newtable, cells[i], kf, copied);
          copied := Put(kf, copied, cells[i].key, cells[i].value);
        }
      }
      assert t[..cells.Length] == t;
      SameMap(t, copied, m);
    }

    static method CopyEntry(newtable: array<Cell<K, V>>, cell: Cell<K, V>, ghost kf: Keying<K>, ghost m: map<K, V>)
      requires cell.Full? && cell.hashval == kf.hash(cell.key)
      requires Lawful(kf) && ProbeInv(kf, Plain(newtable[..])) && Represents(Plain(newtable[..]), m) &&
                 !Has(kf, m, cell.key)
      requires Count(Plain(newtable[..])) < newtable.Length && Cached(kf, newtable[..])
      modifies newtable
      ensures ProbeInv(kf, Plain(newtable[..])) && Represents(Plain(newtable[..]), Put(kf, m, cell.key, cell.value))
      ensures Count(Plain(newtable[..])) == old(Count(Plain(newtable[..]))) + 1 && Cached(kf, newtable[..])
    {
      hide Lawful, Count, NoDuplicates, AllReached, Represents, Has, Put, Plain, Cached, Passed, Dist;
      ghost var key := cell.key;
      ghost var c, n := newtable[..], newtable.Length;
      ghost var t := Plain(c);
      ghost var home := Home(kf, key, n);
      ghost var f := FreeSlot(t);
      PassNone(kf, t, key);
      var hashval: nat := cell.hashval % newtable.Length;
      while newtable[hashval].Full?
        invariant hashval < n && Passed(kf, t, key, hashval)
        invariant Dist(home, hashval, n) <= Dist(home, f, n)
        invariant newtable[..] == c
        decreases Dist(home, f, n) - Dist(home, hashval, n)
        modifies {}
      {
        NoneEqual(kf, t, m, key, hashval);
        PassOn(kf, t, key, hashval, f);
        hashval := hashval + 1;
        hashval := hashval % newtable.Length;
      }
      FillSlot(kf, t, m, hashval, key, cell.value);
      SetCell(newtable, hashval, cell, kf);
    }

    function NewSize(size: nat, used: nat, mayAlloc: bool): nat
      requires size >= MINHASHSIZE
    {
      if mayAlloc then TargetSize(size, used) else size
    }

    ghost predicate SafeToErase(key: K)
      requires table != null
      reads this, table
    {
      EraseIsHarmless(kf, Plain(table[..]), key)
    }

    /** _erase, as written: the entry goes, but the others stay reachable exactly when the unreduced
        comparison does no harm, or when the table is rehashed at the end. */
    method Erase(key: K, mayAlloc: bool) returns (code: Code)
      requires Valid()
      modifies this, table
      ensures Stored() && kf == old(kf) && (table == old(table) || fresh(table))
      ensures code == if Has(kf, old(Contents), key) then OK else DNE
      ensures Contents == Without(kf, old(Contents), key)
      ensures hashTableUsed == old(hashTableUsed) - if code == OK then 1 else 0
      ensures code == DNE ==> Valid() && hashTableSize == old(hashTableSize)
      ensures code == OK ==> hashTableSize == NewSize(old(hashTableSize), hashTableUsed, mayAlloc)
      ensures code == OK ==> (Valid() <==> old(SafeToErase(key)) || hashTableSize != old(hashTableSize))
    {
      hide Lawful, LegalSize, Count, NoDuplicates, AllReached, Represents, Passed, Dist, Has, Without, Threshold,
        Plain, Cached, NextFree, Shift, Harmless, EraseIsHarmless, TargetSize;
      TargetSizeIsSafe(hashTableSize, hashTableUsed);
      var cells: array<Cell<K, V>> := table;
      ghost var c, n, m := cells[..], hashTableSize, Contents;
      ghost var t := Plain(c);
      ghost var home := Home(kf, key, n);
      ghost var f0 := FreeSlot(t);
      PassNone(kf, t, key);
      var keyhashval: nat := kf.hash(key);
      var hashval: nat := keyhashval;
      ghost var p := home;
      while true
        invariant p < n && hashval % n == p && Passed(kf, t, key, p)
        invariant Dist(home, p, n) <= Dist(home, f0, n)
        invariant cells[..] == c
        decreases Dist(home, f0, n) - Dist(home, p, n)
        modifies {}
      {
        hashval := hashval % hashTableSize;
        if cells[hashval].Empty? {
          ProbeMisses(kf, t, m, key, p);
          WithoutAbsent(kf, m, key);
          return DNE;
        }
        hashval := hashval + 1;
        CachedAt(kf, c, p);
        CachedTest(kf, cells[p], key);
        if cells[hashval - 1].hashval == keyhashval && kf.equal(cells[hashval - 1].key, key) { break; }
        PassOn(kf, t, key, p, f0);
        p := Next(p, n);
      }
      hashval := hashval - 1;
      OnlyMatch(kf, t, m, key, p);
      ghost var f := NextFreeAfter(t, p, f0);
      HarmlessAtTheKey(kf, t, key, p, f);
      ErasesCorrectlyIff(kf, t, p, f);
      CloseGap(cells, hashval, f, kf, key, m);
      Contents := Without(kf, m, key);
      hashTableUsed := hashTableUsed - 1;
      var _ := Rehash(mayAlloc);
      return OK;
    }

    static lemma NextFreeAfter(t: Table<K, V>, pos: nat, f0: nat) returns (f: nat)
      requires pos < |t| && f0 < |t| && t[f0].Free? && t[pos].Used?
      ensures NextFree(t, pos, f)
    {
      f := FindNextFree(t, pos, Next(pos, |t|), f0);
    }

    static lemma StartScan(t: Table<K, V>, pos: nat, f: nat)
      requires NextFree(t, pos, f)
      ensures pos < |t| && f < |t| && t[f].Free? && Scanning(t[pos := Free], pos, Next(pos, |t|), f)
    {
    }

    static lemma CloseGapEntries(kf: Keying<K>, t: Table<K, V>, pos: nat, f: nat, key: K, m: map<K, V>)
      requires Lawful(kf) && NoDuplicates(kf, t) && Represents(t, m) && NextFree(t, pos, f)
      requires t[pos].Used? && kf.equal(t[pos].key, key)
      ensures var r := Shift(kf, t[pos := Free], pos, Next(pos, |t|), f);
              NoDuplicates(kf, r) && Represents(r, Without(kf, m, key)) && Count(r) == Count(t) - 1
    {
      FreeKeepsOthers(kf, t, m, key, pos);
      ShiftKeepsEntries(kf, t[pos := Free], Without(kf, m, key), pos, Next(pos, |t|), f);
    }

    /** The hole-moving loop of _erase: it computes Shift. */
    static method CloseGap(cells: array<Cell<K, V>>, pos: nat, ghost f: nat, ghost kf: Keying<K>, ghost key: K,
        ghost m: map<K, V>)
      requires Lawful(kf) && Cached(kf, cells[..]) && NextFree(Plain(cells[..]), pos, f) && cells[pos].Full?
      requires NoDuplicates(kf, Plain(cells[..])) && Represents(Plain(cells[..]), m) && kf.equal(cells[pos].key, key)
      modifies cells
      ensures Plain(cells[..]) == Shift(kf, old(Plain(cells[..]))[pos := Free], pos, Next(pos, cells.Length), f)
      ensures Cached(kf, cells[..])
      ensures var r := Plain(cells[..]);
              NoDuplicates(kf, r) && Represents(r, Without(kf, m, key)) && Count(r) == old(Count(Plain(cells[..]))) - 1
    {
      hide Lawful, Count, NoDuplicates, Represents, Without, NextFree, Cached, Plain;
      var size: nat, hashval: nat := cells.Length, pos;
      ghost var t := Plain(cells[..]);
      StartScan(t, pos, f);
      ghost var g := t[pos := Free];
      CloseGapEntries(kf, t, pos, f, key, m);
      var i: nat := (hashval + 1) % size;
      while cells[i].Full?
        invariant hashval < size && i < size && Scanning(g, hashval, i, f) && g[f].Free?
        invariant g == Plain(cells[..])[hashval := Free] && Cached(kf, cells[..])
        invariant Shift(kf, g, hashval, i, f) == Shift(kf, t[pos := Free], pos, Next(pos, size), f)
        decreases Dist(i, f, size)
      {
        ScanStep(g, hashval, i, f);
        CachedAt(kf, cells[..], i);
        var tmp: nat := cells[i].hashval;
        if !(hashval < tmp <= i || tmp <= i < hashval || i < hashval < tmp) {
          g := g[hashval := g[i]][i := Free];
          SetCell(cells, hashval, cells[i], kf);
          hashval := i;
        }
        i := (i + 1) % size;
      }
      SetCell(cells, hashval, Empty, kf);
    }
  }
}
