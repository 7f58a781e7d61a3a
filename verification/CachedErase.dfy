/** The erase loop of polyhashmap.c, which compares hash values that are not reduced modulo the table
    size, and exactly when it nevertheless leaves a table that can be probed. */
module CachedErase {
  import opened Probing

  /** The test of the loop: leave the entry at `i` where it is, the hole being at `h`. */
  predicate Stay(h: nat, i: nat, tmp: nat)
  {
    h < tmp <= i || tmp <= i < h || i < h < tmp
  }

  /** All slots from `i` up to the slot before `f` are used. */
  ghost predicate UsedUpTo<K, V>(t: Table<K, V>, i: nat, f: nat)
    requires i < |t| && f < |t|
  {
    forall j: nat | j < |t| && Dist(i, j, |t|) < Dist(i, f, |t|) :: t[j].Used?
  }

  /** Slot `h` is the hole, slot `i` the next to look at, slot `f` the free slot where the loop stops. */
  ghost predicate Scanning<K, V>(t: Table<K, V>, h: nat, i: nat, f: nat)
  {
    && h < |t| && i < |t| && f < |t| && h != f && h != i
    && Dist(h, i, |t|) <= Dist(h, f, |t|) && UsedUpTo(t, i, f)
  }

  lemma ScanStep<K, V>(t: Table<K, V>, h: nat, i: nat, f: nat)
    requires Scanning(t, h, i, f) && i != f
    ensures t[i].Used? && Scanning(t, h, Next(i, |t|), f) && Scanning(t, i, Next(i, |t|), f)
    ensures Scanning(t[h := t[i]][i := Free], i, Next(i, |t|), f)
    ensures Dist(Next(i, |t|), f, |t|) < Dist(i, f, |t|)
  {
    assert Dist(i, i, |t|) < Dist(i, f, |t|);
  }

  /** The loop from slot `i` up to the free slot `f`, slot `h` being the hole. */
  ghost function Shift<K, V>(kf: Keying<K>, t: Table<K, V>, h: nat, i: nat, f: nat): (r: Table<K, V>)
    requires Scanning(t, h, i, f)
    ensures |r| == |t|
    decreases Dist(i, f, |t|)
  {
    if i == f then t
    else
      ScanStep(t, h, i, f);
      if Stay(h, i, kf.hash(t[i].key)) then Shift(kf, t, h, Next(i, |t|), f)
      else Shift(kf, t[h := t[i]][i := Free], i, Next(i, |t|), f)
  }

  /** Does the unreduced test do right by every entry up to the free slot `f`? `owed`: some entry was left
      behind although it should have moved, so a later one has to fill the hole. */
  ghost predicate Harmless<K, V>(kf: Keying<K>, t: Table<K, V>, h: nat, i: nat, f: nat, owed: bool)
    requires Scanning(t, h, i, f)
    decreases Dist(i, f, |t|)
  {
    if i == f then !owed
    else
      ScanStep(t, h, i, f);
      var tmp := kf.hash(t[i].key);
      var mayStay := Stay(h, i, tmp % |t|);
      if Stay(h, i, tmp) then Harmless(kf, t, h, Next(i, |t|), f, owed || !mayStay)
      else !mayStay && Harmless(kf, t, i, Next(i, |t|), f, false)
  }

  /** Slots that are not between the hole and the free slot keep their content. */
  lemma {:induction false} ShiftFrame<K, V>(kf: Keying<K>, t: Table<K, V>, h: nat, i: nat, f: nat, j: nat)
    requires Scanning(t, h, i, f)
    requires j < |t| && j != h && !(Dist(i, j, |t|) < Dist(i, f, |t|))
    ensures Shift(kf, t, h, i, f)[j] == t[j]
    decreases Dist(i, f, |t|)
  {
    if i != f {
      ScanStep(t, h, i, f);
      if Stay(h, i, kf.hash(t[i].key)) {
        ShiftFrame(kf, t, h, Next(i, |t|), f, j);
      } else {
        ShiftFrame(kf, t[h := t[i]][i := Free], i, Next(i, |t|), f, j);
      }
    }
  }

  /** Whatever the test says, no entry is lost, duplicated or changed. */
  lemma {:induction false} ShiftKeepsEntries<K, V>(kf: Keying<K>, t: Table<K, V>, m: map<K, V>, h: nat, i: nat, f: nat)
    requires Scanning(t, h, i, f) && t[h].Free?
    requires NoDuplicates(kf, t) && Represents(t, m)
    ensures var r := Shift(kf, t, h, i, f);
            NoDuplicates(kf, r) && Represents(r, m) && Count(r) == Count(t)
    decreases Dist(i, f, |t|)
  {
    if i != f {
      ScanStep(t, h, i, f);
      if Stay(h, i, kf.hash(t[i].key)) {
        ShiftKeepsEntries(kf, t, m, h, Next(i, |t|), f);
      } else {
        MoveKeepsEntries(kf, t, m, h, i);
        ShiftKeepsEntries(kf, t[h := t[i]][i := Free], m, i, Next(i, |t|), f);
      }
    }
  }

  /** Entry `a`, already scanned, has the hole `h` on its probe path. */
  ghost predicate Cut<K, V>(kf: Keying<K>, t: Table<K, V>, h: nat, i: nat, a: nat)
    requires h < |t| && i < |t|
  {
    && a < |t| && t[a].Used? && Dist(h, a, |t|) < Dist(h, i, |t|)
    && var home := Home(kf, t[a].key, |t|); Dist(home, h, |t|) < Dist(home, a, |t|)
  }

  /** A harmful step leaves an entry that no probe reaches. */
  lemma {:induction false} HarmfulShift<K, V>(kf: Keying<K>, t: Table<K, V>, h: nat, i: nat, f: nat, owed: bool, a: nat)
    requires Scanning(t, h, i, f) && t[h].Free? && t[f].Free?
    requires owed ==> Cut(kf, t, h, i, a)
    requires !Harmless(kf, t, h, i, f, owed)
    ensures !AllReached(kf, Shift(kf, t, h, i, f))
    decreases Dist(i, f, |t|)
  {
    var n := |t|;
    if i == f {
      assert !Reached(kf, t, a);
    } else {
      ScanStep(t, h, i, f);
      var tmp := kf.hash(t[i].key);
      HomeAfterHole(h, tmp % n, i, n);
      if Stay(h, i, tmp) {
        HarmfulShift(kf, t, h, Next(i, n), f, owed || !Stay(h, i, tmp % n), if owed then a else i);
      } else {
        var u := t[h := t[i]][i := Free];
        if Stay(h, i, tmp % n) {
          MovedTooFar(kf, t, h, i, f);
        } else {
          HarmlessFrame(kf, t, u, i, Next(i, n), f, false);
          HarmfulShift(kf, u, i, Next(i, n), f, false, a);
        }
      }
    }
  }

  /** An entry that should have stayed is cut off by the free slot `f` when it has been moved to `h`. */
  lemma MovedTooFar<K, V>(kf: Keying<K>, t: Table<K, V>, h: nat, i: nat, f: nat)
    requires Scanning(t, h, i, f) && t[h].Free? && t[f].Free? && i != f && t[i].Used?
    requires Dist(Home(kf, t[i].key, |t|), i, |t|) < Dist(h, i, |t|)
    requires Scanning(t[h := t[i]][i := Free], i, Next(i, |t|), f)
    ensures !AllReached(kf, Shift(kf, t[h := t[i]][i := Free], i, Next(i, |t|), f))
  {
    var u, n := t[h := t[i]][i := Free], |t|;
    ShiftFrame(kf, u, i, Next(i, n), f, h);
    ShiftFrame(kf, u, i, Next(i, n), f, f);
    assert !Reached(kf, Shift(kf, u, i, Next(i, n), f), h);
  }

  /** Harmless looks only at the slots from `i` on. */
  lemma {:induction false} HarmlessFrame<K, V>(kf: Keying<K>, t: Table<K, V>, u: Table<K, V>, h: nat, i: nat, f: nat,
      owed: bool)
    requires |t| == |u| && Scanning(t, h, i, f) && Scanning(u, h, i, f)
    requires forall j: nat | j < |t| && Dist(i, j, |t|) < Dist(i, f, |t|) :: u[j] == t[j]
    ensures Harmless(kf, t, h, i, f, owed) == Harmless(kf, u, h, i, f, owed)
    decreases Dist(i, f, |t|)
  {
    if i != f {
      ScanStep(t, h, i, f);
      ScanStep(u, h, i, f);
      var tmp := kf.hash(t[i].key);
      if Stay(h, i, tmp) {
        HarmlessFrame(kf, t, u, h, Next(i, |t|), f, owed || !Stay(h, i, tmp % |t|));
      } else {
        HarmlessFrame(kf, t, u, i, Next(i, |t|), f, false);
      }
    }
  }

  /** As Holed, with scanned entries excused too while a move is owed. */
  ghost predicate HoledOwing<K, V>(kf: Keying<K>, t: Table<K, V>, h: nat, i: nat, owed: bool)
    requires h < |t| && i < |t|
  {
    && t[h].Free?
    && (forall a: nat | a < |t| && t[a].Used? :: ReachedBut(kf, t, a, h, owed || Dist(h, i, |t|) <= Dist(h, a, |t|)))
  }

  lemma OwingMove<K, V>(kf: Keying<K>, g: Table<K, V>, h: nat, i: nat, f: nat, owed: bool)
    requires h < |g| && i < |g| && f < |g| && h != i && i != f && h != f && g[f].Free? && g[i].Used?
    requires Dist(h, i, |g|) <= Dist(h, f, |g|)
    requires HoledOwing(kf, g, h, i, owed)
    requires Dist(Home(kf, g[i].key, |g|), i, |g|) >= Dist(h, i, |g|)
    ensures HoledOwing(kf, g[h := g[i]][i := Free], i, Next(i, |g|), false)
  {
    var n := |g|;
    var u := g[h := g[i]][i := Free];
    forall a: nat | a < n && u[a].Used? ensures ReachedBut(kf, u, a, i, Dist(i, Next(i, n), n) <= Dist(i, a, n)) {
      var from := if a == h then i else a;
      assert ReachedBut(kf, g, from, h, owed || Dist(h, i, n) <= Dist(h, from, n));
    }
  }

  lemma OwingStay<K, V>(kf: Keying<K>, g: Table<K, V>, h: nat, i: nat, f: nat, owed: bool)
    requires h < |g| && i < |g| && f < |g| && h != i && i != f && h != f && g[i].Used?
    requires Dist(h, i, |g|) <= Dist(h, f, |g|)
    requires HoledOwing(kf, g, h, i, owed)
    ensures HoledOwing(kf, g, h, Next(i, |g|), owed || !(Dist(Home(kf, g[i].key, |g|), i, |g|) < Dist(h, i, |g|)))
  {
    var n := |g|;
    var owed' := owed || !(Dist(Home(kf, g[i].key, n), i, n) < Dist(h, i, n));
    forall a: nat | a < n && g[a].Used?
      ensures ReachedBut(kf, g, a, h, owed' || Dist(h, Next(i, n), n) <= Dist(h, a, n)) {
      assert ReachedBut(kf, g, a, h, owed || Dist(h, i, n) <= Dist(h, a, n));
    }
  }

  lemma OwingClose<K, V>(kf: Keying<K>, g: Table<K, V>, h: nat, i: nat)
    requires h < |g| && i < |g| && h != i && g[i].Free? && HoledOwing(kf, g, h, i, false)
    ensures AllReached(kf, g)
  {
    var n := |g|;
    forall a: nat | a < n && g[a].Used? ensures Reached(kf, g, a) {
      assert ReachedBut(kf, g, a, h, Dist(h, i, n) <= Dist(h, a, n));
      var home := Home(kf, g[a].key, n);
      var overHole, overFree := Dist(home, h, n) < Dist(home, a, n), Dist(home, i, n) < Dist(home, a, n);
      assert overHole && Dist(h, i, n) <= Dist(h, a, n) ==> overFree;
    }
  }

  lemma {:induction false} HarmlessShift<K, V>(kf: Keying<K>, t: Table<K, V>, h: nat, i: nat, f: nat, owed: bool)
    requires Scanning(t, h, i, f) && t[f].Free?
    requires HoledOwing(kf, t, h, i, owed) && Harmless(kf, t, h, i, f, owed)
    ensures AllReached(kf, Shift(kf, t, h, i, f))
    decreases Dist(i, f, |t|)
  {
    var n := |t|;
    if i == f {
      OwingClose(kf, t, h, i);
    } else {
      ScanStep(t, h, i, f);
      var tmp := kf.hash(t[i].key);
      HomeAfterHole(h, tmp % n, i, n);
      if Stay(h, i, tmp) {
        OwingStay(kf, t, h, i, f, owed);
        HarmlessShift(kf, t, h, Next(i, n), f, owed || !Stay(h, i, tmp % n));
      } else {
        var u := t[h := t[i]][i := Free];
        OwingMove(kf, t, h, i, f, owed);
        HarmlessFrame(kf, t, u, i, Next(i, n), f, false);
        HarmlessShift(kf, u, i, Next(i, n), f, false);
      }
    }
  }

  /** The first free slot after `pos`: the one the loop stops at. */
  ghost predicate NextFree<K, V>(t: Table<K, V>, pos: nat, f: nat)
  {
    && pos < |t| && f < |t| && f != pos && t[f].Free?
    && (forall j: nat | j < |t| && 0 < Dist(pos, j, |t|) < Dist(pos, f, |t|) :: t[j].Used?)
  }

  lemma {:induction false} FindNextFree<K, V>(t: Table<K, V>, pos: nat, i: nat, f0: nat) returns (f: nat)
    requires pos < |t| && i < |t| && f0 < |t| && pos != i && pos != f0 && t[f0].Free?
    requires Dist(pos, i, |t|) <= Dist(pos, f0, |t|)
    requires forall j: nat | j < |t| && 0 < Dist(pos, j, |t|) < Dist(pos, i, |t|) :: t[j].Used?
    ensures NextFree(t, pos, f)
    decreases Dist(i, f0, |t|)
  {
    if t[i].Free? {
      f := i;
    } else {
      f := FindNextFree(t, pos, Next(i, |t|), f0);
    }
  }

  lemma NextFreeIsUnique<K, V>(t: Table<K, V>, pos: nat, f: nat, f': nat)
    requires NextFree(t, pos, f) && NextFree(t, pos, f')
    ensures f == f'
  {
  }

  /** Erasing `key` from the table misleads no test of the loop: something a caller can find out before
      the call from the entries between the key's slot and the next free slot. */
  ghost predicate EraseIsHarmless<K, V>(kf: Keying<K>, t: Table<K, V>, key: K)
  {
    forall pos: nat, f: nat | NextFree(t, pos, f) && t[pos].Used? && kf.equal(t[pos].key, key) ::
      Harmless(kf, t, pos, Next(pos, |t|), f, false)
  }

  lemma HarmlessAtTheKey<K(!new), V>(kf: Keying<K>, t: Table<K, V>, key: K, pos: nat, f: nat)
    requires Lawful(kf) && NoDuplicates(kf, t)
    requires NextFree(t, pos, f) && t[pos].Used? && kf.equal(t[pos].key, key)
    ensures EraseIsHarmless(kf, t, key) <==> Harmless(kf, t, pos, Next(pos, |t|), f, false)
  {
    if Harmless(kf, t, pos, Next(pos, |t|), f, false) {
      forall p: nat, f': nat | NextFree(t, p, f') && t[p].Used? && kf.equal(t[p].key, key)
        ensures Harmless(kf, t, p, Next(p, |t|), f', false)
      {
        assert kf.equal(key, t[pos].key);
        assert kf.equal(t[p].key, t[pos].key);
        NextFreeIsUnique(t, pos, f, f');
      }
    }
  }

  /** Erasing slot `pos` leaves every other entry reachable exactly when the walk over the entries up to
      the next free slot meets no harmful answer of the unreduced test. */
  lemma ErasesCorrectlyIff<K, V>(kf: Keying<K>, t: Table<K, V>, pos: nat, f: nat)
    requires AllReached(kf, t) && NextFree(t, pos, f) && t[pos].Used?
    ensures AllReached(kf, Shift(kf, t[pos := Free], pos, Next(pos, |t|), f))
            <==> Harmless(kf, t, pos, Next(pos, |t|), f, false)
  {
    var n, g := |t|, t[pos := Free];
    HarmlessFrame(kf, t, g, pos, Next(pos, n), f, false);
    OpenHole(kf, t, pos);
    if Harmless(kf, g, pos, Next(pos, n), f, false) {
      HarmlessShift(kf, g, pos, Next(pos, n), f, false);
    } else {
      HarmfulShift(kf, g, pos, Next(pos, n), f, false, pos);
    }
  }

  lemma SmallMod(a: nat, n: nat)
    requires a < n
    ensures a % n == a
  {
  }

  /** Hash values below the table size never mislead the test. */
  lemma {:induction false} SmallHashesAreHarmless<K, V>(kf: Keying<K>, t: Table<K, V>, h: nat, i: nat, f: nat)
    requires Scanning(t, h, i, f)
    requires forall j: nat | j < |t| && t[j].Used? :: kf.hash(t[j].key) < |t|
    ensures Harmless(kf, t, h, i, f, false)
    decreases Dist(i, f, |t|)
  {
    if i != f {
      ScanStep(t, h, i, f);
      SmallMod(kf.hash(t[i].key), |t|);
      SmallHashesAreHarmless(kf, t, if Stay(h, i, kf.hash(t[i].key)) then h else i, Next(i, |t|), f);
    }
  }

  /** A table of ten slots with one entry at home in slot 0 and one with hash 11, at home in slot 1. */
  ghost predicate TwoNeighbours<K, V>(kf: Keying<K>, t: Table<K, V>)
  {
    && |t| == 10 && t[0].Used? && t[1].Used? && (forall j: nat | 2 <= j < 10 :: t[j].Free?)
    && kf.hash(t[0].key) == 0 && kf.hash(t[1].key) == 11
  }

  /** Erasing the first moves the second to slot 0, where no probe for it looks. */
  lemma NeighbourIsLost<K, V>(kf: Keying<K>, t: Table<K, V>)
    requires TwoNeighbours(kf, t)
    ensures AllReached(kf, t) && NextFree(t, 0, 2) && !AllReached(kf, Shift(kf, t[0 := Free], 0, 1, 2))
  {
    assert Home(kf, t[0].key, 10) == 0 && Home(kf, t[1].key, 10) == 1;
    assert Reached(kf, t, 0) && Reached(kf, t, 1);
    assert !Harmless(kf, t, 0, 1, 2, false) by { assert 11 % 10 == 1; }
    ErasesCorrectlyIff(kf, t, 0, 2);
  }

  /** Keys that hash to themselves. */
  const PLAIN_KEYS: Keying<nat> := Keying((k: nat) => k, (a: nat, b: nat) => a == b)

  const TWO_ENTRIES: Table<nat, nat> := [Used(0, 0), Used(11, 1)] + seq(8, _ => Free)

  /** An input on which the erase fails: keys 0 and 11, hashed to themselves; 0 is erased. */
  lemma EraseCanLoseAnEntry()
    ensures var t := TWO_ENTRIES;
            && Lawful(PLAIN_KEYS) && ProbeInv(PLAIN_KEYS, t) && NextFree(t, 0, 2)
            && !AllReached(PLAIN_KEYS, Shift(PLAIN_KEYS, t[0 := Free], 0, 1, 2))
  {
    hide AllReached, Shift, NextFree;
    NeighbourIsLost(PLAIN_KEYS, TWO_ENTRIES);
  }
}
