/**
 The open-addressing hash map: linear probing over a power-of-two table, tombstones for erased keys,
 rehashing at three quarters full.  Masking by the bucket count less one is the remainder by it.
 */
module UnorderedMap {
  import opened Powers

  datatype Slot<K, V> = Empty | Occupied(key: K, value: V) | Deleted

  // ── Probing ─────────────────────────────────────────────────────

  // How far a probe from one slot walks to reach another.
  function Dist(n: nat, from: nat, to: nat): (d: nat)
    requires from < n && to < n
    ensures d < n
  {
    if from <= to then to - from else to + n - from
  }

  function NextSlot(n: nat, i: nat): (next: nat)
    requires i < n
    ensures next < n
  {
    (i + 1) % n
  }

  lemma DistNext(n: nat, from: nat, i: nat)
    requires from < n && i < n && Dist(n, from, i) + 1 < n
    ensures Dist(n, from, NextSlot(n, i)) == Dist(n, from, i) + 1
  {
    if i + 1 < n { DivModUnique(i + 1, n, 0, i + 1); } else { DivModUnique(i + 1, n, 1, 0); }
  }

  lemma DistInjective(n: nat, from: nat, i: nat, j: nat)
    requires from < n && i < n && j < n && Dist(n, from, i) == Dist(n, from, j)
    ensures i == j
  {}

  lemma DistDiffers(n: nat, from: nat, i: nat, j: nat)
    requires from < n && i < n && j < n && i != j
    ensures Dist(n, from, i) != Dist(n, from, j)
  {}

  function Home<K>(hash: K -> nat, key: K, n: nat): (home: nat)
    requires n > 0
    ensures home < n
  {
    hash(key) % n
  }

  // ── A table and the map it stands for ───────────────────────────

  ghost predicate PathTo<K, V>(s: seq<Slot<K, V>>, home: nat, i: nat)
    requires home < |s| && i < |s|
  {
    forall p :: 0 <= p < |s| && Dist(|s|, home, p) < Dist(|s|, home, i) ==> !s[p].Empty?
  }

  // No slot on the way is free.
  ghost predicate TakenTo<K, V>(s: seq<Slot<K, V>>, home: nat, i: nat)
    requires home < |s| && i < |s|
  {
    forall p :: 0 <= p < |s| && Dist(|s|, home, p) < Dist(|s|, home, i) ==> s[p].Occupied?
  }

  // No empty slot lies on the way to a stored key.
  ghost predicate Reachable<K, V>(s: seq<Slot<K, V>>, hash: K -> nat) {
    forall i :: 0 <= i < |s| && s[i].Occupied? ==> PathTo(s, Home(hash, s[i].key, |s|), i)
  }

  ghost predicate Unique<K, V>(s: seq<Slot<K, V>>) {
    forall i, j :: 0 <= i < j < |s| && s[i].Occupied? && s[j].Occupied? ==> s[i].key != s[j].key
  }

  ghost predicate At<K, V>(s: seq<Slot<K, V>>, i: int, key: K, value: V) {
    0 <= i < |s| && s[i] == Occupied(key, value)
  }

  ghost predicate Holds<K, V>(s: seq<Slot<K, V>>, m: map<K, V>) {
    && (forall i :: 0 <= i < |s| && s[i].Occupied? ==> s[i].key in m && m[s[i].key] == s[i].value)
    && (forall k <- m :: exists i :: At(s, i, k, m[k]))
  }

  ghost predicate Table<K, V>(s: seq<Slot<K, V>>, hash: K -> nat, m: map<K, V>) {
    Reachable(s, hash) && Unique(s) && Holds(s, m)
  }

  function Count<K, V>(s: seq<Slot<K, V>>, deleted: bool): (c: nat)
    ensures c <= |s|
  {
    if s == [] then 0
    else
      var last := s[|s| - 1];
      Count(s[..|s| - 1], deleted) + if (if deleted then last.Deleted? else last.Occupied?) then 1 else 0
  }

  function One<K, V>(slot: Slot<K, V>, deleted: bool): nat {
    if (if deleted then slot.Deleted? else slot.Occupied?) then 1 else 0
  }

  lemma {:induction false} CountUpdate<K, V>(s: seq<Slot<K, V>>, i: nat, slot: Slot<K, V>, deleted: bool)
    requires i < |s|
    ensures Count(s[i := slot], deleted) + One(s[i], deleted) == Count(s, deleted) + One(slot, deleted)
  {
    var n := |s| - 1;
    if i == n {
      assert s[i := slot][..n] == s[..n];
    } else {
      assert s[i := slot][..n] == s[..n][i := slot];
      CountUpdate(s[..n], i, slot, deleted);
    }
  }

  // Fewer keys and tombstones than slots leave an empty one.
  lemma {:induction false} SomeEmpty<K, V>(s: seq<Slot<K, V>>) returns (e: nat)
    requires Count(s, false) + Count(s, true) < |s|
    ensures e < |s| && s[e].Empty?
  {
    if s[|s| - 1].Empty? {
      e := |s| - 1;
    } else {
      e := SomeEmpty(s[..|s| - 1]);
    }
  }

  lemma {:induction false} AllEmpty<K, V>(s: seq<Slot<K, V>>)
    requires forall i :: 0 <= i < |s| ==> s[i].Empty?
    ensures Count(s, false) == 0 && Count(s, true) == 0
  {
    if s != [] { AllEmpty(s[..|s| - 1]); }
  }

  // Storing a new key where its probe may end.
  lemma Stored<K, V>(s: seq<Slot<K, V>>, hash: K -> nat, m: map<K, V>, i: nat, key: K, value: V)
    requires Table(s, hash, m) && i < |s| && !s[i].Occupied? && key !in m && PathTo(s, Home(hash, key, |s|), i)
    ensures Table(s[i := Occupied(key, value)], hash, m[key := value])
  {
    var s' := s[i := Occupied(key, value)];
    assert At(s', i, key, value);
    forall j | 0 <= j < |s'| && s'[j].Occupied? ensures PathTo(s', Home(hash, s'[j].key, |s'|), j) {
      if j != i { assert PathTo(s, Home(hash, s[j].key, |s|), j); }
    }
    forall k | k in m ensures exists j :: At(s', j, k, m[k]) {
      var j :| At(s, j, k, m[k]);
      assert At(s', j, k, m[k]);
    }
  }

  // Erasing a key leaves a tombstone, so no path breaks.
  lemma Erased<K, V>(s: seq<Slot<K, V>>, hash: K -> nat, m: map<K, V>, i: nat)
    requires Table(s, hash, m) && i < |s| && s[i].Occupied?
    ensures Table(s[i := Deleted], hash, m - {s[i].key})
  {
    var s', m' := s[i := Deleted], m - {s[i].key};
    forall j | 0 <= j < |s'| && s'[j].Occupied? ensures PathTo(s', Home(hash, s'[j].key, |s'|), j) {
      assert PathTo(s, Home(hash, s[j].key, |s|), j);
    }
    forall k | k in m' ensures exists j :: At(s', j, k, m'[k]) {
      var j :| At(s, j, k, m[k]);
      assert At(s', j, k, m'[k]);
    }
  }

  lemma Assigned<K, V>(s: seq<Slot<K, V>>, hash: K -> nat, m: map<K, V>, i: nat, value: V)
    requires Table(s, hash, m) && i < |s| && s[i].Occupied?
    ensures Table(s[i := s[i].(value := value)], hash, m[s[i].key := value])
  {
    var key := s[i].key;
    var s', m' := s[i := Occupied(key, value)], m[key := value];
    assert At(s', i, key, value);
    forall j | 0 <= j < |s'| && s'[j].Occupied? ensures PathTo(s', Home(hash, s'[j].key, |s'|), j) {
      assert PathTo(s, Home(hash, s[j].key, |s|), j);
    }
    forall k | k in m' && k != key ensures exists j :: At(s', j, k, m'[k]) {
      var j :| At(s, j, k, m[k]);
      assert At(s', j, k, m'[k]);
    }
  }

  // Every slot before i on the probe from home holds some other key or a tombstone.
  ghost predicate Probed<K, V>(s: seq<Slot<K, V>>, home: nat, d: nat, key: K)
    requires home < |s|
  {
    forall p :: 0 <= p < |s| && Dist(|s|, home, p) < d ==> !s[p].Empty? && (s[p].Occupied? ==> s[p].key != key)
  }

  lemma ProbeOn<K, V>(s: seq<Slot<K, V>>, home: nat, i: nat, key: K)
    requires home < |s| && i < |s| && Probed(s, home, Dist(|s|, home, i), key)
    requires !s[i].Empty? && (s[i].Occupied? ==> s[i].key != key)
    ensures Probed(s, home, Dist(|s|, home, i) + 1, key)
  {
    forall p | 0 <= p < |s| && Dist(|s|, home, p) == Dist(|s|, home, i) ensures p == i { DistInjective(|s|, home, p, i); }
  }

  // A probe that meets an empty slot, or has seen them all, has shown the key absent.
  lemma ProbeMisses<K, V>(s: seq<Slot<K, V>>, hash: K -> nat, m: map<K, V>, key: K, d: nat)
    requires Table(s, hash, m) && |s| > 0 && Probed(s, Home(hash, key, |s|), d, key)
    requires d >= |s| || exists e :: 0 <= e < |s| && s[e].Empty? && Dist(|s|, Home(hash, key, |s|), e) == d
    ensures key !in m
  {
    if key in m {
      var i :| At(s, i, key, m[key]);
      assert PathTo(s, Home(hash, key, |s|), i);
      assert Dist(|s|, Home(hash, key, |s|), i) >= d;
      if d < |s| {
        var e :| 0 <= e < |s| && s[e].Empty? && Dist(|s|, Home(hash, key, |s|), e) == d;
        if Dist(|s|, Home(hash, key, |s|), i) == d { DistInjective(|s|, Home(hash, key, |s|), i, e); }
      }
    }
  }

  // ── The map ─────────────────────────────────────────────────────

  // Masking by n - 1 is the remainder by n exactly for these.
  predicate PowerOfTwo(n: nat) {
    n == 1 || (n > 0 && n % 2 == 0 && PowerOfTwo(n / 2))
  }

  function RoundUpToPowerOfTwo(n: nat): (p: nat)
    ensures n <= p && (n > 1 ==> p < 2 * n) && PowerOfTwo(p)
  {
    if n <= 1 then 1 else 2 * RoundUpToPowerOfTwo((n + 1) / 2)
  }

  lemma Sixteen()
    ensures PowerOfTwo(16)
  {
    assert PowerOfTwo(2) && PowerOfTwo(4) && PowerOfTwo(8);
  }

  // The table, the counters and the load limit, all at once.
  ghost predicate Consistent<K, V>(s: seq<Slot<K, V>>, hash: K -> nat, m: map<K, V>, size: int, tombstones: int) {
    && Table(s, hash, m) && size == Count(s, false) == |m| && tombstones == Count(s, true)
    && (|s| == 0 || (16 <= |s| && PowerOfTwo(|s|))) && size + tombstones <= |s| * 3 / 4
  }

  lemma StoredConsistent<K, V>(s: seq<Slot<K, V>>, hash: K -> nat, m: map<K, V>, size: int, tombstones: int, i: nat, key: K, value: V)
    requires Consistent(s, hash, m, size, tombstones) && i < |s| && !s[i].Occupied? && key !in m
    requires PathTo(s, Home(hash, key, |s|), i) && size + tombstones + 1 <= |s| * 3 / 4
    ensures s[i].Deleted? ==> tombstones > 0
    ensures Consistent(s[i := Occupied(key, value)], hash, m[key := value], size + 1, if s[i].Deleted? then tombstones - 1 else tombstones)
  {
    hide Table, Count, PathTo;
    Stored(s, hash, m, i, key, value);
    CountUpdate(s, i, Occupied(key, value), false);
    CountUpdate(s, i, Occupied(key, value), true);
  }

  lemma ErasedConsistent<K, V>(s: seq<Slot<K, V>>, hash: K -> nat, m: map<K, V>, size: int, tombstones: int, i: nat)
    requires Consistent(s, hash, m, size, tombstones) && i < |s| && s[i].Occupied?
    ensures size > 0 && Consistent(s[i := Deleted], hash, m - {s[i].key}, size - 1, tombstones + 1)
  {
    hide Table, Count;
    Erased(s, hash, m, i);
    CountUpdate(s, i, Deleted, false);
    CountUpdate(s, i, Deleted, true);
    FoundAt(s, hash, m, i);
    SmallerMap(m, s[i].key);
  }

  lemma AssignedConsistent<K, V>(s: seq<Slot<K, V>>, hash: K -> nat, m: map<K, V>, size: int, tombstones: int, i: nat, value: V)
    requires Consistent(s, hash, m, size, tombstones) && i < |s| && s[i].Occupied?
    ensures Consistent(s[i := Occupied(s[i].key, value)], hash, m[s[i].key := value], size, tombstones)
  {
    hide Table, Count;
    Assigned(s, hash, m, i, value);
    CountUpdate(s, i, Occupied(s[i].key, value), false);
    CountUpdate(s, i, Occupied(s[i].key, value), true);
    FoundAt(s, hash, m, i);
    SameSize(m, s[i].key, value);
  }

  lemma SameSize<K, V>(m: map<K, V>, key: K, value: V)
    requires key in m
    ensures |m[key := value]| == |m|
  {
    assert m[key := value].Keys == m.Keys;
    assert |m[key := value].Keys| == |m[key := value]| && |m.Keys| == |m|;
  }

  lemma ConsistentTable<K, V>(s: seq<Slot<K, V>>, hash: K -> nat, m: map<K, V>, size: int, tombstones: int)
    requires Consistent(s, hash, m, size, tombstones)
    ensures Table(s, hash, m) && size == Count(s, false) && tombstones == Count(s, true) && 0 <= size && 0 <= tombstones
    ensures (|s| == 0 || (16 <= |s| && PowerOfTwo(|s|))) && size + tombstones <= |s| * 3 / 4
  {}

  class UnorderedMap<K(==), V> {
    const hash: K -> nat
    var slots: array<Slot<K, V>>
    var size: nat
    var tombstoneCount: nat
    ghost var contents: map<K, V>

    ghost predicate Valid()
      reads this, slots
    {
      Consistent(slots[..], hash, contents, size, tombstoneCount)
    }

    constructor (hasher: K -> nat)
      ensures Valid() && contents == map[] && hash == hasher && fresh(slots) && slots.Length == size == tombstoneCount == 0
    {
      hash := hasher;
      slots := new Slot<K, V>[0];
      size, tombstoneCount := 0, 0;
      contents := map[];
    }

    // How many new keys certainly go in before a rehash.
    function RemainingCapacity(): nat
      reads this
    {
      if slots.Length * 3 / 4 > size + tombstoneCount then slots.Length * 3 / 4 - (size + tombstoneCount) else 0
    }

    // The slot holding the key, or none.
    method FindSlot(key: K) returns (found: bool, index: nat)
      requires Valid()
      ensures found <==> key in contents
      ensures found ==> index < slots.Length && slots[index] == Occupied(key, contents[key])
    {
      if slots.Length == 0 {
        Absent(slots[..], hash, contents, key);
        return false, 0;
      }
      hide Table, Count, Dist, NextSlot;
      ghost var home := Home(hash, key, slots.Length);
      index := hash(key) % slots.Length;
      var probes := 0;
      DistZero(slots.Length, home);
      ProbedNone(slots[..], home, key);
      while probes < slots.Length
        invariant 0 <= probes <= slots.Length && index < slots.Length
        invariant probes < slots.Length ==> Dist(slots.Length, home, index) == probes
        invariant Probed(slots[..], home, probes, key)
      {
        if slots[index].Empty? {
          ProbeMisses(slots[..], hash, contents, key, probes);
          return false, 0;
        }
        if slots[index].Occupied? && slots[index].key == key {
          FoundAt(slots[..], hash, contents, index);
          return true, index;
        }
        ProbeOn(slots[..], home, index, key);
        if probes + 1 < slots.Length { DistNext(slots.Length, home, index); }
        index := NextSlot(slots.Length, index);
        probes := probes + 1;
      }
      ProbeMisses(slots[..], hash, contents, key, probes);
      found := false;
    }

    // Moves every entry to a larger table without tombstones; zero asks for twice the size.
    method GrowAndRehash(target: nat)
      requires Valid() && (target == 0 || (16 <= target && PowerOfTwo(target) && slots.Length < target))
      modifies this
      ensures Valid() && contents == old(contents) && size == old(size) && tombstoneCount == 0
      ensures fresh(slots) && slots.Length == if target > 0 then target else if old(slots.Length) == 0 then 16 else 2 * old(slots.Length)
    {
      hide Table, Count;
      Sixteen();
      var newCount := if target > 0 then target else if slots.Length == 0 then 16 else 2 * slots.Length;
      var newSlots := new Slot<K, V>[newCount](_ => Empty);
      MoveAll(newSlots);
      slots := newSlots;
      tombstoneCount := 0;
    }

    method MoveAll(newSlots: array<Slot<K, V>>)
      requires Valid() && newSlots != slots && size < newSlots.Length && forall i :: 0 <= i < newSlots.Length ==> newSlots[i].Empty?
      modifies newSlots
      ensures Table(newSlots[..], hash, contents) && Count(newSlots[..], false) == size && Count(newSlots[..], true) == 0
    {
      hide Table, Count, Consistent, MovedFrom, NoTombstone, PathTo;
      ConsistentTable(slots[..], hash, contents, size, tombstoneCount);
      ghost var s, moved: map<K, V> := slots[..], map[];
      AllEmpty(newSlots[..]);
      EmptyTable(newSlots[..], hash);
      NoneMoved(s);
      var i := 0;
      while i < slots.Length
        invariant 0 <= i <= slots.Length && slots[..] == s
        invariant Table(newSlots[..], hash, moved) && NoTombstone(newSlots[..])
        invariant MovedFrom(s, i, moved) && Count(newSlots[..], false) == Count(s[..i], false)
      {
        PrefixCount(s, i);
        if slots[i].Occupied? {
          moved := MoveOne(newSlots, s, i, moved);
        } else {
          MovedNone(s, i, moved);
        }
        i := i + 1;
      }
      assert s[..slots.Length] == s;
      AllMoved(s, hash, contents, moved);
      TombstoneFree(newSlots[..]);
    }

    method MoveOne(newSlots: array<Slot<K, V>>, ghost s: seq<Slot<K, V>>, i: nat, ghost moved: map<K, V>) returns (ghost moved': map<K, V>)
      requires Valid() && newSlots != slots && slots[..] == s && i < slots.Length && slots[i].Occupied?
      requires Table(newSlots[..], hash, moved) && NoTombstone(newSlots[..]) && MovedFrom(s, i, moved)
      requires Count(newSlots[..], false) == Count(s[..i], false) && size < newSlots.Length
      modifies newSlots
      ensures Table(newSlots[..], hash, moved') && NoTombstone(newSlots[..])
      ensures MovedFrom(s, i + 1, moved') && Count(newSlots[..], false) == Count(s[..i + 1], false)
    {
      hide Table, Count, Consistent, MovedFrom, NoTombstone, PathTo;
      ConsistentTable(slots[..], hash, contents, size, tombstoneCount);
      PrefixCount(s, i);
      NotMovedYet(s, hash, contents, i, moved);
      TombstoneFree(newSlots[..]);
      var index := FreeSlot(newSlots, hash(slots[i].key) % newSlots.Length);
      Stored(newSlots[..], hash, moved, index, slots[i].key, slots[i].value);
      CountUpdate(newSlots[..], index, slots[i], false);
      MovedOne(s, i, moved);
      ghost var after := newSlots[..][index := slots[i]];
      StillNoTombstone(newSlots[..], index, slots[i]);
      moved' := moved[slots[i].key := slots[i].value];
      newSlots[index] := slots[i];
      assert newSlots[..] == after;
    }

    // The slot holding the key, or the one a new key goes into.
    method FindOrPrepareInsert(key: K) returns (index: nat, isNew: bool)
      requires Valid()
      modifies this
      ensures Valid() && contents == old(contents) && size == old(size)
      ensures index < slots.Length && (isNew <==> key !in contents)
      ensures !isNew ==> slots[index] == Occupied(key, contents[key])
      ensures isNew ==> !slots[index].Occupied? && PathTo(slots[..], Home(hash, key, slots.Length), index)
      // A new key goes to the first slot on its way that is free, a tombstone included.
      ensures isNew ==> TakenTo(slots[..], Home(hash, key, slots.Length), index)
      ensures size + tombstoneCount + 1 <= slots.Length * 3 / 4
      ensures if old(RemainingCapacity()) > 0
              then slots == old(slots) && tombstoneCount == old(tombstoneCount)
              else fresh(slots) && tombstoneCount == 0 && slots.Length == if old(slots.Length) == 0 then 16 else 2 * old(slots.Length)
    {
      if slots.Length == 0 || size + tombstoneCount + 1 > slots.Length * 3 / 4 {
        GrowAndRehash(0);
      }
      index, isNew := ProbeForInsert(key);
    }

    // The probe must reach an empty slot before it settles for a tombstone.
    method ProbeForInsert(key: K) returns (index: nat, isNew: bool)
      requires Valid() && slots.Length > 0
      ensures index < slots.Length && (isNew <==> key !in contents)
      ensures !isNew ==> slots[index] == Occupied(key, contents[key])
      ensures isNew ==> !slots[index].Occupied? && PathTo(slots[..], Home(hash, key, slots.Length), index)
      ensures isNew ==> TakenTo(slots[..], Home(hash, key, slots.Length), index)
    {
      hide Table, Count, Dist, NextSlot, Consistent, Probed, TakenTo;
      ConsistentTable(slots[..], hash, contents, size, tombstoneCount);
      ghost var s, home := slots[..], Home(hash, key, slots.Length);
      ghost var empty := SomeEmpty(s);
      var tombstone, noTombstone := 0, true;
      index := hash(key) % slots.Length;
      DistZero(|s|, home);
      ProbedNone(s, home, key);
      TakenNone(s, home);
      while !slots[index].Empty?
        invariant index < slots.Length
        invariant Probed(s, home, Dist(|s|, home, index), key)
        invariant Dist(|s|, home, index) <= Dist(|s|, home, empty)
        invariant !noTombstone ==> tombstone < slots.Length
        invariant !noTombstone ==> s[tombstone].Deleted? && Dist(|s|, home, tombstone) < Dist(|s|, home, index)
        invariant TakenTo(s, home, if noTombstone then index else tombstone)
        decreases |s| - Dist(|s|, home, index)
      {
        if slots[index].Deleted? {
          if noTombstone {
            tombstone, noTombstone := index, false;
          }
        } else if slots[index].key == key {
          FoundAt(s, hash, contents, index);
          return index, false;
        }
        ProbeOn(s, home, index, key);
        DistDiffers(|s|, home, index, empty);
        DistNext(|s|, home, index);
        if noTombstone { TakenOn(s, home, index); }
        index := NextSlot(slots.Length, index);
      }
      ProbeMisses(s, hash, contents, key, Dist(|s|, home, index));
      ProbedPath(s, home, index, key);
      isNew := true;
      if !noTombstone {
        ProbedShorter(s, home, index, tombstone);
        index := tombstone;
      }
    }

    // MarkOccupied and the store before it.
    method Store(index: nat, key: K, value: V)
      requires Valid() && index < slots.Length && key !in contents && !slots[index].Occupied?
      requires PathTo(slots[..], Home(hash, key, slots.Length), index) && size + tombstoneCount + 1 <= slots.Length * 3 / 4
      modifies this, slots
      ensures Valid() && contents == old(contents)[key := value] && slots == old(slots) && slots[index] == Occupied(key, value)
      ensures size == old(size) + 1
      ensures tombstoneCount == old(tombstoneCount) - if old(slots[index]).Deleted? then 1 else 0
    {
      hide Consistent;
      ghost var s := slots[..];
      StoredConsistent(s, hash, contents, size, tombstoneCount, index, key, value);
      if slots[index].Deleted? {
        tombstoneCount := tombstoneCount - 1;
      }
      slots[index] := Occupied(key, value);
      size := size + 1;
      contents := contents[key := value];
      assert slots[..] == s[index := Occupied(key, value)];
    }

    // Insert and emplace leave an entry that is there alone.
    method Insert(key: K, value: V) returns (index: nat, inserted: bool)
      requires Valid()
      modifies this, slots
      ensures Valid() && (inserted <==> key !in old(contents))
      ensures contents == if inserted then old(contents)[key := value] else old(contents)
      ensures index < slots.Length && slots[index] == Occupied(key, contents[key])
      // The table moves exactly when no capacity remains, and an insert takes at most one of it.
      ensures if old(RemainingCapacity()) > 0
              then slots == old(slots) && old(RemainingCapacity()) - 1 <= RemainingCapacity() && tombstoneCount <= old(tombstoneCount)
              else fresh(slots) && tombstoneCount == 0 && slots.Length == if old(slots.Length) == 0 then 16 else 2 * old(slots.Length)
      ensures size == old(size) + if inserted then 1 else 0
    {
      index, inserted := FindOrPrepareInsert(key);
      if inserted {
        Store(index, key, value);
      }
    }

    // The entries one after the other; a repeated key keeps its first value.
    method InsertAll(entries: seq<(K, V)>)
      requires Valid()
      modifies this, slots
      ensures Valid() && contents == FirstWins(old(contents), entries)
      ensures |entries| <= old(RemainingCapacity()) ==> slots == old(slots)
      ensures (fresh(slots) || slots == old(slots)) && tombstoneCount <= old(tombstoneCount)
    {
      hide Consistent, FirstWins;
      ghost var remaining := RemainingCapacity();
      NoneWins(contents, entries);
      var i := 0;
      while i < |entries|
        invariant 0 <= i <= |entries| && Valid() && contents == FirstWins(old(contents), entries[..i])
        invariant |entries| <= remaining ==> slots == old(slots) && remaining - i <= RemainingCapacity()
        invariant (fresh(slots) || slots == old(slots)) && tombstoneCount <= old(tombstoneCount)
      {
        NextWins(old(contents), entries, i);
        var index, inserted := Insert(entries[i].0, entries[i].1);
        i := i + 1;
      }
      assert entries[..|entries|] == entries;
    }

    method Assign(index: nat, value: V)
      requires Valid() && index < slots.Length && slots[index].Occupied?
      modifies this, slots
      ensures Valid() && contents == old(contents)[old(slots[index].key) := value] && slots == old(slots)
    {
      hide Consistent;
      ghost var s := slots[..];
      AssignedConsistent(s, hash, contents, size, tombstoneCount, index, value);
      slots[index] := Occupied(slots[index].key, value);
      contents := contents[slots[index].key := value];
      assert slots[..] == s[index := Occupied(s[index].key, value)];
    }

    // map[key] = value: the slot is found or made with a default value, then assigned through.
    method Subscript(key: K, default: V, value: V)
      requires Valid()
      modifies this, slots
      ensures Valid() && contents == old(contents)[key := value]
      ensures fresh(slots) || slots == old(slots)
    {
      hide Consistent, Table, PathTo;
      var index, isNew := FindOrPrepareInsert(key);
      if isNew {
        Store(index, key, default);
      }
      Assign(index, value);
    }

    method Find(key: K) returns (value: Slot<K, V>)
      requires Valid()
      ensures value == if key in contents then Occupied(key, contents[key]) else Empty
    {
      var found, index := FindSlot(key);
      value := if found then slots[index] else Empty;
    }

    method Bury(index: nat)
      requires Valid() && index < slots.Length && slots[index].Occupied?
      modifies this, slots
      ensures Valid() && contents == old(contents) - {old(slots[index].key)} && slots == old(slots)
      ensures size == old(size) - 1 && tombstoneCount == old(tombstoneCount) + 1
    {
      hide Consistent;
      ghost var s := slots[..];
      ErasedConsistent(s, hash, contents, size, tombstoneCount, index);
      contents := contents - {slots[index].key};
      slots[index] := Deleted;
      size := size - 1;
      tombstoneCount := tombstoneCount + 1;
      assert slots[..] == s[index := Deleted];
    }

    method Erase(key: K) returns (erased: bool)
      requires Valid()
      modifies this, slots
      ensures Valid() && contents == old(contents) - {key} && (erased <==> key in old(contents)) && slots == old(slots)
      // The slot stays spent.
      ensures RemainingCapacity() == old(RemainingCapacity())
      ensures tombstoneCount == old(tombstoneCount) + if erased then 1 else 0
    {
      hide Consistent;
      var index;
      erased, index := FindSlot(key);
      if erased {
        Bury(index);
      } else {
        assert contents - {key} == contents;
      }
    }

    // Three quarters of the slots for count entries in all, but what tombstones take is not given back.
    method Reserve(count: nat)
      requires Valid()
      modifies this
      ensures Valid() && contents == old(contents) && size == old(size) && count <= slots.Length * 3 / 4
      ensures if ReserveTarget(count) > old(slots.Length)
              then fresh(slots) && tombstoneCount == 0 && slots.Length == ReserveTarget(count)
              else slots == old(slots) && tombstoneCount == old(tombstoneCount)
    {
      var target := ReserveTarget(count);
      if target > slots.Length {
        GrowAndRehash(target);
      }
    }

    // An initializer list: room for all entries, then each inserted, without a rehash on the way.
    constructor FromEntries(hasher: K -> nat, entries: seq<(K, V)>)
      ensures Valid() && contents == FirstWins(map[], entries) && hash == hasher && fresh(slots)
      ensures slots.Length == ReserveTarget(|entries|) && tombstoneCount == 0
    {
      hash := hasher;
      slots := new Slot<K, V>[0];
      size, tombstoneCount := 0, 0;
      contents := map[];
      new;
      hide Consistent, FirstWins;
      NothingConsistent(slots[..], hash);
      Reserve(|entries|);
      InsertAll(entries);
    }

    // Clearing empties the occupied slots only: erased ones stay, although they count no more.
    method Clear()
      requires Valid()
      modifies this, slots
      ensures contents == map[] && size == 0 && tombstoneCount == 0 && slots == old(slots)
      ensures slots[..] == Cleared(old(slots[..]))
      ensures Valid() <==> old(tombstoneCount) == 0
    {
      hide Table, Count;
      ghost var s := slots[..];
      var i := 0;
      while i < slots.Length
        invariant 0 <= i <= slots.Length && slots == old(slots)
        invariant forall j :: 0 <= j < slots.Length ==> slots[j] == if j < i then Cleared(s)[j] else s[j]
      {
        if slots[i].Occupied? {
          slots[i] := Empty;
        }
        i := i + 1;
      }
      size, tombstoneCount := 0, 0;
      contents := map[];
      assert slots[..] == Cleared(s);
      ClearedCounts(s);
      EmptyMap(Cleared(s), hash);
    }
  }

  lemma NothingConsistent<K, V>(s: seq<Slot<K, V>>, hash: K -> nat)
    requires s == []
    ensures Consistent(s, hash, map[], 0, 0)
  {}

  // The map after the entries in turn, none of which replaces another.
  function FirstWins<K, V>(m: map<K, V>, entries: seq<(K, V)>): map<K, V> {
    if entries == [] then m
    else
      var before, last := FirstWins(m, entries[..|entries| - 1]), entries[|entries| - 1];
      if last.0 in before then before else before[last.0 := last.1]
  }

  lemma NoneWins<K, V>(m: map<K, V>, entries: seq<(K, V)>)
    ensures FirstWins(m, entries[..0]) == m
  {}

  lemma NextWins<K, V>(m: map<K, V>, entries: seq<(K, V)>, i: nat)
    requires i < |entries|
    ensures var before := FirstWins(m, entries[..i]);
            FirstWins(m, entries[..i + 1]) == if entries[i].0 in before then before else before[entries[i].0 := entries[i].1]
  {
    assert entries[..i + 1][..i] == entries[..i];
  }

  lemma {:induction false} FirstWinsIs<K, V>(m: map<K, V>, entries: seq<(K, V)>, key: K)
    ensures key in FirstWins(m, entries) <==> key in m || exists i :: 0 <= i < |entries| && entries[i].0 == key
    ensures key in m ==> FirstWins(m, entries)[key] == m[key]
    ensures key !in m ==> forall i :: 0 <= i < |entries| && entries[i].0 == key && (forall j :: 0 <= j < i ==> entries[j].0 != key)
                            ==> FirstWins(m, entries)[key] == entries[i].1
  {
    if entries != [] {
      var n := |entries| - 1;
      FirstWinsIs(m, entries[..n], key);
      assert forall i :: 0 <= i < n ==> entries[..n][i] == entries[i];
    }
  }

  function Cleared<K, V>(s: seq<Slot<K, V>>): (r: seq<Slot<K, V>>)
    ensures |r| == |s| && forall i :: 0 <= i < |s| ==> r[i] == if s[i].Occupied? then Empty else s[i]
  {
    seq(|s|, i requires 0 <= i < |s| => if s[i].Occupied? then Empty else s[i])
  }

  lemma {:induction false} ClearedCounts<K, V>(s: seq<Slot<K, V>>)
    ensures Count(Cleared(s), false) == 0 && Count(Cleared(s), true) == Count(s, true)
  {
    if s != [] {
      var n := |s| - 1;
      assert Cleared(s)[..n] == Cleared(s[..n]);
      ClearedCounts(s[..n]);
    }
  }

  // The smallest power of two, and at least 16, three quarters of which exceed count: half of it would not do.
  function ReserveTarget(count: nat): (target: nat)
    ensures target >= 16 && PowerOfTwo(target) && 4 * count < 3 * target
    ensures target > 16 ==> 3 * (target / 2) <= 4 * count
  {
    Sixteen();
    Max(16, RoundUpToPowerOfTwo(count * 4 / 3 + 1))
  }

  /**
   The room reserve promises is not there when tombstones have worn the table out: after twelve
   inserts and twelve erasures an empty map keeps its table when asked to reserve 11, and the very
   next insert moves it.
   */
  method ReserveIgnoresTombstones(hash: nat -> nat) returns (kept: bool, moved: bool)
    ensures kept && moved
  {
    hide Consistent;
    RoundsToSixteen();
    var m := TwelveErased(hash);
    var before := m.slots;
    m.Reserve(11);
    kept := m.slots == before;
    var index, inserted := m.Insert(12, 0);
    moved := m.slots != before;
  }

  method TwelveErased(hash: nat -> nat) returns (m: UnorderedMap<nat, nat>)
    ensures fresh(m) && fresh(m.slots) && m.Valid() && m.contents == map[]
    ensures m.slots.Length == 16 && m.RemainingCapacity() == 0
  {
    hide Consistent;
    m := new UnorderedMap(hash);
    var i := 0;
    while i < 12
      invariant 0 <= i <= 12 && fresh(m) && fresh(m.slots) && m.Valid() && m.size == i && m.tombstoneCount == 0
      invariant m.slots.Length == (if i == 0 then 0 else 16) && forall k: nat :: k in m.contents <==> k < i
    {
      var index, inserted := m.Insert(i, 0);
      i := i + 1;
    }
    while i > 0
      invariant 0 <= i <= 12 && fresh(m) && fresh(m.slots) && m.Valid() && m.RemainingCapacity() == 0
      invariant m.slots.Length == 16 && forall k: nat :: k in m.contents <==> k < i
    {
      i := i - 1;
      var erased := m.Erase(i);
    }
  }

  lemma RoundsToSixteen()
    ensures RoundUpToPowerOfTwo(15) == 16
  {
    assert RoundUpToPowerOfTwo(2) == 2 * RoundUpToPowerOfTwo(1);
    assert RoundUpToPowerOfTwo(4) == 2 * RoundUpToPowerOfTwo(2);
    assert RoundUpToPowerOfTwo(8) == 2 * RoundUpToPowerOfTwo(4);
  }

  lemma EmptyMap<K, V>(s: seq<Slot<K, V>>, hash: K -> nat)
    requires forall i :: 0 <= i < |s| ==> !s[i].Occupied?
    ensures Table(s, hash, map[])
  {}

  lemma SmallerMap<K, V>(m: map<K, V>, key: K)
    requires key in m
    ensures |m - {key}| == |m| - 1
  {
    assert (m - {key}).Keys == m.Keys - {key};
    assert |m.Keys - {key}| == |m.Keys| - 1;
    assert |(m - {key}).Keys| == |m - {key}|;
    assert |m.Keys| == |m|;
  }

  // ── Rehashing ───────────────────────────────────────────────────

  ghost predicate NoTombstone<K, V>(s: seq<Slot<K, V>>) {
    forall i :: 0 <= i < |s| ==> !s[i].Deleted?
  }

  lemma StillNoTombstone<K, V>(s: seq<Slot<K, V>>, i: nat, slot: Slot<K, V>)
    requires NoTombstone(s) && i < |s| && slot.Occupied?
    ensures NoTombstone(s[i := slot])
  {}

  // moved holds exactly the entries before i.
  ghost predicate MovedFrom<K, V>(s: seq<Slot<K, V>>, i: nat, moved: map<K, V>)
    requires i <= |s|
  {
    && (forall j :: 0 <= j < i && s[j].Occupied? ==> s[j].key in moved && moved[s[j].key] == s[j].value)
    && (forall k <- moved :: exists j :: At(s, j, k, moved[k]) && j < i)
  }

  lemma EmptyTable<K, V>(s: seq<Slot<K, V>>, hash: K -> nat)
    requires forall i :: 0 <= i < |s| ==> s[i].Empty?
    ensures Table(s, hash, map[]) && NoTombstone(s)
  {}

  lemma NoneMoved<K, V>(s: seq<Slot<K, V>>)
    ensures MovedFrom(s, 0, map[]) && Count(s[..0], false) == 0
  {}

  lemma PrefixCount<K, V>(s: seq<Slot<K, V>>, i: nat)
    requires i < |s|
    ensures Count(s[..i + 1], false) == Count(s[..i], false) + One(s[i], false) <= Count(s, false)
  {
    assert s[..i + 1][..i] == s[..i];
    CountPrefix(s, i + 1);
  }

  lemma {:induction false} CountPrefix<K, V>(s: seq<Slot<K, V>>, i: nat)
    requires i <= |s|
    ensures Count(s[..i], false) <= Count(s, false)
  {
    if i < |s| {
      assert s[..|s| - 1][..i] == s[..i];
      CountPrefix(s[..|s| - 1], i);
    } else {
      assert s[..i] == s;
    }
  }

  lemma NotMovedYet<K, V>(s: seq<Slot<K, V>>, hash: K -> nat, m: map<K, V>, i: nat, moved: map<K, V>)
    requires Table(s, hash, m) && i < |s| && s[i].Occupied? && MovedFrom(s, i, moved)
    ensures s[i].key !in moved
  {
    assert forall j :: 0 <= j < i && s[j].Occupied? ==> s[j].key != s[i].key;
    assert s[i].key in moved ==> exists j :: At(s, j, s[i].key, moved[s[i].key]) && j < i;
  }

  lemma MovedOne<K, V>(s: seq<Slot<K, V>>, i: nat, moved: map<K, V>)
    requires i < |s| && s[i].Occupied? && MovedFrom(s, i, moved) && s[i].key !in moved
    ensures MovedFrom(s, i + 1, moved[s[i].key := s[i].value])
  {
    var moved' := moved[s[i].key := s[i].value];
    forall k | k in moved' ensures exists j :: At(s, j, k, moved'[k]) && j < i + 1 {
      if k == s[i].key {
        assert At(s, i, k, moved'[k]);
      } else {
        var j :| At(s, j, k, moved[k]) && j < i;
      }
    }
  }

  lemma MovedNone<K, V>(s: seq<Slot<K, V>>, i: nat, moved: map<K, V>)
    requires i < |s| && !s[i].Occupied? && MovedFrom(s, i, moved)
    ensures MovedFrom(s, i + 1, moved)
  {
    forall k | k in moved ensures exists j :: At(s, j, k, moved[k]) && j < i + 1 {
      var j :| At(s, j, k, moved[k]) && j < i;
    }
  }

  lemma AllMoved<K, V>(s: seq<Slot<K, V>>, hash: K -> nat, m: map<K, V>, moved: map<K, V>)
    requires Table(s, hash, m) && MovedFrom(s, |s|, moved)
    ensures moved == m
  {
    forall k | k in m ensures k in moved && moved[k] == m[k] {
      var j :| At(s, j, k, m[k]);
    }
    forall k | k in moved ensures k in m {
      var j :| At(s, j, k, moved[k]) && j < |s|;
    }
  }

  lemma {:induction false} TombstoneFree<K, V>(s: seq<Slot<K, V>>)
    requires NoTombstone(s)
    ensures Count(s, true) == 0
  {
    if s != [] { TombstoneFree(s[..|s| - 1]); }
  }

  // The first slot from home on that is not taken, in a table without tombstones.
  method FreeSlot<K, V>(s: array<Slot<K, V>>, home: nat) returns (index: nat)
    requires home < s.Length && NoTombstone(s[..]) && Count(s[..], false) + Count(s[..], true) < s.Length
    ensures index < s.Length && s[index].Empty? && PathTo(s[..], home, index)
  {
    hide Count, Dist, NextSlot;
    ghost var empty := SomeEmpty(s[..]);
    index := home;
    DistZero(s.Length, home);
    while s[index].Occupied?
      invariant index < s.Length && PathTo(s[..], home, index)
      invariant Dist(s.Length, home, index) <= Dist(s.Length, home, empty)
      decreases s.Length - Dist(s.Length, home, index)
    {
      DistDiffers(s.Length, home, index, empty);
      DistNext(s.Length, home, index);
      PathOn(s[..], home, index);
      index := NextSlot(s.Length, index);
    }
  }

  lemma TakenNone<K, V>(s: seq<Slot<K, V>>, home: nat)
    requires home < |s|
    ensures TakenTo(s, home, home)
  {}

  lemma TakenOn<K, V>(s: seq<Slot<K, V>>, home: nat, i: nat)
    requires home < |s| && i < |s| && TakenTo(s, home, i) && s[i].Occupied? && Dist(|s|, home, i) + 1 < |s|
    ensures TakenTo(s, home, NextSlot(|s|, i))
  {
    hide NextSlot;
    DistNext(|s|, home, i);
    forall p | 0 <= p < |s| && Dist(|s|, home, p) == Dist(|s|, home, i) ensures p == i { DistInjective(|s|, home, p, i); }
  }

  lemma PathOn<K, V>(s: seq<Slot<K, V>>, home: nat, i: nat)
    requires home < |s| && i < |s| && PathTo(s, home, i) && !s[i].Empty? && Dist(|s|, home, i) + 1 < |s|
    ensures PathTo(s, home, NextSlot(|s|, i))
  {
    hide NextSlot;
    DistNext(|s|, home, i);
    forall p | 0 <= p < |s| && Dist(|s|, home, p) == Dist(|s|, home, i) ensures p == i { DistInjective(|s|, home, p, i); }
  }

  lemma DistZero(n: nat, i: nat)
    requires i < n
    ensures Dist(n, i, i) == 0
  {}

  lemma ProbedNone<K, V>(s: seq<Slot<K, V>>, home: nat, key: K)
    requires home < |s|
    ensures Probed(s, home, 0, key)
  {}

  lemma ProbedPath<K, V>(s: seq<Slot<K, V>>, home: nat, i: nat, key: K)
    requires home < |s| && i < |s| && Probed(s, home, Dist(|s|, home, i), key)
    ensures PathTo(s, home, i)
  {}

  lemma ProbedShorter<K, V>(s: seq<Slot<K, V>>, home: nat, i: nat, j: nat)
    requires home < |s| && i < |s| && j < |s| && PathTo(s, home, i) && Dist(|s|, home, j) <= Dist(|s|, home, i)
    ensures PathTo(s, home, j)
  {}

  lemma Absent<K, V>(s: seq<Slot<K, V>>, hash: K -> nat, m: map<K, V>, key: K)
    requires Table(s, hash, m) && s == []
    ensures key !in m
  {
    assert key in m ==> exists i :: At(s, i, key, m[key]);
  }

  lemma FoundAt<K, V>(s: seq<Slot<K, V>>, hash: K -> nat, m: map<K, V>, i: nat)
    requires Table(s, hash, m) && i < |s| && s[i].Occupied?
    ensures s[i].key in m && s[i] == Occupied(s[i].key, m[s[i].key])
  {}
}
