/** The open-addressing hash table: linear probing, tombstones, and a rehash that re-inserts through
    the same insertion that may ask for a rehash. The hash function is arbitrary. */
module HashTable {
  import opened Words
  import opened Wrappers

  datatype Bucket<K, V> = Empty | Tombstone | Filled(k: K, v: V)

  const INITIAL_CAPACITY: nat := 16

  // ---------------------------------------------------------------- probing

  /** `(start + i) & (cap - 1)`, the `i`-th bucket examined. */
  function Probe(start: nat, i: nat, cap: nat): (idx: nat)
    requires cap > 0
    ensures idx < cap
  {
    BitAnd(start + i, cap - 1)
  }

  function Home<K>(hasher: K -> nat, key: K, cap: nat): (idx: nat)
    requires cap > 0
    ensures idx < cap
  {
    BitAnd(hasher(key), cap - 1)
  }

  /** The home bucket is the hash modulo the capacity. */
  lemma HomeIsRemainder<K>(hasher: K -> nat, key: K, cap: nat)
    requires IsPow2(cap)
    ensures Home(hasher, key, cap) == hasher(key) % cap
  {
    var k: nat :| cap == Pow2(k);
    MaskIsMod(hasher(key), k);
  }

  /** How many steps after `start` bucket `p` is examined. */
  ghost function Distance(start: nat, p: nat, cap: nat): (d: nat)
    requires start < cap && p < cap
    ensures d < cap
  {
    if p >= start then p - start else p + cap - start
  }

  /** The probe order visits every bucket once: `Distance` inverts `Probe`. */
  lemma ProbeOrder(start: nat, i: nat, cap: nat)
    requires IsPow2(cap) && start < cap && i < cap
    ensures Probe(start, i, cap) == if start + i < cap then start + i else start + i - cap
    ensures Distance(start, Probe(start, i, cap), cap) == i
  {
    var k: nat :| cap == Pow2(k);
    MaskIsMod(start + i, k);
    DivModUnique(start + i, cap, if start + i < cap then 0 else 1, if start + i < cap then start + i else start + i - cap);
  }

  lemma DistanceReaches(start: nat, p: nat, cap: nat)
    requires IsPow2(cap) && start < cap && p < cap
    ensures Probe(start, Distance(start, p, cap), cap) == p
  {
    ProbeOrder(start, Distance(start, p, cap), cap);
  }

  // ---------------------------------------------------------------- the table as a sequence

  /** No Empty bucket lies between a key's home and the bucket that holds it. */
  ghost predicate Chained<K, V>(hasher: K -> nat, bs: seq<Bucket<K, V>>) {
    |bs| > 0 &&
    forall p, i :: 0 <= p < |bs| && bs[p].Filled? && 0 <= i < Distance(Home(hasher, bs[p].k, |bs|), p, |bs|)
      ==> bs[Probe(Home(hasher, bs[p].k, |bs|), i, |bs|)] != Empty
  }

  ghost predicate UniqueKeys<K, V>(bs: seq<Bucket<K, V>>) {
    forall p, q :: 0 <= p < |bs| && 0 <= q < |bs| && bs[p].Filled? && bs[q].Filled? && bs[p].k == bs[q].k ==> p == q
  }

  /** The map the filled buckets spell out. */
  ghost predicate Models<K, V>(bs: seq<Bucket<K, V>>, m: map<K, V>) {
    && (forall p :: 0 <= p < |bs| && bs[p].Filled? ==> bs[p].k in m && m[bs[p].k] == bs[p].v)
    && (forall key :: key in m ==> HasKey(bs, key))
  }

  ghost predicate HasKey<K, V>(bs: seq<Bucket<K, V>>, key: K) {
    exists p :: 0 <= p < |bs| && bs[p].Filled? && bs[p].k == key
  }

  lemma ModelsUnique<K, V>(bs: seq<Bucket<K, V>>, m: map<K, V>, m': map<K, V>)
    requires Models(bs, m) && Models(bs, m')
    ensures m == m'
  {
  }

  ghost function CountFilled<K, V>(bs: seq<Bucket<K, V>>): (n: nat)
    ensures n <= |bs|
  {
    if bs == [] then 0 else CountFilled(bs[..|bs| - 1]) + if bs[|bs| - 1].Filled? then 1 else 0
  }

  ghost function CountTombs<K, V>(bs: seq<Bucket<K, V>>): (n: nat)
    ensures CountFilled(bs) + n <= |bs|
  {
    if bs == [] then 0 else CountTombs(bs[..|bs| - 1]) + if bs[|bs| - 1].Tombstone? then 1 else 0
  }

  lemma {:induction false} CountsUpdate<K, V>(bs: seq<Bucket<K, V>>, p: nat, b: Bucket<K, V>)
    requires p < |bs|
    ensures CountFilled(bs[p := b]) + (if bs[p].Filled? then 1 else 0) == CountFilled(bs) + (if b.Filled? then 1 else 0)
    ensures CountTombs(bs[p := b]) + (if bs[p].Tombstone? then 1 else 0) == CountTombs(bs) + (if b.Tombstone? then 1 else 0)
  {
    var n := |bs| - 1;
    if p < n {
      CountsUpdate(bs[..n], p, b);
      assert bs[p := b][..n] == bs[..n][p := b];
    } else {
      assert bs[p := b][..n] == bs[..n];
    }
  }

  lemma {:induction false} CountsEmpty<K, V>(bs: seq<Bucket<K, V>>)
    requires forall p :: 0 <= p < |bs| ==> bs[p] == Empty
    ensures CountFilled(bs) == 0 && CountTombs(bs) == 0
  {
    if bs != [] {
      CountsEmpty(bs[..|bs| - 1]);
    }
  }

  lemma {:induction false} CountsPrefix<K, V>(bs: seq<Bucket<K, V>>, i: nat)
    requires i <= |bs|
    ensures CountFilled(bs[..i]) <= CountFilled(bs)
    ensures i < |bs| ==> CountFilled(bs[..i + 1]) == CountFilled(bs[..i]) + if bs[i].Filled? then 1 else 0
  {
    if i < |bs| {
      var n := |bs| - 1;
      CountsPrefix(bs[..n], i);
      assert bs[..n][..i] == bs[..i];
      assert bs[..i + 1][..i] == bs[..i];
    } else {
      assert bs[..i] == bs;
    }
  }

  ghost predicate HasEmpty<K, V>(bs: seq<Bucket<K, V>>) {
    exists p :: 0 <= p < |bs| && bs[p] == Empty
  }

  lemma {:induction false} RoomLeft<K, V>(bs: seq<Bucket<K, V>>)
    requires CountFilled(bs) + CountTombs(bs) < |bs|
    ensures HasEmpty(bs)
  {
    var n := |bs| - 1;
    if bs[n] != Empty {
      RoomLeft(bs[..n]);
      var p :| 0 <= p < n && bs[..n][p] == Empty;
      assert bs[p] == Empty;
    }
  }

  ghost predicate TableInv<K, V>(hasher: K -> nat, bs: seq<Bucket<K, V>>, m: map<K, V>) {
    IsPow2(|bs|) && Chained(hasher, bs) && UniqueKeys(bs) && Models(bs, m) && |m| == CountFilled(bs)
  }

  /** `idx` is the first bucket on the probe path of `key` that holds no entry. */
  ghost predicate FirstFree<K, V>(hasher: K -> nat, bs: seq<Bucket<K, V>>, key: K, idx: nat)
    requires |bs| > 0
  {
    && idx < |bs| && !bs[idx].Filled?
    && forall i :: 0 <= i < Distance(Home(hasher, key, |bs|), idx, |bs|) ==>
         bs[Probe(Home(hasher, key, |bs|), i, |bs|)].Filled?
  }

  /** Overwriting a bucket with something other than Empty breaks no probe path. */
  lemma ChainedOverwrite<K, V>(hasher: K -> nat, bs: seq<Bucket<K, V>>, idx: nat, b: Bucket<K, V>)
    requires Chained(hasher, bs) && idx < |bs| && b != Empty
    requires b.Filled? ==> FirstFree(hasher, bs, b.k, idx) || (bs[idx].Filled? && bs[idx].k == b.k)
    ensures Chained(hasher, bs[idx := b])
  {
  }

  /** Filling the first free bucket, tombstone or not, keeps the table in order. */
  lemma InsertKeeps<K, V>(hasher: K -> nat, bs: seq<Bucket<K, V>>, m: map<K, V>, idx: nat, key: K, value: V)
    requires TableInv(hasher, bs, m) && FirstFree(hasher, bs, key, idx) && key !in m
    ensures TableInv(hasher, bs[idx := Filled(key, value)], m[key := value])
  {
    var bs', m' := bs[idx := Filled(key, value)], m[key := value];
    CountsUpdate(bs, idx, Filled(key, value));
    ChainedOverwrite(hasher, bs, idx, Filled(key, value));
    assert UniqueKeys(bs');
    assert bs'[idx].k == key;
    forall x | x in m' && x != key ensures HasKey(bs', x) {
      assert HasKey(bs, x);
      var p :| 0 <= p < |bs| && bs[p].Filled? && bs[p].k == x;
      assert bs'[p].k == x;
    }
  }

  lemma AssignKeeps<K, V>(hasher: K -> nat, bs: seq<Bucket<K, V>>, m: map<K, V>, idx: nat, value: V)
    requires TableInv(hasher, bs, m) && idx < |bs| && bs[idx].Filled?
    ensures TableInv(hasher, bs[idx := Filled(bs[idx].k, value)], m[bs[idx].k := value])
  {
    var bs', m' := bs[idx := Filled(bs[idx].k, value)], m[bs[idx].k := value];
    CountsUpdate(bs, idx, bs'[idx]);
    ChainedOverwrite(hasher, bs, idx, bs'[idx]);
    forall x | x in m' ensures HasKey(bs', x) {
      assert HasKey(bs, x);
      var p :| 0 <= p < |bs| && bs[p].Filled? && bs[p].k == x;
      assert bs'[p].k == x;
    }
  }

  /** A tombstone in place of an entry keeps every other entry reachable. */
  lemma EraseKeeps<K, V>(hasher: K -> nat, bs: seq<Bucket<K, V>>, m: map<K, V>, idx: nat)
    requires TableInv(hasher, bs, m) && idx < |bs| && bs[idx].Filled?
    ensures TableInv(hasher, bs[idx := Tombstone], m - {bs[idx].k})
  {
    var bs', m' := bs[idx := Tombstone], m - {bs[idx].k};
    CountsUpdate(bs, idx, Tombstone);
    ChainedOverwrite(hasher, bs, idx, Tombstone);
    RemoveSize(m, bs[idx].k);
    forall x | x in m' ensures HasKey(bs', x) {
      assert HasKey(bs, x);
      var p :| 0 <= p < |bs| && bs[p].Filled? && bs[p].k == x;
      assert bs'[p].k == x;
    }
    assert UniqueKeys(bs') && Models(bs', m');
  }

  lemma RemoveSize<K, V>(m: map<K, V>, key: K)
    requires key in m
    ensures |m| == |m - {key}| + 1
  {
    assert m == (m - {key})[key := m[key]];
  }

  /** A search that met neither `key` nor a gap before step `i`, and then a gap or the end of the
      table, has shown that `key` is not in the table. */
  lemma Absent<K, V>(hasher: K -> nat, bs: seq<Bucket<K, V>>, m: map<K, V>, key: K, i: nat)
    requires TableInv(hasher, bs, m) && i <= |bs|
    requires forall j :: 0 <= j < i ==>
               !(bs[Probe(Home(hasher, key, |bs|), j, |bs|)].Filled? && bs[Probe(Home(hasher, key, |bs|), j, |bs|)].k == key)
    requires i < |bs| ==> bs[Probe(Home(hasher, key, |bs|), i, |bs|)] == Empty
    ensures key !in m
  {
    if key in m {
      assert HasKey(bs, key);
      var p :| 0 <= p < |bs| && bs[p].Filled? && bs[p].k == key;
      var start := Home(hasher, key, |bs|);
      DistanceReaches(start, p, |bs|);
      assert false;
    }
  }

  lemma Present<K, V>(hasher: K -> nat, bs: seq<Bucket<K, V>>, m: map<K, V>, p: nat)
    requires TableInv(hasher, bs, m) && p < |bs| && bs[p].Filled?
    ensures bs[p].k in m && m[bs[p].k] == bs[p].v
  {
  }

  lemma NotYetMoved<K, V>(bs: seq<Bucket<K, V>>, i: nat, m: map<K, V>)
    requires i < |bs| && bs[i].Filled? && UniqueKeys(bs) && Models(bs[..i], m)
    ensures bs[i].k !in m
  {
  }

  lemma ModelsSkip<K, V>(bs: seq<Bucket<K, V>>, i: nat, m: map<K, V>)
    requires i < |bs| && !bs[i].Filled? && Models(bs[..i], m)
    ensures Models(bs[..i + 1], m)
  {
    var bs' := bs[..i + 1];
    assert bs' == bs[..i] + [bs[i]];
    forall x | x in m ensures HasKey(bs', x) {
      assert HasKey(bs[..i], x);
      var p :| 0 <= p < i && bs[..i][p].Filled? && bs[..i][p].k == x;
      assert bs'[p].k == x;
    }
  }

  lemma ModelsAppend<K, V>(bs: seq<Bucket<K, V>>, i: nat, m: map<K, V>)
    requires i < |bs| && bs[i].Filled? && UniqueKeys(bs) && Models(bs[..i], m)
    ensures Models(bs[..i + 1], m[bs[i].k := bs[i].v])
  {
    var bs', m' := bs[..i + 1], m[bs[i].k := bs[i].v];
    forall x | x in m'
      ensures HasKey(bs', x)
    {
      if x == bs[i].k {
        assert bs'[i].k == x;
      } else {
        assert HasKey(bs[..i], x);
        var p :| 0 <= p < i && bs[..i][p].Filled? && bs[..i][p].k == x;
        assert bs'[p].k == x;
      }
    }
    forall p | 0 <= p < |bs'| && bs'[p].Filled?
      ensures bs'[p].k in m' && m'[bs'[p].k] == bs'[p].v
    {
      if p < i {
        assert bs[..i][p] == bs[p];
      }
    }
  }

  /** A table with only Empty buckets is the empty map. */
  lemma FreshTable<K, V>(hasher: K -> nat, bs: seq<Bucket<K, V>>)
    requires IsPow2(|bs|) && forall p :: 0 <= p < |bs| ==> bs[p] == Empty
    ensures TableInv(hasher, bs, map[]) && CountFilled(bs) == 0 && CountTombs(bs) == 0
  {
    CountsEmpty(bs);
  }

  /** The double `0.7` is `SEVEN_TENTHS / 2^53`. */
  const SEVEN_TENTHS: nat := 6305039478318694

  /** It has a significand of 53 bits and is the nearest such fraction: off by less than half of 2^-53. */
  lemma SevenTenthsIsNearest()
    ensures Pow2(53) / 2 <= SEVEN_TENTHS < Pow2(53)
    ensures -5 < 10 * SEVEN_TENTHS - 7 * Pow2(53) < 5
  {
    TwoTo53();
  }

  /** The floating-point test `load_factor() > 0.7` decides `10 * count > 7 * cap` exactly, for the
      quotient by a power of two up to 2^53 is the exact one. */
  lemma LoadFactorIsExact(count: nat, j: nat)
    requires j <= 53
    ensures (count as real) / (Pow2(j) as real) > (SEVEN_TENTHS as real) / (Pow2(53) as real) <==> 10 * count > 7 * Pow2(j)
  {
    Pow2Split(j, 53 - j);
    TwoTo53();
    Rescale(count, Pow2(j), Pow2(53 - j), SEVEN_TENTHS);
    CrossMultiply(count, Pow2(j), SEVEN_TENTHS, Pow2(53));
  }

  lemma CrossMultiply(a: nat, b: nat, c: nat, d: nat)
    requires b > 0 && d > 0
    ensures (a as real) / (b as real) > (c as real) / (d as real) <==> a * d > c * b
  {
    var x, y := (a as real) / (b as real), (c as real) / (d as real);
    assert a as real == x * b as real && c as real == y * d as real;
    var bd := b as real * d as real;
    assert (a * d) as real == x * bd && (c * b) as real == y * bd;
    assert x * bd - y * bd == (x - y) * bd;
  }

  lemma Rescale(count: nat, cap: nat, rest: nat, c: nat)
    requires cap > 0 && rest > 0
    ensures count * (cap * rest) > c * cap <==> count * rest > c
    ensures 10 * count > 7 * cap <==> 10 * (count * rest) > 7 * (cap * rest)
  {
    assert count * (cap * rest) == (count * rest) * cap;
    CompareScaled(count * rest, c, cap);
    CompareScaled(10 * count, 7 * cap, rest);
    assert (10 * count) * rest == 10 * (count * rest) && (7 * cap) * rest == 7 * (cap * rest);
  }

  lemma CompareScaled(a: nat, b: nat, c: nat)
    requires c > 0
    ensures a * c > b * c <==> a > b
  {
    if a > b {
      assert a * c == b * c + (a - b) * c;
      MulPositive(a - b, c);
    } else {
      assert b * c == a * c + (b - a) * c;
    }
  }

  lemma TwoTo53()
    ensures Pow2(53) == 9007199254740992
  {
    assert Pow2(5) == 32 && Pow2(8) == 256;
    hide Pow2;
    Pow2Split(8, 8);
    Pow2Split(16, 16);
    Pow2Split(5, 16);
    Pow2Split(21, 32);
  }

  lemma Doubled(n: nat)
    requires IsPow2(n)
    ensures IsPow2(2 * n)
  {
    var k: nat :| n == Pow2(k);
    assert 2 * n == Pow2(k + 1);
  }

  // ---------------------------------------------------------------- the class

  class HashTable<K(==), V> {
    const hasher: K -> nat
    var buckets: array<Bucket<K, V>>
    var size: nat
    var tombstones: nat
    ghost var contents: map<K, V>

    /** The bookkeeping agrees with the buckets, and the buckets with the map. */
    ghost predicate Consistent()
      reads this, buckets
    {
      && TableInv(hasher, buckets[..], contents)
      && size == CountFilled(buckets[..]) && tombstones == CountTombs(buckets[..])
      && buckets.Length >= INITIAL_CAPACITY
    }

    /** Insertions tolerate one entry over the load limit, erasures none the more. */
    ghost predicate Valid()
      reads this, buckets
    {
      Consistent() && 10 * (size + tombstones) <= 7 * buckets.Length + 10
    }

    /** `load_factor() > 0.7` */
    predicate Overloaded()
      reads this
    {
      10 * (size + tombstones) > 7 * buckets.Length
    }

    /** Overloaded, or more tombstones than entries in a grown table. */
    predicate NeedsRehash()
      reads this
    {
      Overloaded() || (tombstones > size && buckets.Length > INITIAL_CAPACITY)
    }

    constructor (hasher: K -> nat)
      ensures Valid() && contents == map[] && fresh(buckets) && buckets.Length == 16 && this.hasher == hasher
    {
      this.hasher := hasher;
      buckets := new Bucket<K, V>[INITIAL_CAPACITY](_ => Empty);
      size, tombstones := 0, 0;
      contents := map[];
      new;
      assert INITIAL_CAPACITY == Pow2(4);
      FreshTable(hasher, buckets[..]);
    }

    method Clear()
      requires Valid()
      modifies this, buckets
      ensures Valid() && contents == map[] && fresh(buckets) && buckets.Length == old(buckets.Length)
    {
      buckets := new Bucket<K, V>[buckets.Length](_ => Empty);
      size, tombstones := 0, 0;
      contents := map[];
      FreshTable(hasher, buckets[..]);
    }

    method FindIndex(key: K) returns (r: Option<nat>)
      requires Consistent()
      ensures r.Some? <==> key in contents
      ensures r.Some? ==> r.value < buckets.Length && buckets[r.value] == Filled(key, contents[key])
    {
      ghost var bs := buckets[..];
      var cap := buckets.Length;
      var start := Home(hasher, key, cap);
      for i := 0 to cap
        invariant forall j :: 0 <= j < i ==> !(bs[Probe(start, j, cap)].Filled? && bs[Probe(start, j, cap)].k == key)
      {
        var idx := Probe(start, i, cap);
        match buckets[idx] {
          case Empty =>
            Absent(hasher, bs, contents, key, i);
            return None;
          case Filled(k, _) =>
            if k == key {
              return Some(idx);
            }
          case Tombstone =>
        }
      }
      Absent(hasher, bs, contents, key, cap);
      return None;
    }

    /** The slot for `key`: its bucket when present, else the first free one on its probe path.
        The result of the final line is only ever returned by a table with no Empty bucket. */
    method FindSlot(key: K) returns (slot: nat, found: bool)
      requires Consistent()
      ensures slot < buckets.Length
      ensures HasEmpty(buckets[..]) ==> (found <==> key in contents)
      ensures found ==> buckets[slot].Filled? && buckets[slot].k == key
      ensures HasEmpty(buckets[..]) && !found ==> FirstFree(hasher, buckets[..], key, slot)
    {
      hide UniqueKeys, Models, Chained, HasKey, IsPow2, CountFilled, CountTombs, Distance;
      ghost var bs := buckets[..];
      var cap := buckets.Length;
      var start := Home(hasher, key, cap);
      var firstTomb: Option<nat> := None;
      for i := 0 to cap
        invariant forall j :: 0 <= j < i ==> bs[Probe(start, j, cap)] != Empty
        invariant forall j :: 0 <= j < i ==> !(bs[Probe(start, j, cap)].Filled? && bs[Probe(start, j, cap)].k == key)
        invariant firstTomb.Some? ==> firstTomb.value < cap && FirstFree(hasher, bs, key, firstTomb.value)
        invariant firstTomb.None? ==> forall j :: 0 <= j < i ==> bs[Probe(start, j, cap)].Filled?
      {
        var idx := Probe(start, i, cap);
        ProbeOrder(start, i, cap);
        match buckets[idx] {
          case Empty =>
            Absent(hasher, bs, contents, key, i);
            return if firstTomb.Some? then firstTomb.value else idx, false;
          case Tombstone =>
            if firstTomb.None? {
              firstTomb := Some(idx);
            }
          case Filled(k, _) =>
            if k == key {
              Present(hasher, bs, contents, idx);
              return idx, true;
            }
        }
      }
      if HasEmpty(bs) {
        ghost var p :| 0 <= p < |bs| && bs[p] == Empty;
        DistanceReaches(start, p, cap);
        assert false;
      }
      return if firstTomb.Some? then firstTomb.value else 0, false;
    }

    method Find(key: K) returns (r: Option<V>)
      requires Valid()
      ensures r == if key in contents then Some(contents[key]) else None
    {
      var idx := FindIndex(key);
      match idx
      case None => r := None;
      case Some(i) => r := Some(buckets[i].v);
    }

    method Size() returns (n: nat)
      requires Valid()
      ensures n == |contents|
    {
      n := size;
    }

    method MaybeRehash()
      requires Valid()
      modifies this, buckets
      ensures Valid() && !NeedsRehash() && contents == old(contents)
      ensures buckets.Length == old(if 10 * (size + tombstones) > 7 * buckets.Length then 2 * buckets.Length else buckets.Length)
      ensures if old(10 * (size + tombstones) > 7 * buckets.Length || (tombstones > size && buckets.Length > 16))
              then fresh(buckets) && tombstones == 0
              else buckets == old(buckets) && buckets[..] == old(buckets[..]) && size == old(size) && tombstones == old(tombstones)
      decreases if NeedsRehash() then 1 else 0, 1
    {
      if Overloaded() {
        Doubled(buckets.Length);
        Rehash(buckets.Length * 2);
      } else if tombstones > size && buckets.Length > INITIAL_CAPACITY {
        Rehash(buckets.Length);
      }
    }

    method Rehash(newCap: nat)
      requires Consistent() && NeedsRehash()
      requires IsPow2(newCap) && newCap >= INITIAL_CAPACITY && 10 * size <= 7 * newCap
      modifies this, buckets
      ensures Valid() && !NeedsRehash() && contents == old(contents)
      ensures fresh(buckets) && buckets.Length == newCap && tombstones == 0
      decreases if NeedsRehash() then 1 else 0, 0
    {
      var was := buckets;
      ghost var bs, m := buckets[..], contents;
      buckets := new Bucket<K, V>[newCap](_ => Empty);
      size, tombstones := 0, 0;
      contents := map[];
      FreshTable(hasher, buckets[..]);
      hide UniqueKeys, Models, CountFilled, CountTombs, Chained, IsPow2;
      for i := 0 to was.Length
        invariant Valid() && fresh(buckets) && buckets.Length == newCap && tombstones == 0
        invariant was != buckets && was[..] == bs && size == CountFilled(bs[..i]) && Models(bs[..i], contents)
      {
        CountsPrefix(bs, i);
        match was[i] {
          case Filled(k, v) =>
            NotYetMoved(bs, i, contents);
            ghost var before := contents;
            var isNew := EmplaceOrAssign(k, v);
            ModelsAppend(bs, i, before);
          case _ => ModelsSkip(bs, i, contents);
        }
      }
      assert bs[..was.Length] == bs;
      ModelsUnique(bs, contents, m);
    }

    method EmplaceOrAssign(key: K, value: V) returns (isNew: bool)
      requires Valid()
      modifies this, buckets
      ensures Valid() && contents == old(contents)[key := value]
      ensures isNew == (key !in old(contents)) && size == |contents|
      ensures buckets.Length == old(if 10 * (size + tombstones) > 7 * buckets.Length then 2 * buckets.Length else buckets.Length)
      ensures if old(10 * (size + tombstones) > 7 * buckets.Length || (tombstones > size && buckets.Length > 16))
              then fresh(buckets)
              else buckets == old(buckets) && tombstones <= old(tombstones)
      decreases if NeedsRehash() then 1 else 0, 2
    {
      hide UniqueKeys, Models, Chained, HasKey, IsPow2;
      MaybeRehash();
      RoomLeft(buckets[..]);
      var idx, found := FindSlot(key);
      if found {
        Overwrite(idx, key, value);
        return false;
      }
      Fill(idx, key, value);
      return true;
    }

    /** The key is in bucket `idx`: only its value changes. */
    method Overwrite(idx: nat, key: K, value: V)
      requires Valid() && idx < buckets.Length && buckets[idx].Filled? && buckets[idx].k == key && key in contents
      modifies this`contents, buckets
      ensures Valid() && contents == old(contents)[key := value] && size == |contents|
    {
      hide UniqueKeys, Models, Chained, HasKey, IsPow2;
      ghost var bs := buckets[..];
      AssignKeeps(hasher, bs, contents, idx, value);
      CountsUpdate(bs, idx, Filled(key, value));
      buckets[idx] := Filled(buckets[idx].k, value);
      contents := contents[key := value];
      assert buckets[..] == bs[idx := Filled(key, value)];
    }

    /** The key is new: the free bucket `idx`, Empty or Tombstone, takes it. */
    method Fill(idx: nat, key: K, value: V)
      requires Consistent() && 10 * (size + tombstones) <= 7 * buckets.Length
      requires FirstFree(hasher, buckets[..], key, idx) && key !in contents
      modifies this`size, this`tombstones, this`contents, buckets
      ensures Valid() && contents == old(contents)[key := value] && size == |contents|
      ensures tombstones == old(tombstones) - if old(buckets[idx]).Tombstone? then 1 else 0
    {
      hide UniqueKeys, Models, Chained, HasKey, IsPow2;
      ghost var bs := buckets[..];
      InsertKeeps(hasher, bs, contents, idx, key, value);
      CountsUpdate(bs, idx, Filled(key, value));
      if buckets[idx].Tombstone? {
        tombstones := tombstones - 1;
      }
      buckets[idx] := Filled(key, value);
      size := size + 1;
      contents := contents[key := value];
      assert buckets[..] == bs[idx := Filled(key, value)];
    }

    method Erase(key: K) returns (erased: bool)
      requires Valid()
      modifies this, buckets
      ensures Valid() && contents == old(contents) - {key}
      ensures erased == (key in old(contents))
      ensures buckets.Length ==
              if erased && old(10 * (size + tombstones) > 7 * buckets.Length) then 2 * old(buckets.Length) else old(buckets.Length)
      ensures buckets == old(buckets) || fresh(buckets)
    {
      hide TableInv;
      var idx := FindIndex(key);
      if idx.None? {
        return false;
      }
      Bury(idx.value);
      MaybeRehash();
      return true;
    }

    /** The bucket becomes a tombstone. */
    method Bury(idx: nat)
      requires Valid() && idx < buckets.Length && buckets[idx].Filled?
      modifies this`size, this`tombstones, this`contents, buckets
      ensures Valid() && contents == old(contents) - {old(buckets[idx].k)}
      ensures Overloaded() == old(Overloaded())
    {
      hide UniqueKeys, Models, Chained, HasKey, IsPow2;
      ghost var bs := buckets[..];
      EraseKeeps(hasher, bs, contents, idx);
      CountsUpdate(bs, idx, Tombstone);
      contents := contents - {bs[idx].k};
      buckets[idx] := Tombstone;
      size := size - 1;
      tombstones := tombstones + 1;
      assert buckets[..] == bs[idx := Tombstone];
    }
  }

  /** The fallback of `find_slot` is never reached: every table keeps an Empty bucket. */
  lemma AlwaysRoom<K, V>(t: HashTable<K, V>)
    requires t.Valid()
    ensures HasEmpty(t.buckets[..])
  {
    RoomLeft(t.buckets[..]);
  }
}
