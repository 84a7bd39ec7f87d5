/** alflib/collection/robin_hood_map.hpp: an open-addressing hash map with Robin Hood probing
    over a flat array of buckets. A bucket whose hash is 0 is empty and one whose hash has bit 31
    set is a tombstone. `operator[]` walks from the key's home bucket and hands a bucket over to
    the entry it carries whenever that entry is further from its own home than the resident. */
module RobinHood {
  import opened Common
  import Math

  /** Number of buckets of a default-constructed map. */
  const DEFAULT_BUCKET_CAPACITY: nat := 32
  /** Bit 31 of a u32 hash: set on tombstones. */
  const TOMBSTONE_BIT: nat := 0x8000_0000

  datatype Bucket<K, V> = Bucket(key: K, hash: u32, value: V)

  /** IsTombstone: `(hash & 0x80000000) != 0`; on a u32 that bit is set exactly for the hashes
      from 2^31 up. */
  predicate IsTombstone<K, V>(b: Bucket<K, V>)
    ensures IsTombstone(b) <==> (b.hash / TOMBSTONE_BIT) % 2 == 1
  {
    b.hash >= TOMBSTONE_BIT
  }

  /** A bucket holding an entry: neither empty nor a tombstone, so its hash is in [1, 2^31). */
  predicate Live<K, V>(b: Bucket<K, V>)
    ensures Live(b) <==> 1 <= b.hash < TOMBSTONE_BIT
  {
    b.hash != 0 && !IsTombstone(b)
  }

  /** The bucket `s < n` steps after `base`, wrapping around a table of `n` buckets. */
  function Pos(base: nat, s: nat, n: nat): (q: nat)
    requires base < n && s < n
    ensures q < n
  {
    if base + s < n then base + s else base + s - n
  }

  /** How many steps after `base` bucket `j` lies. */
  function Offset(base: nat, j: nat, n: nat): (s: nat)
    requires base < n && j < n
    ensures s < n
  {
    if j >= base then j - base else j + n - base
  }

  /** `x mod n` for the values below 2n that the map's index arithmetic produces. */
  lemma ModSmall(x: int, n: int)
    requires n > 0 && 0 <= x < 2 * n
    ensures x % n == if x < n then x else x - n
  {}

  /** ModuloPowerOfTwo(hash, n): the home bucket of a hash in a table of `n` buckets. */
  function Home(hash: nat, n: nat): (r: nat)
    requires n > 0
    ensures r < n
  {
    hash % n
  }

  /** DistanceFromIndex: how far bucket `index` lies past the home bucket of `hash`.
      DistanceIsModularDifference shows it is the source's `(index + n - hash mod n) mod n`. */
  function DistanceFromIndex(hash: nat, index: nat, n: nat): (d: nat)
    requires n > 0 && index < n
    ensures d < n
  {
    Offset(Home(hash, n), index, n)
  }

  /** The distance is the u32 expression `(index + n - hash mod n) mod n` of the source, which
      cannot wrap since index < n <= 2^31, and so `(index - hash mod n) mod n`: 0 exactly at
      the home bucket. */
  lemma DistanceIsModularDifference(hash: nat, index: nat, n: nat)
    requires n > 0 && index < n
    ensures DistanceFromIndex(hash, index, n) == (index + n - hash % n) % n
    ensures DistanceFromIndex(hash, index, n) == (index - hash % n) % n
    ensures DistanceFromIndex(hash, index, n) == 0 <==> index == hash % n
  {
    var r := hash % n;
    ModSmall(index + n - r, n);
    ModOfDifference(index, r, n);
  }

  /** Euclidean remainder of a difference of two residues. */
  lemma ModOfDifference(a: int, r: int, n: int)
    requires n > 0 && 0 <= a < n && 0 <= r < n
    ensures (a - r) % n == if a >= r then a - r else a - r + n
  {
    if a < r {
      var x := a - r;
      assert -n < x < 0;
      assert (x + n) % n == x + n;
    }
  }

  /** One step further along a walk is the next bucket, wrapping to 0 after the last. */
  lemma PosNext(base: nat, s: nat, n: nat)
    requires base < n && s + 1 < n
    ensures Pos(base, s + 1, n) == if Pos(base, s, n) + 1 < n then Pos(base, s, n) + 1 else 0
  {}

  /** The source's step `index = (index + 1) mod n` moves from step `s` to step `s + 1`. */
  lemma PosSucc(base: nat, s: nat, n: nat)
    requires base < n && s + 1 < n
    ensures Pos(base, s + 1, n) == (Pos(base, s, n) + 1) % n
  {
    ModSmall(Pos(base, s, n) + 1, n);
  }

  /** Walking `Offset(base, j)` steps from `base` reaches `j`. */
  lemma PosOfOffset(base: nat, j: nat, n: nat)
    requires base < n && j < n
    ensures Pos(base, Offset(base, j, n), n) == j
  {}

  /** Walking `s < n` steps from `base`, then measuring the offset, gives `s` back. */
  lemma OffsetOfPos(base: nat, s: nat, n: nat)
    requires base < n && s < n
    ensures Offset(base, Pos(base, s, n), n) == s
  {}

  /** Fewer than `n` steps from the same bucket reach different buckets. */
  lemma PosInjective(base: nat, s1: nat, s2: nat, n: nat)
    requires base < n && s1 < n && s2 < n
    requires Pos(base, s1, n) == Pos(base, s2, n)
    ensures s1 == s2
  {}

  /** The bucket the walk of an entry with hash `h` is at after `d` steps is `d` away from home. */
  lemma DistanceOfWalk(h: nat, d: nat, n: nat)
    requires n > 0 && d < n
    ensures DistanceFromIndex(h, Pos(Home(h, n), d, n), n) == d
  {}

  /** Some bucket at least `steps` steps after `base` is empty: the walk has somewhere to stop. */
  ghost predicate EmptyAhead<K, V>(t: seq<Bucket<K, V>>, base: nat, steps: nat)
    requires base < |t|
  {
    exists s :: steps <= s < |t| && t[Pos(base, s, |t|)].hash == 0
  }

  /** An empty bucket somewhere in the table is ahead of every walk that starts at step 0. */
  lemma EmptyIsAhead<K, V>(t: seq<Bucket<K, V>>, base: nat, j: nat)
    requires |t| > 0 && base < |t| && j < |t| && t[j].hash == 0
    ensures EmptyAhead(t, base, 0)
  {
    PosOfOffset(base, j, |t|);
  }

  lemma EmptyAheadAfterStep<K, V>(t: seq<Bucket<K, V>>, t': seq<Bucket<K, V>>, base: nat, steps: nat)
    requires |t| > 0 && |t'| == |t| && base < |t| && steps < |t|
    requires EmptyAhead(t, base, steps) && t[Pos(base, steps, |t|)].hash != 0
    requires forall j :: 0 <= j < |t| && j != Pos(base, steps, |t|) ==> t'[j] == t[j]
    ensures steps + 1 < |t| && EmptyAhead(t', base, steps + 1)
  {
    var s :| steps <= s < |t| && t[Pos(base, s, |t|)].hash == 0;
    assert s != steps;
    assert t'[Pos(base, s, |t|)].hash == 0;
  }

  /** Bucket `s` of the probe path from the home of hash `h` lets a lookup for (`h`, `k`) pass
      on: it is occupied, by an entry at least `s` buckets from its own home, not by (`h`, `k`). */
  ghost predicate PathStep<K, V>(t: seq<Bucket<K, V>>, h: nat, k: K, s: nat)
    requires 0 < |t| && s < |t|
  {
    var q := Pos(Home(h, |t|), s, |t|);
    t[q].hash != 0 && DistanceFromIndex(t[q].hash, q, |t|) >= s && !(t[q].hash == h && t[q].key == k)
  }

  /** An entry with hash `h` and key `k`, `d` buckets past its home, is reachable by a lookup:
      the lookup passes on at every bucket before it. */
  ghost predicate PathCond<K, V>(t: seq<Bucket<K, V>>, h: nat, k: K, d: nat)
    requires 0 < |t| && d <= |t|
  {
    forall s :: 0 <= s < d ==> PathStep(t, h, k, s)
  }

  /** Bucket `p`, if it holds an entry, holds one a lookup reaches from that entry's home. */
  ghost predicate Reachable<K, V>(t: seq<Bucket<K, V>>, p: nat)
    requires p < |t|
  {
    Live(t[p]) ==> PathCond(t, t[p].hash, t[p].key, DistanceFromIndex(t[p].hash, p, |t|))
  }

  /** The Robin Hood invariant: every stored entry is reachable from its home bucket. */
  ghost predicate Ordered<K, V>(t: seq<Bucket<K, V>>) {
    0 < |t| && forall p :: 0 <= p < |t| ==> Reachable(t, p)
  }

  /** Key `k` is not stored. */
  ghost predicate Absent<K, V>(t: seq<Bucket<K, V>>, k: K) {
    forall p :: 0 <= p < |t| && Live(t[p]) ==> t[p].key != k
  }

  /** The map never writes a hash with bit 31 set, so no bucket becomes a tombstone. */
  ghost predicate NoTombstones<K, V>(t: seq<Bucket<K, V>>) {
    forall p :: 0 <= p < |t| ==> !IsTombstone(t[p])
  }

  /** Every stored entry carries the hash of its key. */
  ghost predicate HashesMatch<K, V>(t: seq<Bucket<K, V>>, hash: K -> u32) {
    forall p :: 0 <= p < |t| && Live(t[p]) ==> t[p].hash == hash(t[p].key)
  }

  /** The table invariant of a map that hashes keys with `hash`. */
  ghost predicate TableOk<K, V>(t: seq<Bucket<K, V>>, hash: K -> u32) {
    Ordered(t) && NoTombstones(t) && HashesMatch(t, hash)
  }

  /** Some bucket is empty. */
  ghost predicate HasEmpty<K, V>(t: seq<Bucket<K, V>>) {
    exists j :: 0 <= j < |t| && t[j].hash == 0
  }

  /** The stored entry of a bucket, if it holds one. */
  function EntryOf<K(==), V(==)>(b: Bucket<K, V>): multiset<(K, V)> {
    if Live(b) then multiset{(b.key, b.value)} else multiset{}
  }

  /** The stored (key, value) pairs. */
  function Entries<K(==), V(==)>(t: seq<Bucket<K, V>>): multiset<(K, V)>
  {
    if t == [] then multiset{} else EntryOf(t[0]) + Entries(t[1..])
  }

  /** Overwriting one bucket trades its entry for the new one. */
  lemma {:induction false} EntriesUpdate<K, V>(t: seq<Bucket<K, V>>, i: nat, b: Bucket<K, V>)
    requires i < |t|
    ensures Entries(t[i := b]) + EntryOf(t[i]) == Entries(t) + EntryOf(b)
  {
    var u := t[i := b];
    if i == 0 {
      assert u[1..] == t[1..];
    } else {
      var rest := t[1..];
      assert u[1..] == rest[i - 1 := b];
      assert rest[i - 1] == t[i];
      EntriesUpdate(rest, i - 1, b);
      assert Entries(u) == EntryOf(t[0]) + Entries(rest[i - 1 := b]);
      assert Entries(t) == EntryOf(t[0]) + Entries(rest);
      SameSumsPlus(EntryOf(t[0]), Entries(rest[i - 1 := b]), EntryOf(t[i]), Entries(rest), EntryOf(b));
    }
  }

  lemma SameSumsPlus<T>(e: multiset<T>, a: multiset<T>, x: multiset<T>, c: multiset<T>, y: multiset<T>)
    requires a + x == c + y
    ensures (e + a) + x == (e + c) + y
  {
    forall z ensures ((e + a) + x)[z] == ((e + c) + y)[z] {
      assert (a + x)[z] == (c + y)[z];
    }
  }

  /** A pair is stored exactly when some live bucket holds it. */
  lemma {:induction false} EntriesMembership<K, V>(t: seq<Bucket<K, V>>, key: K, x: V)
    ensures (key, x) in Entries(t) <==>
      exists p :: 0 <= p < |t| && Live(t[p]) && t[p].key == key && t[p].value == x
  {
    if t != [] {
      EntriesMembership(t[1..], key, x);
      if (key, x) in Entries(t[1..]) {
        var p :| 0 <= p < |t[1..]| && Live(t[1..][p]) && t[1..][p].key == key && t[1..][p].value == x;
        assert t[p + 1] == t[1..][p];
      }
      if p :| 0 <= p < |t| && Live(t[p]) && t[p].key == key && t[p].value == x {
        if p > 0 {
          assert t[1..][p - 1] == t[p];
        }
      }
    }
  }

  /** There are never more entries than buckets. */
  lemma {:induction false} EntriesBound<K, V>(t: seq<Bucket<K, V>>)
    ensures |Entries(t)| <= |t|
  {
    if t != [] {
      EntriesBound(t[1..]);
    }
  }

  /** A table of empty buckets stores nothing. */
  lemma {:induction false} EntriesOfEmptyTable<K, V>(t: seq<Bucket<K, V>>)
    requires forall j :: 0 <= j < |t| ==> t[j].hash == 0
    ensures Entries(t) == multiset{}
  {
    if t != [] {
      assert forall j :: 0 <= j < |t[1..]| ==> t[1..][j] == t[j + 1];
      EntriesOfEmptyTable(t[1..]);
    }
  }

  /** A table without tombstones and with fewer entries than buckets has an empty bucket. */
  lemma {:induction false} EmptyBucketExists<K, V>(t: seq<Bucket<K, V>>) returns (j: nat)
    requires NoTombstones(t) && |Entries(t)| < |t|
    ensures j < |t| && t[j].hash == 0
  {
    if t[0].hash == 0 {
      j := 0;
    } else {
      assert Live(t[0]);
      assert NoTombstones(t[1..]) by {
        forall p | 0 <= p < |t[1..]| ensures !IsTombstone(t[1..][p]) {
          assert t[1..][p] == t[p + 1];
        }
      }
      var j' := EmptyBucketExists(t[1..]);
      j := j' + 1;
    }
  }

  /** Lookup along the probe path operator[] follows for a stored key, without changing
      anything: the bucket holding hash `h` and key `k`, or None once the probe meets an empty
      bucket or an entry nearer its home than the probe is to `base`. */
  function Find<K(==), V>(t: seq<Bucket<K, V>>, base: nat, s: nat, h: nat, k: K): (r: Option<nat>)
    requires base < |t|
    ensures r.Some? ==> r.value < |t| && t[r.value].hash == h && t[r.value].key == k
    decreases |t| - s
  {
    if s >= |t| then None
    else
      var i := Pos(base, s, |t|);
      if t[i].hash == h && t[i].key == k then Some(i)
      else if t[i].hash == 0 then None
      else if DistanceFromIndex(t[i].hash, i, |t|) < s then None
      else Find(t, base, s + 1, h, k)
  }

  /** In an ordered table, the lookup from an entry's home bucket finds it. */
  lemma FindLocates<K, V>(t: seq<Bucket<K, V>>, p: nat)
    requires Ordered(t) && p < |t| && Live(t[p])
    ensures Find(t, Home(t[p].hash, |t|), 0, t[p].hash, t[p].key) == Some(p)
  {
    var d := DistanceFromIndex(t[p].hash, p, |t|);
    assert Reachable(t, p);
    PosOfOffset(Home(t[p].hash, |t|), p, |t|);
    FindAlongPath(t, t[p].hash, t[p].key, d, 0);
  }

  lemma {:induction false} FindAlongPath<K, V>(t: seq<Bucket<K, V>>, h: nat, k: K, d: nat, s: nat)
    requires 0 < |t| && d < |t| && s <= d && PathCond(t, h, k, d)
    requires t[Pos(Home(h, |t|), d, |t|)].hash == h && t[Pos(Home(h, |t|), d, |t|)].key == k
    ensures Find(t, Home(h, |t|), s, h, k) == Some(Pos(Home(h, |t|), d, |t|))
    decreases d - s
  {
    if s < d {
      assert PathStep(t, h, k, s);
      FindAlongPath(t, h, k, d, s + 1);
    }
  }

  /** The value stored for `key`, looked up the way operator[] finds a stored key. */
  function Lookup<K(==), V>(t: seq<Bucket<K, V>>, key: K, hash: K -> u32): (r: Option<V>)
    requires 0 < |t|
  {
    var h := hash(key);
    match Find(t, Home(h, |t|), 0, h, key)
    case None => None
    case Some(p) => Some(t[p].value)
  }

  /** In a table satisfying the invariant, the lookup yields exactly the stored value of a key. */
  lemma LookupIffEntry<K, V>(t: seq<Bucket<K, V>>, hash: K -> u32, key: K, x: V)
    requires TableOk(t, hash) && 1 <= hash(key) < TOMBSTONE_BIT
    ensures Lookup(t, key, hash) == Some(x) <==> (key, x) in Entries(t)
  {
    EntriesMembership(t, key, x);
    var h := hash(key);
    var f := Find(t, Home(h, |t|), 0, h, key);
    if f.Some? {
      assert Live(t[f.value]);
    }
    if (key, x) in Entries(t) {
      var p :| 0 <= p < |t| && Live(t[p]) && t[p].key == key && t[p].value == x;
      FindLocates(t, p);
    }
  }

  /** A key the lookup does not find is stored nowhere. */
  lemma AbsentIfNotFound<K, V>(t: seq<Bucket<K, V>>, hash: K -> u32, key: K)
    requires TableOk(t, hash) && Lookup(t, key, hash).None?
    ensures Absent(t, key)
  {
    forall p | 0 <= p < |t| && Live(t[p])
      ensures t[p].key != key
    {
      if t[p].key == key {
        FindLocates(t, p);
      }
    }
  }

  /** In a table satisfying the invariant no key is stored twice: both buckets would be where
      the lookup from the key's home stops. */
  lemma KeysAreUnique<K, V>(t: seq<Bucket<K, V>>, hash: K -> u32, p: nat, q: nat)
    requires TableOk(t, hash) && p < |t| && q < |t| && Live(t[p]) && Live(t[q])
    requires t[p].key == t[q].key
    ensures p == q
  {
    FindLocates(t, p);
    FindLocates(t, q);
  }

  /** A path condition on `d` steps leaves some bucket to spare when one bucket is empty. */
  lemma PathLeavesRoom<K, V>(t: seq<Bucket<K, V>>, h: nat, k: K, d: nat, j: nat)
    requires 0 < |t| && d <= |t| && PathCond(t, h, k, d)
    requires j < |t| && t[j].hash == 0
    ensures d < |t|
  {
    PosOfOffset(Home(h, |t|), j, |t|);
    var s := Offset(Home(h, |t|), j, |t|);
    assert s < d ==> PathStep(t, h, k, s);
  }

  /** The path condition of an entry survives a write to a bucket at or beyond its distance. */
  lemma PathCondFrame<K, V>(t: seq<Bucket<K, V>>, t': seq<Bucket<K, V>>, h: nat, k: K, d: nat, e: nat)
    requires 0 < |t| == |t'| && d <= e < |t| && PathCond(t, h, k, d)
    requires forall j :: 0 <= j < |t| && j != Pos(Home(h, |t|), e, |t|) ==> t'[j] == t[j]
    ensures PathCond(t', h, k, d)
  {
    forall s | 0 <= s < d
      ensures PathStep(t', h, k, s)
    {
      assert PathStep(t, h, k, s);
      if Pos(Home(h, |t|), s, |t|) == Pos(Home(h, |t|), e, |t|) {
        PosInjective(Home(h, |t|), s, e, |t|);
      }
    }
  }

  /** The walk while it carries the entry (`h`, `k`): that entry's path so far is clear, it is
      stored nowhere, and the walk stands `d` buckets from its home. */
  ghost predicate Carried<K, V>(t: seq<Bucket<K, V>>, base: nat, steps: nat, h: nat, k: K, d: nat)
    requires base < |t| && steps < |t|
  {
    1 <= h < TOMBSTONE_BIT && d < |t| && Pos(Home(h, |t|), d, |t|) == Pos(base, steps, |t|) &&
    PathCond(t, h, k, d) && Absent(t, k)
  }

  /** Storing the carried entry in an empty bucket, or over a live entry nearer its home, where
      the entry's path ends keeps every stored entry reachable and the keys distinct. */
  lemma StoreKeepsOrder<K, V>(t: seq<Bucket<K, V>>, i: nat, h: nat, k: K, v: V, d: nat)
    requires Ordered(t) && i < |t| && d < |t| && 1 <= h < TOMBSTONE_BIT
    requires Pos(Home(h, |t|), d, |t|) == i && PathCond(t, h, k, d) && Absent(t, k)
    requires t[i].hash == 0 || (Live(t[i]) && DistanceFromIndex(t[i].hash, i, |t|) < d)
    ensures Ordered(t[i := Bucket(k, h, v)])
  {
    var n := |t|;
    var t' := t[i := Bucket(k, h, v)];
    forall p | 0 <= p < n
      ensures Reachable(t', p)
    {
      if !Live(t'[p]) {
      } else if p == i {
        DistanceOfWalk(h, d, n);
        PathCondFrame(t, t', h, k, d, d);
      } else {
        var x := t[p];
        var dp := DistanceFromIndex(x.hash, p, n);
        assert Reachable(t, p);
        forall s | 0 <= s < dp
          ensures PathStep(t', x.hash, x.key, s)
        {
          assert PathStep(t, x.hash, x.key, s);
          if Pos(Home(x.hash, n), s, n) == i {
            DistanceOfWalk(h, d, n);
          }
        }
      }
    }
  }

  /** The same store keeps the whole table invariant. */
  lemma StoreKeepsTable<K, V>(t: seq<Bucket<K, V>>, i: nat, h: nat, k: K, v: V, d: nat, hash: K -> u32)
    requires TableOk(t, hash) && i < |t| && d < |t| && 1 <= h < TOMBSTONE_BIT && h == hash(k)
    requires Pos(Home(h, |t|), d, |t|) == i && PathCond(t, h, k, d) && Absent(t, k)
    requires t[i].hash == 0 || DistanceFromIndex(t[i].hash, i, |t|) < d
    ensures TableOk(t[i := Bucket(k, h, v)], hash)
  {
    StoreKeepsOrder(t, i, h, k, v, d);
  }

  /** One more step is clear when the resident of the walk's bucket is at least as far from its
      home as the carried entry and is not that entry. */
  lemma CarriedAdvances<K, V>(t: seq<Bucket<K, V>>, base: nat, steps: nat, h: nat, k: K, d: nat)
    requires base < |t| && steps < |t| && Carried(t, base, steps, h, k, d)
    requires PathStep(t, h, k, d)
    requires steps + 1 < |t| && EmptyAhead(t, base, steps + 1)
    ensures Carried(t, base, steps + 1, h, k, d + 1)
  {
    var n := |t|;
    var s0 :| steps + 1 <= s0 < n && t[Pos(base, s0, n)].hash == 0;
    PathLeavesRoom(t, h, k, d + 1, Pos(base, s0, n));
    PosNext(base, steps, n);
    PosNext(Home(h, n), d, n);
  }

  /** Storing the carried entry over a live resident nearer its home makes the resident the
      carried entry, one step further on, and trades it for the stored pair. */
  lemma SwapKeepsInvariant<K, V>(t: seq<Bucket<K, V>>, base: nat, steps: nat, h: u32, k: K, v: V,
                                 d: nat, hash: K -> u32)
    requires base < |t| && steps < |t| && EmptyAhead(t, base, steps)
    requires TableOk(t, hash) && Carried(t, base, steps, h, k, d) && h == hash(k)
    requires var b := t[Pos(base, steps, |t|)];
      b.hash != 0 && DistanceFromIndex(b.hash, Pos(base, steps, |t|), |t|) < d
    ensures var i := Pos(base, steps, |t|);
      var b := t[i];
      var t' := t[i := Bucket(k, h, v)];
      steps + 1 < |t| && EmptyAhead(t', base, steps + 1) &&
      Carried(t', base, steps + 1, b.hash, b.key, DistanceFromIndex(b.hash, i, |t|) + 1) &&
      b.hash == hash(b.key)
  {
    var n := |t|;
    var i := Pos(base, steps, n);
    var b := t[i];
    var cd := DistanceFromIndex(b.hash, i, n);
    var t' := t[i := Bucket(k, h, v)];
    assert !IsTombstone(b);
    EmptyAheadAfterStep(t, t', base, steps);
    forall j | 0 <= j < n && Live(t'[j])
      ensures t'[j].key != b.key
    {
      if j != i && t[j].key == b.key {
        KeysAreUnique(t, hash, i, j);
      }
    }
    PosOfOffset(Home(b.hash, n), i, n);
    assert Reachable(t, i);
    PathCondFrame(t, t', b.hash, b.key, cd, cd);
    DistanceOfWalk(h, d, n);
    assert PathStep(t', b.hash, b.key, cd);
    var s0 :| steps + 1 <= s0 < n && t'[Pos(base, s0, n)].hash == 0;
    PathLeavesRoom(t', b.hash, b.key, cd + 1, Pos(base, s0, n));
    PosNext(base, steps, n);
    PosNext(Home(b.hash, n), cd, n);
  }

  /** What one call of operator[] leaves behind: the new buckets, the bucket whose value the
      code returns, the bucket where the requested key ended up, whether an entry was added,
      and after how many steps the walk stopped (`n` or more: it never stops). */
  datatype Outcome<K, V> = Outcome(table: seq<Bucket<K, V>>, returned: nat, keySlot: nat, grew: bool, steps: nat)

  /** The state of the probe loop of operator[]: the buckets, the entry it carries (hash, key,
      value) and that entry's distance from its home; `placed` is the bucket the requested key
      was first stored in, once a swap has stored it. */
  datatype Probe<K, V> = Probe(table: seq<Bucket<K, V>>, hash: u32, key: K, value: V, distance: nat,
                               placed: Option<nat>)

  predicate ProbeOk<K, V>(p: Probe<K, V>) {
    0 < |p.table| && (p.placed.Some? ==> p.placed.value < |p.table|)
  }

  /** The loop returns at bucket `i`: it holds the carried hash and key, it is empty, or it is
      a tombstone nearer its home than the carried entry. */
  predicate Stops<K(==), V>(p: Probe<K, V>, i: nat)
    requires i < |p.table|
  {
    var b := p.table[i];
    (b.hash == p.hash && b.key == p.key) || b.hash == 0 ||
    (DistanceFromIndex(b.hash, i, |p.table|) < p.distance && IsTombstone(b))
  }

  /** The three returns of the loop body at bucket `i`: a match changes nothing; an empty
      bucket receives the carried entry; a tombstone takes the carried hash and key and keeps
      its own value. */
  function Finish<K(==), V>(p: Probe<K, V>, i: nat, steps: nat): (o: Outcome<K, V>)
    requires i < |p.table| && Stops(p, i)
    ensures |o.table| == |p.table| && o.returned == i && o.steps == steps
  {
    var b := p.table[i];
    var slot := if p.placed.Some? then p.placed.value else i;
    if b.hash == p.hash && b.key == p.key then Outcome(p.table, i, slot, false, steps)
    else if b.hash == 0 then Outcome(p.table[i := Bucket(p.key, p.hash, p.value)], i, slot, true, steps)
    else Outcome(p.table[i := Bucket(p.key, p.hash, b.value)], i, slot, true, steps)
  }

  /** The rest of the loop body at bucket `i` when it does not return: a live resident nearer
      its home than the carried entry swaps with it, and the carried distance becomes the
      resident's; then the distance grows by one (the index moves on in Walk). */
  function Advance<K(==), V>(p: Probe<K, V>, i: nat): (r: Probe<K, V>)
    requires ProbeOk(p) && i < |p.table| && !Stops(p, i)
    ensures ProbeOk(r) && |r.table| == |p.table|
  {
    var b := p.table[i];
    var cd := DistanceFromIndex(b.hash, i, |p.table|);
    if cd < p.distance then
      Probe(p.table[i := Bucket(p.key, p.hash, p.value)], b.hash, b.key, b.value, cd + 1,
            Some(if p.placed.Some? then p.placed.value else i))
    else
      p.(distance := p.distance + 1)
  }

  /** A step writes at most the bucket it stands on. */
  lemma AdvanceFrame<K, V>(p: Probe<K, V>, i: nat)
    requires ProbeOk(p) && i < |p.table| && !Stops(p, i)
    ensures forall j :: 0 <= j < |p.table| && j != i ==> Advance(p, i).table[j] == p.table[j]
  {}

  /** A swap happens only with a resident strictly nearer its home than the carried entry; the
      carried distance then continues from the resident's, and otherwise from its own. */
  lemma SwapOnlyWithRicher<K, V>(p: Probe<K, V>, i: nat)
    requires ProbeOk(p) && i < |p.table| && !Stops(p, i)
    ensures var cd := DistanceFromIndex(p.table[i].hash, i, |p.table|);
      var r := Advance(p, i);
      (r.table != p.table ==> cd < p.distance) &&
      r.distance == (if cd < p.distance then cd else p.distance) + 1
  {}

  /** The probe loop of operator[] after `steps` steps from the home bucket `base`. The source's
      loop has no exit other than Finish; after `n` steps without one it would run forever,
      which the outcome records as `steps >= n`. */
  function Walk<K(==), V>(p: Probe<K, V>, base: nat, steps: nat): (o: Outcome<K, V>)
    requires ProbeOk(p) && base < |p.table|
    ensures |o.table| == |p.table| && steps <= o.steps && o.keySlot < |p.table|
    ensures o.steps < |p.table| ==> o.returned == Pos(base, o.steps, |p.table|)
    ensures p.placed.Some? ==> o.keySlot == p.placed.value
    decreases |p.table| - steps, 1
  {
    if steps >= |p.table| then
      Outcome(p.table, base, if p.placed.Some? then p.placed.value else base, false, steps)
    else
      WalkAt(p, base, steps)
  }

  /** One iteration of the loop body at the bucket `steps` steps after `base`. */
  function WalkAt<K(==), V>(p: Probe<K, V>, base: nat, steps: nat): (o: Outcome<K, V>)
    requires ProbeOk(p) && base < |p.table| && steps < |p.table|
    ensures |o.table| == |p.table| && steps <= o.steps && o.keySlot < |p.table|
    ensures o.steps < |p.table| ==> o.returned == Pos(base, o.steps, |p.table|)
    ensures p.placed.Some? ==> o.keySlot == p.placed.value
    decreases |p.table| - steps, 0
  {
    var i := Pos(base, steps, |p.table|);
    if Stops(p, i) then Finish(p, i, steps) else Walk(Advance(p, i), base, steps + 1)
  }

  /** A step that does not return continues the walk from the advanced probe. */
  lemma WalkStep<K, V>(p: Probe<K, V>, base: nat, steps: nat)
    requires ProbeOk(p) && base < |p.table| && steps < |p.table| && !Stops(p, Pos(base, steps, |p.table|))
    ensures Walk(p, base, steps) == Walk(Advance(p, Pos(base, steps, |p.table|)), base, steps + 1)
  {}

  /** A step that returns ends the walk with Finish. */
  lemma WalkFinish<K, V>(p: Probe<K, V>, base: nat, steps: nat)
    requires ProbeOk(p) && base < |p.table| && steps < |p.table| && Stops(p, Pos(base, steps, |p.table|))
    ensures Walk(p, base, steps) == Finish(p, Pos(base, steps, |p.table|), steps)
  {}

  /** A step that does not return keeps an empty bucket ahead. */
  lemma AdvanceKeepsEmptyAhead<K, V>(p: Probe<K, V>, base: nat, steps: nat)
    requires ProbeOk(p) && base < |p.table| && steps < |p.table| && EmptyAhead(p.table, base, steps)
    requires !Stops(p, Pos(base, steps, |p.table|))
    ensures steps + 1 < |p.table| && EmptyAhead(Advance(p, Pos(base, steps, |p.table|)).table, base, steps + 1)
  {
    AdvanceFrame(p, Pos(base, steps, |p.table|));
    EmptyAheadAfterStep(p.table, Advance(p, Pos(base, steps, |p.table|)).table, base, steps);
  }

  /** With an empty bucket ahead, the walk stops before it has gone round the table. */
  lemma {:induction false} WalkStops<K, V>(p: Probe<K, V>, base: nat, steps: nat)
    requires ProbeOk(p) && base < |p.table| && steps < |p.table| && EmptyAhead(p.table, base, steps)
    ensures Walk(p, base, steps).steps < |p.table|
    decreases |p.table| - steps
  {
    var i := Pos(base, steps, |p.table|);
    if Stops(p, i) {
      WalkFinish(p, base, steps);
    } else {
      AdvanceKeepsEmptyAhead(p, base, steps);
      WalkStep(p, base, steps);
      WalkStops(Advance(p, i), base, steps + 1);
    }
  }

  /** Walking while the carried key is the requested one and the probe finds it there: the
      walk returns the found bucket and changes nothing. */
  lemma {:induction false} FoundIsReturned<K, V>(p: Probe<K, V>, base: nat, s: nat)
    requires ProbeOk(p) && base < |p.table| && p.placed.None? && p.distance == s
    requires Find(p.table, base, s, p.hash, p.key).Some?
    ensures var o := Walk(p, base, s);
      var f := Find(p.table, base, s, p.hash, p.key).value;
      o.table == p.table && !o.grew && o.returned == f && o.keySlot == f && o.steps < |p.table|
    decreases |p.table| - s
  {
    var i := Pos(base, s, |p.table|);
    if !(p.table[i].hash == p.hash && p.table[i].key == p.key) {
      FoundIsReturned(p.(distance := s + 1), base, s + 1);
    }
  }

  /** `t'` agrees with `t` on every bucket outside steps `lo` to `hi` after `base`. */
  ghost predicate SameOutside<K, V>(t: seq<Bucket<K, V>>, t': seq<Bucket<K, V>>, base: nat, lo: nat, hi: nat)
    requires base < |t| == |t'|
  {
    forall j :: 0 <= j < |t| && !(lo <= Offset(base, j, |t|) <= hi) ==> t'[j] == t[j]
  }

  lemma SameOutsideJoin<K, V>(t: seq<Bucket<K, V>>, t': seq<Bucket<K, V>>, t'': seq<Bucket<K, V>>,
                              base: nat, steps: nat, hi: nat)
    requires base < |t| == |t'| == |t''| && steps < hi
    requires SameOutside(t, t', base, steps, steps) && SameOutside(t', t'', base, steps + 1, hi)
    ensures SameOutside(t, t'', base, steps, hi)
  {}

  /** One step writes only the bucket at step `steps`. */
  lemma AdvanceSameOutside<K, V>(p: Probe<K, V>, base: nat, steps: nat)
    requires ProbeOk(p) && base < |p.table| && steps < |p.table| && !Stops(p, Pos(base, steps, |p.table|))
    ensures SameOutside(p.table, Advance(p, Pos(base, steps, |p.table|)).table, base, steps, steps)
  {
    OffsetOfPos(base, steps, |p.table|);
    AdvanceFrame(p, Pos(base, steps, |p.table|));
  }

  /** Returning at step `steps` writes only the bucket there. */
  lemma FinishSameOutside<K, V>(p: Probe<K, V>, base: nat, steps: nat)
    requires ProbeOk(p) && base < |p.table| && steps < |p.table| && Stops(p, Pos(base, steps, |p.table|))
    ensures SameOutside(p.table, Finish(p, Pos(base, steps, |p.table|), steps).table, base, steps, steps)
  {
    OffsetOfPos(base, steps, |p.table|);
  }

  /** The walk changes only the buckets it walked over: those from `steps` to where it stopped. */
  lemma {:induction false} WalkFrame<K, V>(p: Probe<K, V>, base: nat, steps: nat)
    requires ProbeOk(p) && base < |p.table| && steps < |p.table|
    ensures var o := Walk(p, base, steps);
      SameOutside(p.table, o.table, base, steps, o.steps)
    decreases |p.table| - steps
  {
    var i := Pos(base, steps, |p.table|);
    if Stops(p, i) {
      FinishSameOutside(p, base, steps);
    } else {
      var q := Advance(p, i);
      AdvanceSameOutside(p, base, steps);
      WalkStep(p, base, steps);
      if steps + 1 < |p.table| {
        WalkFrame(q, base, steps + 1);
        SameOutsideJoin(p.table, q.table, Walk(q, base, steps + 1).table, base, steps, Walk(q, base, steps + 1).steps);
      }
    }
  }

  /** The walk carrying the entry of a key that is not stored, before it has stored it, over a
      table without tombstones, with an empty bucket ahead. */
  ghost predicate Placing<K, V>(p: Probe<K, V>, base: nat, steps: nat) {
    ProbeOk(p) && base < |p.table| && steps < |p.table| && EmptyAhead(p.table, base, steps) &&
    p.placed.None? && 1 <= p.hash < TOMBSTONE_BIT && Absent(p.table, p.key) && NoTombstones(p.table)
  }

  /** Returning while placing fills an empty bucket with the carried entry. */
  lemma FinishPlacesKey<K, V>(p: Probe<K, V>, base: nat, steps: nat)
    requires Placing(p, base, steps) && Stops(p, Pos(base, steps, |p.table|))
    ensures var o := Finish(p, Pos(base, steps, |p.table|), steps);
      o.table[o.keySlot] == Bucket(p.key, p.hash, p.value)
  {
    var b := p.table[Pos(base, steps, |p.table|)];
    if b.hash == p.hash && b.key == p.key {
      assert Live(b);
      assert false;
    }
  }

  /** A step while placing either stores the carried entry at the current bucket or keeps
      placing it. */
  lemma AdvancePlacesKey<K, V>(p: Probe<K, V>, base: nat, steps: nat)
    requires Placing(p, base, steps) && !Stops(p, Pos(base, steps, |p.table|))
    ensures var i := Pos(base, steps, |p.table|); var q := Advance(p, i);
      steps + 1 < |p.table| &&
      if q.placed.Some? then
        q.placed.value == i && q.table[i] == Bucket(p.key, p.hash, p.value) &&
        Offset(base, i, |p.table|) == steps
      else
        Placing(q, base, steps + 1) && q.key == p.key && q.hash == p.hash && q.value == p.value
  {
    var i := Pos(base, steps, |p.table|);
    assert !IsTombstone(p.table[i]);
    AdvanceKeepsEmptyAhead(p, base, steps);
    OffsetOfPos(base, steps, |p.table|);
    AdvanceFrame(p, i);
  }

  /** For a key that is not stored, the bucket where the key is first stored ends up holding
      it, with its hash and the carried value. */
  lemma {:induction false} WalkPlacesKey<K, V>(p: Probe<K, V>, base: nat, steps: nat)
    requires Placing(p, base, steps)
    ensures var o := Walk(p, base, steps);
      o.table[o.keySlot] == Bucket(p.key, p.hash, p.value)
    decreases |p.table| - steps
  {
    var i := Pos(base, steps, |p.table|);
    if Stops(p, i) {
      WalkFinish(p, base, steps);
      FinishPlacesKey(p, base, steps);
    } else {
      var q := Advance(p, i);
      WalkStep(p, base, steps);
      AdvancePlacesKey(p, base, steps);
      if q.placed.Some? {
        WalkFrame(q, base, steps + 1);
      } else {
        WalkPlacesKey(q, base, steps + 1);
      }
    }
  }

  /** The walk carrying the entry of a key that is not stored, over a table satisfying the
      invariant, with an empty bucket ahead. */
  ghost predicate Inserting<K, V>(p: Probe<K, V>, base: nat, steps: nat, hash: K -> u32) {
    ProbeOk(p) && base < |p.table| && steps < |p.table| && EmptyAhead(p.table, base, steps) &&
    TableOk(p.table, hash) && Carried(p.table, base, steps, p.hash, p.key, p.distance) &&
    p.hash == hash(p.key)
  }

  /** A step past a resident at least as far from its home keeps the walk inserting. */
  lemma PassKeepsInserting<K, V>(p: Probe<K, V>, base: nat, steps: nat, hash: K -> u32)
    requires Inserting(p, base, steps, hash)
    requires var b := p.table[Pos(base, steps, |p.table|)];
      b.hash != 0 && DistanceFromIndex(b.hash, Pos(base, steps, |p.table|), |p.table|) >= p.distance
    ensures !Stops(p, Pos(base, steps, |p.table|))
    ensures Inserting(Advance(p, Pos(base, steps, |p.table|)), base, steps + 1, hash)
  {
    var t := p.table;
    var i := Pos(base, steps, |t|);
    var b := t[i];
    assert !(b.hash == p.hash && b.key == p.key);
    assert Advance(p, i) == p.(distance := p.distance + 1);
    EmptyAheadAfterStep(t, t, base, steps);
    assert PathStep(t, p.hash, p.key, p.distance);
    CarriedAdvances(t, base, steps, p.hash, p.key, p.distance);
  }

  /** A swap with a resident nearer its home keeps the walk inserting, now carrying the
      resident. */
  lemma SwapKeepsInserting<K, V>(p: Probe<K, V>, base: nat, steps: nat, hash: K -> u32)
    requires Inserting(p, base, steps, hash)
    requires var b := p.table[Pos(base, steps, |p.table|)];
      b.hash != 0 && DistanceFromIndex(b.hash, Pos(base, steps, |p.table|), |p.table|) < p.distance
    ensures !Stops(p, Pos(base, steps, |p.table|))
    ensures Inserting(Advance(p, Pos(base, steps, |p.table|)), base, steps + 1, hash)
  {
    var t := p.table;
    var i := Pos(base, steps, |t|);
    var b := t[i];
    assert !IsTombstone(b) && !(b.hash == p.hash && b.key == p.key);
    StoreKeepsTable(t, i, p.hash, p.key, p.value, p.distance, hash);
    SwapKeepsInvariant(t, base, steps, p.hash, p.key, p.value, p.distance, hash);
  }

  /** Storing in an empty bucket ends an inserting walk with the invariant intact. */
  lemma EmptyEndsInserting<K, V>(p: Probe<K, V>, base: nat, steps: nat, hash: K -> u32)
    requires Inserting(p, base, steps, hash) && p.table[Pos(base, steps, |p.table|)].hash == 0
    ensures var o := Finish(p, Pos(base, steps, |p.table|), steps);
      o.grew && TableOk(o.table, hash)
  {
    var i := Pos(base, steps, |p.table|);
    StoreKeepsTable(p.table, i, p.hash, p.key, p.value, p.distance, hash);
  }

  /** Operator[] on a key that is not stored, in a table satisfying the invariant: an entry is
      added and the invariant still holds. */
  lemma {:induction false} WalkInserts<K, V>(p: Probe<K, V>, base: nat, steps: nat, hash: K -> u32)
    requires Inserting(p, base, steps, hash)
    ensures var o := Walk(p, base, steps);
      o.grew && TableOk(o.table, hash)
    decreases |p.table| - steps
  {
    var t := p.table;
    var i := Pos(base, steps, |t|);
    var b := t[i];
    if b.hash == 0 {
      EmptyEndsInserting(p, base, steps, hash);
    } else {
      if DistanceFromIndex(b.hash, i, |t|) < p.distance {
        SwapKeepsInserting(p, base, steps, hash);
      } else {
        PassKeepsInserting(p, base, steps, hash);
      }
      WalkStep(p, base, steps);
      WalkInserts(Advance(p, i), base, steps + 1, hash);
    }
  }

  /** A step of a walk over a table without tombstones, carrying a live hash, keeps both and
      trades the carried pair for the one it stores. */
  lemma AdvanceTradesEntry<K, V>(p: Probe<K, V>, i: nat)
    requires ProbeOk(p) && i < |p.table| && !Stops(p, i)
    requires NoTombstones(p.table) && 1 <= p.hash < TOMBSTONE_BIT
    ensures var q := Advance(p, i);
      NoTombstones(q.table) && 1 <= q.hash < TOMBSTONE_BIT &&
      Entries(q.table) + multiset{(q.key, q.value)} == Entries(p.table) + multiset{(p.key, p.value)}
  {
    var b := p.table[i];
    assert !IsTombstone(b);
    if DistanceFromIndex(b.hash, i, |p.table|) < p.distance {
      EntriesUpdate(p.table, i, Bucket(p.key, p.hash, p.value));
    }
  }

  /** Returning at bucket `i` adds an entry only by filling an empty bucket with the carried
      pair. */
  lemma FinishAddsEntry<K, V>(p: Probe<K, V>, i: nat, steps: nat)
    requires i < |p.table| && Stops(p, i) && NoTombstones(p.table) && 1 <= p.hash < TOMBSTONE_BIT
    ensures var o := Finish(p, i, steps);
      o.grew ==> Entries(o.table) == Entries(p.table) + multiset{(p.key, p.value)}
  {
    if p.table[i].hash == 0 {
      EntriesUpdate(p.table, i, Bucket(p.key, p.hash, p.value));
    }
  }

  /** A walk over a table without tombstones, carrying a live hash, that adds an entry adds
      exactly the carried pair to the stored pairs. */
  lemma {:induction false} WalkAddsEntry<K, V>(p: Probe<K, V>, base: nat, steps: nat)
    requires ProbeOk(p) && base < |p.table| && steps < |p.table|
    requires NoTombstones(p.table) && 1 <= p.hash < TOMBSTONE_BIT
    ensures var o := Walk(p, base, steps);
      o.grew ==> Entries(o.table) == Entries(p.table) + multiset{(p.key, p.value)}
    decreases |p.table| - steps
  {
    var i := Pos(base, steps, |p.table|);
    if Stops(p, i) {
      FinishAddsEntry(p, i, steps);
    } else {
      WalkStep(p, base, steps);
      if steps + 1 < |p.table| {
        AdvanceTradesEntry(p, i);
        WalkAddsEntry(Advance(p, i), base, steps + 1);
      }
    }
  }

  /** operator[] on a table: the walk of the probe loop for `key`, carrying the default value,
      from the key's home bucket. */
  function Subscript<K(==), V>(t: seq<Bucket<K, V>>, key: K, h: u32, blank: V): (o: Outcome<K, V>)
    requires 0 < |t|
    ensures |o.table| == |t| && o.keySlot < |t|
  {
    Walk(Probe(t, h, key, blank, 0, None), Home(h, |t|), 0)
  }

  /** A key the lookup finds: operator[] returns its bucket and leaves the table as it was. */
  lemma SubscriptFound<K, V>(t: seq<Bucket<K, V>>, hash: K -> u32, key: K, blank: V)
    requires 0 < |t| && Lookup(t, key, hash).Some?
    ensures var o := Subscript(t, key, hash(key), blank);
      o.steps < |t| && o.table == t && !o.grew && o.returned == o.keySlot &&
      t[o.keySlot].hash == hash(key) && t[o.keySlot].key == key &&
      Lookup(t, key, hash) == Some(t[o.keySlot].value)
  {
    var h := hash(key);
    FoundIsReturned(Probe(t, h, key, blank, 0, None), Home(h, |t|), 0);
  }

  /** A key that is not stored, with an empty bucket left: operator[] stops within one round of
      the table, adds exactly the pair (key, default value), stores it in the key's slot, keeps
      the invariant, and changes only buckets it walked over. */
  lemma SubscriptInserts<K, V>(t: seq<Bucket<K, V>>, hash: K -> u32, key: K, blank: V)
    requires TableOk(t, hash) && 1 <= hash(key) < TOMBSTONE_BIT
    requires Lookup(t, key, hash).None? && HasEmpty(t)
    ensures var o := Subscript(t, key, hash(key), blank);
      o.steps < |t| && o.grew && TableOk(o.table, hash) &&
      Entries(o.table) == Entries(t) + multiset{(key, blank)} &&
      o.table[o.keySlot] == Bucket(key, hash(key), blank) &&
      SameOutside(t, o.table, Home(hash(key), |t|), 0, o.steps)
  {
    var h := hash(key);
    var base := Home(h, |t|);
    var p := Probe(t, h, key, blank, 0, None);
    var j :| 0 <= j < |t| && t[j].hash == 0;
    EmptyIsAhead(t, base, j);
    AbsentIfNotFound(t, hash, key);
    WalkStops(p, base, 0);
    WalkInserts(p, base, 0, hash);
    WalkAddsEntry(p, base, 0);
    WalkPlacesKey(p, base, 0);
    WalkFrame(p, base, 0);
  }

  /** The operator[] contract: wherever the key was, afterwards it is stored in the slot the
      corrected operator returns, the invariant holds, and the stored pairs grow by the
      (key, default value) pair exactly when the key was missing. */
  lemma SubscriptStores<K, V>(t: seq<Bucket<K, V>>, hash: K -> u32, key: K, blank: V)
    requires TableOk(t, hash) && 1 <= hash(key) < TOMBSTONE_BIT
    requires Lookup(t, key, hash).Some? || HasEmpty(t)
    ensures var o := Subscript(t, key, hash(key), blank);
      o.steps < |t| && TableOk(o.table, hash) && o.grew == Lookup(t, key, hash).None? &&
      Live(o.table[o.keySlot]) && o.table[o.keySlot].key == key &&
      Lookup(o.table, key, hash) == Some(o.table[o.keySlot].value) &&
      Entries(o.table) == Entries(t) + (if o.grew then multiset{(key, blank)} else multiset{})
  {
    var o := Subscript(t, key, hash(key), blank);
    if Lookup(t, key, hash).Some? {
      SubscriptFound(t, hash, key, blank);
      assert Live(t[o.keySlot]);
    } else {
      SubscriptInserts(t, hash, key, blank);
      LookupIffEntry(o.table, hash, key, blank);
    }
  }

  /** Repeating operator[] for the same key finds the slot the first call stored it in and
      changes nothing, so the size does not change either. */
  lemma SubscriptIsIdempotent<K, V>(t: seq<Bucket<K, V>>, hash: K -> u32, key: K, blank: V)
    requires TableOk(t, hash) && 1 <= hash(key) < TOMBSTONE_BIT
    requires Lookup(t, key, hash).Some? || HasEmpty(t)
    ensures var o := Subscript(t, key, hash(key), blank);
      var o' := Subscript(o.table, key, hash(key), blank);
      o'.table == o.table && !o'.grew && o'.keySlot == o.keySlot
  {
    var o := Subscript(t, key, hash(key), blank);
    SubscriptStores(t, hash, key, blank);
    SubscriptFound(o.table, hash, key, blank);
    var o' := Subscript(o.table, key, hash(key), blank);
    KeysAreUnique(o.table, hash, o.keySlot, o'.keySlot);
  }

  /** `map[key] = v`: operator[], then a write of `v` into the key's bucket. */
  function PutTable<K(==), V>(t: seq<Bucket<K, V>>, key: K, hash: K -> u32, v: V, blank: V): (r: seq<Bucket<K, V>>)
    requires 0 < |t|
    ensures |r| == |t|
  {
    var o := Subscript(t, key, hash(key), blank);
    o.table[o.keySlot := o.table[o.keySlot].(value := v)]
  }

  /** Writing a value into a live bucket keeps the invariant: order depends only on hashes
      and keys. */
  lemma SetValueKeepsTable<K, V>(t: seq<Bucket<K, V>>, hash: K -> u32, i: nat, v: V)
    requires TableOk(t, hash) && i < |t|
    ensures TableOk(t[i := t[i].(value := v)], hash)
  {
    var t' := t[i := t[i].(value := v)];
    forall p | 0 <= p < |t'|
      ensures Reachable(t', p)
    {
      assert Reachable(t, p);
      if Live(t'[p]) {
        forall s | 0 <= s < DistanceFromIndex(t[p].hash, p, |t|)
          ensures PathStep(t', t[p].hash, t[p].key, s)
        {
          assert PathStep(t, t[p].hash, t[p].key, s);
        }
      }
    }
  }

  /** After `map[key] = v` the lookup of `key` gives `v`, the invariant holds, and the lookup
      of every other key gives what it gave before. */
  lemma PutStores<K, V>(t: seq<Bucket<K, V>>, hash: K -> u32, key: K, v: V, blank: V, other: K)
    requires TableOk(t, hash) && 1 <= hash(key) < TOMBSTONE_BIT && 1 <= hash(other) < TOMBSTONE_BIT
    requires Lookup(t, key, hash).Some? || HasEmpty(t)
    ensures var r := PutTable(t, key, hash, v, blank);
      TableOk(r, hash) && Lookup(r, key, hash) == Some(v) &&
      (other != key ==> Lookup(r, other, hash) == Lookup(t, other, hash)) &&
      |Entries(r)| == |Entries(t)| + (if Lookup(t, key, hash).None? then 1 else 0)
  {
    var o := Subscript(t, key, hash(key), blank);
    SubscriptStores(t, hash, key, blank);
    WriteValueStores(t, o.table, hash, key, v, o.keySlot, if o.grew then multiset{(key, blank)} else multiset{}, other);
  }

  /** Writing `v` into the bucket of `key` in a table `u` that stores what `t` stores plus
      pairs of `key`: the lookup of `key` gives `v` and the lookup of any other key is as in `t`. */
  lemma WriteValueStores<K, V>(t: seq<Bucket<K, V>>, u: seq<Bucket<K, V>>, hash: K -> u32, key: K, v: V,
                               i: nat, a: multiset<(K, V)>, other: K)
    requires TableOk(t, hash) && TableOk(u, hash) && 1 <= hash(key) < TOMBSTONE_BIT && 1 <= hash(other) < TOMBSTONE_BIT
    requires i < |u| && Live(u[i]) && u[i].key == key
    requires Entries(u) == Entries(t) + a && forall x :: x in a ==> x.0 == key
    ensures var r := u[i := u[i].(value := v)];
      TableOk(r, hash) && Lookup(r, key, hash) == Some(v) && |Entries(r)| == |Entries(u)| &&
      (other != key ==> Lookup(r, other, hash) == Lookup(t, other, hash))
  {
    WriteValueFinds(u, hash, key, v, i);
    var r := u[i := u[i].(value := v)];
    EntriesUpdate(u, i, u[i].(value := v));
    assert EntryOf(u[i]) == multiset{(key, u[i].value)} && EntryOf(u[i].(value := v)) == multiset{(key, v)};
    assert |Entries(r)| + 1 == |Entries(r) + EntryOf(u[i])| == |Entries(u) + EntryOf(u[i].(value := v))| == |Entries(u)| + 1;
    if other != key {
      OtherKeyUnchanged(t, u, r, hash, other, a, multiset{(key, u[i].value)}, multiset{(key, v)});
    }
  }

  /** Writing `v` into the live bucket of `key` keeps the invariant and makes the lookup of
      `key` give `v`. */
  lemma WriteValueFinds<K, V>(u: seq<Bucket<K, V>>, hash: K -> u32, key: K, v: V, i: nat)
    requires TableOk(u, hash) && 1 <= hash(key) < TOMBSTONE_BIT
    requires i < |u| && Live(u[i]) && u[i].key == key
    ensures var r := u[i := u[i].(value := v)];
      TableOk(r, hash) && Lookup(r, key, hash) == Some(v)
  {
    var r := u[i := u[i].(value := v)];
    SetValueKeepsTable(u, hash, i, v);
    assert Live(r[i]) && r[i].key == key && r[i].value == v;
    EntriesMembership(r, key, v);
    LookupIffEntry(r, hash, key, v);
  }

  /** Two tables whose stored pairs differ only in pairs of other keys answer a lookup alike. */
  lemma OtherKeyUnchanged<K, V>(t: seq<Bucket<K, V>>, u: seq<Bucket<K, V>>, r: seq<Bucket<K, V>>,
                                hash: K -> u32, other: K, a: multiset<(K, V)>, b: multiset<(K, V)>,
                                c: multiset<(K, V)>)
    requires TableOk(t, hash) && TableOk(r, hash) && 1 <= hash(other) < TOMBSTONE_BIT
    requires Entries(u) == Entries(t) + a && Entries(r) + b == Entries(u) + c
    requires forall x :: x in a ==> x.0 != other
    requires forall x :: x in b ==> x.0 != other
    requires forall x :: x in c ==> x.0 != other
    ensures Lookup(r, other, hash) == Lookup(t, other, hash)
  {
    forall x
      ensures (other, x) in Entries(r) <==> (other, x) in Entries(t)
    {
      assert (Entries(r) + b)[(other, x)] == (Entries(u) + c)[(other, x)];
      assert (other, x) !in a && (other, x) !in b && (other, x) !in c;
    }
    match Lookup(r, other, hash)
    case Some(x) =>
      LookupIffEntry(r, hash, other, x);
      LookupIffEntry(t, hash, other, x);
    case None =>
      match Lookup(t, other, hash)
      case Some(y) =>
        LookupIffEntry(r, hash, other, y);
        LookupIffEntry(t, hash, other, y);
      case None =>
  }

  /** A hash that is the key itself, for the concrete scenario below. */
  function IdentityHash(k: int): u32 {
    if 0 <= k < U32_MODULUS then k else 0
  }

  /** Four buckets holding 1, 5 and 2 under the identity hash: bucket 0 empty, 1 at its home
      bucket 1, 5 one step past its home 1, and 2 one step past its home 2. */
  function SwapScenario(): (t: seq<Bucket<int, int>>)
    ensures |t| == 4
  {
    [Bucket(0, 0, 0), Bucket(1, 1, 10), Bucket(5, 5, 50), Bucket(2, 2, 20)]
  }

  /** The scenario is a table the map can be in, and 9 is not stored in it. */
  lemma SwapScenarioIsValid()
    ensures TableOk(SwapScenario(), IdentityHash) && Lookup(SwapScenario(), 9, IdentityHash).None?
  {
    var t := SwapScenario();
    assert Home(9, 4) == 1 && Home(5, 4) == 1 && Home(2, 4) == 2 && Home(1, 4) == 1;
    assert Ordered(t) by {
      assert Reachable(t, 0) && Reachable(t, 1);
      assert PathStep(t, 5, 5, 0) && PathStep(t, 2, 2, 0);
      assert Reachable(t, 2) && Reachable(t, 3);
    }
    assert Find(t, 1, 0, 9, 9) == None by {
      assert DistanceFromIndex(2, 3, 4) == 1;
    }
  }

  /** The bucket operator[] returns after a swap is not the requested key's. In the scenario,
      operator[](9) walks from bucket 1, stores 9 in bucket 3 in place of 2, moves 2 on to the
      empty bucket 0, and returns bucket 0: `map[9] = v` would then give v to key 2 and leave
      9 with the default value. */
  lemma ReturnedSlotAfterSwap()
    ensures var o := Subscript(SwapScenario(), 9, IdentityHash(9), 0);
      o.steps == 3 && o.returned == 0 && o.table[0] == Bucket(2, 2, 20) &&
      o.keySlot == 3 && o.table[3] == Bucket(9, 9, 0)
  {
    var t := SwapScenario();
    var p0 := Probe(t, 9, 9, 0, 0, None);
    assert Home(9, 4) == 1 && Home(5, 4) == 1 && Home(2, 4) == 2 && Home(1, 4) == 1;
    WalkStep(p0, 1, 0);
    var p1 := p0.(distance := 1);
    assert Advance(p0, 1) == p1;
    WalkStep(p1, 1, 1);
    var p2 := p1.(distance := 2);
    assert Advance(p1, 2) == p2;
    WalkStep(p2, 1, 2);
    var p3 := Probe(t[3 := Bucket(9, 9, 0)], 2, 2, 20, 2, Some(3));
    assert Advance(p2, 3) == p3;
    WalkFinish(p3, 1, 3);
  }

  /** Every key hashes to a storable hash: neither the empty mark 0 nor a tombstone. */
  ghost predicate HashesLive<K(!new)>(hash: K -> u32) {
    forall k :: 1 <= hash(k) < TOMBSTONE_BIT
  }

  /** The growth test `mSize / mBucketCapacity >= 0.8` on integers; with exact division it is
      the same test. */
  predicate LoadFactorReached(size: nat, capacity: nat)
    ensures capacity > 0 ==> (LoadFactorReached(size, capacity) <==> size as real / capacity as real >= 0.8)
  {
    5 * size >= 4 * capacity
  }

  /** Below the load factor limit the table has room: a free bucket for another key. */
  lemma BelowLoadFactorHasRoom<K, V>(t: seq<Bucket<K, V>>, size: nat)
    requires NoTombstones(t) && size == |Entries(t)| && 0 < |t| && !LoadFactorReached(size, |t|)
    ensures HasEmpty(t)
  {
    var j := EmptyBucketExists(t);
  }

  /** The default map of 32 buckets reaches the limit at its 26th entry. */
  lemma DefaultLoadFactorLimit()
    ensures !LoadFactorReached(25, DEFAULT_BUCKET_CAPACITY) && LoadFactorReached(26, DEFAULT_BUCKET_CAPACITY)
  {}

  /** The default bucket count satisfies the constructor's requirement. */
  lemma DefaultCapacityIsPowerOfTwo()
    ensures Math.IsPowerOfTwo(DEFAULT_BUCKET_CAPACITY)
  {
    assert Math.And(32, 31) == 0 by {
      assert Math.And(1, 0) == 0;
      assert Math.And(2, 1) == 0;
      assert Math.And(4, 3) == 0;
      assert Math.And(8, 7) == 0;
      assert Math.And(16, 15) == 0;
    }
  }

  /** RobinHoodMap<K, V>: the bucket array and the entry count, the hash of keys (std::hash
      truncated to u32, taken here to avoid 0 and the tombstone bit) and the default value
      operator[] stores for a new key. */
  class RobinHoodMap<K(==,!new), V(==)> {
    var buckets: array<Bucket<K, V>>
    var size: u32
    const hash: K -> u32
    const blank: V

    /** The capacity is a power of two below 2^32; the buckets satisfy the Robin Hood invariant
        and `size` counts the stored pairs. */
    ghost predicate Valid()
      reads this, buckets
    {
      buckets.Length < U32_MODULUS && Math.IsPowerOfTwo(buckets.Length) && HashesLive(hash) &&
      TableOk(buckets[..], hash) && size as int == |Entries(buckets[..])|
    }

    /** A map of `capacity` zeroed buckets: every hash 0, so every bucket empty. */
    constructor (capacity: u32, hash: K -> u32, blank: V, zeroKey: K, zeroValue: V)
      requires Math.IsPowerOfTwo(capacity) && HashesLive(hash)
      ensures Valid() && fresh(buckets) && buckets.Length == capacity && size == 0
      ensures forall j :: 0 <= j < capacity ==> buckets[j].hash == 0
      ensures this.hash == hash && this.blank == blank
    {
      this.hash := hash;
      this.blank := blank;
      buckets := new Bucket<K, V>[capacity](_ => Bucket(zeroKey, 0, zeroValue));
      size := 0;
      new;
      EntriesOfEmptyTable(buckets[..]);
    }

    /** The number of stored pairs, never more than the number of buckets. */
    function GetSize(): (r: u32)
      reads this, buckets
      requires Valid()
      ensures r as int == |Entries(buckets[..])| && r as int <= buckets.Length
    {
      EntriesBound(buckets[..]);
      size
    }

    /** The source's Resize has an empty body: the map is left as it was. */
    method Resize(capacity: u32)
      ensures size == old(size) && buckets[..] == old(buckets[..])
    {
    }

    /** operator[](key): returns `returned`, the bucket whose value the source hands back, and
        `keySlot`, the bucket that holds `key` afterwards; the two differ after a swap. The
        loop ends only while the key is stored or a bucket is empty. */
    method Access(key: K) returns (returned: nat, keySlot: nat)
      requires Valid() && (Lookup(buckets[..], key, hash).Some? || size as int < buckets.Length)
      modifies this, buckets
      ensures Valid() && buckets == old(buckets)
      ensures var o := Subscript(old(buckets[..]), key, hash(key), blank);
        buckets[..] == o.table && returned == o.returned && keySlot == o.keySlot &&
        size as int == old(size) as int + (if o.grew then 1 else 0)
    {
      if LoadFactorReached(size as int, buckets.Length) {
        Resize(((buckets.Length * 2) % U32_MODULUS) as u32);
      }
      ghost var t0 := buckets[..];
      assert 1 <= hash(key) < TOMBSTONE_BIT;
      SubscriptCounts(t0, hash, key, blank, size as int);
      returned, keySlot := ProbeLoop(key);
    }

    /** The `while (true)` loop of operator[], from the key's home bucket with distance 0,
        carrying the default value. */
    method ProbeLoop(key: K) returns (returned: nat, keySlot: nat)
      requires 0 < buckets.Length < U32_MODULUS
      requires var o := Subscript(buckets[..], key, hash(key), blank);
        o.steps < buckets.Length && (o.grew ==> size as int + 1 < U32_MODULUS)
      modifies this`size, buckets
      ensures var o := Subscript(old(buckets[..]), key, hash(key), blank);
        buckets[..] == o.table && returned == o.returned && keySlot == o.keySlot &&
        size as int == old(size) as int + (if o.grew then 1 else 0)
    {
      var n := buckets.Length;
      ghost var o := Subscript(buckets[..], key, hash(key), blank);
      var h: u32 := hash(key);
      var index := Home(h, n);
      ghost var base := index;
      var k := key;
      var value := blank;
      var distance: nat := 0;
      var placed: Option<nat> := None;
      ghost var steps: nat := 0;
      while true
        invariant n == buckets.Length && size == old(size)
        invariant steps <= o.steps < n && index == Pos(base, steps, n)
        invariant ProbeOk(Probe(buckets[..], h, k, value, distance, placed))
        invariant Walk(Probe(buckets[..], h, k, value, distance, placed), base, steps) == o
        decreases n - steps
      {
        ghost var pr := Probe(buckets[..], h, k, value, distance, placed);
        if Stops(pr, index) {
          WalkEndsHere(pr, base, steps, o);
        }
        var done;
        done, h, k, value, distance, placed := Visit(index, h, k, value, distance, placed);
        if done {
          break;
        }
        WalkContinues(pr, base, steps, o);
        index := (index + 1) % n;
        steps := steps + 1;
      }
      returned := index;
      keySlot := if placed.Some? then placed.value else index;
    }

    /** The body of the loop at bucket `index`, carrying hash `h`, key `k` and value `value` at
        distance `distance`: `done` when the source returns there (after Finish), otherwise
        the state after Advance. */
    method Visit(index: nat, h: u32, k: K, value: V, distance: nat, placed: Option<nat>)
      returns (done: bool, h': u32, k': K, value': V, distance': nat, placed': Option<nat>)
      requires index < buckets.Length < U32_MODULUS
      requires var p := Probe(buckets[..], h, k, value, distance, placed);
        ProbeOk(p) && (Stops(p, index) && Finish(p, index, 0).grew ==> size as int + 1 < U32_MODULUS)
      modifies this`size, buckets
      ensures var p := Probe(old(buckets[..]), h, k, value, distance, placed);
        done == Stops(p, index) &&
        (done ==> placed' == placed && buckets[..] == Finish(p, index, 0).table &&
                  size as int == old(size) as int + (if Finish(p, index, 0).grew then 1 else 0)) &&
        (!done ==> Probe(buckets[..], h', k', value', distance', placed') == Advance(p, index) &&
                   size == old(size))
    {
      ghost var p := Probe(buckets[..], h, k, value, distance, placed);
      h', k', value', distance', placed' := h, k, value, distance, placed;
      var bucket := buckets[index];
      if bucket.hash == h && bucket.key == k {
        return true, h', k', value', distance', placed';
      }
      if bucket.hash == 0 {
        buckets[index] := Bucket(k, h, value);
        size := size + 1;
        return true, h', k', value', distance', placed';
      }
      var currentDistance := DistanceFromIndex(bucket.hash, index, buckets.Length);
      if currentDistance < distance {
        if IsTombstone(bucket) {
          buckets[index] := Bucket(k, h, bucket.value);
          size := size + 1;
          return true, h', k', value', distance', placed';
        }
        buckets[index] := Bucket(k, h, value);
        h', value', k' := bucket.hash, bucket.value, bucket.key;
        distance' := currentDistance;
        if placed.None? {
          placed' := Some(index);
        }
      }
      distance' := distance' + 1;
      done := false;
    }

    /** `map[key] = v`, writing into the bucket that holds `key`. */
    method Put(key: K, v: V)
      requires Valid() && (Lookup(buckets[..], key, hash).Some? || size as int < buckets.Length)
      modifies this, buckets
      ensures Valid() && buckets == old(buckets)
      ensures buckets[..] == PutTable(old(buckets[..]), key, hash, v, blank)
      ensures size as int == old(size) as int + (if Lookup(old(buckets[..]), key, hash).None? then 1 else 0)
    {
      ghost var t0 := buckets[..];
      var returned, keySlot := Access(key);
      buckets[keySlot] := buckets[keySlot].(value := v);
      assert buckets[..] == PutTable(t0, key, hash, v, blank);
      assert 1 <= hash(key) < TOMBSTONE_BIT;
      if Lookup(t0, key, hash).None? {
        BelowCapacityHasRoom(t0, old(size) as int);
      }
      PutStores(t0, hash, key, v, blank, key);
      SubscriptStores(t0, hash, key, blank);
    }
  }

  /** The bookkeeping operator[] relies on: the walk stops, keeps the invariant, and adds one
      pair exactly when `size`, the old count, is below the capacity and grows by one. */
  lemma SubscriptCounts<K, V>(t: seq<Bucket<K, V>>, hash: K -> u32, key: K, blank: V, size: nat)
    requires TableOk(t, hash) && 1 <= hash(key) < TOMBSTONE_BIT && size == |Entries(t)|
    requires Lookup(t, key, hash).Some? || size < |t|
    ensures var o := Subscript(t, key, hash(key), blank);
      o.steps < |t| && TableOk(o.table, hash) && (o.grew ==> size < |t|) &&
      |Entries(o.table)| == size + (if o.grew then 1 else 0)
  {
    if Lookup(t, key, hash).None? {
      BelowCapacityHasRoom(t, size);
    }
    SubscriptStores(t, hash, key, blank);
  }

  /** A step of the loop that returns ends the walk there. */
  lemma WalkEndsHere<K, V>(p: Probe<K, V>, base: nat, steps: nat, o: Outcome<K, V>)
    requires ProbeOk(p) && base < |p.table| && steps < |p.table|
    requires Walk(p, base, steps) == o && Stops(p, Pos(base, steps, |p.table|))
    ensures var i := Pos(base, steps, |p.table|);
      o.table == Finish(p, i, 0).table && o.grew == Finish(p, i, 0).grew && o.returned == i &&
      o.keySlot == (if p.placed.Some? then p.placed.value else i)
  {
    WalkFinish(p, base, steps);
  }

  /** A step of the loop that does not return continues towards the same outcome, one bucket
      further on. */
  lemma WalkContinues<K, V>(p: Probe<K, V>, base: nat, steps: nat, o: Outcome<K, V>)
    requires ProbeOk(p) && base < |p.table| && steps <= o.steps < |p.table|
    requires Walk(p, base, steps) == o && !Stops(p, Pos(base, steps, |p.table|))
    ensures var q := Advance(p, Pos(base, steps, |p.table|));
      steps + 1 <= o.steps && ProbeOk(q) && Walk(q, base, steps + 1) == o &&
      Pos(base, steps + 1, |p.table|) == (Pos(base, steps, |p.table|) + 1) % |p.table|
  {
    WalkStep(p, base, steps);
    PosSucc(base, steps, |p.table|);
  }

  /** With fewer entries than buckets and no tombstones, some bucket is empty. */
  lemma BelowCapacityHasRoom<K, V>(t: seq<Bucket<K, V>>, size: nat)
    requires NoTombstones(t) && size == |Entries(t)| && size < |t|
    ensures HasEmpty(t)
  {
    var j := EmptyBucketExists(t);
  }
}
