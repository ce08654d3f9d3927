/** The spatial bucket index (spatialGrid): a map from bucket key to the set of
    organisms registered there. A key is the pair of floor divisions of a
    position by the bucket size. */
module Spatial {
  import opened Types

  type Key = (int, int)
  type Index = map<Key, set<Id>>

  /** gridSize: the side of a bucket, in cells. */
  const BucketSize: int := 20

  /** The bucket holding position (c, r). */
  function BucketKey(c: int, r: int): Key {
    (c / BucketSize, r / BucketSize)
  }

  /** Dafny's division by a positive divisor rounds down, as Math.floor does on
      the quotient: the bucket of (c, r) is the square of side BucketSize
      holding it, also for negative positions. */
  lemma BucketKeyBounds(c: int, r: int)
    ensures var k := BucketKey(c, r);
      BucketSize * k.0 <= c < BucketSize * (k.0 + 1) && BucketSize * k.1 <= r < BucketSize * (k.1 + 1)
  {
  }

  /** The buckets of the nine cells the removal sweep visits, in its order:
      dc from -1 to 1 and, inside it, dr from -1 to 1. */
  function SweepCells(c: int, r: int): (s: seq<Key>)
    ensures |s| == 9
  {
    [BucketKey(c - 1, r - 1), BucketKey(c - 1, r), BucketKey(c - 1, r + 1),
     BucketKey(c, r - 1), BucketKey(c, r), BucketKey(c, r + 1),
     BucketKey(c + 1, r - 1), BucketKey(c + 1, r), BucketKey(c + 1, r + 1)]
  }

  /** The buckets listed in `cells`. */
  function KeySet(cells: seq<Key>): set<Key> {
    set k | k in cells
  }

  /** The buckets of the nine cells (c-1..c+1, r-1..r+1). */
  function SweepKeys(c: int, r: int): set<Key> {
    KeySet(SweepCells(c, r))
  }

  /** getNearbyOrganisms: the organisms registered in the bucket of (c, r), or
      none when that bucket was never created. */
  function Nearby(m: Index, c: int, r: int): set<Id> {
    var k := BucketKey(c, r);
    if k in m then m[k] else {}
  }

  /** updateSpatialGrid: create the bucket if needed, then add the organism. */
  function Insert(m: Index, o: Org): Index {
    var k := BucketKey(o.c, o.r);
    m[k := (if k in m then m[k] else {}) + {o.id}]
  }

  /** Registering an organism adds its bucket when missing, makes it findable
      from its own position, and touches no other bucket and no other entry. */
  lemma InsertFinds(m: Index, o: Org)
    ensures Insert(m, o).Keys == m.Keys + {BucketKey(o.c, o.r)}
    ensures o.id in Nearby(Insert(m, o), o.c, o.r)
    ensures forall k :: k in m && k != BucketKey(o.c, o.r) ==> Insert(m, o)[k] == m[k]
    ensures forall k :: k in m ==> m[k] <= Insert(m, o)[k] && Insert(m, o)[k] - m[k] <= {o.id}
  {
  }

  /** `id` deleted from the buckets in `ks` that exist; no bucket is created or
      dropped. */
  function Evict(m: Index, id: Id, ks: set<Key>): Index {
    map k | k in m :: if k in ks then m[k] - {id} else m[k]
  }

  /** The identities of the organisms of `gone` whose sweep reaches bucket `k`. */
  function SweptIds(gone: set<Org>, k: Key): set<Id> {
    set o | o in gone && k in SweepKeys(o.c, o.r) :: o.id
  }

  /** The index after the sweeps of every organism in `gone`. */
  function Purged(m: Index, gone: set<Org>): (m': Index)
    ensures m'.Keys == m.Keys
  {
    map k | k in m :: m[k] - SweptIds(gone, k)
  }

  /** The sweep always reaches the organism's own bucket, the one its insertion
      used. */
  lemma AnchorSwept(c: int, r: int)
    ensures BucketKey(c, r) in SweepKeys(c, r)
  {
    assert SweepCells(c, r)[4] == BucketKey(c, r);
  }

  /** Every bucket the sweep visits is the own bucket or next to it: the sweep
      never reaches further than one bucket in each direction. */
  lemma SweepNear(c: int, r: int)
    ensures forall k :: k in SweepKeys(c, r) ==>
      -1 <= k.0 - BucketKey(c, r).0 <= 1 && -1 <= k.1 - BucketKey(c, r).1 <= 1
  {
  }

  /** The cell (c + dc, r + dr) is visited at step 3 * (dc + 1) + (dr + 1). */
  lemma SweepCellAt(c: int, r: int, dc: int, dr: int)
    requires -1 <= dc <= 1 && -1 <= dr <= 1
    ensures SweepCells(c, r)[3 * (dc + 1) + dr + 1] == BucketKey(c + dc, r + dr)
  {
    if dc == -1 {
      if dr == -1 {} else if dr == 0 {} else {}
    } else if dc == 0 {
      if dr == -1 {} else if dr == 0 {} else {}
    } else {
      if dr == -1 {} else if dr == 0 {} else {}
    }
  }

  /** `id` deleted, in order, from those of the first n buckets of `cells`
      that exist. */
  function EvictPrefix(m: Index, id: Id, cells: seq<Key>, n: nat): Index
    requires n <= |cells|
    decreases n
  {
    if n == 0 then m
    else
      var e := EvictPrefix(m, id, cells, n - 1);
      var key := cells[n - 1];
      if key in e then e[key := e[key] - {id}] else e
  }

  /** Deleting `id` bucket by bucket along `cells` is deleting it at once
      from every existing bucket among them. */
  lemma {:induction false} EvictPrefixIsEvict(m: Index, id: Id, cells: seq<Key>, n: nat)
    requires n <= |cells|
    ensures EvictPrefix(m, id, cells, n) == Evict(m, id, KeySet(cells[..n]))
  {
    if n == 0 {
      assert KeySet(cells[..0]) == {};
      EvictNothing(m, id);
    } else {
      EvictPrefixIsEvict(m, id, cells, n - 1);
      assert cells[..n] == cells[..n - 1] + [cells[n - 1]];
      assert KeySet(cells[..n]) == KeySet(cells[..n - 1]) + {cells[n - 1]};
      EvictStep(m, id, KeySet(cells[..n - 1]), cells[n - 1]);
    }
  }

  /** One step of the sweep from (c, r), at offset (dc, dr): deleting `id`
      from the bucket of that cell, when the bucket exists, carries the
      deletion one cell further along the sweep. */
  lemma SweepStepAt(m0: Index, id: Id, c: int, r: int, dc: int, dr: int, n: nat, m: Index)
    requires -1 <= dc <= 1 && -1 <= dr <= 1 && n == 3 * (dc + 1) + dr + 1
    requires m == EvictPrefix(m0, id, SweepCells(c, r), n)
    ensures var key := BucketKey(c + dc, r + dr);
      (if key in m then m[key := m[key] - {id}] else m) == EvictPrefix(m0, id, SweepCells(c, r), n + 1)
  {
    SweepCellAt(c, r, dc, dr);
  }

  /** The whole sweep deletes `id` from every existing bucket it visits. */
  lemma SweepComplete(m0: Index, id: Id, c: int, r: int)
    ensures EvictPrefix(m0, id, SweepCells(c, r), 9) == Evict(m0, id, SweepKeys(c, r))
  {
    EvictPrefixIsEvict(m0, id, SweepCells(c, r), 9);
    assert SweepCells(c, r)[..9] == SweepCells(c, r);
  }

  /** The bucket cleanup of removeOrganisms: deletes the organism from the
      buckets of the nine cells (c-1..c+1, r-1..r+1) that exist, creating and
      dropping none. */
  method SweepBuckets(m0: Index, o: Org) returns (m: Index)
    ensures m == Evict(m0, o.id, SweepKeys(o.c, o.r))
  {
    ghost var n := 0;
    m := m0;
    for dc := -1 to 2
      invariant n == 3 * (dc + 1)
      invariant m == EvictPrefix(m0, o.id, SweepCells(o.c, o.r), n)
    {
      for dr := -1 to 2
        invariant n == 3 * (dc + 1) + dr + 1
        invariant m == EvictPrefix(m0, o.id, SweepCells(o.c, o.r), n)
      {
        var key := BucketKey(o.c + dc, o.r + dr);
        SweepStepAt(m0, o.id, o.c, o.r, dc, dr, n, m);
        if key in m {
          m := m[key := m[key] - {o.id}];
        }
        n := n + 1;
      }
    }
    SweepComplete(m0, o.id, o.c, o.r);
  }

  /** One more sweep extends the purge by that organism. */
  lemma EvictExtendsPurge(m: Index, gone: set<Org>, o: Org)
    ensures Evict(Purged(m, gone), o.id, SweepKeys(o.c, o.r)) == Purged(m, gone + {o})
  {
    var left := Evict(Purged(m, gone), o.id, SweepKeys(o.c, o.r));
    var right := Purged(m, gone + {o});
    forall k | k in m ensures left[k] == right[k] {
      var s := SweptIds(gone + {o}, k);
      if k in SweepKeys(o.c, o.r) {
        assert s == SweptIds(gone, k) + {o.id};
      } else {
        assert s == SweptIds(gone, k);
      }
    }
  }

  /** Nothing to sweep leaves the index as it was. */
  lemma PurgeNothing(m: Index)
    ensures Purged(m, {}) == m
  {
    forall k | k in m ensures Purged(m, {})[k] == m[k] {
      assert SweptIds({}, k) == {};
    }
  }

  /** An organism registered only in its own bucket is in no bucket once it
      has been swept, provided it has not moved since it was registered. */
  lemma PurgedLeavesNoTrace(m: Index, gone: set<Org>, o: Org)
    requires o in gone
    requires forall k :: k in m && o.id in m[k] ==> k == BucketKey(o.c, o.r)
    ensures forall k :: k in Purged(m, gone) ==> o.id !in Purged(m, gone)[k]
  {
    AnchorSwept(o.c, o.r);
    forall k | k in m && o.id in m[k] ensures o.id in SweptIds(gone, k) {
    }
  }

  /** Sweeps never add to a bucket. */
  lemma PurgeShrinks(m: Index, gone: set<Org>)
    ensures forall k :: k in m ==> Purged(m, gone)[k] <= m[k]
  {
  }

  /** An organism that moved after it was registered keeps a stale entry:
      when the sweep from its current position misses the bucket it was
      registered in, that bucket still holds its identity after the sweep.
      Removal tolerates this silently. */
  lemma StaleEntryAfterMove(m: Index, registered: Org, moved: Org)
    requires moved.id == registered.id
    requires BucketKey(registered.c, registered.r) !in SweepKeys(moved.c, moved.r)
    ensures var a := BucketKey(registered.c, registered.r);
      var swept := Purged(Insert(m, registered), {moved});
      a in swept && registered.id in swept[a]
  {
    assert SweptIds({moved}, BucketKey(registered.c, registered.r)) == {};
  }

  /** Such a move exists: from (19, 0), in bucket (0, 0), to (21, 0), whose
      sweep covers only buckets (1, -1) to (1, 0). */
  lemma StaleEntryExample()
    ensures BucketKey(19, 0) == (0, 0) && BucketKey(19, 0) !in SweepKeys(21, 0)
  {
    SweepNear(21, 0);
    assert BucketKey(21, 0) == (1, 0);
  }

  /** Deleting from one more bucket extends the eviction by that key. */
  lemma EvictStep(m: Index, id: Id, ks: set<Key>, k: Key)
    ensures var e := Evict(m, id, ks);
      (if k in e then e[k := e[k] - {id}] else e) == Evict(m, id, ks + {k})
  {
    var e := Evict(m, id, ks);
    var left := if k in e then e[k := e[k] - {id}] else e;
    var right := Evict(m, id, ks + {k});
    assert left.Keys == right.Keys;
    forall x | x in left ensures left[x] == right[x] {
    }
  }

  lemma EvictNothing(m: Index, id: Id)
    ensures Evict(m, id, {}) == m
  {
  }

  /** Two rounds of sweeps are the sweeps of both sets of organisms. */
  lemma PurgeUnion(m: Index, a: set<Org>, b: set<Org>)
    ensures Purged(Purged(m, a), b) == Purged(m, a + b)
  {
    forall k | k in m ensures Purged(Purged(m, a), b)[k] == Purged(m, a + b)[k] {
      assert SweptIds(a + b, k) == SweptIds(a, k) + SweptIds(b, k);
    }
  }

  /** Bucket `k` exists and holds `id`. */
  predicate InBucket(m: Index, k: Key, id: Id) {
    k in m && id in m[k]
  }

  /** The organism is registered in the bucket of its anchor and in no other
      bucket. */
  ghost predicate RegisteredAtAnchor(m: Index, o: Org) {
    && InBucket(m, BucketKey(o.c, o.r), o.id)
    && forall k {:trigger InBucket(m, k, o.id)} :: InBucket(m, k, o.id) ==> k == BucketKey(o.c, o.r)
  }

  /** Every organism of `orgs` is registered at its anchor and nowhere else. */
  ghost predicate SoundIndex(orgs: seq<Org>, m: Index) {
    forall i {:trigger RegisteredAtAnchor(m, orgs[i])} :: 0 <= i < |orgs| ==> RegisteredAtAnchor(m, orgs[i])
  }

  /** No bucket holds `id`. */
  ghost predicate Unregistered(m: Index, id: Id) {
    forall k {:trigger InBucket(m, k, id)} :: !InBucket(m, k, id)
  }

  /** Registering an organism whose identity is in no bucket keeps every
      registered organism at its anchor only, adds the new one at its anchor
      only, and leaves any other identity that was in no bucket in none. */
  lemma InsertSound(orgs: seq<Org>, m: Index, o: Org)
    requires SoundIndex(orgs, m) && Unregistered(m, o.id)
    ensures SoundIndex(orgs + [o], Insert(m, o))
    ensures forall id :: id != o.id && Unregistered(m, id) ==> Unregistered(Insert(m, o), id)
  {
    var m' := Insert(m, o);
    var a := BucketKey(o.c, o.r);
    forall k, id ensures InBucket(m', k, id) <==> InBucket(m, k, id) || (k == a && id == o.id) {
    }
    forall i | 0 <= i < |orgs + [o]| ensures RegisteredAtAnchor(m', (orgs + [o])[i]) {
      if i < |orgs| {
        var p := orgs[i];
        assert RegisteredAtAnchor(m, orgs[i]);
        assert !InBucket(m, BucketKey(p.c, p.r), o.id);
        forall k | InBucket(m', k, p.id) ensures k == BucketKey(p.c, p.r) {
          assert InBucket(m, k, p.id);
        }
      } else {
        forall k | InBucket(m', k, o.id) ensures k == a {
          assert !InBucket(m, k, o.id);
        }
      }
    }
    forall id | id != o.id && Unregistered(m, id) ensures Unregistered(m', id) {
      forall k ensures !InBucket(m', k, id) {
        assert !InBucket(m, k, id);
      }
    }
  }

  /** After the sweeps of the organisms in `gone`, an identity that was in no
      bucket is still in none. */
  lemma PurgeKeepsUnregistered(m: Index, gone: set<Org>, id: Id)
    requires Unregistered(m, id)
    ensures Unregistered(Purged(m, gone), id)
  {
    forall k ensures !InBucket(Purged(m, gone), k, id) {
      assert !InBucket(m, k, id);
    }
  }

  /** The index after registering each organism of `orgs`, in order. */
  function InsertAll(m: Index, orgs: seq<Org>): Index {
    if orgs == [] then m else Insert(InsertAll(m, orgs[..|orgs| - 1]), orgs[|orgs| - 1])
  }

  /** After registering organisms, each can be found from its own position. */
  lemma {:induction false} InsertAllFinds(m: Index, orgs: seq<Org>)
    ensures forall k :: 0 <= k < |orgs| ==> orgs[k].id in Nearby(InsertAll(m, orgs), orgs[k].c, orgs[k].r)
  {
    if orgs != [] {
      var p := orgs[..|orgs| - 1];
      InsertAllFinds(m, p);
      forall k | 0 <= k < |orgs| ensures orgs[k].id in Nearby(InsertAll(m, orgs), orgs[k].c, orgs[k].r) {
        if k < |p| { assert orgs[k] == p[k]; }
      }
    }
  }
}
