/** WorldEnvironment: the organism registry with its cached aggregates, the
    spatial bucket index, the cell grid, the tick loop, food spawning, reset and
    the species-resolution part of restoring a saved world. */
module World {
  import opened Types
  import opened Registry
  import opened Spatial
  import opened Food
  import opened Restore

  /** The species FossilRecord.addSpecies registers for the seed organism. */
  function OriginSpecies(g: Genesis, ticks: int): Species {
    Species(g.speciesName, Some(OriginAnatomy), ticks)
  }

  /** A saved organism rebuilt with a fresh identity; a new Organism is living. */
  function Restored(o: OrgRaw, id: Id): Org {
    Org(id, o.col, o.row, o.mutability, true, o.anatomy, o.speciesName)
  }

  /** The saved organisms rebuilt in order, the k-th with identity ids[k]. */
  function RestoredAll(raws: seq<OrgRaw>, ids: seq<Id>): seq<Org>
    requires |ids| == |raws|
  {
    if raws == [] then []
    else RestoredAll(raws[..|raws| - 1], ids[..|ids| - 1]) + [Restored(raws[|raws| - 1], ids[|ids| - 1])]
  }

  /** The restored population holds, position by position, each saved
      organism rebuilt alive with its own identity. */
  lemma {:induction false} RestoredAllAt(raws: seq<OrgRaw>, ids: seq<Id>)
    requires |ids| == |raws|
    ensures |RestoredAll(raws, ids)| == |raws|
    ensures forall k :: 0 <= k < |raws| ==> RestoredAll(raws, ids)[k] == Restored(raws[k], ids[k])
    ensures forall k :: 0 <= k < |raws| ==> RestoredAll(raws, ids)[k].living
  {
    if raws != [] {
      var n := |raws| - 1;
      RestoredAllAt(raws[..n], ids[..n]);
    }
  }

  /** Restoring one more saved organism extends every running aggregate by
      that organism and links it into the species table. */
  lemma RestoreOneMore(raws: seq<OrgRaw>, ids: seq<Id>, k: nat, table: map<string, Species>, ticks: int,
                       total: real, largest: nat, index: Index)
    requires |ids| == |raws| && k < |raws|
    ensures var q := RestoredAll(raws[..k], ids[..k]);
      var o := Restored(raws[k], ids[k]);
      && RestoredAll(raws[..k + 1], ids[..k + 1]) == q + [o]
      && total + SumMut(q) + o.mutability == total + SumMut(q + [o])
      && Max(LargestOf(largest, q), o.CellCount()) == LargestOf(largest, q + [o])
      && Insert(InsertAll(index, q), o) == InsertAll(index, q + [o])
      && Resolve(ResolveAll(table, raws[..k], ticks), raws[k], ticks) == ResolveAll(table, raws[..k + 1], ticks)
  {
    var q := RestoredAll(raws[..k], ids[..k]);
    var o := Restored(raws[k], ids[k]);
    assert raws[..k + 1][..k] == raws[..k] && ids[..k + 1][..k] == ids[..k];
    assert (q + [o])[..|q + [o]| - 1] == q;
  }

  /** The largest cell count among `largest` and the organisms of `orgs`. */
  function LargestOf(largest: nat, orgs: seq<Org>): nat {
    if orgs == [] then largest
    else Max(LargestOf(largest, orgs[..|orgs| - 1]), orgs[|orgs| - 1].CellCount())
  }

  /** The running maximum bounds the starting value and every organism's cell
      count, and is one of them. */
  lemma {:induction false} LargestOfBounds(largest: nat, orgs: seq<Org>)
    ensures LargestOf(largest, orgs) >= largest
    ensures forall i :: 0 <= i < |orgs| ==> orgs[i].CellCount() <= LargestOf(largest, orgs)
    ensures LargestOf(largest, orgs) == largest || exists i :: 0 <= i < |orgs| && orgs[i].CellCount() == LargestOf(largest, orgs)
  {
    if orgs != [] {
      var p := orgs[..|orgs| - 1];
      LargestOfBounds(largest, p);
      if LargestOf(largest, orgs) != largest && LargestOf(largest, orgs) != orgs[|orgs| - 1].CellCount() {
        var i :| 0 <= i < |p| && p[i].CellCount() == LargestOf(largest, p);
        assert orgs[i] == p[i];
      }
    }
  }

  /** What removeOrganisms reports: an extinction only when it empties a
      population that was not empty, handled by pausing, else by resetting, else
      not at all. */
  function ExtinctionOf(s: seq<Org>, gone: set<nat>, cfg: Config): (e: Extinction)
    ensures e != NoExtinction <==> |s| > 0 && Without(s, gone) == []
    ensures e == AutoReset <==> e != NoExtinction && !cfg.autoPause && cfg.autoReset
  {
    if |s| > 0 && Without(s, gone) == [] then
      if cfg.autoPause then Paused else if cfg.autoReset then AutoReset else Unhandled
    else NoExtinction
  }

  /** The bookkeeping of a world as a value: population, bucket index,
      mutability total, largest cell count, reset count and fossil record. */
  datatype Ledger = Ledger(orgs: seq<Org>, index: Index, total: real, largest: nat, resets: nat,
                           record: seq<Species>)

  /** The bookkeeping removeOrganisms leaves, from `before`, after removing
      the organisms at the positions `gone`: the survivors in their order, the
      index swept of the removed ones, the mutability total lowered by what
      they carried and clamped at zero, and the other counts as they were;
      unless the removal emptied the population under the auto-reset policy,
      in which case the reset has run and seeded life again and the reset
      count is one higher. */
  function RemovalLedger(before: Ledger, gone: set<nat>, cfg: Config, g: Genesis): (after: Ledger)
    ensures ExtinctionOf(before.orgs, gone, cfg) != AutoReset ==>
      after.total >= 0.0 && |after.orgs| <= |before.orgs|
  {
    var swept := Purged(before.index, OrgsAt(before.orgs, gone));
    if ExtinctionOf(before.orgs, gone, cfg) == AutoReset then
      Ledger([GenesisOrg(g)], Insert(swept, GenesisOrg(g)), g.mutability, Max(before.largest, 3), before.resets + 1,
             [OriginSpecies(g, 0)])
    else
      Ledger(Without(before.orgs, gone), swept, Clamp(before.total - SumAt(before.orgs, gone)), before.largest,
             before.resets, before.record)
  }

  /** Two ledgers that agree on everything but the mutability total. */
  predicate SameButTotal(a: Ledger, b: Ledger) {
    a.(total := 0.0) == b.(total := 0.0)
  }

  /** Removing position `i` after the positions `gone` (all above it) empties
      the population exactly when removing `gone + {i}` at once does, and then
      `i` is position 0. */
  lemma RemovedExtinction(s: seq<Org>, gone: set<nat>, i: nat, cfg: Config)
    requires i < |s| && i !in gone && forall j :: j in gone ==> j > i
    ensures ExtinctionOf(Without(s, gone), {i}, cfg) == ExtinctionOf(s, gone + {i}, cfg)
    ensures ExtinctionOf(Without(s, gone), {i}, cfg) != NoExtinction ==> i == 0
  {
    RemoveOneMore(s, gone, i);
    if Without(s, gone + {i}) == [] {
      WithoutLength(s, gone + {i});
      assert 0 in gone + {i};
    }
  }

  /** Two removals that leave the same survivors, the same swept index and
      the same counts leave the same bookkeeping, but for the total. */
  lemma SameRemoval(a: Ledger, ga: set<nat>, b: Ledger, gb: set<nat>, cfg: Config, g: Genesis)
    requires ExtinctionOf(a.orgs, ga, cfg) == ExtinctionOf(b.orgs, gb, cfg)
    requires Without(a.orgs, ga) == Without(b.orgs, gb)
    requires Purged(a.index, OrgsAt(a.orgs, ga)) == Purged(b.index, OrgsAt(b.orgs, gb))
    requires a.largest == b.largest && a.resets == b.resets && a.record == b.record
    ensures SameButTotal(RemovalLedger(a, ga, cfg, g), RemovalLedger(b, gb, cfg, g))
  {
  }

  /** Removing position `i` after the positions `gone` (all above it) leaves
      the bookkeeping removing `gone + {i}` at once leaves, but for the total. */
  lemma RemovedStep(before: Ledger, gone: set<nat>, i: nat, cfg: Config, g: Genesis, mid: Ledger)
    requires i < |before.orgs| && i !in gone && forall j :: j in gone ==> j > i
    requires mid.orgs == Without(before.orgs, gone)
    requires mid.index == Purged(before.index, OrgsAt(before.orgs, gone))
    requires mid.largest == before.largest && mid.resets == before.resets && mid.record == before.record
    ensures SameButTotal(RemovalLedger(mid, {i}, cfg, g), RemovalLedger(before, gone + {i}, cfg, g))
  {
    var s := before.orgs;
    RemoveOneMore(s, gone, i);
    RemovedExtinction(s, gone, i, cfg);
    var swept := Purged(before.index, OrgsAt(s, gone + {i}));
    assert Purged(mid.index, OrgsAt(mid.orgs, {i})) == swept by {
      PurgeUnion(before.index, OrgsAt(s, gone), {s[i]});
    }
    SameRemoval(mid, {i}, before, gone + {i}, cfg, g);
  }

  /** For a consistent population (whose mutabilities are not negative),
      clamping the total at each removal is clamping it once. */
  lemma RemovedStepTotal(before: Ledger, gone: set<nat>, i: nat, cfg: Config, g: Genesis, mid: Ledger)
    requires i < |before.orgs| && i !in gone && forall j :: j in gone ==> j > i
    requires mid.orgs == Without(before.orgs, gone)
    requires Consistent(before.orgs, before.total, before.largest)
    requires mid.total == Clamp(before.total - SumAt(before.orgs, gone))
    ensures RemovalLedger(mid, {i}, cfg, g).total == RemovalLedger(before, gone + {i}, cfg, g).total
  {
    var s := before.orgs;
    RemoveOneMore(s, gone, i);
    ClampStep(before.total - SumAt(s, gone), s[i].mutability);
  }

  /** Where update's loop stands once it has handled the positions from `lo`
      up, starting from `start`: the positions it removed are
      DeadFrom(start.orgs, outcomes, lo), and the bookkeeping `now` is what
      removeOrganisms leaves after removing them, the mutability total
      included when the starting population is consistent. */
  ghost predicate Ticked(start: Ledger, outcomes: seq<bool>, lo: nat, cfg: Config, g: Genesis, ext: Extinction, now: Ledger)
    requires |outcomes| == |start.orgs|
  {
    var gone := DeadFrom(start.orgs, outcomes, lo);
    && ext == ExtinctionOf(start.orgs, gone, cfg)
    && SameButTotal(now, RemovalLedger(start, gone, cfg, g))
    && (Consistent(start.orgs, start.total, start.largest) ==> now.total == RemovalLedger(start, gone, cfg, g).total)
    && (ext != NoExtinction ==> lo == 0)
  }

  /** While update's loop has caused no extinction, its bookkeeping is the
      removal's without any reset: the survivors, the swept index, the clamped
      total and the unchanged counts. */
  lemma TickedParts(start: Ledger, outcomes: seq<bool>, lo: nat, cfg: Config, g: Genesis, now: Ledger)
    requires |outcomes| == |start.orgs|
    requires Ticked(start, outcomes, lo, cfg, g, NoExtinction, now)
    ensures var gone := DeadFrom(start.orgs, outcomes, lo);
      && now.orgs == Without(start.orgs, gone)
      && now.index == Purged(start.index, OrgsAt(start.orgs, gone))
      && now.largest == start.largest && now.resets == start.resets && now.record == start.record
      && (Consistent(start.orgs, start.total, start.largest) ==> now.total == Clamp(start.total - SumAt(start.orgs, gone)))
  {
    var gone := DeadFrom(start.orgs, outcomes, lo);
    assert RemovalLedger(start, gone, cfg, g)
        == Ledger(Without(start.orgs, gone), Purged(start.index, OrgsAt(start.orgs, gone)),
                  Clamp(start.total - SumAt(start.orgs, gone)), start.largest, start.resets, start.record);
  }

  /** While update's loop has removed nothing below position `i + 1`, the
      organism at position i is still there. */
  lemma TickedAt(start: Ledger, outcomes: seq<bool>, i: nat, cfg: Config, g: Genesis, now: Ledger)
    requires |outcomes| == |start.orgs| && i < |start.orgs|
    requires Ticked(start, outcomes, i + 1, cfg, g, NoExtinction, now)
    ensures i < |now.orgs| && now.orgs[i] == start.orgs[i]
  {
    RemoveOneMore(start.orgs, DeadFrom(start.orgs, outcomes, i + 1), i);
  }

  /** The removal of position `i` on top of the removals `before` (all above
      it) is the removal of their union `all` from the start. */
  lemma RemovedOnTop(start: Ledger, before: set<nat>, i: nat, all: set<nat>, cfg: Config, g: Genesis, mid: Ledger,
                     ext: Extinction, after: Ledger)
    requires i < |start.orgs| && i !in before && forall j :: j in before ==> j > i
    requires all == before + {i}
    requires mid.orgs == Without(start.orgs, before)
    requires mid.index == Purged(start.index, OrgsAt(start.orgs, before))
    requires mid.largest == start.largest && mid.resets == start.resets && mid.record == start.record
    requires Consistent(start.orgs, start.total, start.largest) ==>
      mid.total == Clamp(start.total - SumAt(start.orgs, before))
    requires ext == ExtinctionOf(mid.orgs, {i}, cfg) && after == RemovalLedger(mid, {i}, cfg, g)
    ensures ext == ExtinctionOf(start.orgs, all, cfg)
    ensures SameButTotal(after, RemovalLedger(start, all, cfg, g))
    ensures Consistent(start.orgs, start.total, start.largest) ==>
      after.total == RemovalLedger(start, all, cfg, g).total
    ensures ext != NoExtinction ==> i == 0
  {
    RemovedExtinction(start.orgs, before, i, cfg);
    RemovedStep(start, before, i, cfg, g, mid);
    if Consistent(start.orgs, start.total, start.largest) {
      RemovedStepTotal(start, before, i, cfg, g, mid);
    }
  }

  /** Removing the organism at position `i` (not living, or reported dead by
      its update()) moves update's loop from position i + 1 to position i. */
  lemma TickedRemoval(start: Ledger, outcomes: seq<bool>, i: nat, cfg: Config, g: Genesis, mid: Ledger,
                      ext: Extinction, after: Ledger)
    requires |outcomes| == |start.orgs| && i < |start.orgs|
    requires !start.orgs[i].living || !outcomes[i]
    requires Ticked(start, outcomes, i + 1, cfg, g, NoExtinction, mid)
    requires ext == ExtinctionOf(mid.orgs, {i}, cfg) && after == RemovalLedger(mid, {i}, cfg, g)
    ensures Ticked(start, outcomes, i, cfg, g, ext, after)
  {
    var before := DeadFrom(start.orgs, outcomes, i + 1);
    var gone := DeadFrom(start.orgs, outcomes, i);
    assert gone == before + {i};
    TickedParts(start, outcomes, i + 1, cfg, g, mid);
    RemovedOnTop(start, before, i, gone, cfg, g, mid, ext, after);
  }

  /** Keeping the organism at position `i` moves update's loop from position
      i + 1 to position i without changing anything. */
  lemma TickedKeep(start: Ledger, outcomes: seq<bool>, i: nat, cfg: Config, g: Genesis, now: Ledger)
    requires |outcomes| == |start.orgs| && i < |start.orgs|
    requires start.orgs[i].living && outcomes[i]
    requires Ticked(start, outcomes, i + 1, cfg, g, NoExtinction, now)
    ensures Ticked(start, outcomes, i, cfg, g, NoExtinction, now)
  {
    assert DeadFrom(start.orgs, outcomes, i) == DeadFrom(start.orgs, outcomes, i + 1);
  }

  /** With distinct identities, removal by position keeps the index sound:
      each survivor stays registered at its anchor only, and a removed
      organism that has not moved since it was registered is in no bucket. */
  lemma PurgeSound(s: seq<Org>, m: Index, gone: set<nat>)
    requires DistinctIds(s) && SoundIndex(s, m)
    ensures SoundIndex(Without(s, gone), Purged(m, OrgsAt(s, gone)))
    ensures forall j :: j in gone && j < |s| ==> Unregistered(Purged(m, OrgsAt(s, gone)), s[j].id)
  {
    var removed := OrgsAt(s, gone);
    var p := Purged(m, removed);
    forall j | j in gone && j < |s| ensures Unregistered(p, s[j].id) {
      var o := s[j];
      assert RegisteredAtAnchor(m, s[j]);
      forall k | k in m && o.id in m[k] ensures k == BucketKey(o.c, o.r) {
        assert InBucket(m, k, o.id);
      }
      assert o in removed;
      PurgedLeavesNoTrace(m, removed, o);
      forall k ensures !InBucket(p, k, o.id) {
      }
    }
    var w := Without(s, gone);
    WithoutMembers(s, gone);
    forall i | 0 <= i < |w| ensures RegisteredAtAnchor(p, w[i]) {
      assert w[i] in w;
      var j :| 0 <= j < |s| && j !in gone && s[j] == w[i];
      var o := s[j];
      assert RegisteredAtAnchor(m, s[j]);
      forall q | q in removed ensures q.id != o.id {
        var j' :| j' in gone && j' < |s| && s[j'] == q;
      }
      forall k ensures InBucket(p, k, o.id) <==> InBucket(m, k, o.id) {
        if k in m {
          assert o.id !in SweptIds(removed, k);
        }
      }
      forall k | InBucket(p, k, o.id) ensures k == BucketKey(o.c, o.r) {
        assert InBucket(m, k, o.id);
      }
    }
  }

  /** removeOrganisms keeps the index sound, given distinct identities and a
      seed identity (for an auto-reset) that is in no bucket; every removed
      organism that has not moved is in no bucket afterwards. */
  lemma RemovalSound(before: Ledger, gone: set<nat>, cfg: Config, g: Genesis)
    requires DistinctIds(before.orgs) && SoundIndex(before.orgs, before.index) && Unregistered(before.index, g.id)
    ensures SoundIndex(RemovalLedger(before, gone, cfg, g).orgs, RemovalLedger(before, gone, cfg, g).index)
    ensures forall j :: j in gone && j < |before.orgs| ==>
      Unregistered(RemovalLedger(before, gone, cfg, g).index, before.orgs[j].id)
  {
    var s := before.orgs;
    var swept := Purged(before.index, OrgsAt(s, gone));
    PurgeSound(s, before.index, gone);
    if ExtinctionOf(s, gone, cfg) == AutoReset {
      PurgeKeepsUnregistered(before.index, OrgsAt(s, gone), g.id);
      InsertSound([], swept, GenesisOrg(g));
      assert [] + [GenesisOrg(g)] == [GenesisOrg(g)];
      forall j | j in gone && j < |s| ensures s[j].id != g.id {
        assert RegisteredAtAnchor(before.index, s[j]);
        assert !InBucket(before.index, BucketKey(s[j].c, s[j].r), g.id);
      }
    }
  }

  /** After update's loop, the index is sound and every organism the loop
      removed is in no bucket, under the premises of RemovalSound. */
  lemma TickedSound(start: Ledger, outcomes: seq<bool>, cfg: Config, g: Genesis, ext: Extinction, now: Ledger)
    requires |outcomes| == |start.orgs|
    requires Ticked(start, outcomes, 0, cfg, g, ext, now)
    requires DistinctIds(start.orgs) && SoundIndex(start.orgs, start.index) && Unregistered(start.index, g.id)
    ensures SoundIndex(now.orgs, now.index)
    ensures forall j :: 0 <= j < |start.orgs| && (!start.orgs[j].living || !outcomes[j]) ==>
      Unregistered(now.index, start.orgs[j].id)
  {
    var gone := DeadFrom(start.orgs, outcomes, 0);
    RemovalSound(start, gone, cfg, g);
    var r := RemovalLedger(start, gone, cfg, g);
    assert now.orgs == r.orgs && now.index == r.index by {
      assert now.(total := 0.0) == r.(total := 0.0);
    }
    forall j | 0 <= j < |start.orgs| && (!start.orgs[j].living || !outcomes[j])
      ensures Unregistered(now.index, start.orgs[j].id)
    {
      assert j in gone;
    }
  }

  /** Before update's loop has visited any position, nothing is removed. */
  lemma TickedStart(start: Ledger, outcomes: seq<bool>, cfg: Config, g: Genesis)
    requires |outcomes| == |start.orgs|
    ensures Ticked(start, outcomes, |start.orgs|, cfg, g, NoExtinction, start)
  {
    assert DeadFrom(start.orgs, outcomes, |start.orgs|) == {};
    EmptyRemoval(start.orgs);
    PurgeNothing(start.index);
    if Consistent(start.orgs, start.total, start.largest) {
      SumNonNegative(start.orgs);
    }
  }

  /** One splice of removeOrganisms: taking out position `i`, below every
      position already taken out, removes the organism that was at i in the
      original population, adds its mutability, and sweeps it from the index. */
  lemma SpliceStep(pop: seq<Org>, index: Index, done: set<nat>, i: nat)
    requires i < |pop| && i !in done && forall j :: j in done ==> j > i
    ensures |Without(pop, done)| > i && Without(pop, done)[i] == pop[i]
    ensures Without(pop, done + {i}) == Without(pop, done)[..i] + Without(pop, done)[i + 1..]
    ensures SumAt(pop, done + {i}) == SumAt(pop, done) + pop[i].mutability
    ensures Purged(index, OrgsAt(pop, done + {i}))
         == Evict(Purged(index, OrgsAt(pop, done)), pop[i].id, SweepKeys(pop[i].c, pop[i].r))
  {
    SpliceBelow(pop, done, i);
    SumAtInsert(pop, done, i);
    OrgsAtInsert(pop, done, i);
    EvictExtendsPurge(index, OrgsAt(pop, done), pop[i]);
  }

  /** removeOrganisms as a whole: the splice leaves `spliced`, and the
      population check then pauses, resets or does nothing. */
  lemma CheckedRemoval(before: Ledger, gone: set<nat>, cfg: Config, g: Genesis, spliced: Ledger, ext: Extinction,
                       after: Ledger)
    requires spliced == Ledger(Without(before.orgs, gone), Purged(before.index, OrgsAt(before.orgs, gone)),
                               Clamp(before.total - SumAt(before.orgs, gone)), before.largest, before.resets,
                               before.record)
    requires ext == (if |spliced.orgs| == 0 && |before.orgs| > 0 then
                       (if cfg.autoPause then Paused else if cfg.autoReset then AutoReset else Unhandled)
                     else NoExtinction)
    requires ext != AutoReset ==> after == spliced
    requires ext == AutoReset ==>
      after == Ledger([GenesisOrg(g)], Insert(spliced.index, GenesisOrg(g)), g.mutability,
                      Max(spliced.largest, 3), spliced.resets + 1, [OriginSpecies(g, 0)])
    ensures ext == ExtinctionOf(before.orgs, gone, cfg)
    ensures after == RemovalLedger(before, gone, cfg, g)
  {
  }

  /** The positions of the organisms of `s` that are no longer living. */
  function DeadSet(s: seq<Org>): set<nat> {
    set j: nat | j < |s| && !s[j].living
  }

  /** Removing the organisms that are no longer living leaves only living
      ones. */
  lemma SurvivorsLiving(s: seq<Org>)
    ensures forall k :: 0 <= k < |Without(s, DeadSet(s))| ==> Without(s, DeadSet(s))[k].living
  {
    var w := Without(s, DeadSet(s));
    WithoutMembers(s, DeadSet(s));
    forall k | 0 <= k < |w| ensures w[k].living {
      assert w[k] in w;
    }
  }

  /** When every listed position is out of the index and the list holds
      exactly the positions of the organisms that are not living, every such
      organism is out of the index. */
  lemma DeadUnregistered(pop: seq<Org>, listed: seq<nat>, m: Index)
    requires Positions(listed) == DeadSet(pop)
    requires forall k :: 0 <= k < |listed| ==> listed[k] < |pop| && Unregistered(m, pop[listed[k]].id)
    ensures forall j :: 0 <= j < |pop| && !pop[j].living ==> Unregistered(m, pop[j].id)
  {
    forall j | 0 <= j < |pop| && !pop[j].living ensures Unregistered(m, pop[j].id) {
      assert j in DeadSet(pop);
      var k :| 0 <= k < |listed| && listed[k] == j;
    }
  }

  class WorldEnvironment {
    var organisms: seq<Org>
    var walls: seq<(int, int)>
    var totalMutability: real
    var largestCellCount: nat
    var resetCount: nat
    var totalTicks: int
    var dataUpdateRate: int
    var spatialGrid: Index
    /** The species handed to FossilRecord since its record was last cleared. */
    var fossil: seq<Species>
    /** The cells of grid_map, indexed [column, row]. */
    const grid: array2<CellState>

    ghost predicate Valid()
      reads this
    {
      Consistent(organisms, totalMutability, largestCellCount)
    }

    /** The bucket index holds every organism at its anchor bucket and in
        no other bucket. */
    ghost predicate IndexSound()
      reads this
    {
      SoundIndex(organisms, spatialGrid)
    }

    /** The bookkeeping fields as a value. */
    function Books(): (l: Ledger)
      reads this
    {
      Ledger(organisms, spatialGrid, totalMutability, largestCellCount, resetCount, fossil)
    }

    constructor (cols: nat, rows: nat)
      ensures Valid() && fresh(grid)
      ensures grid.Length0 == cols && grid.Length1 == rows
      ensures forall c, r :: 0 <= c < cols && 0 <= r < rows ==> grid[c, r] == Empty
      ensures organisms == [] && walls == [] && spatialGrid == map[] && fossil == []
      ensures totalMutability == 0.0 && largestCellCount == 0 && resetCount == 0 && totalTicks == 0
      ensures dataUpdateRate == 100
    {
      grid := new CellState[cols, rows]((c, r) => Empty);
      organisms := [];
      walls := [];
      totalMutability := 0.0;
      largestCellCount := 0;
      resetCount := 0;
      totalTicks := 0;
      dataUpdateRate := 100;
      spatialGrid := map[];
      fossil := [];
    }

    /** updateSpatialGrid: registers the organism in the bucket of its anchor. */
    method UpdateSpatialGrid(o: Org)
      modifies this`spatialGrid
      ensures spatialGrid == Insert(old(spatialGrid), o)
    {
      var key := BucketKey(o.c, o.r);
      if key !in spatialGrid {
        spatialGrid := spatialGrid[key := {}];
      }
      spatialGrid := spatialGrid[key := spatialGrid[key] + {o.id}];
    }

    /** getNearbyOrganisms: the organisms registered in the bucket of (c, r). */
    function GetNearbyOrganisms(c: int, r: int): (s: set<Id>)
      reads this
      ensures BucketKey(c, r) in spatialGrid ==> s == spatialGrid[BucketKey(c, r)]
      ensures BucketKey(c, r) !in spatialGrid ==> s == {}
    {
      Nearby(spatialGrid, c, r)
    }

    /** addOrganism: appends the organism, adds its mutability to the total,
        raises the largest cell count and registers it in its bucket. */
    method AddOrganism(o: Org)
      modifies this`organisms, this`totalMutability, this`largestCellCount, this`spatialGrid
      ensures organisms == old(organisms) + [o]
      ensures totalMutability == old(totalMutability) + o.mutability
      ensures largestCellCount == Max(old(largestCellCount), o.CellCount())
      ensures spatialGrid == Insert(old(spatialGrid), o)
      ensures o.id in GetNearbyOrganisms(o.c, o.r)
      ensures old(Valid()) && o.mutability >= 0.0 && (forall i :: 0 <= i < |old(organisms)| ==> old(organisms)[i].id != o.id)
        ==> Valid()
      ensures old(IndexSound()) && Unregistered(old(spatialGrid), o.id) ==> IndexSound()
    {
      ghost var wasValid := Valid();
      if old(IndexSound()) && Unregistered(old(spatialGrid), o.id) {
        InsertSound(old(organisms), old(spatialGrid), o);
      }
      totalMutability := totalMutability + o.mutability;
      organisms := organisms + [o];
      if o.CellCount() > largestCellCount {
        largestCellCount := o.CellCount();
      }
      UpdateSpatialGrid(o);
      if wasValid && o.mutability >= 0.0 && (forall i :: 0 <= i < |old(organisms)| ==> old(organisms)[i].id != o.id) {
        ConsistentAfterAdd(old(organisms), old(totalMutability), old(largestCellCount), o);
      }
    }

    /** canAddOrganism: below the cap, or uncapped when the cap is negative. */
    function CanAddOrganism(cfg: Config): (b: bool)
      reads this
      ensures cfg.maxOrganisms < 0 ==> b
      ensures cfg.maxOrganisms >= 0 ==> (b <==> |organisms| < cfg.maxOrganisms)
    {
      |organisms| < cfg.maxOrganisms || cfg.maxOrganisms < 0
    }

    /** averageMutability: zero for an empty population, the configured value
        in global-mutability mode, and otherwise the population mean. */
    function AverageMutability(cfg: Config): (a: real)
      reads this
      ensures |organisms| == 0 ==> a == 0.0
      ensures |organisms| > 0 && cfg.useGlobalMutability ==> a == cfg.globalMutability
      ensures |organisms| > 0 && !cfg.useGlobalMutability && Valid() ==>
        a * (|organisms| as real) == SumMut(organisms) && a >= 0.0
    {
      if |organisms| < 1 then 0.0
      else if cfg.useGlobalMutability then cfg.globalMutability
      else
        TotalNonNegative();
        totalMutability / (|organisms| as real)
    }

    lemma TotalNonNegative()
      ensures Valid() ==> totalMutability >= 0.0
    {
      if Valid() { SumNonNegative(organisms); }
    }

    /** changeCell: sets the state of one in-range cell and records it as a wall
        when the new state is a wall. */
    method ChangeCell(c: int, r: int, state: CellState)
      requires 0 <= c < grid.Length0 && 0 <= r < grid.Length1
      modifies grid, this`walls
      ensures grid[c, r] == state
      ensures forall c', r' :: 0 <= c' < grid.Length0 && 0 <= r' < grid.Length1 && (c', r') != (c, r) ==>
        grid[c', r'] == old(grid[c', r'])
      ensures walls == old(walls) + (if state == Wall then [(c, r)] else [])
    {
      grid[c, r] := state;
      if state == Wall {
        walls := walls + [(c, r)];
      }
    }

    /** grid_map.fillGrid(empty, preserveWalls): empties every cell, except
        walls when they are preserved. */
    method FillGrid(preserveWalls: bool)
      modifies grid
      ensures forall c, r :: 0 <= c < grid.Length0 && 0 <= r < grid.Length1 ==>
        grid[c, r] == Filled(old(grid[c, r]), preserveWalls)
    {
      var c := 0;
      while c < grid.Length0
        invariant 0 <= c <= grid.Length0
        invariant forall c', r' :: 0 <= c' < grid.Length0 && 0 <= r' < grid.Length1 ==>
          grid[c', r'] == if c' < c then Filled(old(grid[c', r']), preserveWalls) else old(grid[c', r'])
      {
        var r := 0;
        while r < grid.Length1
          invariant 0 <= r <= grid.Length1
          invariant forall c', r' :: 0 <= c' < grid.Length0 && 0 <= r' < grid.Length1 ==>
            grid[c', r'] == if c' < c || (c' == c && r' < r) then Filled(old(grid[c', r']), preserveWalls) else old(grid[c', r'])
        {
          if !(preserveWalls && grid[c, r] == Wall) {
            grid[c, r] := Empty;
          }
          r := r + 1;
        }
        c := c + 1;
      }
    }

    /** OriginOfLife: plants the seed organism (a mouth and two producers) at
        the grid centre and registers its species with the fossil record. */
    method OriginOfLife(g: Genesis)
      modifies this`organisms, this`totalMutability, this`largestCellCount, this`spatialGrid, this`fossil
      ensures organisms == old(organisms) + [GenesisOrg(g)]
      ensures totalMutability == old(totalMutability) + g.mutability
      ensures largestCellCount == Max(old(largestCellCount), 3)
      ensures spatialGrid == Insert(old(spatialGrid), GenesisOrg(g))
      ensures fossil == old(fossil) + [OriginSpecies(g, totalTicks)]
      ensures old(IndexSound()) && Unregistered(old(spatialGrid), g.id) ==> IndexSound()
    {
      var o := GenesisOrg(g);
      AddOrganism(o);
      fossil := fossil + [OriginSpecies(g, totalTicks)];
    }

    /** reset: refused, with nothing changed, when a confirmation is required
        and not given; otherwise empties the population, refills the grid,
        zeroes the mutability total and the tick count, clears the fossil
        record and, when asked, seeds life again. The bucket index, the wall
        list, the largest cell count and the reset count are left as they are. */
    method Reset(confirmRequired: bool, confirmed: bool, resetLife: bool, cfg: Config, g: Genesis)
      returns (ok: bool)
      modifies this`organisms, this`totalMutability, this`largestCellCount, this`spatialGrid, this`fossil,
        this`totalTicks, grid
      ensures ok == !(confirmRequired && !confirmed)
      ensures !ok ==> unchanged(this) && unchanged(grid)
      ensures ok ==> totalTicks == 0
      ensures ok ==> organisms == (if resetLife then [GenesisOrg(g)] else [])
      ensures ok ==> totalMutability == (if resetLife then g.mutability else 0.0)
      ensures ok ==> largestCellCount == (if resetLife then Max(old(largestCellCount), 3) else old(largestCellCount))
      ensures ok ==> spatialGrid == (if resetLife then Insert(old(spatialGrid), GenesisOrg(g)) else old(spatialGrid))
      ensures ok ==> fossil == (if resetLife then [OriginSpecies(g, 0)] else [])
      ensures ok ==> forall c, r :: 0 <= c < grid.Length0 && 0 <= r < grid.Length1 ==>
        grid[c, r] == Filled(old(grid[c, r]), !cfg.clearWallsOnReset)
      ensures ok && g.mutability >= 0.0 ==> Valid()
      ensures ok && (resetLife ==> Unregistered(old(spatialGrid), g.id)) ==> IndexSound()
    {
      if confirmRequired && !confirmed {
        return false;
      }
      organisms := [];
      FillGrid(!cfg.clearWallsOnReset);
      totalMutability := 0.0;
      totalTicks := 0;
      fossil := [];
      if resetLife {
        OriginOfLife(g);
        assert totalMutability == 0.0 + g.mutability;
        assert organisms == [GenesisOrg(g)];
        assert SumMut(organisms) == SumMut([]) + g.mutability;
      }
      return true;
    }

    /** The organism loop of loadRaw: rebuilds each saved organism (with
        identity ids[k]) and registers it through addOrganism, then links it
        to its species: looked up by name, synthesised with the snapshot's
        tick count when missing, given this organism's anatomy when it has
        none, and named after the organism's species name. */
    method RestoreOrganisms(raws: seq<OrgRaw>, ids: seq<Id>, ticks: int, table: map<string, Species>)
      returns (species: map<string, Species>)
      requires |ids| == |raws|
      modifies this`organisms, this`totalMutability, this`largestCellCount, this`spatialGrid
      ensures organisms == old(organisms) + RestoredAll(raws, ids)
      ensures totalMutability == old(totalMutability) + SumMut(RestoredAll(raws, ids))
      ensures largestCellCount == LargestOf(old(largestCellCount), RestoredAll(raws, ids))
      ensures spatialGrid == InsertAll(old(spatialGrid), RestoredAll(raws, ids))
      ensures species == ResolveAll(table, raws, ticks)
    {
      ghost var pop, total, largest, index := organisms, totalMutability, largestCellCount, spatialGrid;
      ghost var done: seq<Org> := [];
      species := table;
      var k := 0;
      while k < |raws|
        invariant 0 <= k <= |raws|
        invariant done == RestoredAll(raws[..k], ids[..k])
        invariant organisms == pop + done
        invariant totalMutability == total + SumMut(done)
        invariant largestCellCount == LargestOf(largest, done)
        invariant spatialGrid == InsertAll(index, done)
        invariant species == ResolveAll(table, raws[..k], ticks)
      {
        RestoreOneMore(raws, ids, k, table, ticks, total, largest, index);
        species := RestoreOne(raws[k], ids[k], ticks, species);
        done := done + [Restored(raws[k], ids[k])];
        k := k + 1;
      }
      assert raws[..k] == raws && ids[..k] == ids;
    }

    /** One pass of loadRaw's organism loop: rebuilds the saved organism,
        registers it through addOrganism and links it to its species. */
    method RestoreOne(raw: OrgRaw, id: Id, ticks: int, table: map<string, Species>)
      returns (species: map<string, Species>)
      modifies this`organisms, this`totalMutability, this`largestCellCount, this`spatialGrid
      ensures organisms == old(organisms) + [Restored(raw, id)]
      ensures totalMutability == old(totalMutability) + raw.mutability
      ensures largestCellCount == Max(old(largestCellCount), Restored(raw, id).CellCount())
      ensures spatialGrid == Insert(old(spatialGrid), Restored(raw, id))
      ensures species == Resolve(table, raw, ticks)
    {
      var org := Restored(raw, id);
      AddOrganism(org);
      var name := raw.speciesName;
      species := table;
      var s;
      if name in species {
        s := species[name];
      } else {
        s := Species(name, Some(raw.anatomy), ticks);
        species := species[name := s];
      }
      if s.anatomy == None {
        s := s.(anatomy := Some(raw.anatomy));
      }
      s := s.(name := name);
      species := species[name := s];
    }

    /** The closing loop of loadRaw: hands every species of the table to the
        fossil record, one entry per name, in some order of the names. */
    method RecordSpecies(species: map<string, Species>)
      modifies this`fossil
      ensures |fossil| == |old(fossil)| + |species.Keys|
      ensures fossil[..|old(fossil)|] == old(fossil)
      ensures forall n :: n in species ==> species[n] in fossil[|old(fossil)|..]
      ensures forall i :: |old(fossil)| <= i < |fossil| ==> fossil[i] in species.Values
    {
      var left := species.Keys;
      ghost var added: seq<Species> := [];
      while left != {}
        invariant left <= species.Keys
        invariant fossil == old(fossil) + added
        invariant |added| == |species.Keys| - |left|
        invariant forall n :: n in species && n !in left ==> species[n] in added
        invariant forall i :: 0 <= i < |added| ==> added[i] in species.Values
        decreases |left|
      {
        var n :| n in left;
        fossil := fossil + [species[n]];
        added := added + [species[n]];
        left := left - {n};
      }
      assert fossil[|old(fossil)|..] == added;
    }

    /** The wall loop of loadRaw: records each saved wall, in order, after
        the walls already listed. */
    method LoadWalls(saved: seq<(int, int)>)
      modifies this`walls
      ensures walls == old(walls) + saved
    {
      var w := 0;
      while w < |saved|
        invariant 0 <= w <= |saved|
        invariant walls == old(walls) + saved[..w]
      {
        walls := walls + [saved[w]];
        w := w + 1;
      }
      assert saved[..w] == saved;
    }

    /** loadRaw, its registry and species part: empties the population and
        the fossil record, appends the saved walls to the wall list (which is
        not cleared), builds the species table from the saved record, restores
        every saved organism through addOrganism (so the mutability total,
        the largest cell count and the bucket index grow from where they
        were), links each to its species, and records every species. */
    method LoadRaw(snap: Snapshot, ids: seq<Id>) returns (species: map<string, Species>)
      requires |ids| == |snap.organisms|
      modifies this`organisms, this`totalMutability, this`largestCellCount, this`spatialGrid, this`fossil,
        this`walls
      ensures organisms == RestoredAll(snap.organisms, ids)
      ensures totalMutability == old(totalMutability) + SumMut(RestoredAll(snap.organisms, ids))
      ensures largestCellCount == LargestOf(old(largestCellCount), RestoredAll(snap.organisms, ids))
      ensures spatialGrid == InsertAll(old(spatialGrid), RestoredAll(snap.organisms, ids))
      ensures walls == old(walls) + snap.walls
      ensures species == ResolveAll(InitialSpecies(snap.species), snap.organisms, snap.totalTicks)
      ensures |fossil| == |species.Keys|
      ensures forall n :: n in species ==> species[n] in fossil
      ensures forall i :: 0 <= i < |fossil| ==> fossil[i] in species.Values
    {
      organisms := [];
      fossil := [];
      LoadWalls(snap.walls);
      species := InitialSpecies(snap.species);
      species := RestoreOrganisms(snap.organisms, ids, snap.totalTicks, species);
      RecordSpecies(species);
      assert fossil[0..] == fossil;
    }

    /** The splicing loop of removeOrganisms: takes the organisms at the given
        distinct, in-range positions out of the population, highest position
        first so that the lower positions stay valid, sweeps each from the
        buckets around it, and adds up the mutability they carried. */
    method SpliceOut(indices: seq<nat>) returns (removedMutability: real)
      requires Distinct(indices)
      requires forall k :: 0 <= k < |indices| ==> indices[k] < |organisms|
      modifies this`organisms, this`spatialGrid
      ensures var gone := Positions(indices);
        && organisms == Without(old(organisms), gone)
        && spatialGrid == Purged(old(spatialGrid), OrgsAt(old(organisms), gone))
        && removedMutability == SumAt(old(organisms), gone)
    {
      ghost var pop, index := organisms, spatialGrid;
      var sorted := SortDesc(indices);
      forall p | 0 <= p < |sorted| ensures sorted[p] < |pop| {
        assert sorted[p] in indices;
      }
      removedMutability := 0.0;
      ghost var done: set<nat> := {};
      PurgeNothing(index);
      EmptyRemoval(pop);
      var k := 0;
      while k < |sorted|
        invariant 0 <= k <= |sorted|
        invariant done == Positions(sorted[..k])
        invariant organisms == Without(pop, done)
        invariant spatialGrid == Purged(index, OrgsAt(pop, done))
        invariant removedMutability == SumAt(pop, done)
      {
        var i := sorted[k];
        DescendingPrefix(sorted, k);
        SpliceStep(pop, index, done, i);
        var org := organisms[i];
        removedMutability := removedMutability + org.mutability;
        spatialGrid := SweepBuckets(spatialGrid, org);
        organisms := organisms[..i] + organisms[i + 1..];
        done := done + {i};
        k := k + 1;
      }
      assert sorted[..k] == sorted;
      assert done == Positions(indices);
    }

    /** The population check at the end of removeOrganisms: when the removal
        took a non-empty population (of `startPop` organisms) to none, pause
        when auto-pause is on, else, with auto-reset, count a reset and reset
        without confirmation (which seeds life again). */
    method PopulationCheck(startPop: nat, cfg: Config, g: Genesis) returns (ext: Extinction)
      modifies this, grid
      ensures ext == (if |old(organisms)| == 0 && startPop > 0 then
                        (if cfg.autoPause then Paused else if cfg.autoReset then AutoReset else Unhandled)
                      else NoExtinction)
      ensures ext != AutoReset ==> Books() == old(Books())
      ensures ext == AutoReset ==>
        Books() == Ledger([GenesisOrg(g)], Insert(old(spatialGrid), GenesisOrg(g)), g.mutability,
                          Max(old(largestCellCount), 3), old(resetCount) + 1, [OriginSpecies(g, 0)])
      ensures totalTicks == (if ext == AutoReset then 0 else old(totalTicks))
      ensures forall c, r :: 0 <= c < grid.Length0 && 0 <= r < grid.Length1 ==>
        grid[c, r] == (if ext == AutoReset then Filled(old(grid[c, r]), !cfg.clearWallsOnReset) else old(grid[c, r]))
      ensures walls == old(walls) && dataUpdateRate == old(dataUpdateRate)
      ensures (old(Valid()) || ext == AutoReset) && g.mutability >= 0.0 ==> Valid()
    {
      ext := NoExtinction;
      if |organisms| == 0 && startPop > 0 {
        if cfg.autoPause {
          ext := Paused;
        } else if cfg.autoReset {
          resetCount := resetCount + 1;
          var _ := Reset(false, false, true, cfg, g);
          ext := AutoReset;
        } else {
          ext := Unhandled;
        }
      }
    }

    /** removeOrganisms: removes the organisms at the given distinct, in-range
        positions, highest position first, sweeping each from the buckets
        around it; lowers the mutability total by what they carried, clamped
        at zero; and, when the population went from non-empty to empty, pauses
        or (with auto-reset) counts a reset and resets without confirmation. */
    method RemoveOrganisms(indices: seq<nat>, cfg: Config, g: Genesis) returns (ext: Extinction)
      requires Distinct(indices)
      requires forall k :: 0 <= k < |indices| ==> indices[k] < |organisms|
      modifies this, grid
      ensures ext == ExtinctionOf(old(organisms), Positions(indices), cfg)
      ensures Books() == RemovalLedger(old(Books()), Positions(indices), cfg, g)
      ensures totalTicks == (if ext == AutoReset then 0 else old(totalTicks))
      ensures forall c, r :: 0 <= c < grid.Length0 && 0 <= r < grid.Length1 ==>
        grid[c, r] == (if ext == AutoReset then Filled(old(grid[c, r]), !cfg.clearWallsOnReset) else old(grid[c, r]))
      ensures walls == old(walls) && dataUpdateRate == old(dataUpdateRate)
      ensures old(Valid()) && g.mutability >= 0.0 ==> Valid()
      ensures DistinctIds(old(organisms)) && old(IndexSound()) && Unregistered(old(spatialGrid), g.id) ==>
        IndexSound() && forall k :: 0 <= k < |indices| ==> Unregistered(spatialGrid, old(organisms)[indices[k]].id)
    {
      ghost var before := Books();
      ghost var gone := Positions(indices);
      var startPop := |organisms|;
      var removedMutability := SpliceOut(indices);
      totalMutability := totalMutability - removedMutability;
      if totalMutability < 0.0 {
        totalMutability := 0.0;
      }
      if old(Valid()) {
        ConsistentAfterRemoval(before.orgs, before.total, before.largest, gone);
      }
      ghost var spliced := Books();
      ext := PopulationCheck(startPop, cfg, g);
      CheckedRemoval(before, gone, cfg, g, spliced, ext, Books());
      if DistinctIds(old(organisms)) && old(IndexSound()) && Unregistered(old(spatialGrid), g.id) {
        RemovalSound(before, gone, cfg, g);
        forall k | 0 <= k < |indices| ensures Unregistered(spatialGrid, before.orgs[indices[k]].id) {
          assert indices[k] in gone;
        }
      }
    }

    /** The loop of clearDeadOrganisms: the positions of the organisms that
        are no longer living, ascending. */
    method DeadPositions() returns (toRemove: seq<nat>)
      ensures Distinct(toRemove)
      ensures forall k :: 0 <= k < |toRemove| ==> toRemove[k] < |organisms|
      ensures Positions(toRemove) == DeadSet(organisms)
    {
      toRemove := [];
      var i := 0;
      while i < |organisms|
        invariant 0 <= i <= |organisms|
        invariant forall j :: j in toRemove <==> 0 <= j < i && !organisms[j].living
        invariant Distinct(toRemove)
        invariant forall k :: 0 <= k < |toRemove| ==> toRemove[k] < i
      {
        if !organisms[i].living {
          toRemove := toRemove + [i];
        }
        i := i + 1;
      }
    }

    /** clearDeadOrganisms: removes every organism that is no longer living,
        through removeOrganisms; unless that emptied the population and an
        auto-reset replaced it, every organism left is living. */
    method ClearDeadOrganisms(cfg: Config, g: Genesis) returns (ext: Extinction)
      modifies this, grid
      ensures ext == ExtinctionOf(old(organisms), DeadSet(old(organisms)), cfg)
      ensures Books() == RemovalLedger(old(Books()), DeadSet(old(organisms)), cfg, g)
      ensures ext != AutoReset ==> forall k :: 0 <= k < |organisms| ==> organisms[k].living
      ensures totalTicks == (if ext == AutoReset then 0 else old(totalTicks))
      ensures forall c, r :: 0 <= c < grid.Length0 && 0 <= r < grid.Length1 ==>
        grid[c, r] == (if ext == AutoReset then Filled(old(grid[c, r]), !cfg.clearWallsOnReset) else old(grid[c, r]))
      ensures walls == old(walls) && dataUpdateRate == old(dataUpdateRate)
      ensures old(Valid()) && g.mutability >= 0.0 ==> Valid()
      ensures DistinctIds(old(organisms)) && old(IndexSound()) && Unregistered(old(spatialGrid), g.id) ==>
        IndexSound() && forall j :: 0 <= j < |old(organisms)| && !old(organisms)[j].living ==>
          Unregistered(spatialGrid, old(organisms)[j].id)
    {
      ghost var pop := organisms;
      var toRemove := DeadPositions();
      ext := RemoveOrganisms(toRemove, cfg, g);
      if ext != AutoReset {
        SurvivorsLiving(pop);
      }
      if DistinctIds(old(organisms)) && old(IndexSound()) && Unregistered(old(spatialGrid), g.id) {
        DeadUnregistered(pop, toRemove, spatialGrid);
      }
    }

    /** generateFood: makes NumFood trials; a trial whose first draw is at most
        the drop probability picks a cell from the next two draws and turns it
        into food when it is empty. The cells picked are Targets of the draws. */
    method GenerateFood(prob: real, draws: seq<real>)
      requires Draws(draws) && grid.Length0 >= 1 && grid.Length1 >= 1
      requires 3 * NumFood(grid.Length0, grid.Length1, prob) <= |draws|
      modifies grid, this`walls
      ensures walls == old(walls)
      ensures var picked := Targets(draws, 0, NumFood(grid.Length0, grid.Length1, prob), prob, grid.Length0, grid.Length1);
        forall c, r :: 0 <= c < grid.Length0 && 0 <= r < grid.Length1 ==>
          grid[c, r] == Fed(old(grid[c, r]), (c, r) in picked)
      ensures var picked := Targets(draws, 0, NumFood(grid.Length0, grid.Length1, prob), prob, grid.Length0, grid.Length1);
        forall c, r :: 0 <= c < grid.Length0 && 0 <= r < grid.Length1 && grid[c, r] != old(grid[c, r]) ==>
          old(grid[c, r]) == Empty && grid[c, r] == Food && (c, r) in picked
      ensures |set c: int, r: int | 0 <= c < grid.Length0 && 0 <= r < grid.Length1 && grid[c, r] != old(grid[c, r]) :: (c, r)|
        <= NumFood(grid.Length0, grid.Length1, prob)
    {
      var cols, rows := grid.Length0, grid.Length1;
      var numFood := NumFood(cols, rows, prob);
      var i, pos := 0, 0;
      ghost var done: seq<(int, int)> := [];
      ghost var all := Targets(draws, 0, numFood, prob, cols, rows);
      while i < numFood
        invariant 0 <= i <= numFood
        invariant pos + 3 * (numFood - i) <= |draws|
        invariant all == done + Targets(draws, pos, numFood - i, prob, cols, rows)
        invariant walls == old(walls)
        invariant forall c, r :: 0 <= c < cols && 0 <= r < rows ==> grid[c, r] == Fed(old(grid[c, r]), (c, r) in done)
      {
        TargetsStep(draws, pos, numFood - i, prob, cols, rows, done, all);
        if draws[pos] <= prob {
          var cell := PickCell(draws, pos + 1, cols, rows);
          if grid[cell.0, cell.1] == Empty {
            ChangeCell(cell.0, cell.1, Food);
          }
          done := done + [cell];
          pos := pos + 3;
        } else {
          pos := pos + 1;
        }
        i := i + 1;
      }
      assert done == all;
      FoodPassChanges(draws, numFood, prob, cols, rows,
                      set c: int, r: int | 0 <= c < cols && 0 <= r < rows && grid[c, r] != old(grid[c, r]) :: (c, r));
    }

    /** One step of update's loop: the organism at position `i` is removed when
        it is not living or its update() (whose answer is `outcomes[i]`)
        reports death; `called` says whether its update() ran. */
    method TickStep(i: nat, outcomes: seq<bool>, cfg: Config, g: Genesis, ghost start: Ledger)
      returns (ext: Extinction, called: bool)
      requires |outcomes| == |start.orgs| && i < |start.orgs|
      requires Ticked(start, outcomes, i + 1, cfg, g, NoExtinction, Books())
      modifies this, grid
      ensures called == start.orgs[i].living
      ensures Ticked(start, outcomes, i, cfg, g, ext, Books())
      ensures totalTicks == (if ext == AutoReset then 0 else old(totalTicks))
      ensures forall c, r :: 0 <= c < grid.Length0 && 0 <= r < grid.Length1 ==>
        grid[c, r] == (if ext == AutoReset then Filled(old(grid[c, r]), !cfg.clearWallsOnReset) else old(grid[c, r]))
      ensures walls == old(walls) && dataUpdateRate == old(dataUpdateRate)
      ensures old(Valid()) && g.mutability >= 0.0 ==> Valid()
    {
      TickedAt(start, outcomes, i, cfg, g, Books());
      var org := organisms[i];
      called := org.living;
      if !org.living || !outcomes[i] {
        ghost var mid := Books();
        var single := [i];
        ext := RemoveOrganisms(single, cfg, g);
        assert Positions(single) == {i};
        TickedRemoval(start, outcomes, i, cfg, g, mid, ext, Books());
      } else {
        TickedKeep(start, outcomes, i, cfg, g, Books());
        ext := NoExtinction;
      }
    }

    /** The loop of update: visits the organisms from the last position to the
        first, calls update() on each living one, and removes, one position at
        a time through removeOrganisms, each that is not living or whose
        update() reported death. `outcomes[j]` is what update() of the
        organism at position j returns. Returns the positions whose update()
        ran, in call order. */
    method TickOrganisms(outcomes: seq<bool>, cfg: Config, g: Genesis) returns (calls: seq<nat>, ext: Extinction)
      requires |outcomes| == |organisms|
      modifies this, grid
      ensures calls == LivingFrom(old(organisms), 0)
      ensures Ticked(old(Books()), outcomes, 0, cfg, g, ext, Books())
      ensures totalTicks == (if ext == AutoReset then 0 else old(totalTicks))
      ensures forall c, r :: 0 <= c < grid.Length0 && 0 <= r < grid.Length1 ==>
        grid[c, r] == (if ext == AutoReset then Filled(old(grid[c, r]), !cfg.clearWallsOnReset) else old(grid[c, r]))
      ensures walls == old(walls) && dataUpdateRate == old(dataUpdateRate)
      ensures old(Valid()) && g.mutability >= 0.0 ==> Valid()
    {
      ghost var start := Books();
      calls := [];
      ext := NoExtinction;
      var i := |organisms|;
      TickedStart(start, outcomes, cfg, g);
      while i > 0
        invariant 0 <= i <= |start.orgs|
        invariant calls == LivingFrom(start.orgs, i)
        invariant Ticked(start, outcomes, i, cfg, g, ext, Books())
        invariant totalTicks == (if ext == AutoReset then 0 else old(totalTicks))
        invariant forall c, r :: 0 <= c < grid.Length0 && 0 <= r < grid.Length1 ==>
          grid[c, r] == (if ext == AutoReset then Filled(old(grid[c, r]), !cfg.clearWallsOnReset) else old(grid[c, r]))
        invariant walls == old(walls) && dataUpdateRate == old(dataUpdateRate)
        invariant old(Valid()) && g.mutability >= 0.0 ==> Valid()
      {
        i := i - 1;
        var called;
        ext, called := TickStep(i, outcomes, cfg, g, start);
        LivingFromStep(start.orgs, i);
        assert LivingFrom(start.orgs, i) == calls + (if called then [i] else []);
        if called {
          calls := calls + [i];
        }
      }
    }

    /** update: one tick. Runs the organisms' loop, then drops food when the
        drop probability is positive, then counts the tick; the stats hook
        (FossilRecord.updateData) fires when the tick count is a multiple of
        the data update rate, never when that rate is zero. */
    method Update(outcomes: seq<bool>, cfg: Config, g: Genesis, draws: seq<real>)
      returns (calls: seq<nat>, ext: Extinction, statsUpdate: bool)
      requires |outcomes| == |organisms|
      requires cfg.foodDropProb > 0.0 ==>
        Draws(draws) && grid.Length0 >= 1 && grid.Length1 >= 1 &&
        3 * NumFood(grid.Length0, grid.Length1, cfg.foodDropProb) <= |draws|
      modifies this, grid
      ensures calls == LivingFrom(old(organisms), 0)
      ensures Ticked(old(Books()), outcomes, 0, cfg, g, ext, Books())
      ensures totalTicks == (if ext == AutoReset then 0 else old(totalTicks)) + 1
      ensures statsUpdate <==> dataUpdateRate != 0 && totalTicks % dataUpdateRate == 0
      ensures forall c, r :: 0 <= c < grid.Length0 && 0 <= r < grid.Length1 ==>
        var base := if ext == AutoReset then Filled(old(grid[c, r]), !cfg.clearWallsOnReset) else old(grid[c, r]);
        grid[c, r] == (if cfg.foodDropProb > 0.0
                       then Fed(base, (c, r) in Targets(draws, 0, NumFood(grid.Length0, grid.Length1, cfg.foodDropProb),
                                                        cfg.foodDropProb, grid.Length0, grid.Length1))
                       else base)
      ensures walls == old(walls) && dataUpdateRate == old(dataUpdateRate)
      ensures old(Valid()) && g.mutability >= 0.0 ==> Valid()
      ensures DistinctIds(old(organisms)) && old(IndexSound()) && Unregistered(old(spatialGrid), g.id) ==>
        IndexSound() && forall j :: 0 <= j < |old(organisms)| && (!old(organisms)[j].living || !outcomes[j]) ==>
          Unregistered(spatialGrid, old(organisms)[j].id)
    {
      ghost var start := Books();
      calls, ext := TickOrganisms(outcomes, cfg, g);
      if DistinctIds(old(organisms)) && old(IndexSound()) && Unregistered(old(spatialGrid), g.id) {
        TickedSound(start, outcomes, cfg, g, ext, Books());
      }
      if cfg.foodDropProb > 0.0 {
        GenerateFood(cfg.foodDropProb, draws);
      }
      totalTicks := totalTicks + 1;
      statsUpdate := dataUpdateRate != 0 && totalTicks % dataUpdateRate == 0;
    }
  }
}
