/** Species resolution while a saved world is restored: the name-to-species
    table rebuilt from the fossil record, and how each restored organism is
    linked to a species, synthesising one when its name is missing and filling
    in a missing anatomy from the first organism that names it. */
module Restore {
  import opened Types

  /** One species per saved fossil-record entry, each still without anatomy. */
  function InitialSpecies(table: map<string, SpeciesRaw>): (m: map<string, Species>)
    ensures m.Keys == table.Keys
    ensures forall n :: n in m ==> m[n].anatomy == None && m[n].name == table[n].name && m[n].startTick == table[n].startTick
  {
    map n | n in table :: Species(table[n].name, None, table[n].startTick)
  }

  /** Linking one restored organism: look its species up by name, synthesise
      it (stamped with the snapshot's tick count) when absent, give it this
      organism's anatomy when it has none, and set its name. */
  function Resolve(m: map<string, Species>, o: OrgRaw, ticks: int): map<string, Species> {
    var n := o.speciesName;
    var s := if n in m then m[n] else Species(n, Some(o.anatomy), ticks);
    var s' := if s.anatomy == None then s.(anatomy := Some(o.anatomy)) else s;
    m[n := s'.(name := n)]
  }

  /** The species table after linking the organisms of `orgs`, in order. */
  function ResolveAll(m: map<string, Species>, orgs: seq<OrgRaw>, ticks: int): map<string, Species> {
    if orgs == [] then m else Resolve(ResolveAll(m, orgs[..|orgs| - 1], ticks), orgs[|orgs| - 1], ticks)
  }

  /** The position of the first organism of `orgs` naming `n`, or |orgs|. */
  function FirstNamed(orgs: seq<OrgRaw>, n: string): (i: nat)
    ensures i <= |orgs|
    ensures i < |orgs| ==> orgs[i].speciesName == n
    ensures forall j :: 0 <= j < i ==> orgs[j].speciesName != n
  {
    if orgs == [] then 0
    else if orgs[0].speciesName == n then 0
    else 1 + FirstNamed(orgs[1..], n)
  }

  /** What the species table says about name `n` once every organism is
      linked: a name no organism uses keeps its table entry; a name some
      organism uses has a species of that name, stamped with the table's start
      tick or, when missing from the table, with the snapshot's tick count, and
      holding the table's anatomy or else the anatomy of the first organism
      that names it. */
  lemma {:induction false} ResolvedName(m: map<string, Species>, orgs: seq<OrgRaw>, ticks: int, n: string)
    ensures var r := ResolveAll(m, orgs, ticks);
      && (n in r <==> n in m || FirstNamed(orgs, n) < |orgs|)
      && (FirstNamed(orgs, n) == |orgs| && n in m ==> r[n] == m[n])
      && (FirstNamed(orgs, n) < |orgs| ==>
            && r[n].name == n
            && r[n].startTick == (if n in m then m[n].startTick else ticks)
            && r[n].anatomy == (if n in m && m[n].anatomy != None then m[n].anatomy
                                else Some(orgs[FirstNamed(orgs, n)].anatomy)))
  {
    if orgs != [] {
      var p := orgs[..|orgs| - 1];
      var last := orgs[|orgs| - 1];
      ResolvedName(m, p, ticks, n);
      FirstNamedPrefix(orgs, n);
    }
  }

  /** Dropping the last organism leaves the first position naming `n` alone
      unless the last one was the only one. */
  lemma FirstNamedPrefix(orgs: seq<OrgRaw>, n: string)
    requires orgs != []
    ensures var p := orgs[..|orgs| - 1];
      if FirstNamed(p, n) < |p| then FirstNamed(orgs, n) == FirstNamed(p, n)
      else FirstNamed(orgs, n) == (if orgs[|orgs| - 1].speciesName == n then |p| else |orgs|)
  {
    var p := orgs[..|orgs| - 1];
    assert forall j :: 0 <= j < |p| ==> p[j] == orgs[j];
  }

  /** Every restored organism ends linked to a species whose name is its own
      species name. */
  lemma EveryOrgLinked(m: map<string, Species>, orgs: seq<OrgRaw>, ticks: int)
    ensures forall k :: 0 <= k < |orgs| ==>
      orgs[k].speciesName in ResolveAll(m, orgs, ticks) &&
      ResolveAll(m, orgs, ticks)[orgs[k].speciesName].name == orgs[k].speciesName
  {
    forall k | 0 <= k < |orgs|
      ensures orgs[k].speciesName in ResolveAll(m, orgs, ticks)
      ensures ResolveAll(m, orgs, ticks)[orgs[k].speciesName].name == orgs[k].speciesName
    {
      ResolvedName(m, orgs, ticks, orgs[k].speciesName);
    }
  }

  /** After a restore from a fossil table (whose species all lack anatomy),
      every linked species has an anatomy, that of the first organism naming
      it; later organisms of the same species do not replace it. */
  lemma AnatomyFromFirst(table: map<string, SpeciesRaw>, orgs: seq<OrgRaw>, ticks: int, k: nat)
    requires k < |orgs|
    ensures var n := orgs[k].speciesName;
      n in ResolveAll(InitialSpecies(table), orgs, ticks) &&
      ResolveAll(InitialSpecies(table), orgs, ticks)[n].anatomy == Some(orgs[FirstNamed(orgs, n)].anatomy)
  {
    ResolvedName(InitialSpecies(table), orgs, ticks, orgs[k].speciesName);
  }
}
