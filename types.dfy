/** Values shared by the world model: cell states, organisms as the world sees
    them, species records, the restore snapshot and the configuration knobs
    (Hyperparams and WorldConfig) that the world reads. */
module Types {

  datatype Option<+T> = None | Some(value: T)

  /** The state tag of a grid cell (CellStates). */
  datatype CellState = Empty | Food | Wall | Mouth | Producer | Mover | Killer | Armor | Eye

  /** One cell of an organism's anatomy, relative to its anchor. */
  datatype AnatomyCell = AnatomyCell(state: CellState, dc: int, dr: int)

  /** Stands for the identity of an Organism object. */
  type Id = nat

  /** What the world observes of an Organism: its identity, anchor (c, r),
      mutability, living flag, anatomy (whose length is the cell count) and the
      name of the species it is linked to. */
  datatype Org = Org(
    id: Id,
    c: int,
    r: int,
    mutability: real,
    living: bool,
    anatomy: seq<AnatomyCell>,
    speciesName: string)
  {
    function CellCount(): nat { |anatomy| }
  }

  /** A lineage record: name, anatomy template (null until filled in) and the
      tick at which it started. */
  datatype Species = Species(name: string, anatomy: Option<seq<AnatomyCell>>, startTick: int)

  /** The population cap, food probability, global-mutability switch and value,
      and the extinction and reset policies the world consults. */
  datatype Config = Config(
    maxOrganisms: int,
    foodDropProb: real,
    useGlobalMutability: bool,
    globalMutability: real,
    autoPause: bool,
    autoReset: bool,
    clearWallsOnReset: bool)

  /** What the Organism and GridMap collaborators supply when life is seeded:
      a fresh identity, the grid centre, the new organism's mutability and the
      name its species receives. */
  datatype Genesis = Genesis(id: Id, center: (int, int), mutability: real, speciesName: string)

  /** The anatomy OriginOfLife gives the seed organism: a mouth at the anchor and
      two producers on the diagonal. */
  const OriginAnatomy: seq<AnatomyCell> :=
    [AnatomyCell(Mouth, 0, 0), AnatomyCell(Producer, 1, 1), AnatomyCell(Producer, -1, -1)]

  function GenesisOrg(g: Genesis): (o: Org)
    ensures o.id == g.id && o.living && o.CellCount() == 3
    ensures (o.c, o.r) == g.center && o.mutability == g.mutability
  {
    Org(g.id, g.center.0, g.center.1, g.mutability, true, OriginAnatomy, g.speciesName)
  }

  /** What removeOrganisms does when it has emptied a non-empty population. */
  datatype Extinction = NoExtinction | Paused | AutoReset | Unhandled

  /** A species entry of the saved fossil record (its non-object fields). */
  datatype SpeciesRaw = SpeciesRaw(name: string, startTick: int)

  /** A saved organism: anchor, species name and the payload Organism.loadRaw
      restores (mutability, anatomy). */
  datatype OrgRaw = OrgRaw(col: int, row: int, speciesName: string, mutability: real, anatomy: seq<AnatomyCell>)

  /** The parts of a saved world that loadRaw reads besides the grid cells. */
  datatype Snapshot = Snapshot(
    walls: seq<(int, int)>,
    species: map<string, SpeciesRaw>,
    organisms: seq<OrgRaw>,
    totalTicks: int)
}
