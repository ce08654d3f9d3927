/** Food spawning and grid refilling as functions of the cell states: how many
    trials a food pass makes, which cells its trials pick from a supply of
    uniform draws in [0, 1), and what a cell becomes. */
module Food {
  import opened Types

  /** The number of trials: floor(cols * rows * prob / 50000), but at least 1. */
  function NumFood(cols: nat, rows: nat, prob: real): (n: nat)
    ensures n >= 1
  {
    var f := ((cols * rows) as real * prob / 50000.0).Floor;
    if f > 1 then f else 1
  }

  /** The trial count is the rounded-down expectation when that is at least
      1, and 1 otherwise. */
  lemma NumFoodBounds(cols: nat, rows: nat, prob: real)
    ensures var x := (cols * rows) as real * prob / 50000.0;
      NumFood(cols, rows, prob) == if x >= 1.0 then x.Floor else 1
    ensures var x := (cols * rows) as real * prob / 50000.0;
      x >= 1.0 ==> (NumFood(cols, rows, prob) as real) <= x < (NumFood(cols, rows, prob) + 1) as real
  {
  }

  /** A draw in [0, 1) scaled by a positive extent and rounded down lands on an
      index inside that extent. */
  lemma DrawIndex(d: real, n: nat)
    requires 0.0 <= d < 1.0 && n >= 1
    ensures 0 <= (d * n as real).Floor < n
  {
    assert d * n as real < 1.0 * n as real;
  }

  predicate Draws(d: seq<real>) {
    forall i :: 0 <= i < |d| ==> 0.0 <= d[i] < 1.0
  }

  /** The cell a successful trial picks from the two draws at `pos`. */
  function PickCell(d: seq<real>, pos: nat, cols: nat, rows: nat): (cell: (int, int))
    requires Draws(d) && pos + 2 <= |d| && cols >= 1 && rows >= 1
    ensures 0 <= cell.0 < cols && 0 <= cell.1 < rows
  {
    DrawIndex(d[pos], cols);
    DrawIndex(d[pos + 1], rows);
    ((d[pos] * cols as real).Floor, (d[pos + 1] * rows as real).Floor)
  }

  /** The cells picked by `k` trials reading the draws from `pos` on: a trial
      reads one draw and, when that draw is at most `prob`, two more for the
      column and the row. */
  function Targets(d: seq<real>, pos: nat, k: nat, prob: real, cols: nat, rows: nat): (t: seq<(int, int)>)
    requires Draws(d) && pos + 3 * k <= |d| && cols >= 1 && rows >= 1
    decreases k
  {
    if k == 0 then []
    else if d[pos] <= prob then [PickCell(d, pos + 1, cols, rows)] + Targets(d, pos + 3, k - 1, prob, cols, rows)
    else Targets(d, pos + 1, k - 1, prob, cols, rows)
  }

  /** A pass of `k` trials picks at most `k` cells, each inside the grid. */
  lemma {:induction false} TargetsInRange(d: seq<real>, pos: nat, k: nat, prob: real, cols: nat, rows: nat)
    requires Draws(d) && pos + 3 * k <= |d| && cols >= 1 && rows >= 1
    ensures var t := Targets(d, pos, k, prob, cols, rows);
      |t| <= k && forall j :: 0 <= j < |t| ==> 0 <= t[j].0 < cols && 0 <= t[j].1 < rows
    decreases k
  {
    if k > 0 {
      if d[pos] <= prob {
        TargetsInRange(d, pos + 3, k - 1, prob, cols, rows);
      } else {
        TargetsInRange(d, pos + 1, k - 1, prob, cols, rows);
      }
    }
  }

  /** One more trial of a pass whose picks so far are `done` and whose picks
      overall are `all`: a hit moves the cell its two next draws pick into
      `done`, a miss moves nothing. */
  lemma TargetsStep(d: seq<real>, pos: nat, k: nat, prob: real, cols: nat, rows: nat, done: seq<(int, int)>,
                    all: seq<(int, int)>)
    requires Draws(d) && pos + 3 * k <= |d| && cols >= 1 && rows >= 1 && k >= 1
    requires all == done + Targets(d, pos, k, prob, cols, rows)
    ensures d[pos] <= prob ==>
      all == (done + [PickCell(d, pos + 1, cols, rows)]) + Targets(d, pos + 3, k - 1, prob, cols, rows)
    ensures d[pos] > prob ==> all == done + Targets(d, pos + 1, k - 1, prob, cols, rows)
  {
  }

  /** A cell after a food pass: an empty cell some trial picked becomes food;
      any other cell keeps its state. */
  function Fed(was: CellState, picked: bool): (s: CellState)
    ensures s == was || (was == Empty && s == Food && picked)
    ensures was == Empty && picked ==> s == Food
  {
    if was == Empty && picked then Food else was
  }

  /** A cell after fillGrid(empty, preserveWalls). */
  function Filled(was: CellState, preserveWalls: bool): (s: CellState)
    ensures s == Empty || (s == Wall && preserveWalls && was == Wall)
    ensures preserveWalls && was == Wall ==> s == Wall
  {
    if preserveWalls && was == Wall then Wall else Empty
  }

  /** A pass changes at most as many cells as it picked, so at most as many as
      it made trials. */
  lemma {:induction false} DistinctCells(t: seq<(int, int)>)
    ensures |set x | x in t| <= |t|
  {
    if t != [] {
      DistinctCells(t[1..]);
      assert (set x | x in t) == (set x | x in t[1..]) + {t[0]};
    }
  }

  /** Any set of cells that a pass of `k` trials picked lies inside the grid
      and holds at most `k` cells: a pass changes at most as many cells as it
      makes trials. */
  lemma FoodPassChanges(d: seq<real>, k: nat, prob: real, cols: nat, rows: nat, changed: set<(int, int)>)
    requires Draws(d) && 3 * k <= |d| && cols >= 1 && rows >= 1
    requires forall x :: x in changed ==> x in Targets(d, 0, k, prob, cols, rows)
    ensures |changed| <= k
    ensures forall x :: x in changed ==> 0 <= x.0 < cols && 0 <= x.1 < rows
  {
    var t := Targets(d, 0, k, prob, cols, rows);
    TargetsInRange(d, 0, k, prob, cols, rows);
    DistinctCells(t);
    var picked := set x | x in t;
    assert changed <= picked;
    assert picked == changed + (picked - changed);
  }

  /** With probability 1 on a grid of 50000 cells a pass makes exactly one
      trial, and it picks an in-range cell whenever its first draw is at most 1. */
  lemma OneTrialOnFullGrid(d: seq<real>, cols: nat, rows: nat)
    requires cols * rows == 50000 && Draws(d) && |d| >= 3 && cols >= 1 && rows >= 1
    ensures NumFood(cols, rows, 1.0) == 1
    ensures |Targets(d, 0, 1, 1.0, cols, rows)| == 1
  {
    assert (cols * rows) as real * 1.0 / 50000.0 == 1.0;
  }
}
