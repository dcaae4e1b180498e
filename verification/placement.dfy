/**
 * Construction-time placement: the per-cell chain of comparisons against the
 * generator's draws that decides whether a cell receives a Cop, a Radicalizer,
 * a Citizen or nothing, and the bookkeeping that gives each created agent the
 * next id, one grid cell and a place in the schedule.
 *
 * The generator is a stream of reals: the i-th call of random() returns
 * draws(i).  Placement is then a function of the parameters and the stream.
 */
module Placement {
  import opened Wrappers
  import opened Agents

  /** The construction parameters of the simulation. */
  datatype Params = Params(
    height: nat, width: nat,
    citizenDensity: real, copDensity: real, radicalizerDensity: real,
    citizenVision: nat, copVision: nat,
    legitimacy: real, foodScarcity: real,
    maxJailTerm: int, activeThreshold: real, arrestProbConstant: real,
    movement: bool, maxIters: int)

  /** The sum that construction checks against 1 and the citizen test compares with. */
  function DensitySum(p: Params): real
  {
    p.copDensity + p.citizenDensity + p.radicalizerDensity
  }

  /** The defaults of the constructor's keyword arguments; they pass the density check. */
  function DefaultParams(): (p: Params)
    ensures DensitySum(p) <= 1.0
    ensures p.height == p.width == 40 && p.maxIters == 1000
  {
    Params(40, 40, 0.7, 0.054, 0.02, 7, 7, 0.8, 0.45, 1000, 0.1, 2.3, true, 1000)
  }

  /** The generator's output: the i-th call of random() returns draws(i). */
  type Stream = nat -> real

  /** A generator whose every output lies in [0, 1), as random() promises. */
  ghost predicate UnitDraws(draws: Stream)
  {
    forall i: nat :: 0.0 <= draws(i) < 1.0
  }

  // ---------------------------------------------------------------------
  // One cell

  /** What a cell receives; a Citizen's hardship and risk aversion are drawn with it. */
  datatype Occupant = Vacant | NewCop | NewRadicalizer | NewCitizen(hardship: real, riskAversion: real)

  /** The occupant of one cell and the index of the first draw not yet used. */
  datatype CellDecision = CellDecision(occupant: Occupant, next: nat)

  /**
   * The number of draws short-circuit evaluation consumes for a cell, given
   * the occupant and whether the first draw passed the cop-density test
   * (only then is the second comparison of the cop test evaluated).
   */
  function DrawsUsed(occupant: Occupant, firstCopTestPassed: bool): nat
  {
    var copTest := if firstCopTestPassed then 2 else 1;
    match occupant
    case NewCop => 2
    case NewRadicalizer => copTest + 1
    case NewCitizen(_, _) => copTest + 4
    case Vacant => copTest + 2
  }

  /** The comparison chain for one cell, starting at draw k. */
  function DecideCell(p: Params, draws: Stream, k: nat): (d: CellDecision)
    ensures k + 2 <= d.next <= k + 6
  {
    if draws(k) < p.copDensity && draws(k + 1) > p.radicalizerDensity then
      CellDecision(NewCop, k + 2)
    else
      var j := k + (if draws(k) < p.copDensity then 2 else 1);
      if draws(j) < p.radicalizerDensity then
        CellDecision(NewRadicalizer, j + 1)
      else if draws(j + 1) < DensitySum(p) then
        CellDecision(NewCitizen(draws(j + 2), draws(j + 3)), j + 4)
      else
        CellDecision(Vacant, j + 2)
  }

  /**
   * The outcome of a cell: a Cop iff draw k is below the cop density and draw
   * k+1 above the radicalizer density; otherwise, with j the first draw after
   * the cop test, a Radicalizer iff draw j is below the radicalizer density,
   * else a Citizen iff draw j+1 is below the density sum, with draws j+2 and
   * j+3 as hardship and risk aversion; otherwise the cell stays empty.  The
   * draws consumed are those short-circuit evaluation makes.
   */
  lemma DecideCellOutcome(p: Params, draws: Stream, k: nat)
    ensures var d := DecideCell(p, draws, k);
            && (d.occupant.NewCop? <==> draws(k) < p.copDensity && draws(k + 1) > p.radicalizerDensity)
            && (!d.occupant.NewCop? ==>
                  var j := k + (if draws(k) < p.copDensity then 2 else 1);
                  && (d.occupant.NewRadicalizer? <==> draws(j) < p.radicalizerDensity)
                  && (d.occupant.NewCitizen? <==> !(draws(j) < p.radicalizerDensity) && draws(j + 1) < DensitySum(p))
                  && (d.occupant.NewCitizen? ==> d.occupant == NewCitizen(draws(j + 2), draws(j + 3))))
            && d.next == k + DrawsUsed(d.occupant, draws(k) < p.copDensity)
  {
  }

  /** A cell's decision depends on the draws it consumes and on no other. */
  lemma DecideCellReadsOnlyItsDraws(p: Params, d1: Stream, d2: Stream, k: nat)
    requires forall i: nat :: k <= i < DecideCell(p, d1, k).next ==> d1(i) == d2(i)
    ensures DecideCell(p, d2, k) == DecideCell(p, d1, k)
  {
  }

  /** The agent a decision creates, with the given id, at the given position. */
  function NewAgent(p: Params, occupant: Occupant, id: nat, pos: Pos): (r: Option<Agent>)
    ensures r.Some? <==> !occupant.Vacant?
    ensures r.Some? ==> r.value.id == id && r.value.pos == pos
  {
    match occupant
    case Vacant => None
    case NewCop => Some(Cop(id, pos, p.copVision))
    case NewRadicalizer => Some(Radicalizer(id, pos, p.copVision, p.foodScarcity))
    case NewCitizen(hardship, riskAversion) =>
      Some(Citizen(id, pos, p.citizenVision, hardship, p.legitimacy, riskAversion, p.activeThreshold,
                   0, Quiescent, false, 0))
  }

  // ---------------------------------------------------------------------
  // The whole grid

  /** The cells of column x from row 0 up to row rows - 1, in visiting order. */
  function ColumnCells(x: nat, rows: nat): (cells: seq<Pos>)
    ensures |cells| == rows
    ensures forall i :: 0 <= i < rows ==> cells[i] == Pos(x, i)
  {
    if rows == 0 then [] else ColumnCells(x, rows - 1) + [Pos(x, rows - 1)]
  }

  /**
   * The cells of columns 0 .. cols - 1, each of `rows` cells, column by
   * column, in visiting order.
   */
  function GridCells(rows: nat, cols: nat): seq<Pos>
  {
    if cols == 0 then [] else GridCells(rows, cols - 1) + ColumnCells(cols - 1, rows)
  }

  /** The visiting order has one entry per cell of the grid. */
  lemma {:induction false} GridCellsLength(rows: nat, cols: nat)
    ensures |GridCells(rows, cols)| == cols * rows
  {
    if cols > 0 {
      GridCellsLength(rows, cols - 1);
      assert (cols - 1) * rows + rows == cols * rows;
    }
  }

  /** The visiting order lists only cells of the grid. */
  lemma {:induction false} GridCellsInBounds(rows: nat, cols: nat)
    ensures forall i :: 0 <= i < |GridCells(rows, cols)| ==>
              GridCells(rows, cols)[i].x < cols && GridCells(rows, cols)[i].y < rows
  {
    if cols > 0 {
      GridCellsInBounds(rows, cols - 1);
    }
  }

  /** The visiting order lists no cell twice. */
  lemma {:induction false} GridCellsDistinct(rows: nat, cols: nat)
    ensures forall i, j :: 0 <= i < j < |GridCells(rows, cols)| ==> GridCells(rows, cols)[i] != GridCells(rows, cols)[j]
  {
    if cols > 0 {
      GridCellsDistinct(rows, cols - 1);
      GridCellsInBounds(rows, cols - 1);
      var front := GridCells(rows, cols - 1);
      var all := GridCells(rows, cols);
      forall i, j | 0 <= i < j < |all|
        ensures all[i] != all[j]
      {
        if i < |front| && |front| <= j {
          assert all[i] == front[i] && front[i].x < cols - 1;
          assert all[j].x == cols - 1;
        }
      }
    }
  }

  /** The visiting order lists every cell of the visited columns and rows. */
  lemma {:induction false} GridCellsCover(rows: nat, cols: nat)
    ensures forall x: nat, y: nat :: x < cols && y < rows ==> Pos(x, y) in GridCells(rows, cols)
  {
    if cols > 0 {
      GridCellsCover(rows, cols - 1);
      var front := GridCells(rows, cols - 1);
      var all := GridCells(rows, cols);
      forall x: nat, y: nat | x < cols && y < rows
        ensures Pos(x, y) in all
      {
        if x == cols - 1 {
          assert all[|front| + y] == Pos(x, y);
        } else {
          assert Pos(x, y) in front;
        }
      }
    }
  }

  /** Cells placed so far, the schedule in creation order, and the next unused draw. */
  datatype Layout = Layout(occupied: map<Pos, Agent>, agents: seq<Agent>, next: nat)

  const Unpopulated := Layout(map[], [], 0)

  /**
   * Visit one cell: decide its occupant and record any new agent in the grid
   * and the schedule.  The schedule grows by at most one agent, which has the
   * next id and the visited position.
   */
  function PlaceCell(p: Params, draws: Stream, l: Layout, pos: Pos): (r: Layout)
    ensures l.agents <= r.agents && |r.agents| <= |l.agents| + 1
    ensures |r.agents| > |l.agents| ==> r.agents[|l.agents|].id == |l.agents| && r.agents[|l.agents|].pos == pos
  {
    var d := DecideCell(p, draws, l.next);
    match NewAgent(p, d.occupant, |l.agents|, pos)
    case None => l.(next := d.next)
    case Some(a) => Layout(l.occupied[pos := a], l.agents + [a], d.next)
  }

  /** Visit the cells in order; the schedule only grows, by at most one agent per cell. */
  function PlaceAll(p: Params, draws: Stream, l: Layout, cells: seq<Pos>): (r: Layout)
    ensures l.agents <= r.agents && |r.agents| <= |l.agents| + |cells|
  {
    if cells == [] then l
    else PlaceCell(p, draws, PlaceAll(p, draws, l, cells[..|cells| - 1]), cells[|cells| - 1])
  }

  /**
   * The outcome of the construction loop: every cell visited, column by
   * column.  The simulation builds Mesa's Grid(width, height) as
   * Grid(height, width), so coord_iter walks x over 0 .. height - 1 and, for
   * each x, y over 0 .. width - 1.  At most one agent is created per cell.
   */
  function Populate(p: Params, draws: Stream): (r: Layout)
    ensures |r.agents| <= p.width * p.height
  {
    GridCellsLength(p.width, p.height);
    PlaceAll(p, draws, Unpopulated, GridCells(p.width, p.height))
  }

  /** Lookup of a cell in a layout, as the grid shows it. */
  function Lookup(occupied: map<Pos, Agent>, pos: Pos): Option<Agent>
  {
    if pos in occupied then Some(occupied[pos]) else None
  }

  // ---------------------------------------------------------------------
  // Properties of placement

  /**
   * The schedule and the grid agree: ids are the schedule indices, every
   * scheduled agent sits on the cell of its own position, every occupied cell
   * holds the scheduled agent whose position it is, and there are as many
   * occupied cells as scheduled agents.
   */
  ghost predicate WellFormed(l: Layout)
  {
    && (forall i :: 0 <= i < |l.agents| ==>
          l.agents[i].id == i && l.agents[i].pos in l.occupied && l.occupied[l.agents[i].pos] == l.agents[i])
    && (forall pos :: pos in l.occupied ==>
          l.occupied[pos].pos == pos && l.occupied[pos].id < |l.agents| && l.agents[l.occupied[pos].id] == l.occupied[pos])
    && |l.occupied| == |l.agents|
  }

  /** Recording a new agent, with the next id, on an unoccupied cell of its own position keeps the layout well formed. */
  lemma AddAgentWellFormed(l: Layout, pos: Pos, a: Agent, next: nat)
    requires WellFormed(l)
    requires pos !in l.occupied && a.pos == pos && a.id == |l.agents|
    ensures WellFormed(Layout(l.occupied[pos := a], l.agents + [a], next))
  {
  }

  /** Visiting one unoccupied cell keeps the layout well formed and writes that cell alone. */
  lemma PlaceCellWellFormed(p: Params, draws: Stream, m: Layout, pos: Pos)
    requires WellFormed(m)
    requires pos !in m.occupied
    ensures WellFormed(PlaceCell(p, draws, m, pos))
    ensures forall q :: q in PlaceCell(p, draws, m, pos).occupied ==> q in m.occupied || q == pos
    ensures m.agents <= PlaceCell(p, draws, m, pos).agents
  {
    var d := DecideCell(p, draws, m.next);
    var created := NewAgent(p, d.occupant, |m.agents|, pos);
    if created.Some? {
      AddAgentWellFormed(m, pos, created.value, d.next);
    }
  }

  /** Visiting a cell changes what the grid shows at that cell alone. */
  lemma PlaceCellWritesOneCell(p: Params, draws: Stream, l: Layout, pos: Pos)
    ensures forall q :: q != pos ==> Lookup(PlaceCell(p, draws, l, pos).occupied, q) == Lookup(l.occupied, q)
  {
  }

  /** The layout once columns 0 .. x - 1 and rows 0 .. y - 1 of column x have been visited. */
  function PlacedBefore(p: Params, draws: Stream, x: nat, y: nat): Layout
  {
    PlaceAll(p, draws, Unpopulated, GridCells(p.width, x) + ColumnCells(x, y))
  }

  /** Visiting cell (x, y) moves the construction loop one row down. */
  lemma PlacedBeforeNextRow(p: Params, draws: Stream, x: nat, y: nat)
    ensures PlacedBefore(p, draws, x, y + 1) == PlaceCell(p, draws, PlacedBefore(p, draws, x, y), Pos(x, y))
  {
    var visited := GridCells(p.width, x) + ColumnCells(x, y);
    assert GridCells(p.width, x) + ColumnCells(x, y + 1) == visited + [Pos(x, y)];
    assert (visited + [Pos(x, y)])[..|visited|] == visited;
  }

  /** A finished column is the start of the next one; the loop starts unpopulated and ends with Populate. */
  lemma PlacedBeforeColumns(p: Params, draws: Stream, x: nat)
    ensures PlacedBefore(p, draws, x + 1, 0) == PlacedBefore(p, draws, x, p.width)
    ensures PlacedBefore(p, draws, 0, 0) == Unpopulated
    ensures PlacedBefore(p, draws, p.height, 0) == Populate(p, draws)
  {
    assert GridCells(p.width, x + 1) + ColumnCells(x + 1, 0) == GridCells(p.width, x) + ColumnCells(x, p.width);
    assert GridCells(p.width, p.height) + ColumnCells(p.height, 0) == GridCells(p.width, p.height);
  }

  /**
   * Visiting distinct, not yet occupied cells keeps the layout well formed,
   * writes no cell outside the visited ones, and never drops an agent.
   */
  lemma {:induction false} PlaceAllWellFormed(p: Params, draws: Stream, l: Layout, cells: seq<Pos>)
    requires WellFormed(l)
    requires forall i, j :: 0 <= i < j < |cells| ==> cells[i] != cells[j]
    requires forall i :: 0 <= i < |cells| ==> cells[i] !in l.occupied
    ensures WellFormed(PlaceAll(p, draws, l, cells))
    ensures forall pos :: pos in PlaceAll(p, draws, l, cells).occupied ==> pos in l.occupied || pos in cells
    ensures l.agents <= PlaceAll(p, draws, l, cells).agents
    decreases |cells|
  {
    if cells != [] {
      var front := cells[..|cells| - 1];
      var pos := cells[|cells| - 1];
      PlaceAllWellFormed(p, draws, l, front);
      var m := PlaceAll(p, draws, l, front);
      PlaceCellWellFormed(p, draws, m, pos);
      forall q | q in PlaceAll(p, draws, l, cells).occupied
        ensures q in l.occupied || q in cells
      {
        if q != pos {
          assert q in m.occupied;
        }
      }
    }
  }

  /**
   * Each visited cell consumes between two and six draws and adds at most one
   * agent to the end of the schedule.
   */
  lemma {:induction false} PlaceAllDraws(p: Params, draws: Stream, l: Layout, cells: seq<Pos>)
    ensures l.next + 2 * |cells| <= PlaceAll(p, draws, l, cells).next <= l.next + 6 * |cells|
    ensures |l.agents| <= |PlaceAll(p, draws, l, cells).agents| <= |l.agents| + |cells|
    decreases |cells|
  {
    if cells != [] {
      PlaceAllDraws(p, draws, l, cells[..|cells| - 1]);
    }
  }

  /** Placement depends on the draws it consumes and on no later ones. */
  lemma {:induction false} PlaceAllReadsOnlyItsDraws(p: Params, d1: Stream, d2: Stream, l: Layout, cells: seq<Pos>)
    requires forall i: nat :: l.next <= i < PlaceAll(p, d1, l, cells).next ==> d1(i) == d2(i)
    ensures PlaceAll(p, d2, l, cells) == PlaceAll(p, d1, l, cells)
    decreases |cells|
  {
    if cells != [] {
      var front := cells[..|cells| - 1];
      var m := PlaceAll(p, d1, l, front);
      PlaceAllDraws(p, d1, l, front);
      assert m.next <= PlaceAll(p, d1, l, cells).next;
      PlaceAllReadsOnlyItsDraws(p, d1, d2, l, front);
      DecideCellReadsOnlyItsDraws(p, d1, d2, m.next);
    }
  }

  /**
   * Every agent placement creates carries the parameters its breed is built
   * with (a Radicalizer gets the cops' vision) and, if a Citizen, starts free,
   * Quiescent, unradicalized and without attacks.
   */
  ghost predicate BuiltFromParams(p: Params, a: Agent)
  {
    match a
    case Cop(_, _, vision) => vision == p.copVision
    case Radicalizer(_, _, vision, foodScarcity) => vision == p.copVision && foodScarcity == p.foodScarcity
    case Citizen(_, _, vision, _, legitimacy, _, threshold, _, _, _, _) =>
      vision == p.citizenVision && legitimacy == p.legitimacy && threshold == p.activeThreshold && IsFreshCitizen(a)
  }

  /**
   * With draws in [0, 1), a breed can only appear when its comparison can
   * pass: a Cop needs a positive cop density and a radicalizer density below
   * 1, a Radicalizer a positive radicalizer density, a Citizen a positive
   * density sum; a Citizen's hardship and risk aversion lie in [0, 1).
   */
  ghost predicate AllowedByDensities(p: Params, a: Agent)
  {
    && (a.Cop? ==> 0.0 < p.copDensity && p.radicalizerDensity < 1.0)
    && (a.Radicalizer? ==> 0.0 < p.radicalizerDensity)
    && (a.Citizen? ==> 0.0 < DensitySum(p) && 0.0 <= a.hardship < 1.0 && 0.0 <= a.riskAversion < 1.0)
  }

  /** Visiting cells creates only agents built from the parameters and, with draws in [0, 1), allowed by the densities. */
  lemma {:induction false} PlaceAllCreates(p: Params, draws: Stream, l: Layout, cells: seq<Pos>)
    requires forall i :: 0 <= i < |l.agents| ==> BuiltFromParams(p, l.agents[i])
    requires UnitDraws(draws) ==> forall i :: 0 <= i < |l.agents| ==> AllowedByDensities(p, l.agents[i])
    ensures forall i :: 0 <= i < |PlaceAll(p, draws, l, cells).agents| ==>
              BuiltFromParams(p, PlaceAll(p, draws, l, cells).agents[i])
    ensures UnitDraws(draws) ==> forall i :: 0 <= i < |PlaceAll(p, draws, l, cells).agents| ==>
              AllowedByDensities(p, PlaceAll(p, draws, l, cells).agents[i])
    decreases |cells|
  {
    if cells != [] {
      PlaceAllCreates(p, draws, l, cells[..|cells| - 1]);
      var m := PlaceAll(p, draws, l, cells[..|cells| - 1]);
      var k := m.next;
      if UnitDraws(draws) {
        var j := k + (if draws(k) < p.copDensity then 2 else 1);
        assert 0.0 <= draws(k) < 1.0 && 0.0 <= draws(k + 1) < 1.0;
        assert 0.0 <= draws(j) < 1.0 && 0.0 <= draws(j + 1) < 1.0;
        assert 0.0 <= draws(j + 2) < 1.0 && 0.0 <= draws(j + 3) < 1.0;
      }
    }
  }

  /** With draws in [0, 1) and densities summing to at least 1, every visited cell is filled. */
  lemma {:induction false} PlaceAllFills(p: Params, draws: Stream, l: Layout, cells: seq<Pos>)
    requires UnitDraws(draws) && DensitySum(p) >= 1.0
    ensures forall pos :: pos in l.occupied ==> pos in PlaceAll(p, draws, l, cells).occupied
    ensures forall i :: 0 <= i < |cells| ==> cells[i] in PlaceAll(p, draws, l, cells).occupied
    decreases |cells|
  {
    if cells != [] {
      var front := cells[..|cells| - 1];
      PlaceAllFills(p, draws, l, front);
      var k := PlaceAll(p, draws, l, front).next;
      var j := k + (if draws(k) < p.copDensity then 2 else 1);
      assert draws(j + 1) < 1.0;
      forall i | 0 <= i < |cells|
        ensures cells[i] in PlaceAll(p, draws, l, cells).occupied
      {
        if i < |front| {
          assert cells[i] == front[i];
        }
      }
    }
  }

  /** Visiting cells in two stretches: the schedule after the first stretch is a prefix of the final one. */
  lemma {:induction false} PlaceAllExtends(p: Params, draws: Stream, l: Layout, a: seq<Pos>, b: seq<Pos>)
    ensures PlaceAll(p, draws, l, a).agents <= PlaceAll(p, draws, l, a + b).agents
    decreases |b|
  {
    if b == [] {
      assert a + b == a;
    } else {
      var front := b[..|b| - 1];
      PlaceAllExtends(p, draws, l, a, front);
      assert (a + b)[..|a + b| - 1] == a + front;
    }
  }

  /** The first cols' columns of the visiting order come first in the visiting order of a wider grid. */
  lemma {:induction false} GridCellsPrefix(rows: nat, x: nat, cols: nat)
    requires x <= cols
    ensures GridCells(rows, x) <= GridCells(rows, cols)
    decreases cols
  {
    if x < cols {
      GridCellsPrefix(rows, x, cols - 1);
    }
  }

  /** Visiting cells records no cell outside them. */
  lemma {:induction false} PlaceAllKeys(p: Params, draws: Stream, l: Layout, cells: seq<Pos>)
    ensures forall q :: q in PlaceAll(p, draws, l, cells).occupied ==> q in l.occupied || q in cells
    decreases |cells|
  {
    if cells != [] {
      var front := cells[..|cells| - 1];
      PlaceAllKeys(p, draws, l, front);
      forall q | q in PlaceAll(p, draws, l, cells).occupied && q !in l.occupied
        ensures q in cells
      {
        if q != cells[|cells| - 1] {
          assert q in front;
        }
      }
    }
  }

  /** The cell the loop is about to visit has not been recorded yet. */
  lemma PlacedBeforeUnvisited(p: Params, draws: Stream, x: nat, y: nat)
    ensures Pos(x, y) !in PlacedBefore(p, draws, x, y).occupied
  {
    var done := GridCells(p.width, x);
    var cells := done + ColumnCells(x, y);
    GridCellsInBounds(p.width, x);
    PlaceAllKeys(p, draws, Unpopulated, cells);
    forall i | 0 <= i < |cells|
      ensures cells[i] != Pos(x, y)
    {
      if i < |done| {
        assert cells[i] == done[i];
      } else {
        assert cells[i] == ColumnCells(x, y)[i - |done|];
      }
    }
  }

  /**
   * The schedule part-way through column x is a prefix of the schedule at the
   * end of that column, so an agent that does not fit the storage stays in it.
   */
  lemma PlacedBeforeGrows(p: Params, draws: Stream, x: nat, y: nat)
    requires y <= p.width
    ensures PlacedBefore(p, draws, x, y).agents <= PlacedBefore(p, draws, x + 1, 0).agents
    ensures !FitsStorage(p, PlacedBefore(p, draws, x, y).agents) ==> !FitsStorage(p, PlacedBefore(p, draws, x + 1, 0).agents)
  {
    var column := ColumnCells(x, p.width);
    assert column == ColumnCells(x, y) + column[y..];
    var before := GridCells(p.width, x) + ColumnCells(x, y);
    assert GridCells(p.width, x + 1) + ColumnCells(x + 1, 0) == before + column[y..];
    PlaceAllExtends(p, draws, Unpopulated, before, column[y..]);
    FitsPrefix(p, PlacedBefore(p, draws, x, y).agents, PlacedBefore(p, draws, x + 1, 0).agents);
  }

  /**
   * The schedule at the start of column x is a prefix of the schedule
   * construction ends with, so an agent that does not fit the storage stays in it.
   */
  lemma PlacedBeforeInPopulate(p: Params, draws: Stream, x: nat)
    requires x <= p.height
    ensures PlacedBefore(p, draws, x, 0).agents <= Populate(p, draws).agents
    ensures !FitsStorage(p, PlacedBefore(p, draws, x, 0).agents) ==> !FitsStorage(p, Populate(p, draws).agents)
  {
    var all := GridCells(p.width, p.height);
    var done := GridCells(p.width, x);
    GridCellsPrefix(p.width, x, p.height);
    assert all == done + all[|done|..];
    assert done + ColumnCells(x, 0) == done;
    PlaceAllExtends(p, draws, Unpopulated, done, all[|done|..]);
    FitsPrefix(p, PlacedBefore(p, draws, x, 0).agents, Populate(p, draws).agents);
  }

  // ---------------------------------------------------------------------
  // The grid's storage

  /**
   * Every agent can be stored where the construction loop writes it,
   * grid[y][x]: the storage Grid(height, width) allocates is `height` lists of
   * `width` cells, so y must be below `height` and x below `width`.
   */
  ghost predicate FitsStorage(p: Params, agents: seq<Agent>)
  {
    forall i :: 0 <= i < |agents| ==> agents[i].pos.y < p.height && agents[i].pos.x < p.width
  }

  /** A prefix of a storable schedule is storable. */
  lemma FitsPrefix(p: Params, a: seq<Agent>, b: seq<Agent>)
    requires a <= b
    ensures FitsStorage(p, b) ==> FitsStorage(p, a)
  {
  }

  /** One visit keeps the schedule storable exactly when it creates no agent or its cell is inside the storage. */
  lemma PlaceCellFits(p: Params, draws: Stream, l: Layout, pos: Pos)
    ensures FitsStorage(p, PlaceCell(p, draws, l, pos).agents) <==>
              FitsStorage(p, l.agents) && (PlaceCell(p, draws, l, pos).agents == l.agents || (pos.y < p.height && pos.x < p.width))
  {
    var r := PlaceCell(p, draws, l, pos);
    if |r.agents| > |l.agents| {
      assert r.agents == l.agents + [r.agents[|l.agents|]];
    }
  }

  /** On a square grid the visited cells and the storage coincide, so every created agent can be stored. */
  lemma SquareGridFits(p: Params, draws: Stream)
    requires p.height == p.width
    ensures FitsStorage(p, Populate(p, draws).agents)
  {
    PopulateConsistent(p, draws);
  }

  /**
   * On a non-square grid whose densities fill every cell, some created agent
   * falls outside the storage: the loop visits (0, width - 1) when width >
   * height and (height - 1, 0) when height > width.
   */
  lemma NonSquareFullGridOverflows(p: Params, draws: Stream)
    requires UnitDraws(draws) && DensitySum(p) >= 1.0
    requires 0 < p.height && 0 < p.width && p.height != p.width
    ensures !FitsStorage(p, Populate(p, draws).agents)
  {
    var l := Populate(p, draws);
    PopulateFillsGrid(p, draws);
    PopulateWellFormed(p, draws);
    var pos := if p.height < p.width then Pos(0, p.width - 1) else Pos(p.height - 1, 0);
    var a := l.occupied[pos];
    assert l.agents[a.id] == a && a.pos == pos;
  }

  // ---------------------------------------------------------------------
  // The populated grid

  /**
   * After construction the ids are exactly 0 .. n-1 in schedule order, the
   * grid and the schedule agree cell by cell, no two agents share a cell,
   * every occupied cell lies in the visited range (x below height, y below
   * width), and there are as many agents as occupied cells, at most one per
   * cell.
   */
  lemma PopulateConsistent(p: Params, draws: Stream)
    ensures WellFormed(Populate(p, draws))
    ensures forall pos :: pos in Populate(p, draws).occupied ==> pos.x < p.height && pos.y < p.width
    ensures forall i, j :: 0 <= i < j < |Populate(p, draws).agents| ==>
              Populate(p, draws).agents[i].pos != Populate(p, draws).agents[j].pos
    ensures |Populate(p, draws).agents| <= p.width * p.height
  {
    var cells := GridCells(p.width, p.height);
    var l := Populate(p, draws);
    PopulateWellFormed(p, draws);
    GridCellsInBounds(p.width, p.height);
    GridCellsLength(p.width, p.height);
    PlaceAllDraws(p, draws, Unpopulated, cells);
    forall pos | pos in l.occupied
      ensures pos.x < p.height && pos.y < p.width
    {
      var i :| 0 <= i < |cells| && cells[i] == pos;
    }
    forall i, j | 0 <= i < j < |l.agents|
      ensures l.agents[i].pos != l.agents[j].pos
    {
      assert l.agents[i].id == i && l.agents[j].id == j;
    }
  }

  /** Construction leaves a well-formed layout whose occupied cells are all visited cells. */
  lemma PopulateWellFormed(p: Params, draws: Stream)
    ensures WellFormed(Populate(p, draws))
    ensures forall pos :: pos in Populate(p, draws).occupied ==> pos in GridCells(p.width, p.height)
  {
    GridCellsDistinct(p.width, p.height);
    PlaceAllWellFormed(p, draws, Unpopulated, GridCells(p.width, p.height));
  }

  /** Construction consumes between two and six draws per cell of the grid. */
  lemma PopulateDraws(p: Params, draws: Stream)
    ensures 2 * (p.width * p.height) <= Populate(p, draws).next <= 6 * (p.width * p.height)
  {
    GridCellsLength(p.width, p.height);
    PlaceAllDraws(p, draws, Unpopulated, GridCells(p.width, p.height));
  }

  /** Two generators that agree on the draws construction consumes produce the same grid and schedule. */
  lemma PopulateReadsOnlyItsDraws(p: Params, d1: Stream, d2: Stream)
    requires forall i: nat :: i < Populate(p, d1).next ==> d1(i) == d2(i)
    ensures Populate(p, d2) == Populate(p, d1)
  {
    PlaceAllReadsOnlyItsDraws(p, d1, d2, Unpopulated, GridCells(p.width, p.height));
  }

  /** Every created agent carries its breed's parameters and every Citizen starts fresh. */
  lemma PopulateBuiltFromParams(p: Params, draws: Stream)
    ensures forall i :: 0 <= i < |Populate(p, draws).agents| ==> BuiltFromParams(p, Populate(p, draws).agents[i])
    ensures forall i :: 0 <= i < |Populate(p, draws).agents| && Populate(p, draws).agents[i].Citizen? ==>
              IsFreshCitizen(Populate(p, draws).agents[i])
  {
    PlaceAllCreates(p, draws, Unpopulated, GridCells(p.width, p.height));
  }

  /**
   * With draws in [0, 1): no Cop without cop density, no Radicalizer without
   * radicalizer density, and Citizen traits within [0, 1).
   */
  lemma PopulateRespectsDensities(p: Params, draws: Stream)
    requires UnitDraws(draws)
    ensures p.copDensity <= 0.0 ==> forall i :: 0 <= i < |Populate(p, draws).agents| ==> !Populate(p, draws).agents[i].Cop?
    ensures p.radicalizerDensity <= 0.0 ==>
              forall i :: 0 <= i < |Populate(p, draws).agents| ==> !Populate(p, draws).agents[i].Radicalizer?
    ensures forall i :: 0 <= i < |Populate(p, draws).agents| && Populate(p, draws).agents[i].Citizen? ==>
              0.0 <= Populate(p, draws).agents[i].hardship < 1.0 && 0.0 <= Populate(p, draws).agents[i].riskAversion < 1.0
  {
    PlaceAllCreates(p, draws, Unpopulated, GridCells(p.width, p.height));
  }

  /** With draws in [0, 1) and no positive density, visiting cells creates nothing. */
  lemma {:induction false} PlaceAllCreatesNothing(p: Params, draws: Stream, l: Layout, cells: seq<Pos>)
    requires UnitDraws(draws)
    requires p.copDensity <= 0.0 && p.radicalizerDensity <= 0.0 && DensitySum(p) <= 0.0
    ensures PlaceAll(p, draws, l, cells).agents == l.agents
    ensures PlaceAll(p, draws, l, cells).occupied == l.occupied
    decreases |cells|
  {
    if cells != [] {
      PlaceAllCreatesNothing(p, draws, l, cells[..|cells| - 1]);
      var k := PlaceAll(p, draws, l, cells[..|cells| - 1]).next;
      var j := k + (if draws(k) < p.copDensity then 2 else 1);
      assert 0.0 <= draws(k) && 0.0 <= draws(j) && 0.0 <= draws(j + 1);
    }
  }

  /** With draws in [0, 1) and no positive density at all, construction creates no agent. */
  lemma PopulateEmptyWithoutDensity(p: Params, draws: Stream)
    requires UnitDraws(draws)
    requires p.copDensity <= 0.0 && p.radicalizerDensity <= 0.0 && DensitySum(p) <= 0.0
    ensures Populate(p, draws).agents == []
    ensures Populate(p, draws).occupied == map[]
  {
    PlaceAllCreatesNothing(p, draws, Unpopulated, GridCells(p.width, p.height));
  }

  /** With draws in [0, 1) and densities summing to at least 1, every visited cell gets an agent. */
  lemma PopulateFillsGrid(p: Params, draws: Stream)
    requires UnitDraws(draws) && DensitySum(p) >= 1.0
    ensures forall x: nat, y: nat :: x < p.height && y < p.width ==> Pos(x, y) in Populate(p, draws).occupied
    ensures |Populate(p, draws).agents| == p.width * p.height
  {
    var cells := GridCells(p.width, p.height);
    var l := Populate(p, draws);
    GridCellsCover(p.width, p.height);
    PlaceAllFills(p, draws, Unpopulated, cells);
    forall x: nat, y: nat | x < p.height && y < p.width
      ensures Pos(x, y) in l.occupied
    {
      var i :| 0 <= i < |cells| && cells[i] == Pos(x, y);
    }
    PopulateFullCount(p, draws);
  }

  /** On a full grid there is one agent per cell. */
  lemma PopulateFullCount(p: Params, draws: Stream)
    requires UnitDraws(draws) && DensitySum(p) >= 1.0
    ensures |Populate(p, draws).agents| == p.width * p.height
  {
    var cells := GridCells(p.width, p.height);
    var l := Populate(p, draws);
    PopulateKeys(p, draws);
    PopulateWellFormed(p, draws);
    GridCellsDistinct(p.width, p.height);
    GridCellsLength(p.width, p.height);
    SetOfDistinctHasLength(cells);
    assert |l.agents| == |l.occupied| == |l.occupied.Keys|;
  }

  /** The occupied cells of a full grid are exactly the visited cells. */
  lemma PopulateKeys(p: Params, draws: Stream)
    requires UnitDraws(draws) && DensitySum(p) >= 1.0
    ensures var cells := GridCells(p.width, p.height);
            Populate(p, draws).occupied.Keys == (set i | 0 <= i < |cells| :: cells[i])
  {
    var cells := GridCells(p.width, p.height);
    PlaceAllFills(p, draws, Unpopulated, cells);
    PopulateWellFormed(p, draws);
    KeysAreCells(Populate(p, draws).occupied, cells);
  }

  /** A map whose keys are exactly the entries of a sequence has that sequence's image as key set. */
  lemma KeysAreCells(occupied: map<Pos, Agent>, cells: seq<Pos>)
    requires forall i :: 0 <= i < |cells| ==> cells[i] in occupied
    requires forall q :: q in occupied ==> q in cells
    ensures occupied.Keys == (set i | 0 <= i < |cells| :: cells[i])
  {
  }

  /** A sequence without repetitions has as many distinct entries as it is long. */
  lemma {:induction false} SetOfDistinctHasLength(cells: seq<Pos>)
    requires forall i, j :: 0 <= i < j < |cells| ==> cells[i] != cells[j]
    ensures |set i | 0 <= i < |cells| :: cells[i]| == |cells|
    decreases |cells|
  {
    if cells != [] {
      var front := cells[..|cells| - 1];
      SetOfDistinctHasLength(front);
      var s := set i | 0 <= i < |cells| :: cells[i];
      var t := set i | 0 <= i < |front| :: front[i];
      assert s == t + {cells[|cells| - 1]};
      assert cells[|cells| - 1] !in t;
    }
  }
}
