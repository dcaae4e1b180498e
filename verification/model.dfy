/**
 * The simulation object: its parameters, the generator it draws from, the
 * grid, the schedule, and the tick counter with the `running` flag.
 *
 * Construction sets up an empty grid, validates the densities, then visits
 * every cell once, column by column, and places agents as the Placement
 * module specifies; writing an agent outside the grid's storage aborts it.
 * A step advances the tick counter and stops the run once the counter passes
 * the iteration cap.
 */
module CivilViolence {
  import opened Wrappers
  import opened Agents
  import opened Placement
  import Counts

  /**
   * The errors construction raises: the density check's ValueError, and the
   * IndexError of a grid[y][x] assignment outside the grid's storage.
   */
  datatype InitError = ValueError(message: string) | IndexError

  const DensityMessage := "Cop density + citizen density must be less than 1"

  /** Whether a run with the given cap is still running after `iteration` ticks. */
  predicate RunningAt(maxIters: int, iteration: nat)
  {
    iteration == 0 || iteration <= maxIters
  }

  /** The grid shows exactly the occupied cells of a layout; cell (x, y) is stored at [y, x]. */
  ghost predicate GridShows(grid: array2<Option<Agent>>, occupied: map<Pos, Agent>)
    reads grid
  {
    forall y: nat, x: nat :: y < grid.Length0 && x < grid.Length1 ==> grid[y, x] == Lookup(occupied, Pos(x, y))
  }

  /**
   * The schedule and a height-by-width grid agree: every scheduled agent's id
   * is its schedule index and it sits on its own cell inside the grid; every
   * occupied cell holds the scheduled agent of that position.
   */
  ghost predicate ScheduleMatchesGrid(grid: array2<Option<Agent>>, agents: seq<Agent>)
    reads grid
  {
    && (forall i :: 0 <= i < |agents| ==>
          && agents[i].id == i
          && agents[i].pos.x < grid.Length1 && agents[i].pos.y < grid.Length0
          && grid[agents[i].pos.y, agents[i].pos.x] == Some(agents[i]))
    && (forall y: nat, x: nat :: y < grid.Length0 && x < grid.Length1 && grid[y, x].Some? ==>
          && grid[y, x].value.pos == Pos(x, y)
          && grid[y, x].value.id < |agents|
          && agents[grid[y, x].value.id] == grid[y, x].value)
  }

  /** A grid showing a well-formed layout whose agents lie inside its bounds matches the layout's schedule. */
  lemma LayoutShownOnGrid(grid: array2<Option<Agent>>, l: Layout)
    requires WellFormed(l) && GridShows(grid, l.occupied)
    requires forall i :: 0 <= i < |l.agents| ==> l.agents[i].pos.x < grid.Length1 && l.agents[i].pos.y < grid.Length0
    ensures ScheduleMatchesGrid(grid, l.agents)
  {
  }

  class EpsteinCivilViolence {
    const params: Params
    /** The generator's outputs; drawIndex of them have been consumed. */
    const draws: Stream
    var drawIndex: nat
    var iteration: nat
    var running: bool
    /** The schedule's agents, in the order they were added. */
    var agents: seq<Agent>
    /** The storage of Grid(height, width): `height` lists of `width` cells; grid[y][x] is stored at [y, x]. */
    const grid: array2<Option<Agent>>

    /** The grid has the configured size, and `running` is false exactly when a step has taken the counter past the cap. */
    ghost predicate Valid()
      reads this, grid
    {
      && grid.Length0 == params.height && grid.Length1 == params.width
      && (running <==> RunningAt(params.maxIters, iteration))
    }

    /**
     * The set-up before the density check: the parameters, the tick counter
     * at 0, an empty schedule and an empty grid of the configured size.  The
     * base class's initialiser, called first, already marks the run as
     * running.
     */
    constructor (p: Params, draws: Stream)
      ensures params == p && this.draws == draws
      ensures fresh(grid) && grid.Length0 == p.height && grid.Length1 == p.width
      ensures forall y: nat, x: nat :: y < grid.Length0 && x < grid.Length1 ==> grid[y, x] == None
      ensures drawIndex == 0 && iteration == 0 && running && agents == []
    {
      params := p;
      this.draws := draws;
      drawIndex := 0;
      iteration := 0;
      agents := [];
      grid := new Option<Agent>[p.height, p.width]((_, _) => None);
      running := true;
    }

    /**
     * The construction loop: visit the columns in order, starting from an
     * empty grid and schedule.  It succeeds, with
     * exactly the layout Populate specifies, iff every created agent fits the
     * storage; otherwise an assignment raised IndexError.
     */
    method PopulateGrid() returns (ok: bool)
      requires grid.Length0 == params.height && grid.Length1 == params.width
      requires agents == [] && drawIndex == 0
      requires forall cy: nat, cx: nat :: cy < grid.Length0 && cx < grid.Length1 ==> grid[cy, cx] == None
      modifies this`drawIndex, this`agents, grid
      ensures ok <==> FitsStorage(params, Populate(params, draws).agents)
      ensures ok ==> agents == Populate(params, draws).agents && drawIndex == Populate(params, draws).next
      ensures ok ==> GridShows(grid, Populate(params, draws).occupied)
    {
      var uniqueId := 0;
      PlacedBeforeColumns(params, draws, 0);
      for x := 0 to params.height
        invariant agents == PlacedBefore(params, draws, x, 0).agents && drawIndex == PlacedBefore(params, draws, x, 0).next
        invariant uniqueId == |agents|
        invariant FitsStorage(params, agents)
        invariant GridShows(grid, PlacedBefore(params, draws, x, 0).occupied)
        invariant forall cy: nat, cx: nat :: cy < grid.Length0 && x <= cx < grid.Length1 ==> grid[cy, cx] == None
      {
        var columnOk;
        uniqueId, columnOk := PlaceColumn(x, uniqueId);
        if !columnOk {
          PlacedBeforeInPopulate(params, draws, x + 1);
          ok := false;
          return;
        }
      }
      ok := true;
    }

    /**
     * The construction loop's inner loop: visit the cells of column x from the
     * top row down.  It completes iff every agent created so far fits the
     * storage; otherwise it stops at the assignment that raised IndexError.
     */
    method PlaceColumn(x: nat, uniqueId: nat) returns (nextId: nat, ok: bool)
      requires grid.Length0 == params.height && grid.Length1 == params.width
      requires agents == PlacedBefore(params, draws, x, 0).agents && drawIndex == PlacedBefore(params, draws, x, 0).next
      requires uniqueId == |agents| && FitsStorage(params, agents)
      requires GridShows(grid, PlacedBefore(params, draws, x, 0).occupied)
      requires forall cy: nat, cx: nat :: cy < grid.Length0 && x <= cx < grid.Length1 ==> grid[cy, cx] == None
      modifies this`drawIndex, this`agents, grid
      ensures ok <==> FitsStorage(params, PlacedBefore(params, draws, x + 1, 0).agents)
      ensures ok ==> agents == PlacedBefore(params, draws, x + 1, 0).agents && drawIndex == PlacedBefore(params, draws, x + 1, 0).next
      ensures ok ==> nextId == |agents| && GridShows(grid, PlacedBefore(params, draws, x + 1, 0).occupied)
      ensures ok ==> forall cy: nat, cx: nat :: cy < grid.Length0 && x + 1 <= cx < grid.Length1 ==> grid[cy, cx] == None
    {
      nextId := uniqueId;
      for y := 0 to params.width
        invariant agents == PlacedBefore(params, draws, x, y).agents && drawIndex == PlacedBefore(params, draws, x, y).next
        invariant nextId == |agents| && FitsStorage(params, agents)
        invariant GridShows(grid, PlacedBefore(params, draws, x, y).occupied)
        invariant forall cy: nat, cx: nat :: cy < grid.Length0 && cx < grid.Length1 && (x < cx || (x == cx && y <= cy)) ==>
                    grid[cy, cx] == None
      {
        ghost var l := PlacedBefore(params, draws, x, y);
        PlacedBeforeUnvisited(params, draws, x, y);
        nextId, ok := PlaceAt(x, y, nextId, l);
        PlacedBeforeNextRow(params, draws, x, y);
        PlaceCellFits(params, draws, l, Pos(x, y));
        if !ok {
          PlacedBeforeGrows(params, draws, x, y + 1);
          return;
        }
        PlaceCellWritesOneCell(params, draws, l, Pos(x, y));
      }
      PlacedBeforeColumns(params, draws, x);
      ok := true;
    }

    /** One call of the generator's random(). */
    method Draw() returns (r: real)
      modifies this`drawIndex
      ensures r == draws(old(drawIndex)) && drawIndex == old(drawIndex) + 1
    {
      r := draws(drawIndex);
      drawIndex := drawIndex + 1;
    }

    /**
     * `self.grid[y][x] = agent` followed by `self.schedule.add(agent)`.  The
     * assignment raises IndexError when (x, y) lies outside the storage, and
     * the agent is then never scheduled.
     */
    method Store(x: nat, y: nat, a: Agent) returns (ok: bool)
      modifies this`agents, grid
      ensures ok <==> y < grid.Length0 && x < grid.Length1
      ensures ok ==> agents == old(agents) + [a] && grid[y, x] == Some(a)
      ensures !ok ==> agents == old(agents)
      ensures forall cy, cx :: 0 <= cy < grid.Length0 && 0 <= cx < grid.Length1 && (cy != y || cx != x) ==>
                grid[cy, cx] == old(grid[cy, cx])
    {
      if y < grid.Length0 && x < grid.Length1 {
        grid[y, x] := Some(a);
        agents := agents + [a];
        ok := true;
      } else {
        ok := false;
      }
    }

    /**
     * One pass of the construction loop's body: run the comparison chain for
     * cell (x, y) and, if it yields an agent, give it the next id, write it
     * into that cell and add it to the schedule.  `ok` is false when that
     * write raised IndexError.
     */
    method PlaceAt(x: nat, y: nat, uniqueId: nat, ghost l: Layout) returns (nextId: nat, ok: bool)
      requires agents == l.agents && drawIndex == l.next && uniqueId == |agents|
      requires Pos(x, y) !in l.occupied
      requires y < grid.Length0 && x < grid.Length1 ==> grid[y, x] == None
      modifies this`drawIndex, this`agents, grid
      ensures drawIndex == PlaceCell(params, draws, l, Pos(x, y)).next
      ensures nextId == |PlaceCell(params, draws, l, Pos(x, y)).agents|
      ensures ok <==> PlaceCell(params, draws, l, Pos(x, y)).agents == l.agents || (y < grid.Length0 && x < grid.Length1)
      ensures ok ==> agents == PlaceCell(params, draws, l, Pos(x, y)).agents
      ensures ok && y < grid.Length0 && x < grid.Length1 ==>
                grid[y, x] == Lookup(PlaceCell(params, draws, l, Pos(x, y)).occupied, Pos(x, y))
      ensures forall cy, cx :: 0 <= cy < grid.Length0 && 0 <= cx < grid.Length1 && (cy != y || cx != x) ==>
                grid[cy, cx] == old(grid[cy, cx])
    {
      var cell := Pos(x, y);
      ghost var k := drawIndex;
      var isCop := false;
      var r := Draw();
      if r < params.copDensity {
        r := Draw();
        isCop := r > params.radicalizerDensity;
      }
      if isCop {
        var cop := Cop(uniqueId, cell, params.copVision);
        assert DecideCell(params, draws, k) == CellDecision(NewCop, drawIndex);
        nextId := uniqueId + 1;
        ok := Store(x, y, cop);
      } else {
        ghost var j := drawIndex;
        assert j == k + (if draws(k) < params.copDensity then 2 else 1);
        r := Draw();
        if r < params.radicalizerDensity {
          var rad := Radicalizer(uniqueId, cell, params.copVision, params.foodScarcity);
          assert DecideCell(params, draws, k) == CellDecision(NewRadicalizer, drawIndex);
          nextId := uniqueId + 1;
          ok := Store(x, y, rad);
        } else {
          r := Draw();
          if r < DensitySum(params) {
            var hardship := Draw();
            var riskAversion := Draw();
            var citizen := Citizen(uniqueId, cell, params.citizenVision, hardship, params.legitimacy,
                                   riskAversion, params.activeThreshold, 0, Quiescent, false, 0);
            assert DecideCell(params, draws, k) == CellDecision(NewCitizen(hardship, riskAversion), drawIndex);
            nextId := uniqueId + 1;
            ok := Store(x, y, citizen);
          } else {
            assert DecideCell(params, draws, k) == CellDecision(Vacant, drawIndex);
            nextId := uniqueId;
            ok := true;
          }
        }
      }
    }

    /**
     * One tick: the agents act, then the counter advances and the run stops
     * once it passes the cap.  The agents' actions are not part of this
     * model, so the frame lets them change the schedule, the grid and the
     * generator's cursor, and the contract promises nothing about any of
     * them after a tick.
     */
    method Step()
      requires Valid()
      modifies this`iteration, this`running, this`agents, this`drawIndex, grid
      ensures Valid()
      ensures iteration == old(iteration) + 1
      ensures running == (old(running) && iteration <= params.maxIters)
    {
      iteration := iteration + 1;
      if iteration > params.maxIters {
        running := false;
      }
    }
  }

  /**
   * Construction as the caller sees it: a density sum above 1 fails with a
   * ValueError before any agent exists; an agent created outside the grid's
   * storage fails with an IndexError; otherwise the populated, running
   * simulation, whose schedule and grid agree.
   */
  method Construct(p: Params, draws: Stream) returns (r: Result<EpsteinCivilViolence, InitError>)
    ensures r.Failure? <==> DensitySum(p) > 1.0 || !FitsStorage(p, Populate(p, draws).agents)
    ensures DensitySum(p) > 1.0 ==> r == Failure(ValueError(DensityMessage))
    ensures DensitySum(p) <= 1.0 && !FitsStorage(p, Populate(p, draws).agents) ==> r == Failure(IndexError)
    ensures r.Success? ==>
              && fresh(r.value) && fresh(r.value.grid) && r.value.Valid()
              && ScheduleMatchesGrid(r.value.grid, r.value.agents)
              && r.value.params == p && r.value.iteration == 0 && r.value.running
              && r.value.draws == draws && r.value.drawIndex == Populate(p, draws).next
              && r.value.agents == Populate(p, draws).agents
              && GridShows(r.value.grid, Populate(p, draws).occupied)
  {
    var model := new EpsteinCivilViolence(p, draws);
    if DensitySum(p) > 1.0 {
      return Failure(ValueError(DensityMessage));
    }
    var ok := model.PopulateGrid();
    if !ok {
      return Failure(IndexError);
    }
    model.running := true;
    assert ScheduleMatchesGrid(model.grid, model.agents) by {
      PopulateWellFormed(p, draws);
      LayoutShownOnGrid(model.grid, Populate(p, draws));
    }
    return Success(model);
  }

  /**
   * The reporters right after construction: every citizen is counted
   * Quiescent, and nobody is Active, jailed, radical or attacking.
   */
  lemma InitialReports(p: Params, draws: Stream)
    ensures var agents := Populate(p, draws).agents;
            && Counts.Tally(agents, Counts.TypeCitizens(Quiescent, true)) == Counts.Tally(agents, Counts.Citizens)
            && Counts.Tally(agents, Counts.TypeCitizens(Active, true)) == 0
            && Counts.Tally(agents, Counts.Jailed) == 0
            && Counts.Tally(agents, Counts.Radicals) == 0
            && Counts.Tally(agents, Counts.Attacks) == 0
  {
    PopulateBuiltFromParams(p, draws);
    Counts.FreshPopulationCounts(Populate(p, draws).agents);
  }
}
