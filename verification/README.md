# Epstein civil violence with radicalizers: construction, tick counter and reporters

This project models the core of `EpsteinCivilViolence`, a spatial agent-based
simulation of civil unrest after Epstein (2002, PNAS 99 suppl. 3) extended
with a Radicalizer breed and a food-scarcity parameter. It covers three parts
of the simulation object:

- **Construction.** An empty grid is set up, then the density sum
  `cop + citizen + radicalizer` is checked against 1 and construction fails
  with a `ValueError` when it is larger. Otherwise every grid cell is visited
  once, column by column. A chain of comparisons against the generator's
  draws decides whether the cell gets a Cop, a Radicalizer, a Citizen or
  nothing. Python's short-circuit `and` and `elif` decide how many draws the
  chain consumes. Every created agent gets the next `unique_id`, is written
  into the grid at `grid[y][x]` and is added to the schedule.
- **The step counter.** Each tick adds one to `iteration`. `running` turns
  false once `iteration` exceeds `max_iters`.
- **The reporters.** `count_type_citizens`, `count_radical`, `count_jailed`
  and `count_attacks` are accumulator loops over the scheduled agents.

The generator is a stream of reals: the i-th call of `random()` returns
`draws(i)`. Placement is then a deterministic function of the parameters and
the stream (`Placement.Populate`). The imperative construction loop, nested
over columns and rows, is proved to compute exactly that function.

Modules:

- `wrappers.dfy`: `Option` and `Result`.
- `agents.dfy`: the closed agent datatype `Cop | Radicalizer | Citizen` and the
  Citizen condition `Quiescent | Active`.
- `placement.dfy`: parameters and defaults, the per-cell comparison chain,
  the visiting order, the placement specification and its properties, and
  which placements fit the grid's storage.
- `counts.dfy`: the four counter loops, their summation specification `Tally`
  and its properties.
- `model.dfy`: the class `EpsteinCivilViolence` with the grid storage (an
  `array2`), the schedule (a `seq`), the generator cursor, `iteration` and
  `running`. It also holds the construction wrapper that models both error
  paths.

What the code does, which the model follows:

- Each test of the comparison chain draws afresh. A Cop needs a first draw
  below the cop density and a second draw above the radicalizer density. The
  Citizen test compares with the whole density sum, not with the citizen
  density.
- The cap check is `iteration > max_iters`, so the run stops on the tick
  after the cap is reached, not on reaching it.
- The density check rejects only a sum strictly above 1, although its message
  says "must be less than 1". A sum of exactly 1 is accepted, and
  `Placement.PopulateFillsGrid` shows that such a sum fills every cell.
- Line 49 builds Mesa's `Grid(width, height)` as `Grid(height, width)`. So
  `coord_iter` visits x below `height` and, for each x, y below `width`. The
  assignment `self.grid[y][x]` at lines 76, 81 and 95 indexes the storage,
  which is `height` lists of `width` cells. So it needs y below `height` and x
  below `width`. On a square grid, such as the 40×40 default, the two ranges
  coincide (`Placement.SquareGridFits`). On any other grid, construction
  raises `IndexError` as soon as an agent is created outside the storage.
  A density sum of 1 makes this certain (`Placement.NonSquareFullGridOverflows`).
  The model visits the cells in the order the code does, and `Construct`
  fails with `IndexError` in exactly that case.

Two slips in `epstein_civil_violence/model.py` are read as intended: the
missing comma after `food_scarcity = .45` (line 25) and the missing colon
after `if agent.breed == "citizen"` (line 149).

## Model

| member | source | states |
|---|---|---|
| `Placement.DefaultParams` | epstein_civil_violence/model.py:15-31 | The keyword defaults (a 40×40 grid, densities 0.7/0.054/0.02, cap 1000) pass the density check. |
| `Placement.DecideCell` | epstein_civil_violence/model.py:73-90 | Deciding one cell consumes at least 2 and at most 6 draws. |
| `Placement.DecideCellOutcome` | epstein_civil_violence/model.py:73-90 | A cell gets a Cop iff draw₁ < cop density and draw₂ > radicalizer density. Otherwise it gets a Radicalizer iff the next draw < radicalizer density. Otherwise it gets a Citizen iff the following draw < the density sum, with the next two draws as hardship and risk aversion. Otherwise it stays empty. The draws consumed follow short-circuit evaluation: 1 or 2 for the cop test, then 1, 1 and 2 more. |
| `Placement.DecideCellReadsOnlyItsDraws` | epstein_civil_violence/model.py:73-90 | A cell's outcome depends only on the draws it is counted as consuming. |
| `Placement.NewAgent` | epstein_civil_violence/model.py:74-93 | A decision creates an agent exactly when the cell is not left empty. The agent gets the given id and the cell's position. |
| `Placement.ColumnCells` | epstein_civil_violence/model.py:72 | Column x is visited as the cells (x, 0), (x, 1), … in order. |
| `Placement.GridCellsLength` | epstein_civil_violence/model.py:72 | The visiting order of cols columns of rows cells has exactly cols·rows entries. |
| `Placement.GridCellsInBounds` | epstein_civil_violence/model.py:72 | Every visited cell lies in the visited columns and rows. |
| `Placement.GridCellsDistinct` | epstein_civil_violence/model.py:72 | No cell is visited twice. |
| `Placement.GridCellsCover` | epstein_civil_violence/model.py:72 | Every cell of the visited columns and rows is visited. |
| `Placement.GridCellsPrefix` | epstein_civil_violence/model.py:72 | The visiting order of the first columns is a prefix of the visiting order of more columns. |
| `Placement.PlaceCell` | epstein_civil_violence/model.py:73-96 | One pass of the loop body. The schedule keeps its old agents and gains at most one, which has the next id and the visited position. |
| `Placement.PlaceAll` | epstein_civil_violence/model.py:72-96 | Visiting cells in order only extends the schedule, by at most one agent per cell. |
| `Placement.Populate` | epstein_civil_violence/model.py:72-96 | The whole construction loop over the cells in `coord_iter` order. Because line 49 builds `Grid(height, width)`, that is x below `height` and y below `width`. It creates at most width·height agents. |
| `Placement.AddAgentWellFormed` | epstein_civil_violence/model.py:74-96 | Recording an agent with the next id on its own empty cell keeps ids equal to schedule indices and keeps grid and schedule in agreement. |
| `Placement.PlaceCellWellFormed` | epstein_civil_violence/model.py:73-96 | Visiting an empty cell keeps the layout well formed, records no other cell and only extends the schedule. |
| `Placement.PlaceCellWritesOneCell` | epstein_civil_violence/model.py:76 | Visiting a cell leaves what the grid shows at every other cell unchanged. |
| `Placement.PlacedBeforeNextRow` | epstein_civil_violence/model.py:72 | Visiting cell (x, y) turns the layout before it into the layout before (x, y+1). |
| `Placement.PlacedBeforeColumns` | epstein_civil_violence/model.py:72 | A finished column is the start of the next one. The loop starts from an empty grid and schedule and, after `height` columns, ends with `Populate`. |
| `Placement.PlaceAllExtends` | epstein_civil_violence/model.py:72-96 | The schedule after visiting some cells is a prefix of the schedule after visiting more. |
| `Placement.PlaceAllKeys` | epstein_civil_violence/model.py:72-96 | Visiting cells records no cell outside them. |
| `Placement.PlacedBeforeUnvisited` | epstein_civil_violence/model.py:72-76 | The cell the loop is about to visit is not yet occupied. |
| `Placement.PlacedBeforeGrows` | epstein_civil_violence/model.py:72-96 | The schedule part-way through a column is a prefix of the schedule at the column's end. An agent that does not fit the storage stays in the schedule. |
| `Placement.PlacedBeforeInPopulate` | epstein_civil_violence/model.py:72-96 | The schedule at the start of a column is a prefix of the final schedule. An agent that does not fit the storage stays in the schedule. |
| `Placement.PlaceAllWellFormed` | epstein_civil_violence/model.py:72-96 | Visiting distinct empty cells keeps the layout well formed, records no other cell and only extends the schedule. |
| `Placement.PlaceAllDraws` | epstein_civil_violence/model.py:72-93 | Each visited cell consumes between 2 and 6 draws and adds at most one agent. |
| `Placement.PlaceAllReadsOnlyItsDraws` | epstein_civil_violence/model.py:72-93 | Two generators that agree on the consumed draws give the same placement. |
| `Placement.PlaceAllCreates` | epstein_civil_violence/model.py:74-93 | Every created agent carries its breed's parameters. A Radicalizer gets the cop vision. Every Citizen starts free and Quiescent. With draws in [0,1), each breed appears only when its density allows it. |
| `Placement.PlaceAllFills` | epstein_civil_violence/model.py:83 | With draws in [0,1) and a density sum of at least 1, every visited cell gets an agent. |
| `Placement.PlaceAllCreatesNothing` | epstein_civil_violence/model.py:73-83 | With draws in [0,1) and no positive density, no agent is created. |
| `Placement.FitsPrefix` | epstein_civil_violence/model.py:76-96 | A prefix of a schedule whose agents all fit the storage fits it too. |
| `Placement.PlaceCellFits` | epstein_civil_violence/model.py:76-96 | After one visit every agent fits the storage iff every agent fitted before and either no agent was created or the cell is inside the `height`×`width` storage. |
| `Placement.SquareGridFits` | epstein_civil_violence/model.py:72-96 | When height = width, every agent construction creates fits the storage. |
| `Placement.NonSquareFullGridOverflows` | epstein_civil_violence/model.py:72-96 | When height ≠ width, both are positive, draws lie in [0,1) and the density sum is at least 1, some created agent falls outside the storage. |
| `Placement.PopulateConsistent` | epstein_civil_violence/model.py:69-96 | After construction the ids are exactly 0..n-1 in schedule order. Every agent sits on its own cell with x < height and y < width, and no two agents share a cell. n equals the number of occupied cells, and n ≤ width·height. |
| `Placement.PopulateWellFormed` | epstein_civil_violence/model.py:69-96 | Construction leaves a well-formed layout whose occupied cells are all visited cells. |
| `Placement.PopulateDraws` | epstein_civil_violence/model.py:72-93 | Construction consumes between 2·cells and 6·cells draws. |
| `Placement.PopulateReadsOnlyItsDraws` | epstein_civil_violence/model.py:72-93 | Construction is determined by the draws it consumes. |
| `Placement.PopulateBuiltFromParams` | epstein_civil_violence/model.py:74-93 | Every created agent has its breed's parameters, and every Citizen is fresh. |
| `Placement.PopulateRespectsDensities` | epstein_civil_violence/model.py:73-90 | With draws in [0,1): no Cop without cop density and no Radicalizer without radicalizer density. Citizen hardship and risk aversion lie in [0,1). |
| `Placement.PopulateEmptyWithoutDensity` | epstein_civil_violence/model.py:73-83 | With draws in [0,1) and no positive density, the schedule and the grid stay empty. |
| `Placement.PopulateFillsGrid` | epstein_civil_violence/model.py:83 | With draws in [0,1) and a density sum of at least 1, every visited cell is occupied and there are width·height agents. |
| `Placement.PopulateFullCount` | epstein_civil_violence/model.py:83 | With draws in [0,1) and a density sum of at least 1, there are exactly width·height agents. |
| `Placement.PopulateKeys` | epstein_civil_violence/model.py:72-96 | On a full grid the occupied cells are exactly the visited cells, one agent each. |
| `Counts.Weight` | epstein_civil_violence/model.py:114-150 | Only a citizen contributes to a count. It contributes at most 1 to every count except attacks. |
| `Counts.Tally` | epstein_civil_violence/model.py:109-151 | A count other than attacks is at most the number of agents. |
| `Counts.CountTypeCitizens` | epstein_civil_violence/model.py:109-122 | The loop returns the number of citizens in the given condition. It skips cops and radicalizers, and jailed citizens when excluding, which is the default. |
| `Counts.CountRadical` | epstein_civil_violence/model.py:124-131 | The loop returns the number of radicalized citizens. |
| `Counts.CountJailed` | epstein_civil_violence/model.py:133-141 | The loop returns the number of citizens with a nonzero jail sentence. |
| `Counts.CountAttacks` | epstein_civil_violence/model.py:143-151 | The loop returns the sum of the citizens' attacks. |
| `Counts.TallyAppend` | epstein_civil_violence/model.py:109-151 | Every count, attacks included, is additive over concatenated agent lists. |
| `Counts.CountsBoundedByCitizens` | epstein_civil_violence/model.py:109-141 | The condition, radical and jailed counts never exceed the number of citizens. |
| `Counts.ConditionPartition` | epstein_civil_violence/model.py:109-141 | Citizens split exactly. Without exclusion: Quiescent + Active. With it: unjailed Quiescent + unjailed Active + jailed. |
| `Counts.ExcludingJailedNeverAdds` | epstein_civil_violence/model.py:118-119 | Excluding the jailed never raises a condition count. |
| `Counts.NoCitizensNothingCounted` | epstein_civil_violence/model.py:143-151 | A list without citizens has zero attacks, and every other count is zero too. |
| `Counts.FreshPopulationCounts` | epstein_civil_violence/model.py:109-151 | For freshly created citizens, every citizen counts as Quiescent and every other count is 0. |
| `CivilViolence.LayoutShownOnGrid` | epstein_civil_violence/model.py:74-96 | A grid showing a well-formed layout whose agents lie inside it agrees with its schedule cell by cell. |
| `CivilViolence.EpsteinCivilViolence.constructor` | epstein_civil_violence/model.py:32-68 | The set-up before the density check: the parameters, `iteration = 0`, `running` already true from the base class, an empty schedule, the generator cursor at 0, and an empty storage of `height` lists of `width` cells. |
| `CivilViolence.EpsteinCivilViolence.PopulateGrid` | epstein_civil_violence/model.py:72-96 | The loop over the columns of an empty grid succeeds iff every created agent fits the storage. It then leaves exactly the schedule, grid and draws that `Populate` specifies. |
| `CivilViolence.EpsteinCivilViolence.PlaceColumn` | epstein_civil_violence/model.py:72-96 | One column of the loop. It completes iff every agent so far fits the storage, and then moves the schedule, the grid and the draws from the layout before column x to the layout after it. |
| `CivilViolence.EpsteinCivilViolence.Draw` | epstein_civil_violence/model.py:73 | A `random()` call returns the next draw of the stream and advances the cursor by one. |
| `CivilViolence.EpsteinCivilViolence.Store` | epstein_civil_violence/model.py:76-96 | The write `grid[y][x] = agent` and `schedule.add(agent)`. It succeeds iff (x, y) lies inside the storage, and then writes only that cell and appends the agent. Otherwise nothing changes, which stands for the IndexError. |
| `CivilViolence.EpsteinCivilViolence.PlaceAt` | epstein_civil_violence/model.py:73-96 | One cell of the loop. It makes the same draws and comparisons as `DecideCell` and consumes the draws `PlaceCell` does. It fails iff it creates an agent outside the storage. Otherwise it writes only cell [y][x] and leaves the schedule `PlaceCell` specifies. |
| `CivilViolence.EpsteinCivilViolence.Step` | epstein_civil_violence/model.py:101-107 | `iteration` rises by exactly 1. `running` becomes false once `iteration > max_iters` and never becomes true again, and the invariant is kept. The schedule, the grid and the generator cursor are left unconstrained. |
| `CivilViolence.Construct` | epstein_civil_violence/model.py:32-98 | Fails with `ValueError` and line 71's message exactly when the density sum exceeds 1. Otherwise it fails with `IndexError` exactly when some created agent falls outside the storage. Otherwise it returns the freshly populated, running simulation. Its grid and schedule agree, and its generator cursor stands exactly after the draws `Populate` consumes. |
| `CivilViolence.InitialReports` | epstein_civil_violence/model.py:98-99 | Right after construction the reporters give Quiescent = all citizens and Active = Jailed = Radicals = Attacks = 0. |

## Left out

- Mesa's `Model`, `RandomActivation` and `Grid` are not part of this model, and neither is the torus wrapping. The schedule is the sequence of added agents.
- Mesa's `Model.__init__`, called at line 32, is assumed to set `running = True`. Line 98 then sets it again.
- Mesa's `Grid(width, height)` is assumed to allocate `width` lists of `height` cells, to index them as `grid[x][y]`, and to have `coord_iter` walk x outer and y inner. Mesa's source is not part of this model.
- `CivilViolence.EpsteinCivilViolence.Step`: `schedule.step()` runs the agents' actions (arrest, grievance, radicalization, movement), which live in `agent.py`, and that file is not part of this model. Those actions may change the schedule and the grid and may call `random()`. The frame lets a tick change the schedule, the grid and the generator cursor, and the contract says nothing about them afterwards. No count and no draw position after a tick follows from the model.
- `DataCollector` and the model and agent reporter lambdas (lines 50-68, 99, 104) are reporting plumbing. Only the counting functions they call are modelled.
- The initial Citizen state (jail sentence 0, Quiescent, not radicalized, no attacks) follows the canonical Epstein model, because `agent.py` is not part of this model.
- The pseudo-random generator is a parameter, a stream of reals. Floats are modelled as reals, so rounding of the density sum is not modelled.
- Grid and schedule hold agent values, not shared object references. The aliasing between the two is not modelled, since no modelled operation changes an agent after it is created.
- After an `IndexError` the partly built object is discarded, so the model does not describe its state.
- `Counts.CountTypeCitizens`: `condition` is the two-valued `Condition`. A caller passing any other string, which would count 0, is not representable.
- Grid dimensions are natural numbers. Negative `height` or `width` are not representable.
