# Vida artificial: a Dafny model of the Petri-dish competition

The system runs a contest between two colonies of artificial micro-organisms on a square
Petri dish.

- **The field.** The dish is a toroidal grid of cells (`Agar`). Each cell holds the id of the
  colony occupying it (0 is VACIO, empty), that agent's energy, and a quantity of nutrients.
  Nutrients are read through a drift offset that moves every few ticks.
- **A tick.** On each tick (`Petri.move_colonies`) every agent of a snapshot is visited in a
  shuffled order. It feeds on 1% of the nutrients under it and pays the cost of living (and of
  moving, when it moved). It dies without energy. Otherwise it may divide into a free
  neighbouring cell, then moves. Moving onto another colony's agent starts a fight (`compite`).
- **The colonies.** A colony (`Colonia`, and its Spanish twin in `vida/colonia.py`) mirrors
  its agents in per-colony grids of agent objects, together with cached movements, division
  wishes and a live counter.
- **The agents.** An agent derives from one of two bases: `Microorganismo` in
  `lib/microorg.py`, with English method names, or the one in `lib/microorganismo.py`, with
  Spanish method names. Its policy (`mos/*.py`) decides a movement in {-1, 0, 1}² from the 3×3
  neighbourhood and whether to divide.
- **The contest.** The plotter (`lib/grafica.py`) counts both colonies after every tick, ends
  the contest when at most one colony survives past tick 10, and builds the result record.
- **The ranking.** `lib/ranking.py` writes each result to a daily YAML-like log. It reads logs
  back, tallies wins, losses, draws and points per colony, and reports the colonies ordered
  by win rate, then points.

The model has one Dafny module per source file:

| module | models |
|---|---|
| Defs | the constants of lib/defs.py |
| Py, PyStr | Python's list subscripts and `del`, `str.strip`/`split`/`find`/`replace`, `int()`/`float()` and `f'{n}'` |
| Agar | lib/agar.py: the field as a class with the wrapped accessors |
| Dish | lib/petri.py's pure parts: `is_in_dish`, `calculate_nutrients`, the combat and division arithmetic, the snapshot |
| Siembra | the sowing of the initial agents in `Petri.__init__` |
| Petri | lib/petri.py: class `Petri` with the grid mutators, `can_move`, `compite`, `mitosis` and `move_colonies` |
| Rejilla, Colonia | lib/colonia.py: class `Colonia` over per-colony grids |
| VidaColonia | vida/colonia.py: the Spanish `Colonia` |
| Microorg, Microorganismo | the two agent bases, as classes |
| Mos, Instancia | which base each policy derives from, which methods it overrides, and agent creation |
| Aleatorio, BuscaN, MOmm, MOpp, MOxx, MOyy, Tacticas2 | the policies of mos/ |
| Grafica | lib/grafica.py: statistics, end test, headless loop and result record |
| Registro, Tabla, Informe, Escritura, Ranking | lib/ranking.py: log parsing, tally, report, log writing, and the `RankingSystem` class |

Some of the source is mid-migration. The model follows the code as written, with one
exception: the kill of lib/colonia.py (see "## Findings") is modelled as written and shown to
lose agents, but the dish itself uses the corrected kill. The bindings are:

- `lib/petri.py` imports `Colony` from `lib/colony.py`, a shim that only raises ImportError;
  the model binds `Colony` to `Colonia` of `lib/colonia.py`. Petri's calls of `kill`, `create`,
  `move`, `live`, `mov`, `moved`, `duplicate` and `n_alives` match methods of `Colonia`; its
  calls of `name()` and `author()` do not, because `Colonia` only has `nombre()` and `autor()`,
  so `colony_name` and `author_name` raise AttributeError (see "## Findings").
- `lib/colonia.py` calls the English agent methods (`update`, `move`, `mitosis`). An agent
  on the Spanish base lacks them and raises AttributeError; `Colonia.Live` returns this as
  `raised`, and the tick stops.
- `vida/colonia.py` imports `Posicion`, `Movimiento`, `agar`, `Microorganismo` and the
  constants from `vida/agar.py`, `vida/microorganismo.py` and `vida/definiciones.py`, which
  are not part of this model; the model binds them to lib/agar.py, to the Spanish base of
  lib/microorganismo.py and to lib/defs.py. It calls the Spanish methods (`actualizar`,
  `decidir_movimiento`, `quiere_mitosis`); `VidaColonia.Colonia.Vivir` raises for an agent on
  the English base.
- `lib/grafica.py` calls `petri.mover_colonias`; the model binds it to `move_colonies`.
- `Tacticas2` reads its neighbourhood transposed (`ocupacion(pos.y + ..., pos.x + ...)`), and
  so does the model.

Random draws are inputs. This covers:

- the shuffle of the snapshot;
- the order of the division offsets;
- the tie-breaking coin of a fight;
- the drift offset and direction;
- the initial placements;
- the choices of `Aleatorio`.

Floating-point numbers are exact reals.

## Model

| member | source | states |
|---|---|---|
| Microorg.Decision | lib/microorg.py:44-53 | the base `move` writes (0, 0); of the policies on this base only MOyy replaces it, so every other kind stays put |
| Microorg.Microorganismo.constructor | lib/microorg.py:18-21 | a new agent has colony 0, no position and energy 0 |
| Microorg.Microorganismo.Update | lib/microorg.py:31-42 | `update` sets exactly the colony id, the position and the energy |
| Microorg.Microorganismo.Move | lib/microorg.py:44-53 | the movement is the one the agent's class decides, (0, 0) for every kind but MOyy |
| Microorg.Microorganismo.Mitosis | lib/microorg.py:55-63 | the agent asks to divide iff it is MOyy with more than 500 units of energy |
| Microorg.Microorganismo.Mover | lib/microorg.py:65-76 | the deprecated `mover` always writes (0, 0) |
| Microorganismo.Decision | lib/microorganismo.py:45-53 | `decidir_movimiento` writes a unit move; every kind that does not override it stays put |
| Microorganismo.Microorganismo.constructor | lib/microorganismo.py:18-21 | a new agent has colony 0, no position and energy 0 |
| Microorganismo.Microorganismo.Actualizar | lib/microorganismo.py:32-43 | `actualizar` sets exactly the colony id, the position and the energy |
| Microorganismo.Microorganismo.DecidirMovimiento | lib/microorganismo.py:45-53 | the movement is the one the agent's class decides; MOmm always goes (-1, -1) |
| Microorganismo.Microorganismo.QuiereMitosis | lib/microorganismo.py:55-60 | the agent asks to divide iff it is Aleatorio with more than 5000 units of energy |
| Instancia.Nuevo | lib/colonia.py:87 | a new agent of class k is built on k's base class, fresh, with colony 0, no position and energy 0 |
| Mos.BaseOf | mos/moyy.py:6 | only MOyy imports the English base `lib.microorg`; the others import `lib.microorganismo` |
| Mos.OverridesOneScheme | mos/buscan.py:22-40 | every policy overrides exactly one naming scheme, and only Aleatorio, MOmm and MOyy override the one their base calls |
| Mos.NombresDistintos | mos/aleatorio.py:17-21 | the seven policies' `nombre` results (Aleatorio's cited; the others at lines 17-21 of their own files, 25-28 in tacticas2.py) are pairwise distinct, and every `autor` is "Compu2" |
| Aleatorio.Decision | mos/aleatorio.py:23-26 | each axis is a draw in {0, 1, 2} minus one, so the move is a unit move |
| Aleatorio.DecidirMovimiento | mos/aleatorio.py:23-26 | dx is the first draw minus one and dy the second draw minus one |
| Aleatorio.QuiereMitosis | mos/aleatorio.py:28-30 | divides iff the energy exceeds 5000 |
| Aleatorio.EveryMoveReachable | mos/aleatorio.py:23-26 | each of the nine unit moves comes from some pair of draws |
| BuscaN.BestStep | mos/buscan.py:30-33 | one scan step moves the running maximum to the new offset exactly when its nutrients are strictly larger |
| BuscaN.BestSpec | mos/buscan.py:24-33 | after k steps the running maximum dominates the k cells scanned and the agent's own cell, and when it left the own cell it did so for a value strictly above all earlier ones |
| BuscaN.BestChoice | mos/buscan.py:24-36 | the chosen cell is a richest of the nine; the agent stays when its own cell is a richest, and otherwise goes to the first strictly richest in scan order |
| BuscaN.SeenAt | mos/buscan.py:28-31 | scan step 3(x_rel + 1) + (y_rel + 1) reads the nutrients at (x + x_rel, y + y_rel) |
| BuscaN.OffsetAt | mos/buscan.py:28-29 | scan step 3(x_rel + 1) + (y_rel + 1) visits offset (x_rel, y_rel): x outer, y inner |
| BuscaN.Move | mos/buscan.py:22-36 | the loop writes the offset of the running maximum after all nine steps |
| BuscaN.MoveChoice | mos/buscan.py:22-36 | the move is a unit move to a richest neighbour, (0, 0) when the own cell is richest, and otherwise strictly richer than the own cell and than every cell scanned before it |
| BuscaN.Mitosis | mos/buscan.py:38-40 | divides iff the energy exceeds 5000 |
| MOmm.DecidirMovimiento | mos/momm.py:22-25 | always (-1, -1) |
| MOmm.QuiereMitosis | mos/momm.py:27-29 | never divides |
| MOpp.Move | mos/mopp.py:22-25 | always (1, 1) |
| MOpp.Mitosis | mos/mopp.py:27-29 | never divides |
| MOxx.Decision | mos/moxx.py:22-30 | dy is 0; dx is -1 iff the left cell is strictly richer, 1 iff the left is not and the right is, 0 otherwise |
| MOxx.Move | mos/moxx.py:22-30 | the agent stays iff neither horizontal neighbour is strictly richer than its own cell |
| MOxx.Mitosis | mos/moxx.py:32-34 | divides iff the energy exceeds 500 |
| MOyy.Decision | mos/moyy.py:22-30 | dx is 0; dy is -1 iff the cell at y - 1 is strictly richer, 1 iff that one is not and the cell at y + 1 is, 0 otherwise |
| MOyy.Move | mos/moyy.py:22-30 | the agent stays iff neither vertical neighbour is strictly richer than its own cell |
| MOyy.Mitosis | mos/moyy.py:32-34 | divides iff the energy exceeds 500 |
| Colonia.Iota | lib/colonia.py:35-36 | the traversal tables are `list(range(n))`: n entries, entry i is i |
| Colonia.Colonia.constructor | lib/colonia.py:16-36 | a new colony has its id and class, a 2 rad by 2 rad grid of empty slots, zero agents, every cached movement (0, 0) and every division flag false |
| Colonia.Colonia.GridOkSet | lib/colonia.py:76-98 | storing nothing or one of the colony's own agents in a slot keeps the agent grid well formed |
| Colonia.Colonia.NAlives | lib/colonia.py:51-52 | `n_alives` is the counter, and the counter is the number of agents in the grid |
| Colonia.Colonia.Mov | lib/colonia.py:54-58 | the cached movement of the slot, (0, 0) when the subscript raises IndexError |
| Colonia.Colonia.Moved | lib/colonia.py:60-64 | true iff the cached movement is not (0, 0) |
| Colonia.Colonia.Duplicate | lib/colonia.py:66-70 | the cached division flag, false when the subscript raises IndexError |
| Colonia.Colonia.CacheSlot | lib/colonia.py:72-80 | a slot the agent subscript reaches is also reached in the movement and flag grids, the same one on a full grid |
| Colonia.Colonia.Create | lib/colonia.py:84-90 | an empty slot receives a fresh agent of the colony's class and the counter grows by one; an occupied slot or an IndexError changes nothing |
| Colonia.Colonia.KillAsWritten | lib/colonia.py:72-82 | the kill as written: `del` shortens the row, the slot y then reaches is cleared, and when that subscript raises the counter and caches stay |
| Colonia.Colonia.Kill | lib/colonia.py:72-82 | the kill as intended: the slot is emptied in place, the counter drops by one, the caches of the slot are reset, and the counter still counts the grid |
| Colonia.Colonia.Move | lib/colonia.py:92-100 | the agent object goes to the new slot, the old slot is emptied and its caches reset; the counter is unchanged; an IndexError stops the method at the point it is raised |
| Colonia.Colonia.MoveWithin | lib/colonia.py:92-98 | on a full grid with both slots inside, the agent goes from old to new and old is emptied |
| Colonia.Colonia.LiveSlotOnGrid | lib/colonia.py:102-113 | on a full grid, `live(x, y)` acts on (x, y) itself, and the agent it may update was created by the colony |
| Colonia.Colonia.Live | lib/colonia.py:102-127 | the agent in the slot is told its colony, position and cell energy, its movement and division wish are cached; an empty slot gets its caches reset; an empty grid raises ZeroDivisionError and a Spanish-based agent AttributeError; agents never change |
| Colonia.Colonia.LiveAgent | lib/colonia.py:116-121 | the English-based branch: id, position and energy are set, then the movement and division wish the class decides are cached |
| Colonia.Colonia.Nombre | lib/colonia.py:129-130 | the name of the colony's class |
| Colonia.Colonia.Autor | lib/colonia.py:132-133 | the author of the colony's class |
| Colonia.Colonia.CallText | lib/colonia.py:129-133 | calling a text method by name: `nombre` and `autor` answer the class's name and author, and a name the class does not define raises AttributeError (None) |
| Rejilla.Empty | lib/colonia.py:24-25 | w rows of h empty slots |
| Rejilla.CountRowUpdate | lib/colonia.py:76-87 | writing one slot changes a row's number of agents by what leaves and what comes in |
| Rejilla.CountUpdate | lib/colonia.py:76-87 | writing one slot changes the grid's number of agents by what leaves and what comes in |
| Rejilla.CountMove | lib/colonia.py:92-95 | moving an agent onto an empty slot keeps the number of agents |
| Rejilla.CountEmpty | lib/colonia.py:24-25 | a grid with no agent counts zero |
| Rejilla.CountPattern | lib/colonia.py:18-25 | two grids occupied in the same places count the same |
| Rejilla.DelThenClear | lib/colonia.py:75-76 | `del row[y]; row[y] = None`: the row is one shorter, keeps only its own agents, and the second subscript fails exactly when y was the last slot |
| Rejilla.DelThenClearLosesAgent | lib/colonia.py:74-77 | killing the first of two agents leaves a row with no agent while the counter drops by one only |
| Rejilla.DelThenClearLastSlot | lib/colonia.py:74-82 | killing the agent in the last slot removes it, but the IndexError that follows keeps the counter from dropping |
| VidaColonia.Colonia.constructor | vida/colonia.py:18-36 | a new colony has its identity and class, a 2 radio by 2 radio grid of empty slots, zero agents, every cached movement (0, 0) and every division flag false |
| VidaColonia.Colonia.GridOkSet | vida/colonia.py:59-90 | storing nothing or one of the colony's own agents in a slot keeps the agent grid well formed |
| VidaColonia.Colonia.NVivos | vida/colonia.py:114-115 | `n_vivos` is the counter, and the counter is the number of agents |
| VidaColonia.Colonia.MovimientoDe | vida/colonia.py:39-43 | the cached movement, (0, 0) when the subscript raises IndexError |
| VidaColonia.Colonia.Movio | vida/colonia.py:46-50 | true iff the cached movement is not (0, 0) |
| VidaColonia.Colonia.Duplica | vida/colonia.py:53-57 | the cached division flag, false when the subscript raises IndexError |
| VidaColonia.Colonia.CacheSlot | vida/colonia.py:59-70 | a slot the agent subscript reaches is also reached in the movement and flag grids |
| VidaColonia.Colonia.Crear | vida/colonia.py:73-79 | an empty slot receives a fresh agent of the colony's class and the counter grows by one; otherwise nothing changes |
| VidaColonia.Colonia.EliminarAsWritten | vida/colonia.py:60-70 | the removal as written: `del` shortens the row, the slot y then reaches is cleared, and when that subscript raises the counter and caches stay |
| VidaColonia.Colonia.Eliminar | vida/colonia.py:60-70 | the removal as intended: the slot is emptied in place, the counter drops by one and the caches of the slot are reset |
| VidaColonia.Colonia.Mover | vida/colonia.py:82-90 | the agent object goes to the new slot, the old slot is emptied and its caches reset; the counter is unchanged |
| VidaColonia.Colonia.VivirSlot | vida/colonia.py:93-98 | `vivir` acts on the coordinates reduced modulo the sizes, unless the row was shortened below that column |
| VidaColonia.Colonia.Vivir | vida/colonia.py:93-112 | the agent is told its identity, position and cell energy, its movement and division wish are cached; an empty slot gets its caches reset; an empty grid raises ZeroDivisionError and an English-based agent AttributeError |
| VidaColonia.Colonia.Nombre | vida/colonia.py:117-118 | the name of the colony's class |
| VidaColonia.Colonia.Autor | vida/colonia.py:120-121 | the author of the colony's class |
| Agar.Agar.constructor | lib/agar.py:40-46 | a fresh field has zero sizes, zero drift offset, distribution 0 and no cells |
| Agar.AccessorsInRange | lib/agar.py:60-70 | for any integers, including negative ones, `ocupacion`, `energia` and `nutrientes` read a cell of the grid through Python's modulo, the nutrient read shifted by the drift offset |
| Agar.Periodic | lib/agar.py:60-70 | the three accessors are periodic in both coordinates with the sizes as periods |
| Agar.InGridReads | lib/agar.py:60-70 | inside the grid the occupancy and energy reads are the cell itself, and the nutrient read at (x - rx, y - ry) is the cell (x, y) |
| Dish.SquareMono | lib/petri.py:223-226 | squares are monotone on naturals, the step that bounds the dish test |
| Dish.StrictlyInside | lib/petri.py:223-226 | a coordinate whose squared distance to r is below r squared lies strictly between 0 and 2r |
| Dish.InDishInGrid | lib/petri.py:223-226 | every position `is_in_dish` accepts is a cell of the 2r by 2r grid off its first row and column |
| Dish.CentreAndCorner | lib/petri.py:223-226 | the centre is in the dish iff the radius is positive, and the corner (0, 0) never is |
| Dish.Sign | lib/petri.py:212-219 | the unit step of `can_move` along one axis: zero, positive or negative with the component |
| Dish.Nutrients | lib/petri.py:83-106 | `calculate_nutrients` is defined except on the lattice of a grid narrower than 4, where `max_x // 4` is zero and `%` raises ZeroDivisionError |
| Dish.SlopeShare | lib/petri.py:88 | the share (w - x)(h - y) / (w h) of the sloped distributions lies in (0, 1] |
| Dish.NutrientsBounds | lib/petri.py:83-106 | every distribution but the gaussians gives between 0 and 1.277 times MAX_NUTRI; the gaussians give their own value |
| Dish.NutrientShapes | lib/petri.py:89-106 | famine is uniform MAX_NUTRI / 11.062; the bar covers exactly the columns within 5 of the middle; the ring exactly the squared distances strictly between 40 and 115; other ids give 0 |
| Dish.SnapRowSpec | lib/petri.py:126-129 | the snapshot of a row holds exactly its occupied cells |
| Dish.SnapshotSpec | lib/petri.py:124-129 | the snapshot `alives` holds exactly the occupied cells of the field |
| Dish.FirstFree | lib/petri.py:261-270 | the offset the search of `mitosis` stops at lies in the part of the order still to search |
| Dish.FirstFreeSpec | lib/petri.py:261-270 | the search finds the first offset leading to an empty cell of the dish, and finds none exactly when there is none |
| Dish.Child | lib/petri.py:257-270 | the child's cell is an empty cell of the dish on the grid; there is none iff no offset leads to one |
| Dish.HalfSpec | lib/petri.py:266-269 | parent and child each keep 49% of the parent's energy, 2% is lost, and an agent placed with 1000 gives two of 490 |
| Dish.CombatSpec | lib/petri.py:228-252 | the defender wins iff it has more energy after the tie-break, the winner gains 7.5% of the loser's energy, the loser loses the difference (0.01 after a tie), and with positive energies the winner ends above the loser and above its own start |
| Siembra.IsGridSet | lib/petri.py:272-275 | writing one cell keeps the field's shape and changes that cell only |
| Siembra.Marks | lib/petri.py:46-63 | the occupied slots of the marks are exactly the cells holding the colony |
| Siembra.IdCountSet | lib/petri.py:272-275 | writing one cell changes a colony's census by the cell that leaves and the one that comes in |
| Siembra.Free | lib/petri.py:60-61 | a draw that is kept lies inside the grid, off its first row and column, on an empty cell |
| Siembra.Seeded | lib/petri.py:55-63 | the placement keeps the field's shape, uses at most the draws given, places at most the agents asked for, and places fewer only when the draws run out |
| Siembra.SeededStep | lib/petri.py:57-63 | one iteration: the first draw is consumed, and placed with E_INICIAL when free |
| Siembra.SeededCells | lib/petri.py:55-63 | the placement only fills empty cells inside the dish with the colony and E_INICIAL; every other cell keeps what it held |
| Siembra.SeededCount | lib/petri.py:55-63 | the placement adds exactly the agents it reports to the colony's census and leaves every other colony's census alone |
| Siembra.SeedColonies | lib/petri.py:55-63 | the placement of every colony keeps the field's shape and uses at most the draws given |
| Siembra.Blank | lib/petri.py:41-48 | the field before sowing is 2r by 2r empty cells |
| Siembra.BlankCount | lib/petri.py:41-48 | an empty field holds no agent of any colony |
| Siembra.SeedColoniesCount | lib/petri.py:51-63 | after the sowing each colony 1..N_COL holds at most MOS_INICIAL cells, exactly MOS_INICIAL unless the draws ran out, and no other colony holds any |
| Petri.MirrorsSet | lib/petri.py:272-307 | writing a cell and the matching colony slot together keeps the colony mirroring the field |
| Petri.MirrorsKeep | lib/petri.py:152-160 | writing a cell without changing its id keeps every colony mirrored |
| Petri.Eaten | lib/petri.py:153-157 | an agent eats 1% of non-negative nutrients, leaving 99% |
| Petri.MirrorsMove | lib/petri.py:281-295 | moving onto an empty cell keeps every colony mirrored, and only the mover's colony changes its slots |
| Petri.MovedOk | lib/petri.py:281-291 | a move keeps every cell well formed |
| Petri.FoughtOk | lib/petri.py:243-252 | after a fight every cell but the loser's stays well formed, and the loser's too when its energy stays positive |
| Petri.KilledOk | lib/petri.py:250-252 | clearing the loser's cell restores a well-formed field |
| Petri.DividedOk | lib/petri.py:263-269 | a division into an empty cell with positive halves keeps every cell well formed |
| Petri.DividedSameNutrients | lib/petri.py:263-269 | a division changes ids and energies only, and the parent keeps its colony |
| Petri.MirrorsIds | lib/petri.py:65-73 | changing energies and nutrients without touching ids keeps every colony mirrored |
| Petri.FedCellsSpec | lib/petri.py:149-160 | feeding: ids stay, only the agent's energy changes, by 1% of the nutrients under the drift offset less E_VIVIR, and only that cell's nutrients drop |
| Petri.MetabolisedSpec | lib/petri.py:149-173 | the metabolic step: only the read cell loses nutrients; only the agent's cell changes its agent, which keeps its colony with the new energy when it is positive and is removed otherwise; a well-formed field stays well formed |
| Petri.MetabolisedSteps | lib/petri.py:152-173 | feeding, paying E_MOVERSE when moved, then removing an agent without energy is the metabolic step |
| Petri.MirrorsCount | lib/colonia.py:51-52 | a colony that mirrors the field counts as many agents as the field has cells with its id |
| Petri.BlankMirrors | lib/petri.py:41-52 | the empty field is mirrored by the empty colonies |
| Petri.FamineTotal | lib/petri.py:67-73 | under famine `total_nutri` is the number of cells times MAX_NUTRI / 11.062 |
| Petri.FamineRow | lib/petri.py:70-73 | under famine a row adds its length times MAX_NUTRI / 11.062 |
| Petri.FertileOk | lib/petri.py:69-72 | setting non-negative nutrients keeps the field well formed and every id in place |
| Petri.NewColonies | lib/petri.py:51-52 | `add_colony` makes N_COL fresh empty colonies, colony c of class kinds[c] with identity c + 1 |
| Petri.Petri.constructor | lib/petri.py:24-81 | the field is the sowing of the draws on an empty 2r by 2r field followed by the nutrients of the distribution; the colonies have the classes given; the drift offset and direction are the draws; the dish is valid |
| Petri.Petri.Prepare | lib/petri.py:55-73 | on the empty field, the sowing and the nutrient loop leave the field `__init__` promises |
| Petri.Petri.Started | lib/petri.py:41-52 | the empty field with empty colonies is a valid dish |
| Petri.Petri.ColonyCounts | lib/petri.py:123 | in a valid dish each colony's `n_alives` is the number of cells holding its id |
| Petri.Petri.ColonyName | lib/petri.py:197-199 | as written: `name()` is not a method of the colony, so every call raises AttributeError (None), whatever the id |
| Petri.Petri.AuthorName | lib/petri.py:201-203 | as written: `author()` is not a method of the colony, so every call raises AttributeError (None), whatever the id |
| Petri.Petri.ColonyNombre | lib/petri.py:197-199 | corrected to `nombre()`: the name of the class of colony ((id - 1) mod N_COL), Python's non-negative modulo |
| Petri.Petri.AuthorAutor | lib/petri.py:201-203 | corrected to `autor()`: the author of the class of colony ((id - 1) mod N_COL) |
| Petri.Petri.KillMo | lib/petri.py:297-307 | the cell becomes VACIO with no energy, its nutrients stay, and the colonies drop the agent |
| Petri.Petri.CreateMo | lib/petri.py:272-279 | the empty cell gets the id and energy, the named colony places a new agent there, the other colonies stay |
| Petri.Petri.MoveMo | lib/petri.py:281-295 | id and energy move to the empty target, the source is emptied, nutrients stay, and the colony moves its agent object along |
| Petri.Petri.ShiftSlot | lib/petri.py:293-295 | the colony half of `move_mo`: every colony mirrors the moved field |
| Petri.Petri.MoveCell | lib/petri.py:285-291 | the field half of `move_mo` |
| Petri.Petri.CanMove | lib/petri.py:205-221 | the move succeeds iff the raw target is in the dish; the agent then steps one cell along the sign of each component, stays otherwise, never leaves the grid, and a non-zero accepted move always changes cell |
| Petri.Petri.Settle | lib/petri.py:230-248 | the energies after a fight are those of the combat rule, and the loser is returned |
| Petri.Petri.Compite | lib/petri.py:228-252 | the winner holds the combat rule's energy and the loser its own, and the loser is removed when its energy is no longer positive; nobody changes cell |
| Petri.Petri.Divide | lib/petri.py:266-269 | parent and child both hold half of the parent's energy less 1%, and the parent's colony holds the child |
| Petri.Petri.Mitosis | lib/petri.py:254-270 | the first offset of the order leading to an empty cell of the dish receives a child of the same colony; with none, nothing changes |
| Petri.Petri.FreeNeighbour | lib/petri.py:260-270 | the search loop finds exactly the child's cell |
| Petri.Petri.Feed | lib/petri.py:149-160 | the agent's cell feeds through the drift offset and pays E_VIVIR |
| Petri.Petri.SetCells | lib/petri.py:154-157 | storing a field with the same ids keeps the dish's invariant |
| Petri.Petri.Metabolise | lib/petri.py:147-173 | an agent on the Spanish base raises AttributeError with the field fed (FedCells); otherwise the field is the metabolic step (Metabolised: feeding, E_VIVIR, E_MOVERSE when moved, removal without energy), `moved` is whether the movement its class chooses on the fed field (Microorg.Choice) is not (0, 0), and a survivor's colony has cached that movement and the MOyy wish to divide above 500 units |
| Petri.Petri.FeedAndLive | lib/petri.py:152-168 | the field is the fed field less E_MOVERSE when the agent moved |
| Petri.Petri.LiveAndPay | lib/petri.py:163-168 | the colony's `live`, then E_MOVERSE when the cached movement is not (0, 0) |
| Petri.Petri.LiveOnly | lib/petri.py:163-164 | the colony's `live` changes neither the field nor any colony's agents; it raises iff the class is on the Spanish base |
| Petri.Petri.SetEnergy | lib/petri.py:154 | the agent's energy is overwritten and nothing else changes |
| Petri.Petri.Seed | lib/petri.py:55-63 | the sowing loop of one colony leaves the field of the placement and consumes its draws |
| Petri.Petri.Draw | lib/petri.py:58-63 | one draw creates an agent with E_INICIAL exactly when it is free |
| Petri.Petri.SeedAll | lib/petri.py:55-63 | the sowing of all colonies leaves the field of the placement of colonies 1 to N_COL |
| Petri.Petri.Fertilise | lib/petri.py:65-73 | every cell gets its `calculate_nutrients` value, ids and energies stay, and the total is the sum of the values |
| Petri.Petri.FertiliseRow | lib/petri.py:70-73 | one row of the nutrient loop and its contribution to the total |
| Petri.Petri.Turn | lib/petri.py:143-187 | the field and the raised flag are TurnOutcome of the old field: a snapshot entry whose cell has emptied since does nothing and leaves every colony's agents alone; otherwise its agent takes the turn Turned, and the dish keeps its invariant |
| Petri.Petri.Occupied | lib/petri.py:145-187 | for an agent still on its cell: on the Spanish base the field is the fed field and the turn raises; otherwise the field is the metabolic step with the movement chosen on the fed field, and for a survivor the Acted field with the MOyy wish and that movement; valid unless raised |
| Petri.Petri.Act | lib/petri.py:175-187 | the field is Acted: the division (Mitosed) when the colony cached the wish, then the cached movement (Followed); only ids and energies change and the dish stays valid |
| Petri.Petri.Follow | lib/petri.py:179-187 | the field is Followed: a (0, 0) movement or one whose raw target leaves the dish changes nothing; otherwise the agent moves into an empty Target, fights an agent of another colony there (Fight), or stays when its own colony holds it; only ids and energies change |
| Petri.Petri.SnapshotAlives | lib/petri.py:124-129 | `alives` is the snapshot of the occupied cells |
| Petri.Petri.Drift | lib/petri.py:189-195 | the drift direction is redrawn on ticks with t % 10 < 5 and t % 6 == 0, and the read offset moves by it on ticks with t % 10 < 5 |
| Petri.Petri.MoveColonies | lib/petri.py:118-195 | the clock advances by one and `alives` is the snapshot; the field and the raised flag are TurnsOutcome of the tick's draws on the old field; the nutrients drift (DriftDirection, DriftOffset) unless a colony raised; every turn keeps the dish valid |
| Petri.Petri.Turns | lib/petri.py:137-187 | the field and the raised flag are TurnsOutcome of the first min(len(alives), len(shuffle)) draws: in shuffle order, skipping draws outside the snapshot, and stopping at the first AttributeError; the drift is left alone |
| Petri.Petri.NthTurn | lib/petri.py:137-144 | draw m: the snapshot entry it picks, when inside the snapshot, takes its Turn; field and flag are then those of the first m + 1 draws, and after a raise those of all the draws |
| Petri.Target | lib/petri.py:205-221 | `can_move` keeps the agent in the grid, and a non-zero movement changes its position iff the raw target is in the dish |
| Petri.RaisedSticks | lib/petri.py:137-187 | once a turn has raised, no later draw changes the field or the flag: the exception leaves the loop |
| Tacticas2.NumVecinoAMovimiento | mos/tacticas2.py:49-58 | a neighbour number maps to a unit (row, column) offset; numbers outside 0..8 give (0, 0) |
| Tacticas2.NumVecinoDivMod | mos/tacticas2.py:51-57 | the table is the row-major numbering of the 3x3 block: number n is (n / 3 - 1, n % 3 - 1) |
| Tacticas2.NumVecinoIndex | mos/tacticas2.py:41-57 | the table inverts the row-major order of the scan in `ver_vecindario` |
| Tacticas2.Libres | mos/tacticas2.py:98 | the entries `comer` may pick are exactly the empty cells |
| Tacticas2.Parientes | mos/tacticas2.py:112 | the entries `reproducir` may pick are exactly the neighbours, not the own cell, of the own colony |
| Tacticas2.ScanSpec | mos/tacticas2.py:93-118 | the running maximum from 0.0 finds something iff some eligible entry is positive, and then finds the first eligible entry holding the largest eligible value |
| Tacticas2.PresaSpec | mos/tacticas2.py:82-87 | a prey exists iff some neighbour is of another colony, not empty and weaker than the agent, and the chosen one is the first such in row-major order |
| Tacticas2.Estrategia | mos/tacticas2.py:126-143 | the chain eat, kill, reproduce always yields a unit offset |
| Tacticas2.EstrategiaSpec | mos/tacticas2.py:126-143 | food first (the richest empty neighbour with positive food, the first in row-major order), else a weaker stranger, else the strongest kin; the agent stays only when none applies |
| Tacticas2.CensoParticion | mos/tacticas2.py:60-75 | the own and the other counts of `contar_vivos` together are the occupied cells |
| Tacticas2.FilaParticion | mos/tacticas2.py:69-73 | the same partition for one row |
| Tacticas2.VecAt | mos/tacticas2.py:41-45 | entry k of the neighbourhood lists is the field read at the offset the table gives for k |
| Tacticas2.VecAtOffset | mos/tacticas2.py:41-45 | entry 3(dF + 1) + (dC + 1) is the field read at (row + dF, column + dC) |
| Tacticas2.Tacticas2.constructor | mos/tacticas2.py:19-22 | a new agent has colony 0, no position, energy 0 and row and column 0 |
| Tacticas2.Tacticas2.DondeEstoy | mos/tacticas2.py:30-33 | the row is taken from y and the column from x; nothing else changes |
| Tacticas2.Tacticas2.VerVecindario | mos/tacticas2.py:35-47 | the loop builds the occupation, energy and nutrient lists of the nine neighbours in row-major order |
| Tacticas2.Tacticas2.ContarVivos | mos/tacticas2.py:60-75 | the loop counts own cells and other occupied cells over rows up to the field's height and columns up to its width |
| Tacticas2.Tacticas2.Matar | mos/tacticas2.py:77-89 | the loop finds a prey iff there is one and moves to the first |
| Tacticas2.Tacticas2.Comer | mos/tacticas2.py:91-103 | the loop moves to the first richest empty neighbour when its food is positive |
| Tacticas2.Tacticas2.Reproducir | mos/tacticas2.py:105-118 | the loop moves to the first strongest kin when its energy is positive |
| Tacticas2.Tacticas2.Move | mos/tacticas2.py:126-143 | the agent records its position transposed and writes the chain's choice: the column offset to dx and the row offset to dy |
| Tacticas2.Tacticas2.Mitosis | mos/tacticas2.py:145-147 | divides iff the energy exceeds 500 |
| Grafica.Ends | lib/grafica.py:136-146 | the competition ends iff more than ten ticks have passed and at most one colony has agents left |
| Grafica.RowAliveMarks | lib/grafica.py:125-130 | inside the field the count of a row is the number of the colony's cells in that row |
| Grafica.AliveMarks | lib/grafica.py:124-134 | the count over the first n rows is the number of the colony's cells in them |
| Grafica.AliveIsCensus | lib/grafica.py:116-134 | on a field of the scanned size the statistics count every agent of the colony exactly once |
| Grafica.StatsMatchColonies | lib/grafica.py:116-134 | on a dish of the scanned size the populations reported are the colonies' own counters |
| Grafica.RowNutrientsNonNegative | lib/grafica.py:135 | a row's nutrient total is never negative on a field without negative nutrients |
| Grafica.NutrientsNonNegative | lib/grafica.py:121-135 | `total_nutrientes` is never negative on a field without negative nutrients |
| Grafica.Graficadora.constructor | lib/grafica.py:20-41 | the clock at zero, nothing started, nothing ended, nothing counted, no names |
| Grafica.Graficadora.ScanRow | lib/grafica.py:125-135 | the inner loop gives the row's populations and energies of colonies 1 and 2 and its nutrients |
| Grafica.Graficadora.Scan | lib/grafica.py:117-135 | the two loops give the statistics of the 2R by 2R square |
| Grafica.Graficadora.ActualizarEstadisticas | lib/grafica.py:116-151 | the statistics are those of the square, and the competition is ended and complete once the end test holds, and stays so |
| Grafica.Graficadora.Registrar | lib/grafica.py:136-146 | the statistics are stored, the end flags set once the end test holds |
| Grafica.Graficadora.Paso | lib/grafica.py:80-84 | one pass: a tick of the dish, the clock, and the statistics of the new field; a raised error leaves the plotter as it was |
| Grafica.Graficadora.Avanzar | lib/grafica.py:83-84 | the clock advances by one and the statistics are taken |
| Grafica.Graficadora.EjecutarHeadless | lib/grafica.py:76-90 | the run is started; the loop stops by the end test or at exactly `max_iteraciones` ticks; a fresh end comes with the end test holding; the statistics of a run that ticked are the census of the dish |
| Grafica.Graficadora.ResultadoCompetencia | lib/grafica.py:227-254 | the colony with strictly more agents wins and scores its population; equal populations are "Empate" worth 0; the other fields are the plotter's state |
| Tabla.BumpOrdered | lib/ranking.py:151-166 | a `self.rankings[n]` update on the defaultdict keeps every name once, in the order it was first met |
| Tabla.TallyOrdered | lib/ranking.py:134-166 | after any contests the dictionary's names are exactly its keys, each once, in first-met order |
| Tabla.Share | lib/ranking.py:144-166 | what one contest adds to a colony: as many wins, losses and draws as contests, and its points only when it is named and won |
| Tabla.ApplyShare | lib/ranking.py:144-166 | one contest puts a colony in the rankings iff it was there or is one of the two names, and moves its counters by its share |
| Tabla.CreditSwap | lib/ranking.py:155-162 | the branch where the second name wins credits like the first-name branch with the names swapped |
| Tabla.DrawnShare | lib/ranking.py:150-166 | a drawn contest gives each of its colonies a contest and a draw, and nothing to any other colony |
| Tabla.WonShare | lib/ranking.py:150-162 | a won contest gives the winner a contest, a win and the points, the loser a contest and a loss, nothing to others |
| Tabla.BumpTwice | lib/ranking.py:151-166 | two updates move a colony by the counters of each update that names it, and only those |
| Tabla.TallyIsTotal | lib/ranking.py:126-174 | a colony is in the rankings iff some contest names it, and its counters are the sum of its shares over the contests |
| Tabla.AppearsSnoc | lib/ranking.py:144-146 | a colony is named in the contests iff it is named before the last one or in the last one |
| Tabla.TotalAbsent | lib/ranking.py:134-142 | a colony named in no contest has all counters at zero |
| Tabla.TotalBalanced | lib/ranking.py:150-166 | over any contests a colony's wins, losses and draws add up to its contests |
| Tabla.TotalPoints | lib/ranking.py:155-162 | a colony's points are the points of the contests it won |
| Tabla.Balanced | lib/ranking.py:126-174 | every ranked colony has wins + losses + draws == contests, the points of the contests it won, and at least one contest |
| Tabla.TotalAppears | lib/ranking.py:151-152 | a colony named in some contest has at least one contest |
| Tabla.TallyEmpty | lib/ranking.py:134-166 | the rankings are empty exactly when no contest was loaded |
| Informe.Entries | lib/ranking.py:168-174 | the entries of the rankings follow the dictionary's order, one per name, with the averages filled in |
| Informe.Rows | lib/ranking.py:168-172 | one entry per given name, in order |
| Informe.InsertSorted | lib/ranking.py:192-196 | one step of the sort keeps the entries, adds the new one and keeps the order descending |
| Informe.InsertHead | lib/ranking.py:192-196 | an insertion that passes the head keeps the result descending |
| Informe.HeadNotBelow | lib/ranking.py:192-196 | no entry of a descending list has a key above its head's |
| Informe.DescendingCons | lib/ranking.py:192-196 | an entry not below any entry of a descending list can head it |
| Informe.SortSorted | lib/ranking.py:192-196 | `sorted(..., reverse=True)` is a permutation of the entries ordered by descending (win rate, total points) |
| Informe.InsertWithKey | lib/ranking.py:192-196 | an insertion puts the new entry after every entry with the same key |
| Informe.InsertFront | lib/ranking.py:192-196 | an entry above the head goes first and after nothing with its key |
| Informe.WithKeyHead | lib/ranking.py:192-196 | the entries of one key in a list are those of its head, then those of its tail |
| Informe.DescendingTail | lib/ranking.py:192-196 | the tail of a descending list is descending |
| Informe.BelowHead | lib/ranking.py:192-196 | an entry above the head of a descending list shares its key with none of its entries |
| Informe.WithKeyNone | lib/ranking.py:192-196 | with no entry of a key, the entries of that key are none |
| Informe.SortStable | lib/ranking.py:192-196 | the sort is stable: the entries with equal keys keep the dictionary's order |
| Informe.WithKeyCons | lib/ranking.py:192-196 | the entries of one key after putting an entry in front |
| Informe.Take | lib/ranking.py:212 | `sorted_colonies[:top_n]` is a prefix of the sorted list of Python's slice length |
| Informe.Count | lib/ranking.py:212-220 | the slice length: top_n capped by the length, and the length less -top_n (not below 0) for a negative top_n |
| Informe.ReportEmpty | lib/ranking.py:186-189 | the report says there is no data exactly when no contest was loaded |
| Informe.ReportRanked | lib/ranking.py:186-224 | a non-empty report counts the contests and colonies, lists the first top_n of the sorted entries, and reports the rest exactly when the list was cut |
| Informe.ReportOrder | lib/ranking.py:192-212 | the listed entries are a prefix of the sorted list, descending, and no colony left out ranks above a listed one |
| Informe.ReportMembers | lib/ranking.py:211-217 | every listed entry is a ranked colony with its own counters and averages |
| Informe.SortedEntry | lib/ranking.py:192-196 | the sorted list holds only ranked colonies with their own counters |
| Informe.OrderedSize | lib/ranking.py:204 | the colony count equals the number of names in the dictionary |
| Informe.DistinctCard | lib/ranking.py:204 | a list of distinct names has as many names as its set |
| Registro.Convert | lib/ranking.py:100-116 | the four count keys read as `int` (0 when invalid), the energies as `float` (0.0 when invalid), `completada` as true iff its text lowers to "true", anything else as text |
| Registro.CommentIgnored | lib/ranking.py:80-82 | blank lines and `#` comments leave the record unchanged |
| Registro.HeaderResets | lib/ranking.py:84-90 | a `- enfrentamiento:` line discards the record so far and starts one holding only the matchup |
| Registro.KeyLineSets | lib/ranking.py:92-116 | a `key: value` line sets its key to the converted value and leaves every other key unchanged |
| Registro.ParseLineWellTyped | lib/ranking.py:79-116 | each line keeps every value of the type its key calls for |
| Registro.ParseLinesWellTyped | lib/ranking.py:76-116 | the record of a document is well typed |
| Registro.ParseDoc | lib/ranking.py:70-121 | a blank document yields nothing; a kept record holds `ganador`, `puntos` or `enfrentamiento`, is well typed and is tagged with the file name |
| Registro.ParseDocs | lib/ranking.py:70-121 | at most one record per document, each well typed and tagged with the file |
| Registro.ParseDocsAppend | lib/ranking.py:70-121 | the records of two runs of documents are those of the first run followed by those of the second |
| Escritura.RoundedNear | lib/ranking.py:309-310 | the `.2f` value is within half a hundredth of the energy and keeps its sign |
| Escritura.Fixed2Parses | lib/ranking.py:309-310 | `float` reads the `.2f` text of an energy back as the energy rounded to hundredths |
| Escritura.CentsParse | lib/ranking.py:309-310 | c hundredths written with two decimals, signed or not, read back as c / 100 |
| Escritura.FieldReads | lib/ranking.py:303-312 | a written `key: value` line is read back as its key and its text without quotes |
| Escritura.HeaderReads | lib/ranking.py:302 | the written header line is read back as the matchup text |
| Escritura.SeparatorWhenRecords | lib/ranking.py:288-301 | the writer adds the `\n---\n` separator exactly when the stripped log is not empty |
| Escritura.RecordSound | lib/ranking.py:302-312 | a clean result is written as 11 lines, the first opening a record, none holding a newline or `---` |
| Escritura.RecordFields | lib/ranking.py:302-312 | the lines written for a clean result are read back as its fields, energies rounded to hundredths |
| Escritura.LinesJoin | lib/ranking.py:302-312 | the successive writes are the lines joined by newlines, plus a final newline |
| Escritura.DocReads | lib/ranking.py:70-121 | the lines of one record, joined, form one document that yields their record tagged with the file |
| Escritura.AppendReads | lib/ranking.py:288-312 | after the writer adds sound lines, the log reads back as its old records then the record of the lines |
| Escritura.AppendRecord | lib/ranking.py:274-312 | after `guardar_resultado_competencia(r)`, the log reads back as the records it held then r's fields tagged with the file |
| Escritura.RecordRoundTrip | lib/ranking.py:299-312 | the first result of a day, read back alone, is its fields tagged with the file |
| Escritura.RecordCredits | lib/ranking.py:144-148 | the record read back gives the ranking the result's two colonies, its winner and its points |
| Escritura.FieldsCredits | lib/ranking.py:302-306 | the fields of a result name its colonies, winner and points as the ranking reads them |
| Ranking.Basename | lib/ranking.py:120 | `os.path.basename`: the part of the path after its last `/`, holding no `/` |
| Ranking.RankingSystem.constructor | lib/ranking.py:18-27 | a new system has the given directory, no contests and empty rankings |
| Ranking.RankingSystem.LoadContestFiles | lib/ranking.py:29-51 | the contests are the records of the files in order, earlier contests forgotten, and the count is the number of files |
| Ranking.RankingSystem.ParseContestFile | lib/ranking.py:53-124 | the records of the file's documents are appended to the contests, nothing for a blank file |
| Ranking.RankingSystem.ParseDocuments | lib/ranking.py:70-121 | the loop over the documents collects exactly their records, in order |
| Ranking.RankingSystem.ParseRecord | lib/ranking.py:70-121 | one document yields its record, tagged with the file, iff it is not blank and the record is kept |
| Ranking.RankingSystem.ParseDocument | lib/ranking.py:76-116 | the loop over the lines builds the record the lines define |
| Ranking.RankingSystem.Inc | lib/ranking.py:151-166 | one `self.rankings[n][...] += ...` update, nothing else changed |
| Ranking.RankingSystem.CalculateRankings | lib/ranking.py:126-174 | the rankings become the tally of the contests held and the entries carry the averages, in dictionary order |
| Ranking.RankingSystem.Averages | lib/ranking.py:168-172 | the averages loop gives one entry per colony, in dictionary order |
| Ranking.RankingSystem.GenerateRankingReport | lib/ranking.py:176-224 | the report is the one defined on the tally of the contests held |
| Ranking.RankingSystem.GuardarResultadoCompetencia | lib/ranking.py:274-317 | the day's log gains the separator when it held records and the record's lines; a clean result reads back after the old records |
| Ranking.RankingSystem.Write | lib/ranking.py:299-312 | successive `f.write` calls append each line and a newline |
| Ranking.DocsSnoc | lib/ranking.py:70-121 | one more document adds its record, if kept, after those before |
| Ranking.LoadedSnoc | lib/ranking.py:45-47 | one more file adds its records after those of the files before |
| Ranking.TallySnoc | lib/ranking.py:144-166 | one more contest is one more step of the tally |
| Ranking.LinesSnoc | lib/ranking.py:302-312 | one more write adds one more line |
| Py.Index | lib/colonia.py:54-58 | Python's `lst[i]` reaches a position iff -n <= i < n, the position equal to i modulo n |
| Py.Delete | lib/colonia.py:72-82 | `del lst[j]` removes element j and shifts the rest down |
| Py.Index2 | lib/colonia.py:54-70 | `g[x][y]` reaches a slot iff both subscripts are in Python's range |
| Py.Set2 | lib/colonia.py:84-100 | `g[i][j] = v` changes that one slot |
| PyStr.Lead | lib/ranking.py:62 | the leading run of characters with the property |
| PyStr.Trail | lib/ranking.py:62 | the trailing run of characters with the property |
| PyStr.StripPadded | lib/ranking.py:62 | strip removes exactly the padding around text whose ends are not padding |
| PyStr.StripByParts | lib/ranking.py:62 | a text is its leading run of the stripped characters, what strip keeps and its trailing run, and what is kept has neither end among them |
| PyStr.StripParts | lib/ranking.py:62 | any text is leading whitespace, its strip and trailing whitespace, and a non-empty strip has no whitespace at its ends |
| PyStr.StripTrailing | lib/ranking.py:62 | whitespace added at the end does not change the strip |
| PyStr.StripEmpty | lib/ranking.py:64-65 | a text strips to nothing iff it is all whitespace |
| PyStr.Find | lib/ranking.py:94 | the first occurrence of the needle, None when there is none |
| PyStr.Split | lib/ranking.py:68 | `split` returns at least one piece |
| PyStr.SplitJoin | lib/ranking.py:68 | joining the pieces of a split with the separator gives the text back |
| PyStr.SplitPieces | lib/ranking.py:68 | no piece of a split holds the separator |
| PyStr.SplitConcat | lib/ranking.py:299-301 | splitting x + sep + y splits x and y apart when x does not end inside a separator |
| PyStr.SplitTail | lib/ranking.py:299-301 | characters outside the separator added at the end only lengthen the last piece |
| PyStr.SplitJoinChar | lib/ranking.py:77 | lines without a newline split back out of their newline join |
| PyStr.Remove | lib/ranking.py:88 | `replace(pat, '')` never lengthens the text |
| PyStr.SplitOnce | lib/ranking.py:94 | `split(':', 1)` gives the text before the first colon and the rest, which rejoin to the line |
| PyStr.NatTextValue | lib/ranking.py:304 | the decimal digits of n read back as n |
| PyStr.IntTextRoundTrip | lib/ranking.py:103 | `int(f'{i}') == i` |
| PyStr.StripClean | lib/ranking.py:62 | text with no whitespace at either end is its own strip |
| PyStr.ContainsChar | lib/ranking.py:93 | `':' in line` holds iff the character occurs |

## Left out

- File and directory access in lib/ranking.py (`glob`, `open`, `os.makedirs`, `os.path.exists`), `datetime.now` and `print`. A log is given as its path and text; `load_contest_files` receives the files already in sorted glob order; the writer returns the new text of the day's log; the day stamp is a parameter of `DailyFile`.
- The exception handlers of lib/ranking.py for unreadable files; reading always succeeds in the model.
- `RankingSystem.get_colony_stats`, `get_recent_contests`, `save_ranking_report` and `generar_ranking_diario`: lookups and file output around the modelled operations.
- The fixed-width text of the ranking report (header lines, column padding, `5.1f`/`7.1f` formatting). `Informe.Report` keeps what the text shows: the counts, the listed entries in order, and the number of colonies left out.
- Escritura.Fixed2: `.2f` is modelled as exact rounding of a real to hundredths, ties to even. The binary rounding of the float before formatting is not modelled.
- Escritura.AppendRecord: the round trip is proved for clean results only (texts without a newline, `---`, a quote at either end, or the matchup header), because other texts are not read back unchanged by `_parse_contest_file`.
- Ranking.RankingSystem.GuardarResultadoCompetencia: the read-back clause holds under the same clean-result condition.
- Registro: `completada` is read from a log, but `guardar_resultado_competencia` never writes it, so `Escritura.Fields` does not hold it. comvida.py, which reads `completed`, is not part of this model.
- Distribution 5 of `calculate_nutrients` uses `math.exp`. Its value at each cell is the parameter `gauss` of `Dish.Nutrients` and `Petri.Petri.constructor`.
- Petri.Petri.constructor: requires a field at least 4 wide under distribution 4. On a narrower field `calculate_nutrients` raises ZeroDivisionError, and that error path is not modelled.
- Petri.Petri.constructor: the rejection-sampling loop of `random.randint` consumes a given finite sequence of draws. When the draws run out, fewer agents are sown than MOS_INICIAL.
- The wall-clock seed of `random` and the unused `max_tx_col`.
- `add_colony` with an unknown class (lib/petri.py:313-317): the source prints a warning and skips the colony, so the dish ends with fewer than N_COL colonies. Petri.Petri.constructor and Petri.NewColonies take one known class per colony (`|kinds| == NCol`, every `Kind` a known class), so that path is not modelled.
- The `__del__` destructors of lib/petri.py and lib/colonia.py: garbage-collection plumbing.
- All matplotlib rendering in lib/grafica.py (`crear_ventanas`, `refrescar_principal`, `refrescar_datos`, `limpiar`, `actualizar_frame`) and the plotter's time limits.
- Grafica.Graficadora.EjecutarHeadless: the draws of every tick up to `max_iteraciones` are given in advance, so the loop is bounded by them.
- `Tacticas2.azar`: random, and its only call site is commented out.
- Petri.Petri.KillMo: uses the corrected `Colonia.Kill`, not the `del`-then-assign of lib/colonia.py:74-82 (see "## Findings"). With the kill as written, a killed agent's row shrinks and the grid no longer mirrors the field, so no dish invariant would survive a death.
- Petri.Petri.ColonyCounts: holds for the dish with the corrected kill. With the kill as written, `n_mo_alives` stops counting the field after the first death (Rejilla.DelThenClearLosesAgent).
- Grafica.StatsMatchColonies: inherits the corrected kill through Petri.Petri.ColonyCounts. With the kill as written, the populations the plotter counts and the colonies' counters part after the first death.
- Petri.TickDraws: each entry of `orders` is any sequence of offsets, not necessarily a shuffle of the eight unit offsets that lib/petri.py:257-258 builds. Every lemma and method contract holds for any order; with a shuffle of the eight offsets, Petri.Petri.Mitosis places the child in a neighbouring cell.
- Petri.TickDraws: `shuffle` is any finite sequence of indices, not necessarily a permutation of the snapshot. A tick takes min(len(alives), len(shuffle)) draws and skips any index outside the snapshot (Petri.TurnsOutcome). With a permutation of range(len(alives)), that is exactly `random.shuffle`'s visit of every entry once.
- Petri.TurnOutcome: a cell whose id names no colony is left alone. lib/petri.py:150-161 still feeds such an agent before its `c < len(self.colonies)` test, but the dish invariant rules such ids out.
- PyStr.ParseInt: accepts ASCII digits only; Python's `int()` also accepts other Unicode decimal digits.
- PyStr.ParseFloat: accepts ASCII digits only, like ParseInt. Python's `float()` also reads `inf`, `infinity` and `nan`, which have no real value. ParseFloat returns None for them, so `_parse_contest_file` reads them as 0.0 (PyStr.FloatOr0).
- The shims lib/colony.py and lib/grapher.py, which only raise ImportError; the package `__init__` files; test.py; and comvida.py, which is command-line plumbing and dynamic class discovery.
- Object identity beyond what the model needs: the colonies' agent objects are instances of the agent classes, but the policies' decisions are stated as functions of the field and the agent's state.

## Findings

| source | as written | input that shows it | evidently intended | confidence | as-written member | corrected member |
|---|---|---|---|---|---|---|
| lib/colonia.py:74-82 | `del self.my_mos[x][y]` removes the slot and shortens the row, so the next line clears the agent after it (the former y + 1). When y was the last slot, that line raises IndexError, and the counter and the caches are not updated. | a row [Some(a), Some(b)] killed at y = 0 ends as [None]: b is lost, yet the counter drops by one only. Killing at the last slot removes the agent, but the counter keeps counting it. | empty slot y in place, drop the counter by one, reset the slot's caches | high (not executed) | Colonia.Colonia.KillAsWritten, Rejilla.DelThenClearLosesAgent, Rejilla.DelThenClearLastSlot | Colonia.Colonia.Kill |
| lib/petri.py:197-203 | `colony_name` and `author_name` call `name()` and `author()` on a `Colonia`, which defines only `nombre()` and `autor()`, so both raise AttributeError | any id, for example `colony_name(1)` | call `nombre()` and `autor()`, as the retired lib/colony.py asks its callers to do | high (not executed) | Petri.Petri.ColonyName, Petri.Petri.AuthorName | Petri.Petri.ColonyNombre, Petri.Petri.AuthorAutor |
| vida/colonia.py:60-70 | the same `del`-then-assign as in lib/colonia.py | the same row [Some(a), Some(b)] removed at y = 0 | empty slot y in place, drop the counter by one, reset the slot's caches | high (not executed) | VidaColonia.Colonia.EliminarAsWritten, Rejilla.DelThenClearLosesAgent | VidaColonia.Colonia.Eliminar |
