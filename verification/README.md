# Grid-exploring robots

A model of two small grid-exploration simulations.

**Cells and grids.** A house is a grid of characters:
- `#` is a wall.
- ` ` is free floor.
- In the multi-robot version, `R` marks a cell a robot stands on.

**Visit matrix.** Every robot keeps its own matrix of visit counts, one entry per cell.

**A robot step:**
1. Add one visit at the robot's own cell.
2. List the neighbours in the order west, east, north, south.
3. Keep those that pass the variant's filters, each paired with its visit count.
4. Sort the list by count with Python's stable `sorted`.
5. Move to the head of the list.

**The two variants:**
- `robotti/main.py` has a single robot. It only reads the grid and is stopped only by walls.
- `multirobot/main.py` has several robots sharing one house. A robot also skips neighbours marked `R`. It moves through `House.move`, which writes `R` at the destination and ` ` at the source. Every robot thread performs its whole move while holding the single permit of a shared semaphore. The system's runs are therefore exactly the sequences of whole robot steps, in any order of robots.

**Modules:**
- `Grid` (`grid.dfy`) holds positions, grids, visit matrices, neighbour enumeration, single-cell updates and cell sums.
- `Explore` (`explore.dfy`) holds the robot record, the moves list, the stable sort and its head. It also holds the independent "least visited, earliest on ties" definition the choice is proved against.
- `MultiRobot` (`multirobot.dfy`) holds the shared house, `House.move`, `House.addRobot` and `Robot.move`. It adds the world of house and robots, atomic steps and arbitrary schedules. Its main result is that occupancy is kept by every schedule. Occupancy means three things: the robots stand on distinct cells, those cells are exactly the `R` cells, and the number of `R` cells equals the number of robots.
- `SingleRobot` (`robotti.dfy`) holds the single-robot `Robot.move` and the frame loop that calls it.
- `Scenarios` (`scenarios.dfy`) holds two worked runs: a corridor and a walled-in robot.

**Where the code does not do what one might expect, the model follows the code:**
- `House.move` raises only two errors: a move to the same cell, and a move onto an `R` cell. It has no wall check, so a `#` destination would be overwritten (`MultiRobot.HouseMove`). Inside `Robot.move` this cannot happen, because walls are filtered out before the call.
- A visit is counted at the start of the step taken *from* a cell. So a robot walking east along a four-cell corridor from its west end has counts `[1, 1, 1, 0]` after three steps, not a count of at least one everywhere (`Scenarios.CorridorRun`).
- In the single-robot version, the guard that skips a neighbour equal to the robot's own position never fires (`SingleRobot.Admissible`).

## Model

| member | source | states |
|---|---|---|
| Grid.HW | multirobot/main.py:26-29 | On a rectangular grid, the pair (height, width) bounds exactly the cells that exist. It also bounds exactly the positions that the robots' bounds test accepts. |
| Grid.Neighbours | multirobot/main.py:130 | The four enumerated candidates are pairwise distinct. They are exactly the positions one step away along an axis, and never the robot's own position. |
| Grid.ZeroCounts | multirobot/main.py:113 | A fresh visit matrix has `h` rows of `w` entries, and every entry is 0. |
| Grid.Bump | multirobot/main.py:128 | The count at the robot's cell goes up by one and every other count is unchanged. The matrix keeps its shape and its total grows by exactly one. |
| Explore.NewRobot | multirobot/main.py:107-113 | A new robot stands at the given `(x, y)` and holds an `h` by `w` visit matrix whose total is 0. |
| Explore.Moves | multirobot/main.py:129-137 | Every entry of the moves list is an enumerated neighbour that passes the filters, paired with its current count. Every such neighbour appears. The list is empty exactly when no neighbour passes. |
| Explore.SortByVisits | multirobot/main.py:139 | The sorted moves list is ordered by count and is a permutation of the unsorted one. |
| Explore.FirstMinIndex | multirobot/main.py:139-141 | The index has a least count, and every entry before it has a strictly larger count. |
| Explore.SortHeadIsFirstMin | multirobot/main.py:139-141 | Because the sort is stable, its head is the earliest entry with the least count. |
| Explore.Pick | multirobot/main.py:139-141 | `moves[0]` after sorting is the entry at the first index of least count. |
| Explore.PickIsLeastVisitedFirst | multirobot/main.py:129-141 | The chosen target passes the filters and has the least count among the candidates. Every candidate enumerated before it has a strictly larger count. |
| Explore.Choose | multirobot/main.py:139-144 | There is no target exactly when no neighbour passes the filters. Otherwise the target is the least visited candidate, with ties going to enumeration order. |
| MultiRobot.AddRobot | multirobot/main.py:31-32 | The given cell becomes `R` and no other cell changes. The `R` count grows by one unless that cell already was `R`. |
| MultiRobot.HouseMove | multirobot/main.py:34-40 | It fails with "not moving" exactly when source and destination coincide. It fails with "robot already in destination" exactly when they differ and the destination is `R`. It succeeds in every other case, including a wall destination. On success the destination is `R`, the source is ` `, every other cell is unchanged and the `R` count is adjusted accordingly. |
| MultiRobot.Admissible | multirobot/main.py:130-136 | A neighbour is kept exactly when it is adjacent, inside the bounds read from row 0, not `#` and not `R`. |
| MultiRobot.RobotMove | multirobot/main.py:127-144 | The inner `House.move` never fails. The count at the start cell goes up by one and no other count changes. With no open neighbour, the robot and the house stay as they are. Otherwise the robot moves to the least visited open neighbour, earliest on ties. That cell is adjacent and becomes `R`, the start cell becomes ` `, and every other cell is unchanged. |
| MultiRobot.Step | multirobot/main.py:116-125 | One atomic step of one robot under the shared permit. The house keeps its shape, the other robots are untouched and the stepping robot records one more visit. |
| MultiRobot.Run | multirobot/main.py:116-125 | Any schedule of atomic robot steps yields a well-formed world over a house of the same shape. |
| MultiRobot.MoveKeepsOccupied | multirobot/main.py:34-40 | Moving one robot off its `R` cell onto a cell that is no robot's keeps occupancy, with that robot's position replaced. |
| MultiRobot.StepKeepsOccupancy | multirobot/main.py:116-144 | A robot step keeps occupancy. |
| MultiRobot.RunKeepsOccupancy | multirobot/main.py:116-125 | Every interleaving of robot steps keeps occupancy, so `House.move` never raises in any run. |
| MultiRobot.Place | multirobot/main.py:176-178 | After the `addRobot` calls, every start cell is `R` and every other cell is unchanged. |
| MultiRobot.Init | multirobot/main.py:161-178 | Set-up makes one robot per start, at that start, with a zero visit matrix. The result is well-formed. |
| MultiRobot.PlaceOccupies | multirobot/main.py:176-178 | Starting from a house with no `R` cells, placing robots on distinct cells makes the starts exactly the `R` cells. |
| MultiRobot.InitEstablishesOccupancy | multirobot/main.py:161-178 | Set-up on a house without `R` cells, with distinct starts, yields a world where occupancy holds. |
| SingleRobot.Admissible | robotti/main.py:35-41 | A neighbour is kept exactly when it is adjacent, inside the bounds read from row 0 and not `#`. The own-position guard never removes anything. |
| SingleRobot.RobotMove | robotti/main.py:32-47 | The count at the start cell goes up by one, no other count changes and the total grows by one. The robot moves to the least visited passable neighbour, earliest on ties. That neighbour is adjacent, in bounds and not a wall. When the start cell is not a wall, the new position again has a passable neighbour. The grid is only read. |
| SingleRobot.Walk | robotti/main.py:79-106 | Over `n` frames from a non-wall start with a way out, the robot always has a way out, so `moves[0]` always exists. It records exactly `n` visits. |
| Scenarios.CorridorStart | multirobot/main.py:161-178 | Set-up in a four-cell corridor with one robot at its west end marks that cell `R` and gives the robot zero counts. |
| Scenarios.CorridorRun | multirobot/main.py:127-144 | Three steps from set-up take the corridor robot to the fourth cell, with counts `[1, 1, 1, 0]`. |
| Scenarios.BoxedRobotStays | multirobot/main.py:139-144 | A robot walled in on all four sides does not move, and the house does not change. |

## Left out

- Threads, the semaphore, `sleep`, `join` and the `running` flag are not modelled. Each robot's `move` runs entirely under the single permit, so a run is modelled as an arbitrary sequence of whole steps (`MultiRobot.Run`). Shutdown only stops the sequence.
- The drawing thread, the pygame window, event handling and the floating-point colours are not modelled. They only read the state.
- Loading `house.txt` (both `House.__init__`s) is not modelled; the grid is a parameter. The multi-robot loader drops the last character of every line. The single-robot loader keeps the line ending, which then counts as a passable cell.
- The hard-coded start positions are not modelled: `MultiRobot.Init` takes any list of starts. The same goes for the single robot's start at `(1, 1)`.
- `House.__str__` is not modelled.
- `snake.py` is not part of this model.
- MultiRobot.HouseMove: requires both cells to exist, because Python's negative-index wrap-around and its `IndexError` are not modelled. `Robot.move` only passes cells inside the grid.
- MultiRobot.AddRobot: requires the cell to exist, for the same reason.
- MultiRobot.RobotMove: requires a rectangular grid. The bounds test reads the width from row 0 only, so on a ragged grid a shorter row could raise `IndexError`; that case is not modelled.
- SingleRobot.RobotMove: requires a rectangular grid, for the same reason as `MultiRobot.RobotMove`. It also requires some neighbour to pass the filters. Without one, the source raises `IndexError` at `moves[0]`, and that crash is not modelled. `SingleRobot.Walk` shows the requirement holds again after every step from a non-wall cell.
- MultiRobot.Run: states only well-formedness and shape. What runs preserve is stated separately by `MultiRobot.RunKeepsOccupancy`.
- Visit counts are Python integers and are modelled as unbounded naturals.
