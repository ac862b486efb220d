# City generator layout, modelled in Dafny

This project models the one piece of logic in the city-building Unity script:
`CityGenerator.GenerateCity`, in `Assets/CityBuilding.cs`. The method first
destroys every child of the generator's container. Then it sweeps a
`cityWidth × cityLength` grid, column `x` by column and row `z` by row. A cell
whose column or row index is a multiple of `roadFrequency` gets a road prefab
at its grid position with identity rotation. Every other cell gets a building.
The building's integer height is drawn with `Random.Range(min, max + 1)`. Its
scale is set to `(1, h, 1)` and it is raised by `h / 2`, so its base sits on
the ground.

The model has three modules:

- `CityLayout` (`city_layout.dfy`) is the pure part. It holds the road test
  `IsRoad`, with C#'s truncating `%` written out as `CsRemainder`. It holds the
  placement records `Road(x, z)` and `Building(x, z, height)`. It holds two
  reference definitions of the sweep's output: `Sweep` visits cell `k` at
  `(k / length, k % length)`, and `SweepUpTo` follows the nested loops. The
  lemmas state what the sweep promises.
- `CityGeometry` (`city_geometry.dfy`) gives the world transform of each
  spawned object: position, rotation and scale.
- `CityBuilding` (`city_generator.dfy`) is the component itself. It is a
  class with the inspector fields and the container's children, held as a
  sequence of placements. `GenerateCity` clears the children and then runs the
  sweep. Its loop body is split into `PlaceColumn` (the inner `z` loop) and
  `PlaceCell` (one cell), which keeps each proof small. Each method is proved
  against `SweepUpTo`, and `GenerateCity` against `Sweep`.

The random generator is injected. `rng(lo, hiExclusive, i)` is the value
`Random.Range(lo, hiExclusive)` returns on its `i`-th call during one
regeneration, which is the call made for the `i`-th building. The component
calls it with its own settings, `minBuildingHeight` and `maxBuildingHeight + 1`.
The documented contract of `Random.Range` is the ghost predicate
`RangeContract`. The sweep specifications see the heights as the stream
`DrawStream(rng, lo, hiExclusive)`, whose contract is `DrawsInRange`.
The inspector integers are 32-bit (`int32`), so the exclusive bound `max + 1` wraps at `Int32.MaxValue` (`UpperExclusive`). A
road frequency of 0 makes the road test's `%` throw a divide-by-zero
exception at the first cell. The model returns this as the outcome
`DivideByZero`, with the container already cleared and nothing spawned.

Facts about the script that the model keeps:

- There is one road prefab. Every road is placed at identity rotation
  (`Assets/CityBuilding.cs` line 47), whatever its neighbours are.
- There is one building prefab. Buildings differ only in height.
- The script does not validate its settings. It does not check `min ≤ max`,
  positive dimensions or a non-zero road frequency. Non-positive dimensions
  just give an empty sweep. A negative frequency gives the same roads as its
  magnitude. Zero throws.

## Model

| member | source | states |
|---|---|---|
| `CityLayout.CsRemainderSpec` | Assets/CityBuilding.cs:45 | C#'s `%` is below the divisor in magnitude and takes the sign of the dividend. It is zero exactly when the dividend is a multiple of the divisor, so the road test means "index is a multiple of roadFrequency". |
| `CityLayout.MultiplesAreRoads` | Assets/CityBuilding.cs:45 | Every column and every row whose index is a multiple of the frequency is a road, whatever the other index. Column 0 and row 0 are included. |
| `CityLayout.FrequencyOneAllRoads` | Assets/CityBuilding.cs:45 | With frequency 1 or -1 every cell is a road. |
| `CityLayout.FirstBlockRoads` | Assets/CityBuilding.cs:45 | Below the frequency in both indices, a cell is a road exactly when x = 0 or z = 0. This covers the 4 × 4 grid with frequency 4. |
| `CityLayout.RoadPeriodic` | Assets/CityBuilding.cs:45 | For any non-zero frequency the road pattern repeats along both axes with period the frequency's magnitude, and a negative frequency gives the same roads as its magnitude. |
| `CityLayout.SweepPrefix` | Assets/CityBuilding.cs:38-57 | After n cells the sweep has emitted exactly n placements: one per visited cell, never none and never two. |
| `CityLayout.Sweep` | Assets/CityBuilding.cs:38-40 | The sweep emits exactly `cityWidth * cityLength` placements, and none when either dimension is ≤ 0. |
| `CityLayout.SweepUpToLength` | Assets/CityBuilding.cs:38-40 | Before the nested loops visit cell (x, z) they have visited x · length + z cells. |
| `CityLayout.SweepUpToIsPrefix` | Assets/CityBuilding.cs:38-57 | What the nested loops have emitted is the flat sweep's output for the same number of cells. |
| `CityLayout.SweepIsNested` | Assets/CityBuilding.cs:38-57 | The whole sweep is exactly what the nested `x`/`z` loops emit once every column is done. |
| `CityLayout.SweepAt` | Assets/CityBuilding.cs:38-53 | The k-th placement is for cell (k / cityLength, k % cityLength), which lies inside the grid. It is a road if and only if the road test holds there. A building's height is the generator's value for the buildings emitted before it. |
| `CityLayout.SweepVisitsCell` | Assets/CityBuilding.cs:38-45 | Every grid cell (x, z) is visited, at step x · cityLength + z. It gets a road if and only if the road test holds for it. |
| `CityLayout.SweepOrdered` | Assets/CityBuilding.cs:38-40 | Placements come in x-major order: a later placement has a larger column, or the same column and a larger row. So no cell is visited twice. |
| `CityLayout.BuildingsAreNonRoadCells` | Assets/CityBuilding.cs:45-53 | The number of buildings, which is also the number of random draws, equals the number of non-road cells. |
| `CityLayout.EdgesAreRoads` | Assets/CityBuilding.cs:45 | Every placement in column 0 or row 0 of the grid is a road. |
| `CityLayout.FrequencyOneNoBuildings` | Assets/CityBuilding.cs:45 | With frequency 1 every placement is a road and no building is made. |
| `CityLayout.RangeContractStream` | Assets/CityBuilding.cs:51 | A generator that keeps `Range`'s contract for every pair of bounds keeps it for the heights drawn with one fixed pair. |
| `CityLayout.UpperExclusive` | Assets/CityBuilding.cs:51 | The exclusive bound `max + 1` is computed in 32-bit two's-complement arithmetic. |
| `CityLayout.HeightsWithinBounds` | Assets/CityBuilding.cs:51 | If the generator honours `Range(min, max + 1)`, every building height lies in [minBuildingHeight, maxBuildingHeight]. |
| `CityLayout.FixedHeight` | Assets/CityBuilding.cs:51 | With minBuildingHeight = maxBuildingHeight every building has exactly that height. |
| `CityLayout.SmallGrid` | Assets/CityBuilding.cs:38-57 | On a 2 × 2 grid with frequency 2 the sweep emits three roads in x-major order, then one building with the generator's first value. |
| `CityGeometry.Spawn` | Assets/CityBuilding.cs:42-56 | Every object has identity rotation and horizontal position (x · blockSpacing, z · blockSpacing). A road lies at y = 0 with the prefab's scale. A building is scaled (1, h, 1), its base is at y = 0 and its top is at y = h. |
| `CityGeometry.NeighboursOneSpacingApart` | Assets/CityBuilding.cs:42 | Neighbouring cells are one blockSpacing apart along each axis. |
| `CityGeometry.SweepObjectsGrounded` | Assets/CityBuilding.cs:42-56 | Every object of a sweep sits at its cell's grid position. It has a set scale exactly when its cell is not a road. Buildings stand on the ground and roads lie at y = 0. |
| `CityBuilding.CityGenerator.constructor` | Assets/CityBuilding.cs:10-21 | The inspector defaults are 10 × 10 cells, spacing 1.2, heights 1 to 5 and road frequency 4. The container starts empty. |
| `CityBuilding.CityGenerator.DestroyChildren` | Assets/CityBuilding.cs:32-35 | Destroys each child once. Afterwards the container is empty. |
| `CityBuilding.CityGenerator.PlaceCell` | Assets/CityBuilding.cs:42-56 | Appends the next cell's road, or its building with the value the generator returns for the bounds (minBuildingHeight, maxBuildingHeight + 1) on its next call, and advances the draw count by one for a building only. With frequency 0 it throws and spawns nothing. |
| `CityBuilding.CityGenerator.PlaceColumn` | Assets/CityBuilding.cs:40-57 | Appends all rows of column x in order. It throws at the first cell when the frequency is 0, and does nothing when cityLength ≤ 0. |
| `CityBuilding.CityGenerator.GenerateCity` | Assets/CityBuilding.cs:29-59 | Throws exactly when there is a cell and the frequency is 0, and then leaves the container empty. Otherwise the container holds exactly `Sweep(...)` for the current settings, with heights drawn from (minBuildingHeight, maxBuildingHeight + 1): no child from an earlier call survives. When `Range` keeps its contract and `max + 1` does not wrap, every building's height lies in [minBuildingHeight, maxBuildingHeight]. |

## Left out

- Unity lifecycle and input: `Start` and `Update` with the R-key trigger are engine callbacks. The model starts from a call to `GenerateCity`.
- Scene-graph calls: `Instantiate`, `Destroy`, `transform`, prefabs and `Quaternion` are foreign. The container is a sequence of placement records, and `CityGeometry.Spawn` computes the transform each record stands for.
- `Destroy` is deferred to the end of the frame in Unity. The model clears the container before refilling it, which is the intended behaviour, and does not model the engine's timing.
- The exception: in C# the divide-by-zero propagates out of `GenerateCity`. The model returns it as the `DivideByZero` outcome.
- `Random.Range` is an external generator. The model takes it as the function `rng` of its bounds and call number and assumes only its documented range (`RangeContract`). For an inverted range (`min > max + 1`) the model does not constrain the result.
- GenerateCity, HeightsWithinBounds: the height bound assumes `maxBuildingHeight < Int32.MaxValue`. At that value `max + 1` wraps to `Int32.MinValue` (see `UpperExclusive`), the range passed to the draw is inverted, and heights are no longer bounded by the settings.
- Float arithmetic: `blockSpacing` and `buildingHeight / 2f` are exact reals. IEEE rounding is not modelled.
- Spawn: the base-and-top statement assumes the building prefab is a unit-height mesh centred on its origin, as Unity's default cube is. Prefab geometry is not part of the script. It also assumes the parent object has unit scale and identity rotation: the scale is set as `localScale` (line 55), relative to the parent, while the position is set in world space (lines 53 and 56), so the parent's own position does not matter.
- The loop counters `x` and `z` are unbounded integers. In C# they stay below the 32-bit fields they are compared to, so they cannot overflow.
