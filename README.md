# Ladder game (Amidakuji) engine in Dafny

This project models the engine of a ladder game, `utils/ladderUtils.ts`, and
proves properties of the model. Each participant starts at the top of their
own lane and walks down. Whenever they meet a horizontal rung (a "bridge"),
they cross it. The lane they end in picks their result. The engine has three
functions:

- `generateBridges(count)` places rungs on rows 1 to `numRows - 1`. It scans
  each row from left to right and skips any candidate that touches a rung
  already placed on that row.
- `calculatePaths(count, bridges)` walks a lane cursor down rows 0 to
  `numRows` for every starting lane. It emits the waypoints the animation
  draws: a start point at the top of the lane, then one per row, plus one
  more at the far end of each rung taken.
- `getFinalResultIndices(count, bridges)` starts from the identity array.
  For every row in order, and for each rung on it, it swaps in place the two
  entries that hold the rung's lanes.

The finished screen reads each participant's result back from the x of the
last waypoint of their path (`App.tsx`, line 123). That lookup is modelled
too.

The Dafny modules follow the source:

- `LadderTypes` holds the `Bridge` and `PathStep` shapes and the
  `LADDER_CONFIG` constants. It also defines the two conditions on a rung list
  that everything depends on:
  - `WithinLanes`: every rung on a visited row joins two existing lanes.
  - `NonAdjacent`: no two rungs on one row are equal or neighbours.
- `Generator`, `Paths` and `ResultIndices` model the three functions as
  imperative methods. `GenerateBridges` appends to a sequence. `CalculatePaths`
  moves a cursor and extends each path. `GetFinalResultIndices` swaps entries
  of an `array<int>` in place. `CalculatePaths` and `GetFinalResultIndices`
  are proved against recursive specification functions (`Col` and `PathUpTo`
  for the walk, `Extract` for the mapping after each row). The lemmas are
  stated about those functions. `GenerateBridges` is characterised instead by
  the greedy rule it follows for every candidate (`Greedy`), and
  `GreedyDetermined` shows that exactly one list in scan order satisfies
  that rule.
- `ResultLookup` models the index recovery on the finished screen.

The random draws of `generateBridges` become a parameter. `coin(row, col)` is
the outcome of `Math.random() < bridgeProbability` for the candidate at that
row and lane, so every property of the generator holds for every outcome.

The main results are:

- With rungs that stay within the lanes and never touch, the walk is a
  bijection on the lanes (`Paths.WalkIsBijection`).
- That condition is needed: with two touching rungs, two participants end in
  the same lane (`Paths.AdjacentRungsMerge`). With a rung listed twice, the
  walk takes it once but the extractor swaps it twice, so the two disagree
  (`ResultIndices.DuplicateRungDisagrees`).
- For rungs within the lanes, the in-place extractor returns a permutation,
  whether or not the rungs touch (`ResultIndices.ExtractPermutation`).
  Outside that condition `indexOf` returns -1 and the source writes
  `undefined` into the mapping, which is not modelled.
- When the rungs also never touch, entry `i` of the extractor is the lane in
  which path `i` ends (`ResultIndices.FinalResultIndicesFollowPaths`), and
  the lookup on the finished screen recovers exactly that entry
  (`ResultLookup.LookupFindsResult`).
- The generator establishes the condition the other two functions need
  (`Generator.GenerateBridges`).

One part of the adjacency test is dead code. `generateBridges` checks for a
placed rung at `col - 1` or at `col + 1` (line 12). The scan runs left to
right, so no rung at `col + 1` has been placed yet. The loop invariant of
`GenerateBridges` states this, and the method's contract shows that only the
left neighbour can block a candidate.

## Model

| member | source | states |
|---|---|---|
| `LadderTypes.X` | utils/ladderUtils.ts:31-49 | `col * colWidth + colWidth / 2`, the x of lane `col`'s centre: it lies in the `col`-th column of width `colWidth`, exactly at its middle |
| `LadderTypes.Y` | utils/ladderUtils.ts:34 | `headerHeight + row * rowHeight`, the y of row `row`: exactly `row` row heights below the header |
| `Generator.HasAdjacent` | utils/ladderUtils.ts:12 | the `.some` test holds exactly when the list has a rung on this row at `col - 1` or at `col + 1` |
| `Generator.GenerateBridges` | utils/ladderUtils.ts:5-20 | for every outcome of the draws: every rung lies on rows 1 to `numRows - 1` and joins lanes `fromCol` and `fromCol + 1` with `0 <= fromCol <= count - 2`; no two rungs touch or repeat; the list is in ascending `(level, fromCol)` order; each candidate is a rung exactly when its draw succeeded and the rung to its left was not placed; with `count <= 1` the list is empty |
| `Generator.AppendNonAdjacent` | utils/ladderUtils.ts:12-15 | pushing a rung that no rung of its row touches keeps the list non-adjacent |
| `Generator.AppendKeepsGreedy` | utils/ladderUtils.ts:14-15 | a push does not change the verdict on candidates that were already scanned |
| `Generator.AscendingUnique` | utils/ladderUtils.ts:9-18 | two lists in scan order that hold the same rungs are equal |
| `Generator.GreedyDetermined` | utils/ladderUtils.ts:9-18 | the contract of `GenerateBridges` has one solution: for given lanes and draws, exactly one list in scan order satisfies it |
| `Paths.FindBridge` | utils/ladderUtils.ts:37-38 | `bridges.find` returns a rung exactly when the list holds the rung at that row and lane, and the rung it returns is that one |
| `Paths.Step` | utils/ladderUtils.ts:37-47 | the cursor moves right exactly when the row has a rung starting at its lane, left exactly when it has none there but one ending at its lane, and otherwise stays: the right rung wins when both exist |
| `Paths.Col` | utils/ladderUtils.ts:28-51 | the cursor of the walk from `start` after `rows` rows, one `Step` per row; it ends at most `rows` lanes from `start` |
| `Paths.RowSteps` | utils/ladderUtils.ts:40-50 | the waypoints pushed on one row: the first is on the row line in the cursor's lane, and there is a second exactly when the row has a rung at the cursor's lane or the one to its left |
| `Paths.RowStepsCases` | utils/ladderUtils.ts:40-50 | the three branches: a rung to the right gives the points in lanes `col` and `col + 1`, else a rung to the left gives `col` and `col - 1`, else the single point in `col`, each with the cursor's new lane |
| `Paths.PathUpTo` | utils/ladderUtils.ts:27-51 | the waypoints pushed once `rows` rows are done: the start point first, then between one and two per row |
| `Paths.Path` | utils/ladderUtils.ts:26-53 | the path of one participant: the start point first, then `numRows + 1` to `2*numRows + 2` more |
| `Paths.CalculatePaths` | utils/ladderUtils.ts:22-57 | returns `count` paths (none when `count <= 0`); path `i` is the walk from lane `i`, starts at `(i*colWidth + colWidth/2, headerHeight)` and ends on the last row in the lane the walk ends in |
| `Paths.RowStepsShape` | utils/ladderUtils.ts:40-50 | a row emits one waypoint when the cursor goes straight down and two when it takes a rung; the right rung is checked first; all lie on that row's y; the second is one lane width to the side |
| `Paths.PathUpToEnds` | utils/ladderUtils.ts:31-50 | a partial path starts at the top of its lane, ends in the cursor's lane on the last row done, and stays between the header and that row |
| `Paths.RowAppend` | utils/ladderUtils.ts:33-50 | one more row appends its waypoints straight below the path's end, on the row's y |
| `Paths.HorizontalsAppend` | utils/ladderUtils.ts:40-50 | a row adds one horizontal segment to the count when it takes a rung and none otherwise |
| `Paths.PathUpToLength` | utils/ladderUtils.ts:31-50 | a partial path holds one waypoint for the start, one per row done, and one more per rung taken |
| `Paths.ConnectedAppend` | utils/ladderUtils.ts:40-50 | joining a connected piece straight below the end keeps a polyline connected |
| `Paths.PathUpToConnected` | utils/ladderUtils.ts:40-50 | every segment of a path runs straight down a lane or along a rung, so the polyline has no gaps |
| `Paths.DescendingAppend` | utils/ladderUtils.ts:33-50 | appending waypoints on a line at or below every waypoint keeps y from decreasing |
| `Paths.PathUpToDescending` | utils/ladderUtils.ts:33-50 | y never decreases along a path |
| `Paths.OneMoveAppend` | utils/ladderUtils.ts:40-47 | a row's rung lies below every rung taken on earlier rows |
| `Paths.PathUpToOneMove` | utils/ladderUtils.ts:40-47 | a path takes at most one rung per row |
| `Paths.PathUpToOnRows` | utils/ladderUtils.ts:31-34 | every waypoint lies at `y = headerHeight + r*rowHeight` for some row `r` |
| `Paths.PathShape` | utils/ladderUtils.ts:26-53 | the whole path starts at the top of its lane, ends on row `numRows` in the lane its walk ends in, has `numRows + 2` waypoints plus one per rung taken, and is connected, descending, on the rows, with at most one rung per row |
| `Paths.NoBridgesPath` | utils/ladderUtils.ts:31-50 | without rungs every path has `numRows + 2` waypoints, all with the x of its starting lane |
| `Paths.QuietRows` | utils/ladderUtils.ts:37-50 | rows without rungs leave the cursor where it is |
| `Paths.StepInRange` | utils/ladderUtils.ts:37-47 | with rungs within the lanes, one row keeps the cursor in `[0, count)` |
| `Paths.ColInRange` | utils/ladderUtils.ts:33-50 | with rungs within the lanes, the cursor of every walk stays in `[0, count)` |
| `Paths.StepInvolution` | utils/ladderUtils.ts:37-47 | with non-adjacent rungs, crossing the same row twice brings the cursor back |
| `Paths.WalkDownUndoesUp` | utils/ladderUtils.ts:33-50 | walking down from where the walk up from a lane ends leads back to that lane |
| `Paths.WalkUpUndoesDown` | utils/ladderUtils.ts:33-50 | walking up from where the walk down from a lane ends leads back to that lane |
| `Paths.ColUpInRange` | utils/ladderUtils.ts:37-47 | with rungs within the lanes, the walk up stays in `[0, count)` |
| `Paths.WalkIsBijection` | utils/ladderUtils.ts:33-50 | with rungs within the lanes that never touch, the final lanes are a permutation of `[0, count)`: each is in range, no two starts share one, and every lane is reached from an explicit start |
| `Paths.SingleRungWalk` | utils/ladderUtils.ts:33-50 | when every rung is the one between lanes 0 and 1 on one visited row, however often it is listed, the walks from lanes 0 and 1 end in lanes 1 and 0 |
| `Paths.AdjacentRungsMerge` | utils/ladderUtils.ts:37-47 | with rungs at lanes 0 and 1 of one row, starts 0 and 2 both end in lane 1, so non-adjacency cannot be dropped |
| `ResultIndices.Identity` | utils/ladderUtils.ts:63 | `Array.from({length: count}, (_, i) => i)` has `count` entries, entry `i` being `i` |
| `ResultIndices.IndexOf` | utils/ladderUtils.ts:69-70 | `indexOf` returns -1 exactly when the value is absent, and otherwise the first index that holds it |
| `ResultIndices.RowBridges` | utils/ladderUtils.ts:67 | `bridges.filter(b => b.level === row)`, defined by walking the list front to back; the result is never longer than the list |
| `ResultIndices.RowBridgesMembers` | utils/ladderUtils.ts:67 | `filter` keeps exactly the rungs that lie on the row |
| `ResultIndices.RowBridgesSingle` | utils/ladderUtils.ts:67 | a one-rung list filters to itself when the rung lies on the row and to nothing otherwise |
| `ResultIndices.RowBridgesCons` | utils/ladderUtils.ts:67 | a list with a rung in front filters to that rung's result followed by the rest's |
| `ResultIndices.RowBridgesKeepsOrder` | utils/ladderUtils.ts:67 | filtering a concatenation is the concatenation of the filtered parts; with `RowBridgesSingle` this fixes the result: the row's rungs in list order, each as often as listed |
| `ResultIndices.RowBridgesWithinLanes` | utils/ladderUtils.ts:65-67 | for rungs within the lanes, every rung kept for a visited row lies on that row and joins existing lanes |
| `ResultIndices.RowBridgesNone` | utils/ladderUtils.ts:67 | a list without rungs on the row filters to nothing |
| `ResultIndices.SwapEntries` | utils/ladderUtils.ts:69-72 | the swap of one rung on a mapping, by the two `indexOf` lookups; it keeps the mapping's length |
| `ResultIndices.SwapEntriesSwaps` | utils/ladderUtils.ts:69-72 | when both lanes are present, the first entry holding `a` then holds `a + 1` and the first holding `a + 1` holds `a`; entries holding neither lane keep their value; with a lane missing nothing changes |
| `ResultIndices.ApplyRungs` | utils/ladderUtils.ts:68-73 | the rungs of a row applied to a mapping one after another in list order, each by its swap; the length is kept |
| `ResultIndices.ApplyRungsUntouched` | utils/ladderUtils.ts:68-73 | entries holding a lane that no rung of the row joins keep their value |
| `ResultIndices.Extract` | utils/ladderUtils.ts:63-74 | the mapping once rows `0 .. rows - 1` are done: the identity, then each row's filtered rungs applied; it has one entry per lane |
| `ResultIndices.FinalResultIndices` | utils/ladderUtils.ts:63-76 | the returned mapping, after rows 0 to `numRows`; one entry per lane |
| `ResultIndices.PermutationMembers` | utils/ladderUtils.ts:63-76 | a permutation of the lanes holds every lane and nothing else |
| `ResultIndices.PermutationDistinct` | utils/ladderUtils.ts:63-76 | a permutation of the lanes holds no lane twice |
| `ResultIndices.SwapKeepsPermutation` | utils/ladderUtils.ts:69-72 | for a rung within the lanes, both `indexOf` lookups succeed, at different indices, and the swap leaves a permutation |
| `ResultIndices.ApplyRungsPermutation` | utils/ladderUtils.ts:68-73 | the rungs of a row, within the lanes, turn a permutation into a permutation |
| `ResultIndices.ExtractPermutation` | utils/ladderUtils.ts:63-76 | for rungs within the lanes, the mapping after every row, and so the result, is a permutation of `[0, count)` |
| `ResultIndices.SwapTransposes` | utils/ladderUtils.ts:69-72 | on a permutation, the swap for the rung at `a` exchanges the values `a` and `a + 1` wherever they are |
| `ResultIndices.StepExtend` | utils/ladderUtils.ts:37-47 | a further rung apart from the row's others transposes where the cursor ends up |
| `ResultIndices.ApplyRungsSteps` | utils/ladderUtils.ts:68-73 | applying the non-adjacent rungs of a row moves every entry the way the walk's cursor moves on that row |
| `ResultIndices.StepOnRow` | utils/ladderUtils.ts:67 | the filtered row moves the cursor as the whole list does on that row |
| `ResultIndices.RowBridgesNonAdjacent` | utils/ladderUtils.ts:67 | filtering a non-adjacent list keeps it non-adjacent |
| `ResultIndices.RowFollowsWalk` | utils/ladderUtils.ts:65-73 | one row of swaps moves entry `i` as the walk's cursor moves on that row |
| `ResultIndices.ExtractStep` | utils/ladderUtils.ts:65-73 | one more row moves entry `i` of the mapping the way the cursor moves |
| `ResultIndices.ExtractFollowsWalk` | utils/ladderUtils.ts:63-76 | entry `i` of the mapping after any number of rows is the cursor of the walk from lane `i` |
| `ResultIndices.FinalResultIndicesFollowPaths` | utils/ladderUtils.ts:63-76 | for rungs within the lanes that never touch, entry `i` of `getFinalResultIndices` is the lane path `i` of `calculatePaths` ends in, and that path's last waypoint is `(result[i]*colWidth + colWidth/2, headerHeight + numRows*rowHeight)` |
| `ResultIndices.RowOrderIrrelevant` | utils/ladderUtils.ts:67-73 | with non-adjacent rungs, listing the rungs of a row in another order gives the same mapping |
| `ResultIndices.ExtractQuietRow` | utils/ladderUtils.ts:65-73 | a row without rungs leaves the mapping as it is |
| `ResultIndices.ExtractQuiet` | utils/ladderUtils.ts:65-74 | a stretch of rows without rungs leaves the mapping as it is |
| `ResultIndices.NoBridgesIdentity` | utils/ladderUtils.ts:63-76 | without rungs the result is the identity on `[0, count)` |
| `ResultIndices.SingleRungSwaps` | utils/ladderUtils.ts:63-76 | two lanes with one rung between them on any visited row give `[1, 0]` |
| `ResultIndices.TwiceSwapped` | utils/ladderUtils.ts:68-73 | the same rung applied twice in a row restores the mapping `[0, 1]` |
| `ResultIndices.DuplicateRungExtract` | utils/ladderUtils.ts:63-74 | with the rung between lanes 0 and 1 listed twice on row 1, the mapping after row 1 is `[0, 1]` |
| `ResultIndices.DuplicateRungDisagrees` | utils/ladderUtils.ts:37-76 | with that rung listed twice, `getFinalResultIndices` returns `[0, 1]` while the walk from lane 0 ends in lane 1, so `FinalResultIndicesFollowPaths` needs its non-adjacency requirement, which also excludes repeats |
| `ResultIndices.RungLanesPresent` | utils/ladderUtils.ts:69-70 | before each rung of a row, the mapping holds both of its lanes, so `indexOf` never returns -1 |
| `ResultIndices.NextRung` | utils/ladderUtils.ts:68-73 | applying one more rung of the row is one more swap |
| `ResultIndices.SwapRung` | utils/ladderUtils.ts:69-72 | the `forEach` callback swaps in place the entries that hold the rung's lanes |
| `ResultIndices.SwapRow` | utils/ladderUtils.ts:68-73 | the `forEach` over a row applies its rungs in list order to the array |
| `ResultIndices.IdentityArray` | utils/ladderUtils.ts:63 | `Array.from` builds a new array holding `Identity(count)` |
| `ResultIndices.ApplyRow` | utils/ladderUtils.ts:66-73 | one pass of the row loop swaps the row's rungs in place and takes the array from `Extract` after `row` rows to `Extract` after `row + 1` rows |
| `ResultIndices.ApplyRows` | utils/ladderUtils.ts:65-74 | the loop over rows 0 to `numRows` takes the identity array to `FinalResultIndices` |
| `ResultIndices.GetFinalResultIndices` | utils/ladderUtils.ts:59-77 | for a count of at least 0 (below 0 line 60 throws), the in-place computation returns the specified mapping; it is a permutation of `[0, count)`; with non-adjacent rungs entry `i` is the lane the walk from lane `i` ends in |
| `ResultLookup.ResultIndex` | App.tsx:123 | `Math.round((x - 60) / 120)`: the integer nearest to `(x - 60) / 120`, with ties rounded up |
| `ResultLookup.ResultIndexInvertsX` | App.tsx:123 | the lookup maps the x of lane `c`'s centre back to `c` |
| `ResultLookup.LookupFindsResult` | App.tsx:122-123 | for rungs within the lanes that never touch, the index read from the last waypoint of path `i` is entry `i` of `getFinalResultIndices`, lies in `[0, count)`, and differs from every other participant's |

## Left out

- Rendering, animation, React state and image export (`components/`, most of `App.tsx`) are not part of this model.
- The result text at `App.tsx:124` is not modelled. It takes `results[resultIdx]?.text` or falls back to a numbered label, which is presentation only.
- `bridgeProbability = 0.4` and the distribution of `Math.random()` are not modelled. The draws are an arbitrary function `coin(row, col)`.
- GenerateBridges: the source makes no draw for a candidate the adjacency test already rejects. Indexing the draws by candidate gives the same set of possible ladders, but not the same sequence of calls to `Math.random()`.
- `footerHeight` and `strokeWidth` of `LADDER_CONFIG` are not read by the engine. The `CHARACTERS` and `COLORS` tables and the `1..30` participant bounds are presentation or form validation; no property here depends on them.
- GetFinalResultIndices: requires `count >= 0`. The `results` array built at `utils/ladderUtils.ts:60` is never read, but `new Array(count)` throws a `RangeError` for a negative `count`, so the source returns no mapping there. The thrown error is not modelled; the array itself is not either, since its value is unused.
- GetFinalResultIndices: requires every rung on rows 0 to `numRows` to join two existing lanes. Otherwise `indexOf` returns -1, and JavaScript writes `undefined` into the array. Array contents that are not numbers are not modelled. `GenerateBridges` always meets this requirement.
- Extract: defined only when every rung on rows 0 to `numRows` joins two existing lanes, the domain of `GetFinalResultIndices` above.
- FinalResultIndices: defined on the same domain as `Extract`.
- SwapEntries: leaves the mapping unchanged when a lane is missing. It is only reached that way outside the requirement above.
- `count` is an integer. JavaScript numbers are doubles, but every coordinate here is an exact small integer, so no rounding is modelled.
