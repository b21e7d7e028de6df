# Recursive dock dungeon generator and weapon hit patterns

A Dafny model of two pieces of the QuaestumFacere roguelike:

- The **recursive dock generator** (`RecursiveDockGenerator`) lays out a dungeon level.
  - It fills a grid with blank tiles.
  - It recursively partitions the grid's interior. Each region either takes a predefined room from a pool ("docking" it, transposed when only that orientation fits or when a coin says so) or generates a fresh walled room with one door.
  - Each region pads its room, pushes it into one of four corners, and recurses into the two rectangles that remain.
  - It stamps the placed rooms onto the grid.
  - It collects every non-wall border cell of every room as a door point.
  - It triangulates the door points. For each triangle it drops the highest-scoring edge and keeps the other two, skipping edges already decided and edges that leave the grid.
  - It carves a corridor along a route for each kept edge.
- The **hit-pattern decoder** inside `Item.WeaponDefinition.load` reads a weapon's character grid.
  - The last `x` in reading order marks the wielder.
  - Every `#` inside the window that row 0 defines becomes an offset relative to the wielder, with y pointing up.

Modules follow the program's structure:

| module | file | contents |
|---|---|---|
| `Geometry` | `geometry.dfy` | points, rectangles, containment and disjointness |
| `Tiles` | `tiles.dfy` | `GenerationTile` (tile type plus pathfinding type), passability, grids |
| `Random` | `random.dfy` | `java.util.Random` as an explicit stream of draws |
| `Rooms` | `rooms.dfy` | `Room`, `rotate`, `generateRoomContents` |
| `Partition` | `partition.dfy` | padding, pool search, corner placement, the split, `partition` |
| `GridWrites` | `grid.dfy` | `markRooms`, `carveCorridor` |
| `Connectivity` | `connectivity.dfy` | door collection, `calculatePaths`, `addPath`, `checkIgnored`/`checkAdded` |
| `Generator` | `generator.dfy` | `generate`: layout, stamping, edge selection and carving, end to end |
| `HitPattern` | `hitpattern.dfy` | the hit-pattern loops of `WeaponDefinition.load` |

Randomness is a parameter: a stream `s: nat -> nat` and a position. `nextInt(n)` is `s(pos) % n`, and the draws are taken in the Java's order. No operation moves the position backwards; `Partition.Orient` and `Rooms.GenerateRoomContents` state exactly how many draws they take. Any sequence of draws `java.util.Random` could produce is some stream, so every property holds for every run of the generator. Three more things are parameters:

- the Delaunay triangulation (door points to triangles);
- the score edges are ranked by;
- the pathfinder (grid and two points to a route).

Grids are indexed `[x][y]`, as in the Java. Hit-pattern grids are indexed `[y][x]`, as in the Java.

## Model

| member | source | states |
|---|---|---|
| Tiles.BlankGrid | core/src/Roguelike/DungeonGeneration/RecursiveDockGenerator.java:137-144 | the new grid has the requested width and height, and every cell is a default tile (wall type, no pathfinding type) |
| Rooms.Rotate | core/src/Roguelike/DungeonGeneration/RecursiveDockGenerator.java:34-51 | a turned room swaps width and height, keeps its position and stays well formed; the cell at (a, b) moves to (b, a) |
| Rooms.RotateTwice | core/src/Roguelike/DungeonGeneration/RecursiveDockGenerator.java:34-51 | turning a room twice gives back exactly the original room, because `rotate` is a transpose |
| Rooms.RotateFourTimes | core/src/Roguelike/DungeonGeneration/RecursiveDockGenerator.java:34-51 | four turns are the identity |
| Rooms.RotateKeepsOneDoor | core/src/Roguelike/DungeonGeneration/RecursiveDockGenerator.java:34-51 | a door at (a, b) is at (b, a) after a turn, and a room with exactly one door still has exactly one |
| Rooms.GenerateRoomContents | core/src/Roguelike/DungeonGeneration/RecursiveDockGenerator.java:53-111 | the room has the requested size, a wall border with a floor interior, and exactly one door; the first draw `nextInt(4)` picks the side, and the door sits at offset `1 + nextInt(span)` along it, taken from the second draw with span `height - 2` on the left and right sides and `width - 2` on the top and bottom (lines 82, 89, 98, 105); two draws are used |
| Rooms.OneDoorIsUnique | core/src/Roguelike/DungeonGeneration/RecursiveDockGenerator.java:53-111 | in such a room, a border cell is a door (not a pathfinding wall) exactly when it is the generated door cell |
| Partition.Padding | core/src/Roguelike/DungeonGeneration/RecursiveDockGenerator.java:209-210 | padding is between the minimum and maximum padding and leaves room for a minimum-size room; it never exceeds the draw plus the minimum padding, and equals it unless one more cell of padding would leave no room for a minimum-size room |
| Partition.RoomSize | core/src/Roguelike/DungeonGeneration/RecursiveDockGenerator.java:259-260 | a fresh room's side is within the room-size bounds and fits between the pads; it never exceeds the draw plus the minimum room size, and equals either that or the whole padded span |
| Partition.RemoveAt | core/src/Roguelike/DungeonGeneration/RecursiveDockGenerator.java:226-238 | the `removeIndex` of the index list at line 226 and of the pool at line 238, with the pool read at line 227: ordered removal by index: the elements before stay, the rest shift down, and exactly the removed element leaves the multiset |
| Partition.TryPool | core/src/Roguelike/DungeonGeneration/RecursiveDockGenerator.java:219-254 | a found pool room is one of the candidate indices |
| Partition.Orient | core/src/Roguelike/DungeonGeneration/RecursiveDockGenerator.java:240-251 | a room that fits some way is turned only if the turned orientation fits and left unturned only if the unturned one fits; when both fit it is turned exactly when the coin at the current position says so and one draw is used, otherwise no draw is used |
| Partition.TryPoolOrientation | core/src/Roguelike/DungeonGeneration/RecursiveDockGenerator.java:232-251 | a found room fits in its chosen orientation; it is turned whenever the unturned orientation does not fit, and when both fit it is turned exactly when the last coin drawn says so |
| Partition.TryPoolTriesEachOnce | core/src/Roguelike/DungeonGeneration/RecursiveDockGenerator.java:222-228 | no index is drawn twice; a failed search has drawn every index |
| Partition.TryPoolEndsAtFound | core/src/Roguelike/DungeonGeneration/RecursiveDockGenerator.java:225-238 | the room found is the last index drawn, so the search stops at the first fitting draw |
| Partition.TryPoolRejects | core/src/Roguelike/DungeonGeneration/RecursiveDockGenerator.java:225-236 | every index tried before the found one, and every index a failed search tried, names a room that fits in neither orientation |
| Partition.TryPoolExhaustive | core/src/Roguelike/DungeonGeneration/RecursiveDockGenerator.java:219-254 | when the search fails, no pool room fits the padded region either way |
| Partition.Dock | core/src/Roguelike/DungeonGeneration/RecursiveDockGenerator.java:236-250 | a docked room is its template, turned if chosen, and exactly that template leaves the pool |
| Partition.FreshRoom | core/src/Roguelike/DungeonGeneration/RecursiveDockGenerator.java:256-267 | a fresh room is a one-door room within the size bounds, fits the padded region unturned, and leaves the pool alone |
| Partition.PickRoom | core/src/Roguelike/DungeonGeneration/RecursiveDockGenerator.java:216-267 | a fresh room is made only when no pool room fits; otherwise the room is a fitting pool room, removed from the pool |
| Partition.Tiling | core/src/Roguelike/DungeonGeneration/RecursiveDockGenerator.java:271-412 | for each corner, the room lies in its padding, the padding lies in the region, and the padded room and the two leftover rectangles are pairwise disjoint parts of the region |
| Partition.TilingCovers | core/src/Roguelike/DungeonGeneration/RecursiveDockGenerator.java:271-412 | a cell is in the region exactly when it is in the padded room or one of the two leftover rectangles |
| Partition.TilingShrinks | core/src/Roguelike/DungeonGeneration/RecursiveDockGenerator.java:300-412 | each leftover rectangle has a smaller half-perimeter than the region, so the recursion ends |
| Partition.TilingAreas | core/src/Roguelike/DungeonGeneration/RecursiveDockGenerator.java:300-412 | the three pieces' areas add up to the region's area, and each leftover is strictly smaller |
| Partition.Anchor | core/src/Roguelike/DungeonGeneration/RecursiveDockGenerator.java:279-412 | the room, placed at the drawn corner, keeps its contents and origin; with a one-cell margin it lies in its padded rectangle, which lies in the region; the two leftover rectangles lie in the region, are disjoint from the padding and from each other, and each has a smaller half-perimeter; pool and position are unchanged |
| Partition.PartitionStep | core/src/Roguelike/DungeonGeneration/RecursiveDockGenerator.java:207-412 | one level of the recursion places a valid room inside its padding inside the region; the leftovers are disjoint and smaller; the pool loses exactly the docked template |
| Partition.Partition | core/src/Roguelike/DungeonGeneration/RecursiveDockGenerator.java:207-412 | every call places at least one room; the remaining pool only holds rooms of the original pool |
| Partition.PartitionLayout | core/src/Roguelike/DungeonGeneration/RecursiveDockGenerator.java:269-412 | of the rooms `Partition` places: every one lies inside the region and no two overlap; each, with a one-cell margin, lies in its own padded rectangle, the padded rectangles lie in the region and are pairwise disjoint, so no two rooms even touch |
| Partition.CombinePadded | core/src/Roguelike/DungeonGeneration/RecursiveDockGenerator.java:300-412 | a room inside its padding plus the padded layouts of the two leftover rectangles form a padded layout of the region |
| Partition.PartitionPadded | core/src/Roguelike/DungeonGeneration/RecursiveDockGenerator.java:269-412 | the padded rectangles `Partition` returns, one per placed room, contain their rooms with a margin and are disjoint parts of the region |
| Partition.PaddedLayoutApart | core/src/Roguelike/DungeonGeneration/RecursiveDockGenerator.java:279-298 | rooms in disjoint paddings that hold them with a one-cell margin do not touch: a room grown by one cell misses every other room |
| Partition.PartitionConservesPool | core/src/Roguelike/DungeonGeneration/RecursiveDockGenerator.java:216-267 | the original pool is, as a multiset, the remaining pool plus the templates that were docked |
| Partition.PartitionPlacementsValid | core/src/Roguelike/DungeonGeneration/RecursiveDockGenerator.java:216-267 | every placed room is a one-door fresh room within the size bounds, or a pool template turned at most once |
| GridWrites.CarveCorridor | core/src/Roguelike/DungeonGeneration/RecursiveDockGenerator.java:469-480 | exactly the route's cells become corridor floor; every other cell keeps its tile |
| GridWrites.CarvedRouteIsPassable | core/src/Roguelike/DungeonGeneration/RecursiveDockGenerator.java:469-480 | every cell of a carved route is passable afterwards |
| GridWrites.CarveIdempotent | core/src/Roguelike/DungeonGeneration/RecursiveDockGenerator.java:469-480 | carving the same route twice changes nothing more |
| GridWrites.CarveAppend | core/src/Roguelike/DungeonGeneration/RecursiveDockGenerator.java:460-466 | carving route a then route b is carving a followed by b as one route |
| GridWrites.MarkRoom | core/src/Roguelike/DungeonGeneration/RecursiveDockGenerator.java:585-594 | cells under the room take the room's tiles; every other cell is unchanged |
| GridWrites.LastCover | core/src/Roguelike/DungeonGeneration/RecursiveDockGenerator.java:583-596 | finds the last room in placement order that covers a cell, or none |
| GridWrites.MarkRooms | core/src/Roguelike/DungeonGeneration/RecursiveDockGenerator.java:583-596 | each cell shows the tile of the last room covering it, or its old tile if no room covers it |
| GridWrites.MarkedRoomsAreExact | core/src/Roguelike/DungeonGeneration/RecursiveDockGenerator.java:583-596 | when the rooms do not overlap, every cell of a room shows that room's own tile |
| Connectivity.RoomDoors | core/src/Roguelike/DungeonGeneration/RecursiveDockGenerator.java:421-437 | a point is collected from a room exactly when it is a border cell of the room that is not a pathfinding wall |
| Connectivity.DoorPoints | core/src/Roguelike/DungeonGeneration/RecursiveDockGenerator.java:419-438 | a point is collected exactly when it is such a door cell of some placed room |
| Connectivity.OneDoorRoomHasOneDoorPoint | core/src/Roguelike/DungeonGeneration/RecursiveDockGenerator.java:419-438 | a generated one-door room contributes exactly its door cell |
| Connectivity.DroppedEdge | core/src/Roguelike/DungeonGeneration/RecursiveDockGenerator.java:484-502 | the ignored edge has the highest score of the three, and it is the first edge with that score |
| Connectivity.Known | core/src/Roguelike/DungeonGeneration/RecursiveDockGenerator.java:551-581 | a pair is known exactly when the list holds it in either orientation |
| Connectivity.AddPath | core/src/Roguelike/DungeonGeneration/RecursiveDockGenerator.java:533-549 | an edge with an endpoint outside the usable grid is ignored; any other edge is added to both the added list and the path list |
| Connectivity.ConsiderEdgeAppends | core/src/Roguelike/DungeonGeneration/RecursiveDockGenerator.java:504-530 | `ConsiderEdge` (one branch of `calculatePaths`) either keeps the paths or appends that one edge, and afterwards the edge is known as added or ignored; it appends exactly when the edge is not dropped, its pair is on neither list, and both ends are in bounds |
| Connectivity.ConsiderEdgeAdds | core/src/Roguelike/DungeonGeneration/RecursiveDockGenerator.java:504-549 | under `ConsiderEdge`, an edge that is not dropped, not ignored and in bounds is a path afterwards, and the path list only grows |
| Connectivity.ConsiderOtherEdge | core/src/Roguelike/DungeonGeneration/RecursiveDockGenerator.java:504-549 | under `ConsiderEdge`, an edge for a different pair leaves that pair's ignored status alone and only extends the path list |
| Connectivity.ConsiderEdgeKeepsConsistent | core/src/Roguelike/DungeonGeneration/RecursiveDockGenerator.java:504-549 | the path list stays equal to the added list, repeats no unordered pair, and keeps both ends of every path in bounds |
| Connectivity.CalculatePathsConsistent | core/src/Roguelike/DungeonGeneration/RecursiveDockGenerator.java:482-531 | one triangle keeps the edge lists consistent in the same sense |
| Connectivity.CalculatePathsSkipsDropped | core/src/Roguelike/DungeonGeneration/RecursiveDockGenerator.java:482-531 | a triangle only appends its own edges, never the dropped (highest-scoring) one |
| Connectivity.CalculatePathsAdds | core/src/Roguelike/DungeonGeneration/RecursiveDockGenerator.java:482-531 | `CalculatePaths` on one triangle with distinct vertices makes each kept, in-bounds edge whose pair is not yet ignored a path |
| Connectivity.CalculatePathsKeeps | core/src/Roguelike/DungeonGeneration/RecursiveDockGenerator.java:482-531 | `CalculatePaths` forgets no path and keeps the path list equal to the added list |
| Connectivity.CalculatePathsIgnoresDropped | core/src/Roguelike/DungeonGeneration/RecursiveDockGenerator.java:504-530 | after a triangle, its dropped edge is on the ignored list |
| Connectivity.SelectEdgesSound | core/src/Roguelike/DungeonGeneration/RecursiveDockGenerator.java:455-458 | under `SelectEdges`, over all triangles, the paths only grow, each new path is a non-dropped edge of some triangle, and the lists stay consistent |
| Connectivity.ConsiderEdgeSkipsIgnored | core/src/Roguelike/DungeonGeneration/RecursiveDockGenerator.java:505-530 | considering an edge when a pair is already ignored keeps that pair ignored, and the edge appended (if any) is not that pair |
| Connectivity.CalculatePathsSkipsIgnored | core/src/Roguelike/DungeonGeneration/RecursiveDockGenerator.java:482-531 | a triangle never appends a path for a pair that was already on the ignored list, and the pair stays ignored |
| Connectivity.SelectEdgesSkipsIgnored | core/src/Roguelike/DungeonGeneration/RecursiveDockGenerator.java:455-458 | once a pair is ignored, no later triangle adds a path for it in either orientation |
| Connectivity.SelectEdgesKeeps | core/src/Roguelike/DungeonGeneration/RecursiveDockGenerator.java:455-458 | `SelectEdges` over any run of triangles forgets no path |
| Connectivity.SelectEdgesAddsKept | core/src/Roguelike/DungeonGeneration/RecursiveDockGenerator.java:455-458 | completeness of `SelectEdges`: a kept edge of triangle j with distinct vertices, both ends in bounds, whose pair no earlier triangle put on the ignored list, is a path at the end; with `SelectEdgesSkipsIgnored` this decides every kept edge |
| Connectivity.SelectEdgesSplit | core/src/Roguelike/DungeonGeneration/RecursiveDockGenerator.java:455-458 | running the triangle loop over two consecutive runs of triangles is running it over the first and then continuing with the second |
| Connectivity.DroppedNeverAddedLater | core/src/Roguelike/DungeonGeneration/RecursiveDockGenerator.java:455-458 | a triangle's dropped edge is never added as a path by any triangle after it |
| Connectivity.DroppedEdgeNeedNotBeLongest | core/src/Roguelike/DungeonGeneration/RecursiveDockGenerator.java:484-502 | with the source's score, a triangle can drop an edge of length 10 and keep one of length sqrt(101) |
| Connectivity.AddedAndIgnoredMayShareAPair | core/src/Roguelike/DungeonGeneration/RecursiveDockGenerator.java:504-530 | with the source's own score, two triangles sharing an edge can leave that pair on both the added list and the ignored list |
| Generator.LayoutRoomsSound | core/src/Roguelike/DungeonGeneration/RecursiveDockGenerator.java:188-205 | `LayoutRooms` (the `partition` call on the interior) places at least one room on a large enough level; rooms are valid, inside the one-cell frame and non-overlapping; each sits with a margin in its own padded rectangle, the padded rectangles are disjoint, and no two rooms touch; the pool is conserved |
| Generator.DoorPointsInBounds | core/src/Roguelike/DungeonGeneration/RecursiveDockGenerator.java:533-540 | every door of a room inside the frame passes the bounds test of `addPath` |
| Generator.PlacedRooms | core/src/Roguelike/DungeonGeneration/RecursiveDockGenerator.java:583-596 | placed rooms are well formed, lie in the grid and do not overlap, which is what stamping needs |
| Generator.MarkedDoorsPassable | core/src/Roguelike/DungeonGeneration/RecursiveDockGenerator.java:583-624 | after stamping, every door point is a passable cell of the grid |
| Generator.MarkedShowsRooms | core/src/Roguelike/DungeonGeneration/RecursiveDockGenerator.java:583-596 | stamping non-overlapping rooms on a blank grid shows each room's own tiles under it and leaves every other cell blank |
| Generator.StampRooms | core/src/Roguelike/DungeonGeneration/RecursiveDockGenerator.java:583-596 | each cell of the grid allocated at lines 137-144, after `markRooms` (called at line 202), is the blank grid marked with the placed rooms: under a room it is that room's tile, elsewhere it stays blank; every door point is passable |
| Generator.CarvedInTurnStep | core/src/Roguelike/DungeonGeneration/RecursiveDockGenerator.java:460-466 | one more turn of the loop extends the record of routes and intermediate grids by one |
| Generator.CarvingStep | core/src/Roguelike/DungeonGeneration/RecursiveDockGenerator.java:460-466 | one turn of the loop keeps the grid equal to the start grid with all routes so far carved |
| Generator.CorridorsArePassable | core/src/Roguelike/DungeonGeneration/RecursiveDockGenerator.java:460-480 | after carving, exactly the cells on some route are corridor and every other cell is unchanged; passable points stay passable |
| Generator.CarvePaths | core/src/Roguelike/DungeonGeneration/RecursiveDockGenerator.java:460-466 | the paths are carved in order, each along the route the pathfinder returns for the grid as carved so far; exactly the cells on some route become corridor, every other cell is unchanged, and doors stay passable |
| Generator.Generate | core/src/Roguelike/DungeonGeneration/RecursiveDockGenerator.java:188-205 | the placed rooms are exactly the layout `partition` draws from the stream and the pool, and the remaining pool is the layout's, which `LayoutRoomsSound` shows is the original pool minus the docked templates; the paths are exactly the edge selection over the triangulated door points; the level grid has the requested size; rooms are valid, inside the frame and non-overlapping; the stamped grid shows each room's tiles and is blank elsewhere; the final grid is the stamped grid with each path carved in turn along the pathfinder's route, and every door cell is passable at the end |
| HitPattern.RowHitsExact | core/src/Roguelike/Items/Item.java:607-619 | one row yields exactly its `#` cells inside the window, left to right |
| HitPattern.HitsExact | core/src/Roguelike/Items/Item.java:607-619 | the whole grid yields exactly its `#` cells inside the window, in reading order |
| HitPattern.Offsets | core/src/Roguelike/Items/Item.java:613-616 | each offset is the cell's column minus the centre's, and the centre's row minus the cell's |
| HitPattern.OffsetsMembership | core/src/Roguelike/Items/Item.java:613-616 | an offset is produced exactly when the cell it points back to is in the list |
| HitPattern.CentralPoint | core/src/Roguelike/Items/Item.java:588-605 | the centre is the last `x` in reading order, or (0, 0) when there is none |
| HitPattern.HitOffsets | core/src/Roguelike/Items/Item.java:607-619 | the nested loops produce the offsets of the grid's hits, in reading order |
| HitPattern.FirstShortRow | core/src/Roguelike/Items/Item.java:607-610 | finds the first row shorter than row 0, or reports that none is |
| HitPattern.HitOffsetsExact | core/src/Roguelike/Items/Item.java:607-619 | an offset is present exactly when its cell is a `#` inside the window, and the offsets follow reading order |
| HitPattern.CellsOfOffsets | core/src/Roguelike/Items/Item.java:613-616 | offsets can be turned back into their cells |
| HitPattern.OffsetsDistinct | core/src/Roguelike/Items/Item.java:607-619 | no offset appears twice |
| HitPattern.WielderNotHit | core/src/Roguelike/Items/Item.java:588-619 | the wielder's own cell is never a hit |
| HitPattern.Decode | core/src/Roguelike/Items/Item.java:587-619 | a grid with a row shorter than row 0 fails and names the first short row; otherwise the centre is the last `x`, the offsets are exactly the `#` cells of the window (distinct and in reading order), and (0, 0) is not among them when there is an `x` |

## Left out

- Room loading in `generate` (lines 190-198) reads predefined rooms from a level file through `DungeonFileParser`. The pool of predefined rooms is therefore a parameter.
- `getLevel` converts the grid to game tiles. It is outside the generator's core.
- The Delaunay triangulation (`Triangulation`, `delaunayPlace`, the super triangle at ±10000) is a parameter. `Generate` states its result for whatever triangles it returns.
- The Pathfinder is a parameter. The model requires every route it returns to lie in the grid; the Java would throw on a route that does not.
- `java.util.Random` is a stream of draws, as described above. The draw order matches the Java's calls.
- The edge score in `calculatePaths` is a `double` built from `Math.pow`, which can overflow to infinity. The model keeps the score abstract. `SourceScore` mirrors the formula in reals and is used for the concrete examples.
- `Pnt` coordinates are doubles in the source; the model uses integers, which is all the generator ever stores in them.
- The `System.out.println` tracing is left out.
- `GenerationTile.symbol` and `getInfluence` (always 0) are left out, since no modelled operation reads them.
- The rest of `Item.java` (XML parsing, sprites, hit types, equipment) is left out. Only the hit-pattern loops are modelled, and the XML lines come in as a sequence of strings.
- Generator.LayoutRooms: requires both interior sides to be at least 8. The source calls `partition` on the interior without any check, and smaller levels make the padding clamp zero or negative.
- Generator.Generate: has the same size requirement as LayoutRooms, and requires every returned route to lie in the grid.
- Rooms.GenerateRoomContents: requires sides of at least 3. The source only ever calls it with sides of at least 6 on levels the model admits.
- HitPattern.Decode: rows are sequences of Unicode scalar values. Java's `toCharArray` (core/src/Roguelike/Items/Item.java:595) yields UTF-16 code units, so a character outside the Basic Multilingual Plane before a `#` or `x` shifts the Java column by one; the model treats each row as already split into code units.
- Connectivity.SelectEdgesAddsKept: requires triangle j to have three distinct vertices, as every triangle of a Delaunay triangulation does. With a repeated vertex a kept edge can name the same pair as the dropped edge, which is ignored first; `Connectivity.CalculatePathsAdds` has the same requirement.
- Connectivity.AddPath: its contract follows the code's two branches closely. The properties that matter are stated on the edge-selection lemmas above it.

## Notes on the code

Line numbers in this section refer to `core/src/Roguelike/DungeonGeneration/RecursiveDockGenerator.java`.

- The comment at line 231 speaks of fitting a room "at 90 degrees", and the method is called `rotate` (lines 34-51). The method transposes the cell array, which is a mirror image of a quarter turn, so two calls give back the original room. The model follows the code (`Rooms.RotateTwice`).
- The fields `minPadding = 1` and `maxPadding = 4` (lines 120-121) suggest padding from 1 to 4. The draw at lines 209-210 is `nextInt(maxPadding - minPadding) + minPadding`, which is 1 to 3, and is then clamped. A padding of 4 never occurs. The model follows the code (`Partition.Padding`).
- `calculatePaths` picks the edge to skip with a strict `<` (lines 492 and 499), so among edges with equal scores the first one is skipped (`Connectivity.DroppedEdge`).
- The score at lines 489, 491 and 498 is `Math.pow(2, dx) + Math.pow(2, dy)` with signed differences, stored in a variable named `dist`. It is not a distance: in the triangle (10, 0), (0, 0), (10, 1) the edge of length 10 scores 1025 and is dropped, while the edge of length sqrt(101) is kept (`Connectivity.DroppedEdgeNeedNotBeLongest`). A squared length looks intended, but the model follows the code and only ever speaks of the dropped, highest-scoring edge.
- The else branches at lines 509-512, 518-521 and 527-530 append an edge to the ignored list even when the pair is already on the added list. The two lists can therefore share a pair (`Connectivity.AddedAndIgnoredMayShareAPair`). The path list still never repeats a pair (`Connectivity.ConsiderEdgeKeepsConsistent`), and a pair that was ignored first is never added later (`Connectivity.SelectEdgesSkipsIgnored`).
