# Raster-to-path tracing pipeline of `map-trail.js`

The map trail page turns a bitmap of a road band into a smooth SVG path for the car
to follow. `autoTrace` does this in stages, and each stage works on flat `Uint8Array`
masks indexed `y * w + x`:

1. `toBinaryMask` thresholds the canvas RGBA data into a 0/1 mask.
2. `closeMask` closes small gaps: a `dilate` followed by an `erode` over the
   8-neighbourhood.
3. `zhangSuenThinning` reduces the band to a one-pixel skeleton.
4. `pruneEndpoints` trims short spurs.
5. `largestComponent` keeps the biggest 8-connected piece.
6. `extractLongestPath` runs a breadth-first search twice to find a long walk through the
   skeleton.
7. `maskBounds` finds the bounding box of the band.
8. The pixel walk is decimated, simplified with `rdp`, decimated again, smoothed with
   `chaikinSmooth`, and written out by `catmullRomToBezier`.

The model follows the code stage by stage, with one module per stage. Each raster stage is
a method over `array<int>` buffers. It is proved equal to a specification function on
`seq<int>`, and lemmas state what the stage promises:

| module | stage | file |
|---|---|---|
| `Grid` | flat index arithmetic, masks, counts | `grid.dfy` |
| `Graph` | adjacency, walks, 8-connected components | `graph.dfy` |
| `Binarize` | `toBinaryMask` | `binarize.dfy` |
| `Morphology` | `dilate`, `erode`, `closeMask` | `morphology.dfy` |
| `Thinning` | `zhangSuenThinning` | `thinning.dfy` |
| `Prune` | `pruneEndpoints` | `prune.dfy` |
| `Components` | `largestComponent` | `components.dfy` |
| `LongestPath` | `extractLongestPath` and its `bfs` | `longest_path.dfy` |
| `Polyline` | `chaikinSmooth`, `catmullRomToBezier`, `rdp` | `polyline.dfy` |
| `Trace` | `maskBounds` and the stride decimation in `autoTrace` | `trace.dfy` |

Key properties proved:

- **Frame condition.** Every raster stage method (`ToBinaryMask`, `Dilate`, `Erode`,
  `CloseMask`, `ZhangSuenThinning`, `PruneEndpoints`, `LargestComponent`) ensures that its
  result is a `fresh` array, and none has a `modifies` clause on its input. So the caller's
  mask is left untouched and never aliased by the result, just as each stage copies its
  input in the code.
- **Termination.** The `while (any)` loop of the thinning terminates because each repeated
  round lowers the foreground count (`Thinning.RoundShrinks`).

## Model

| member | source | states |
|---|---|---|
| `Grid.CopyBuffer` | my-project/src/map-trail.js:148 | the `new Uint8Array(src)` copy holds the same cells as its source |
| `Binarize.ToBinaryMask` | my-project/src/map-trail.js:132-143 | the returned buffer is the threshold mask of the RGBA data, cell by cell, in a fresh buffer |
| `Binarize.BinaryMaskCells` | my-project/src/map-trail.js:136-139 | the mask has w*h cells, each 0 or 1; cell y*w+x is 1 exactly when r+g+b at offset 4(y*w+x) is at least 3*threshold |
| `Binarize.AlphaIgnored` | my-project/src/map-trail.js:137 | two inputs that differ only in their alpha samples give the same mask |
| `Binarize.LowThresholdAllOnes` | my-project/src/map-trail.js:138-139 | with a threshold of 0 or below, every cell is 1 |
| `Binarize.HighThresholdAllZeros` | my-project/src/map-trail.js:138-139 | with a threshold above 255, every cell is 0 |
| `Morphology.DilateOnce` | my-project/src/map-trail.js:278-288 | one dilation round yields a 0/1 mask of the same size |
| `Morphology.DilateN` | my-project/src/map-trail.js:277-290 | `iterations` rounds of dilation keep the mask's size |
| `Morphology.ErodeOnce` | my-project/src/map-trail.js:300-309 | one erosion round yields a 0/1 mask of the same size |
| `Morphology.ErodeN` | my-project/src/map-trail.js:299-311 | `iterations` rounds of erosion keep the mask's size |
| `Morphology.StampBlock` | my-project/src/map-trail.js:282-285 | the offset loops set exactly the in-bounds cells of the 3x3 block around (x, y) to 1 and leave every other cell alone |
| `Morphology.DilateRow` | my-project/src/map-trail.js:280-287 | after row y, `out` holds 1 exactly at the cells stamped by the foreground pixels of rows 0..y |
| `Morphology.DilateRound` | my-project/src/map-trail.js:278-288 | one pass of `out.fill(0)` and the scan leaves `out` equal to `DilateOnce` of the image |
| `Morphology.Dilate` | my-project/src/map-trail.js:273-292 | `dilate` returns `DilateN` of its input in a fresh buffer, and an unchanged copy when `iterations <= 0` |
| `Morphology.BlockIsFull` | my-project/src/map-trail.js:303-306 | `ok` is 1 exactly when the whole 3x3 block around (x, y) is foreground |
| `Morphology.ErodeRow` | my-project/src/map-trail.js:302-308 | after interior row y, `out` holds 1 exactly at the interior pixels of rows 1..y whose block is full |
| `Morphology.ErodeRound` | my-project/src/map-trail.js:300-309 | one pass of `out.fill(0)` and the scan leaves `out` equal to `ErodeOnce` of the image |
| `Morphology.Erode` | my-project/src/map-trail.js:295-313 | `erode` returns `ErodeN` of its input in a fresh buffer, and an unchanged copy when `iterations <= 0` |
| `Morphology.CloseMask` | my-project/src/map-trail.js:315-317 | `closeMask` is erosion of the dilation, with the same iteration count, in a fresh buffer |
| `Morphology.DilateOnceAt` | my-project/src/map-trail.js:281-285 | every in-bounds neighbour of a foreground pixel is set by a dilation round |
| `Morphology.ErodeOnceAt` | my-project/src/map-trail.js:301-307 | a pixel survives one erosion round exactly when it is interior and its 3x3 block is full |
| `Morphology.DilateOnceGrows` | my-project/src/map-trail.js:282 | because the offsets include (0, 0), a dilation round never clears a foreground pixel |
| `Morphology.DilateNGrows` | my-project/src/map-trail.js:277-290 | any number of dilation rounds keeps every foreground pixel |
| `Morphology.ErodeOnceShrinks` | my-project/src/map-trail.js:304-307 | an erosion round never sets a background pixel |
| `Morphology.ErodeNShrinks` | my-project/src/map-trail.js:299-311 | any number of erosion rounds only removes pixels |
| `Morphology.ErodeNBorder` | my-project/src/map-trail.js:300-302 | with at least one round, the border rows and columns are 0 after erosion |
| `Morphology.MaskPreserved` | my-project/src/map-trail.js:273-313 | dilation and erosion map 0/1 masks to 0/1 masks |
| `Morphology.DilateNAllZero` | my-project/src/map-trail.js:281 | dilating an empty mask leaves it empty |
| `Morphology.ErodeNAllZero` | my-project/src/map-trail.js:305 | eroding an empty mask leaves it empty |
| `Morphology.CloseAllZero` | my-project/src/map-trail.js:315-317 | `closeMask` of an all-zero mask is all-zero |
| `Morphology.DilateNBall` | my-project/src/map-trail.js:277-290 | n dilation rounds set every in-bounds pixel within Chebyshev distance n of a foreground pixel |
| `Morphology.ErodeNBall` | my-project/src/map-trail.js:299-311 | after j erosion rounds, a foreground square of radius k that lies far enough from the border still holds a square of radius k-j |
| `Morphology.CloseKeepsInner` | my-project/src/map-trail.js:315-317 | closing keeps a foreground pixel that lies far enough from the border |
| `Thinning.Ring` | my-project/src/map-trail.js:153-164 | the neighbour list has 8 entries, read N, NE, E, SE, S, SW, W, NW |
| `Thinning.Neighbors` | my-project/src/map-trail.js:153-164 | the eight reads `img[idx(x+dx, y+dy)]` of an interior pixel give `Ring` of the image |
| `Thinning.CountTransitions` | my-project/src/map-trail.js:178 | the `transitions` reduction counts the cyclic 0-to-1 patterns of the ring |
| `Thinning.SumRing` | my-project/src/map-trail.js:179 | the `count` reduction is the sum of the ring |
| `Thinning.Marked` | my-project/src/map-trail.js:175-183 | the deletion test of a sub-iteration, defined as in the code: an interior foreground pixel with 2 to 6 foreground neighbours, exactly one 0-to-1 transition round the ring, and the step's two neighbour products both 0 |
| `Thinning.Cleared` | my-project/src/map-trail.js:187-189 | applying the flags only loses foreground and never raises the pixel count; the image is unchanged exactly when no flagged cell was foreground |
| `Thinning.Marks` | my-project/src/map-trail.js:173-186 | a sub-iteration's flag buffer has one cell per pixel |
| `Thinning.ThinStep` | my-project/src/map-trail.js:173-189 | a sub-iteration keeps the mask's size |
| `Thinning.Round` | my-project/src/map-trail.js:171-207 | a round, step 1 then step 2, keeps the mask's size |
| `Thinning.MarkRow` | my-project/src/map-trail.js:174-185 | after interior row y, `changed` flags exactly the pixels of rows 1..y that pass the deletion test, each read from the image as it was at the start of the scan |
| `Thinning.ApplyChanges` | my-project/src/map-trail.js:187-189 | the clean-up loop clears the flagged pixels and resets every flag; `any` is set exactly when some flag was set |
| `Thinning.SubIteration` | my-project/src/map-trail.js:173-189 | one scan and apply leaves the image equal to `ThinStep` of it, and reports a removal exactly when the image changed |
| `Thinning.ThinStepWithin` | my-project/src/map-trail.js:180-189 | a sub-iteration keeps a 0/1 mask, only deletes pixels, and deletes exactly the marked ones |
| `Thinning.RoundShrinks` | my-project/src/map-trail.js:170-208 | a round only deletes pixels, and a round that changes the image lowers its foreground count, so the `while (any)` loop terminates |
| `Thinning.Thin` | my-project/src/map-trail.js:169-208 | the skeleton is a 0/1 subset of the input on which a further round changes nothing |
| `Thinning.RoundFixed` | my-project/src/map-trail.js:170-208 | when a round changes nothing, neither sub-iteration deletes a pixel |
| `Thinning.ThinStable` | my-project/src/map-trail.js:180-183 | no skeleton pixel passes the deletion test of either sub-iteration |
| `Thinning.ThinBorder` | my-project/src/map-trail.js:173-174 | pixels on the first and last rows and columns are never altered |
| `Thinning.ThinAllZero` | my-project/src/map-trail.js:176 | thinning an empty mask returns it unchanged |
| `Thinning.ZhangSuenThinning` | my-project/src/map-trail.js:147-210 | `zhangSuenThinning` returns `Thin` of its input, in a fresh buffer |
| `Prune.NbCount` | my-project/src/map-trail.js:223-227 | the number of foreground 8-neighbours lies between 0 and 8 |
| `Prune.Endpoint` | my-project/src/map-trail.js:221-228 | the removal test, defined as in the code: an interior foreground pixel with at most one foreground 8-neighbour |
| `Prune.PruneOnce` | my-project/src/map-trail.js:218-232 | one pruning round keeps the mask's size |
| `Prune.PruneN` | my-project/src/map-trail.js:217-233 | up to `iterations` rounds keep the mask's size |
| `Prune.CountNeighbours` | my-project/src/map-trail.js:223-227 | the offset loops count the foreground 8-neighbours, `NbCount` |
| `Prune.CollectRow` | my-project/src/map-trail.js:220-229 | after interior row y, `toRemove` lists exactly the endpoints of rows 1..y |
| `Prune.Collect` | my-project/src/map-trail.js:218-230 | `toRemove` lists exactly the interior foreground pixels with at most one foreground neighbour |
| `Prune.ClearAll` | my-project/src/map-trail.js:232 | the listed cells become 0 and every other cell is kept |
| `Prune.PruneSettled` | my-project/src/map-trail.js:231 | once a round removes nothing, later rounds change nothing, as the `break` does |
| `Prune.PruneEndpoints` | my-project/src/map-trail.js:213-235 | `pruneEndpoints` returns `PruneN` of its input, in a fresh buffer |
| `Prune.PruneOnceWithin` | my-project/src/map-trail.js:228-232 | a round only removes pixels, and it removes exactly the endpoints, all at once |
| `Prune.PruneMonotone` | my-project/src/map-trail.js:217-233 | each round removes only pixels, and the foreground count never increases |
| `Prune.PruneNWithin` | my-project/src/map-trail.js:213-235 | the output is a subset of the input, a 0/1 mask stays one, and border pixels are untouched |
| `Prune.NoEndpointUnchanged` | my-project/src/map-trail.js:231 | a mask without endpoints is returned unchanged |
| `Graph.AdjSym` | my-project/src/map-trail.js:254-258 | 8-adjacency is symmetric |
| `Graph.AdjCoords` | my-project/src/map-trail.js:254-258 | the offset loops reach exactly the 8-adjacent pixels |
| `Graph.ConnectedRefl` | my-project/src/map-trail.js:249-250 | a foreground pixel is connected to itself |
| `Graph.ConnectedStep` | my-project/src/map-trail.js:259 | connection extends by one step to an adjacent foreground pixel |
| `Graph.Reverse` | my-project/src/map-trail.js:362 | reversal has the same length and reads the list backwards |
| `Graph.ConnectedSym` | my-project/src/map-trail.js:254-259 | connection is symmetric |
| `Graph.ConnectedTrans` | my-project/src/map-trail.js:254-259 | connection is transitive |
| `Graph.PathInClosed` | my-project/src/map-trail.js:251-261 | a walk that starts in a set closed under adjacency stays in it |
| `Graph.ClosedContains` | my-project/src/map-trail.js:251-261 | a closed set holds the whole component of each of its members |
| `Graph.ComponentOfMember` | my-project/src/map-trail.js:246 | all pixels of a component share the same component, so two components are equal or disjoint |
| `Graph.ComponentShape` | my-project/src/map-trail.js:247-261 | a component is made of foreground pixels, contains its seed when the seed is foreground, and is closed under adjacency |
| `Components.Indicator` | my-project/src/map-trail.js:267-268 | the painted mask has w*h cells |
| `Components.LargestSeedUnique` | my-project/src/map-trail.js:266 | the kept component is uniquely determined |
| `Components.LargestSeedFirst` | my-project/src/map-trail.js:243-246 | the kept seed is the first pixel of its component in scan order |
| `Components.Visit` | my-project/src/map-trail.js:259 | the `!visited[ni] && img[ni]` step keeps the fill's invariant (everything listed is in the seed's component, listed once, and marked), grows the fill only by unvisited pixels, and leaves a foreground neighbour visited |
| `Components.VisitOffset` | my-project/src/map-trail.js:255-259 | the body for offset (ox, oy) skips the centre and off-image pixels and visits the rest; it keeps the fill's invariant, grows the fill only by unvisited pixels, and leaves visited every foreground neighbour at the offsets passed so far |
| `Components.VisitRow` | my-project/src/map-trail.js:254-260 | the `ox` loop of row offset oy keeps the fill's invariant and leaves visited every foreground neighbour in the row offsets up to oy |
| `Components.VisitNeighbours` | my-project/src/map-trail.js:254-260 | after both offset loops every foreground 8-neighbour of `cur` is visited, the fill's invariant holds, and the fill grew only by unvisited pixels |
| `Components.FloodFill` | my-project/src/map-trail.js:247-261 | the flood fill lists exactly the component of its seed, without repeats, and marks exactly those pixels visited |
| `Components.ScanPixel` | my-project/src/map-trail.js:245-263 | one step of the scan skips a visited or background pixel, or records the component it starts |
| `Components.ScanRow` | my-project/src/map-trail.js:244-264 | after row y, the recorded lists are the distinct components met so far, in scan order |
| `Components.FirstLongest` | my-project/src/map-trail.js:266 | the stable sort's first element is the first of the longest lists |
| `Components.Paint` | my-project/src/map-trail.js:267-268 | `main` is a fresh buffer that is 1 exactly at the pixels of the chosen list |
| `Components.ChosenIsLargest` | my-project/src/map-trail.js:266 | the chosen list is the component at least as large as every other, and the first in scan order on a tie |
| `Components.NoComponents` | my-project/src/map-trail.js:265 | a finished scan that recorded nothing saw an empty mask |
| `Components.LargestComponent` | my-project/src/map-trail.js:238-270 | an empty mask comes back unchanged; otherwise the result has 1 exactly on the component chosen by `IsLargestSeed`; the result is a fresh buffer in both cases |
| `LongestPath.ToXY` | my-project/src/map-trail.js:322 | `toXY` inverts the flat index, with the column in range |
| `LongestPath.DistUnique` | my-project/src/map-trail.js:329-344 | the distance between two pixels is unique |
| `LongestPath.Chain` | my-project/src/map-trail.js:355-361 | following parents from j to the source gives a shortest walk, one layer per step |
| `LongestPath.BfsInit` | my-project/src/map-trail.js:330-333 | fresh `dist` and `parent` arrays: every parent is -1, every distance is -1 except 0 at `from`; with the queue [from] they satisfy the search invariant |
| `LongestPath.Reach` | my-project/src/map-trail.js:342 | `dist[ni]` becomes `dist[cur] + 1` and `parent[ni]` becomes `cur`, nothing else in either array changes, and `ni` is appended to the queue |
| `LongestPath.BfsVisit` | my-project/src/map-trail.js:342 | an unreached foreground neighbour gets distance `dist[cur] + 1` and parent `cur`, and is queued |
| `LongestPath.BfsOffset` | my-project/src/map-trail.js:338-342 | the body for offset (ox, oy) skips the centre and off-image pixels; it keeps the search invariant, never changes a distance already set, only appends to the queue, and leaves every foreground neighbour at the offsets passed so far at distance at most `dist[cur] + 1` |
| `LongestPath.BfsNeighbour` | my-project/src/map-trail.js:341-342 | the test of an on-image neighbour keeps the search invariant and leaves that neighbour, when foreground, at distance at most `dist[cur] + 1` |
| `LongestPath.BfsRow` | my-project/src/map-trail.js:337-343 | the `ox` loop of row offset oy keeps the search invariant and leaves every foreground neighbour in row offsets up to oy at distance at most `dist[cur] + 1` |
| `LongestPath.BfsNeighbours` | my-project/src/map-trail.js:335-343 | processing the head of the queue keeps the search invariant and moves the head on |
| `LongestPath.BfsLoop` | my-project/src/map-trail.js:334-344 | the queue loop keeps the search invariant until the head reaches the end of the queue |
| `LongestPath.BfsLower` | my-project/src/map-trail.js:334-344 | every walk from the source of p steps reaches a pixel whose distance is at most p-1 |
| `LongestPath.BfsExact` | my-project/src/map-trail.js:334-344 | at the end, `dist` is the exact 8-connected distance for reachable pixels, and -1 elsewhere |
| `LongestPath.Farthest` | my-project/src/map-trail.js:346-347 | the `dist[i] > best` scan returns the first index of maximal distance |
| `LongestPath.FarthestFirst` | my-project/src/map-trail.js:346-347 | this index is the first farthest pixel from the source |
| `LongestPath.Bfs` | my-project/src/map-trail.js:329-349 | `bfs(from)` returns exact distances, a parent tree, and the first farthest pixel |
| `LongestPath.FirstForeground` | my-project/src/map-trail.js:325-327 | `start` is -1 exactly on an empty mask, and is otherwise the first foreground pixel |
| `LongestPath.Reconstruct` | my-project/src/map-trail.js:355-362 | following parents from b to a and reversing gives the walk from a to b |
| `LongestPath.ChainTraced` | my-project/src/map-trail.js:351-362 | the reconstructed walk has distinct pixels and goes from A to B, as short as any walk between them |
| `LongestPath.ExtractLongestPath` | my-project/src/map-trail.js:320-363 | an empty mask gives []; otherwise the result is the pixels of a `Traced` walk |
| `LongestPath.PixelsStep` | my-project/src/map-trail.js:337-342 | consecutive pixels of a walk are distinct and 8-adjacent |
| `Polyline.Cuts` | my-project/src/map-trail.js:56-63 | the inner loop pushes two points per segment |
| `Polyline.CutsAt` | my-project/src/map-trail.js:59-62 | entry k of the cuts is the quarter or three-quarter point of segment k/2 |
| `Polyline.ChaikinOnce` | my-project/src/map-trail.js:54-65 | one round turns n points into 2n, keeping the first and last |
| `Polyline.ChaikinOnceAt` | my-project/src/map-trail.js:55-64 | the inner points of a round are the cuts, in order |
| `Polyline.ChaikinN` | my-project/src/map-trail.js:53-66 | any number of rounds leave at least two points |
| `Polyline.ChaikinRound` | my-project/src/map-trail.js:54-65 | the body of the `iterations` loop computes `ChaikinOnce` |
| `Polyline.ChaikinSmooth` | my-project/src/map-trail.js:51-69 | fewer than 2 points are copied; otherwise the result is `iterations` rounds of `ChaikinOnce` |
| `Polyline.ChaikinShape` | my-project/src/map-trail.js:53-66 | after k rounds there are n*2^k points, with the first and last kept |
| `Polyline.ChaikinOnceBox` | my-project/src/map-trail.js:59-60 | a round keeps its points inside any box that holds its input |
| `Polyline.ChaikinBox` | my-project/src/map-trail.js:53-66 | any number of rounds keep the points inside any box that holds the input |
| `Polyline.Segment` | my-project/src/map-trail.js:80-89 | segment i is a cubic curve ending at `points[i+1]` |
| `Polyline.CatmullRomToBezier` | my-project/src/map-trail.js:73-95 | 0 points give no command, 1 a move, 2 a move and a line; n >= 3 give a move to `points[0]` and n-1 curves ending at `points[1..n-1]` |
| `Polyline.CatmullRomSmooth` | my-project/src/map-trail.js:85-88 | at an inner point, the outgoing and incoming control points sit on one tangent of length (p[i+2]-p[i])*tension/6 |
| `Polyline.CatmullRomEnds` | my-project/src/map-trail.js:81-82 | at the ends, the repeated end point makes the tangent (p[1]-p[0])*tension/6 |
| `Polyline.DegenerateSegment` | my-project/src/map-trail.js:102-103 | the squared length is positive exactly when `dx === 0 && dy === 0` fails |
| `Polyline.Peak` | my-project/src/map-trail.js:111-117 | the running maximum is the largest distance, and `idx` is the first point that reaches it, or -1 when all distances are 0 |
| `Polyline.Marks` | my-project/src/map-trail.js:118-122 | the recursion marks only points strictly between `first` and `last` |
| `Polyline.FarthestPoint` | my-project/src/map-trail.js:111-117 | the `d > maxd` loop computes `Peak` |
| `Polyline.Simplify` | my-project/src/map-trail.js:110-123 | `simplify` sets exactly the `Marks` of its range in `keep`, and nothing else |
| `Polyline.MarksTolerance` | my-project/src/map-trail.js:118-122 | a point between two consecutive kept points lies within eps of their segment |
| `Polyline.Collect` | my-project/src/map-trail.js:126-127 | the output is the subsequence of the points whose `keep` flag is set, in order |
| `Polyline.Rdp` | my-project/src/map-trail.js:98-129 | fewer than 3 points are copied; otherwise the output is, in order, exactly the points whose indices are `Kept` (both ends and every index the recursion marks), and every dropped point lies within eps of the segment between its kept neighbours |
| `Polyline.RdpKept` | my-project/src/map-trail.js:124-128 | the collected indices start at 0, end at the last point, are exactly the `Kept` set, and leave every dropped point within tolerance |
| `Trace.AllZeroNoPixel` | my-project/src/map-trail.js:576 | a mask is empty exactly when no pixel passes the `maskArr[y * w + x]` test |
| `Trace.Visit` | my-project/src/map-trail.js:576-582 | the test of one pixel updates `found` and the running bounds |
| `Trace.BoundsRow` | my-project/src/map-trail.js:575-583 | after row y, the running bounds are those of the foreground of rows 0..y |
| `Trace.ScanDone` | my-project/src/map-trail.js:585-586 | after the scan, `found` is false exactly on an empty mask, and otherwise the bounds are the bounding box |
| `Trace.MaskBounds` | my-project/src/map-trail.js:572-587 | `null` exactly when there is no foreground; otherwise the box contains every foreground pixel and each bound is attained by one |
| `Trace.BoundingBoxUnique` | my-project/src/map-trail.js:572-587 | a mask has only one bounding box |
| `Trace.Decimate` | my-project/src/map-trail.js:599-603 | the result is index 0 and every k-th element, in order, followed by the last element only when its y differs from that of the last one kept |
| `Trace.StridedUnique` | my-project/src/map-trail.js:602 | the stride loop's output is determined by its input |
| `Trace.DecimateEnds` | my-project/src/map-trail.js:632-635 | a decimated list begins with the first element and ends at the row of the last one |
| `Trace.ToPoints` | my-project/src/map-trail.js:602 | a pixel path as points keeps its length, entry by entry |
| `Trace.ToPointRows` | my-project/src/map-trail.js:603 | the `y !==` comparison gives the same answer on pixels and on points |

## Left out

- Floating point: coordinates are exact reals (`Point(x: real, y: real)`). Rounding, `NaN` and
  the float-to-string formatting of the `d` string are not modelled.
- `Polyline.CatmullRomToBezier` returns a list of `Move`/`Line`/`Curve` records, not the
  string they spell out.
- `Polyline.SqDistPtSeg` stands for `distPtSeg` as the squared distance. `Math.hypot` is
  compared with `eps` through squares, which preserves the order of nonnegative values. Its
  numeric value is not constrained beyond its definition.
- `Polyline.Rdp`: requires `eps >= 0`. With a negative `eps` the code marks index -1 and then
  reads `pts[-1]`, which throws; that error path is not modelled.
- Stack depth: the recursion of `simplify` can exhaust the JavaScript call stack on very
  long inputs. The model has no such limit.
- `Polyline.Simplify` and `Polyline.Rdp` keep the `keep` flags in an `array<bool>`. The
  points are a `seq`, since `rdp` never changes them.
- Typed arrays: `Uint8Array` and `Int32Array` become `array<int>`.
  - The masks entering a stage must be 0/1 (`IsMask`) where the stage's reasoning needs it.
    `autoTrace` only produces such masks.
  - Byte truncation of the stored values is not modelled, because only 0 and 1 are stored.
- `LongestPath.Bfs` receives `skel` as a `seq`, since the search never writes it.
  `LongestPath.Farthest` receives `dist` as a `seq` for the same reason.
- Sorting: `comps.sort` is modelled by its effect, the first of the longest lists
  (`Components.FirstLongest`). The stable sort itself is not written out.
- `Binarize.ToBinaryMask`: the threshold is an integer, while the code accepts any number.
  The only call passes 220. For integer thresholds, comparing r+g+b with 3*threshold is
  exactly the code's `(r + g + b) / 3 >= threshold`.
- Default parameter values (`threshold = 220`, `iterations = 1`, `tension = 1` and the like)
  are explicit parameters.
- `autoTrace` itself is only modelled in part:
  - image loading, the canvas and `getImageData` are I/O through browser APIs;
  - the composition of the stages and the `pathPixels.length > 6` guard are not modelled;
  - the row-scan fallback with its average `sx / cnt` is floating point;
  - the vertical shift, clamping and endpoint straightening of the smoothed points are
    floating point.
- The scroll and progress easing, the SVG coordinate conversions, the animation loop and
  the debug trace editor are browser UI.
- The carousels, accordions, tab switcher and the build script are UI event wiring and
  file I/O. They are not part of this model.
- Ghost state exists only in proofs and has no counterpart in the code. It includes the
  bounding-box witnesses of `Trace`, the seeds of the components listed by `Components`, and
  the kept indices of `rdp`.

## Notes

`chaikinSmooth` on exactly two points runs its rounds and returns 2n points per round;
only fewer than two points are copied. `Polyline.ChaikinSmooth` states this.
