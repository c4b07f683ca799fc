# Verified integer kernels of VTK filters

This project models, in Dafny, the integer and combinatorial bookkeeping inside a dozen VTK filters and readers, and proves what that bookkeeping promises. Floating-point geometry and the VTK data model around the kernels are abstracted: a data set becomes the points of each cell and the cells of each point, and a locator or a file stream becomes a parameter.

One module per source file:

- **ClipBookkeeping** (`clip_bookkeeping.dfy`, vtkTableBasedClipDataSet). Covers:
  - the chunked point, centroid and shape lists, with consecutive ids and growth that keeps every chunk;
  - the edge hash table: its 32-bit hash, the (min, max) edge order with the flipped percentage, and one new point per edge;
  - the compact renumbering of used points when the output grid is built.
- **SurfaceNets** (`surface_nets.dfy`, vtkSurfaceNets3D). Covers:
  - the triad bits, the 12-bit edge case and the 6-bit face case;
  - the quad count and the stencil table;
  - the edge classification and the label pair order;
  - the prefix sums of the edge metadata.
- **VoronoiWheels** (`voronoi_wheels.dfy`, vtkVoronoi2D). Covers:
  - batch ranges;
  - the wheel offsets, an exclusive scan;
  - cyclic spoke navigation and spoke validity;
  - the triangle culling and counting.
- **DgRanges** (`dg_ranges.dfy`, vtkDGOperation). Covers:
  - half-open cell-id ranges and the evaluator lookup;
  - the grouping of consecutive ids into runs;
  - side-spec selection and source registration.
- **Connectivity** (`connectivity.dfy`, vtkConnectivityFilter). Covers:
  - the wave traversal that labels regions;
  - the scalar criterion;
  - the seeded and closest-point modes;
  - region ordering and the extraction loops.
- **PolyConnectivity** (`polydata_connectivity.dfy`, vtkPolyDataConnectivityFilter). Covers:
  - the same traversal, where neighbours are queued only from newly reached points;
  - the list of visited point ids.
  - Its extraction loops (vtkPolyDataConnectivityFilter.cxx:352-437) select cells by the same rule as `Connectivity.ExtractCells`, and its IsScalarConnected is the criterion of module Connectivity with the full-range mode.
- **ExtractSelection** (`extract_selection.dfy`, vtkExtractSelection). Covers:
  - node trimming and field-type consistency;
  - insidedness inversion and the classification of an evaluated selection;
  - ghost masking and the inside cell ids.
- **EnSightReader** (`ensight_reader.dfy`, vtkNewEnSightGoldReader). Covers:
  - block options and grid options;
  - the file-type line and byte-order detection;
  - the comment-skipping line reader;
  - section headers and structured dimensions.
- **FeDistributor** (`fe_distributor.dfy`, vtkFiniteElementFieldDistributor). Covers:
  - string splitting and information-record parsing;
  - the IOSS node permutations;
  - the scattering of discontinuous HGRAD fields;
  - the search for the cell that uses a set of points.
- **HtgGhost** (`htg_ghost.dfy`, vtkHyperTreeGridGhostCellsGeneratorInternals). Covers:
  - the preorder is-parent encoding of a tree interface;
  - the ghost tree rebuilt from it, with a round trip proved between the two;
  - cell value counts and ghost flags.
- **StreamTracer** (`stream_tracer.dfy`, vtkStreamTracer). Covers:
  - the integrator and step-unit setters and the length conversion;
  - the seed lists for the integration directions;
  - the prefix sum and compositing that build the output polylines.
- **ExtractCellsAlongPolyLine** (`extract_cells_polyline.dfy`, vtkExtractCellsAlongPolyLine). Covers:
  - per-thread hit sets and their merge;
  - sorting and the rank renumbering of points;
  - the output offsets and the cell copy.
- **Common** (`common.dfy`): sums, exclusive prefix sums and the C++ fixed-width conversions used by several modules.

Code that updates state in place is modelled imperatively:
- classes with `modifies` clauses for the point lists, the connectivity filters, the hit collectors and the interface buffer;
- arrays for the in-place prefix sums;
- `while` loops with invariants.

Each method is proved against a specification function, and the properties are proved as lemmas about those functions.

## Model

| member | source | states |
|---|---|---|
| Common.ExclusiveScan | Filters/Core/vtkVoronoi2D.cxx:1080-1088 | the array of n counts plus one cap slot becomes the exclusive running sums of the counts, ending in their total, which is returned |
| Common.OffsetsRecoverCounts | Filters/Core/vtkVoronoi2D.cxx:1080-1088 | offsets start at 0, end at the total, and consecutive offsets differ by exactly the count they summed |
| Common.OffsetsMonotone | Filters/Core/vtkVoronoi2D.cxx:1080-1088 | with non-negative counts the offsets never decrease |
| ClipBookkeeping.FlattenFullLength | Filters/General/vtkTableBasedClipDataSet.cxx:261-267 | n full chunks hold exactly n * 1024 entries, the count GetTotalNumberOfPoints charges for them |
| ClipBookkeeping.FlattenChunkAt | Filters/General/vtkTableBasedClipDataSet.cxx:243-254 | when the chunks before j are full, chunk j is the slice of the flat entry list that starts at j * 1024 |
| ClipBookkeeping.ChunkedList.constructor | Filters/General/vtkTableBasedClipDataSet.cxx:210-224 | a new list has 4096 chunk slots, one empty chunk, currentList = currentPoint = 0 and no entries |
| ClipBookkeeping.ChunkedList.GetNumberOfLists | Filters/General/vtkTableBasedClipDataSet.cxx:256-259 | the number of allocated chunks, currentList + 1, which is at least 1 |
| ClipBookkeeping.ChunkedList.GetTotalNumberOfPoints | Filters/General/vtkTableBasedClipDataSet.cxx:261-267 | currentList full chunks plus currentPoint equals the number of entries added so far |
| ClipBookkeeping.ChunkedList.GetList | Filters/General/vtkTableBasedClipDataSet.cxx:243-254 | an id outside [0, currentList] gives count 0 and no chunk; earlier chunks report 1024 entries, the last one currentPoint; the chunk returned is exactly the matching run of the added entries |
| ClipBookkeeping.ChunkedList.AddPoint | Filters/General/vtkTableBasedClipDataSet.cxx:269-302 | appends the entry and returns its index (total - 1, so ids run 0, 1, 2, ...); a full last chunk opens a new one; when the slots run out listSize doubles; every earlier chunk is kept |
| ClipBookkeeping.GetKey | Filters/General/vtkTableBasedClipDataSet.cxx:368-379 | the bucket of an edge always lies in [0, nHashes), whatever the 32-bit overflow of the hash |
| ClipBookkeeping.GetKeyIsEuclidean | Filters/General/vtkTableBasedClipDataSet.cxx:368-379 | the C remainder plus the correction of a negative result equals the Euclidean remainder of the unsigned 32-bit hash read back as a signed int |
| ClipBookkeeping.Orient | Filters/General/vtkTableBasedClipDataSet.cxx:386-397 | the stored edge has its smaller end first, holds the same two ends, and the fraction is 1 - percent exactly when the ends were swapped |
| ClipBookkeeping.OrientSymmetric | Filters/General/vtkTableBasedClipDataSet.cxx:386-397 | an edge given in either order (with the complementary fraction) is stored as the same edge with the same fraction |
| ClipBookkeeping.Find | Filters/General/vtkTableBasedClipDataSet.cxx:404-418 | the chain walk finds a point id exactly when some entry matches the edge, and that id belongs to a matching entry |
| ClipBookkeeping.FindFirst | Filters/General/vtkTableBasedClipDataSet.cxx:404-418 | the walk returns the point of the first matching entry of the chain |
| ClipBookkeeping.TableInvInsert | Filters/General/vtkTableBasedClipDataSet.cxx:421-428 | putting an unseen edge at the head of its bucket and appending its point keeps the table invariant (each edge stored once, in its own bucket, naming its own point) |
| ClipBookkeeping.EdgeHashTable.constructor | Filters/General/vtkTableBasedClipDataSet.cxx:351-361 | nHashes buckets, all empty, sharing the given point list |
| ClipBookkeeping.EdgeHashTable.AddPoint | Filters/General/vtkTableBasedClipDataSet.cxx:381-429 | an edge already stored, in either order, returns its first id and adds no point; otherwise one point (smaller end first, flipped fraction) is appended and recorded at the head of the bucket; afterwards the edge's lookup gives the returned id |
| ClipBookkeeping.KindIndex | Filters/General/vtkTableBasedClipDataSet.cxx:645-658 | every shape kind has one slot in the assembly order tets, pyramids, wedges, hexes, quads, tris, lines, vertices |
| ClipBookkeeping.NewShapeLists | Filters/General/vtkTableBasedClipDataSet.cxx:645-658 | eight fresh, empty, pairwise distinct shape lists |
| ClipBookkeeping.VolumeFromVolume.ShapeContents | Filters/General/vtkTableBasedClipDataSet.cxx:645-658 | the shapes of each list in assembly order, every one with its kind's vertex count |
| ClipBookkeeping.VolumeFromVolume.constructor | Filters/General/vtkTableBasedClipDataSet.cxx:438-444 | keeps numPrevPts and starts with no edge points, no centroid points and empty shape lists |
| ClipBookkeeping.VolumeFromVolume.AddPoint | Filters/General/vtkTableBasedClipDataSet.cxx:195-198 | an edge already stored, in either order, leaves the point list unchanged and returns numPrevPts plus its stored id; an unseen edge appends exactly one oriented point entry (smaller end first, flipped fraction) and returns numPrevPts plus the old length of the point list; afterwards the edge lookup gives the returned id minus numPrevPts |
| ClipBookkeeping.VolumeFromVolume.AddCentroidPoint | Filters/General/vtkTableBasedClipDataSet.cxx:593-596 | records the first n ids and returns -1 - index, a negative id that clashes with no other kind of id |
| ClipBookkeeping.VolumeFromVolume.AddShape | Filters/General/vtkTableBasedClipDataSet.cxx:598-626 | appends the shape to the list of its own kind and leaves the other seven lists unchanged |
| ClipBookkeeping.VolumeFromVolume.ConstructDataSet | Filters/General/vtkTableBasedClipDataSet.cxx:1192-1518 | used input points get ids 0, 1, ... in order of first use and unused ones -1; there are numUsed + edge + centroid output points; one cell per shape with its type and source cell; offsets are running sums; the connectivity is the remapped vertex ids and lies in [0, nOutPts) when every stored id names an existing point |
| ClipBookkeeping.AssembleGrid | Filters/General/vtkTableBasedClipDataSet.cxx:1192-1518 | the same output as ConstructDataSet, computed from the contents of the shape lists and the point counts: first-use numbering of the used input points, one cell per shape with its type, source cell and running offset, and the remapped connectivity within [0, nOutPts) when the stored ids name existing points |
| ClipBookkeeping.TypesOf | Filters/General/vtkTableBasedClipDataSet.cxx:1478-1507 | one VTK cell type per output cell, list after list |
| ClipBookkeeping.ConnectivitySizeIsTotal | Filters/General/vtkTableBasedClipDataSet.cxx:1447-1454 | connectivitySize computed as shape size times shape count per list equals the number of vertex ids written and the sum of the cell sizes, so the last offset fills the array exactly |
| ClipBookkeeping.FirstUse | Filters/General/vtkTableBasedClipDataSet.cxx:1209-1241 | the used input points (ids in [0, numPrevPts)), each once, exactly those the shapes mention |
| ClipBookkeeping.FirstUseAppend | Filters/General/vtkTableBasedClipDataSet.cxx:1230-1236 | one more vertex id extends the first-use order only when it is an unseen input point |
| ClipBookkeeping.BuildPointLookup | Filters/General/vtkTableBasedClipDataSet.cxx:1209-1241 | ptLookup numbers the used input points by first use, is -1 exactly for unused points and stays in [-1, numUsed) |
| ClipBookkeeping.MarkUsed | Filters/General/vtkTableBasedClipDataSet.cxx:1224-1238 | the loop over one shape's vertices keeps the lookup numbering the points seen so far by first use |
| ClipBookkeeping.LookupInvStep | Filters/General/vtkTableBasedClipDataSet.cxx:1230-1236 | one vertex step (number the point if unseen) preserves that numbering |
| ClipBookkeeping.IdMap.RemapAll | Filters/General/vtkTableBasedClipDataSet.cxx:1487-1500 | each stored id is remapped on its own: negative ids to centroidStart - 1 - id, edge ids to numUsed + id - numPrevPts, input ids through ptLookup |
| ClipBookkeeping.RemapSeparates | Filters/General/vtkTableBasedClipDataSet.cxx:1268-1269 | input, edge and centroid points land in three disjoint output ranges below nOutPts, so distinct stored ids get distinct output ids |
| ClipBookkeeping.LookupInjective | Filters/General/vtkTableBasedClipDataSet.cxx:1230-1236 | two different used input points never share an output id |
| ClipBookkeeping.RemapInRange | Filters/General/vtkTableBasedClipDataSet.cxx:1487-1500 | when every stored id names an existing point, every remapped id lies in [0, nOutPts) |
| ClipBookkeeping.WriteCell | Filters/General/vtkTableBasedClipDataSet.cxx:1503-1506 | writes the remapped vertices of one shape at its offset and leaves earlier entries alone |
| ClipBookkeeping.BuildCells | Filters/General/vtkTableBasedClipDataSet.cxx:1468-1515 | cell types, source cells, offsets (running sums, the last one the connectivity size) and the remapped connectivity of all shapes, list after list |
| ClipBookkeeping.CountCells | Filters/General/vtkTableBasedClipDataSet.cxx:1447-1454 | ncells is the number of shapes and connectivitySize the number of their vertex ids |
| ClipBookkeeping.WriteGroup | Filters/General/vtkTableBasedClipDataSet.cxx:1478-1510 | the loop over one shape list extends the written cells by exactly that list's shapes |
| ClipBookkeeping.WriteShape | Filters/General/vtkTableBasedClipDataSet.cxx:1482-1510 | one shape adds one cell: its type, source cell, offset and remapped vertices |
| SurfaceNets.EdgeTriad | Filters/Core/vtkSurfaceNets3D.cxx:189-222 | each of the twelve voxel edges is read from one of the seven triads around the voxel |
| SurfaceNets.GetEdgeCase | Filters/Core/vtkSurfaceNets3D.cxx:189-222 | the edge case is below 4096, bit e is set exactly when the triad owning edge e carries the intersection bit of the edge's axis, and it is 0 when no triad carries an intersection bit |
| SurfaceNets.EdgeCaseBits | Filters/Core/vtkSurfaceNets3D.cxx:207-221 | the twelve shift-and-or lines put each triad's axis bit at the position of its voxel edge and nothing above bit 11 |
| SurfaceNets.GetFaceCase | Filters/Core/vtkSurfaceNets3D.cxx:228-284 | the face case is below 64 and face bit f is set exactly when some set edge lies on face f |
| SurfaceNets.FaceMaskIsGeometry | Filters/Core/vtkSurfaceNets3D.cxx:236-283 | each constant or-ed in for an edge (20, 24, 36, ...) sets exactly the bits of the two faces that edge lies on |
| SurfaceNets.FaceCaseLoopFaces | Filters/Core/vtkSurfaceNets3D.cxx:236-283 | after the first n edge tests the face case holds exactly the faces of the set edges among them |
| SurfaceNets.FaceCaseFaces | Filters/Core/vtkSurfaceNets3D.cxx:228-284 | after all twelve tests, a face bit is set iff a set edge lies on that face |
| SurfaceNets.EdgeOnTwoFaces | Filters/Core/vtkSurfaceNets3D.cxx:224-227 | every voxel edge lies on exactly two faces, so a set edge bit sets exactly two face bits |
| SurfaceNets.GenerateXYQuad | Filters/Core/vtkSurfaceNets3D.cxx:290-293 | a triad makes the x-y quad of its voxel corner iff its z-intersection bit (bit 3) is set |
| SurfaceNets.GenerateXZQuad | Filters/Core/vtkSurfaceNets3D.cxx:294-297 | a triad makes the x-z quad iff its y-intersection bit (bit 2) is set |
| SurfaceNets.GenerateYZQuad | Filters/Core/vtkSurfaceNets3D.cxx:298-301 | a triad makes the y-z quad iff its x-intersection bit (bit 1) is set |
| SurfaceNets.ProducesQuad | Filters/Core/vtkSurfaceNets3D.cxx:302-305 | the mask 14 tests exactly the three intersection bits: a triad produces a quad iff it generates the x-y, x-z or y-z quad |
| SurfaceNets.ProducesPoint | Filters/Core/vtkSurfaceNets3D.cxx:333-336 | a triad needs an output point iff its ProducePoint bit (bit 4) is set |
| SurfaceNets.GetNumberOfQuads | Filters/Core/vtkSurfaceNets3D.cxx:290-312 | the count of set bits among 2, 4 and 8 of the triad, between 0 and 3, and positive exactly when ProducesQuad (triad & 14 non-zero) |
| SurfaceNets.StencilCasesGenerated | Filters/Core/vtkSurfaceNets3D.cxx:797-893 | every row of the 64-row stencil table is what the generator writes: the popcount of the case first, then bit i-1 of the case in entry i; the count is at most 6 |
| SurfaceNets.StencilCasesLow | Filters/Core/vtkSurfaceNets3D.cxx:798-829 | the same for the rows of cases 0 to 31 |
| SurfaceNets.StencilCasesHigh | Filters/Core/vtkSurfaceNets3D.cxx:830-861 | the same for the rows of cases 32 to 63 |
| SurfaceNets.GetNumberOfStencilEdges | Filters/Core/vtkSurfaceNets3D.cxx:325-326 | entry 0 of the table row is the number of set face bits of the case |
| SurfaceNets.ClassifyEdge | Filters/Core/vtkSurfaceNets3D.cxx:396-442 | the result is 0 or the axis bit, and it is the axis bit exactly when one end is inside and the other outside, or both are inside with different labels |
| SurfaceNets.ClassifyYEdge | Filters/Core/vtkSurfaceNets3D.cxx:396-417 | 0 when both ends are outside, the y bit when exactly one end is inside, and with both inside the y bit iff the labels differ |
| SurfaceNets.ClassifyZEdge | Filters/Core/vtkSurfaceNets3D.cxx:421-442 | the same three cases for the z bit |
| SurfaceNets.XClass | Filters/Core/vtkSurfaceNets3D.cxx:927-954 | the class of triad i uses only the inside bit and the x bit |
| SurfaceNets.ClassifyXEdges | Filters/Core/vtkSurfaceNets3D.cxx:909-968 | triads with a non-outside class are written and the others kept; xL is the first such triad (numTriads if none) and xR one past the last (0 if none), with every triad outside [xL, xR) outside |
| SurfaceNets.WriteScalarTuple | Filters/Core/vtkSurfaceNets3D.cxx:719-732 | the pair holds the same two labels; the background label goes last; with two inside labels the smaller comes first |
| SurfaceNets.ConfigureOutput | Filters/Core/vtkSurfaceNets3D.cxx:1117-1140 | the point, quad and stencil-edge counts of every row are replaced by their exclusive prefix sums over slices then rows, the trim entries are untouched, and the three totals are the sums of the counts |
| SurfaceNets.ConfigureSlices | Filters/Core/vtkSurfaceNets3D.cxx:1117-1140 | the loop over slices converts the whole metadata, each total being the last offset |
| SurfaceNets.ConfigureSlice | Filters/Core/vtkSurfaceNets3D.cxx:1119-1139 | the loop over one slice's rows extends the converted prefix by that slice |
| SurfaceNets.PrefixDoneStep | Filters/Core/vtkSurfaceNets3D.cxx:1123-1137 | one row step writes the running totals and adds the row's counts to them |
| SurfaceNets.PrefixDoneIsOffsets | Filters/Core/vtkSurfaceNets3D.cxx:1117-1140 | once every row is converted, each column is its exclusive prefix sum and the final totals are the sums |
| VoronoiWheels.CeilDiv | Filters/Core/vtkVoronoi2D.cxx:509-512 | the batch count is the least r with num <= r * batchSize, i.e. the ceiling of num / batchSize |
| VoronoiWheels.BatchManager.constructor | Filters/Core/vtkVoronoi2D.cxx:509-513 | stores num and batchSize, numBatches is the ceiling of num / batchSize, and both sub-range ends are -1 (no sub-range) |
| VoronoiWheels.BatchManager.SetSubRange | Filters/Core/vtkVoronoi2D.cxx:514-518 | sets the two sub-range ends and leaves num, batchSize and numBatches unchanged |
| VoronoiWheels.BatchManager.GetNumberOfBatches | Filters/Core/vtkVoronoi2D.cxx:519-522 | one batch when a sub-range is set, numBatches otherwise |
| VoronoiWheels.BatchManager.GetBatchItemRange | Filters/Core/vtkVoronoi2D.cxx:523-537 | the range is batch b's slice [b * batchSize, b * batchSize + batchSize) or the sub-range, its end clamped to num, and the returned count is end - start |
| VoronoiWheels.BatchesPartitionItems | Filters/Core/vtkVoronoi2D.cxx:509-537 | without a sub-range every point id lies in exactly one batch, batch id / batchSize, and that batch number is below GetNumberOfBatches |
| VoronoiWheels.BatchOfItem | Filters/Core/vtkVoronoi2D.cxx:523-537 | the batch slices [b * bs, min(b * bs + bs, num)) for b < ceil(num / bs) cover [0, num) without overlap |
| VoronoiWheels.PointOfInterestBatch | Filters/Core/vtkVoronoi2D.cxx:1697-1701 | with the point-of-interest sub-range [p, p + 1) there is one batch and it holds exactly point p |
| VoronoiWheels.WheelGraph.WheelAt | Filters/Core/vtkVoronoi2D.cxx:1196-1214 | wheel id's spokes are the slice of the spoke array between offsets id and id + 1, and every spoke names an existing wheel |
| VoronoiWheels.OffsetsFormWheels | Filters/Core/vtkVoronoi2D.cxx:1078-1088 | after the prefix sum over per-point spoke counts, the offsets form a well-formed wheel graph in which wheel id has exactly counts[id] spokes |
| VoronoiWheels.Previous | Filters/Core/vtkVoronoi2D.cxx:1217-1222 | the clockwise neighbour is (spokeNum - 1) mod NumSpokes and stays in range |
| VoronoiWheels.Next | Filters/Core/vtkVoronoi2D.cxx:1223-1228 | the counterclockwise neighbour is (spokeNum + 1) mod NumSpokes and stays in range |
| VoronoiWheels.NextPreviousInverse | Filters/Core/vtkVoronoi2D.cxx:1217-1228 | Next and Previous undo each other on every spoke of a wheel |
| VoronoiWheels.NextIterateIsModular | Filters/Core/vtkVoronoi2D.cxx:1223-1228 | k steps of Next land on spoke (i + k) mod NumSpokes, so NumSpokes steps come back to the start (the spoke loop of CountTriangles visits every spoke once) |
| VoronoiWheels.FindSpoke | Filters/Core/vtkVoronoi2D.cxx:1241-1250 | the search stops at the first spoke whose id is wInId, or at NumSpokes when there is none |
| VoronoiWheels.FindSpokeIsFirst | Filters/Core/vtkVoronoi2D.cxx:1241-1250 | any index before which no spoke matches and at which the spoke matches (or the end) is the search result |
| VoronoiWheels.PreviousValidEdge | Filters/Core/vtkVoronoi2D.cxx:1231-1262 | -1 when the incoming spoke is missing; otherwise a non-negative answer is the id of the VALID spoke just clockwise of the incoming spoke |
| VoronoiWheels.PreviousValidEdgeAsWritten | Filters/Core/vtkVoronoi2D.cxx:1239-1262 | the code as written agrees with the corrected edge search whenever the incoming spoke is present |
| VoronoiWheels.PreviousValidEdgeAsWrittenMissesAbsence | Filters/Core/vtkVoronoi2D.cxx:1251-1254 | when the incoming spoke is absent the guard i > NumSpokes does not fire and the code reads spoke NumSpokes - 1 instead of returning -1 |
| VoronoiWheels.PreviousValidEdgeCounterexample | Filters/Core/vtkVoronoi2D.cxx:1251-1254 | the wheel with one VALID spoke to 5, asked about wheel 7, answers 5 as written and -1 when corrected |
| VoronoiWheels.GetPreviousValidEdge | Filters/Core/vtkVoronoi2D.cxx:1239-1262 | the loop-based search returns exactly PreviousValidEdge |
| VoronoiWheels.TraceLoopCloses | Filters/Core/vtkVoronoi2D.cxx:1320-1344 | the loop walk either gives up with 0, or returns |loop| - 2 >= 1 triangles for a closed loop of valid edges whose ids all exceed the starting wheel |
| VoronoiWheels.PreviousValidEdgeInGraph | Filters/Core/vtkVoronoi2D.cxx:1329-1330 | in a well-formed graph the edge search returns -1 or an existing wheel id |
| VoronoiWheels.OpenLoopExtend | Filters/Core/vtkVoronoi2D.cxx:1331-1341 | appending the next valid edge's wheel keeps the partial loop a chain of valid edges, and it is a closed loop once that wheel is the loop end |
| VoronoiWheels.FormsTrianglesCount | Filters/Core/vtkVoronoi2D.cxx:1298-1347 | no triangles when a spoke id is below the wheel id or either spoke is not VALID; the count is never negative; a count of 2 or more comes with a closed loop starting (wheel, current spoke) and ending at the next spoke, holding count + 2 ids |
| VoronoiWheels.TraceLoopPrefix | Filters/Core/vtkVoronoi2D.cxx:1325-1341 | the walk only appends to the loop it starts with |
| VoronoiWheels.WheelTrianglesNonNegative | Filters/Core/vtkVoronoi2D.cxx:1505-1517 | the triangle count summed over a wheel's spokes is never negative |
| VoronoiWheels.VoronoiTiles.constructor | Filters/Core/vtkVoronoi2D.cxx:870-892 | a fresh wheels array of NPts + 1 zeros and no spokes |
| VoronoiWheels.VoronoiTiles.Reduce | Filters/Core/vtkVoronoi2D.cxx:1078-1088 | wheels becomes the exclusive prefix sum of the per-point spoke counts, capped by their total, and the total is returned |
| VoronoiWheels.VoronoiTiles.IsValidSpoke | Filters/Core/vtkVoronoi2D.cxx:1172-1186 | true exactly when wheel w0Id has a VALID spoke to w1Id |
| VoronoiWheels.VoronoiTiles.FormsTriangles | Filters/Core/vtkVoronoi2D.cxx:1298-1347 | on the corrected edge search (GetPreviousValidEdge, see Findings), the count and loop are those of the loop-walk specification, whose properties FormsTrianglesCount states |
| VoronoiWheels.WalkLoop | Filters/Core/vtkVoronoi2D.cxx:1320-1344 | on the corrected edge search (GetPreviousValidEdge, see Findings), the while loop computes exactly the recursive loop walk TraceLoop |
| VoronoiWheels.CountTriangles.constructor | Filters/Core/vtkVoronoi2D.cxx:1483-1484 | stores the tiles and the count array with zero triangles |
| VoronoiWheels.CountTriangles.Count | Filters/Core/vtkVoronoi2D.cxx:1490-1519 | each wheel in the range with two or more spokes gets its triangle count summed over all spokes, wheels with at most one spoke and every other entry keep their value |
| VoronoiWheels.CountTriangles.CountWheel | Filters/Core/vtkVoronoi2D.cxx:1509-1517 | the spoke loop's total equals the wheel's triangle count and is non-negative |
| VoronoiWheels.CountTriangles.Reduce | Filters/Core/vtkVoronoi2D.cxx:1522-1537 | the per-wheel counts become their exclusive prefix sum, capped by the total, which is also NumTriangles |
| DgRanges.ContainsIsHalfOpen | Filters/CellGrid/vtkDGOperation.cxx:61-64 | a range key holds exactly the cell ids in [Begin, End): it holds Begin iff the range is non-empty and never holds End |
| DgRanges.ContainedByAsWrittenNeverHolds | Filters/CellGrid/vtkDGOperation.cxx:66-69 | as written, ContainedBy is false for every well-formed other range (Begin <= End) |
| DgRanges.ContainedByCounterexample | Filters/CellGrid/vtkDGOperation.cxx:66-69 | [2, 3) lies inside [0, 10), yet the code as written says it is not contained; the corrected test says it is |
| DgRanges.ContainedByIsInclusion | Filters/CellGrid/vtkDGOperation.cxx:66-69 | for a non-empty key the corrected ContainedBy holds exactly when every cell id the key holds is held by the other range |
| DgRanges.LowerBound | Filters/CellGrid/vtkDGOperation.cxx:20 | the map's lower_bound by Begin: every entry before it begins below the cell id and the entry at it (if any) begins at or after it |
| DgRanges.LowerBoundSorted | Filters/CellGrid/vtkDGOperation.cxx:20 | in a map ordered by Begin every entry from the lower bound on begins at or after the cell id |
| DgRanges.FindEvaluator | Filters/CellGrid/vtkDGOperation.cxx:17-58 | the search returns end or an entry whose range contains the cell id |
| DgRanges.FindEvaluatorComplete | Filters/CellGrid/vtkDGOperation.cxx:17-58 | in an ordered map of non-overlapping ranges the search finds the entry that contains the cell id whenever one does |
| DgRanges.FindEvaluatorEnd | Filters/CellGrid/vtkDGOperation.cxx:17-58 | in an ordered non-overlapping map the search returns end exactly when no range contains the cell id |
| DgRanges.FindKey | Filters/CellGrid/vtkDGOperation.cxx:632 | map find by Begin: a found entry begins at the requested offset |
| DgRanges.FindKeyComplete | Filters/CellGrid/vtkDGOperation.cxx:632 | in an ordered map find returns the entry with that Begin whenever there is one |
| DgRanges.AssignProperties | Filters/CellGrid/vtkDGOperation.cxx:872-875 | map assignment keeps the map ordered, makes the key's Begin map to the new evaluator (keeping the old key when Begin was already present), and leaves every entry with another Begin in place and adds no other |
| DgRanges.ReplaceKeepsOthers | Filters/CellGrid/vtkDGOperation.cxx:875 | overwriting an existing key's evaluator keeps the map ordered and touches no other entry |
| DgRanges.InsertKeepsOthers | Filters/CellGrid/vtkDGOperation.cxx:875 | inserting a new key at its ordered position keeps the map ordered, keeps every old entry and adds only the new one |
| DgRanges.SourceKey | Filters/CellGrid/vtkDGOperation.cxx:872-874 | a source's key begins at its offset and holds exactly its numCells cell ids |
| DgRanges.DGOperation.constructor | Filters/CellGrid/vtkDGOperation.cxx:539-568 | a new operation has no evaluators |
| DgRanges.DGOperation.AddSource | Filters/CellGrid/vtkDGOperation.cxx:639-876 | a blanked source leaves the evaluators unchanged; an unblanked source of an HCURL or HDIV attribute that includes the shape, when the shape has no BasisGradient operator, fails (the logic_error at line 680) with the evaluators unchanged; otherwise the source's range key is assigned its evaluator |
| DgRanges.DGOperation.AddSources | Filters/CellGrid/vtkDGOperation.cxx:560-566 | the cell spec and then every side spec are added in order and the map stays ordered; when the shape gradient is missing, the first unblanked specification throws, nothing is registered, and the call fails unless every specification is blanked |
| DgRanges.DGOperation.GetEvaluatorForSideSpec | Filters/CellGrid/vtkDGOperation.cxx:619-637 | no evaluator for a missing cell, a side spec id outside [-1, number of side specs) or a blanked spec; a returned evaluator is the one stored under the spec's offset |
| DgRanges.DGOperation.Evaluate | Filters/CellGrid/vtkDGOperation.cxx:570-617 | mismatched cellIds/rst sizes give false and no evaluator calls; otherwise the calls cover consecutive maximal runs of ids in one range in order, every skipped id lies in no range, and the result is true exactly when every id was evaluated |
| DgRanges.DGOperation.ExtendRun | Filters/CellGrid/vtkDGOperation.cxx:601-610 | the run grows from ii while ids stay in the range and stops at the first id outside it or at the end |
| DgRanges.AddSourceThenGet | Filters/CellGrid/vtkDGOperation.cxx:619-637 | after a non-blanked spec's source is added, looking up that side spec returns its evaluator |
| DgRanges.RunsExtended | Filters/CellGrid/vtkDGOperation.cxx:587-616 | appending a valid run keeps the runs ordered and the skipped ids invalid, and preserves whether every id so far is covered |
| Connectivity.SetupCriterion | Filters/Core/vtkConnectivityFilter.cxx:162-175 | scalars take part exactly when scalar connectivity is on and the input has point scalars; a reversed range is collapsed onto its lower end, so lo <= hi afterwards |
| Connectivity.Gather | Filters/Core/vtkConnectivityFilter.cxx:574-577 | the gathered tuple holds the value at each point of the cell, in the cell's point order (the cell's scalars here, its output point ids when the output cells are written) |
| Connectivity.RangeOfBounds | Filters/Core/vtkConnectivityFilter.cxx:580-592 | the (min, max) scan starting from (VTK_DOUBLE_MAX, -VTK_DOUBLE_MAX) bounds every value and each end is either its start value or one of the values |
| Connectivity.RangeAcceptedMeaning | Filters/Core/vtkPolyDataConnectivityFilter.cxx:526-575 | for a non-empty cell whose scalars lie in the double range, the overlap test holds iff some scalar reaches lo and some scalar is at most hi (and the full test iff every scalar is in [lo, hi]) |
| Connectivity.CellScalarRange | Filters/Core/vtkConnectivityFilter.cxx:580-592 | the scan loop returns the (min, max) range of the gathered scalars |
| Connectivity.IsConnected | Filters/Core/vtkConnectivityFilter.cxx:568-601 | the neighbour test returns exactly whether the criterion accepts the cell |
| Connectivity.AcceptedOf | Filters/Core/vtkConnectivityFilter.cxx:565-601 | the cells pushed onto the next wave from one point are exactly the point's cells the criterion accepts |
| Connectivity.PointMapExtend | Filters/Core/vtkConnectivityFilter.cxx:557-561 | giving an unmapped point the next output id keeps the point map a bijection onto the output order |
| Connectivity.PointMapRoom | Filters/Core/vtkConnectivityFilter.cxx:557-561 | while some point is unmapped the output order is shorter than the point count, so the next id stays below numPts |
| Connectivity.PointMapInjective | Filters/Core/vtkConnectivityFilter.cxx:557-561 | distinct output ids come from distinct input points |
| Connectivity.ClosedRegions | Filters/Core/vtkConnectivityFilter.cxx:534-612 | after labelling, every accepted cell sharing a point with a visited cell is visited too |
| Connectivity.ClosedAfterReach | Filters/Core/vtkConnectivityFilter.cxx:555-601 | mapping a point and queueing its accepted cells keeps every accepted cell next to a mapped point visited or queued |
| Connectivity.SizesAfterRegion | Filters/Core/vtkConnectivityFilter.cxx:246-262 | after a traversal from an unvisited seed, appending its cell count keeps RegionSizes one positive count per region, summing to the visited cells |
| Connectivity.SeededFacts | Filters/Core/vtkConnectivityFilter.cxx:266-339 | after a seeded traversal every cell is unvisited or in region 0 and the region's count is the number of visited cells |
| Connectivity.SeparatedAfterRegion | Filters/Core/vtkConnectivityFilter.cxx:246-262 | finishing region r keeps regions separated: an accepted cell next to a visited cell is visited with a region id no larger |
| Connectivity.SameRegion | Filters/Core/vtkConnectivityFilter.cxx:534-612 | two accepted, visited cells sharing a point carry the same region id |
| Connectivity.RegionLabelsInUse | Filters/Core/vtkConnectivityFilter.cxx:261 | every region id below the number of regions labels at least one cell, and every label is below that number |
| Connectivity.PointSeededWave | Filters/Core/vtkConnectivityFilter.cxx:271-289 | the first wave holds exactly the cells using some non-negative seed point |
| Connectivity.CellSeededWave | Filters/Core/vtkConnectivityFilter.cxx:290-304 | the first wave holds exactly the non-negative seed cell ids |
| Connectivity.PointSeeds | Filters/Core/vtkConnectivityFilter.cxx:271-289 | the seed loop builds the point-seeded wave |
| Connectivity.CellSeeds | Filters/Core/vtkConnectivityFilter.cxx:290-304 | the seed loop builds the cell-seeded wave |
| Connectivity.ClosestPointId | Filters/Core/vtkConnectivityFilter.cxx:305-321 | the first point of smallest squared distance below VTK_DOUBLE_MAX, or point 0 when there is none |
| Connectivity.MultimapInsert | Filters/Core/vtkConnectivityFilter.cxx:627-631 | inserting a region whose id exceeds every stored one keeps the multimap ordered by (count, id) and adds exactly that entry |
| Connectivity.RegionsByCount | Filters/Core/vtkConnectivityFilter.cxx:624-631 | the multimap holds one (size, id) entry per region, ordered by count and then by region id |
| Connectivity.Remap | Filters/Core/vtkConnectivityFilter.cxx:666-678 | std::map operator[]: the mapped id when present, 0 when absent |
| Connectivity.RankRegions | Filters/Core/vtkConnectivityFilter.cxx:633-662 | the new sizes are the old sizes sorted ascending (or descending), the id map is a bijection on the region ids sending each region to a position holding its size, and equal-sized regions keep their relative order (reversed when descending) |
| Connectivity.RankFacts | Filters/Core/vtkConnectivityFilter.cxx:633-662 | walking the multimap forwards or backwards with a counter yields exactly the ranking RankRegions promises |
| Connectivity.RemapIds | Filters/Core/vtkConnectivityFilter.cxx:666-678 | every region id in the array is replaced by its image under the id map |
| Connectivity.InRegionList | Filters/Core/vtkConnectivityFilter.cxx:422-429 | the flag is set exactly when the region id is one of the specified ids |
| Connectivity.MappedCellStandsFor | Filters/Core/vtkConnectivityFilter.cxx:391-397 | the renumbered points of a visited cell name, through the output order, the cell's original points |
| Connectivity.ExtractCells | Filters/Core/vtkConnectivityFilter.cxx:374-500 | the output cells are, in increasing order, exactly the cells the extraction mode selects (visited, in a specified region, or in the largest region), each with its renumbered points that stand for the original ones |
| Connectivity.AcceptedCells | Filters/Core/vtkConnectivityFilter.cxx:563-601 | the cells of a list the scalar or geometric criterion accepts, in list order, each accepted one kept and no other |
| Connectivity.ConnectivityFilter.EnqueueNeighbors | Filters/Core/vtkConnectivityFilter.cxx:563-601 | the next wave grows by exactly the accepted cells using point p |
| Connectivity.ConnectivityFilter.MarkCell | Filters/Core/vtkConnectivityFilter.cxx:547-603 | an unvisited cell is labelled with the current region, the cell count grows by one, already mapped points keep their ids, new points get the region as scalar, and the traversal stays closed |
| Connectivity.ConnectivityFilter.MarkStep | Filters/Core/vtkConnectivityFilter.cxx:547-603 | marking a cell visits it, keeps visited cells visited and the traversal closed |
| Connectivity.ConnectivityFilter.Consider | Filters/Core/vtkConnectivityFilter.cxx:545-604 | after a wave entry is considered it is visited, nothing visited is lost and the traversal stays closed |
| Connectivity.ConnectivityFilter.TraverseAndMark | Filters/Core/vtkConnectivityFilter.cxx:534-612 | the waves end empty, every cell of the first wave is visited, and every accepted cell next to a mapped point is visited |
| Connectivity.ConnectivityFilter.ProcessWave | Filters/Core/vtkConnectivityFilter.cxx:543-610 | one pass over a wave visits all its cells and either lowers the number of unvisited cells or leaves no next wave, so the traversal terminates |
| Connectivity.ConnectivityFilter.Visit | Filters/Core/vtkConnectivityFilter.cxx:545-546 | the i-th wave entry is considered and the visited prefix grows by one |
| Connectivity.ConnectivityFilter.Label | Filters/Core/vtkConnectivityFilter.cxx:549-551 | the cell gets the region id as visit mark and cell scalar and the count grows by one |
| Connectivity.ConnectivityFilter.ReachPoint | Filters/Core/vtkConnectivityFilter.cxx:557-561 | the point is mapped afterwards, already mapped points keep their ids, and a newly mapped point gets the region id as scalar |
| Connectivity.ConnectivityFilter.constructor | Filters/Core/vtkConnectivityFilter.cxx:178-192 | all cells unvisited and all points unmapped, no regions, empty waves |
| Connectivity.ConnectivityFilter.FreshLabelled | Filters/Core/vtkConnectivityFilter.cxx:178-227 | the initial state satisfies the between-regions invariant |
| Connectivity.ConnectivityFilter.LabelRegion | Filters/Core/vtkConnectivityFilter.cxx:249-264 | labelling from an unvisited cell visits it, appends the region's cell count and leaves earlier labels unchanged |
| Connectivity.ConnectivityFilter.LabelAllRegions | Filters/Core/vtkConnectivityFilter.cxx:229-265 | every cell ends in some region, the region sizes sum to the number of cells, and the largest region id names the first region of maximal size |
| Connectivity.ConnectivityFilter.LabelSeeded | Filters/Core/vtkConnectivityFilter.cxx:266-339 | every seeded cell is visited, every cell is in region 0 or unvisited, and the single region size is the number of visited cells |
| Connectivity.ConnectivityFilter.StartSeeded | Filters/Core/vtkConnectivityFilter.cxx:266-269 | the seeded traversal starts from the seed wave with nothing visited |
| Connectivity.ConnectivityFilter.NumberOfExtractedRegions | Filters/Core/vtkConnectivityFilter.cxx:687-690 | the number of entries in RegionSizes |
| Connectivity.ConnectivityFilter.ExtractedRegionsAreLabels | Filters/Core/vtkConnectivityFilter.cxx:687-690 | while the region sizes match the visit marks, every region number below the extracted-region count labels some cell and every cell label is below it, so the count is the number of regions found |
| Connectivity.ConnectivityFilter.OrderRegionIds | Filters/Core/vtkConnectivityFilter.cxx:615-683 | without coloring or with UNSPECIFIED nothing changes; otherwise the sizes are ranked and every point and cell region id is remapped by the ranking's id map |
| PolyConnectivity.InsertUnique | Filters/Core/vtkPolyDataConnectivityFilter.cxx:369-372 | InsertUniqueId appends the id unless it is already present, so the list stays duplicate-free and holds the old ids plus the new one |
| PolyConnectivity.CollectVisitedPoints | Filters/Core/vtkPolyDataConnectivityFilter.cxx:356-374 | with MarkVisitedPointIds the list holds, each once, exactly the input points of the output cells |
| PolyConnectivity.PolyConnectivityFilter.EnqueueNeighbors | Filters/Core/vtkPolyDataConnectivityFilter.cxx:496-513 | the next wave grows by exactly the cells using point p that the scalar test (overlap or full) accepts |
| PolyConnectivity.PolyConnectivityFilter.MarkCell | Filters/Core/vtkPolyDataConnectivityFilter.cxx:480-516 | an unvisited cell is labelled with the current region and counted, mapped points keep their ids, new points get the region as scalar, and the traversal stays closed |
| PolyConnectivity.PolyConnectivityFilter.MarkStep | Filters/Core/vtkPolyDataConnectivityFilter.cxx:480-516 | marking a cell visits it, keeps visited cells visited and the traversal closed |
| PolyConnectivity.PolyConnectivityFilter.Consider | Filters/Core/vtkPolyDataConnectivityFilter.cxx:478-516 | after a wave entry is considered it is visited, nothing visited is lost and the traversal stays closed |
| PolyConnectivity.PolyConnectivityFilter.TraverseAndMark | Filters/Core/vtkPolyDataConnectivityFilter.cxx:465-523 | the waves end empty, every cell of the first wave is visited, and every accepted cell next to a mapped point is visited |
| PolyConnectivity.PolyConnectivityFilter.ProcessWave | Filters/Core/vtkPolyDataConnectivityFilter.cxx:475-522 | one pass over a wave visits all its cells and either lowers the number of unvisited cells or leaves no next wave |
| PolyConnectivity.PolyConnectivityFilter.Visit | Filters/Core/vtkPolyDataConnectivityFilter.cxx:477-479 | the i-th wave entry is considered and the visited prefix grows by one |
| PolyConnectivity.PolyConnectivityFilter.Label | Filters/Core/vtkPolyDataConnectivityFilter.cxx:482-483 | the cell gets the region id and the count grows by one |
| PolyConnectivity.PolyConnectivityFilter.ReachPoint | Filters/Core/vtkPolyDataConnectivityFilter.cxx:486-514 | the point is mapped afterwards; an already mapped point changes nothing; a newly mapped point gets the region as scalar and only then are its accepted cells queued |
| PolyConnectivity.PolyConnectivityFilter.constructor | Filters/Core/vtkPolyDataConnectivityFilter.cxx:146-156 | all cells unvisited and all points unmapped, no regions, empty waves |
| PolyConnectivity.PolyConnectivityFilter.FreshLabelled | Filters/Core/vtkPolyDataConnectivityFilter.cxx:146-186 | the initial state satisfies the between-regions invariant |
| PolyConnectivity.PolyConnectivityFilter.LabelRegion | Filters/Core/vtkPolyDataConnectivityFilter.cxx:206-221 | labelling from an unvisited cell visits it, appends the region's cell count and leaves earlier labels unchanged |
| PolyConnectivity.PolyConnectivityFilter.LabelAllRegions | Filters/Core/vtkPolyDataConnectivityFilter.cxx:191-222 | every cell ends in some region, the region sizes sum to the number of cells, and the largest region id names the first region of maximal size |
| PolyConnectivity.PolyConnectivityFilter.LabelSeeded | Filters/Core/vtkPolyDataConnectivityFilter.cxx:224-291 | every seeded cell is visited, every cell is in region 0 or unvisited, and the single region size is the number of visited cells |
| PolyConnectivity.PolyConnectivityFilter.StartSeeded | Filters/Core/vtkPolyDataConnectivityFilter.cxx:224-227 | the seeded traversal starts from the seed wave with nothing visited |
| PolyConnectivity.PolyConnectivityFilter.NumberOfExtractedRegions | Filters/Core/vtkPolyDataConnectivityFilter.cxx:578-581 | the number of entries in RegionSizes |
| PolyConnectivity.PolyConnectivityFilter.ExtractedRegionsAreLabels | Filters/Core/vtkPolyDataConnectivityFilter.cxx:578-581 | while the region sizes match the visit marks, every region number below the extracted-region count labels some cell and every cell label is below it, so the count is the number of regions found |
| ExtractSelection.EffectiveField | Filters/Extraction/vtkExtractSelection.cxx:140-148 | a POINT node with CONTAINING_CELLS set selects cells; every other node keeps its own field type |
| ExtractSelection.AttributeTypeOfSelection | Filters/Extraction/vtkExtractSelection.cxx:131-162 | sane exactly when all nodes have the same effective field type; then the attribute type is that of the first node, and NUMBER_OF_ATTRIBUTE_TYPES when there are no nodes or the selection is not sane |
| ExtractSelection.TrimmedMembers | Filters/Extraction/vtkExtractSelection.cxx:180-199 | the trimmed selection keeps exactly the nodes that are not foreign: no PROCESS_ID, or processId is -1, or the ids agree |
| ExtractSelection.TrimmedKeepsLocal | Filters/Extraction/vtkExtractSelection.cxx:180-199 | when processId is -1 or every node belongs to this process, trimming removes nothing |
| ExtractSelection.TrimAsWrittenFails | Filters/Extraction/vtkExtractSelection.cxx:182-199 | two foreign nodes: the loop as written removes the first, then asks for node 1 of a one-node selection, while the intended trim leaves no node |
| ExtractSelection.TrimSelection | Filters/Extraction/vtkExtractSelection.cxx:182-199 | the removal loop computes exactly Trimmed |
| ExtractSelection.Invert | Filters/Extraction/vtkExtractSelection.cxx:168-177 | x * -1 + 1 stored as a signed char stays in [-128, 128) and swaps 0 and 1 |
| ExtractSelection.InvertTwice | Filters/Extraction/vtkExtractSelection.cxx:168-177 | inverting twice gives back every signed-char value |
| ExtractSelection.InvertSelection | Filters/Extraction/vtkExtractSelection.cxx:168-177 | every entry of the insidedness array is replaced by its inversion |
| ExtractSelection.Classify | Filters/Extraction/vtkExtractSelection.cxx:512-536 | INVALID exactly when there is no evaluated array, NONE exactly for the range (0, 0), ALL exactly for (1, 1), MIXED otherwise |
| ExtractSelection.MinMax | Filters/Extraction/vtkExtractSelection.cxx:512-514 | the range bounds every insidedness value and both ends are values of the array |
| ExtractSelection.ClassifyMeaning | Filters/Extraction/vtkExtractSelection.cxx:512-536 | for a 0/1 insidedness array: NONE iff every element is outside, ALL iff every element is inside, MIXED iff both occur |
| ExtractSelection.GhostSize | Filters/Extraction/vtkExtractSelection.cxx:707-720 | the size is the larger of the two array lengths (0 when both are absent) |
| ExtractSelection.ExtractElementGhosts | Filters/Extraction/vtkExtractSelection.cxx:703-755 | no array when both inputs are empty or absent; otherwise an array of that size holding hiddenValue exactly where the ghost entry has a hidden bit (only when the ghost array has that size) or the element is outside, and 0 elsewhere |
| ExtractSelection.HideGhosts | Filters/Extraction/vtkExtractSelection.cxx:761-774 | an element whose ghost value has a hidden bit becomes outside, every other insidedness value is kept |
| ExtractSelection.HideGhostsInInsidedness | Filters/Extraction/vtkExtractSelection.cxx:761-774 | the in-place loop leaves the array equal to HideGhosts of its old contents |
| ExtractSelection.HideGhostsIdempotent | Filters/Extraction/vtkExtractSelection.cxx:761-774 | hiding ghosts twice is the same as hiding them once |
| ExtractSelection.HideThenGhosts | Filters/Extraction/vtkExtractSelection.cxx:566-612 | hiding ghosts in the insidedness first does not change which elements the output ghost array marks hidden |
| ExtractSelection.InsideCellIds | Filters/Extraction/vtkExtractSelection.cxx:806-818 | the ids passed to the cell extractor are sorted, unique, and exactly the cells with non-zero insidedness |
| EnSightReader.KeywordsExclusive | IO/EnSight/vtkNewEnSightGoldReader.cxx:81-107 | the six option keywords are mutually exclusive prefixes, so the order of the else-if chain never decides between two of them |
| EnSightReader.TypeKeyword | IO/EnSight/vtkNewEnSightGoldReader.cxx:83-94 | only curvilinear, rectilinear and uniform set a grid type |
| EnSightReader.EvaluateOption | IO/EnSight/vtkNewEnSightGoldReader.cxx:81-107 | a type keyword replaces the grid type and nothing else; iblanked, with_ghost and range only set their flag; any other word changes nothing |
| EnSightReader.EvaluateOptions | IO/EnSight/vtkNewEnSightGoldReader.cxx:150-154 | after the option words each flag is set iff some word starts with its keyword, and the grid type is the last type keyword given (unchanged when there is none) |
| EnSightReader.GetGridOptions | IO/EnSight/vtkNewEnSightGoldReader.cxx:141-162 | the parsed grid type is always one of the three known types, and a line holding only "block" gives a plain curvilinear block |
| EnSightReader.GridOptionsDefaultCurvilinear | IO/EnSight/vtkNewEnSightGoldReader.cxx:156-159 | a block line without a type keyword is curvilinear |
| EnSightReader.GridOptionsExample | IO/EnSight/vtkNewEnSightGoldReader.cxx:141-162 | "block uniform iblanked" is a uniform, iblanked block without ghosts or range |
| EnSightReader.FortranBinaryRefused | IO/EnSight/vtkNewEnSightGoldReader.cxx:283-296 | as written, "Fortran Binary" is refused and no header line is ever recognised as Fortran binary |
| EnSightReader.FileTypeOf | IO/EnSight/vtkNewEnSightGoldReader.cxx:281-306 | ASCII iff the second word does not start with Binary; C binary iff it does and the first word starts with C; Fortran binary iff it does and the first word starts with Fortran; refused otherwise |
| EnSightReader.FileTypeAgrees | IO/EnSight/vtkNewEnSightGoldReader.cxx:281-306 | whenever the header test as written accepts a header, the corrected test gives the same file type |
| EnSightReader.SwappedTwice | IO/EnSight/vtkNewEnSightGoldReader.cxx:404-418 | swapping the four bytes of a word twice gives it back |
| EnSightReader.Signed | IO/EnSight/vtkNewEnSightGoldReader.cxx:404-418 | a 32-bit pattern read as int lies in the signed 32-bit range, is congruent to the pattern, and equals it when non-negative |
| EnSightReader.LittleEndian | IO/EnSight/vtkNewEnSightGoldReader.cxx:404-418 | a four-byte word decoded little-endian is a signed 32-bit value |
| EnSightReader.LittleEndianBytes | IO/EnSight/vtkNewEnSightGoldReader.cxx:404-418 | encoding a part id below 65536 little-endian decodes back to the id |
| EnSightReader.DetectedOrder | IO/EnSight/vtkNewEnSightGoldReader.cxx:400-423 | little-endian wins when its value is a plausible part id (0 <= id < MAXIMUM_PART_ID = 65536), else big-endian when the swapped value is; detection fails exactly when neither is plausible |
| EnSightReader.PartIdRoundTrip | IO/EnSight/vtkNewEnSightGoldReader.cxx:400-423 | a plausible part id written little-endian is detected as little-endian with its value; written big-endian it is detected as big-endian with its value, except 0, which reads the same both ways |
| EnSightReader.NextStop | IO/EnSight/vtkNewEnSightGoldReader.cxx:310-364 | the ASCII reader stops at the first line at or after pos that is not a comment or is too long for the 80-character buffer; every line skipped on the way is a comment (empty, starting with #, or blank) shorter than 80 characters |
| EnSightReader.Record | IO/EnSight/vtkNewEnSightGoldReader.cxx:345-356 | a binary record is a prefix of the line of at most 79 characters (the 80th byte is overwritten with the terminator) |
| EnSightReader.EnSightFile.constructor | IO/EnSight/vtkNewEnSightGoldReader.cxx:166-172 | a file opened with its format and lines starts at the first line with unknown byte order |
| EnSightReader.EnSightFile.ReadLine | IO/EnSight/vtkNewEnSightGoldReader.cxx:343-364 | at the end of the stream the read fails and nothing moves; a binary record advances one line and yields its first 79 characters; an ASCII line under MAX_LINE_LENGTH = 80 characters advances and yields the line; a longer ASCII line fails with its first 79 characters and leaves the rest of the line in the stream |
| EnSightReader.EnSightFile.ReadNextLine | IO/EnSight/vtkNewEnSightGoldReader.cxx:310-341 | binary files read one record; ASCII files skip short comment lines and succeed iff the line they stop at (NextStop) exists and is under 80 characters, leaving the position just after it; when only comments remain they fail at the end of the file; on a line of 80 or more characters they fail at that line with its first 79 characters, the rest left in the stream |
| EnSightReader.EnSightFile.DetectByteOrder | IO/EnSight/vtkNewEnSightGoldReader.cxx:400-423 | with a known byte order nothing changes and the call succeeds; otherwise it succeeds iff DetectedOrder finds an order, which it records with the decoded part id |
| EnSightReader.IsSectionHeader | IO/EnSight/vtkNewEnSightGoldReader.cxx:601-606 | a line is a section header iff it is one of FORMAT, GEOMETRY, VARIABLE, TIME and FILE; such a line has at least 4 and fewer than 80 characters, so it fits the line buffer, and starts with a capital letter |
| EnSightReader.SectionHeaderIsContent | IO/EnSight/vtkNewEnSightGoldReader.cxx:603-604 | the five case-file section names are never skipped as comments |
| EnSightReader.ReadDimensions | IO/EnSight/vtkNewEnSightGoldReader.cxx:1165-1190 | the dimensions are those read, or max - min + 1 per direction with a range; the point count is their product and the cell count the product of each minus one |
| EnSightReader.CellsFewerThanPoints | IO/EnSight/vtkNewEnSightGoldReader.cxx:1188-1189 | with positive dimensions there are fewer cells than points, and no cells when any dimension is 1 |
| EnSightReader.SingleIndexRangeIsFlat | IO/EnSight/vtkNewEnSightGoldReader.cxx:1179-1185 | a range with imin == imax gives a part one point thick and without cells |
| FeDistributor.Find | Filters/General/vtkFiniteElementFieldDistributor.cxx:98 | std::string::find from a position: a found index is an occurrence at or after it, and no occurrence lies between the position and the result |
| FeDistributor.Split | Filters/General/vtkFiniteElementFieldDistributor.cxx:93-108 | the loop computes exactly SplitFrom(s, d, 0) |
| FeDistributor.SplitPiecesHaveNoDelimiter | Filters/General/vtkFiniteElementFieldDistributor.cxx:93-108 | no piece of a split contains the delimiter |
| FeDistributor.JoinSplit | Filters/General/vtkFiniteElementFieldDistributor.cxx:93-108 | joining the pieces with the delimiter gives back the string, up to a trailing delimiter the split drops |
| FeDistributor.JoinSplitExact | Filters/General/vtkFiniteElementFieldDistributor.cxx:93-108 | for a string that does not end with the delimiter, joining the pieces gives back exactly the string |
| FeDistributor.IncidentToAll | Filters/General/vtkFiniteElementFieldDistributor.cxx:63-91 | with duplicate-free links a cell is counted at most once per point, and its count equals the number of points exactly when it uses all of them |
| FeDistributor.FindCellWithPoints | Filters/General/vtkFiniteElementFieldDistributor.cxx:63-91 | a non-negative result is a cell using every given point; -1 means no cell counted at any point uses them all |
| FeDistributor.Iota | Filters/General/vtkFiniteElementFieldDistributor.cxx:691-692 | std::iota from 1: the ordering 1, 2, ..., n |
| FeDistributor.IossTransformation | Filters/General/vtkFiniteElementFieldDistributor.cxx:679-861 | the ordering is non-empty exactly for the supported (cell type, point count) pairs |
| FeDistributor.IossTransformationIsPermutation | Filters/General/vtkFiniteElementFieldDistributor.cxx:679-861 | every supported ordering is a permutation of 1..npts |
| FeDistributor.ZeroBased | Filters/General/vtkFiniteElementFieldDistributor.cxx:382-385 | subtracting one from each entry turns an ordering of 1..n into one of 0..n-1 |
| FeDistributor.CellValues | Filters/General/vtkFiniteElementFieldDistributor.cxx:650-667 | with an ordering of the cell's size, value i is component ordering[i]; otherwise the components in their own order |
| FeDistributor.ScatterDistinct | Filters/General/vtkFiniteElementFieldDistributor.cxx:655-667 | writing the values at distinct point ids sets each of those points to its value and leaves every other point alone |
| FeDistributor.ExplodeDgHGradField | Filters/General/vtkFiniteElementFieldDistributor.cxx:639-676 | a missing array or a component count different from the cell size leaves the output unchanged; otherwise the cell's values, reordered by the ordering when it fits, are written to the cell's new points |
| FeDistributor.WithSpec | Filters/General/vtkFiniteElementFieldDistributor.cxx:189-218 | replacing one basis's spec changes only that basis and keeps the block table |
| FeDistributor.SkippedRecord | Filters/General/vtkFiniteElementFieldDistributor.cxx:1244-1258 | a record with fewer than five fields or an unknown basis type changes nothing |
| FeDistributor.OrderDigit | Filters/General/vtkFiniteElementFieldDistributor.cxx:1299 | the order is the digit after the first character of the fourth name part, 0 to 9 for a decimal digit; a one-character part yields the terminating NUL less '0', that is -48 |
| FeDistributor.BasisRecord | Filters/General/vtkFiniteElementFieldDistributor.cxx:1244-1308 | a basis record notes its block with the basis, sets the reference type from the third part of the Intrepid2 name when it names one of the seven elements, sets the CG or DG order from the fourth part as the Galerkin type says, and leaves the field sets and the other bases unchanged |
| FeDistributor.FieldRecord | Filters/General/vtkFiniteElementFieldDistributor.cxx:1255-1321 | a field record adds its block under its basis and its name to the CG or DG field set of that basis, changing nothing else |
| FeDistributor.ParseInfoRecords | Filters/General/vtkFiniteElementFieldDistributor.cxx:1222-1322 | the record loop computes exactly ParseRecords of the information records |
| FeDistributor.BlocksGrow | Filters/General/vtkFiniteElementFieldDistributor.cxx:1256-1260 | later records only add blocks and basis types, never remove them |
| HtgGhost.PruneChildren | Filters/Parallel/vtkHyperTreeGridGhostCellsGeneratorInternals.cxx:114-129 | one pruned shape per child visited so far |
| HtgGhost.EmitEncodesPrune | Filters/Parallel/vtkHyperTreeGridGhostCellsGeneratorInternals.cxx:106-131 | the isParent bits written by ExtractInterface are the pre-order encoding of the tree pruned to the interface: a child whose mask & childMask[i] is 0 is sent as a leaf |
| HtgGhost.EmitChildrenEncode | Filters/Parallel/vtkHyperTreeGridGhostCellsGeneratorInternals.cxx:114-129 | the bits written for the first k children encode the first k pruned children |
| HtgGhost.PruneChildrenLast | Filters/Parallel/vtkHyperTreeGridGhostCellsGeneratorInternals.cxx:116-127 | child k - 1 is pruned further when mask & childMask[k - 1] is non-zero and becomes a leaf otherwise |
| HtgGhost.PruneChildrenPrefix | Filters/Parallel/vtkHyperTreeGridGhostCellsGeneratorInternals.cxx:114-129 | pruning the first n children and keeping k of them is pruning the first k |
| HtgGhost.OverwriteTwice | Filters/Parallel/vtkHyperTreeGridGhostCellsGeneratorInternals.cxx:109-110 | writing w1 then w2 right after it into the indices vector is writing w1 + w2 |
| HtgGhost.InterfaceBuffer.constructor | Filters/Parallel/vtkHyperTreeGridGhostCellsGeneratorInternals.cxx:307-308 | a send buffer with an empty isParent array, indices resized to the tree's vertex count (value-initialised to 0) and count 0 |
| HtgGhost.InterfaceBuffer.ExtractInterface | Filters/Parallel/vtkHyperTreeGridGhostCellsGeneratorInternals.cxx:106-131 | isParent grows by the emitted bits, the emitted node ids overwrite indices from the old count on, and the count grows by the number of emitted nodes |
| HtgGhost.InterfaceBuffer.ExtractChild | Filters/Parallel/vtkHyperTreeGridGhostCellsGeneratorInternals.cxx:115-128 | one child step: a descended child emits its own interface, a masked-out child one leaf entry with its id |
| HtgGhost.EmitNext | Filters/Parallel/vtkHyperTreeGridGhostCellsGeneratorInternals.cxx:114-129 | the emission for k + 1 children is that for k children followed by child k's piece |
| HtgGhost.EmitRestStep | Filters/Parallel/vtkHyperTreeGridGhostCellsGeneratorInternals.cxx:114-129 | the emission for all children is that for the first k followed by the rest |
| HtgGhost.Decode | Filters/Parallel/vtkHyperTreeGridGhostCellsGeneratorInternals.cxx:69-84 | a decoded subtree consumes at least one bit and stays in the array; a clear bit or a masked node decodes as a leaf of one bit |
| HtgGhost.DecodeChildren | Filters/Parallel/vtkHyperTreeGridGhostCellsGeneratorInternals.cxx:74-82 | decoding k children yields k shapes and stays in the array |
| HtgGhost.DecodeEncode | Filters/Parallel/vtkHyperTreeGridGhostCellsGeneratorInternals.cxx:69-84 | decoding the encoding of a well-formed shape, found at any position, gives back the shape and the position after it |
| HtgGhost.DecodeEncodeChildren | Filters/Parallel/vtkHyperTreeGridGhostCellsGeneratorInternals.cxx:74-82 | decoding the encodings of the first k children gives back those children |
| HtgGhost.InterfaceRoundTrip | Filters/Parallel/vtkHyperTreeGridGhostCellsGeneratorInternals.cxx:69-131 | without masked nodes, CreateGhostTree on the bits written by ExtractInterface rebuilds exactly the pruned interface tree and reads every bit |
| HtgGhost.DecodeChildrenPrefix | Filters/Parallel/vtkHyperTreeGridGhostCellsGeneratorInternals.cxx:74-82 | if k children decode, so do the first j |
| HtgGhost.CreateGhostTree | Filters/Parallel/vtkHyperTreeGridGhostCellsGeneratorInternals.cxx:69-84 | the recursive builder returns the decoded shape and the next read position |
| HtgGhost.NumberOfCellValues | Filters/Parallel/vtkHyperTreeGridGhostCellsGeneratorInternals.cxx:45-55 | the sum of the component counts of all cell arrays |
| HtgGhost.InsertValue | Filters/Parallel/vtkHyperTreeGridGhostCellsGeneratorInternals.cxx:656-660 | InsertValue writes position i, extending the array by one when i is its length, and keeps every other value |
| HtgGhost.AppendGhostArray | Filters/Parallel/vtkHyperTreeGridGhostCellsGeneratorInternals.cxx:648-663 | an array of max(cells, vertices) flags: 0 for the input's own cells, 1 for the ghost cells after them |
| HtgGhost.GhostFlagCount | Filters/Parallel/vtkHyperTreeGridGhostCellsGeneratorInternals.cxx:648-663 | exactly the entries after the input cells are flagged as ghosts |
| HtgGhost.NoGhosts | Filters/Parallel/vtkHyperTreeGridGhostCellsGeneratorInternals.cxx:654-657 | an all-zero ghost array flags no cell |
| StreamTracer.NormalizedUnit | Filters/FlowPaths/vtkStreamTracer.cxx:251-257 | the step unit is always LENGTH_UNIT or CELL_LENGTH_UNIT: a valid unit is kept, anything else becomes CELL_LENGTH_UNIT |
| StreamTracer.NormalizedUnitIdempotent | Filters/FlowPaths/vtkStreamTracer.cxx:251-257 | normalising a normalised unit changes nothing |
| StreamTracer.IntegratorFor | Filters/FlowPaths/vtkStreamTracer.cxx:225-249 | an integrator is chosen exactly for RUNGE_KUTTA2, RUNGE_KUTTA4 and RUNGE_KUTTA45, and it is the one asked for |
| StreamTracer.Tracer.constructor | Filters/FlowPaths/vtkStreamTracer.cxx:96-110 | a new tracer uses Runge-Kutta 2, cell-length step units and forward integration |
| StreamTracer.Tracer.SetIntegratorType | Filters/FlowPaths/vtkStreamTracer.cxx:225-249 | a known type replaces the integrator and marks the tracer modified; an unknown type keeps the old integrator and the modification time |
| StreamTracer.Tracer.SetIntegrationStepUnit | Filters/FlowPaths/vtkStreamTracer.cxx:251-265 | the unit becomes the normalised unit, and the tracer is marked modified only when that changes it |
| StreamTracer.SetUnitTwice | Filters/FlowPaths/vtkStreamTracer.cxx:251-265 | setting the same unit twice bumps the modification time at most once |
| StreamTracer.ConvertCellLengths | Filters/FlowPaths/vtkStreamTracer.cxx:268-282 | an interval in cell lengths converts to the interval times the cell length; any other unit converts to 0 |
| StreamTracer.InitializeSeeds | Filters/FlowPaths/vtkStreamTracer.cxx:325-414 | n seeds (the source's points, or the start position) give seed ids 0..n-1, repeated once more for BOTH; every entry carries the tracer's direction, or FORWARD for the first copy and BACKWARD for the second with BOTH |
| StreamTracer.SeedIdList | Filters/FlowPaths/vtkStreamTracer.cxx:339-355 | with BOTH, 2n ids where entry i and entry n + i are both seed i; otherwise the ids 0..n-1 |
| StreamTracer.DirectionList | Filters/FlowPaths/vtkStreamTracer.cxx:392-411 | with BOTH, n FORWARD entries then n BACKWARD; otherwise n copies of the direction |
| StreamTracer.BothDirectionsPerSeed | Filters/FlowPaths/vtkStreamTracer.cxx:339-404 | with BOTH each seed is integrated exactly twice, forward at position s and backward at position n + s |
| StreamTracer.PointsBefore | Filters/FlowPaths/vtkStreamTracer.cxx:1338-1346 | the running point offset is never negative |
| StreamTracer.CellsBefore | Filters/FlowPaths/vtkStreamTracer.cxx:1338-1346 | the running cell count is between 0 and the number of seeds seen |
| StreamTracer.ScanOffsets | Filters/FlowPaths/vtkStreamTracer.cxx:1332-1348 | the scan leaves every offset equal to Scanned of the old offsets and returns the total points and cells |
| StreamTracer.BeforeMonotone | Filters/FlowPaths/vtkStreamTracer.cxx:1338-1346 | the running point and cell counts never decrease |
| StreamTracer.ScannedTiles | Filters/FlowPaths/vtkStreamTracer.cxx:1338-1346 | two seeds with streamlines get disjoint point ranges in seed order and increasing cell ids |
| StreamTracer.ScannedInRange | Filters/FlowPaths/vtkStreamTracer.cxx:1338-1346 | each streamline's cell id is below the cell count and its points lie within the output points |
| StreamTracer.CellIdsConsecutive | Filters/FlowPaths/vtkStreamTracer.cxx:1344 | every cell id below the count belongs to exactly the seed with that many streamlines before it |
| StreamTracer.PointsCovered | Filters/FlowPaths/vtkStreamTracer.cxx:1338-1346 | every output point lies in the point range of some streamline |
| StreamTracer.ReduceLays | Filters/FlowPaths/vtkStreamTracer.cxx:1332-1348 | after the scan the streamlines tile the output points and cell ids without gaps or overlap |
| StreamTracer.CompositeOverSeeds | Filters/FlowPaths/vtkStreamTracer.cxx:1278-1311 | every streamline's cell starts at its point offset and records its seed id (SeedIds) and its seed's termination code (ReasonForTermination), every covered output point is connected to itself, and the last offset is the point count |
| StreamTracer.CopyStreamline | Filters/FlowPaths/vtkStreamTracer.cxx:1292-1305 | after copying one seed's streamline, every output point of that seed and of the seeds before it is connected to itself |
| StreamTracer.WriteCellData | Filters/FlowPaths/vtkStreamTracer.cxx:1294-1308 | the cell offset, seed id and termination code of one cell are written, and every other entry of the three arrays is unchanged |
| StreamTracer.CopyPoints | Filters/FlowPaths/vtkStreamTracer.cxx:1297-1304 | the streamline's output points connect to themselves, nothing else changes |
| StreamTracer.CellIdsApart | Filters/FlowPaths/vtkStreamTracer.cxx:1286-1309 | two seeds with streamlines never share a cell id, so the parallel copies never write the same cell |
| StreamTracer.ComposedCellArray | Filters/FlowPaths/vtkStreamTracer.cxx:1362-1408 | the composed cell array connects every point to itself and starts each cell at its streamline's first point |
| StreamTracer.Reduce | Filters/FlowPaths/vtkStreamTracer.cxx:1332-1415 | the offsets are scanned; the connectivity is the identity over all output points; there is one seed id per cell; the offsets end at the point count; every streamline's cell starts at its points and names its seed; and the ReasonForTermination array (lines 1385-1390) holds, for each cell, the termination code of the seed that cell names |
| ExtractCellsAlongPolyLine.HitSeqSplit | Filters/Core/vtkExtractCellsAlongPolyLine.cxx:236-269 | the cells hit by source cells a..c are those hit by a..b followed by those hit by b..c, so consecutive thread ranges cover the lines in order |
| ExtractCellsAlongPolyLine.PointsOfMeaning | Filters/Core/vtkExtractCellsAlongPolyLine.cxx:132-135 | a point is in the point set of a cell list exactly when some listed cell has it among its points |
| ExtractCellsAlongPolyLine.HitCollector.constructor | Filters/Core/vtkExtractCellsAlongPolyLine.cxx:222 | a thread starts with no hit cells, no hit points and connectivity size 0 |
| ExtractCellsAlongPolyLine.HitCollector.AddHitCellIdsAndPointIds | Filters/Core/vtkExtractCellsAlongPolyLine.cxx:121-159 | the cell joins the hit set and its points join the point set; the connectivity size grows by the cell's size only if the cell was not hit before; the sets stay duplicate-free and the size stays the sum of the distinct hit cells' sizes |
| ExtractCellsAlongPolyLine.InsertCell | Filters/Core/vtkExtractCellsAlongPolyLine.cxx:129-130 | the cell joins the duplicate-free hit set, its points join the points of the hit cells, and the connectivity size grows by its size exactly when it was not hit before, so it stays the sum over distinct hit cells |
| ExtractCellsAlongPolyLine.InsertAll | Filters/Core/vtkExtractCellsAlongPolyLine.cxx:132-135 | after inserting a cell's point ids the point set is duplicate-free, keeps its earlier entries, and holds exactly the old points and the new ones |
| ExtractCellsAlongPolyLine.HitCollector.AddHits | Filters/Core/vtkExtractCellsAlongPolyLine.cxx:263-268 | every cell the locator reports for a segment joins the hit set and the state stays consistent |
| ExtractCellsAlongPolyLine.HitCollector.IntersectLine | Filters/Core/vtkExtractCellsAlongPolyLine.cxx:238-269 | a source cell adds the hits of all its segments, or nothing when the source has cell types and it is neither a line nor a polyline |
| ExtractCellsAlongPolyLine.HitCollector.IntersectRange | Filters/Core/vtkExtractCellsAlongPolyLine.cxx:224-270 | a thread's range of source cells adds exactly the hits of those lines to its state |
| ExtractCellsAlongPolyLine.HitCollector.Merge | Filters/Core/vtkExtractCellsAlongPolyLine.cxx:273-292 | corrected reduce: the hit set becomes the union of both, the point set the union of their points, and the connectivity size the sum over distinct cells |
| ExtractCellsAlongPolyLine.HitCollector.MergeAsWritten | Filters/Core/vtkExtractCellsAlongPolyLine.cxx:273-292 | reduce as written: cell and point sets are unions, the connectivity size is the plain sum of the two sizes |
| ExtractCellsAlongPolyLine.PointsOfContains | Filters/Core/vtkExtractCellsAlongPolyLine.cxx:132-135 | the points of any hit cell are in the hit point set |
| ExtractCellsAlongPolyLine.MergeOvercounts | Filters/Core/vtkExtractCellsAlongPolyLine.cxx:273-292 | two threads hitting one 4-point cell give connectivity size 8 under the reduce as written |
| ExtractCellsAlongPolyLine.MergeCountsOnce | Filters/Core/vtkExtractCellsAlongPolyLine.cxx:273-292 | the same two threads give connectivity size 4 under the corrected merge |
| ExtractCellsAlongPolyLine.IntersectLines | Filters/Core/vtkExtractCellsAlongPolyLine.cxx:312-323 | on the corrected merge (see Findings), running the threads over consecutive ranges and merging them yields a consistent state whose hit set is exactly the cells any line hits and whose connectivity size counts each distinct hit cell once |
| ExtractCellsAlongPolyLine.InsertSorted | Filters/Core/vtkExtractCellsAlongPolyLine.cxx:548-552 | inserting a new id into a strictly increasing list keeps it strictly increasing and adds exactly that id |
| ExtractCellsAlongPolyLine.SortIds | Filters/Core/vtkExtractCellsAlongPolyLine.cxx:548-558 | copying a set of ids and sorting them gives a strictly increasing list with the same elements and length |
| ExtractCellsAlongPolyLine.SortedUnique | Filters/Core/vtkExtractCellsAlongPolyLine.cxx:548-558 | two strictly increasing lists with the same elements are equal, so the sorted output does not depend on hash-set order |
| ExtractCellsAlongPolyLine.BuildPointMap | Filters/Core/vtkExtractCellsAlongPolyLine.cxx:560-569 | the point map's keys are the sorted point ids and each maps to its position in the sorted list |
| ExtractCellsAlongPolyLine.DistinctCard | Filters/Core/vtkExtractCellsAlongPolyLine.cxx:563-564 | a list without repeats has as many elements as the set it holds, so the output counts equal the set sizes |
| ExtractCellsAlongPolyLine.RankIsCount | Filters/Core/vtkExtractCellsAlongPolyLine.cxx:566-569 | an output point id equals the number of hit point ids smaller than its input id |
| ExtractCellsAlongPolyLine.SizesConcat | Filters/Core/vtkExtractCellsAlongPolyLine.cxx:455-459 | the cell sizes of a concatenated list are the concatenation of the sizes |
| ExtractCellsAlongPolyLine.SumSizesNonNegative | Filters/Core/vtkExtractCellsAlongPolyLine.cxx:455-459 | the total size of a list of cells is never negative |
| ExtractCellsAlongPolyLine.SumSizesPermutation | Filters/Core/vtkExtractCellsAlongPolyLine.cxx:548-552 | two duplicate-free lists of the same cells have the same total size, so sorting does not change the connectivity size |
| ExtractCellsAlongPolyLine.OffsetsOfSizes | Filters/Core/vtkExtractCellsAlongPolyLine.cxx:450-459 | the slot of an earlier output cell ends before a later cell's offset, and all offsets lie between 0 and the total size, so cells do not overlap |
| ExtractCellsAlongPolyLine.CopiedKept | Filters/Core/vtkExtractCellsAlongPolyLine.cxx:412-427 | writing past a copied cell's slot leaves that cell's copy intact |
| ExtractCellsAlongPolyLine.CopyCell | Filters/Core/vtkExtractCellsAlongPolyLine.cxx:163-198 | the cell's points, mapped through the point map, are written at the current offset and nothing else in the connectivity changes |
| ExtractCellsAlongPolyLine.OutputOffsets | Filters/Core/vtkExtractCellsAlongPolyLine.cxx:449-459 | the offsets start at 0 and are the running sums of the sizes of the output cells |
| ExtractCellsAlongPolyLine.CopyCells | Filters/Core/vtkExtractCellsAlongPolyLine.cxx:412-427 | after the worker's range every output cell up to its end holds its input cell's mapped points at its offset and its input cell type |
| ExtractCellsAlongPolyLine.GenerateOutputCells | Filters/Core/vtkExtractCellsAlongPolyLine.cxx:437-465 | offsets are the running sums of the cell sizes, the connectivity has the given length, each cell's mapped points sit at its offset and each output type is its input cell's type |
| ExtractCellsAlongPolyLine.CopiedRenumbered | Filters/Core/vtkExtractCellsAlongPolyLine.cxx:560-569 | following a copied cell's output point ids into the sorted point list gives back the input cell's points |
| ExtractCellsAlongPolyLine.ValidIdsOfElems | Filters/Core/vtkExtractCellsAlongPolyLine.cxx:548-552 | a list holding only hit cells names only input cells |
| ExtractCellsAlongPolyLine.PointsOfElems | Filters/Core/vtkExtractCellsAlongPolyLine.cxx:548-558 | two lists of the same cells have the same point set |
| ExtractCellsAlongPolyLine.CellPointsIn | Filters/Core/vtkExtractCellsAlongPolyLine.cxx:560-569 | every point of an output cell is a key of the point map |
| ExtractCellsAlongPolyLine.ExtractCells | Filters/Core/vtkExtractCellsAlongPolyLine.cxx:478-676 | on the corrected merge (see Findings): output cells are the hit cells in increasing id order; output points are their points in increasing id order; the connectivity is exactly as long as the last offset (as written, a cell hit in two threads is counted twice and the connectivity is longer); each output cell's connectivity leads back to its input cell's points and it keeps its input cell type |

## Left out

- Floating-point geometry is not modelled: point and centroid interpolation, Voronoi tile clipping, closest-point distances and the locator's line/cell intersection. Distances and scalars are `real`, and the cells a segment hits are an input list.
- ConvertToLength works on `real` values and does not model double rounding.
- Point coordinates and point/cell data are not copied to the outputs (CopyData, InsertPoint, the interpolated point data of the clip and the extracted cells). These are per-tuple copies with no integer logic.
- SMP threads are not modelled as concurrent threads: each thread is one consecutive range, and the ranges are merged in order. MPI and DIY exchange and the HTG exchange methods are left out: they are communication.
- In vtkExtractCellsAlongPolyLine, hash sets (unordered_set) are modelled as sequences without repeats, in insertion order. Their iteration order is unspecified in C++; every result that leaves that filter is sorted, and `ExtractCellsAlongPolyLine.SortedUnique` shows the result does not depend on that order. The finite element distributor keeps its std::map and std::set as Dafny maps and sets.
- FeDistributor.FindCellWithPoints: the source returns the first qualifying cell in the iteration order of an unordered_map, which C++ leaves unspecified. The model promises only that a non-negative result is some cell using every given point, and that -1 means there is none; which of several such cells comes back is not modelled.
- Arrays that C++ allocates without initial values are modelled as zero-filled. The proved contracts speak only about the entries that are written.
- In vtkExtractCellsAlongPolyLine, the input type checks, the early returns of ExtractCells, the 32/64-bit storage choice of the output cell array and the output points precision are left out. They only choose storage and do not change the ids.
- vtkStreamTracer.h is not part of this model: the unit and direction constants used by stream_tracer.dfy are the values that vtkStreamTracer.cxx relies on.
- The integration itself, GenerateNormals and the streamline point arrays of vtkStreamTracer are left out: they are floating-point numerics.
- Polyhedron face streams in the clip and connectivity filters are not modelled: a cell is its list of point ids.
- CheckAbort, progress updates, warnings and debug output are not modelled: they do not change the computed ids.
- FeDistributor.ApplyBasis: an Intrepid2 name with fewer than three parts, fewer than four parts or an empty fourth part is indexed past its end by the source (vtkFiniteElementFieldDistributor.cxx:1269, 1299), which is undefined behaviour. The model leaves the fields it cannot read unset. A one-character fourth part is modelled as written: the source reads the string's terminating NUL and the order becomes -48.
- VoronoiWheels.VoronoiTiles.FormsTriangles: the walk around the loop takes a fuel bound. A loop longer than the fuel is reported as no triangles, whereas the source walks until the loop closes.
- ClipBookkeeping.VolumeFromVolume.ConstructDataSet: output ids are proved to be in range only when every stored id names an existing point. The source does not check this.
- ClipBookkeeping.AssembleGrid: the same hypothesis as ConstructDataSet, for the same reason.
- ClipBookkeeping.RemapInRange: the same hypothesis, that stored ids name existing points.
- ExtractCellsAlongPolyLine.CopyCell: requires every point of the cell to be in the point map. The source's `map::at` would throw otherwise, and ExtractCells proves that the requirement holds.
- ExtractSelection.ExtractElementGhosts: requires the ghost array to be no longer than the insidedness array when both are present. The source reads the insidedness array up to the larger size.
- HtgGhost.CreateGhostTree: the global node indices that the source writes into `indices` are not modelled. The output cursor's mask is given as the set of positions whose node is masked. The method requires the bits to hold a whole tree, because the source reads past the end otherwise.
- ClipBookkeeping.VolumeFromVolume.ConstructDataSet: the source copies each stored vertex id through `int pt = *list;` (vtkTableBasedClipDataSet.cxx:1228) and `int ptIds[8]` (line 549), which cuts ids to 32 bits. The model keeps ids as unbounded integers, so outputs with more than 2^31 - 1 points are not modelled.
- ClipBookkeeping.AssembleGrid: the same 32-bit truncation of vertex ids as ConstructDataSet is not modelled.
- EnSightReader.ReadDimensions: the source computes numPts and numCells as `int` products (vtkNewEnSightGoldReader.cxx:555, 1187-1188), which overflow for large blocks. The model computes them on unbounded integers.
- Connectivity.ConnectivityFilter.constructor: every model run starts from a fresh filter with empty region sizes. In the source, the early return on empty input (vtkConnectivityFilter.cxx:147-150) comes before `RegionSizes->Reset()` (line 179), so a re-run on empty input still reports the previous run's regions; this is not modelled.
- PolyConnectivity.PolyConnectivityFilter.constructor: the same early return before `RegionSizes->Reset()` (vtkPolyDataConnectivityFilter.cxx:115-118 and 148) is not modelled.
- ExtractSelection.ExtractElementGhosts: the source copies the input ghost array only when `GetSize()` equals the output size (vtkExtractSelection.cxx:727). GetSize() is the allocated capacity, not the number of values; the model compares the number of values, which agrees whenever the array was not over-allocated.
- EnSightReader.EnSightFile.DetectByteOrder: when the byte order is already known, the source returns the word unchanged in host order (vtkNewEnSightGoldReader.cxx:400-425). The model fixes a little-endian host, so the swap a big-endian host would need is not modelled.
- EnSightReader.EnSightFile.ReadLine: binary records are modelled as lines cut to 79 characters. The failure of `read` on a final record shorter than 80 bytes is not modelled.

## Findings

| source | as written | input that shows it | evidently intended | confidence | as-written member | corrected member |
|---|---|---|---|---|---|---|
| Filters/Core/vtkVoronoi2D.cxx:1251-1254 | when the id is not on the wheel the search stops at NumSpokes; the test `i > NumSpokes` never fires, so the spoke before index NumSpokes, the last one, is examined | wheel 0 with one VALID spoke to point 5, asked for point 7: 5 comes back instead of -1 | -1 when the id is not a spoke of the wheel | not executed | VoronoiWheels.PreviousValidEdgeCounterexample | VoronoiWheels.GetPreviousValidEdge |
| Filters/CellGrid/vtkDGOperation.cxx:66-69 | ContainedBy requires other.Begin >= Begin and other.End < Begin, which no range with Begin <= End meets, so it is always false | [2, 3) inside [0, 10): the result is false | true when this range lies inside the other | not executed | DgRanges.ContainedByCounterexample | DgRanges.ContainedByIsInclusion |
| Filters/Extraction/vtkExtractSelection.cxx:182-199 | the index advances after a node is removed, so the next node is skipped and later iterations read past the end | two nodes, both owned by process 1, trimmed for process 0: the second node is skipped and slot 1 is read past the end | every node whose process id differs is removed | not executed | ExtractSelection.TrimAsWrittenFails | ExtractSelection.TrimSelection |
| IO/EnSight/vtkNewEnSightGoldReader.cxx:289 | the Fortran test is applied to the second word, which already starts with "Binary" | first line "Fortran Binary": the file type cannot be determined | Fortran binary when the first word starts with "Fortran" | not executed | EnSightReader.FortranBinaryRefused | EnSightReader.FileTypeOf |
| Filters/Core/vtkExtractCellsAlongPolyLine.cxx:273-292 | Reduce adds every thread's connectivity size, so a cell hit by two threads is counted twice while the merged set holds it once | one 4-point cell hit by lines in two threads: the connectivity size is 8, while the last offset is 4 | the connectivity size of the distinct merged cells | not executed | ExtractCellsAlongPolyLine.MergeOvercounts | ExtractCellsAlongPolyLine.HitCollector.Merge |
