# Mycelia graph viewer — core model

Mycelia is a Vrui application that shows a graph in 3-D. This project
models its sequential core in Dafny and proves properties of the model.

- **Picking** (`picking.dfy`, module `Picking`):
  - `nearestNode` is a running-minimum scan over the nodes of the live graph.
  - `selectNode(Point)` accepts that minimum only within (8·nodeRadius)².
  - `selectNode(Ray)` keeps the first node with the smallest x² among those that pass the cone test y²/x² ≤ coneAngle2.
  - `selectNode(InputDevice*)` dispatches between the two.
  - Every scan is a loop proved against the reference function `RunningMin`. The lemmas show that `RunningMin` finds the first minimum in iteration order, and `SELECTION_NONE` when no candidate is below `FLOAT_MAX`.
- **Texture cache** (`texturecache.dfy`, module `TextureCache`):
  - `MyceliaDataItem` is a class holding the two path-keyed maps and the texture-name pool.
  - `getTextureId` is proved against the pure step function `LoadStep`.
  - The class invariant: both maps have the same keys, the indices are exactly 0..n-1 and distinct, and there are never more indices than pool slots.
  - The lemmas cover the empty path, hits, idempotence, failures that are not remembered, and a miss taking the next index and growing the pool by one.
- **Drawing** (`drawing.dfy`, module `Drawing`):
  - `isSelectedComponent` is a predicate. `drawNode`, `drawNodes`, `getNodeEdgeOffset`, `drawEdge` and `drawEdges` are methods that update the data item's texture cache. Each is proved against a function giving the items drawn and the cache afterwards.
  - `drawEdges` keeps the `drawn[1000][1000]` array. Its loop invariant ties the array to the set of (source, target) pairs already drawn, so each pair is drawn as a line at most once.
- **Application** (`application.dfy`, module `Application`):
  - The `Mycelia` class holds the layout/bundler lifecycle flags, the three selection ids and the snapshot `gCopy` taken in `frame`.
  - `display` rebuilds the compiled list only when its version is stale, and `buildGraphList` records the version before drawing.
  - Each lifecycle method is proved against a pure transition on a `Lifecycle` value. The lemmas about those transitions state what `stopLayout`, `resumeLayout`, `setLayoutType`, `bundleCallback`, `resetLayout` and `resetNavigationCallback` leave running.
- **Shared values** (`types.dfy`, module `Types`): the constants `SELECTION_NONE`, `LAYOUT_STATIC` and `LAYOUT_DYNAMIC`, and the graph as a value. The graph holds its nodes in iteration order, its edges, a version counter and the texture-node mode.

## Model

| member | source | states |
|---|---|---|
| `Types.ComponentOf` | src/mycelia.cpp:831-839 | an id has a component exactly when the graph holds a node with that id |
| `Types.Recentered` | src/mycelia.cpp:1246-1250 | moveNodes(-center) translates every node by -center and keeps every id |
| `Types.NoneIsNeverANode` | src/mycelia.hpp:44-46 | SELECTION_NONE (-1) is never the id of a node of a well-formed graph |
| `Picking.RunningMinCases` | src/mycelia.cpp:1493-1511 | the strict-`<` scan either finds no candidate below float max and returns (SELECTION_NONE, float max), or returns the id and key of the first eligible candidate with the least key |
| `Picking.FirstMinUnique` | src/mycelia.cpp:1493-1511 | there is only one first minimum, so ties go to the earliest node |
| `Picking.RunningMinPicksFirstMin` | src/mycelia.cpp:1493-1511 | whenever a first minimum exists, the scan returns exactly it |
| `Picking.RunningMinEmptyPick` | src/mycelia.cpp:1493-1511 | with no candidate below float max (an empty graph in particular) the scan returns (SELECTION_NONE, float max) |
| `Picking.NearestNode` | src/mycelia.cpp:1493-1511 | the loop returns the first node with the least squared distance and that distance; on a well-formed graph it returns SELECTION_NONE exactly when no distance is below float max |
| `Picking.SelectNodeAtPoint` | src/mycelia.cpp:1350-1366 | the nearest node when its squared distance is at most (8·nodeRadius)², SELECTION_NONE otherwise |
| `Picking.PointQueryExample` | src/mycelia.cpp:1350-1366 | a click 0.5 from a node of radius 1 selects it; a click whose nearest node is 810000 squared units away selects nothing |
| `Picking.SelectNodeAlongRay` | src/mycelia.cpp:1368-1472 | the first node with the least x² among those whose y²/x² is within coneAngle2; SELECTION_NONE exactly when no node passes (well-formed graph) |
| `Picking.RayGuardIsVacuous` | src/mycelia.cpp:1451-1466 | the `x2 >= 0` guard never excludes a node: eligibility is the cone test alone |
| `Picking.NodeBehindOriginIsEligible` | src/mycelia.cpp:1415-1466 | a node behind the ray origin that passes the cone test is still a candidate |
| `Picking.SelectNodeForDevice` | src/mycelia.cpp:1474-1491 | a 6-DOF device uses the point query, any other device the ray query |
| `Picking.SixDofAppliesThreshold` | src/mycelia.hpp:211-214 | despite "unconditionally", a 6-DOF pick whose nearest node lies beyond 8·nodeRadius selects nothing |
| `Picking.NearestIsSomeNode` | src/mycelia.hpp:216-218 | nearestNode returns a node of the graph, never SELECTION_NONE, once some node's squared distance is below float max |
| `TextureCache.Pool` | src/dataitem.hpp:63-64 | the pool holds exactly the n generated names, slot by slot |
| `TextureCache.EmptyCache` | src/dataitem.hpp:52-67 | the new cache is consistent, with empty maps and a pool of 1000 names |
| `TextureCache.LoadStep` | src/dataitem.hpp:82-137 | the cache stays consistent, and the returned name is non-zero exactly when the path is cached or readable |
| `TextureCache.LoadStepKeepsIndicesDistinct` | src/dataitem.hpp:113-128 | a call never gives two paths the same index |
| `TextureCache.LoadStepExtends` | src/dataitem.hpp:82-137 | a call only adds entries and pool slots, and adds only readable paths |
| `TextureCache.LoadableIsStable` | src/dataitem.hpp:89-110 | once a cache has only grown, a path yields a texture in it exactly when it did before |
| `TextureCache.EmptyPathGivesNoTexture` | src/dataitem.hpp:84-87 | the empty path gives (0, (0, 0)) and changes nothing |
| `TextureCache.HitReturnsCachedEntry` | src/dataitem.hpp:89-97 | a cached path returns its pool name and cached size, and changes nothing |
| `TextureCache.LoadTwiceIsLoadOnce` | src/dataitem.hpp:82-137 | a second call with the same path returns the same pair and changes nothing |
| `TextureCache.FailureIsNotMemoised` | src/dataitem.hpp:99-110 | an unreadable image gives (0, (0, 0)) and leaves the cache as it was, so a later call loads the image once it is readable |
| `TextureCache.MissTakesNextIndex` | src/dataitem.hpp:111-129 | a miss maps the path to index n (the old map size) in both maps and returns textureIds[n]; the pool grows by one generated name exactly when n equals its size |
| `TextureCache.IndicesArePrefix` | src/dataitem.hpp:113-128 | the indices in use are exactly 0..n-1, each a valid pool slot |
| `TextureCache.LoadAllCaches` | src/dataitem.hpp:82-137 | after a series of calls every path that was readable is cached, and nothing was removed |
| `TextureCache.MyceliaDataItem.constructor` | src/dataitem.hpp:52-67 | a pool of 1000 names, empty maps, graph list version 0 |
| `TextureCache.MyceliaDataItem.GetTextureId` | src/dataitem.hpp:82-137 | the method's new cache and result are those of LoadStep, and the class invariant is kept |
| `Drawing.ComponentFilterMeaning` | src/mycelia.cpp:831-839 | about the predicate `Drawing.IsSelectedComponent`, which models isSelectedComponent: with the component toggle on, a node passes exactly when the selected node is a node in its component, so with nothing selected no node passes |
| `Drawing.KeptNodesMembers` | src/mycelia.cpp:599-615 | drawNodes visits a node exactly when it is in the graph, in the selected component and of a type other than the filter |
| `Drawing.DefaultFilterKeeps` | src/mycelia.hpp:158 | with the default filter "none", every node of the selected component whose type is not literally "none" is drawn |
| `Drawing.AlignModeSplit` | src/mycelia.cpp:295-304 | in align mode an image node is drawn only by the per-frame pass, a shape node only in the compiled list, and any other type in both |
| `Drawing.TextureTouched` | src/mycelia.cpp:583-597 | drawing a non-image node leaves the texture cache unchanged |
| `Drawing.TextureTouchedGrows` | src/mycelia.cpp:583-597 | drawing a node only adds readable images to the cache |
| `Drawing.NodeItem` | src/mycelia.cpp:583-597 | an image node whose texture loads is drawn as that non-zero texture; every other node falls back to a shape |
| `Drawing.NodePassDraws` | src/mycelia.cpp:599-615 | drawNodes draws one item per kept node, in order, textured exactly for readable image nodes, and the cache only grows |
| `Drawing.DrawNode` | src/mycelia.cpp:583-597 | the method draws NodeItem and leaves the cache TextureTouched |
| `Drawing.DrawNodes` | src/mycelia.cpp:599-615 | the loop's items and cache are those of NodePass over the graph's nodes |
| `Drawing.EdgeOffset` | src/mycelia.cpp:743-773 | nodeRadius·imageScale for an image node whose texture loads, nodeRadius·size otherwise |
| `Drawing.NodeEdgeOffset` | src/mycelia.cpp:743-773 | the method returns EdgeOffset and touches the cache only through getTextureId |
| `Drawing.LineItem` | src/mycelia.cpp:310-321 | drawEdge(const Edge&) draws a line from the edge's source to its target |
| `Drawing.DrawEdge` | src/mycelia.cpp:310-321 | the source offset, then the target offset, then the line |
| `Drawing.Segments` | src/mycelia.cpp:399-405 | a bundled edge draws segments 0 .. getSegmentCount() of that edge |
| `Drawing.DrawBundledEdge` | src/mycelia.cpp:399-405 | the segment loop draws exactly Segments |
| `Drawing.MarkedPairs` | src/mycelia.cpp:383-411 | while bundling, no pair is ever marked as drawn |
| `Drawing.MarkedPairsMeaning` | src/mycelia.cpp:383-411 | a pair is marked after j edges exactly when not bundling and one of the first j edges joins it from a node of the selected component |
| `Drawing.LinePairsOncePerPair` | src/mycelia.cpp:376-414 | when not bundling, the lines drawn join each marked pair exactly once, with no pair twice |
| `Drawing.TouchAllGrows` | src/mycelia.cpp:310-321 | the offset lookups of drawEdges only add readable images to the cache |
| `Drawing.EdgeCacheGrows` | src/mycelia.cpp:376-414 | drawEdges only adds readable images to the cache |
| `Drawing.DrawEdgeStep` | src/mycelia.cpp:389-412 | one loop iteration: skip a filtered or already drawn pair, draw the segments when bundling, else draw the line and mark the pair |
| `Drawing.DrawEdges` | src/mycelia.cpp:376-414 | the loop's items and cache are those of EdgeItems and EdgeCache, and its lines are the marked pairs, once each |
| `Drawing.LinesAreTheLineItems` | src/mycelia.cpp:376-414 | the pairs of lines collected from the drawn items are exactly those of the line items: every line item has its pair there, and every pair comes from a line item |
| `Application.StopStopsEverything` | src/mycelia.cpp:915-920 | after stopLayout the bundler and both layouts are stopped, and no switch has moved |
| `Application.ResumeOnlyDynamic` | src/mycelia.cpp:858-869 | resumeLayout starts the layout only when it is dynamic and not skipped, and otherwise changes nothing |
| `Application.LayoutTypeCases` | src/mycelia.cpp:876-903 | an unknown type is a no-op; everything stops only when the kind changes; DYNAMIC always stops the bundler and clears the bundle toggle |
| `Application.LayoutTypeStartsNothing` | src/mycelia.cpp:876-903 | setLayoutType starts nothing, so it keeps the bundler from running beside a layout |
| `Application.BundleStepExclusive` | src/mycelia.cpp:925-940 | on a non-empty graph, setting the toggle runs the bundler alone; clearing it stops the bundler and at most resumes the dynamic layout; never both run |
| `Application.RenavigateResumesOnlyDynamic` | src/mycelia.cpp:1241-1265 | afterwards the bundler and the static layout are stopped, and the dynamic layout runs exactly when it was the running active layout and is not skipped |
| `Application.ResetRunsChosenLayout` | src/mycelia.cpp:1157-1196 | with skipLayout set or no node, nothing runs; otherwise exactly the layout the radio button chose runs, and the bundler and its toggle are off |
| `Application.ResetIgnoresWatch` | src/mycelia.cpp:1183-1196 | watch does not change what runs after resetLayout: every layout is already stopped when resetNavigationCallback checks, contrary to the comment |
| `Application.MovedKeepsNodes` | src/mycelia.cpp:1246-1250 | moving nodes keeps the set of node ids |
| `Application.RandomizedKeepsNodes` | src/mycelia.cpp:1181 | randomising positions keeps the set of node ids |
| `Application.RecenteredKeepsNodes` | src/mycelia.cpp:1246-1261 | recentring and the version bump keep the set of node ids |
| `Application.SecondDisplayDoesNotRebuild` | src/mycelia.cpp:702-705 | a display that shows the graph leaves the list at the snapshot's version, so a second display of an unchanged snapshot does not rebuild |
| `Application.AlignListOmitsImages` | src/mycelia.cpp:295-304 | in align mode the compiled list draws, in order, exactly the selected-component nodes whose type is not "image" |
| `Application.Mycelia.constructor` | src/mycelia.cpp:79-268 | nothing selected; skipLayout off; the static layout active with nothing running; then resetNavigationCallback on the new graph |
| `Application.Mycelia.StopLayout` | src/mycelia.cpp:915-920 | the new flags are Stop of the old |
| `Application.Mycelia.StartLayout` | src/mycelia.cpp:910-913 | the active layout runs; nothing else changes |
| `Application.Mycelia.ResumeLayout` | src/mycelia.cpp:858-869 | the new flags are Resume of the old |
| `Application.Mycelia.SetLayoutType` | src/mycelia.cpp:876-903 | the new flags are WithLayoutType of the old |
| `Application.Mycelia.SetSkipLayout` | src/mycelia.cpp:905-908 | only skipLayout changes |
| `Application.Mycelia.BundleCallback` | src/mycelia.cpp:925-940 | a no-op on an empty graph; otherwise BundleStep, with a version bump when the toggle is cleared; the bundler never runs beside a layout |
| `Application.Mycelia.ResetNavigationCallback` | src/mycelia.cpp:1241-1265 | recentres the graph, sets nodeRadius to radius/80, bumps the version, resumes a layout that was running, and keeps the selections valid |
| `Application.Mycelia.ResetLayout` | src/mycelia.cpp:1157-1196 | watch defaults to true, as declared at src/mycelia.hpp:167; the flags follow Reset; the graph is untouched when skipping or empty, and otherwise randomised and, with watch, recentred |
| `Application.Mycelia.ShortestPathCallback` | src/mycelia.cpp:1267-1281 | with the toggle on, it takes the path when both selections are set and clears the toggle otherwise; the toggle stays on only when both are set |
| `Application.Mycelia.ClearSelections` | src/mycelia.cpp:1300-1304 | both selections become SELECTION_NONE and the version is bumped |
| `Application.Mycelia.SetSelectedNode` | src/mycelia.cpp:1316-1337 | an invalid id changes nothing; a valid one shifts selected into previous, selects the node, refreshes the shortest path and bumps the version |
| `Application.Mycelia.SetHighlightedNode` | src/mycelia.cpp:1339-1346 | the version is bumped exactly when the highlighted node changes |
| `Application.Mycelia.Frame` | src/mycelia.cpp:775-816 | the snapshot becomes the live graph, and the logo shows exactly when the graph has no node |
| `Application.Mycelia.SelectNode` | src/mycelia.cpp:1474-1491 | picking runs on the live graph g with the current node radius, not on the snapshot |
| `Application.Mycelia.BuildGraphList` | src/mycelia.cpp:275-308 | records the snapshot's version, then compiles the filtered nodes and the edges |
| `Application.Mycelia.Display` | src/mycelia.cpp:690-741 | needs edges that fit the drawn table only when it rebuilds; the logo alone while it shows; otherwise rebuilds exactly when the list version differs from the snapshot's, then draws the spanning tree, or the list, the align pass and the shortest-path overlay |

## Left out

- Rendering is left out. All OpenGL, GLU, FTGL and Vrui calls are foreign code: geometry, materials, arrowheads, fonts, node and edge labels, the logo's tetrahedron and the navigation transforms. What remains is which items are drawn, and when.
- Application.Mycelia.Display: `drawSpanningTree` and `drawShortestPath` each appear as one overlay item. The nodes and edges they walk, and the texture lookups those draws make, are not modelled.
- GUI plumbing is left out: window show/hide (`layoutWindow`, the node-info window in `setSelectedNode`, the status window), the file dialogs and the other callbacks. Toggles are plain booleans the model reads.
- The initial radio selection and `setSelectedToggle` are assumptions. The radio box is in ALWAYS_ONE mode, so its first button (static) is taken as selected at start. Selecting a toggle from code is assumed not to fire `resetLayoutCallback`.
- The lock in `frame` is left out. The snapshot is an atomic assignment `gCopy := g`. The rotation angle and the navigation-tool switching in `frame` are not modelled.
- Floating point is modelled as reals:
  - `nodeRadius` and the squared distances are reals.
  - `coneAngle2`, which the source derives with `asin`, is a parameter.
  - Float max is the real constant `FLOAT_MAX`.
  - The sizes `resetNavigationCallback` derives besides `nodeRadius` are not modelled (arrow height and width, edge thickness, edge offset).
- Picking.SelectNodeAlongRay: the case x² = 0 is handled by a conjunct `x2 != 0` in the cone test rather than excluded by a precondition. In IEEE arithmetic y²/0 is +inf or NaN, and neither compares `<=` a finite cone angle.
- The CUDA path of `resetLayout`, `pythonCallback`, the RPC server notification in `setSelectedNode`, and `getResourceDir` are left out. They are foreign code or I/O.
- Graph internals are modelled as a value: nodes in iteration order, edges and a version counter.
  - `update()` adds one to the version.
  - `moveNodes` and `randomizePositions` also count as one version bump each.
  - `locate()`, `getShortestPath()` and the random positions are inputs.
  - `clearVelocities` is not modelled.
- The layouts and the edge bundler are only running flags. Their threads and algorithms are not part of this model.
  - A bundled edge draws `BundleSegment(edge, k)` items; the segment geometry is left out.
  - `getSegmentCount()` is the field `segmentCount`.
- Texture names come from the `Loader` input: `gen` stands for `glGenTextures`, and `images` stands for the image decoder. A path missing from `images` is one whose decode throws. The model does not check that GL names are distinct.
- Types.ComponentOf: the component of an id that is not a node (SELECTION_NONE in particular) is taken to be "none": every such id shares it, and it differs from the component of every node. `Graph::getNodeComponent` is not part of this model. So with the component toggle on and nothing selected, no node passes `isSelectedComponent`.
- Drawing.NodeEdgeOffset: the early `return` for a loaded texture is written as a success flag. It gives the same offset.
- Drawing.DrawEdge: the two offsets are computed source first, then target. C++ leaves the evaluation order of the arguments unspecified. The order only matters for which slot each new texture gets.
- Drawing.DrawEdges requires `EdgesFit`. The requirement covers only edges whose source passes the component filter, because the source skips any other edge before it reads `drawn[1000][1000]`. Such an edge must have endpoint ids below 1000, or the array is indexed out of bounds, which is undefined behaviour. It must also join nodes of the graph, or the graph lookups for it are undefined.
- Application.Mycelia.constructor: `highlightedNode` is never initialised in the source. The constructor takes that field's starting value as a parameter.
- Application.Mycelia.BundleCallback: the bundle toggle belongs to the GUI, so the callback leaves it as it is.
- The resetLayout comment says `resetNavigationCallback` resumes the dynamic layout. The code does not: every layout has just been stopped. The model follows the code, and `ResetIgnoresWatch` states the consequence.
