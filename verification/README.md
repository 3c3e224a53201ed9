# CATMAID core, modelled in Dafny

This project models the core logic of CATMAID, the Collaborative Annotation
Toolkit for Massive Amounts of Image Data. Each Dafny module covers one
component of the program. Each operation is a pure function over immutable
data, and lemmas relate it to an independent statement of what it should do.

- **Tile viewports** (`tile_layer.dfy`, `pixi_tile_layer.dfy`):
  - the tile base name;
  - the wrap-around row and column transforms;
  - pan and zoom redraws and the choice of visible tiles;
  - buffering, tile caching and resizing.
- **Stack navigation** (`stack.dfy`):
  - `moveTo`, including the scale and position clamps and the search over skipped planes;
  - `moveToPixel`;
  - the maximum scale level and the list of sections;
  - the scale-bar units;
  - adding and removing layers.
- **Tracing overlays**:
  - The current overlay (`tracing_overlay.dfy`) covers:
    - the active node;
    - connector classification and rebuilding the node graph from server tuples;
    - the click decision table, the precondition checks and node deletion;
    - flushing dirty node positions, the redraw decision and branch cycling;
    - the annotation sets of the split dialog.
  - The legacy overlay (`legacy_overlay.dfy`) covers its node, area and annotation refreshes and the flattening of dirty records into request keys.
- **Polygon areas, end to end**:
  - the area editor and the open-area experiment (`area_editor.dfy`, `open_area.dfy`, `svg_path.dfy`);
  - the three PHP endpoints that create, list and update areas (`area_create.dfy`, `area_list.dfy`, `area_update.dfy`).
- **Small helpers**:
  - the PostgreSQL array readers and the tree-view JSON node (`pg_tools.dfy`);
  - slice paths, segment votes and segment bounding boxes (`segment.dfy`);
  - the Venn diagram widget (`venn.dfy`);
  - the 3D viewer's tag-geometry cache, synapse tables, restricted connectors, catalog layout, coordinate flip and stored views (`webgl_space.dfy`, `webgl_synapses.dfy`);
  - the Ilastik layer (`ilastik_layer.dfy`);
  - the sign-up endpoint (`user_create.dfy`).
- **Shared pieces**: `common.dfy` and `text.dfy` hold `Option`, decimal printing and parsing, splitting and joining.

**Modelling choices**
- Server replies, timer firings and database answers are explicit arguments, so every operation is a function of its inputs.
- Where JavaScript or PHP behaves differently from Dafny, the difference is written out:
  - the truncating `%`;
  - PHP's loose `==` in `in_array`;
  - `parseInt`, `intval` and `floatval` on prefixes;
  - JavaScript's ascending order for integer object keys.

**Two behaviours of the tracing overlay**
- **Parent links.** A treenode record names at most one parent, but `refreshNodesFromTuples` links that parent only when it is among the loaded nodes.
  - It links connector partners only within the current section.
  - So a loaded node's parent may be missing from the graph (`TracingOverlay.RefreshParent`, `TracingOverlay.RefreshChildren`).
- **Connector clicks.** With a modifier held on an active connector, the kind of new partner depends only on the alt key: a gap-junction treenode with alt, a postsynaptic treenode without it.
  - The connector's existing links matter only for a plain click in skeleton mode (`TracingOverlay.WhenClicked`).

## Model

| member | source | states |
|---|---|---|
| TileLayer.TileBaseName | django/applications/catmaid/static/js/tilelayer.js:9-16 | a position of at most two dimensions gives the empty base name, and [x, y, z] gives the printed z followed by '/' |
| TileLayer.TileBaseNameSplits | django/applications/catmaid/static/js/tilelayer.js:9-16 | splitting the base name at '/' gives the printed dimensions from the last down to index 2, then an empty piece: every dimension is followed by exactly one '/' |
| TileLayer.RowTransform | django/applications/catmaid/static/js/tilelayer.js:123-126 | the truncating-remainder formula always gives a row of the grid, and it equals (r + origin) mod rows under Euclidean mod, negative r included |
| TileLayer.ColTransform | django/applications/catmaid/static/js/tilelayer.js:128-131 | the same for columns: a column of the grid, equal to (c + origin) mod cols |
| TileLayer.Wrap | django/applications/catmaid/static/js/tilelayer.js:230 | the grid index the loop's `i = (i + 1) % rows` reaches after t steps is (origin + t) mod n |
| TileLayer.WrapInjective | django/applications/catmaid/static/js/tilelayer.js:230-236 | the redraw loop visits each grid row (column) exactly once: distinct steps give distinct indices |
| TileLayer.TilesForLocation | django/applications/catmaid/static/js/tilelayer.js:421-449 | an integral level s >= 0 uses zoom s with no magnification, a negative level zoom 0 magnified by 2^-s; the first row and column are the floors of the view corner over the effective tile size, not clamped at 0 |
| TileLayer.LastColumnExact | django/applications/catmaid/static/js/tilelayer.js:456-461 | a column is at most the last column exactly when its left edge lies inside the view and its first pixel lies inside the stack at the zoom level |
| TileLayer.LastRowExact | django/applications/catmaid/static/js/tilelayer.js:457-461 | the same for rows and the stack height |
| TileLayer.InitTiles | django/applications/catmaid/static/js/tilelayer.js:84-121 | both grids become rows x cols fresh, hidden, still-loading tiles and the origin is reset to (0, 0) |
| TileLayer.GridSize | django/applications/catmaid/static/js/tilelayer.js:331-332 | the grid is one tile larger than the least number of tiles covering the view in each direction (ceil(h / tileHeight) + 1 rows) |
| TileLayer.Resize | django/applications/catmaid/static/js/tilelayer.js:330-334 | the grid before the final redraw always has GridSize's dimensions; a grid that already has them is left as it is, any other (or an empty one) is rebuilt with the origin at (0, 0) |
| TileLayer.ResizeAndRedraw | django/applications/catmaid/static/js/tilelayer.js:330-336 | resize followed by its redraw keeps GridSize's dimensions, and nothing is buffered when neither section nor zoom level changed |
| TileLayer.ResizedGridShowsView | django/applications/catmaid/static/js/tilelayer.js:330-336 | after resize every cell of the new grid shows the stack tile of the view it stands for, or is hidden outside the stack |
| TileLayer.Pan | django/applications/catmaid/static/js/tilelayer.js:159-177 | the origin moves to (origin + shift) mod size; only the wrapped column colTransform(xd < 0 ? -1 : 0) and row rowTransform(yd < 0 ? -1 : 0) are hidden, and every other tile and the buffer are unchanged |
| TileLayer.SwapBuffers | django/applications/catmaid/static/js/tilelayer.js:305-323 | nothing changes unless buffering; otherwise the flag is cleared and every displayed tile takes its buffer tile's image and state, visible exactly when that state is not hidden |
| TileLayer.SwapBuffersOnce | django/applications/catmaid/static/js/tilelayer.js:305-307 | a second swap (the timeout after the load callback already swapped) changes nothing |
| TileLayer.BufferLoaded | django/applications/catmaid/static/js/tilelayer.js:215-224 | a buffer load is ignored when not buffering or when the tile is flagged hidden; otherwise the tile is flagged loaded, the count grows by one and buffering ends exactly when the count reaches the number of tiles to buffer |
| TileLayer.TileLoaded | django/applications/catmaid/static/js/tilelayer.js:88-92 | a displayed tile's load handler shows it and flags it loaded unless it is flagged hidden, and changes nothing else |
| TileLayer.UpdateCell | django/applications/catmaid/static/js/tilelayer.js:237-288 | the cell for stack tile (r, c) refers to that tile's image when 0 <= c <= last_col and 0 <= r <= last_row, and is flagged hidden and invisible otherwise; no other cell changes except through a completed swap |
| TileLayer.BeginRedraw | django/applications/catmaid/static/js/tilelayer.js:147-203 | with section and scale unchanged the origin moves by the pan shift, otherwise it stays; buffering is on exactly when the section changed or the zoom differs from max(0, ceil(old_s)) |
| TileLayer.Redraw | django/applications/catmaid/static/js/tilelayer.js:136-300 | the redraw ends buffering only through a swap, and one that does not buffer leaves the buffer untouched |
| TileLayer.RedrawShowsView | django/applications/catmaid/static/js/tilelayer.js:230-289 | after redraw every grid step (ti, tj) shows stack tile (first_row + ti, first_col + tj) when that tile lies inside the stack and is hidden otherwise |
| TileLayer.CacheRounds | django/applications/catmaid/static/js/tilelayer.js:346-380 | each round reports the remaining count and the counter before loading min(16, remaining) indices, the list is first cut to 3000, and the last round has nothing left |
| TileLayer.CacheRoundsLoadAll | django/applications/catmaid/static/js/tilelayer.js:346-380 | the batches together load the first min(n, 3000) indices exactly once and in order, and the last report's counter has grown by that many |
| PixiTileLayer.InitTiles | django/applications/catmaid/static/js/layers/pixi-tile-layer.js:29-61 | the grid becomes rows x cols sprites with the empty texture, sprite (i, j) at (j * tileWidth, i * tileHeight), and every buffer slot of the new grid false; buffer rows beyond the new grid are left as they were |
| PixiTileLayer.Resize | django/applications/catmaid/static/js/layers/pixi-tile-layer.js:263-270 | the same renderer size changes nothing; any other size gives, before the final redraw, a grid of (floor(h / tileHeight) + 2) x (floor(w / tileWidth) + 2) and records the new renderer size |
| PixiTileLayer.ResizeAndRedraw | django/applications/catmaid/static/js/layers/pixi-tile-layer.js:263-272 | the same renderer size returns before any redraw; any other size is redrawn, on a grid of (floor(h / tileHeight) + 2) x (floor(w / tileWidth) + 2) with the new renderer size, and arms the fallback timer exactly when a loader is pending |
| PixiTileLayer.ShiftRow | django/applications/catmaid/static/js/layers/pixi-tile-layer.js:114-137 | panning left shifts every texture one slot right (slot j takes j - 1) and hides slot 0; panning right shifts them left and hides the last slot; positions never change |
| PixiTileLayer.Pan | django/applications/catmaid/static/js/layers/pixi-tile-layer.js:104-161 | the pan step keeps the grid's shape and treats every row alike, as PanRow describes |
| PixiTileLayer.PanVertical | django/applications/catmaid/static/js/layers/pixi-tile-layer.js:139-160 | a vertical pan moves the (horizontally shifted) textures one row in the direction of yd and hides no row: visibility is the horizontal step's |
| PixiTileLayer.PanBackRestoresTextures | django/applications/catmaid/static/js/layers/pixi-tile-layer.js:114-137 | panning right and then left restores every texture but the first slot's, which stays hidden |
| PixiTileLayer.LastTiles | django/applications/catmaid/static/js/layers/pixi-tile-layer.js:166-182 | without magnification LAST_XT / LAST_YT are the stack's last tile at the scale; with it they never pass the stack's last tile at level 0 |
| PixiTileLayer.UpdateCell | django/applications/catmaid/static/js/layers/pixi-tile-layer.js:207-221 | a slot showing a tile inside the stack either already has that texture and is visible or gets a pending loader for it; a slot outside is hidden; no other slot changes |
| PixiTileLayer.CellsFrom | django/applications/catmaid/static/js/layers/pixi-tile-layer.js:202-223 | every slot from (i, j) on in row-major order shows its stack tile as UpdateCell states, and slots before it are unchanged |
| PixiTileLayer.Redraw | django/applications/catmaid/static/js/layers/pixi-tile-layer.js:66-236 | the stage is rendered at once exactly when section and zoom level are unchanged, and the 3 s fallback timer is armed exactly when some loader is still pending |
| PixiTileLayer.RedrawShowsView | django/applications/catmaid/static/js/layers/pixi-tile-layer.js:202-222 | after redraw slot (i, j) shows stack tile (fr + i, fc + j) when 0 <= r <= LAST_YT and 0 <= c <= LAST_XT, and is hidden otherwise |
| PixiTileLayer.IsBuffering | django/applications/catmaid/static/js/layers/pixi-tile-layer.js:242-245 | true exactly when some buffer slot holds a loader whose texture is not yet valid |
| PixiTileLayer.LoadBuffer | django/applications/catmaid/static/js/layers/pixi-tile-layer.js:247-261 | every buffer slot of the grid becomes false; each slot that held a loader shows its texture and is visible; slots without a loader are unchanged |
| PixiTileLayer.LoadBufferClearsGrid | django/applications/catmaid/static/js/layers/pixi-tile-layer.js:242-261 | after loadBuffer the layer is still buffering only through loaders left in buffer rows beyond the grid |
| PixiTileLayer.CheckBuffer | django/applications/catmaid/static/js/layers/pixi-tile-layer.js:238-240 | the buffer is loaded only once no loader is pending |
| Stack.LevelsFrom | httpdocs/stack.js:330-337 | the level count is the least k >= 1 with 256 * 2^k >= the stack height, i.e. ceil(log2(height / 256)) forced to at least 1 |
| Stack.NumScaleLevels | httpdocs/stack.js:330-337 | the level count is at least 1 and 256 * 2^k covers the stack height |
| Stack.NumScaleLevelsLeast | httpdocs/stack.js:330-337 | no smaller level count (of at least 1) covers the stack height: the count is the least one |
| Stack.MaxS | httpdocs/stack.js:338 | MAX_S is one less than the level count, so MAX_S >= 0 |
| Stack.Slices | httpdocs/stack.js:343-348 | slices holds exactly the sections in [0, dimension[2]) that are not skipped, strictly ascending |
| Stack.SkipSearch | httpdocs/stack.js:188-197 | a plane the search returns is never skipped; None stands for the loop that never ends |
| Stack.SkipSearchNearest | httpdocs/stack.js:187-198 | started at z the search fails exactly when every plane in [0, max] is skipped; otherwise it returns an unskipped plane in range with no unskipped plane nearer to z, preferring the lower one when two are equally near |
| Stack.ClampScale | httpdocs/stack.js:178-182 | s = clamp(round(sp), 0, MAX_S): the rounded scale when in range, 0 below, MAX_S above |
| Stack.MoveTo | httpdocs/stack.js:176-205 | every coordinate ends in [0, dimension[i] - 1]; coordinates other than z are the clamped rounded pixel position; the scale changes only when one is given; the move hangs (None) exactly when the skip-plane search does |
| Stack.MoveToPixel | httpdocs/stack.js:210-223 | the scale is clamped to [0, MAX_S] and every pixel coordinate gets a project coordinate |
| Stack.MoveToPixelRoundTrip | httpdocs/stack.js:176-223 | moving to an in-range pixel position on an unskipped section through its project coordinates lands exactly on that pixel position |
| Stack.ScaleBarSizesPositive | httpdocs/stack.js:421-465 | the 44 scale-bar sizes are all positive |
| Stack.ScaleBarIndex | httpdocs/stack.js:49-55 | the chosen size is the first whose width exceeds the limit, or the last size when none does |
| Stack.InUnits | httpdocs/stack.js:56-61 | the length is divided by 1000 once per unit step, at most three steps, and the text times 1000^unit is the length; the text is at least 1 and below 1000 unless the unit is metres |
| Stack.ScaleBar | httpdocs/stack.js:44-61 | the bar's width is the chosen size times pixels per nanometre (limit min(192, viewWidth / 5)), and its text and unit spell that size |
| Stack.AddLayer | httpdocs/stack.js:264-270 | the key maps to the new layer and the layer it replaces, if any, is the one unregistered |
| Stack.RemoveLayer | httpdocs/stack.js:277-288 | an absent key changes nothing and returns null; a present one is removed and its layer returned |
| Stack.AddThenRemove | httpdocs/stack.js:264-288 | removing a freshly added key restores the layers and returns the added layer |
| SvgPath.LinesOf | httpdocs/widgets/overlay_area.js:358-361 | one "L x y" command per vertex, in vertex order |
| SvgPath.LineCommands | httpdocs/widgets/overlay_area.js:358-361 | the loop from index 1 gives one "L xi yi" command for every vertex after the first |
| SvgPath.PathList | httpdocs/widgets/overlay_area.js:352-363 | the path list starts with "M x0 y0", ends with "Z" and has one entry per vertex plus the "Z" (two entries for no vertex) |
| SvgPath.ReadLines | httpdocs/widgets/overlay_area.js:358-361 | reading L commands back gives one coordinate pair per command |
| SvgPath.ReadLinesOf | httpdocs/widgets/overlay_area.js:358-361 | the L commands of a vertex list read back to that list when the number printing reads back |
| SvgPath.PathSplitsBack | httpdocs/widgets/overlay_area.js:352-364 | splitting the joined path at ',' gives back the path list: no command contains a comma |
| SvgPath.ReadSvgPath | httpdocs/widgets/overlay_area.js:352-364 | the SVG path of a non-empty polygon reads back to exactly its x and y lists |
| SvgPath.SvgPathShape | httpdocs/experiment/svg-polylines/overlay_openarea.js:185-197 | the experiment's path has the same shape; with no vertex it is "Mundefined undefined,Z" |
| AreaEditor.NewArea | httpdocs/widgets/overlay_area.js:194-203 | a scalar (x, y) gives a one-vertex polygon and arrays are taken as they are; the area starts in create mode accepting clicks, with a dot on every vertex |
| AreaEditor.AddXY | httpdocs/widgets/overlay_area.js:226-233 | in create mode with clicks not ignored x and y each grow by the new coordinate and a dot is added; otherwise nothing changes |
| AreaEditor.SetVertex | httpdocs/widgets/overlay_area.js:237-244 | vertex i is replaced exactly when i is an index of the polygon; otherwise nothing changes; dots and mode are untouched |
| AreaEditor.MakeMidpoint | httpdocs/widgets/overlay_area.js:290-301 | midpoint i averages vertices i - 1 and i for 0 < i < l and vertices l - 1 and 0 for i = l; any other index has no position |
| AreaEditor.Midpoints | httpdocs/widgets/overlay_area.js:303-320 | exactly l midpoints, with indices 1..l, when l > 1 and none otherwise |
| AreaEditor.SwitchMode | httpdocs/widgets/overlay_area.js:373-381 | the mode toggles; entering edit mode creates the midpoints, leaving it removes all of them; vertices and dots are untouched |
| AreaEditor.SwitchModeTwice | httpdocs/widgets/overlay_area.js:373-381 | switching to edit mode and back restores the area exactly |
| AreaEditor.IgnoredWhileDragging | httpdocs/widgets/overlay_area.js:221-233 | a click is ignored while ignoreClick is set and adds a vertex otherwise |
| AreaEditor.VertexDrag | httpdocs/widgets/overlay_area.js:249-262 | dragging vertex i moves vertex i and its dot; in edit mode the two neighbouring midpoints follow, and every midpoint stays on the middle of its edge |
| AreaEditor.MidpointDrag | httpdocs/widgets/overlay_area.js:263-284 | dragging midpoint i (0 < i <= l) inserts its coordinates at position i, grows x and y by one, turns it into vertex dot i, and replaces it by two midpoints, one per new edge |
| AreaEditor.MidpointDragPlaced | httpdocs/widgets/overlay_area.js:266-281 | after the insert every dot still sits on its vertex and every midpoint on the middle of its edge, the later dots' indices shifted up by one |
| AreaEditor.HandleDrag | httpdocs/widgets/overlay_area.js:246-288 | a drag of a vertex dot moves that vertex, a drag of a midpoint inserts a vertex, and either way the dots stay one per vertex and placed |
| AreaEditor.DotRange | httpdocs/widgets/overlay_area.js:250-263 | the index guards of handleDrag always hold for a dot of the area: a vertex dot has 0 <= i < l, a midpoint 0 < i <= l in edit mode |
| AreaEditor.PathReadsBack | httpdocs/widgets/overlay_area.js:352-371 | the path drawn for a non-empty area reads back to its vertex lists |
| OpenArea.NewOpenArea | httpdocs/experiment/svg-polylines/overlay_openarea.js:106-107 | a new area has exactly the vertex (x, y), one vertex dot on it, and is not dragging |
| OpenArea.DotDragging | httpdocs/experiment/svg-polylines/overlay_openarea.js:142-144 | only the dragging flag changes, to the value given |
| OpenArea.AddXY | httpdocs/experiment/svg-polylines/overlay_openarea.js:147-154 | x and y grow by the new coordinate (with a new dot) exactly when not dragging; while dragging nothing changes |
| OpenArea.SetVertex | httpdocs/experiment/svg-polylines/overlay_openarea.js:158-165 | vertex i is replaced exactly when i < length; dots and the flag are untouched |
| OpenArea.UpdateLocationSynced | httpdocs/experiment/svg-polylines/overlay_openarea.js:66-70 | updateLocation writes the dot's position back into its own vertex index and keeps dots and vertices in step |
| OpenArea.MovesSynced | httpdocs/experiment/svg-polylines/overlay_openarea.js:32-43 | during a drag every move leaves the dragged vertex at the latest position, and a click adds no vertex |
| OpenArea.DragEnds | httpdocs/experiment/svg-polylines/overlay_openarea.js:32-48 | a whole drag (start, moves, up) ends not dragging, with the vertex at the last position the drag reached |
| OpenArea.PathReadsBack | httpdocs/experiment/svg-polylines/overlay_openarea.js:185-203 | the experiment's drawn path reads back to its vertex lists |
| LegacyOverlay.ActivateNode | httpdocs/widgets/overlay.js:11-24 | activateNode(null) sets both the active node and the active skeleton id to null; any other node becomes active together with its skeleton |
| LegacyOverlay.RowRadius | httpdocs/widgets/overlay.js:969-984 | in the current section a treenode is drawn with its radius and a connector with 8; off-section the radius is 0 |
| LegacyOverlay.InsertRows | httpdocs/widgets/overlay.js:960-997 | the node map's keys are exactly the record ids, and each node is built from the last record with its id |
| LegacyOverlay.RefreshNodes | httpdocs/widgets/overlay.js:956-1003 | the rebuilt cache holds exactly the records' ids; the node whose id equals the previously active node's is activated again, otherwise the active state is kept |
| LegacyOverlay.RefreshNodeFields | httpdocs/widgets/overlay.js:962-996 | each node has its record's id and kind, the radius rule, no skeleton for a connector, and is a root exactly when it is a treenode whose parentid parseInt reads as NaN |
| LegacyOverlay.RefreshNodesChildren | httpdocs/widgets/overlay.js:1004-1020 | c is a child of p exactly when edges are shown and a treenode record c names p, a loaded node, as its parent |
| LegacyOverlay.RefreshNodesParentLoaded | httpdocs/widgets/overlay.js:1012-1019 | a node gets a parent only when edges are shown and the parent is loaded |
| LegacyOverlay.RefreshNodesGroups | httpdocs/widgets/overlay.js:1021-1052 | t is in a connector's pre (post) group exactly when edges are shown, the connector's record lists t on that side, and t is loaded |
| LegacyOverlay.RefreshNodesConnectors | httpdocs/widgets/overlay.js:1026-1052 | treenode k records connector c exactly when edges are shown and c's record lists k as pre- or postsynaptic |
| LegacyOverlay.LinkAllFacts | httpdocs/widgets/overlay.js:1006-1054 | the linking pass only adds children, group members and connectors named by some record and already loaded; nothing else of a node changes |
| LegacyOverlay.NewLArea | httpdocs/widgets/overlay_area.js:147-202 | an area keeps its id, coordinate arrays and the fifth argument as its vertex-dot radius; it has no section of its own and starts in sync |
| LegacyOverlay.RefreshAreasAsWritten | httpdocs/widgets/overlay.js:915-953 | as written, every area is built on the same two scaled-coordinate arrays, reused across records, and no area has a section |
| LegacyOverlay.RefreshAreasSharesVertices | httpdocs/widgets/overlay.js:917-944 | with two area records the first area ends up with the second's vertices |
| LegacyOverlay.RefreshAreasKeepsLeftovers | httpdocs/widgets/overlay.js:931-939 | a record with fewer vertices than an earlier one keeps the earlier one's extra vertices |
| LegacyOverlay.RefreshAreas | httpdocs/widgets/overlay.js:915-953 | every area has its own record's coordinates times the scale; as the constructor call is written, the record's z becomes the vertex-dot radius and the area has no section; the area whose id equals the previously active area's is activated again and every other one is deactivated |
| LegacyOverlay.RefreshAreasWithSections | httpdocs/widgets/overlay.js:915-953 | corrected: every area has its own record's coordinates times the scale, its record's z as its section and the overlay's dot radius 4 |
| LegacyOverlay.RefreshedAreaLosesSection | httpdocs/widgets/overlay.js:941 | an area record in section 5 gives an area of radius 5 with no section, which once edited is sent with z undefined and lbound "(1,1,)" |
| LegacyOverlay.ReactivatedArea | httpdocs/widgets/overlay.js:920-950 | the active area after the refresh is the previous one exactly when its id is among the records; with no previous area only an area with id -1 would be activated |
| LegacyOverlay.RefreshAreasVertexCount | httpdocs/widgets/overlay.js:931-939 | with distinct ids each area has exactly as many vertices as its record |
| LegacyOverlay.PartitionAnnotations | httpdocs/widgets/overlay.js:898-904 | the records are split into those of type "area" and all others, each record in exactly one part |
| LegacyOverlay.NodeIdsFromAnnotations | httpdocs/widgets/overlay.js:898-904 | every id among the non-area records' ids belongs to a node record of the response |
| LegacyOverlay.AreaIdsFromAnnotations | httpdocs/widgets/overlay.js:898-904 | every id among the area records' ids belongs to an area record of the response |
| LegacyOverlay.RefreshAnnotations | httpdocs/widgets/overlay.js:892-913 | nodes and areas are rebuilt from scratch: the new cache holds only ids of the response's node and area records |
| LegacyOverlay.MinBound | httpdocs/widgets/overlay.js:665-679 | the lower bound starts at Infinity and ends at the least vertex coordinate, Infinity exactly for no vertex |
| LegacyOverlay.MaxBound | httpdocs/widgets/overlay.js:666-681 | the upper bound starts at -Infinity and ends at the greatest vertex coordinate |
| LegacyOverlay.Unscaled | httpdocs/widgets/overlay.js:670-671 | each coordinate divided by the scale: times the scale it gives back the screen coordinate |
| LegacyOverlay.BoundTripleEnds | httpdocs/widgets/overlay.js:665-693 | a bound text ends with "," and the joined section and ")"; with the section undefined it ends with ",)" |
| LegacyOverlay.AreaFields | httpdocs/widgets/overlay.js:659-694 | a dirty area is sent as area_id, polygon, z, lbound and ubound in that order; z is the area's section, or the queue's text for undefined when the area has none; both bounds end with the joined section, so an area without one sends "(min x,min y,)" |
| LegacyOverlay.DirtyAreaRecordsMeans | httpdocs/widgets/overlay.js:657-697 | a record is sent exactly for each area that needs sync, and none when no area does |
| LegacyOverlay.UpdateAreasInDB | httpdocs/widgets/overlay.js:654-701 | every area's needsync is cleared and nothing else changes; no request is made exactly when no area was dirty; a request carries the fields of exactly the dirty areas |
| LegacyOverlay.Suffixed | httpdocs/widgets/overlay.js:711-715 | every field name k of record i becomes k + i, its value unchanged |
| LegacyOverlay.FlattenFromContents | httpdocs/widgets/overlay.js:705-717 | the flattened request holds exactly 'pid' + i and k + i for every field k of every record i |
| LegacyOverlay.FlattenFromLength | httpdocs/widgets/overlay.js:813-825 | the flattened request has one entry per field plus one pid per record |
| LegacyOverlay.NodeFields | httpdocs/widgets/overlay.js:859-865 | a dirty node is sent as node_id, physical x, y, z and its type name |
| LegacyOverlay.DirtyNodeRecordsMeans | httpdocs/widgets/overlay.js:848-868 | a record is sent exactly for each node that needs sync |
| LegacyOverlay.UpdateNodeCoordinatesInDB | httpdocs/widgets/overlay.js:846-876 | every needsync is cleared and nothing else changes; with no dirty node no request is made and the callback gets 0 right away; otherwise the request carries exactly the dirty nodes' fields |
| TracingOverlay.AtnSet | django/applications/catmaid/static/js/widgets/overlay.js:68-110 | setting no node clears every field and always reports a change; setting a node copies its fields with the parent's id and reports a change exactly when one of the eight compared fields differs |
| TracingOverlay.AtnSetRepeat | django/applications/catmaid/static/js/widgets/overlay.js:74-90 | setting the same node twice reports a second change exactly when the node's parent id differs from its parent_id field, because the comparison reads parent_id while the assignment reads node.parent |
| TracingOverlay.Insert | django/applications/catmaid/static/js/widgets/overlay.js:1236-1265 | after inserting the new Node and ConnectorNode instances the map's keys are the old keys plus the inserted ids, and every value is either an old one or one of the new nodes |
| TracingOverlay.InsertContents | django/applications/catmaid/static/js/widgets/overlay.js:1244-1265 | a key not re-inserted keeps its node; an id inserted more than once holds the last node with that id |
| TracingOverlay.LinkParentsChildren | django/applications/catmaid/static/js/widgets/overlay.js:1272-1298 | after the parent passes, c is a child of k exactly when it was before or some link names k as c's parent and is applied |
| TracingOverlay.LinkParentsParent | django/applications/catmaid/static/js/widgets/overlay.js:1272-1298 | a node named by no link keeps its parent; a node named by one link gets that parent when the link is applied and keeps its own otherwise |
| TracingOverlay.AddGroupsGroup | django/applications/catmaid/static/js/widgets/overlay.js:1302-1338 | after the relation passes, treenode t is in connector k's pre-, post- or gap-junction group exactly when it was already or t is loaded and some row for k lists t under that relation |
| TracingOverlay.RefreshNodes | django/applications/catmaid/static/js/widgets/overlay.js:1233-1338 | the refreshed node map holds exactly the ids of the treenode and connector rows |
| TracingOverlay.RefreshGroups | django/applications/catmaid/static/js/widgets/overlay.js:1302-1338 | a refreshed connector's group holds exactly the loaded treenodes its rows list for that relation; unloaded treenodes are skipped |
| TracingOverlay.RefreshChildren | django/applications/catmaid/static/js/widgets/overlay.js:1272-1298 | c is a child of p exactly when a treenode row names p as c's parent, or a connector row does and one of the two lies on the current section |
| TracingOverlay.RefreshParent | django/applications/catmaid/static/js/widgets/overlay.js:1244-1281 | a treenode's parent is the row's parent when that parent was loaded and none otherwise, and the node is a root exactly when its row has no parent |
| TracingOverlay.Classify | django/applications/catmaid/static/js/widgets/overlay.js:465-478 | scanning the loaded keys, a connector goes to pre when t is in its pregroup, else to post when in its postgroup, else to gj when in its gjgroup |
| TracingOverlay.FindConnectors | django/applications/catmaid/static/js/widgets/overlay.js:461-480 | the three lists hold exactly the loaded connectors where t is presynaptic, postsynaptic (and not pre), gap-junction (and neither), each in ascending id order |
| TracingOverlay.FindConnectorsDisjoint | django/applications/catmaid/static/js/widgets/overlay.js:469-475 | the if/else-if chain puts a connector in at most one of the three lists |
| TracingOverlay.CheckLoadedAndIsNotRoot | django/applications/catmaid/static/js/widgets/overlay.js:740-750 | the check passes exactly for a loaded, non-root node; a null or unloaded id is reported as not found |
| TracingOverlay.RerootAfterRefresh | django/applications/catmaid/static/js/widgets/overlay.js:740-750 | after a refresh a loaded treenode passes the check exactly when its row has a parent |
| TracingOverlay.PresynapticCheck | django/applications/catmaid/static/js/widgets/overlay.js:963-977 | a presynaptic treenode may be created exactly when the connector is loaded and has no presynaptic node |
| TracingOverlay.GapJunctionCheck | django/applications/catmaid/static/js/widgets/overlay.js:979-997 | a gap-junction treenode may be created exactly when the connector is loaded, has at most one gap-junction node and no pre- or postsynaptic node |
| TracingOverlay.ChecksKeepSynapseShape | django/applications/catmaid/static/js/widgets/overlay.js:963-997 | a connector that passes a check and gets the new link then has exactly one presynaptic node, or at most two gap-junction nodes and no synapse |
| TracingOverlay.DirtyOfType | django/applications/catmaid/static/js/widgets/overlay.js:1198-1210 | the list for a node type holds exactly the positions of the nodes of that type that need a sync |
| TracingOverlay.DirtyListsEmpty | django/applications/catmaid/static/js/widgets/overlay.js:1211-1224 | both update lists are empty exactly when no node needs a sync |
| TracingOverlay.DirtyOfTypeLists | django/applications/catmaid/static/js/widgets/overlay.js:1198-1210 | the list built over all loaded keys lists exactly the dirty nodes of that type |
| TracingOverlay.UpdateNodeCoordinates | django/applications/catmaid/static/js/widgets/overlay.js:1195-1225 | every needsync flag is cleared and nothing else changes; a request is sent exactly when some node was dirty and carries the dirty treenodes and connectors; otherwise the callback gets 0 at once |
| TracingOverlay.FlushTwice | django/applications/catmaid/static/js/widgets/overlay.js:1203-1211 | a second flush right after the first sends nothing |
| TracingOverlay.Redraw | django/applications/catmaid/static/js/widgets/overlay.js:1400-1441 | the nodes are kept exactly when the section and scale are unchanged and the view moved less than PAD screen pixels on each axis; otherwise they are fetched again |
| TracingOverlay.RedrawInPlace | django/applications/catmaid/static/js/widgets/overlay.js:1400-1412 | a redraw that does not move the view keeps the nodes |
| TracingOverlay.WhenClicked | django/applications/catmaid/static/js/widgets/overlay.js:1450-1585 | an unfocused overlay only stops the event; a click on another view passes on; ctrl or meta only deactivate or insert into the active skeleton; each action requires the modifiers and active node type the dispatch tests |
| TracingOverlay.PlainSkeletonClick | django/applications/catmaid/static/js/widgets/overlay.js:1549-1577 | an unmodified click in skeleton mode creates a child of the active treenode (or a root), or for an active loaded connector a presynaptic treenode, a gap-junction one when it already has gap junctions |
| TracingOverlay.DeleteNode | django/applications/catmaid/static/js/widgets/overlay.js:2281-2303 | deletion is refused exactly for an unloaded node or without edit permission; otherwise the loaded node is deleted and it is noted whether it was active |
| TracingOverlay.AfterDeleteByLists | django/applications/catmaid/static/js/widgets/overlay.js:2363-2381 | after deleting the active root treenode the first connector it was postsynaptic to is selected, else presynaptic, else gap-junction, else nothing |
| TracingOverlay.AfterDeleteTreenode | django/applications/catmaid/static/js/widgets/overlay.js:2363-2381 | nothing is selected exactly when the treenode was linked to no loaded connector; a selected node is a connector, and a postsynaptic link wins, the lowest such connector id being chosen |
| TracingOverlay.AfterDeleteConnector | django/applications/catmaid/static/js/widgets/overlay.js:2319-2347 | after deleting a connector its lowest presynaptic treenode is selected, else postsynaptic, else gap-junction, and nothing exactly when it had no links |
| TracingOverlay.BranchIndex | django/applications/catmaid/static/js/widgets/overlay.js:1771-1773 | the index is that of the first branch holding the node, or -1 when none does |
| TracingOverlay.CycleThroughBranches | django/applications/catmaid/static/js/widgets/overlay.js:1768-1783 | the node chosen is at node_index in the branch after the current one, wrapping round; nothing happens without branches or when that index is outside the branch |
| TracingOverlay.CycleMovesToNextBranch | django/applications/catmaid/static/js/widgets/overlay.js:1771-1781 | from a node of branch k the next branch's node is selected, and from the last branch the first one |
| TracingOverlay.AnnotationSet | django/applications/catmaid/static/js/widgets/overlay.js:2974-2988 | the set holds exactly the annotations of the checked boxes, each with the parseInt of the last checked box's annotator |
| TracingOverlay.CombinedAnnotationSet | django/applications/catmaid/static/js/widgets/overlay.js:2998-3012 | the combined set holds the keys of both; an annotation in the over set keeps its over annotator, the rest take the under one |
| TracingOverlay.CheckSplitAnnotations | django/applications/catmaid/static/js/widgets/overlay.js:3020-3039 | a split is valid exactly when every over checkbox or every under checkbox is checked |
| TracingOverlay.FullOverSetAllowsSplit | django/applications/catmaid/static/js/widgets/overlay.js:2974-3030 | keeping every over annotation allows the split, and every over annotation is then in the over set |
| AreaUpdate.TrailingDigits | httpdocs/model/area.update.php:21 | the count is that of the whole run of digits ending the key: those characters are digits and the one before them is not |
| AreaUpdate.SplitKeyAsWrittenIsGreedy | httpdocs/model/area.update.php:21-23 | the greedy pattern matches exactly the keys that have some split into a word part and a digit part, and its field part is the longest of those splits |
| AreaUpdate.SplitKeyIsLazy | httpdocs/model/area.update.php:21-23 | the lazy split matches the same keys, is itself a split, and its index is the longest digit part of any split |
| AreaUpdate.SplitKeyRoundTrip | httpdocs/model/area.update.php:21-23 | a field name followed by a decimal index splits back into that name and that index |
| AreaUpdate.SplitKeyAsWrittenSmall | httpdocs/model/area.update.php:21-23 | the greedy split still reads back a field name followed by a single-digit index |
| AreaUpdate.SplitKeyAsWrittenTwelve | httpdocs/model/area.update.php:21-23 | area_id12 splits as written into area_id1 and 2, and lazily into area_id and 12 |
| AreaUpdate.GroupFrom | httpdocs/model/area.update.php:20-29 | grouping keys by their index keeps the group indices distinct |
| AreaUpdate.FirstMissing | httpdocs/model/area.update.php:36-41 | no key is reported exactly when the group has every required key; a reported key is required and absent |
| AreaUpdate.Process | httpdocs/model/area.update.php:33-61 | the groups are written in order while they are complete and have a nonzero project; the count is reported exactly when all were written; otherwise the first failing group's missing key or invalid project ends the request after the earlier writes |
| AreaUpdate.ProcessAllOk | httpdocs/model/area.update.php:35-61 | when every group is valid each is written and the count equals the number of groups, whatever index an error would have named |
| AreaUpdate.AreaUpdateAsWritten | httpdocs/model/area.update.php:12-16 | a request without a valid session is refused before anything is written |
| AreaUpdate.AreaUpdate | httpdocs/model/area.update.php:12-16 | the corrected endpoint refuses a request without a valid session in the same way |
| AreaUpdate.WriteFirstPrefix | httpdocs/model/area.update.php:49-58 | writing a valid first group before the rest keeps the written updates a prefix of the groups, in order |
| AreaUpdate.WriteFirstWrites | httpdocs/model/area.update.php:49-58 | every written update is the converted row of the group at the same position |
| AreaUpdate.AreaUpdateRoundTrip | httpdocs/model/area.update.php:20-61 | the request the legacy overlay builds from area records is read back by the corrected endpoint as one update per record, in order, and the count of records |
| AreaUpdate.ExpectedGroupsAllOk | httpdocs/model/area.update.php:31-53 | each group built from an area record has every required key and converts to that record's row update |
| AreaUpdate.DirtyRecordsWritten | httpdocs/model/area.update.php:35-58 | every update written from the overlay's records is for an area that needed a sync |
| AreaUpdate.UndefinedSectionReadsZero | httpdocs/model/area.update.php:50 | floatval reads an undefined z, sent as "" or as "undefined", as 0 |
| AreaUpdate.UnsectionedAreaWritesUndefined | httpdocs/model/area.update.php:50-55 | an area without a section is written with the z floatval reads from the text sent for undefined |
| AreaUpdate.RefreshedAreaStoredAtSectionZero | httpdocs/model/area.update.php:50-55 | as written, an area that refreshAreas built and that is then edited and flushed is written in section 0, since the undefined z reads as 0 |
| AreaUpdate.RefreshedSectionWritten | httpdocs/model/area.update.php:50-55 | corrected: an area refreshed with its section and then flushed is written in its record's section |
| AreaUpdate.OverlayFlushWritesEveryDirtyArea | httpdocs/model/area.update.php:35-61 | whenever the overlay flushes, the flush is written in full and every written id belongs to a dirty area |
| AreaUpdate.AreaUpdateAsWrittenUpToTen | httpdocs/model/area.update.php:20-29 | with at most ten areas the greedy split gives the same result as the corrected one |
| AreaUpdate.AreaUpdateAsWrittenAtMostTen | httpdocs/model/area.update.php:20-58 | as written the endpoint never reports more than ten updated areas, since an index is a single digit |
| AreaUpdate.ElevenAreasLoseOne | httpdocs/model/area.update.php:20-58 | eleven areas are all written by the corrected endpoint but not by the endpoint as written |
| AreaUpdate.MissingKeyNamesWrongIndex | httpdocs/model/area.update.php:35-41 | as written a missing-key error names the index of the last request key, not the group's; the corrected endpoint names the group |
| AreaUpdate.PidKeysSplit | httpdocs/model/area.update.php:21-23 | pid0 and pid1 split into pid and their digit under both splits |
| AreaUpdate.TwoPidGroups | httpdocs/model/area.update.php:20-29 | two pid-only keys become two groups in request order |
| AreaList.QueryOf | httpdocs/model/area.list.php:12-20 | the project id is the intval of pid and 0 when it is absent; an absent z or zres reads as 0 |
| AreaList.Matching | httpdocs/model/area.list.php:36-51 | the selected rows are exactly the table's rows of the project whose bounds meet the view box and whose lower z bound lies within one z resolution of the section |
| AreaList.Coordinates | httpdocs/model/area.list.php:63-68 | the tokens alternate x and y; a missing final y reads as 0 |
| AreaList.ParsePolygon | httpdocs/model/area.list.php:57-72 | a polygon text without tokens gives no x and y arrays; otherwise both arrays have half the token count, rounded up |
| AreaList.ListRow | httpdocs/model/area.list.php:37-70 | a listed area keeps the row's id, z, polygon and user, has type area, its z difference to the section, and the parsed coordinates |
| AreaList.ListRows | httpdocs/model/area.list.php:57-73 | each row is listed in order |
| AreaList.List | httpdocs/model/area.list.php:27-83 | no project gives the project-closed error; a project without a valid session gives the not-logged-in error; otherwise at most 400 rows are listed, each typed, with its z difference and parsed coordinates |
| AreaList.ListSelects | httpdocs/model/area.list.php:36-76 | every listed area comes from a matching row, and when no more than 400 match, every matching row is listed |
| AreaList.Interleave | httpdocs/model/area.list.php:61-68 | interleaving n x and n y values gives 2n tokens |
| AreaList.PairTokens | httpdocs/model/area.list.php:61-67 | the text of one point, (a,b), tokenises to a and b followed by the tokens of the rest |
| AreaList.TokensPointList | httpdocs/model/area.list.php:61-68 | the point list the legacy overlay writes tokenises to its coordinates interleaved |
| AreaList.CoordinatesOfInterleave | httpdocs/model/area.list.php:63-68 | reading interleaved tokens back gives the original x and y values |
| AreaList.PolygonParsesBack | httpdocs/model/area.list.php:57-72 | a polygon text written by the legacy overlay parses back to its own x and y arrays |
| AreaList.EmptyPolygonIsNull | httpdocs/model/area.list.php:61-71 | a polygon text made only of delimiters gives null coordinates |
| AreaCreate.NewRow | httpdocs/model/area.create.php:96-103 | the new row belongs to the user and project, stores z, a one-point polygon of (x, y), and equal lower and upper bounds |
| AreaCreate.Create | httpdocs/model/area.create.php:13-126 | no project gives the project-closed error; no session gives the not-logged-in error; a row is inserted and its id returned exactly when the transaction begins, the insert returns an id and the commit succeeds |
| AreaCreate.CreatedAreaListsBack | httpdocs/model/area.create.php:96-112 | a created area is listed by a query exactly when the query's box and z window contain its point, and it lists back with its own id and one-point coordinates |
| PgTools.PgDoubleArray | inc/tools.inc.php:75-85 | the result has one number per comma-separated piece of the text with its braces removed, so never fewer than one |
| PgTools.PgIntegerArray | inc/tools.inc.php:92-102 | the result has one integer per comma-separated piece, never fewer than one |
| PgTools.PgArrayRoundTrip | inc/tools.inc.php:75-102 | the text Postgres gives for a non-empty integer array reads back as the same integers, and as the same values in the double reader |
| PgTools.EmptyArrayReadsZero | inc/tools.inc.php:77-99 | the empty array {} reads as one zero, not as an empty array |
| PgTools.DoubleArrayExample | inc/tools.inc.php:75-85 | {1.5,2} reads as 1.5 and 2 |
| PgTools.TvNodeAsWritten | inc/tools.inc.php:15-68 | the node text as written is enclosed in braces |
| PgTools.TvNodeText | inc/tools.inc.php:15-68 | the corrected node text is enclosed in braces |
| PgTools.TvNodeIsJson | inc/tools.inc.php:15-68 | the corrected text of a titled node is its JSON object: data, then attr, state and children members each after a comma, children separated by commas |
| PgTools.ChildlessAgree | inc/tools.inc.php:15-64 | without children the text as written and the corrected text agree |
| PgTools.ChildrenKeyMisquoted | inc/tools.inc.php:56 | with children, the character after the head is a quote as written where JSON needs a comma, so the text is not the JSON object |
| PgTools.ChildrenRunTogether | inc/tools.inc.php:58-60 | as written the children's texts follow each other with no separator |
| PgTools.ChildrenSeparated | inc/tools.inc.php:58-60 | in the corrected text a comma separates each child from the next |
| Segment.PyInt | django/applications/catmaid/control/segment.py:29-32 | a string Python's int accepts is non-blank once its whitespace is trimmed |
| Segment.PyIntOfIntToString | django/applications/catmaid/control/segment.py:29-32 | int reads back the decimal text of any integer |
| Segment.SlicePath | django/applications/catmaid/control/segment.py:125-147 | a path is made exactly when the node id has two parts around one underscore and the slice part is not empty; otherwise the unpacking fails |
| Segment.SlicePathLayout | django/applications/catmaid/control/segment.py:125-147 | a path is the base without trailing newlines, the section, one directory per leading digit of the slice id, then the last digit with the extension |
| Segment.SliceTailSpellsId | django/applications/catmaid/control/segment.py:127-134 | removing the slashes from the part after the section gives back the slice id, a dot and the extension |
| Segment.SegmentVote | django/applications/catmaid/control/segment.py:20-63 | a vote is saved exactly when the user is logged in, the project, stack and segment exist, every posted integer parses, the key is not -1 and the vote is 1, 2 or 3; a comment is saved with it exactly when one is posted and non-empty |
| Segment.MissingKeyRejectedFirst | django/applications/catmaid/control/segment.py:29-37 | a missing segment key is rejected before the segment is looked up |
| Segment.SliceNodeIds | django/applications/catmaid/control/segment.py:166-177 | a type-2 segment lists its origin slice and first target slice, a type-3 segment also the second target slice, any other type only the origin |
| Segment.SliceSections | django/applications/catmaid/control/segment.py:167-176 | there is one section per listed slice node id |
| Segment.NodeIdSplits | django/applications/catmaid/control/segment.py:126-174 | a node id splits at its underscore into the section's and slice id's decimal texts |
| Segment.SliceNodeIdsOfSections | django/applications/catmaid/control/segment.py:166-177 | each listed node id's first part reads back as the section listed at the same position |
| Segment.TotalBox | django/applications/catmaid/control/segment.py:187-212 | the total box contains every slice and is tight: each of its four sides is the side of some slice; width and height are its extents |
| Segment.SliceBoxes | django/applications/catmaid/control/segment.py:188-206 | every slice gets its own box with its slice path, in order, and the result fails exactly when some slice's path cannot be made |
| Segment.BoxQuery | django/applications/catmaid/control/segment.py:159-162 | the query is read exactly when int() accepts the origin section, the target section and the edge (each '0' when absent); the segment id stays text, '0' when absent |
| Segment.SegmentBoundingBox | django/applications/catmaid/control/segment.py:149-221 | without a login the view refuses; a missing project or stack gives 404; with slice info present, a value int() rejects fails before any segment lookup; an answer comes exactly when the segment the parsed query finds exists, some slice is returned and every slice path can be made; it lists the first slice as origin, the rest as targets, a total box holding every slice with each bound attained, and the stack's tile width and height |
| Venn.Clear | django/applications/catmaid/static/widgets/venn_diagram.js:29-34 | clearing leaves no groups and no selection |
| Venn.SkeletonModels | django/applications/catmaid/static/widgets/venn_diagram.js:36-43 | every skeleton offered belongs to some group |
| Venn.SkeletonModelsLastWins | django/applications/catmaid/static/widgets/venn_diagram.js:36-43 | a skeleton is offered exactly when some group holds it, and its model is that of the last group holding it |
| Venn.ClearOffersNothing | django/applications/catmaid/static/widgets/venn_diagram.js:29-43 | after clearing no skeleton is offered |
| Venn.Visible | django/applications/catmaid/static/widgets/venn_diagram.js:57-61 | the visible models are exactly the selected ones, unchanged |
| Venn.Append | django/applications/catmaid/static/widgets/venn_diagram.js:56-93 | nothing happens when no model is selected or the name is empty; otherwise one group of the visible models, with the trimmed name and the colour, is added at the end and the earlier groups are kept |
| Venn.BlankNameAccepted | django/applications/catmaid/static/widgets/venn_diagram.js:84-85 | a name of spaces passes the check and is stored as the empty name after trimming |
| Venn.AppendOffers | django/applications/catmaid/static/widgets/venn_diagram.js:36-43 | after appending, the skeletons offered are the earlier ones overridden by the new group's visible models |
| Venn.Sets | django/applications/catmaid/static/widgets/venn_diagram.js:100-103 | there is one set per group, sized by its number of skeletons |
| Venn.SetLabelReadsBack | django/applications/catmaid/static/widgets/venn_diagram.js:101 | a set's label starts with the group's name, then " (", and the rest reads back as the group's size |
| Venn.AllPairs | django/applications/catmaid/static/widgets/venn_diagram.js:112-123 | the nested loop visits k(2n-k-1)/2 pairs before row k, so n(n-1)/2 in all |
| Venn.Overlaps | django/applications/catmaid/static/widgets/venn_diagram.js:110-123 | there is one overlap for every pair k < j of groups, in ascending pair order, each sized by the number of skeletons the two groups share |
| Venn.OverlapsOf | django/applications/catmaid/static/widgets/venn_diagram.js:112-123 | the inner loop for row k adds the overlaps of k with every later group, keeping the order and the counts |
| Venn.AddOverlap | django/applications/catmaid/static/widgets/venn_diagram.js:116-121 | one push appends the pair's overlap, keeps the pair order and keeps every pair already listed |
| Venn.OverlapWithinSets | django/applications/catmaid/static/widgets/venn_diagram.js:100-121 | no overlap is larger than either of its two sets |
| WebGLSpace.GetTagGeometry | django/applications/catmaid/static/js/webglapp.js:1224-1241 | a cached tag's geometry is returned with one more reference; a tag the cache object only inherits, such as "toString", yields undefined and leaves the cache as it is; any other tag gets a new geometry for its text with one reference; other tags are untouched |
| WebGLSpace.ReleaseTagGeometry | django/applications/catmaid/static/js/webglapp.js:1243-1252 | releasing an unknown or inherited tag changes nothing; releasing drops one reference and removes the entry when none is left; other tags are untouched |
| WebGLSpace.CacheStaysLive | django/applications/catmaid/static/js/webglapp.js:1224-1252 | every cached entry keeps at least one reference through gets and releases |
| WebGLSpace.ReleaseUndoesGet | django/applications/catmaid/static/js/webglapp.js:1224-1252 | releasing a tag right after getting it restores the cache |
| WebGLSpace.ToSpace | django/applications/catmaid/static/js/webglapp.js:1104-1108 | x is kept, y is mirrored about the y dimension and z is negated |
| WebGLSpace.ToSpaceInvolution | django/applications/catmaid/static/js/webglapp.js:1104-1108 | applying the transform twice gives back the point |
| WebGLSpace.FlipAt | django/applications/catmaid/static/js/webglapp.js:1116-1120 | the three values from i are transformed as one point and every other value is kept |
| WebGLSpace.FlipAtInvolution | django/applications/catmaid/static/js/webglapp.js:1116-1120 | flipping the same point twice gives back the vertex array |
| WebGLSpace.CatalogLayout | django/applications/catmaid/static/js/webglapp.js:1894-1901 | the layout has at least one column and just enough rows for n views |
| WebGLSpace.ViewInCell | django/applications/catmaid/static/js/webglapp.js:1972-1975 | view i is placed at its column and row cell, inside the cell's padding |
| WebGLSpace.ViewsInsideCanvas | django/applications/catmaid/static/js/webglapp.js:1958-1975 | every view with its padding lies inside the canvas margins |
| WebGLSpace.ViewsApart | django/applications/catmaid/static/js/webglapp.js:1972-1975 | two different views with their padding do not overlap |
| WebGLSpace.StoreCurrentView | django/applications/catmaid/static/js/webglapp.js:721-746 | an empty name asks for one; a name the views object has or inherits (such as "toString") is refused and nothing changes; otherwise the current view is stored under the new name |
| WebGLSpace.ActivateView | django/applications/catmaid/static/js/webglapp.js:761-769 | an unknown name leaves the camera as it is; an inherited name passes the check but setView fails on it, leaving the camera as it is; a stored name sets the stored view |
| WebGLSpace.StoreThenActivate | django/applications/catmaid/static/js/webglapp.js:721-769 | a view is stored exactly for a nonempty name neither present nor inherited; a stored view is activated back as stored, and storing again under that name changes nothing |
| WebGLSynapses.Pairs | django/applications/catmaid/static/js/webglapp.js:2593-2613 | the vertex list is read two at a time as (connector, treenode) pairs |
| WebGLSynapses.Treenodes | django/applications/catmaid/static/js/webglapp.js:2594-2613 | the treenode of each pair, in order |
| WebGLSynapses.TallyCounts | django/applications/catmaid/static/js/webglapp.js:2593-2598 | tallying adds each id's number of occurrences to its count, and an id is present exactly when it was or occurs |
| WebGLSynapses.SynapseCountsCount | django/applications/catmaid/static/js/webglapp.js:2590-2601 | a treenode's count is its number of synapses over all synaptic types, and only treenodes with synapses have one |
| WebGLSynapses.TypeCounts | django/applications/catmaid/static/js/webglapp.js:2610-2617 | a treenode's count for one type is its number of synapses of that type |
| WebGLSynapses.PrePostCounts | django/applications/catmaid/static/js/webglapp.js:2608-2622 | for each type the map counts the synapses per treenode and the total is half the vertex count |
| WebGLSynapses.CountsAddUp | django/applications/catmaid/static/js/webglapp.js:2590-2622 | a treenode's synapse count is the sum of its per-type counts |
| WebGLSynapses.InverseListsConnector | django/applications/catmaid/static/js/webglapp.js:2644-2659 | as written, the second synapse at a connector adds the connector's own id to its list instead of the treenode's |
| WebGLSynapses.InvertCollects | django/applications/catmaid/static/js/webglapp.js:2647-2656 | inverting adds to each connector's list the treenodes paired with it, in order |
| WebGLSynapses.InverseSynapseMapCollects | django/applications/catmaid/static/js/webglapp.js:2644-2659 | in the corrected map a connector is a key exactly when some synapse uses it, and its list holds the treenodes paired with it, in order |
| WebGLSynapses.AddHolder | django/applications/catmaid/static/js/webglapp.js:825-831 | each connector of a skeleton's vertices gets that skeleton added to its holder set; other entries are kept |
| WebGLSynapses.HolderCountsMember | django/applications/catmaid/static/js/webglapp.js:821-834 | among the visible skeletons tallied, a skeleton holds a connector exactly when one of its synapses is at that connector |
| WebGLSynapses.RestrictedConnectors | django/applications/catmaid/static/js/webglapp.js:813-858 | nothing happens when the connector filter is off; otherwise every skeleton's selection is cleared and only the visible ones get a new one |
| WebGLSynapses.CommonConnectors | django/applications/catmaid/static/js/webglapp.js:836-841 | a connector is common exactly when at least two visible skeletons hold it |
| IlastikLayer.RowsAt | django/applications/catmaid/static/layers/ilastik_layer.js:69-70 | the rows picked for a section all lie on it, and there are no more of them than rows |
| IlastikLayer.BucketCollects | django/applications/catmaid/static/layers/ilastik_layer.js:11-19 | the reduce adds to each section's list the rows of that section, in order, and makes a list exactly for the sections that occur |
| IlastikLayer.BucketsBySection | django/applications/catmaid/static/layers/ilastik_layer.js:11-19 | a section has a list exactly when some row lies on it, and the list holds exactly its rows in input order |
| IlastikLayer.InRowsAt | django/applications/catmaid/static/layers/ilastik_layer.js:11-19 | a row is picked for a section exactly when it is one of the rows and lies on that section |
| IlastikLayer.RowInOneBucket | django/applications/catmaid/static/layers/ilastik_layer.js:11-19 | each row is in its own section's list and in no other |
| IlastikLayer.Redraw | django/applications/catmaid/static/layers/ilastik_layer.js:59-97 | the paper is cleared, there is one mark per row of the current section, and the callback runs exactly when given |
| IlastikLayer.RedrawMarksSection | django/applications/catmaid/static/layers/ilastik_layer.js:59-92 | the layer marks exactly the rows of the stack's section, in order, each at its screen position, and nothing when no row lies on it |
| UserCreate.SameNameTaken | httpdocs/model/user.create.php:46 | an existing user name is always reported as taken |
| UserCreate.LeadingZeroTaken | httpdocs/model/user.create.php:46 | the loose comparison takes 01 to be the existing name 1 |
| UserCreate.DecimalTaken | httpdocs/model/user.create.php:46 | the loose comparison takes 1.0 to be the existing name 1 |
| UserCreate.ExponentTaken | httpdocs/model/user.create.php:46 | the loose comparison takes 1e2 to be the existing name 100 |
| UserCreate.TextNameTakenIffPresent | httpdocs/model/user.create.php:46 | a name that is not a numeric string is refused exactly when it is already in the list |
| UserCreate.LinkAsWritten | httpdocs/model/user.create.php:57-65 | each project gets one link of the new user, in order |
| UserCreate.LinkFailureNamesNoProject | httpdocs/model/user.create.php:63 | as written every failed link prints the same text, so the output does not say which project failed |
| UserCreate.Link | httpdocs/model/user.create.php:57-65 | the corrected loop also links each project once, in order |
| UserCreate.LinkNamesFailures | httpdocs/model/user.create.php:57-65 | the corrected complaints name exactly the projects whose link failed, in order |
| UserCreate.LinkFailedNamesProject | httpdocs/model/user.create.php:63 | the project id reads back from a corrected complaint |
| UserCreate.Create | httpdocs/model/user.create.php:17-79 | a user is inserted exactly when all five fields are set, the passwords match, the password has five characters or more and the name is not taken; it then gets the md5 hash and every project link and ends with the notice; each error message is printed exactly in its case |
| UserCreate.CreateDiffersOnlyInComplaints | httpdocs/model/user.create.php:52-66 | the corrected endpoint inserts the same user and the same links; when nothing is inserted its output is the same as written |
| UserCreate.LinksAgree | httpdocs/model/user.create.php:57-65 | the two loops make the same links |
| UserCreate.EmailAloneSilent | httpdocs/model/user.create.php:72-79 | a post with only the e-mail field prints nothing |

## Left out

- Drawing is left out. That covers the DOM, SVG, Raphael, PIXI and THREE objects, dialogs, tag boxes, growl messages and colours. Where it matters, drawing is reduced to what is drawn and where: shown or hidden cells, marks, path strings.
- Mouse and keyboard wiring is left out: the navigator, the selector, the overview and the 3D viewer's mouse controls and ray casting. They are event handlers that call operations modelled here, such as `moveToPixel`.
- Asynchronous behaviour is left out: request queues, out-of-order replies, the 3000 ms buffer-swap timeout and the 100 ms debounce. A reply or a timer firing is an explicit input. The model does not say which orders of events can happen.
- Floating-point behaviour is left out:
  - rounding at tile seams;
  - fractional digital zoom;
  - shading and camera fitting;
  - distance searches;
  - the physical/pixel conversions;
  - how numbers are printed.

  Positions and scales are exact reals or integers. Where a number is printed, the printing function is a parameter, or only integers are printed.
- Parsing numbers is limited. PHP's `floatval` and `intval` and JavaScript's `parseInt` read an optional sign and digits, plus a fraction for `floatval`. Exponents and hexadecimal are not read.
- Strings are handled as characters, not bytes. `trim` removes ASCII white space only, and PHP's `strlen` counts characters.
- Databases and the ORM are left out. The PHP endpoints and `segment.py` take database answers as arguments: the existing users, the project ids, inserted ids, whether a commit succeeds, and the segment and slice rows. The SQL queries themselves are not modelled. That includes area.list.php's bounding query with its `ORDER BY`: the rows are taken in the order given.
- PHP request parsing is simplified:
  - `$_REQUEST` is a sequence of key/value pairs, or a map;
  - the session is the user id, with 0 meaning no session;
  - PHP's conversion of numeric array keys to integers is not modelled.
- area.list.php's `strtok` delimiters come from a single-quoted `'\t'`, so they are the backslash and the letter t, not a tab. The model uses exactly those characters.
- area.create.php:
  - `emitErrorAndExit` is taken to end the request after a rollback, because httpdocs/model/utils.php is not part of this model;
  - the else branch at lines 120-122 cannot run and has no counterpart.
- `tv_node` has three quirks the model keeps but does not prove anything about:
  - it writes attribute values unescaped;
  - it starts the data object with a comma when the node has no data entry;
  - it writes an icon without a title as a malformed data object.
- PgTools.PgDoubleArray: its own contract states only how many values come out. The values are stated by PgTools.PgArrayRoundTrip for integral numbers, and by PgTools.DoubleArrayExample for the fraction in "{1.5,2}".
- PgTools.PgIntegerArray: its own contract states only how many values come out. The values are stated by PgTools.PgArrayRoundTrip and PgTools.EmptyArrayReadsZero.
- AreaUpdate.AreaUpdateAsWritten: its own contract states only the session check. Its behaviour is stated by AreaUpdate.AreaUpdateAsWrittenUpToTen, AreaUpdate.AreaUpdateAsWrittenAtMostTen and AreaUpdate.ElevenAreasLoseOne.
- AreaUpdate.AreaUpdate: its own contract states only the session check. The round trip with the overlay's flattening is AreaUpdate.AreaUpdateRoundTrip.
- Node types and graph details of the legacy overlay are simplified:
  - a treenode is a root when its parent id does not parse as an integer;
  - `zdiff` is the already-divided section difference.
- The `Area` constructor (httpdocs/widgets/overlay_area.js:147-202) keeps only its id, coordinates and radius (LegacyOverlay.NewLArea). Its drawing state, the two callbacks the overlay passes after the radius and the singleton-coordinate form are not modelled.
- LegacyOverlay.AreaFields: the text a request carries for an undefined value depends on the request queue, which is not part of this model. It is the parameter `undef`.
- In the area editor's edit mode, a drag of the only vertex is not modelled. Only vertex and midpoint drags on polygons are.
- The Ilastik layer assumes every row has at least ten columns (IlastikLayer.Complete), as the layer reads columns 1 to 9. The size of the drawing surface is not modelled.
- The 3D viewer model has these limits:
  - vertex arrays are assumed to hold whole pairs (WebGLSynapses.WellFormed);
  - catalog options of zero fall back to their defaults through `||`, as in the code, but negative options are not considered;
  - the default "View n" name of the store dialog is not modelled;
  - the order of `getStoredViews` is not modelled;
  - a serial number stands for object identity in the geometry cache;
  - `createSynapseMap` (django/applications/catmaid/static/js/webglapp.js:2626-2640) is not modelled.
- Segment.SegmentBoundingBox: the failures Django turns into a server error (no slice info row, no segment, no slice, a node id without '_') are all the outcome `Crash`. The node-id query is a parameter (the slices it returns), so the model does not promise that those slices carry the segment's node ids.
- WebGLSpace.GetTagGeometry: for an inherited tag the code also writes `refs` (NaN) onto the inherited property. For "__proto__" that property is Object.prototype itself, after which every object has `refs`. This side effect is not modelled.
- WebGLSpace.ActivateView: the TypeError on an inherited name is the outcome `NotAView`; how far the exception propagates is not modelled.
- Hashing the password with md5 is the parameter `hash` of UserCreate.Create.
- UserCreate.Create: numeric names compare by their exact decimal value. PHP compares them as 64-bit integers or as doubles, so names that differ only beyond double precision, or that overflow to infinity, count as the same there and not here. Hexadecimal strings, which PHP 5 also treats as numeric, and the trailing whitespace PHP 8 accepts are not modelled.
- These are not part of this model: the Django views beyond `segment.py`, the annotation and sopnet controllers, the neurocity and vncbrowser applications, the management commands, scripts/spimproject.php and `getFileList`. They are server plumbing around the core, or they depend on the filesystem, images or subprocesses.

## Findings

| source | as written | input that shows it | evidently intended | confidence | as-written member | corrected member |
|---|---|---|---|---|---|---|
| httpdocs/widgets/overlay.js:915-953 | `pix_x` and `pix_y` are created once, before the loop over area records, and each `Area` keeps the arrays themselves. Every area ends up sharing the last record's vertices, plus any extra vertices an earlier, longer record left behind. | two area records, the first with x = [1, 3] and the second with x = [2]: area 2 gets x = [2, 3] | each area gets its own vertices | not executed | LegacyOverlay.RefreshAreasAsWritten, LegacyOverlay.RefreshAreasSharesVertices, LegacyOverlay.RefreshAreasKeepsLeftovers | LegacyOverlay.RefreshAreas, LegacyOverlay.RefreshAreasVertexCount |
| httpdocs/widgets/overlay.js:941 | `new Area(id, this.paper, pix_x, pix_y, z, area_dragpt_r, ...)` passes the section where the constructor (overlay_area.js:147-153) takes the vertex-dot radius, and the constructor has no section parameter. A refreshed area is drawn with its section as radius, and once edited it is sent with z undefined and bounds "(minx,miny,)". The server stores z as `floatval` of that, which is 0. | one area record in section 5 with a vertex at (1, 1), edited after the refresh | the area keeps its section, is drawn with radius 4 and is written back in section 5 | not executed | LegacyOverlay.RefreshAreas, LegacyOverlay.RefreshedAreaLosesSection, AreaUpdate.RefreshedAreaStoredAtSectionZero | LegacyOverlay.RefreshAreasWithSections, AreaUpdate.RefreshedSectionWritten |
| httpdocs/model/area.update.php:21 | `/^(\w+)([0-9]+)$/` is greedy, so the index is only the last digit. `area_id12` becomes field `area_id1` of group 2, and the eleventh area's keys fall into other groups. | eleven areas flattened by the overlay, indices 0 to 10 | the index is every trailing digit, so any number of areas round-trips | not executed | AreaUpdate.AreaUpdateAsWritten, AreaUpdate.SplitKeyAsWrittenTwelve, AreaUpdate.ElevenAreasLoseOne | AreaUpdate.AreaUpdate, AreaUpdate.AreaUpdateRoundTrip |
| httpdocs/model/area.update.php:38 | the missing-key error names `$index`, left over from the key-parsing loop, so it names the last index parsed and not the incomplete group | request keys `pid0` and `pid1` | the error names the incomplete group, here 0 | not executed | AreaUpdate.MissingKeyNamesWrongIndex | AreaUpdate.AreaUpdate |
| inc/tools.inc.php:56 | the children key is written as `",children":[`, with a stray quote before the comma | any node with children | `,"children":[`, so the output is well-formed JSON | not executed | PgTools.ChildrenKeyMisquoted | PgTools.TvNodeIsJson |
| inc/tools.inc.php:58-60 | child strings are concatenated with no separator | a node with two children | children separated by commas | not executed | PgTools.ChildrenRunTogether | PgTools.ChildrenSeparated |
| django/applications/catmaid/static/js/webglapp.js:2652 | the second and later pairs of a connector push `connector_id` onto its list instead of the pair's treenode id | presynaptic_to vertices [5, 7, 5, 8] give [7, 5] for connector 5 | [7, 8]: every treenode linked to the connector | not executed | WebGLSynapses.InverseListsConnector | WebGLSynapses.InverseSynapseMapCollects |
| httpdocs/model/user.create.php:63 | the failed-link message is single-quoted, so `$cpid` is not interpolated and every failure reports the same text | two projects, one of whose links fails | the message names the project whose link failed | not executed | UserCreate.LinkFailureNamesNoProject | UserCreate.Create, UserCreate.LinkNamesFailures, UserCreate.LinkFailedNamesProject |
