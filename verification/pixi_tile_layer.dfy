/** The WebGL (Pixi) tile layer: a rows x cols grid of sprites that is not
    addressed toroidally; panning instead shifts the textures one slot
    along the grid. New tile images are fetched by loaders parked in a
    buffer grid and swapped in once none of them is still loading. */
module PixiTileLayer {
  import opened Common
  import TileLayer

  type TileRef = TileLayer.TileRef

  /** A sprite: its texture (None for the initial empty texture), whether
      it is drawn, and its position inside the batch container. */
  datatype Sprite = Sprite(texture: Option<TileRef>, visible: bool, x: int, y: int)

  /** A PIXI.ImageLoader for a tile image; `valid` once its texture loaded. */
  datatype Loader = Loader(src: TileRef, valid: bool)

  /** `tiles` is the sprite grid, `buf` the `tiles_buf` grid of loaders
      (None is `false`), and the renderer's size. */
  datatype Layer = Layer(tiles: seq<seq<Sprite>>, buf: seq<seq<Option<Loader>>>, rendererWidth: int, rendererHeight: int)
  {
    function Rows(): nat { |tiles| }

    function Cols(): nat { if |tiles| == 0 then 0 else |tiles[0]| }

    /** A rectangular sprite grid whose rows all have a buffer row of the
        same length. The buffer may keep extra rows from a larger grid. */
    predicate Valid() {
      |tiles| > 0 && |tiles[0]| > 0 && |buf| >= |tiles|
      && (forall i :: 0 <= i < |tiles| ==> |tiles[i]| == |tiles[0]| && |buf[i]| == |tiles[0]|)
    }
  }

  /** initTiles: sprite (i, j) at (j * tileWidth, i * tileHeight) with the
      empty texture, and the first `rows` buffer rows reset to `false`.
      Buffer rows beyond `rows` are not touched. */
  function InitTiles(l: Layer, rows: nat, cols: nat, tileWidth: nat, tileHeight: nat): (r: Layer)
    requires rows > 0 && cols > 0
    ensures r.Valid() && r.Rows() == rows && r.Cols() == cols
    ensures forall i, j :: 0 <= i < rows && 0 <= j < cols ==>
      r.tiles[i][j] == Sprite(None, true, j * tileWidth, i * tileHeight) && r.buf[i][j] == None
    ensures |l.buf| > rows ==> r.buf[rows..] == l.buf[rows..]
    ensures r.rendererWidth == l.rendererWidth && r.rendererHeight == l.rendererHeight
  {
    var tiles := seq(rows, i => seq(cols, j => Sprite(None, true, j * tileWidth, i * tileHeight)));
    var cleared := seq(rows, _ => seq(cols, _ => None));
    var buf := if |l.buf| > rows then cleared + l.buf[rows..] else cleared;
    assert forall i :: 0 <= i < rows ==> buf[i] == cleared[i];
    l.(tiles := tiles, buf := buf)
  }

  /** resize, up to the redraw it finishes with: nothing when the renderer
      already has this size; otherwise a grid one tile larger than the view
      needs plus a spare tile in each direction, freshly initialised. */
  function Resize(l: Layer, width: nat, height: nat, tileWidth: nat, tileHeight: nat): (r: Layer)
    requires tileWidth > 0 && tileHeight > 0
    ensures width == l.rendererWidth && height == l.rendererHeight ==> r == l
    ensures !(width == l.rendererWidth && height == l.rendererHeight) ==>
      r.Valid() && r.Rows() == height / tileHeight + 2 && r.Cols() == width / tileWidth + 2
      && r.rendererWidth == width && r.rendererHeight == height
  {
    if width == l.rendererWidth && height == l.rendererHeight then l
    else
      InitTiles(l.(rendererWidth := width, rendererHeight := height),
        height / tileHeight + 2, width / tileWidth + 2, tileWidth, tileHeight)
  }

  // ----- Panning: shifting textures -----

  /** One row for a horizontal pan: xd < 0 moves every texture one slot
      right and hides slot 0, xd > 0 moves them one slot left and hides the
      last slot. Only textures and visibility change. */
  function ShiftRow(row: seq<Sprite>, xd: int): (r: seq<Sprite>)
    requires |row| > 0
    ensures |r| == |row|
    ensures forall j :: 0 <= j < |row| ==> r[j].x == row[j].x && r[j].y == row[j].y
    ensures xd == 0 ==> r == row
    ensures xd < 0 ==> (r[0] == row[0].(visible := false)
      && forall j :: 1 <= j < |row| ==> r[j] == row[j].(texture := row[j - 1].texture))
    ensures xd > 0 ==> (r[|row| - 1] == row[|row| - 1].(visible := false)
      && forall j :: 0 <= j < |row| - 1 ==> r[j] == row[j].(texture := row[j + 1].texture))
  {
    var n := |row|;
    if xd < 0 then
      seq(n, j requires 0 <= j < n =>
        if j == 0 then row[0].(visible := false) else row[j].(texture := row[j - 1].texture))
    else if xd > 0 then
      seq(n, j requires 0 <= j < n =>
        if j == n - 1 then row[j].(visible := false) else row[j].(texture := row[j + 1].texture))
    else row
  }

  /** Give every sprite of `row` the texture of the sprite below it in
      `from`. */
  function TakeTextures(row: seq<Sprite>, from: seq<Sprite>): (r: seq<Sprite>)
    requires |row| == |from|
    ensures |r| == |row|
    ensures forall j :: 0 <= j < |row| ==> r[j] == row[j].(texture := from[j].texture)
  {
    seq(|row|, j requires 0 <= j < |row| => row[j].(texture := from[j].texture))
  }

  /** A rectangular, non-empty sprite grid. */
  predicate Rectangular(tiles: seq<seq<Sprite>>) {
    |tiles| > 0 && |tiles[0]| > 0 && forall i :: 0 <= i < |tiles| ==> |tiles[i]| == |tiles[0]|
  }

  /** Row i after the pan step: its own row shifted by the sign of xd, with
      the textures of the shifted row above (yd < 0) or below (yd > 0). The
      edge row that has no such neighbour keeps its own. */
  function PanRow(tiles: seq<seq<Sprite>>, i: nat, xd: int, yd: int): (r: seq<Sprite>)
    requires Rectangular(tiles) && i < |tiles|
    ensures |r| == |tiles[0]|
  {
    var own := ShiftRow(tiles[i], xd);
    if yd < 0 && i >= 1 then TakeTextures(own, ShiftRow(tiles[i - 1], xd))
    else if yd > 0 && i < |tiles| - 1 then TakeTextures(own, ShiftRow(tiles[i + 1], xd))
    else own
  }

  /** The pan step: columns shift by the sign of xd, then rows shift by the
      sign of yd (yd < 0: row i takes row i - 1's textures; yd > 0: row i
      takes row i + 1's). A vertical pan hides nothing. */
  function Pan(tiles: seq<seq<Sprite>>, xd: int, yd: int): (r: seq<seq<Sprite>>)
    requires Rectangular(tiles)
    ensures |r| == |tiles| && Rectangular(r) && |r[0]| == |tiles[0]|
    ensures forall i :: 0 <= i < |tiles| ==> r[i] == PanRow(tiles, i, xd, yd)
  {
    seq(|tiles|, i requires 0 <= i < |tiles| => PanRow(tiles, i, xd, yd))
  }

  /** A vertical pan moves textures only: every sprite keeps its
      visibility from the horizontal step, and in the interior each slot
      shows the texture of its neighbour in the direction of travel. */
  lemma PanVertical(tiles: seq<seq<Sprite>>, xd: int, yd: int, i: nat, j: nat)
    requires Rectangular(tiles) && i < |tiles| && j < |tiles[0]|
    ensures var r := Pan(tiles, xd, yd);
      r[i][j].visible == ShiftRow(tiles[i], xd)[j].visible
      && (yd < 0 && i >= 1 ==> r[i][j].texture == ShiftRow(tiles[i - 1], xd)[j].texture)
      && (yd > 0 && i < |tiles| - 1 ==> r[i][j].texture == ShiftRow(tiles[i + 1], xd)[j].texture)
      && (yd == 0 ==> r[i][j] == ShiftRow(tiles[i], xd)[j])
  {
  }

  /** Panning right by one tile and back again restores every texture
      except the one in the column that was pushed out, and leaves the
      hidden column hidden. */
  lemma PanBackRestoresTextures(row: seq<Sprite>)
    requires |row| > 1
    ensures var back := ShiftRow(ShiftRow(row, 1), -1);
      (forall j :: 1 <= j < |row| ==> back[j].texture == row[j].texture)
      && !back[0].visible
  {
  }

  // ----- Redraw -----

  /** The stack state redraw reads: the center pixel, the view corner in
      scaled pixels, current and previous section and scale level, and
      the view size. */
  datatype View = View(x: int, y: int, xc: int, yc: int, z: int, s: int,
    oldXc: int, oldYc: int, oldZ: int, oldS: int, baseName: string)

  /** LAST_XT / LAST_YT: with digital magnification (s < 0) the view's far
      edge plus the pan shift, clamped to the stack; otherwise the stack's
      last tile at this scale. */
  function LastTiles(g: TileLayer.Geometry, v: View, xd: int, yd: int): (last: (int, int))
    requires g.Valid()
    ensures v.s >= 0 ==>
      last.0 == (g.dimX - Pow2(v.s)) / (Pow2(v.s) * g.tileWidth)
      && last.1 == (g.dimY - Pow2(v.s)) / (Pow2(v.s) * g.tileHeight)
    ensures v.s < 0 ==> last.0 <= (g.dimX - 1) / g.tileWidth && last.1 <= (g.dimY - 1) / g.tileHeight
  {
    if v.s < 0 then
      var mag := Pow2(-v.s);
      var lx := (v.x * mag + g.viewWidth) / (g.tileWidth * mag) + xd;
      var ly := (v.y * mag + g.viewHeight) / (g.tileHeight * mag) + yd;
      (Min(lx, (g.dimX - 1) / g.tileWidth), Min(ly, (g.dimY - 1) / g.tileHeight))
    else
      ((g.dimX - Pow2(v.s)) / (Pow2(v.s) * g.tileWidth), (g.dimY - Pow2(v.s)) / (Pow2(v.s) * g.tileHeight))
  }

  predicate InRange(r: int, c: int, lastXt: int, lastYt: int) {
    r >= 0 && c >= 0 && r <= lastYt && c <= lastXt
  }

  /** What redraw promises about sprite slot (i, j) showing stack tile
      (r, c): inside the stack it either already has that texture and is
      visible or has a pending loader for it; outside it is hidden. */
  predicate CellShows(sp: Sprite, b: Option<Loader>, src: TileRef, inRange: bool) {
    if inRange then (sp.texture == Some(src) && sp.visible) || b == Some(Loader(src, false))
    else !sp.visible
  }

  /** r has l's shape and keeps the buffer rows beyond the grid. */
  predicate SameShape(l: Layer, r: Layer)
  {
    && l.Valid() && r.Valid() && r.Rows() == l.Rows() && r.Cols() == l.Cols()
    && r.rendererWidth == l.rendererWidth && r.rendererHeight == l.rendererHeight
    && |r.buf| == |l.buf| && (forall k :: l.Rows() <= k < |l.buf| ==> r.buf[k] == l.buf[k])
  }

  /** Every slot of the grid other than (i, j) is unchanged. */
  predicate OthersSame(l: Layer, r: Layer, i: nat, j: nat)
    requires SameShape(l, r)
  {
    forall a, b :: 0 <= a < l.Rows() && 0 <= b < l.Cols() && (a, b) != (i, j) ==>
      r.tiles[a][b] == l.tiles[a][b] && r.buf[a][b] == l.buf[a][b]
  }

  /** The per-cell update of redraw for stack tile (r, c) in sprite slot
      (i, j): inside the stack, a different image gets a new loader in the
      buffer and an equal one is shown; outside, the sprite is hidden. */
  function UpdateCell(l: Layer, i: nat, j: nat, src: TileRef, inRange: bool): (r: Layer)
    requires l.Valid() && i < l.Rows() && j < l.Cols()
    ensures SameShape(l, r) && OthersSame(l, r, i, j)
    ensures CellShows(r.tiles[i][j], r.buf[i][j], src, inRange)
  {
    var sp := l.tiles[i][j];
    if inRange then
      if sp.texture != Some(src) then l.(buf := l.buf[i := l.buf[i][j := Some(Loader(src, false))]])
      else l.(tiles := l.tiles[i := l.tiles[i][j := sp.(visible := true)]])
    else l.(tiles := l.tiles[i := l.tiles[i][j := sp.(visible := false)]])
  }

  /** The source of the tile redraw requests for slot (i, j). */
  function SourceAt(t: TileLayer.TileInfo, base: string, i: nat, j: nat): TileRef {
    TileLayer.TileRef(base, t.firstCol + j, t.firstRow + i, t.zoom)
  }

  /** Every slot from (i, j) on in row-major order shows its stack tile. */
  predicate ShowsFrom(l: Layer, r: Layer, t: TileLayer.TileInfo, base: string, lastXt: int, lastYt: int, i: nat, j: nat)
    requires SameShape(l, r)
  {
    forall a, b :: 0 <= a < l.Rows() && 0 <= b < l.Cols() && (a > i || (a == i && b >= j)) ==>
      CellShows(r.tiles[a][b], r.buf[a][b], SourceAt(t, base, a, b),
        InRange(t.firstRow + a, t.firstCol + b, lastXt, lastYt))
  }

  /** Every slot before (i, j) is unchanged. */
  predicate SameBefore(l: Layer, r: Layer, i: nat, j: nat)
    requires SameShape(l, r)
  {
    forall a, b :: 0 <= a < l.Rows() && 0 <= b < l.Cols() && (a < i || (a == i && b < j)) ==>
      r.tiles[a][b] == l.tiles[a][b] && r.buf[a][b] == l.buf[a][b]
  }

  lemma CellsFromStep(l: Layer, l1: Layer, r: Layer, t: TileLayer.TileInfo, base: string, lastXt: int, lastYt: int,
                      i: nat, j: nat, ni: nat, nj: nat)
    requires l.Valid() && i < l.Rows() && j < l.Cols()
    requires l1 == UpdateCell(l, i, j, SourceAt(t, base, i, j), InRange(t.firstRow + i, t.firstCol + j, lastXt, lastYt))
    requires ni == (if j + 1 == l.Cols() then i + 1 else i) && nj == (if j + 1 == l.Cols() then 0 else j + 1)
    requires SameShape(l1, r) && ShowsFrom(l1, r, t, base, lastXt, lastYt, ni, nj) && SameBefore(l1, r, ni, nj)
    ensures SameShape(l, r) && ShowsFrom(l, r, t, base, lastXt, lastYt, i, j) && SameBefore(l, r, i, j)
  {
  }

  /** Redraw's loop over every slot from (i, j) on. */
  function CellsFrom(l: Layer, t: TileLayer.TileInfo, base: string, lastXt: int, lastYt: int, i: nat, j: nat): (r: Layer)
    requires l.Valid() && i <= l.Rows() && j < l.Cols()
    requires i == l.Rows() ==> j == 0
    ensures SameShape(l, r)
    ensures ShowsFrom(l, r, t, base, lastXt, lastYt, i, j)
    ensures SameBefore(l, r, i, j)
    decreases l.Rows() - i, l.Cols() - j
  {
    if i == l.Rows() then l
    else
      var src := SourceAt(t, base, i, j);
      var l1 := UpdateCell(l, i, j, src, InRange(t.firstRow + i, t.firstCol + j, lastXt, lastYt));
      var ni := if j + 1 == l.Cols() then i + 1 else i;
      var nj := if j + 1 == l.Cols() then 0 else j + 1;
      var r := CellsFrom(l1, t, base, lastXt, lastYt, ni, nj);
      CellsFromStep(l, l1, r, t, base, lastXt, lastYt, i, j, ni, nj);
      r
  }

  /** isBuffering: some buffer slot, in any buffer row, holds a loader that
      has not loaded yet. */
  function IsBuffering(l: Layer): (b: bool)
    ensures b <==> exists i, j :: 0 <= i < |l.buf| && 0 <= j < |l.buf[i]| && l.buf[i][j].Some? && !l.buf[i][j].value.valid
  {
    exists i, j :: 0 <= i < |l.buf| && 0 <= j < |l.buf[i]| && PendingLoader(l.buf[i][j])
  }

  predicate PendingLoader(b: Option<Loader>) { b.Some? && !b.value.valid }

  /** Result of redraw: the layer, whether the stage is rendered right
      away (same section and zoom level), and whether the 3 s fallback
      timer for loadBuffer is armed. */
  datatype RedrawResult = RedrawResult(layer: Layer, rendered: bool, timerArmed: bool)

  /** The pan shift in tiles: nonzero only when neither section nor scale
      changed. */
  function PanShift(g: TileLayer.Geometry, v: View): (d: (int, int))
    requires g.Valid()
  {
    var t := TileLayer.TilesForLocation(g, v.xc, v.yc, v.s);
    if v.z == v.oldZ && v.s == v.oldS then
      (t.firstCol - v.oldXc / (g.tileWidth * t.Mag()), t.firstRow - v.oldYc / (g.tileHeight * t.Mag()))
    else (0, 0)
  }

  function Redraw(l: Layer, g: TileLayer.Geometry, v: View): (res: RedrawResult)
    requires l.Valid() && g.Valid()
    ensures res.layer.Valid() && res.layer.Rows() == l.Rows() && res.layer.Cols() == l.Cols()
    ensures res.rendered <==> v.z == v.oldZ && TileLayer.TilesForLocation(g, v.xc, v.yc, v.s).zoom == Max(0, v.oldS)
    ensures res.timerArmed <==> IsBuffering(res.layer)
  {
    var t := TileLayer.TilesForLocation(g, v.xc, v.yc, v.s);
    var (xd, yd) := PanShift(g, v);
    var last := LastTiles(g, v, xd, yd);
    var l2 := CellsFrom(l.(tiles := Pan(l.tiles, xd, yd)), t, v.baseName, last.0, last.1, 0, 0);
    RedrawResult(l2, v.z == v.oldZ && t.zoom == Max(0, v.oldS), IsBuffering(l2))
  }

  /** resize as a whole: the same renderer size returns before anything
      happens, so nothing is redrawn; any other size rebuilds the grid and
      redraws it, and the redrawn grid has the new dimensions. */
  function ResizeAndRedraw(l: Layer, width: nat, height: nat, g: TileLayer.Geometry, v: View): (res: Option<RedrawResult>)
    requires g.Valid()
    ensures res.None? <==> width == l.rendererWidth && height == l.rendererHeight
    ensures res.Some? ==>
      res.value.layer.Valid() && res.value.layer.Rows() == height / g.tileHeight + 2 &&
      res.value.layer.Cols() == width / g.tileWidth + 2 &&
      res.value.layer.rendererWidth == width && res.value.layer.rendererHeight == height &&
      (res.value.timerArmed <==> IsBuffering(res.value.layer))
  {
    if width == l.rendererWidth && height == l.rendererHeight then None
    else Some(Redraw(Resize(l, width, height, g.tileWidth, g.tileHeight), g, v))
  }

  /** After redraw, each slot (i, j) showing stack tile (firstRow + i,
      firstCol + j) is visible with that tile's texture or waits on a
      loader for it when the tile lies inside the stack, and is hidden
      otherwise. */
  lemma RedrawShowsView(l: Layer, g: TileLayer.Geometry, v: View, i: nat, j: nat)
    requires l.Valid() && g.Valid() && i < l.Rows() && j < l.Cols()
    ensures var t := TileLayer.TilesForLocation(g, v.xc, v.yc, v.s);
      var d := PanShift(g, v);
      var last := LastTiles(g, v, d.0, d.1);
      var r := Redraw(l, g, v).layer;
      CellShows(r.tiles[i][j], r.buf[i][j], SourceAt(t, v.baseName, i, j),
        InRange(t.firstRow + i, t.firstCol + j, last.0, last.1))
  {
    var t := TileLayer.TilesForLocation(g, v.xc, v.yc, v.s);
    var d := PanShift(g, v);
    var last := LastTiles(g, v, d.0, d.1);
    var l1 := l.(tiles := Pan(l.tiles, d.0, d.1));
    var r := CellsFrom(l1, t, v.baseName, last.0, last.1, 0, 0);
    assert r == Redraw(l, g, v).layer;
  }

  // ----- Buffer events -----

  /** loadBuffer: every grid slot holding a loader takes its texture, is
      shown, and the slot is cleared; other slots are unchanged. */
  function LoadBuffer(l: Layer): (r: Layer)
    requires l.Valid()
    ensures r.Valid() && r.Rows() == l.Rows() && r.Cols() == l.Cols()
    ensures |r.buf| == |l.buf| && forall k :: l.Rows() <= k < |l.buf| ==> r.buf[k] == l.buf[k]
    ensures forall i, j :: 0 <= i < l.Rows() && 0 <= j < l.Cols() ==>
      r.buf[i][j] == None
      && r.tiles[i][j] == match l.buf[i][j]
        case Some(ld) => l.tiles[i][j].(texture := Some(ld.src), visible := true)
        case None => l.tiles[i][j]
  {
    var rows := l.Rows();
    var cols := l.Cols();
    var tiles := seq(rows, i requires 0 <= i < rows =>
      seq(cols, j requires 0 <= j < cols =>
        match l.buf[i][j]
        case Some(ld) => l.tiles[i][j].(texture := Some(ld.src), visible := true)
        case None => l.tiles[i][j]));
    var buf := seq(rows, _ => seq(cols, _ => None)) + l.buf[rows..];
    l.(tiles := tiles, buf := buf)
  }

  /** After loadBuffer no loader of the grid is pending; only stale
      buffer rows beyond the grid can still hold one. */
  lemma LoadBufferClearsGrid(l: Layer)
    requires l.Valid()
    ensures var r := LoadBuffer(l);
      IsBuffering(r) <==> exists i, j :: l.Rows() <= i < |l.buf| && 0 <= j < |l.buf[i]| && PendingLoader(l.buf[i][j])
  {
    var r := LoadBuffer(l);
    if IsBuffering(r) {
      var i, j :| 0 <= i < |r.buf| && 0 <= j < |r.buf[i]| && PendingLoader(r.buf[i][j]);
      assert i >= l.Rows();
    }
  }

  /** checkBuffer, run when a loader finishes: load the buffer once no
      loader is pending any more. */
  function CheckBuffer(l: Layer): (r: Layer)
    requires l.Valid()
    ensures IsBuffering(l) ==> r == l
    ensures !IsBuffering(l) ==> r == LoadBuffer(l)
  {
    if IsBuffering(l) then l else LoadBuffer(l)
  }

  /** The loader in slot (i, j) finished loading: mark it valid and check
      the buffer. */
  function LoaderLoaded(l: Layer, i: nat, j: nat): (r: Layer)
    requires l.Valid() && i < |l.buf| && j < |l.buf[i]|
    ensures r.Valid()
  {
    var l1 := match l.buf[i][j]
      case Some(ld) => l.(buf := l.buf[i := l.buf[i][j := Some(ld.(valid := true))]])
      case None => l;
    CheckBuffer(l1)
  }
}
