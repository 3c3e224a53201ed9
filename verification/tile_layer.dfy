/** The DOM tile layer: a fixed rows x cols grid of tile images addressed
    toroidally, so that panning by one tile only moves the grid origin, and
    a second grid (the buffer) that is filled while zooming or changing
    section and swapped in once it has loaded.

    Positions are scaled-stack pixels and are integers; the scale `s` is an
    integer zoom level (negative levels magnify digitally). Tile image URLs
    are abstracted as `TileRef`s: two tiles show the same image exactly when
    their references are equal. */
module TileLayer {
  import opened Common
  import opened Text

  /** The `alt` attribute the layer abuses as a load flag: empty while the
      image is loading, 'l' once loaded, 'h' for a tile that must stay
      hidden. */
  datatype Alt = Loading | Loaded | Hidden

  /** What `tileSource.getTileURL` is given: the section part of the path,
      the tile column and row, and the zoom level. */
  datatype TileRef = TileRef(baseName: string, col: int, row: int, zoom: nat)

  datatype Tile = Tile(src: Option<TileRef>, alt: Alt, visible: bool)

  /** The layer's mutable state. `buffered` and `toBuffer` belong to the
      most recent redraw's buffer-load callback. */
  datatype Layer = Layer(
    tiles: seq<seq<Tile>>,
    buffer: seq<seq<Tile>>,
    origR: nat,
    origC: nat,
    buffering: bool,
    buffered: int,
    toBuffer: int)
  {
    function Rows(): nat { |tiles| }

    function Cols(): nat { if |tiles| == 0 then 0 else |tiles[0]| }

    /** A non-empty rectangular grid, a buffer of the same shape, and an
        origin inside the grid. */
    predicate Valid() {
      |tiles| > 0 && |tiles[0]| > 0 && |buffer| == |tiles|
      && (forall i :: 0 <= i < |tiles| ==> |tiles[i]| == |tiles[0]|)
      && (forall i :: 0 <= i < |buffer| ==> |buffer[i]| == |tiles[0]|)
      && origR < |tiles| && origC < |tiles[0]|
    }

    /** The grid that redraw writes to: the buffer while buffering. */
    function Target(): seq<seq<Tile>> { if buffering then buffer else tiles }
  }

  /** The layer before the first resize: no tiles at all. */
  const Empty := Layer([], [], 0, 0, false, 0, 0)

  /** The part of a tile path made of the dimensions beyond x and y, last
      dimension first, each followed by '/': 'z/' for [x, y, z]. */
  function TileBaseName(pixelPos: seq<int>): (dir: string)
    ensures |pixelPos| <= 2 ==> dir == ""
    ensures |pixelPos| == 3 ==> dir == IntToString(pixelPos[2]) + "/"
  {
    if |pixelPos| <= 2 then ""
    else IntToString(pixelPos[|pixelPos| - 1]) + "/" + TileBaseName(pixelPos[..|pixelPos| - 1])
  }

  /** The components of a base name, as `split('/')` sees them: the
      printed dimensions from the last down to index 2, then "". */
  function BaseNameParts(pixelPos: seq<int>): seq<string>
  {
    if |pixelPos| <= 2 then [""]
    else [IntToString(pixelPos[|pixelPos| - 1])] + BaseNameParts(pixelPos[..|pixelPos| - 1])
  }

  lemma {:induction false} TileBaseNameSplits(pixelPos: seq<int>)
    ensures Split(TileBaseName(pixelPos), '/') == BaseNameParts(pixelPos)
    decreases |pixelPos|
  {
    if |pixelPos| > 2 {
      var n := |pixelPos|;
      var a := IntToString(pixelPos[n - 1]);
      TileBaseNameSplits(pixelPos[..n - 1]);
      NoSlashInNumber(pixelPos[n - 1]);
      SplitAfterPiece(a, TileBaseName(pixelPos[..n - 1]), '/');
    }
  }

  lemma NoSlashInNumber(i: int)
    ensures '/' !in IntToString(i)
  {
    var s := IntToString(i);
    forall k | 0 <= k < |s|
      ensures s[k] != '/'
    {
      if i < 0 && k > 0 {
        assert s[k] == s[1..][k - 1];
      }
    }
  }

  // ----- Toroidal addressing -----

  /** rowTransform: ((r % rows) + rows + origR) % rows with JavaScript's
      truncating `%` inside. */
  function RowTransform(l: Layer, r: int): (i: nat)
    requires l.Valid()
    ensures i < l.Rows()
    ensures i == (r + l.origR) % l.Rows()
  {
    var rows := l.Rows();
    var x := JsRem(r, rows) + rows + l.origR;
    ModAddMultiple(r + l.origR, 1 - JsQuot(r, rows), rows);
    assert x == (r + l.origR) + (1 - JsQuot(r, rows)) * rows;
    x % rows
  }

  /** colTransform, the same over the columns. */
  function ColTransform(l: Layer, c: int): (j: nat)
    requires l.Valid()
    ensures j < l.Cols()
    ensures j == (c + l.origC) % l.Cols()
  {
    var cols := l.Cols();
    var x := JsRem(c, cols) + cols + l.origC;
    ModAddMultiple(c + l.origC, 1 - JsQuot(c, cols), cols);
    assert x == (c + l.origC) + (1 - JsQuot(c, cols)) * cols;
    x % cols
  }

  /** The grid index reached from origin `o` after `t` steps of
      `i = (i + 1) % n`, for o, t < n. */
  function Wrap(o: nat, t: nat, n: nat): (i: nat)
    requires o < n && t < n
    ensures i < n
    ensures i == (o + t) % n
  {
    if o + t < n then
      ModUnique(o + t, 0, o + t, n);
      o + t
    else
      ModUnique(o + t, 1, o + t - n, n);
      o + t - n
  }

  lemma WrapInjective(o: nat, t1: nat, t2: nat, n: nat)
    requires o < n && t1 < n && t2 < n
    ensures Wrap(o, t1, n) == Wrap(o, t2, n) <==> t1 == t2
  {
  }

  // ----- Tile bounds for a view -----

  /** Result of tilesForLocation: the first and last tile indices of the
      view, the zoom level whose images are used, and the digital
      magnification as a power of two. */
  datatype TileInfo = TileInfo(firstRow: int, firstCol: int, lastRow: int, lastCol: int, zoom: nat, magPow: nat)
  {
    function Mag(): nat { Pow2(magPow) }
  }

  /** Tile geometry and stack extent: tile size in pixels, view size and
      the stack's full-resolution width and height. */
  datatype Geometry = Geometry(tileWidth: nat, tileHeight: nat, viewWidth: int, viewHeight: int, dimX: int, dimY: int)
  {
    predicate Valid() { tileWidth > 0 && tileHeight > 0 }
  }

  /** tilesForLocation for an integral scale level `s`: level s >= 0 uses
      the images of that level, a negative level uses level 0 magnified by
      2^-s. The last column and row are clamped to the stack edge. */
  function TilesForLocation(g: Geometry, xc: int, yc: int, s: int): (t: TileInfo)
    requires g.Valid()
    ensures s >= 0 ==> t.zoom == s && t.magPow == 0
    ensures s < 0 ==> t.zoom == 0 && t.magPow == -s
    ensures t.firstCol * (g.tileWidth * t.Mag()) <= xc < (t.firstCol + 1) * (g.tileWidth * t.Mag())
    ensures t.firstRow * (g.tileHeight * t.Mag()) <= yc < (t.firstRow + 1) * (g.tileHeight * t.Mag())
  {
    var zoom: nat := if s < 0 then 0 else s;
    var magPow: nat := if s < 0 then -s else 0;
    var etw := g.tileWidth * Pow2(magPow);
    var eth := g.tileHeight * Pow2(magPow);
    var fr := yc / eth;
    var fc := xc / etw;
    FloorDiv(yc, eth, fr);
    FloorDiv(yc, eth, fr + 1);
    FloorDiv(xc, etw, fc);
    FloorDiv(xc, etw, fc + 1);
    var lc := Min((xc + g.viewWidth) / etw, (g.dimX - Pow2(zoom)) / (Pow2(zoom) * g.tileWidth));
    var lr := Min((yc + g.viewHeight) / eth, (g.dimY - Pow2(zoom)) / (Pow2(zoom) * g.tileHeight));
    TileInfo(fr, fc, lr, lc, zoom, magPow)
  }

  /** The clamp of tilesForLocation in one dimension: index c is at most
      min(viewEnd / e, (dim - m) / (m * size)) exactly when its tile starts
      inside the view and its first pixel at scale m lies inside the stack. */
  lemma LastIndexExact(viewEnd: int, e: int, dim: int, m: int, size: int, c: int)
    requires e > 0 && m > 0 && size > 0
    ensures c <= Min(viewEnd / e, (dim - m) / (m * size)) <==> c * e <= viewEnd && (c * size + 1) * m <= dim
  {
    FloorDiv(viewEnd, e, c);
    FloorDiv(dim - m, m * size, c);
    assert (c * size + 1) * m == c * (m * size) + m;
  }

  /** Column c is at most the last column exactly when its left edge is
      inside the view and its first pixel lies inside the stack at the
      chosen zoom level. */
  lemma LastColumnExact(g: Geometry, xc: int, yc: int, s: int, c: int)
    requires g.Valid()
    ensures var t := TilesForLocation(g, xc, yc, s);
      c <= t.lastCol <==>
        c * (g.tileWidth * t.Mag()) <= xc + g.viewWidth && (c * g.tileWidth + 1) * Pow2(t.zoom) <= g.dimX
  {
    var t := TilesForLocation(g, xc, yc, s);
    assert g.tileWidth * t.Mag() > 0;
    LastIndexExact(xc + g.viewWidth, g.tileWidth * t.Mag(), g.dimX, Pow2(t.zoom), g.tileWidth, c);
  }

  /** The same for rows. */
  lemma LastRowExact(g: Geometry, xc: int, yc: int, s: int, r: int)
    requires g.Valid()
    ensures var t := TilesForLocation(g, xc, yc, s);
      r <= t.lastRow <==>
        r * (g.tileHeight * t.Mag()) <= yc + g.viewHeight && (r * g.tileHeight + 1) * Pow2(t.zoom) <= g.dimY
  {
    var t := TilesForLocation(g, xc, yc, s);
    assert g.tileHeight * t.Mag() > 0;
    LastIndexExact(yc + g.viewHeight, g.tileHeight * t.Mag(), g.dimY, Pow2(t.zoom), g.tileHeight, r);
  }

  // ----- Grid construction -----

  function FreshGrid(rows: nat, cols: nat): (g: seq<seq<Tile>>)
    ensures |g| == rows
    ensures forall i :: 0 <= i < rows ==> |g[i]| == cols
    ensures forall i, j :: 0 <= i < rows && 0 <= j < cols ==> g[i][j] == Tile(None, Loading, false)
  {
    seq(rows, _ => seq(cols, _ => Tile(None, Loading, false)))
  }

  /** _initTiles: fresh hidden, still-loading tiles in both grids and the
      origin reset to (0, 0). */
  function InitTiles(l: Layer, rows: nat, cols: nat): (r: Layer)
    requires rows > 0 && cols > 0
    ensures r.Valid() && r.Rows() == rows && r.Cols() == cols
    ensures r.origR == 0 && r.origC == 0
    ensures forall i, j :: 0 <= i < rows && 0 <= j < cols ==>
      r.tiles[i][j] == Tile(None, Loading, false) && r.buffer[i][j] == Tile(None, Loading, false)
    ensures r.buffering == l.buffering
  {
    l.(tiles := FreshGrid(rows, cols), buffer := FreshGrid(rows, cols), origR := 0, origC := 0)
  }

  /** The grid dimensions resize asks for: one tile more than needed to
      cover the view in each direction. */
  function GridSize(g: Geometry, width: int, height: int): (d: (int, int))
    requires g.Valid()
    ensures (d.0 - 2) * g.tileHeight < height <= (d.0 - 1) * g.tileHeight
    ensures (d.1 - 2) * g.tileWidth < width <= (d.1 - 1) * g.tileWidth
  {
    (CeilDiv(height, g.tileHeight) + 1, CeilDiv(width, g.tileWidth) + 1)
  }

  /** resize, up to the redraw it finishes with: the grid is rebuilt only
      when it is empty or its dimensions differ from the new ones. */
  function Resize(l: Layer, g: Geometry, width: int, height: int): (r: Layer)
    requires g.Valid() && width >= 0 && height >= 0
    requires l == Empty || l.Valid()
    ensures r.Valid()
    ensures (r.Rows(), r.Cols()) == GridSize(g, width, height)
    ensures l != Empty && (l.Rows(), l.Cols()) == GridSize(g, width, height) ==> r == l
    ensures (l == Empty || (l.Rows(), l.Cols()) != GridSize(g, width, height)) ==> r.origR == 0 && r.origC == 0
  {
    var (rows, cols) := GridSize(g, width, height);
    assert rows >= 1 && cols >= 1 by {
      MulAwayFromZero(rows - 1, g.tileHeight);
      MulAwayFromZero(cols - 1, g.tileWidth);
    }
    if |l.tiles| == 0 || |l.tiles| != rows || |l.tiles[0]| != cols then InitTiles(l, rows, cols)
    else l
  }

  // ----- Panning -----

  function HideColumn(tiles: seq<seq<Tile>>, col: nat): (t: seq<seq<Tile>>)
    ensures |t| == |tiles|
    ensures forall i :: 0 <= i < |t| ==> |t[i]| == |tiles[i]|
    ensures forall i, j :: 0 <= i < |t| && 0 <= j < |t[i]| ==>
      t[i][j] == if j == col then tiles[i][j].(visible := false) else tiles[i][j]
  {
    seq(|tiles|, i requires 0 <= i < |tiles| =>
      seq(|tiles[i]|, j requires 0 <= j < |tiles[i]| =>
        if j == col then tiles[i][j].(visible := false) else tiles[i][j]))
  }

  function HideRow(tiles: seq<seq<Tile>>, row: nat): (t: seq<seq<Tile>>)
    ensures |t| == |tiles|
    ensures forall i :: 0 <= i < |t| ==> |t[i]| == |tiles[i]|
    ensures forall i, j :: 0 <= i < |t| && 0 <= j < |t[i]| ==>
      t[i][j] == if i == row then tiles[i][j].(visible := false) else tiles[i][j]
  {
    seq(|tiles|, i requires 0 <= i < |tiles| =>
      seq(|tiles[i]|, j requires 0 <= j < |tiles[i]| =>
        if i == row then tiles[i][j].(visible := false) else tiles[i][j]))
  }

  /** Column col hidden when xd is not 0, then row row when yd is not 0. */
  function HideLines(tiles: seq<seq<Tile>>, xd: int, col: nat, yd: int, row: nat): (t: seq<seq<Tile>>)
    ensures |t| == |tiles|
    ensures forall i :: 0 <= i < |t| ==> |t[i]| == |tiles[i]|
    ensures forall i, j :: 0 <= i < |t| && 0 <= j < |t[i]| ==>
      t[i][j] == tiles[i][j].(visible := tiles[i][j].visible && !(xd != 0 && j == col) && !(yd != 0 && i == row))
  {
    var t1 := if xd != 0 then HideColumn(tiles, col) else tiles;
    if yd != 0 then HideRow(t1, row) else t1
  }

  /** The pan step of redraw for a shift of xd columns and yd rows: the
      column (row) that wraps around is hidden, the former last one when
      moving back and the former first one when moving forward, and the
      origin moves by the shift. Nothing else changes. */
  function Pan(l: Layer, xd: int, yd: int): (r: Layer)
    requires l.Valid()
    ensures r.Valid() && r.Rows() == l.Rows() && r.Cols() == l.Cols()
    ensures r.origR == (l.origR + yd) % l.Rows() && r.origC == (l.origC + xd) % l.Cols()
    ensures r.buffer == l.buffer && r.buffering == l.buffering
    ensures r.buffered == l.buffered && r.toBuffer == l.toBuffer
    ensures forall i, j :: 0 <= i < l.Rows() && 0 <= j < l.Cols() ==>
      var hiddenCol := xd != 0 && j == (l.origC + (if xd < 0 then l.Cols() - 1 else 0)) % l.Cols();
      var hiddenRow := yd != 0 && i == (l.origR + (if yd < 0 then l.Rows() - 1 else 0)) % l.Rows();
      r.tiles[i][j] == l.tiles[i][j].(visible := l.tiles[i][j].visible && !hiddenCol && !hiddenRow)
  {
    var col := ColTransform(l, if xd < 0 then -1 else 0);
    var row := RowTransform(l, if yd < 0 then -1 else 0);
    ModAddMultiple(l.origC - 1, 1, l.Cols());
    ModAddMultiple(l.origR - 1, 1, l.Rows());
    assert col == (l.origC + (if xd < 0 then l.Cols() - 1 else 0)) % l.Cols();
    assert row == (l.origR + (if yd < 0 then l.Rows() - 1 else 0)) % l.Rows();
    l.(tiles := HideLines(l.tiles, xd, col, yd, row), origR := RowTransform(l, yd), origC := ColTransform(l, xd))
  }

  // ----- Buffer swap and load events -----

  /** A tile as the swap leaves it: a copy of the buffer tile, visible
      unless it is flagged hidden. */
  function Shown(b: Tile): Tile { b.(visible := b.alt != Hidden) }

  /** _swapBuffers: nothing unless buffering; otherwise clears the flag and
      copies every buffer tile into the displayed grid. */
  function SwapBuffers(l: Layer): (r: Layer)
    requires l.Valid()
    ensures r.Valid() && !r.buffering && r.Rows() == l.Rows() && r.Cols() == l.Cols()
    ensures r.buffer == l.buffer && r.origR == l.origR && r.origC == l.origC
    ensures !l.buffering ==> r == l
    ensures l.buffering ==> forall i, j :: 0 <= i < l.Rows() && 0 <= j < l.Cols() ==>
      r.tiles[i][j].src == l.buffer[i][j].src && r.tiles[i][j].alt == l.buffer[i][j].alt
      && (r.tiles[i][j].visible <==> l.buffer[i][j].alt != Hidden)
  {
    if !l.buffering then l
    else
      l.(buffering := false,
         tiles := seq(l.Rows(), i requires 0 <= i < l.Rows() =>
           seq(l.Cols(), j requires 0 <= j < l.Cols() => Shown(l.buffer[i][j]))))
  }

  /** A second swap (the timeout firing after the load callback already
      swapped) changes nothing. */
  lemma SwapBuffersOnce(l: Layer)
    requires l.Valid()
    ensures SwapBuffers(SwapBuffers(l)) == SwapBuffers(l)
  {
  }

  /** Replace tile (i, j) of the grid redraw writes to. */
  function Put(l: Layer, i: nat, j: nat, t: Tile): (r: Layer)
    requires l.Valid() && i < l.Rows() && j < l.Cols()
    ensures r.Valid() && r.Rows() == l.Rows() && r.Cols() == l.Cols()
    ensures r.origR == l.origR && r.origC == l.origC && r.buffering == l.buffering
    ensures r.buffered == l.buffered && r.toBuffer == l.toBuffer
    ensures r.Target()[i][j] == t
    ensures forall i', j' :: 0 <= i' < l.Rows() && 0 <= j' < l.Cols() && (i', j') != (i, j) ==>
      r.Target()[i'][j'] == l.Target()[i'][j']
    ensures l.buffering ==> r.tiles == l.tiles
  {
    if l.buffering then l.(buffer := l.buffer[i := l.buffer[i][j := t]])
    else l.(tiles := l.tiles[i := l.tiles[i][j := t]])
  }

  /** The buffer-load callback for buffer tile (i, j): ignored when no
      longer buffering or when the tile is flagged hidden; otherwise counts
      the tile as loaded and swaps once the count reaches the number of
      tiles to buffer. */
  function BufferLoaded(l: Layer, i: nat, j: nat): (r: Layer)
    requires l.Valid() && i < l.Rows() && j < l.Cols()
    ensures r.Valid() && r.Rows() == l.Rows() && r.Cols() == l.Cols()
    ensures r.origR == l.origR && r.origC == l.origC
    ensures (!l.buffering || l.buffer[i][j].alt == Hidden) ==> r == l
    ensures l.buffering && l.buffer[i][j].alt != Hidden ==>
      r.buffered == l.buffered + 1 && r.buffer[i][j] == l.buffer[i][j].(alt := Loaded)
      && (r.buffering <==> r.buffered != r.toBuffer)
  {
    if !l.buffering || l.buffer[i][j].alt == Hidden then l
    else
      var l1 := l.(buffered := l.buffered + 1, buffer := l.buffer[i := l.buffer[i][j := l.buffer[i][j].(alt := Loaded)]]);
      if l1.buffered == l1.toBuffer then SwapBuffers(l1) else l1
  }

  /** The load handler of displayed tile (i, j): shows the tile and flags
      it loaded, unless it is flagged hidden. */
  function TileLoaded(l: Layer, i: nat, j: nat): (r: Layer)
    requires l.Valid() && i < l.Rows() && j < l.Cols()
    ensures r.Valid()
    ensures l.tiles[i][j].alt == Hidden ==> r == l
    ensures l.tiles[i][j].alt != Hidden ==>
      r.tiles == l.tiles[i := l.tiles[i][j := l.tiles[i][j].(visible := true, alt := Loaded)]]
  {
    if l.tiles[i][j].alt == Hidden then l
    else l.(tiles := l.tiles[i := l.tiles[i][j := l.tiles[i][j].(visible := true, alt := Loaded)]])
  }

  // ----- The cell loop of redraw -----

  predicate InRange(t: TileInfo, r: int, c: int) {
    0 <= c <= t.lastCol && 0 <= r <= t.lastRow
  }

  /** What redraw promises about the tile for stack tile (r, c): inside the
      stack it refers to that tile's image and is not flagged hidden;
      outside it is flagged hidden and invisible. */
  predicate CellShows(tile: Tile, t: TileInfo, base: string, r: int, c: int) {
    if InRange(t, r, c) then tile.src == Some(TileRef(base, c, r, t.zoom)) && tile.alt != Hidden
    else tile.alt == Hidden && !tile.visible
  }

  /** Apart from cell (i, j), every cell of the grid redraw writes to is
      unchanged, or shown as the swap shows it. */
  predicate OthersKept(l: Layer, r: Layer, i: nat, j: nat)
    requires l.Valid() && r.Valid() && r.Rows() == l.Rows() && r.Cols() == l.Cols()
  {
    forall i', j' ::
      (0 <= i' < l.Rows() && 0 <= j' < l.Cols() && (i', j') != (i, j)) ==>
      r.Target()[i'][j'] == l.Target()[i'][j'] || r.Target()[i'][j'] == Shown(l.Target()[i'][j'])
  }

  /** A cell that already refers to the right image: while buffering it is
      counted as loaded (which may complete the swap), otherwise it is
      shown once its image has loaded. */
  function ReloadCell(l: Layer, i: nat, j: nat, t1: Tile): (r: Layer)
    requires l.Valid() && i < l.Rows() && j < l.Cols() && t1.alt != Hidden
    ensures r.Valid() && r.Rows() == l.Rows() && r.Cols() == l.Cols()
    ensures r.origR == l.origR && r.origC == l.origC && r.toBuffer == l.toBuffer
    ensures r.buffering ==> l.buffering && r.tiles == l.tiles
    ensures !l.buffering ==> !r.buffering && r.buffer == l.buffer
    ensures r.Target()[i][j].src == t1.src && r.Target()[i][j].alt != Hidden
    ensures OthersKept(l, r, i, j)
  {
    if l.buffering then BufferLoaded(Put(l, i, j, t1), i, j)
    else Put(l, i, j, if t1.alt != Loading then t1.(visible := true) else t1)
  }

  /** Redraw's work on grid cell (origin + ti, origin + tj), which shows
      stack tile (firstRow + ti, firstCol + tj). */
  function UpdateCell(l: Layer, t: TileInfo, base: string, ti: nat, tj: nat): (r: Layer)
    requires l.Valid() && ti < l.Rows() && tj < l.Cols()
    ensures r.Valid() && r.Rows() == l.Rows() && r.Cols() == l.Cols()
    ensures r.origR == l.origR && r.origC == l.origC && r.toBuffer == l.toBuffer
    ensures r.buffering ==> l.buffering && r.tiles == l.tiles
    ensures !l.buffering ==> !r.buffering && r.buffer == l.buffer
    ensures CellShows(r.Target()[Wrap(l.origR, ti, l.Rows())][Wrap(l.origC, tj, l.Cols())],
      t, base, t.firstRow + ti, t.firstCol + tj)
    ensures OthersKept(l, r, Wrap(l.origR, ti, l.Rows()), Wrap(l.origC, tj, l.Cols()))
  {
    var i := Wrap(l.origR, ti, l.Rows());
    var j := Wrap(l.origC, tj, l.Cols());
    var row := t.firstRow + ti;
    var col := t.firstCol + tj;
    var tile := l.Target()[i][j];
    if InRange(t, row, col) then
      var source := TileRef(base, col, row, t.zoom);
      if tile.src == Some(source) then
        ReloadCell(l, i, j, if tile.alt == Hidden then tile.(alt := Loaded) else tile)
      else Put(l, i, j, tile.(alt := Loading, src := Some(source)))
    else Put(l, i, j, tile.(alt := Hidden, visible := false))
  }

  /** Cell step (a, b) comes at or after step (ti, tj) in row-major order. */
  predicate AtOrAfter(a: nat, b: nat, ti: nat, tj: nat) { a > ti || (a == ti && b >= tj) }

  /** The tile redraw leaves at grid step (a, b), counted from the origin. */
  function CellAt(l: Layer, g: seq<seq<Tile>>, a: nat, b: nat): Tile
    requires l.Valid() && a < l.Rows() && b < l.Cols()
    requires |g| == l.Rows() && forall i :: 0 <= i < |g| ==> |g[i]| == l.Cols()
  {
    g[Wrap(l.origR, a, l.Rows())][Wrap(l.origC, b, l.Cols())]
  }

  /** Every step from (ti, tj) on shows its stack tile in grid `g`. */
  predicate ShowsFrom(l: Layer, g: seq<seq<Tile>>, t: TileInfo, base: string, ti: nat, tj: nat)
    requires l.Valid()
    requires |g| == l.Rows() && forall i :: 0 <= i < |g| ==> |g[i]| == l.Cols()
  {
    forall a, b :: 0 <= a < l.Rows() && 0 <= b < l.Cols() && AtOrAfter(a, b, ti, tj) ==>
      CellShows(CellAt(l, g, a, b), t, base, t.firstRow + a, t.firstCol + b)
  }

  /** Every step before (ti, tj) that shows its stack tile in `g` still
      does in `h`. */
  predicate KeepsBefore(l: Layer, g: seq<seq<Tile>>, h: seq<seq<Tile>>, t: TileInfo, base: string, ti: nat, tj: nat)
    requires l.Valid()
    requires |g| == l.Rows() && forall i :: 0 <= i < |g| ==> |g[i]| == l.Cols()
    requires |h| == l.Rows() && forall i :: 0 <= i < |h| ==> |h[i]| == l.Cols()
  {
    forall a, b :: 0 <= a < l.Rows() && 0 <= b < l.Cols() && !AtOrAfter(a, b, ti, tj) ==>
      CellShows(CellAt(l, g, a, b), t, base, t.firstRow + a, t.firstCol + b) ==>
      CellShows(CellAt(l, h, a, b), t, base, t.firstRow + a, t.firstCol + b)
  }

  /** Every cell from grid step (ti, tj) onwards in row-major order. */
  function CellsFrom(l: Layer, t: TileInfo, base: string, ti: nat, tj: nat): (r: Layer)
    requires l.Valid() && ti <= l.Rows() && tj < l.Cols()
    requires ti == l.Rows() ==> tj == 0
    ensures r.Valid() && r.Rows() == l.Rows() && r.Cols() == l.Cols()
    ensures r.origR == l.origR && r.origC == l.origC && r.toBuffer == l.toBuffer
    ensures r.buffering ==> l.buffering && r.tiles == l.tiles
    ensures !l.buffering ==> !r.buffering && r.buffer == l.buffer
    ensures ShowsFrom(l, r.Target(), t, base, ti, tj)
    ensures KeepsBefore(l, l.Target(), r.Target(), t, base, ti, tj)
    decreases l.Rows() - ti, l.Cols() - tj
  {
    if ti == l.Rows() then l
    else
      var l1 := UpdateCell(l, t, base, ti, tj);
      var ni := if tj + 1 == l.Cols() then ti + 1 else ti;
      var nj := if tj + 1 == l.Cols() then 0 else tj + 1;
      var r := CellsFrom(l1, t, base, ni, nj);
      CellsFromStep(l, l1, r, t, base, ti, tj, ni, nj);
      r
  }

  /** The cell just updated shows its tile, and so do the later ones. */
  lemma ShowsCell(l: Layer, l1: Layer, r: Layer, t: TileInfo, base: string, ti: nat, tj: nat, ni: nat, nj: nat, a: nat, b: nat)
    requires l.Valid() && ti < l.Rows() && tj < l.Cols()
    requires l1 == UpdateCell(l, t, base, ti, tj)
    requires ni == (if tj + 1 == l.Cols() then ti + 1 else ti)
    requires nj == (if tj + 1 == l.Cols() then 0 else tj + 1)
    requires r.Valid() && r.Rows() == l1.Rows() && r.Cols() == l1.Cols()
    requires r.origR == l1.origR && r.origC == l1.origC
    requires ShowsFrom(l1, r.Target(), t, base, ni, nj)
    requires KeepsBefore(l1, l1.Target(), r.Target(), t, base, ni, nj)
    requires a < l.Rows() && b < l.Cols() && AtOrAfter(a, b, ti, tj)
    ensures CellShows(CellAt(l, r.Target(), a, b), t, base, t.firstRow + a, t.firstCol + b)
  {
    if !AtOrAfter(a, b, ni, nj) {
      assert a == ti && b == tj;
      assert CellAt(l1, l1.Target(), a, b) == CellAt(l, l1.Target(), a, b);
    } else {
      assert CellAt(l1, r.Target(), a, b) == CellAt(l, r.Target(), a, b);
    }
  }

  lemma CellsFromStepShows(l: Layer, l1: Layer, r: Layer, t: TileInfo, base: string, ti: nat, tj: nat, ni: nat, nj: nat)
    requires l.Valid() && ti < l.Rows() && tj < l.Cols()
    requires l1 == UpdateCell(l, t, base, ti, tj)
    requires ni == (if tj + 1 == l.Cols() then ti + 1 else ti)
    requires nj == (if tj + 1 == l.Cols() then 0 else tj + 1)
    requires r.Valid() && r.Rows() == l1.Rows() && r.Cols() == l1.Cols()
    requires r.origR == l1.origR && r.origC == l1.origC
    requires ShowsFrom(l1, r.Target(), t, base, ni, nj)
    requires KeepsBefore(l1, l1.Target(), r.Target(), t, base, ni, nj)
    ensures ShowsFrom(l, r.Target(), t, base, ti, tj)
  {
    forall a, b | 0 <= a < l.Rows() && 0 <= b < l.Cols() && AtOrAfter(a, b, ti, tj)
      ensures CellShows(CellAt(l, r.Target(), a, b), t, base, t.firstRow + a, t.firstCol + b)
    {
      ShowsCell(l, l1, r, t, base, ti, tj, ni, nj, a, b);
    }
  }

  /** An earlier cell is not the one just updated, so at most the swap
      showed it, which keeps what it shows. */
  lemma KeepsCell(l: Layer, l1: Layer, r: Layer, t: TileInfo, base: string, ti: nat, tj: nat, ni: nat, nj: nat, a: nat, b: nat)
    requires l.Valid() && ti < l.Rows() && tj < l.Cols()
    requires l1 == UpdateCell(l, t, base, ti, tj)
    requires ni == (if tj + 1 == l.Cols() then ti + 1 else ti)
    requires nj == (if tj + 1 == l.Cols() then 0 else tj + 1)
    requires r.Valid() && r.Rows() == l1.Rows() && r.Cols() == l1.Cols()
    requires r.origR == l1.origR && r.origC == l1.origC
    requires KeepsBefore(l1, l1.Target(), r.Target(), t, base, ni, nj)
    requires a < l.Rows() && b < l.Cols() && !AtOrAfter(a, b, ti, tj)
    requires CellShows(CellAt(l, l.Target(), a, b), t, base, t.firstRow + a, t.firstCol + b)
    ensures CellShows(CellAt(l, r.Target(), a, b), t, base, t.firstRow + a, t.firstCol + b)
  {
    WrapInjective(l.origR, a, ti, l.Rows());
    WrapInjective(l.origC, b, tj, l.Cols());
    assert CellAt(l1, l1.Target(), a, b) == CellAt(l, l1.Target(), a, b);
    assert CellAt(l1, r.Target(), a, b) == CellAt(l, r.Target(), a, b);
  }

  lemma CellsFromStepKeeps(l: Layer, l1: Layer, r: Layer, t: TileInfo, base: string, ti: nat, tj: nat, ni: nat, nj: nat)
    requires l.Valid() && ti < l.Rows() && tj < l.Cols()
    requires l1 == UpdateCell(l, t, base, ti, tj)
    requires ni == (if tj + 1 == l.Cols() then ti + 1 else ti)
    requires nj == (if tj + 1 == l.Cols() then 0 else tj + 1)
    requires r.Valid() && r.Rows() == l1.Rows() && r.Cols() == l1.Cols()
    requires r.origR == l1.origR && r.origC == l1.origC
    requires KeepsBefore(l1, l1.Target(), r.Target(), t, base, ni, nj)
    ensures KeepsBefore(l, l.Target(), r.Target(), t, base, ti, tj)
  {
    forall a, b | 0 <= a < l.Rows() && 0 <= b < l.Cols() && !AtOrAfter(a, b, ti, tj)
      ensures CellShows(CellAt(l, l.Target(), a, b), t, base, t.firstRow + a, t.firstCol + b) ==>
        CellShows(CellAt(l, r.Target(), a, b), t, base, t.firstRow + a, t.firstCol + b)
    {
      if CellShows(CellAt(l, l.Target(), a, b), t, base, t.firstRow + a, t.firstCol + b) {
        KeepsCell(l, l1, r, t, base, ti, tj, ni, nj, a, b);
      }
    }
  }

  lemma CellsFromStep(l: Layer, l1: Layer, r: Layer, t: TileInfo, base: string, ti: nat, tj: nat, ni: nat, nj: nat)
    requires l.Valid() && ti < l.Rows() && tj < l.Cols()
    requires l1 == UpdateCell(l, t, base, ti, tj)
    requires ni == (if tj + 1 == l.Cols() then ti + 1 else ti)
    requires nj == (if tj + 1 == l.Cols() then 0 else tj + 1)
    requires r.Valid() && r.Rows() == l1.Rows() && r.Cols() == l1.Cols()
    requires r.origR == l1.origR && r.origC == l1.origC
    requires ShowsFrom(l1, r.Target(), t, base, ni, nj)
    requires KeepsBefore(l1, l1.Target(), r.Target(), t, base, ni, nj)
    ensures ShowsFrom(l, r.Target(), t, base, ti, tj)
    ensures KeepsBefore(l, l.Target(), r.Target(), t, base, ti, tj)
  {
    CellsFromStepShows(l, l1, r, t, base, ti, tj, ni, nj);
    CellsFromStepKeeps(l, l1, r, t, base, ti, tj, ni, nj);
  }

  // ----- redraw -----

  /** The stack state redraw reads: the current and previous view corner
      (scaled stack pixels), section and scale level, and the section part
      of the tile path. */
  datatype View = View(xc: int, yc: int, z: int, s: int, oldXc: int, oldYc: int, oldZ: int, oldS: int, baseName: string)

  /** Whether redraw fills the buffer: the section changed, or the zoom
      level differs from the one the previous scale used. */
  predicate Buffers(v: View, t: TileInfo) {
    v.z != v.oldZ || t.zoom != Max(0, v.oldS)
  }

  /** The first part of redraw: the pan step when neither section nor
      scale changed, then the buffering decision and a fresh load count. */
  function BeginRedraw(l: Layer, g: Geometry, v: View): (r: Layer)
    requires l.Valid() && g.Valid()
    ensures r.Valid() && r.Rows() == l.Rows() && r.Cols() == l.Cols()
    ensures r.buffering == Buffers(v, TilesForLocation(g, v.xc, v.yc, v.s)) && r.buffered == 0
    ensures var t := TilesForLocation(g, v.xc, v.yc, v.s);
      var xd := t.firstCol - v.oldXc / (g.tileWidth * t.Mag());
      var yd := t.firstRow - v.oldYc / (g.tileHeight * t.Mag());
      if v.z == v.oldZ && v.s == v.oldS then
        r.origR == (l.origR + yd) % l.Rows() && r.origC == (l.origC + xd) % l.Cols()
      else r.origR == l.origR && r.origC == l.origC
    ensures r.buffer == l.buffer
  {
    var t := TilesForLocation(g, v.xc, v.yc, v.s);
    var etw := g.tileWidth * t.Mag();
    var eth := g.tileHeight * t.Mag();
    var l1 :=
      if v.z == v.oldZ && v.s == v.oldS then
        Pan(l, t.firstCol - v.oldXc / etw, t.firstRow - v.oldYc / eth)
      else l;
    var toBuffer := (t.lastCol - Max(0, t.firstCol) + 1) * (t.lastRow - Max(0, t.firstRow) + 1);
    l1.(buffering := Buffers(v, t), buffered := 0, toBuffer := toBuffer)
  }

  /** redraw: BeginRedraw, then every grid cell from the origin on. */
  function Redraw(l: Layer, g: Geometry, v: View): (r: Layer)
    requires l.Valid() && g.Valid()
    ensures r.Valid() && r.Rows() == l.Rows() && r.Cols() == l.Cols()
    ensures r.buffering ==> Buffers(v, TilesForLocation(g, v.xc, v.yc, v.s))
    ensures !Buffers(v, TilesForLocation(g, v.xc, v.yc, v.s)) ==> !r.buffering && r.buffer == l.buffer
  {
    var t := TilesForLocation(g, v.xc, v.yc, v.s);
    CellsFrom(BeginRedraw(l, g, v), t, v.baseName, 0, 0)
  }

  /** After redraw every grid cell, counted from the origin, shows the
      matching stack tile or is hidden when that tile lies outside the
      stack; while the buffer is still loading the displayed grid is the
      one the pan step left. */
  lemma RedrawShowsView(l: Layer, g: Geometry, v: View, ti: nat, tj: nat)
    requires l.Valid() && g.Valid() && ti < l.Rows() && tj < l.Cols()
    ensures var t := TilesForLocation(g, v.xc, v.yc, v.s);
      var r := Redraw(l, g, v);
      CellShows(r.Target()[Wrap(r.origR, ti, r.Rows())][Wrap(r.origC, tj, r.Cols())],
        t, v.baseName, t.firstRow + ti, t.firstCol + tj)
  {
    var t := TilesForLocation(g, v.xc, v.yc, v.s);
    var l2 := BeginRedraw(l, g, v);
    var r := CellsFrom(l2, t, v.baseName, 0, 0);
    assert r == Redraw(l, g, v);
    assert AtOrAfter(ti, tj, 0, 0);
    assert CellShows(CellAt(l2, r.Target(), ti, tj), t, v.baseName, t.firstRow + ti, t.firstCol + tj);
  }

  /** resize as a whole: the grid is brought to GridSize's dimensions and
      then redrawn. */
  function ResizeAndRedraw(l: Layer, g: Geometry, width: int, height: int, v: View): (r: Layer)
    requires g.Valid() && width >= 0 && height >= 0
    requires l == Empty || l.Valid()
    ensures r.Valid() && (r.Rows(), r.Cols()) == GridSize(g, width, height)
    ensures !Buffers(v, TilesForLocation(g, v.xc, v.yc, v.s)) ==> !r.buffering
  {
    Redraw(Resize(l, g, width, height), g, v)
  }

  /** After resize every cell of the resized grid shows the tile of the
      view it stands for. */
  lemma ResizedGridShowsView(l: Layer, g: Geometry, width: int, height: int, v: View, ti: nat, tj: nat)
    requires g.Valid() && width >= 0 && height >= 0
    requires l == Empty || l.Valid()
    requires ti < GridSize(g, width, height).0 && tj < GridSize(g, width, height).1
    ensures var t := TilesForLocation(g, v.xc, v.yc, v.s);
      var r := ResizeAndRedraw(l, g, width, height, v);
      CellShows(r.Target()[Wrap(r.origR, ti, r.Rows())][Wrap(r.origC, tj, r.Cols())],
        t, v.baseName, t.firstRow + ti, t.firstCol + tj)
  {
    RedrawShowsView(Resize(l, g, width, height), g, v, ti, tj);
  }

  // ----- Tile caching -----

  /** One round of cacheTiles: the progress report made on entry and the
      tile indices loaded in that round. */
  datatype CacheRound = CacheRound(remaining: nat, cachedCounter: nat, batch: seq<seq<int>>)

  const MaxCachedTiles := 3000
  const CacheBatchSize := 16

  /** The rounds of cacheTiles once every image of a round has loaded or
      failed: each round reports how many indices remain and how many were
      cached, then loads up to 16 of them; the last report has none left. */
  function CacheRounds(indices: seq<seq<int>>, cachedCounter: nat): (rounds: seq<CacheRound>)
    ensures |rounds| > 0
    ensures rounds[0].remaining == Min(|indices|, MaxCachedTiles) && rounds[0].cachedCounter == cachedCounter
    ensures rounds[|rounds| - 1].remaining == 0 && rounds[|rounds| - 1].batch == []
    ensures forall k :: 0 <= k < |rounds| ==> |rounds[k].batch| == Min(CacheBatchSize, rounds[k].remaining)
    decreases |indices|
  {
    var ind := if |indices| > MaxCachedTiles then indices[..MaxCachedTiles] else indices;
    if |ind| == 0 then [CacheRound(0, cachedCounter, [])]
    else
      var n := Min(CacheBatchSize, |ind|);
      [CacheRound(|ind|, cachedCounter, ind[..n])] + CacheRounds(ind[n..], cachedCounter + n)
  }

  function Batches(rounds: seq<CacheRound>): seq<seq<int>>
  {
    if |rounds| == 0 then [] else rounds[0].batch + Batches(rounds[1..])
  }

  /** Batches of a round followed by more rounds. */
  lemma BatchesCons(r: CacheRound, rest: seq<CacheRound>)
    ensures Batches([r] + rest) == r.batch + Batches(rest)
  {
    assert ([r] + rest)[1..] == rest;
  }

  /** One round of cacheTiles on a non-empty list: the first batch, then
      the rounds of what is left. */
  lemma CacheRoundsFirst(indices: seq<seq<int>>, cachedCounter: nat, ind: seq<seq<int>>, n: nat)
    requires ind == indices[..Min(|indices|, MaxCachedTiles)] && |ind| > 0
    requires n == Min(CacheBatchSize, |ind|)
    ensures CacheRounds(indices, cachedCounter) == [CacheRound(|ind|, cachedCounter, ind[..n])] + CacheRounds(ind[n..], cachedCounter + n)
  {
    assert ind == if |indices| > MaxCachedTiles then indices[..MaxCachedTiles] else indices;
  }

  lemma TakeRestAll(ind: seq<seq<int>>, n: nat)
    requires n <= |ind| <= MaxCachedTiles
    ensures ind[n..][..Min(|ind[n..]|, MaxCachedTiles)] == ind[n..]
    ensures ind[..n] + ind[n..] == ind
  {
  }

  /** Every requested index up to the first 3000 is loaded exactly once and
      in order. */
  lemma {:induction false} CacheRoundsBatches(indices: seq<seq<int>>, cachedCounter: nat)
    ensures Batches(CacheRounds(indices, cachedCounter)) == indices[..Min(|indices|, MaxCachedTiles)]
    decreases |indices|
  {
    var ind := indices[..Min(|indices|, MaxCachedTiles)];
    if |ind| > 0 {
      var n := Min(CacheBatchSize, |ind|);
      CacheRoundsFirst(indices, cachedCounter, ind, n);
      CacheRoundsBatches(ind[n..], cachedCounter + n);
      TakeRestAll(ind, n);
      BatchesCons(CacheRound(|ind|, cachedCounter, ind[..n]), CacheRounds(ind[n..], cachedCounter + n));
    } else {
      assert CacheRounds(indices, cachedCounter) == [CacheRound(0, cachedCounter, [])];
    }
  }

  /** The last report counts every index loaded. */
  lemma {:induction false} CacheRoundsCounter(indices: seq<seq<int>>, cachedCounter: nat)
    ensures var rounds := CacheRounds(indices, cachedCounter);
      rounds[|rounds| - 1].cachedCounter == cachedCounter + Min(|indices|, MaxCachedTiles)
    decreases |indices|
  {
    var ind := indices[..Min(|indices|, MaxCachedTiles)];
    if |ind| > 0 {
      var n := Min(CacheBatchSize, |ind|);
      var rest := CacheRounds(ind[n..], cachedCounter + n);
      CacheRoundsFirst(indices, cachedCounter, ind, n);
      CacheRoundsCounter(ind[n..], cachedCounter + n);
      assert ([CacheRound(|ind|, cachedCounter, ind[..n])] + rest)[|rest|] == rest[|rest| - 1];
    } else {
      assert CacheRounds(indices, cachedCounter) == [CacheRound(0, cachedCounter, [])];
    }
  }

  /** Every requested index up to the first 3000 is loaded exactly once, in
      order, and the counter of the last round is what all rounds loaded. */
  lemma CacheRoundsLoadAll(indices: seq<seq<int>>, cachedCounter: nat)
    ensures Batches(CacheRounds(indices, cachedCounter)) == indices[..Min(|indices|, MaxCachedTiles)]
    ensures var rounds := CacheRounds(indices, cachedCounter);
      rounds[|rounds| - 1].cachedCounter == cachedCounter + Min(|indices|, MaxCachedTiles)
  {
    CacheRoundsBatches(indices, cachedCounter);
    CacheRoundsCounter(indices, cachedCounter);
  }
}
