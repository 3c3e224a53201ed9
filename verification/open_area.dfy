/** The in-progress open polygon of
    httpdocs/experiment/svg-polylines/overlay_openarea.js: it starts with
    one vertex, grows by a vertex per click unless a dot is being dragged,
    and a dragged dot writes its position back into its own vertex. */
module OpenArea {
  import opened Common
  import SvgPath

  /** A vertex dot: its index in the area and its circle's centre. */
  datatype VertexDot = VertexDot(index: int, pos: (real, real))

  datatype OpenArea = OpenArea(xs: seq<real>, ys: seq<real>, isDragging: bool, dots: seq<VertexDot>)

  /** Every vertex has a dot numbered by its position, sitting on it. */
  predicate Synced(a: OpenArea)
  {
    && |a.xs| == |a.ys| == |a.dots|
    && forall j | 0 <= j < |a.dots| :: a.dots[j] == VertexDot(j, (a.xs[j], a.ys[j]))
  }

  /** The constructor: exactly one vertex and its dot. */
  function NewOpenArea(x: real, y: real): (a: OpenArea)
    ensures Synced(a) && !a.isDragging
    ensures a.xs == [x] && a.ys == [y] && |a.dots| == 1
  {
    OpenArea([x], [y], false, [VertexDot(0, (x, y))])
  }

  /** dotDragging: the flag the drag start and end handlers set. */
  function DotDragging(a: OpenArea, isIt: bool): (r: OpenArea)
    ensures r.isDragging == isIt
    ensures r.xs == a.xs && r.ys == a.ys && r.dots == a.dots
  {
    a.(isDragging := isIt)
  }

  /** addXY: a click appends a vertex and its dot, unless a dot is being
      dragged. */
  function AddXY(a: OpenArea, x: real, y: real): (r: OpenArea)
    requires Synced(a)
    ensures Synced(r)
    ensures !a.isDragging ==> r.xs == a.xs + [x] && r.ys == a.ys + [y]
    ensures a.isDragging ==> r == a
  {
    if !a.isDragging then
      a.(xs := a.xs + [x], ys := a.ys + [y], dots := a.dots + [VertexDot(|a.dots|, (x, y))])
    else a
  }

  /** setVertex: moves vertex i when i is below the length; a negative
      index sets an array property that is not an element. */
  function SetVertex(a: OpenArea, i: int, x: real, y: real): (r: OpenArea)
    requires |a.xs| == |a.ys|
    ensures 0 <= i < |a.xs| ==> r.xs == a.xs[i := x] && r.ys == a.ys[i := y]
    ensures !(0 <= i < |a.xs|) ==> r.xs == a.xs && r.ys == a.ys
    ensures r.dots == a.dots && r.isDragging == a.isDragging
  {
    if i < |a.xs| && i >= 0 then a.(xs := a.xs[i := x], ys := a.ys[i := y]) else a
  }

  /** updateLocation of dot j, its circle now at (cx, cy): the dot takes
      the position and writes it into the vertex of its index. */
  function UpdateLocation(a: OpenArea, j: int, cx: real, cy: real): (r: OpenArea)
    requires |a.xs| == |a.ys| && 0 <= j < |a.dots|
    ensures |r.xs| == |r.ys| && |r.dots| == |a.dots| && r.isDragging == a.isDragging
  {
    var d := a.dots[j].(pos := (cx, cy));
    SetVertex(a.(dots := a.dots[j := d]), d.index, cx, cy)
  }

  /** A moved dot keeps the area in step: vertex j is now where dot j is,
      and nothing else moves. */
  lemma UpdateLocationSynced(a: OpenArea, j: int, cx: real, cy: real)
    requires Synced(a) && 0 <= j < |a.dots|
    ensures Synced(UpdateLocation(a, j, cx, cy))
    ensures UpdateLocation(a, j, cx, cy).xs == a.xs[j := cx]
    ensures UpdateLocation(a, j, cx, cy).ys == a.ys[j := cy]
    ensures UpdateLocation(a, j, cx, cy).isDragging == a.isDragging
  {
  }

  /** A whole drag of dot j: the start handler, one move per position, and
      the end handler, which clears the flag and updates once more. */
  function Drag(a: OpenArea, j: int, moves: seq<(real, real)>): (r: OpenArea)
    requires |a.xs| == |a.ys| && 0 <= j < |a.dots|
  {
    var started := DotDragging(a, true);
    var moved := Moves(started, j, moves);
    UpdateLocation(DotDragging(moved, false), j, moved.dots[j].pos.0, moved.dots[j].pos.1)
  }

  function Moves(a: OpenArea, j: int, moves: seq<(real, real)>): (r: OpenArea)
    requires |a.xs| == |a.ys| && 0 <= j < |a.dots|
    ensures |r.xs| == |r.ys| && |r.dots| == |a.dots| && r.isDragging == a.isDragging
    decreases |moves|
  {
    if moves == [] then a
    else Moves(UpdateLocation(a, j, moves[0].0, moves[0].1), j, moves[1..])
  }

  /** During a drag every click is ignored, and every move keeps the dots
      on their vertices. */
  lemma {:induction false} MovesSynced(a: OpenArea, j: int, moves: seq<(real, real)>, x: real, y: real)
    requires Synced(a) && 0 <= j < |a.dots| && a.isDragging
    ensures Synced(Moves(a, j, moves))
    ensures AddXY(Moves(a, j, moves), x, y) == Moves(a, j, moves)
    ensures moves != [] ==> Moves(a, j, moves).xs == a.xs[j := moves[|moves| - 1].0]
    ensures moves == [] ==> Moves(a, j, moves) == a
    decreases |moves|
  {
    if moves != [] {
      var next := UpdateLocation(a, j, moves[0].0, moves[0].1);
      UpdateLocationSynced(a, j, moves[0].0, moves[0].1);
      MovesSynced(next, j, moves[1..], x, y);
      if |moves| > 1 {
        assert moves[1..][|moves[1..]| - 1] == moves[|moves| - 1];
        assert next.xs[j := moves[|moves| - 1].0] == a.xs[j := moves[|moves| - 1].0];
      }
    }
  }

  /** After a drag the flag is down again, the dots are still on their
      vertices, and the dragged vertex is at the last position moved to. */
  lemma DragEnds(a: OpenArea, j: int, moves: seq<(real, real)>)
    requires Synced(a) && 0 <= j < |a.dots|
    ensures !Drag(a, j, moves).isDragging && Synced(Drag(a, j, moves))
    ensures moves != [] ==> Drag(a, j, moves).xs == a.xs[j := moves[|moves| - 1].0]
    ensures moves == [] ==> Drag(a, j, moves).xs == a.xs
  {
    var started := DotDragging(a, true);
    MovesSynced(started, j, moves, 0.0, 0.0);
    var moved := Moves(started, j, moves);
    UpdateLocationSynced(DotDragging(moved, false), j, moved.dots[j].pos.0, moved.dots[j].pos.1);
  }

  /** getSVGPath on the open area's vertices. */
  function Path(a: OpenArea, num: real -> string): string
    requires Synced(a)
  {
    SvgPath.SvgPathText(a.xs, a.ys, num)
  }

  /** The drawn path of an area reads back as its vertices. */
  lemma PathReadsBack(a: OpenArea, num: real -> string, read: string -> Option<real>)
    requires Synced(a) && |a.xs| > 0
    requires SvgPath.AllPrintBack(num, read, a.xs) && SvgPath.AllPrintBack(num, read, a.ys)
    ensures SvgPath.ReadPath(Path(a, num), read) == Some((a.xs, a.ys))
  {
    SvgPath.ReadSvgPath(a.xs, a.ys, num, read);
  }
}
