/** The polygon area editor of httpdocs/widgets/overlay_area.js: vertex
    lists, one vertex dot per vertex, and in edit mode one midpoint dot per
    edge that can be dragged out into a new vertex. */
module AreaEditor {
  import opened Common
  import SvgPath

  /** createvertices appends a vertex per click; editvertices shows midpoints. */
  datatype Mode = CreateVertices | EditVertices

  /** A draggable dot: its index in the area, its position (absent when a
      midpoint is made for an index with no edge), and whether it is a
      midpoint. */
  datatype Dot = Dot(index: int, pos: Option<(real, real)>, isMidpoint: bool)

  datatype Area = Area(xs: seq<real>, ys: seq<real>, mode: Mode, ignoreClick: bool,
                       dots: seq<Dot>, mdots: seq<Dot>)

  /** The initial coordinates: a single number pair or two arrays. */
  datatype Coords = Scalar(x: real, y: real) | Arrays(ax: seq<real>, ay: seq<real>)

  /** The editor's bookkeeping: one vertex dot per vertex, numbered by
      position; no midpoints while creating; in edit mode one midpoint per
      edge, midpoint j numbered j + 1, once the polygon has two vertices. */
  predicate Valid(a: Area)
  {
    && |a.xs| == |a.ys| == |a.dots|
    && (forall j | 0 <= j < |a.dots| :: a.dots[j].index == j && !a.dots[j].isMidpoint)
    && (forall j | 0 <= j < |a.mdots| :: a.mdots[j].index == j + 1 && a.mdots[j].isMidpoint)
    && (a.mode == CreateVertices ==> a.mdots == [])
    && (a.mode == EditVertices ==> |a.mdots| == if |a.xs| > 1 then |a.xs| else 0)
  }

  function Mid(p: real, q: real): real { (p + q) / 2.0 }

  /** The halfway point of edge j, from vertex j to the next one, the last
      edge closing the ring. */
  function EdgeMid(xs: seq<real>, ys: seq<real>, j: int): Option<(real, real)>
    requires |xs| == |ys| && 0 <= j < |xs|
  {
    var k := if j + 1 < |xs| then j + 1 else 0;
    Some((Mid(xs[j], xs[k]), Mid(ys[j], ys[k])))
  }

  /** What the user sees agrees with the vertex lists: every vertex dot
      sits on its vertex and every midpoint halfway along its edge. */
  predicate Placed(a: Area)
    requires Valid(a)
  {
    && (forall j | 0 <= j < |a.dots| :: a.dots[j].pos == Some((a.xs[j], a.ys[j])))
    && (forall j | 0 <= j < |a.mdots| :: a.mdots[j].pos == EdgeMid(a.xs, a.ys, j))
  }

  /** Array.splice(i, 0, x). */
  function Insert<T>(s: seq<T>, i: int, x: T): (r: seq<T>)
    requires 0 <= i <= |s|
    ensures |r| == |s| + 1
    ensures forall j | 0 <= j < |r| :: r[j] == if j < i then s[j] else if j == i then x else s[j - 1]
  {
    s[..i] + [x] + s[i..]
  }

  /** Array.splice(i, 1, x, y). */
  function ReplaceByTwo<T>(s: seq<T>, i: int, x: T, y: T): (r: seq<T>)
    requires 0 <= i < |s|
    ensures |r| == |s| + 1
    ensures forall j | 0 <= j < |r| :: r[j] == if j < i then s[j] else if j == i then x else if j == i + 1 then y else s[j - 1]
  {
    s[..i] + [x, y] + s[i + 1..]
  }

  function VertexDots(xs: seq<real>, ys: seq<real>): (r: seq<Dot>)
    requires |xs| == |ys|
    ensures |r| == |xs|
    ensures forall j | 0 <= j < |xs| :: r[j] == Dot(j, Some((xs[j], ys[j])), false)
  {
    seq(|xs|, j requires 0 <= j < |xs| => Dot(j, Some((xs[j], ys[j])), false))
  }

  /** The constructor: a number pair becomes a one-vertex polygon, arrays
      are taken as they are; each vertex gets a dot, creation mode. */
  function NewArea(c: Coords): (a: Area)
    requires c.Arrays? ==> |c.ax| == |c.ay|
    ensures Valid(a) && Placed(a)
    ensures c.Scalar? ==> a.xs == [c.x] && a.ys == [c.y]
    ensures c.Arrays? ==> a.xs == c.ax && a.ys == c.ay
    ensures a.mode == CreateVertices && !a.ignoreClick
  {
    var (xs, ys) := if c.Scalar? then ([c.x], [c.y]) else (c.ax, c.ay);
    Area(xs, ys, CreateVertices, false, VertexDots(xs, ys), [])
  }

  /** addXY: a click appends a vertex (and its dot) only while creating and
      not dragging. */
  function AddXY(a: Area, x: real, y: real): (r: Area)
    requires Valid(a)
    ensures Valid(r) && (Placed(a) ==> Placed(r))
    ensures a.mode == CreateVertices && !a.ignoreClick ==>
              r.xs == a.xs + [x] && r.ys == a.ys + [y] && r.dots[..|a.dots|] == a.dots
    ensures !(a.mode == CreateVertices && !a.ignoreClick) ==> r == a
  {
    if a.mode == CreateVertices && !a.ignoreClick then
      a.(xs := a.xs + [x], ys := a.ys + [y], dots := a.dots + [Dot(|a.dots|, Some((x, y)), false)])
    else a
  }

  /** setVertex: moves vertex i when i is below the length. A negative
      index only sets an array property that is not an element, so the
      vertex lists do not change. The dots are not touched: the caller
      is expected to have moved the dot already. */
  function SetVertex(a: Area, i: int, x: real, y: real): (r: Area)
    requires Valid(a)
    ensures Valid(r)
    ensures 0 <= i < |a.xs| ==> r.xs == a.xs[i := x] && r.ys == a.ys[i := y]
    ensures !(0 <= i < |a.xs|) ==> r == a
    ensures r.dots == a.dots && r.mdots == a.mdots && r.mode == a.mode
  {
    if i < |a.xs| && i >= 0 then a.(xs := a.xs[i := x], ys := a.ys[i := y]) else a
  }

  /** makeMidpoint(i): the midpoint dot with index i, between vertices
      i - 1 and i for 0 < i < l and between the last and the first vertex
      for i = l; any other index gets no position. */
  function MakeMidpoint(xs: seq<real>, ys: seq<real>, i: int): (d: Dot)
    requires |xs| == |ys|
    ensures d.index == i && d.isMidpoint
    ensures d.pos.Some? <==> 0 < i <= |xs|
    ensures 0 < i <= |xs| ==> d.pos == EdgeMid(xs, ys, i - 1)
  {
    var l := |xs|;
    if 0 < i < l then Dot(i, Some((Mid(xs[i], xs[i - 1]), Mid(ys[i], ys[i - 1]))), true)
    else if i == l && l > 0 then Dot(i, Some((Mid(xs[l - 1], xs[0]), Mid(ys[l - 1], ys[0]))), true)
    else Dot(i, None, true)
  }

  /** createMidpoints: l midpoints, numbered 1 .. l, when there are at
      least two vertices; none otherwise. */
  function Midpoints(xs: seq<real>, ys: seq<real>): (r: seq<Dot>)
    requires |xs| == |ys|
    ensures |r| == if |xs| > 1 then |xs| else 0
    ensures forall j | 0 <= j < |r| :: r[j] == MakeMidpoint(xs, ys, j + 1)
  {
    if |xs| > 1 then seq(|xs|, j requires 0 <= j < |xs| => MakeMidpoint(xs, ys, j + 1)) else []
  }

  /** switchMode: creating becomes editing and gains the midpoints, each
      halfway along its edge; editing becomes creating and loses them all. */
  function SwitchMode(a: Area): (r: Area)
    requires Valid(a)
    ensures Valid(r) && (Placed(a) ==> Placed(r))
    ensures r.mode != a.mode
    ensures r.xs == a.xs && r.ys == a.ys && r.dots == a.dots
    ensures a.mode == CreateVertices ==> |r.mdots| == if |a.xs| > 1 then |a.xs| else 0
    ensures a.mode == EditVertices ==> r.mdots == []
  {
    if a.mode == CreateVertices then a.(mode := EditVertices, mdots := a.mdots + Midpoints(a.xs, a.ys))
    else a.(mode := CreateVertices, mdots := [])
  }

  /** Switching twice from creation mode gives back the same area. */
  lemma SwitchModeTwice(a: Area)
    requires Valid(a) && a.mode == CreateVertices
    ensures SwitchMode(SwitchMode(a)) == a
  {
  }

  /** The drag handlers tell the area to ignore clicks while a dot moves;
      clicks are ignored exactly while the flag is set. */
  lemma IgnoredWhileDragging(a: Area, x: real, y: real)
    requires Valid(a) && a.mode == CreateVertices
    ensures AddXY(a.(ignoreClick := true), x, y) == a.(ignoreClick := true)
    ensures |AddXY(a.(ignoreClick := false), x, y).xs| == |a.xs| + 1
  {
  }

  /** A vertex dot i dragged to (cx, cy): the vertex follows, and in edit
      mode so do the two midpoints of the edges that meet at i. */
  function VertexDrag(a: Area, i: int, cx: real, cy: real): (r: Area)
    requires Valid(a) && 0 <= i < |a.xs|
    ensures Valid(r) && (Placed(a) ==> Placed(r))
    ensures r.xs == a.xs[i := cx] && r.ys == a.ys[i := cy]
    ensures r.dots[i].pos == Some((cx, cy)) && r.mode == a.mode
    ensures |r.mdots| == |a.mdots|
  {
    var dots := a.dots[i := a.dots[i].(pos := Some((cx, cy)))];
    var xs := a.xs[i := cx];
    var ys := a.ys[i := cy];
    var mdots :=
      if a.mode == EditVertices && |a.mdots| > 0 then
        var l := |a.mdots|;
        var iLeftMP := if i == 0 then l - 1 else i - 1;
        var iLeftVP := if i == 0 then |dots| - 1 else i - 1;
        var iRightVP := if i + 1 == |dots| then 0 else i + 1;
        var m1 := a.mdots[iLeftMP].(pos := MidOf(dots[iLeftVP].pos, dots[i].pos));
        var m2 := a.mdots[i].(pos := MidOf(dots[i].pos, dots[iRightVP].pos));
        a.mdots[iLeftMP := m1][i := m2]
      else a.mdots;
    var r := a.(xs := xs, ys := ys, dots := dots, mdots := mdots);
    VertexDragPlaced(a, i, cx, cy, r);
    r
  }

  /** Only the edges meeting at vertex i change their halfway point when
      vertex i moves. */
  lemma EdgeMidAway(xs: seq<real>, ys: seq<real>, i: int, cx: real, cy: real, j: int)
    requires |xs| == |ys| && 0 <= i < |xs| && 0 <= j < |xs|
    requires j != i && (if j + 1 < |xs| then j + 1 else 0) != i
    ensures EdgeMid(xs[i := cx], ys[i := cy], j) == EdgeMid(xs, ys, j)
  {
  }

  /** One midpoint after a vertex drag: the two next to the vertex are
      recomputed, every other edge keeps both its ends. */
  lemma VertexDragMid(a: Area, i: int, cx: real, cy: real, r: Area, j: int)
    requires Valid(a) && 0 <= i < |a.xs|
    requires r.xs == a.xs[i := cx] && r.ys == a.ys[i := cy] && r.mode == a.mode
    requires r.dots == a.dots[i := a.dots[i].(pos := Some((cx, cy)))]
    requires !(a.mode == EditVertices && |a.mdots| > 0) ==> r.mdots == a.mdots
    requires a.mode == EditVertices && |a.mdots| > 0 ==>
               var l := |a.mdots|;
               var iLeft := if i == 0 then l - 1 else i - 1;
               var iRight := if i + 1 == l then 0 else i + 1;
               r.mdots == a.mdots[iLeft := a.mdots[iLeft].(pos := MidOf(r.dots[iLeft].pos, r.dots[i].pos))]
                                 [i := a.mdots[i].(pos := MidOf(r.dots[i].pos, r.dots[iRight].pos))]
    requires Placed(a) && 0 <= j < |r.mdots|
    ensures |r.mdots| == |a.mdots| && r.mdots[j].pos == EdgeMid(r.xs, r.ys, j)
  {
    var l := |a.xs|;
    var iLeft := if i == 0 then l - 1 else i - 1;
    var next := if j + 1 < l then j + 1 else 0;
    if j != iLeft && j != i {
      assert next != i;
      EdgeMidAway(a.xs, a.ys, i, cx, cy, j);
    }
  }

  lemma VertexDragPlaced(a: Area, i: int, cx: real, cy: real, r: Area)
    requires Valid(a) && 0 <= i < |a.xs|
    requires r.xs == a.xs[i := cx] && r.ys == a.ys[i := cy] && r.mode == a.mode
    requires r.dots == a.dots[i := a.dots[i].(pos := Some((cx, cy)))]
    requires !(a.mode == EditVertices && |a.mdots| > 0) ==> r.mdots == a.mdots
    requires a.mode == EditVertices && |a.mdots| > 0 ==>
               var l := |a.mdots|;
               var iLeft := if i == 0 then l - 1 else i - 1;
               var iRight := if i + 1 == l then 0 else i + 1;
               r.mdots == a.mdots[iLeft := a.mdots[iLeft].(pos := MidOf(r.dots[iLeft].pos, r.dots[i].pos))]
                                 [i := a.mdots[i].(pos := MidOf(r.dots[i].pos, r.dots[iRight].pos))]
    ensures Valid(r) && (Placed(a) ==> Placed(r))
  {
    if Placed(a) {
      forall j | 0 <= j < |r.mdots| ensures r.mdots[j].pos == EdgeMid(r.xs, r.ys, j) {
        VertexDragMid(a, i, cx, cy, r, j);
      }
    }
  }

  /** setMidpointLocation: halfway between two dot positions. */
  function MidOf(p: Option<(real, real)>, q: Option<(real, real)>): Option<(real, real)>
  {
    if p.Some? && q.Some? then Some((Mid(p.value.0, q.value.0), Mid(p.value.1, q.value.1))) else None
  }

  /** Renumbering the dots from position i on after an insertion. */
  function Shifted(ds: seq<Dot>, i: int): (r: seq<Dot>)
    requires 0 <= i <= |ds|
    ensures |r| == |ds|
    ensures forall j | 0 <= j < |ds| :: r[j] == if j < i then ds[j] else ds[j].(index := ds[j].index + 1)
  {
    seq(|ds|, j requires 0 <= j < |ds| => if j < i then ds[j] else ds[j].(index := ds[j].index + 1))
  }

  /** A midpoint i (0 < i <= l) dragged to (cx, cy) becomes a vertex: the
      position is inserted at i, later dots are renumbered, the dragged dot
      joins the vertex dots, and in the midpoint list it is replaced by the
      midpoints of the two new edges. */
  function MidpointDrag(a: Area, i: int, cx: real, cy: real): (r: Area)
    requires Valid(a) && a.mode == EditVertices && |a.xs| > 1 && 0 < i <= |a.xs|
    ensures Valid(r) && (Placed(a) ==> Placed(r))
    ensures r.xs == Insert(a.xs, i, cx) && r.ys == Insert(a.ys, i, cy)
    ensures r.dots[i] == Dot(i, Some((cx, cy)), false) && r.mode == a.mode
    ensures |r.mdots| == |a.mdots| + 1
  {
    var xs := Insert(a.xs, i, cx);
    var ys := Insert(a.ys, i, cy);
    var vertex := a.mdots[i - 1].(pos := Some((cx, cy)), isMidpoint := false);
    var dots := Insert(Shifted(a.dots, i), i, vertex);
    var m1 := MakeMidpoint(xs, ys, i);
    var m2 := MakeMidpoint(xs, ys, i + 1);
    var mdots := ReplaceByTwo(Shifted(a.mdots, i), i - 1, m1, m2);
    var r := a.(xs := xs, ys := ys, dots := dots, mdots := mdots);
    MidpointDragPlaced(a, i, cx, cy, r);
    r
  }

  /** The halfway point of an edge is unchanged by inserting a vertex that
      does not lie on it: edges left of i keep their numbers, edges right
      of it move up by one. */
  lemma EdgeMidAfterInsert(xs: seq<real>, ys: seq<real>, i: int, cx: real, cy: real, j: int)
    requires |xs| == |ys| && 0 < i <= |xs| && 0 <= j < |xs| + 1 && j != i - 1 && j != i
    ensures var k := if j < i then j else j - 1;
            EdgeMid(Insert(xs, i, cx), Insert(ys, i, cy), j) == EdgeMid(xs, ys, k)
  {
  }

  lemma MidpointDragValid(a: Area, i: int, cx: real, cy: real, r: Area)
    requires Valid(a) && a.mode == EditVertices && |a.xs| > 1 && 0 < i <= |a.xs|
    requires r.xs == Insert(a.xs, i, cx) && r.ys == Insert(a.ys, i, cy) && r.mode == a.mode
    requires r.dots == Insert(Shifted(a.dots, i), i, a.mdots[i - 1].(pos := Some((cx, cy)), isMidpoint := false))
    requires r.mdots == ReplaceByTwo(Shifted(a.mdots, i), i - 1, MakeMidpoint(r.xs, r.ys, i), MakeMidpoint(r.xs, r.ys, i + 1))
    ensures Valid(r)
  {
    forall j | 0 <= j < |r.dots| ensures r.dots[j].index == j && !r.dots[j].isMidpoint {
      if j > i {
        assert r.dots[j] == Shifted(a.dots, i)[j - 1];
      }
    }
    forall j | 0 <= j < |r.mdots| ensures r.mdots[j].index == j + 1 && r.mdots[j].isMidpoint {
      if j > i {
        assert r.mdots[j] == Shifted(a.mdots, i)[j - 1];
      }
    }
  }

  lemma MidpointDragDotsPlaced(a: Area, i: int, cx: real, cy: real, r: Area)
    requires Valid(a) && Placed(a) && a.mode == EditVertices && |a.xs| > 1 && 0 < i <= |a.xs|
    requires r.xs == Insert(a.xs, i, cx) && r.ys == Insert(a.ys, i, cy)
    requires r.dots == Insert(Shifted(a.dots, i), i, a.mdots[i - 1].(pos := Some((cx, cy)), isMidpoint := false))
    ensures forall j | 0 <= j < |r.dots| :: r.dots[j].pos == Some((r.xs[j], r.ys[j]))
  {
    forall j | 0 <= j < |r.dots| ensures r.dots[j].pos == Some((r.xs[j], r.ys[j])) {
      if j > i {
        assert r.dots[j] == Shifted(a.dots, i)[j - 1];
      }
    }
  }

  lemma MidpointDragMidsPlaced(a: Area, i: int, cx: real, cy: real, r: Area)
    requires Valid(a) && Placed(a) && a.mode == EditVertices && |a.xs| > 1 && 0 < i <= |a.xs|
    requires r.xs == Insert(a.xs, i, cx) && r.ys == Insert(a.ys, i, cy)
    requires r.mdots == ReplaceByTwo(Shifted(a.mdots, i), i - 1, MakeMidpoint(r.xs, r.ys, i), MakeMidpoint(r.xs, r.ys, i + 1))
    ensures |r.mdots| == |r.xs|
    ensures forall j | 0 <= j < |r.mdots| :: r.mdots[j].pos == EdgeMid(r.xs, r.ys, j)
  {
    forall j | 0 <= j < |r.mdots| ensures r.mdots[j].pos == EdgeMid(r.xs, r.ys, j) {
      if j < i - 1 {
        assert r.mdots[j] == a.mdots[j];
        EdgeMidAfterInsert(a.xs, a.ys, i, cx, cy, j);
      } else if j > i {
        assert r.mdots[j].pos == a.mdots[j - 1].pos;
        EdgeMidAfterInsert(a.xs, a.ys, i, cx, cy, j);
      }
    }
  }

  lemma MidpointDragPlaced(a: Area, i: int, cx: real, cy: real, r: Area)
    requires Valid(a) && a.mode == EditVertices && |a.xs| > 1 && 0 < i <= |a.xs|
    requires r.xs == Insert(a.xs, i, cx) && r.ys == Insert(a.ys, i, cy) && r.mode == a.mode
    requires r.dots == Insert(Shifted(a.dots, i), i, a.mdots[i - 1].(pos := Some((cx, cy)), isMidpoint := false))
    requires r.mdots == ReplaceByTwo(Shifted(a.mdots, i), i - 1, MakeMidpoint(r.xs, r.ys, i), MakeMidpoint(r.xs, r.ys, i + 1))
    ensures Valid(r) && (Placed(a) ==> Placed(r))
  {
    MidpointDragValid(a, i, cx, cy, r);
    if Placed(a) {
      MidpointDragDotsPlaced(a, i, cx, cy, r);
      MidpointDragMidsPlaced(a, i, cx, cy, r);
    }
  }

  /** The move handler of a dragged dot v, now at (cx, cy): syncLocation
      followed by handleDrag. A vertex dot drags its vertex, a midpoint
      becomes a new vertex. The dot is one of the area's, so the index range
      tests of the handler always pass. */
  function HandleDrag(a: Area, v: Dot, cx: real, cy: real): (r: Area)
    requires Valid(a)
    requires v in a.dots || v in a.mdots
    ensures Valid(r) && (Placed(a) ==> Placed(r))
    ensures !v.isMidpoint ==> 0 <= v.index < |a.xs| && r.xs == a.xs[v.index := cx] && r.ys == a.ys[v.index := cy]
    ensures v.isMidpoint ==> 0 < v.index <= |a.xs| && r.xs == Insert(a.xs, v.index, cx) && r.ys == Insert(a.ys, v.index, cy)
                             && r.dots[v.index] == Dot(v.index, Some((cx, cy)), false)
    ensures |r.dots| == |r.xs| && r.mode == a.mode
  {
    DotRange(a, v);
    if !v.isMidpoint then VertexDrag(a, v.index, cx, cy)
    else MidpointDrag(a, v.index, cx, cy)
  }

  /** Where a dot of a valid area can be. */
  lemma DotRange(a: Area, v: Dot)
    requires Valid(a) && (v in a.dots || v in a.mdots)
    ensures !v.isMidpoint ==> 0 <= v.index < |a.xs|
    ensures v.isMidpoint ==> 0 < v.index <= |a.xs| && a.mode == EditVertices && |a.xs| > 1
  {
    if v in a.dots {
      var k :| 0 <= k < |a.dots| && a.dots[k] == v;
    } else {
      var k :| 0 <= k < |a.mdots| && a.mdots[k] == v;
    }
  }

  /** getSVGPath on the area's vertices. */
  function Path(a: Area, num: real -> string): string
    requires Valid(a)
  {
    SvgPath.SvgPathText(a.xs, a.ys, num)
  }

  /** The drawn path reads back as the area's own vertices. */
  lemma PathReadsBack(a: Area, num: real -> string, read: string -> Option<real>)
    requires Valid(a) && |a.xs| > 0
    requires SvgPath.AllPrintBack(num, read, a.xs) && SvgPath.AllPrintBack(num, read, a.ys)
    ensures SvgPath.ReadPath(Path(a, num), read) == Some((a.xs, a.ys))
  {
    SvgPath.ReadSvgPath(a.xs, a.ys, num, read);
  }
}
