/** The bookkeeping of the 3D viewer's space and application,
    django/applications/catmaid/static/js/webglapp.js: the reference-counted
    cache of tag text geometries, the flip between stack and space axes,
    the grid layout of the neuron catalog, and the named views. */
module WebGLSpace {
  import opened Common

  /** The property names every plain object inherits from Object.prototype,
      which JavaScript's `in` finds on an empty object. */
  const InheritedNames: set<string> := {
    "constructor", "hasOwnProperty", "isPrototypeOf", "propertyIsEnumerable",
    "toLocaleString", "toString", "valueOf", "__proto__",
    "__defineGetter__", "__defineSetter__", "__lookupGetter__", "__lookupSetter__"}

  /** `name in obj` for a plain object whose own properties are the keys of m. */
  predicate InObject<V>(m: map<string, V>, name: string)
  {
    name in m || name in InheritedNames
  }

  // ---------------------------------------------------------------------
  // TextGeometryCache

  /** A text geometry object, known by the tag it spells and by which
      construction made it. */
  datatype TextGeometry = TextGeometry(tagString: string, serial: nat)

  datatype CacheEntry = CacheEntry(geometry: TextGeometry, refs: int)

  type GeometryCache = map<string, CacheEntry>

  /** Every cached geometry is in use and spells its own tag. */
  predicate Live(cache: GeometryCache)
  {
    forall tag :: tag in cache ==> cache[tag].refs >= 1 && cache[tag].geometry.tagString == tag
  }

  /** getTagGeometry: a cached tag's geometry is handed out again with one
      more reference; a tag the cache object only inherits (such as
      "toString") counts as cached, and the lookup finds no geometry on the
      inherited property, so nothing (None, for undefined) is handed out
      and the cache is unchanged; any other tag gets a new geometry
      (construction serial), stored with one reference. */
  function GetTagGeometry(cache: GeometryCache, tag: string, serial: nat): (r: (GeometryCache, Option<TextGeometry>))
    ensures r.1.None? <==> tag !in cache && tag in InheritedNames
    ensures r.1.None? ==> r.0 == cache
    ensures r.1.Some? ==> tag in r.0 && r.0[tag].geometry == r.1.value &&
                          r.1.value.tagString == (if tag in cache then cache[tag].geometry.tagString else tag)
    ensures tag in cache ==> r.1 == Some(cache[tag].geometry) && r.0[tag].refs == cache[tag].refs + 1
    ensures !InObject(cache, tag) ==> r.1 == Some(TextGeometry(tag, serial)) && r.0[tag].refs == 1
    ensures forall other :: other != tag ==> (other in r.0 <==> other in cache) && (other in cache ==> r.0[other] == cache[other])
  {
    if tag in cache then
      var e := cache[tag];
      (cache[tag := e.(refs := e.refs + 1)], Some(e.geometry))
    else if InObject(cache, tag) then (cache, None)
    else
      var g := TextGeometry(tag, serial);
      (cache[tag := CacheEntry(g, 1)], Some(g))
  }

  /** releaseTagGeometry: one reference fewer; the entry goes when none is
      left; an unknown tag changes nothing, and neither does an inherited
      one, whose count becomes NaN and so never reaches 0. */
  function ReleaseTagGeometry(cache: GeometryCache, tag: string): (r: GeometryCache)
    ensures tag !in cache ==> r == cache
    ensures tag in cache ==> (tag !in r <==> cache[tag].refs - 1 == 0)
    ensures tag in r ==> tag in cache && r[tag] == cache[tag].(refs := cache[tag].refs - 1)
    ensures forall other :: other != tag ==> (other in r <==> other in cache) && (other in cache ==> r[other] == cache[other])
  {
    if tag !in cache then cache
    else
      var e := cache[tag];
      if e.refs - 1 == 0 then cache - {tag}
      else cache[tag := e.(refs := e.refs - 1)]
  }

  /** Both operations keep every cached geometry in use. */
  lemma CacheStaysLive(cache: GeometryCache, tag: string, serial: nat)
    requires Live(cache)
    ensures Live(GetTagGeometry(cache, tag, serial).0)
    ensures Live(ReleaseTagGeometry(cache, tag))
  {
  }

  /** Releasing a geometry just handed out restores the cache: the count of
      a cached tag goes back, a tag cached only for this use is dropped. */
  lemma ReleaseUndoesGet(cache: GeometryCache, tag: string, serial: nat)
    requires Live(cache)
    ensures ReleaseTagGeometry(GetTagGeometry(cache, tag, serial).0, tag) == cache
  {
    var c := GetTagGeometry(cache, tag, serial).0;
    var r := ReleaseTagGeometry(c, tag);
    if tag in cache {
      assert r == cache[tag := cache[tag]];
    } else {
      assert r == c - {tag};
    }
  }

  // ---------------------------------------------------------------------
  // Stack and space axes

  datatype Point3 = Point3(x: real, y: real, z: real)

  /** toSpace and coordsToUnscaledSpace: x stays, y is mirrored in the
      stack's height, z changes sign. */
  function ToSpace(yDimension: real, p: Point3): (q: Point3)
    ensures q.x == p.x && q.y + p.y == yDimension && q.z == -p.z
  {
    Point3(p.x, yDimension - p.y, -p.z)
  }

  /** The flip is its own inverse. */
  lemma ToSpaceInvolution(yDimension: real, p: Point3)
    ensures ToSpace(yDimension, ToSpace(yDimension, p)) == p
  {
  }

  /** coordsToUnscaledSpace2: the flip applied in place to the coordinates
      at i, i + 1 and i + 2 of a flat vertex array. */
  function FlipAt(yDimension: real, vs: seq<real>, i: nat): (r: seq<real>)
    requires i + 2 < |vs|
    ensures |r| == |vs|
    ensures Point3(r[i], r[i + 1], r[i + 2]) == ToSpace(yDimension, Point3(vs[i], vs[i + 1], vs[i + 2]))
    ensures forall k :: 0 <= k < |vs| && (k < i || k > i + 2) ==> r[k] == vs[k]
  {
    vs[i + 1 := yDimension - vs[i + 1]][i + 2 := -vs[i + 2]]
  }

  /** Flipping the same vertex twice gives back the array. */
  lemma FlipAtInvolution(yDimension: real, vs: seq<real>, i: nat)
    requires i + 2 < |vs|
    ensures FlipAt(yDimension, FlipAt(yDimension, vs, i), i) == vs
  {
    var r := FlipAt(yDimension, FlipAt(yDimension, vs, i), i);
    assert forall k :: 0 <= k < |vs| ==> r[k] == vs[k];
  }

  // ---------------------------------------------------------------------
  // Neuron catalog layout (getSVGData)

  /** `options[key] || default`: an absent or zero option takes the default. */
  function OptionOr(opt: Option<nat>, default: nat): nat
  {
    if opt.Some? && opt.value != 0 then opt.value else default
  }

  datatype CatalogOptions = CatalogOptions(margin: Option<nat>, padding: Option<nat>, columns: Option<nat>)

  datatype Layout = Layout(margin: nat, padding: nat, columns: nat, rows: nat, imageWidth: nat, imageHeight: nat)

  /** The layout of n views of the canvas size: margin and padding default
      to 10, the number of columns to 2, and there are ceil(n / columns)
      rows. */
  function CatalogLayout(n: nat, opts: CatalogOptions, imageWidth: nat, imageHeight: nat): (l: Layout)
    ensures l.columns >= 1
    ensures (l.rows - 1) * l.columns < n <= l.rows * l.columns
  {
    var cols := OptionOr(opts.columns, 2);
    var rows := CeilDiv(n, cols);
    Layout(OptionOr(opts.margin, 10), OptionOr(opts.padding, 10), cols, rows, imageWidth, imageHeight)
  }

  /** The size of the combined picture. */
  function CanvasWidth(l: Layout): int
  {
    2 * l.margin + l.columns * (l.imageWidth + 2 * l.padding)
  }

  function CanvasHeight(l: Layout): int
  {
    2 * l.margin + l.rows * (l.imageHeight + 2 * l.padding)
  }

  /** The place of view i: column i mod columns, row floor(i / columns). */
  function ViewX(l: Layout, i: nat): int
    requires l.columns >= 1
  {
    var col := i % l.columns;
    l.margin + col * l.imageWidth + (col * 2 + 1) * l.padding
  }

  function ViewY(l: Layout, i: nat): int
    requires l.columns >= 1
  {
    var row := i / l.columns;
    l.margin + row * l.imageHeight + row * 2 * l.padding + l.padding
  }

  /** Each view sits in its own cell: the cell of column c starts at
      margin + c * (width + 2 padding), and the view is one padding in. */
  lemma ViewInCell(l: Layout, i: nat)
    requires l.columns >= 1
    ensures ViewX(l, i) == l.margin + (i % l.columns) * (l.imageWidth + 2 * l.padding) + l.padding
    ensures ViewY(l, i) == l.margin + (i / l.columns) * (l.imageHeight + 2 * l.padding) + l.padding
  {
    var col := i % l.columns;
    var row := i / l.columns;
    assert (col * 2 + 1) * l.padding == col * (2 * l.padding) + l.padding;
    assert col * l.imageWidth + col * (2 * l.padding) == col * (l.imageWidth + 2 * l.padding);
    assert row * 2 * l.padding == row * (2 * l.padding);
    assert row * l.imageHeight + row * (2 * l.padding) == row * (l.imageHeight + 2 * l.padding);
  }

  /** Every view of the catalog, with its padding all round, lies inside
      the picture and leaves the margin free. */
  lemma ViewsInsideCanvas(n: nat, opts: CatalogOptions, w: nat, h: nat, i: nat)
    requires i < n
    ensures var l := CatalogLayout(n, opts, w, h);
            && ViewX(l, i) - l.padding >= l.margin
            && ViewX(l, i) + w + l.padding <= CanvasWidth(l) - l.margin
            && ViewY(l, i) - l.padding >= l.margin
            && ViewY(l, i) + h + l.padding <= CanvasHeight(l) - l.margin
  {
    var l := CatalogLayout(n, opts, w, h);
    ViewInCell(l, i);
    var col := i % l.columns;
    var row := i / l.columns;
    var cw := w + 2 * l.padding;
    var ch := h + 2 * l.padding;
    assert col + 1 <= l.columns;
    CellFits(col, l.columns, cw);
    assert row * l.columns <= i by {
      assert i == row * l.columns + col;
    }
    assert row + 1 <= l.rows by {
      assert row * l.columns < n;
      RowBelow(row, l.rows, l.columns, n);
    }
    CellFits(row, l.rows, ch);
    CellNonNegative(col, cw);
    CellNonNegative(row, ch);
  }

  lemma CellFits(k: nat, count: nat, size: nat)
    requires k + 1 <= count
    ensures k * size + size <= count * size
  {
    assert (k + 1) * size <= count * size;
  }

  lemma CellNonNegative(k: nat, size: nat)
    ensures k * size >= 0
  {
  }

  lemma RowBelow(row: nat, rows: nat, cols: nat, n: nat)
    requires cols >= 1 && row * cols < n
    requires n <= rows * cols
    ensures row + 1 <= rows
  {
    if row >= rows {
      MulMonotone(rows, row, cols);
    }
  }

  lemma MulMonotone(a: nat, b: nat, c: nat)
    requires a <= b
    ensures a * c <= b * c
  {
  }

  /** Different views occupy different cells, so they do not overlap: they
      differ in column, and then their padded spans across are disjoint, or
      in row, and then their padded spans down are. */
  lemma ViewsApart(l: Layout, i: nat, j: nat)
    requires l.columns >= 1 && i < j
    ensures || ViewX(l, i) + l.imageWidth + l.padding <= ViewX(l, j) - l.padding
            || ViewX(l, j) + l.imageWidth + l.padding <= ViewX(l, i) - l.padding
            || ViewY(l, i) + l.imageHeight + l.padding <= ViewY(l, j) - l.padding
  {
    ViewInCell(l, i);
    ViewInCell(l, j);
    var cw := l.imageWidth + 2 * l.padding;
    var ch := l.imageHeight + 2 * l.padding;
    var ci, cj := i % l.columns, j % l.columns;
    var ri, rj := i / l.columns, j / l.columns;
    if ci == cj {
      assert ri < rj by {
        assert i == ri * l.columns + ci && j == rj * l.columns + cj;
        if rj <= ri {
          MulMonotone(rj, ri, l.columns);
        }
      }
      CellFits(ri, rj, ch);
    } else if ci < cj {
      CellFits(ci, cj, cw);
    } else {
      CellFits(cj, ci, cw);
    }
  }

  // ---------------------------------------------------------------------
  // Stored views

  /** A camera setting as getView records it. */
  datatype View = View(target: Point3, position: Point3, up: Point3, zoom: real, orthographic: bool)

  datatype ViewOutcome =
    | AskName                    // no name: the name dialog is shown
    | ViewExists(message: string)
    | Stored
    | NoSuchView(message: string)
    | Activated(view: View)
    | NotAView(name: string)     // an inherited property: setView throws a TypeError

  /** storeCurrentView: without a name the dialog asks for one; a taken
      name, or one the views object inherits, is refused with an error;
      otherwise the current view is stored under it. */
  function StoreCurrentView(views: map<string, View>, name: string, current: View): (r: (map<string, View>, ViewOutcome))
    ensures r.1 == AskName <==> |name| == 0
    ensures r.1.ViewExists? <==> |name| > 0 && InObject(views, name)
    ensures r.1 != Stored ==> r.0 == views
    ensures r.1 == Stored ==> r.0 == views[name := current] && name !in views && name !in InheritedNames
  {
    if |name| == 0 then (views, AskName)
    else if InObject(views, name) then (views, ViewExists("A view with the name \"" + name + "\" already exists."))
    else (views[name := current], Stored)
  }

  /** activateView: an unknown name is reported and nothing changes; a
      name the views object only inherits passes the check, but the
      inherited property has no target, so setView throws before the camera
      changes; otherwise the camera takes the stored view. */
  function ActivateView(views: map<string, View>, name: string, camera: View): (r: (View, ViewOutcome))
    ensures !InObject(views, name) ==> r.0 == camera && r.1.NoSuchView?
    ensures name !in views && name in InheritedNames ==> r.0 == camera && r.1 == NotAView(name)
    ensures name in views ==> r.0 == views[name] && r.1 == Activated(views[name])
  {
    if !InObject(views, name) then (camera, NoSuchView("There is no view named \"" + name + "\"!"))
    else if name !in views then (camera, NotAView(name))
    else (views[name], Activated(views[name]))
  }

  /** Whenever a view is stored, it is the one its name activates later,
      and a second store under that name leaves it in place; a store is
      made exactly for a nonempty name the views object neither has nor
      inherits. */
  lemma StoreThenActivate(views: map<string, View>, name: string, current: View, camera: View, other: View)
    ensures StoreCurrentView(views, name, current).1 == Stored <==> |name| > 0 && !InObject(views, name)
    ensures var (stored, outcome) := StoreCurrentView(views, name, current);
            outcome == Stored ==>
              && ActivateView(stored, name, camera) == (current, Activated(current))
              && StoreCurrentView(stored, name, other).0 == stored
  {
  }
}
