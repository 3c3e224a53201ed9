/** The area list endpoint, httpdocs/model/area.list.php: the polygons of
    a project whose bounding box meets the view and whose z lies within
    the z resolution of the section, each returned with its type, its
    distance in z, and its polygon text split back into coordinates. */
module AreaList {
  import opened Common
  import opened Text
  import LegacyOverlay

  /** At most this many polygons are returned. */
  const Limit := 400

  /** The z window is this many z resolutions either side of the section. */
  const ZBound := 1.0

  /** The characters strtok splits the polygon text on. The delimiter
      string is single-quoted in the source, so it holds a backslash and
      the letter t rather than a tab. */
  const PolygonDelims: set<char> := {'(', ')', ',', ' ', '\\', 't'}

  /** A row of the polygons table: its bounds are (x, y, z) triples. */
  datatype PolygonRow = PolygonRow(
    id: int, projectId: int, z: real, polygon: string, userId: int,
    lbound: (real, real, real), ubound: (real, real, real))

  /** The request as the endpoint reads it: every absent parameter is 0. */
  datatype Query = Query(pid: int, z: real, top: real, left: real, width: real, height: real, zres: real)

  /** One returned area. An area whose polygon text has no numbers has
      neither x nor y (null in the JSON). */
  datatype ListedArea = ListedArea(
    id: int, z: real, polygon: string, userId: int, zDiff: real,
    kind: string, x: Option<seq<real>>, y: Option<seq<real>>)

  datatype ListResponse = ProjectClosed | NotLoggedIn | Areas(rows: seq<ListedArea>)

  function FloatParam(req: map<string, string>, key: string): real
  {
    if key in req then FloatVal(req[key]) else 0.0
  }

  function QueryOf(req: map<string, string>): (q: Query)
    ensures q.pid == (if "pid" in req then IntVal(req["pid"]) else 0)
    ensures "z" !in req ==> q.z == 0.0
    ensures "zres" !in req ==> q.zres == 0.0
  {
    Query(if "pid" in req then IntVal(req["pid"]) else 0,
          FloatParam(req, "z"), FloatParam(req, "top"), FloatParam(req, "left"),
          FloatParam(req, "width"), FloatParam(req, "height"), FloatParam(req, "zres"))
  }

  /** The WHERE clause: the project matches, one of the two bounds is on
      the far side of each edge of the view, and the lower bound's z is in
      the z window. */
  predicate InBox(row: PolygonRow, q: Query)
  {
    && row.projectId == q.pid
    && (row.lbound.0 >= q.left || row.ubound.0 >= q.left)
    && (row.lbound.0 <= q.left + q.width || row.ubound.0 <= q.left + q.width)
    && (row.lbound.1 >= q.top || row.ubound.1 >= q.top)
    && (row.lbound.1 <= q.top + q.height || row.ubound.1 <= q.top + q.height)
    && row.lbound.2 >= q.z - ZBound * q.zres
    && row.lbound.2 <= q.z + ZBound * q.zres
  }

  /** The rows the WHERE clause keeps, in table order. */
  function Matching(table: seq<PolygonRow>, q: Query): (r: seq<PolygonRow>)
    ensures |r| <= |table|
    ensures forall k | 0 <= k < |r| :: r[k] in table && InBox(r[k], q)
    ensures forall k | 0 <= k < |table| :: InBox(table[k], q) ==> table[k] in r
    decreases |table|
  {
    if table == [] then []
    else
      var rest := Matching(table[1..], q);
      if InBox(table[0], q) then [table[0]] + rest else rest
  }

  /** The x and y arrays the token loop builds: tokens alternate x and y,
      and an odd last token gets y = floatval(false) = 0. */
  function Coordinates(tokens: seq<string>): (r: (seq<real>, seq<real>))
    ensures |r.0| == |r.1| == (|tokens| + 1) / 2
    ensures forall j | 0 <= j < |r.0| :: r.0[j] == FloatVal(tokens[2 * j])
    ensures forall j | 0 <= j < |r.1| ::
      r.1[j] == (if 2 * j + 1 < |tokens| then FloatVal(tokens[2 * j + 1]) else 0.0)
    decreases |tokens|
  {
    if tokens == [] then ([], [])
    else if |tokens| == 1 then ([FloatVal(tokens[0])], [0.0])
    else
      var rest := Coordinates(tokens[2..]);
      ([FloatVal(tokens[0])] + rest.0, [FloatVal(tokens[1])] + rest.1)
  }

  /** The polygon text split into coordinates; without any token the
      arrays are never created and both come out null. */
  function ParsePolygon(s: string): (r: (Option<seq<real>>, Option<seq<real>>))
    ensures r.0.Some? <==> Tokens(s, PolygonDelims) != []
    ensures r.1.Some? <==> r.0.Some?
    ensures r.0.Some? ==> |r.0.value| == |r.1.value| == (|Tokens(s, PolygonDelims)| + 1) / 2
  {
    var ts := Tokens(s, PolygonDelims);
    if ts == [] then (None, None)
    else
      var c := Coordinates(ts);
      (Some(c.0), Some(c.1))
  }

  /** One row of the answer. */
  function ListRow(row: PolygonRow, z: real): (a: ListedArea)
    ensures a.id == row.id && a.z == row.z && a.polygon == row.polygon && a.userId == row.userId
    ensures a.kind == "area"
    ensures a.zDiff + z == row.z
    ensures (a.x, a.y) == ParsePolygon(row.polygon)
  {
    var (x, y) := ParsePolygon(row.polygon);
    ListedArea(row.id, row.z, row.polygon, row.userId, row.z - z, "area", x, y)
  }

  function ListRows(rows: seq<PolygonRow>, z: real): (r: seq<ListedArea>)
    ensures |r| == |rows|
    ensures forall k | 0 <= k < |rows| :: r[k] == ListRow(rows[k], z)
  {
    seq(|rows|, k requires 0 <= k < |rows| => ListRow(rows[k], z))
  }

  /** The endpoint. The table is given in the query's ORDER BY order (id,
      then z_diff); the project check comes before the session check. */
  function List(req: map<string, string>, uid: int, table: seq<PolygonRow>): (r: ListResponse)
    ensures QueryOf(req).pid == 0 <==> r == ProjectClosed
    ensures r == NotLoggedIn <==> QueryOf(req).pid != 0 && uid == 0
    ensures r.Areas? ==> |r.rows| <= Limit
    ensures r.Areas? ==> forall k | 0 <= k < |r.rows| ::
      && r.rows[k].kind == "area"
      && r.rows[k].zDiff == r.rows[k].z - QueryOf(req).z
      && (r.rows[k].x, r.rows[k].y) == ParsePolygon(r.rows[k].polygon)
  {
    var q := QueryOf(req);
    if q.pid == 0 then ProjectClosed
    else if uid == 0 then NotLoggedIn
    else
      var m := Matching(table, q);
      Areas(ListRows(if |m| <= Limit then m else m[..Limit], q.z))
  }

  /** Every listed area comes from a table row inside the view, and when
      the limit is not reached every table row inside the view is listed. */
  lemma ListSelects(req: map<string, string>, uid: int, table: seq<PolygonRow>)
    requires QueryOf(req).pid != 0 && uid != 0
    ensures List(req, uid, table).Areas?
    ensures forall k | 0 <= k < |List(req, uid, table).rows| ::
      exists row | row in table :: InBox(row, QueryOf(req)) && List(req, uid, table).rows[k] == ListRow(row, QueryOf(req).z)
    ensures |Matching(table, QueryOf(req))| <= Limit ==>
      forall row | row in table && InBox(row, QueryOf(req)) :: ListRow(row, QueryOf(req).z) in List(req, uid, table).rows
  {
    var q := QueryOf(req);
    var m := Matching(table, q);
    var shown := if |m| <= Limit then m else m[..Limit];
    var r := List(req, uid, table);
    assert r.rows == ListRows(shown, q.z);
    forall k | 0 <= k < |r.rows|
      ensures exists row | row in table :: InBox(row, q) && r.rows[k] == ListRow(row, q.z)
    {
      assert shown[k] == m[k];
      assert m[k] in table && InBox(m[k], q);
    }
    if |m| <= Limit {
      forall row | row in table && InBox(row, q)
        ensures ListRow(row, q.z) in r.rows
      {
        var i :| 0 <= i < |table| && table[i] == row;
        assert row in m;
        var k :| 0 <= k < |m| && m[k] == row;
        assert r.rows[k] == ListRow(row, q.z);
      }
    }
  }

  /** A value prints as one token that floatval reads back exactly. */
  predicate PrintsAsToken(num: real -> string, v: real)
  {
    && |num(v)| > 0
    && (forall i | 0 <= i < |num(v)| :: num(v)[i] !in PolygonDelims)
    && FloatVal(num(v)) == v
  }

  predicate AllPrintAsTokens(num: real -> string, vs: seq<real>)
  {
    forall j | 0 <= j < |vs| :: PrintsAsToken(num, vs[j])
  }

  /** The printed coordinates in the order the polygon text holds them. */
  function Interleave(xs: seq<real>, ys: seq<real>, num: real -> string): (r: seq<string>)
    requires |xs| == |ys|
    ensures |r| == 2 * |xs|
    decreases |xs|
  {
    if xs == [] then [] else [num(xs[0]), num(ys[0])] + Interleave(xs[1..], ys[1..], num)
  }

  /** One parenthesised pair "(a,b)" gives its two tokens. */
  lemma PairTokens(a: string, b: string, R: string)
    requires |a| > 0 && forall i | 0 <= i < |a| :: a[i] !in PolygonDelims
    requires |b| > 0 && forall i | 0 <= i < |b| :: b[i] !in PolygonDelims
    ensures Tokens("(" + (a + ("," + (b + (")" + R)))), PolygonDelims) == [a, b] + Tokens(R, PolygonDelims)
  {
    var D := PolygonDelims;
    TokensDelimsFirst("(", a + ("," + (b + (")" + R))), D);
    TokensWordThenDelim(a, "," + (b + (")" + R)), D);
    TokensDelimsFirst(",", b + (")" + R), D);
    TokensWordThenDelim(b, ")" + R, D);
    TokensDelimsFirst(")", R, D);
  }

  /** The point list of a non-empty polygon, followed by a tail: its first
      pair, then either the tail or a comma and the rest of the list. */
  lemma PointListCons(xs: seq<real>, ys: seq<real>, num: real -> string, tail: string)
    requires |xs| == |ys| && |xs| > 0
    ensures LegacyOverlay.PointList(xs, ys, num) + tail
         == "(" + (num(xs[0]) + ("," + (num(ys[0]) + (")" + RestText(xs, ys, num, tail)))))
  {
  }

  /** What follows the first pair of a point list with a tail. */
  function RestText(xs: seq<real>, ys: seq<real>, num: real -> string, tail: string): string
    requires |xs| == |ys| && |xs| > 0
  {
    if |xs| == 1 then tail else "," + (LegacyOverlay.PointList(xs[1..], ys[1..], num) + tail)
  }

  /** The first pair of a non-empty point list gives the first two tokens. */
  lemma FirstPairTokens(xs: seq<real>, ys: seq<real>, num: real -> string, tail: string)
    requires |xs| == |ys| && |xs| > 0
    requires PrintsAsToken(num, xs[0]) && PrintsAsToken(num, ys[0])
    ensures Tokens(LegacyOverlay.PointList(xs, ys, num) + tail, PolygonDelims)
         == [num(xs[0]), num(ys[0])] + Tokens(RestText(xs, ys, num, tail), PolygonDelims)
  {
    PointListCons(xs, ys, num, tail);
    PairTokens(num(xs[0]), num(ys[0]), RestText(xs, ys, num, tail));
  }

  /** A longer point list: its first pair, a comma, then the rest. */
  lemma TokensPointListStep(xs: seq<real>, ys: seq<real>, num: real -> string, tail: string)
    requires |xs| == |ys| && |xs| > 1
    requires PrintsAsToken(num, xs[0]) && PrintsAsToken(num, ys[0])
    requires Tokens(LegacyOverlay.PointList(xs[1..], ys[1..], num) + tail, PolygonDelims)
          == Interleave(xs[1..], ys[1..], num) + Tokens(tail, PolygonDelims)
    ensures Tokens(LegacyOverlay.PointList(xs, ys, num) + tail, PolygonDelims)
         == Interleave(xs, ys, num) + Tokens(tail, PolygonDelims)
  {
    FirstPairTokens(xs, ys, num, tail);
    TokensDelimsFirst(",", LegacyOverlay.PointList(xs[1..], ys[1..], num) + tail, PolygonDelims);
  }

  /** A single pair followed by the tail. */
  lemma TokensPointListOne(xs: seq<real>, ys: seq<real>, num: real -> string, tail: string)
    requires |xs| == |ys| == 1
    requires PrintsAsToken(num, xs[0]) && PrintsAsToken(num, ys[0])
    ensures Tokens(LegacyOverlay.PointList(xs, ys, num) + tail, PolygonDelims)
         == Interleave(xs, ys, num) + Tokens(tail, PolygonDelims)
  {
    FirstPairTokens(xs, ys, num, tail);
    assert Interleave(xs[1..], ys[1..], num) == [];
  }

  lemma {:induction false} TokensPointList(xs: seq<real>, ys: seq<real>, num: real -> string, tail: string)
    requires |xs| == |ys|
    requires AllPrintAsTokens(num, xs) && AllPrintAsTokens(num, ys)
    ensures Tokens(LegacyOverlay.PointList(xs, ys, num) + tail, PolygonDelims)
         == Interleave(xs, ys, num) + Tokens(tail, PolygonDelims)
    decreases |xs|
  {
    if xs == [] {
      assert LegacyOverlay.PointList(xs, ys, num) + tail == tail;
    } else if |xs| == 1 {
      TokensPointListOne(xs, ys, num, tail);
    } else {
      assert AllPrintAsTokens(num, xs[1..]) && AllPrintAsTokens(num, ys[1..]);
      TokensPointList(xs[1..], ys[1..], num, tail);
      TokensPointListStep(xs, ys, num, tail);
    }
  }

  lemma {:induction false} CoordinatesOfInterleave(xs: seq<real>, ys: seq<real>, num: real -> string)
    requires |xs| == |ys|
    requires AllPrintAsTokens(num, xs) && AllPrintAsTokens(num, ys)
    ensures Coordinates(Interleave(xs, ys, num)) == (xs, ys)
    decreases |xs|
  {
    if xs != [] {
      var t := Interleave(xs, ys, num);
      assert t[2..] == Interleave(xs[1..], ys[1..], num);
      assert PrintsAsToken(num, xs[0]) && PrintsAsToken(num, ys[0]);
      assert AllPrintAsTokens(num, xs[1..]) && AllPrintAsTokens(num, ys[1..]);
      CoordinatesOfInterleave(xs[1..], ys[1..], num);
      assert [xs[0]] + xs[1..] == xs;
      assert [ys[0]] + ys[1..] == ys;
    }
  }

  /** The polygon text the overlay sends parses back into exactly its
      vertex arrays, provided each coordinate prints as a single token
      floatval reads back. */
  lemma PolygonParsesBack(xs: seq<real>, ys: seq<real>, num: real -> string)
    requires |xs| == |ys| && |xs| > 0
    requires AllPrintAsTokens(num, xs) && AllPrintAsTokens(num, ys)
    ensures ParsePolygon(LegacyOverlay.PolygonText(xs, ys, num)) == (Some(xs), Some(ys))
  {
    var D := PolygonDelims;
    var p := LegacyOverlay.PointList(xs, ys, num);
    assert LegacyOverlay.PolygonText(xs, ys, num) == "(" + (p + ")");
    TokensDelimsFirst("(", p + ")", D);
    TokensPointList(xs, ys, num, ")");
    TokensDelimsFirst(")", "", D);
    assert ")" + "" == ")";
    assert Tokens("", D) == [];
    assert Interleave(xs, ys, num) + [] == Interleave(xs, ys, num);
    CoordinatesOfInterleave(xs, ys, num);
  }

  /** A polygon text with no number in it lists as null coordinates. */
  lemma EmptyPolygonIsNull(s: string)
    requires forall i | 0 <= i < |s| :: s[i] in PolygonDelims
    ensures ParsePolygon(s) == (None, None)
  {
    TokensDelimsFirst(s, "", PolygonDelims);
    assert s + "" == s;
  }
}
