/** The area create endpoint, httpdocs/model/area.create.php: a new
    polygon holding the single point (x, y) at section z, inserted inside a
    transaction; its id is answered only once the transaction commits. */
module AreaCreate {
  import opened Common
  import opened Text
  import LegacyOverlay
  import AreaList

  /** The row inserted into the polygons table, its geometry as text. */
  datatype NewPolygon = NewPolygon(userId: int, projectId: int, z: real, polygon: string, lbound: string, ubound: string)

  /** What the database answers, which the endpoint cannot see: whether a
      transaction starts, the id the insert returns (None for false), and
      whether the commit succeeds. */
  datatype Database = Database(begins: bool, insertedId: Option<int>, commits: bool)

  datatype CreateOutcome =
    | ProjectClosed
    | NotLoggedIn
    | NoTransaction
    | InsertFailed
    | CommitFailed
    | Created(polygonId: int)

  function FloatParam(req: map<string, string>, key: string): real
  {
    if key in req then FloatVal(req[key]) else 0.0
  }

  /** The point triple "(x,y,z)" used for both bounds. */
  function PointTriple(x: real, y: real, z: real, phpNum: real -> string): string
  {
    "(" + phpNum(x) + "," + phpNum(y) + "," + phpNum(z) + ")"
  }

  /** The row for a one-point polygon: the polygon "((x,y))" and the same
      triple as lower and upper bound. PHP's float-to-string conversion is
      the parameter phpNum. */
  function NewRow(uid: int, pid: int, x: real, y: real, z: real, phpNum: real -> string): (r: NewPolygon)
    ensures r.userId == uid && r.projectId == pid && r.z == z
    ensures r.polygon == LegacyOverlay.PolygonText([x], [y], phpNum)
    ensures r.lbound == r.ubound
  {
    var polygon := "((" + phpNum(x) + "," + phpNum(y) + "))";
    assert polygon == "(" + ("(" + phpNum(x) + "," + phpNum(y) + ")") + ")";
    NewPolygon(uid, pid, z, polygon, PointTriple(x, y, z, phpNum), PointTriple(x, y, z, phpNum))
  }

  /** The endpoint: the project check, then the session check, then the
      transaction. The row stays in the table only when the endpoint
      answers Created; on a failed insert or commit the transaction is
      rolled back. */
  function Create(req: map<string, string>, uid: int, db: Database, phpNum: real -> string): (r: (CreateOutcome, Option<NewPolygon>))
    ensures var pid := if "pid" in req then IntVal(req["pid"]) else 0;
            && (pid == 0 <==> r.0 == ProjectClosed)
            && (r.0 == NotLoggedIn <==> pid != 0 && uid == 0)
            && (r.0.Created? <==> pid != 0 && uid != 0 && db.begins && db.insertedId.Some? && db.commits)
            && (r.0.Created? ==> r.0.polygonId == db.insertedId.value)
            && (r.1.Some? <==> r.0.Created?)
            && (r.1.Some? ==> r.1.value == NewRow(uid, pid, FloatParam(req, "x"), FloatParam(req, "y"),
                                                  FloatParam(req, "z"), phpNum))
  {
    var pid := if "pid" in req then IntVal(req["pid"]) else 0;
    if pid == 0 then (ProjectClosed, None)
    else if uid == 0 then (NotLoggedIn, None)
    else if !db.begins then (NoTransaction, None)
    else
      var row := NewRow(uid, pid, FloatParam(req, "x"), FloatParam(req, "y"), FloatParam(req, "z"), phpNum);
      match db.insertedId
      case None => (InsertFailed, None)
      case Some(id) => if db.commits then (Created(id), Some(row)) else (CommitFailed, None)
  }

  /** The table row the database keeps for a created polygon: the bound
      texts are stored as the point (x, y, z). */
  function StoredRow(id: int, row: NewPolygon, x: real, y: real): AreaList.PolygonRow
  {
    AreaList.PolygonRow(id, row.projectId, row.z, row.polygon, row.userId, (x, y, row.z), (x, y, row.z))
  }

  /** A created polygon lists back as the one point it was created at: the
      list query of its project finds it exactly when the point lies in
      the view and its z in the z window, and splits its polygon text back
      into [x] and [y]. */
  lemma CreatedAreaListsBack(req: map<string, string>, uid: int, db: Database, phpNum: real -> string, q: AreaList.Query)
    requires Create(req, uid, db, phpNum).0.Created?
    requires AreaList.PrintsAsToken(phpNum, FloatParam(req, "x")) && AreaList.PrintsAsToken(phpNum, FloatParam(req, "y"))
    ensures var x := FloatParam(req, "x");
            var y := FloatParam(req, "y");
            var z := FloatParam(req, "z");
            var row := StoredRow(db.insertedId.value, Create(req, uid, db, phpNum).1.value, x, y);
            && (AreaList.InBox(row, q) <==>
                  && q.pid == row.projectId
                  && q.left <= x <= q.left + q.width
                  && q.top <= y <= q.top + q.height
                  && q.z - AreaList.ZBound * q.zres <= z <= q.z + AreaList.ZBound * q.zres)
            && AreaList.ListRow(row, q.z).x == Some([x])
            && AreaList.ListRow(row, q.z).y == Some([y])
            && AreaList.ListRow(row, q.z).id == db.insertedId.value
  {
    var x := FloatParam(req, "x");
    var y := FloatParam(req, "y");
    assert AreaList.AllPrintAsTokens(phpNum, [x]) && AreaList.AllPrintAsTokens(phpNum, [y]);
    AreaList.PolygonParsesBack([x], [y], phpNum);
  }
}
