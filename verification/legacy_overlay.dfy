/** The legacy tracing overlay (httpdocs/widgets/overlay.js): the active
    node and active area, the rebuild of the node and area caches from the
    annotation list the server returns, and the batched position updates
    for edited areas and moved nodes, including the flattening of the
    update records into indexed request keys. */
module LegacyOverlay {
  import opened Common
  import opened Text

  // ---------------------------------------------------------------------
  // Nodes and the active node

  datatype Kind = TreenodeKind | ConnectorKind

  /** A cached node. Positions are screen coordinates; parent, children,
      pre, post and connectors hold node ids (the source holds the node
      objects themselves). */
  datatype LNode = LNode(
    id: int, kind: Kind,
    x: real, y: real, z: real, zdiff: int, radius: real,
    skeletonId: Option<int>, isRoot: bool,
    parent: Option<int>, children: set<int>,
    pre: set<int>, post: set<int>, connectors: set<int>,
    needsync: bool)

  /** The global active node (atn) and active skeleton id. */
  datatype Active = Active(atn: Option<LNode>, skeleton: Option<int>)

  /** activateNode: a null node clears both globals; otherwise the node
      becomes active and its skeleton (none for a connector) the active
      skeleton. The previous state plays no part. */
  function ActivateNode(node: Option<LNode>): (r: Active)
    ensures node.None? ==> r.atn.None? && r.skeleton.None?
    ensures node.Some? ==> r.atn == node && r.skeleton == node.value.skeletonId
  {
    match node
    case None => Active(None, None)
    case Some(n) => Active(Some(n), n.skeletonId)
  }

  // ---------------------------------------------------------------------
  // Rebuilding the node cache (refreshNodes)

  /** The type field of a node record: "treenode", "location" or anything
      else ("area" records never reach this point). */
  datatype RowType = TreenodeRow | LocationRow | OtherRow

  /** One node record from the server. The id and the linked treenode ids
      are numbers; parentid is the text parseInt reads; zdiff is the
      section distance already divided by the z resolution and floored. */
  datatype NodeRow = NodeRow(
    id: int, rtype: RowType,
    x: real, y: real, z: real, zdiff: int, radius: real,
    parentid: string, skeletonId: Option<int>,
    pre: seq<int>, post: seq<int>)

  /** The drawn radius: the record's radius for a treenode and 8 for any
      other node in the current section, 0 off-section. */
  function RowRadius(row: NodeRow): (r: real)
    ensures row.zdiff != 0 ==> r == 0.0
    ensures row.zdiff == 0 && row.rtype != TreenodeRow ==> r == 8.0
    ensures row.zdiff == 0 && row.rtype == TreenodeRow ==> r == row.radius
  {
    if row.zdiff == 0 then (if row.rtype == TreenodeRow then row.radius else 8.0) else 0.0
  }

  /** The parent id as parseInt reads it; None stands for NaN. */
  function ParentIdOf(row: NodeRow): Option<int>
  {
    ParseIntPrefix(row.parentid)
  }

  /** A fresh, unlinked node for a record: a Node for a treenode record and
      a ConnectorNode (no skeleton, never a root) for any other. */
  function NewNode(row: NodeRow): (n: LNode)
  {
    if row.rtype == TreenodeRow then
      LNode(row.id, TreenodeKind, row.x, row.y, row.z, row.zdiff, RowRadius(row),
            row.skeletonId, ParentIdOf(row).None?, None, {}, {}, {}, {}, false)
    else
      LNode(row.id, ConnectorKind, row.x, row.y, row.z, row.zdiff, RowRadius(row),
            None, false, None, {}, {}, {}, {}, false)
  }

  predicate Unlinked(n: LNode)
  {
    n.parent.None? && n.children == {} && n.pre == {} && n.post == {} && n.connectors == {}
  }

  function RowIds(rows: seq<NodeRow>): (ids: set<int>)
    ensures forall k :: k in ids <==> exists i | 0 <= i < |rows| :: rows[i].id == k
  {
    set i | 0 <= i < |rows| :: rows[i].id
  }

  /** The last record with a given id: the one whose node ends up in the cache. */
  function LastRow(rows: seq<NodeRow>, k: int): (row: NodeRow)
    requires k in RowIds(rows)
    ensures row in rows && row.id == k
    decreases |rows|
  {
    var last := rows[|rows| - 1];
    if last.id == k then last
    else
      assert k in RowIds(rows[..|rows| - 1]) by {
        var i :| 0 <= i < |rows| && rows[i].id == k;
        assert rows[..|rows| - 1][i] == rows[i];
      }
      LastRow(rows[..|rows| - 1], k)
  }

  /** The first loop of refreshNodes: one fresh node per record, a later
      record replacing an earlier one with the same id. */
  function InsertRows(rows: seq<NodeRow>): (nodes: map<int, LNode>)
    ensures nodes.Keys == RowIds(rows)
    ensures forall k | k in nodes :: nodes[k] == NewNode(LastRow(rows, k))
    decreases |rows|
  {
    if rows == [] then map[]
    else
      var init := rows[..|rows| - 1];
      var last := rows[|rows| - 1];
      assert RowIds(rows) == RowIds(init) + {last.id} by {
        forall k | k in RowIds(rows) ensures k in RowIds(init) + {last.id} {
          var i :| 0 <= i < |rows| && rows[i].id == k;
          if i < |rows| - 1 { assert init[i] == rows[i]; }
        }
        forall k | k in RowIds(init) ensures k in RowIds(rows) {
          var i :| 0 <= i < |init| && init[i].id == k;
          assert rows[i] == init[i];
        }
      }
      InsertRows(init)[last.id := NewNode(last)]
  }

  /** The group a location record links on one side. */
  datatype Side = PreSide | PostSide

  function Group(n: LNode, side: Side): set<int>
  {
    if side == PreSide then n.pre else n.post
  }

  function SideList(row: NodeRow, side: Side): seq<int>
  {
    if side == PreSide then row.pre else row.post
  }

  /** The fields linking leaves alone. */
  function Base(n: LNode): LNode
  {
    n.(parent := None, children := {}, pre := {}, post := {}, connectors := {})
  }

  /** A treenode record links its node to its parent, and the parent to
      it, when the parsed parent id names a loaded node. */
  function LinkParent(nodes: map<int, LNode>, row: NodeRow): (r: map<int, LNode>)
    requires row.id in nodes
    ensures r.Keys == nodes.Keys
  {
    var p := ParentIdOf(row);
    if p.Some? && p.value in nodes then
      var n1 := nodes[row.id := nodes[row.id].(parent := p)];
      n1[p.value := n1[p.value].(children := n1[p.value].children + {row.id})]
    else nodes
  }

  /** The inner loop over one side of a location record: every listed
      treenode id that is loaded joins the connector's group, and the
      connector joins that node's connectors. */
  function LinkGroup(nodes: map<int, LNode>, nid: int, side: Side, tnids: seq<int>): (r: map<int, LNode>)
    requires nid in nodes
    ensures r.Keys == nodes.Keys
    decreases |tnids|
  {
    if tnids == [] then nodes
    else
      var t := tnids[0];
      var n1 :=
        if t in nodes then
          var a := nodes[nid := if side == PreSide then nodes[nid].(pre := nodes[nid].pre + {t})
                                else nodes[nid].(post := nodes[nid].post + {t})];
          a[t := a[t].(connectors := a[t].connectors + {nid})]
        else nodes;
      LinkGroup(n1, nid, side, tnids[1..])
  }

  /** The second loop's body for one record. */
  function LinkRow(nodes: map<int, LNode>, row: NodeRow): (r: map<int, LNode>)
    requires row.id in nodes
    ensures r.Keys == nodes.Keys
  {
    match row.rtype
    case TreenodeRow => LinkParent(nodes, row)
    case LocationRow => LinkGroup(LinkGroup(nodes, row.id, PreSide, row.pre), row.id, PostSide, row.post)
    case OtherRow => nodes
  }

  /** The second loop of refreshNodes, over the records in order. */
  function LinkAll(nodes: map<int, LNode>, rows: seq<NodeRow>): (r: map<int, LNode>)
    requires forall i | 0 <= i < |rows| :: rows[i].id in nodes
    ensures r.Keys == nodes.Keys
    decreases |rows|
  {
    if rows == [] then nodes
    else LinkAll(LinkRow(nodes, rows[0]), rows[1..])
  }

  /** Some treenode record with id c names p as its parent. */
  predicate NamesParent(rows: seq<NodeRow>, p: int, c: int)
  {
    exists i | 0 <= i < |rows| :: rows[i].rtype == TreenodeRow && rows[i].id == c && ParentIdOf(rows[i]) == Some(p)
  }

  /** Some location record with id k lists t on the given side. */
  predicate ListsOn(rows: seq<NodeRow>, k: int, side: Side, t: int)
  {
    exists i | 0 <= i < |rows| :: rows[i].rtype == LocationRow && rows[i].id == k && t in SideList(rows[i], side)
  }

  lemma LinkParentFacts(nodes: map<int, LNode>, row: NodeRow, k: int, t: int)
    requires row.id in nodes && k in nodes
    ensures var r := LinkParent(nodes, row);
            && Base(r[k]) == Base(nodes[k])
            && (t in r[k].children <==>
                  t in nodes[k].children || (t == row.id && ParentIdOf(row) == Some(k)))
            && r[k].pre == nodes[k].pre && r[k].post == nodes[k].post
            && r[k].connectors == nodes[k].connectors
            && (r[k].parent.Some? ==> r[k].parent.value in nodes || r[k].parent == nodes[k].parent)
  {
  }

  lemma {:induction false} LinkGroupFacts(nodes: map<int, LNode>, nid: int, side: Side, tnids: seq<int>, k: int, t: int)
    requires nid in nodes && k in nodes
    ensures var r := LinkGroup(nodes, nid, side, tnids);
            && Base(r[k]) == Base(nodes[k])
            && r[k].parent == nodes[k].parent && r[k].children == nodes[k].children
            && Group(r[k], Other(side)) == Group(nodes[k], Other(side))
            && (t in Group(r[k], side) <==>
                  t in Group(nodes[k], side) || (k == nid && t in tnids && t in nodes))
            && (t in r[k].connectors <==>
                  t in nodes[k].connectors || (t == nid && k in tnids))
    decreases |tnids|
  {
    if tnids != [] {
      var u := tnids[0];
      var n1 :=
        if u in nodes then
          var a := nodes[nid := if side == PreSide then nodes[nid].(pre := nodes[nid].pre + {u})
                                else nodes[nid].(post := nodes[nid].post + {u})];
          a[u := a[u].(connectors := a[u].connectors + {nid})]
        else nodes;
      LinkGroupFacts(n1, nid, side, tnids[1..], k, t);
      assert forall v :: v in tnids <==> v == u || v in tnids[1..];
    }
  }

  function Other(side: Side): Side
  {
    if side == PreSide then PostSide else PreSide
  }

  lemma LinkRowFacts(nodes: map<int, LNode>, row: NodeRow, k: int, side: Side, t: int)
    requires row.id in nodes && k in nodes
    ensures var r := LinkRow(nodes, row);
            && Base(r[k]) == Base(nodes[k])
            && (t in r[k].children <==>
                  t in nodes[k].children ||
                  (row.rtype == TreenodeRow && t == row.id && ParentIdOf(row) == Some(k)))
            && (t in Group(r[k], side) <==>
                  t in Group(nodes[k], side) ||
                  (row.rtype == LocationRow && k == row.id && t in SideList(row, side) && t in nodes))
            && (t in r[k].connectors <==>
                  t in nodes[k].connectors ||
                  (row.rtype == LocationRow && t == row.id && (k in row.pre || k in row.post)))
            && (r[k].parent.Some? ==> r[k].parent.value in nodes || r[k].parent == nodes[k].parent)
  {
    match row.rtype
    case TreenodeRow =>
      LinkParentFacts(nodes, row, k, t);
    case LocationRow =>
      var n1 := LinkGroup(nodes, row.id, PreSide, row.pre);
      LinkGroupFacts(nodes, row.id, PreSide, row.pre, k, t);
      LinkGroupFacts(n1, row.id, PostSide, row.post, k, t);
    case OtherRow =>
  }

  lemma NamesParentCons(rows: seq<NodeRow>, p: int, c: int)
    requires rows != []
    ensures NamesParent(rows, p, c) <==>
              (rows[0].rtype == TreenodeRow && rows[0].id == c && ParentIdOf(rows[0]) == Some(p)) ||
              NamesParent(rows[1..], p, c)
  {
    if NamesParent(rows, p, c) {
      var i :| 0 <= i < |rows| && rows[i].rtype == TreenodeRow && rows[i].id == c && ParentIdOf(rows[i]) == Some(p);
      if i > 0 { assert rows[1..][i - 1] == rows[i]; }
    }
    if NamesParent(rows[1..], p, c) {
      var i :| 0 <= i < |rows[1..]| && rows[1..][i].rtype == TreenodeRow && rows[1..][i].id == c && ParentIdOf(rows[1..][i]) == Some(p);
      assert rows[i + 1] == rows[1..][i];
    }
  }

  lemma ListsOnCons(rows: seq<NodeRow>, k: int, side: Side, t: int)
    requires rows != []
    ensures ListsOn(rows, k, side, t) <==>
              (rows[0].rtype == LocationRow && rows[0].id == k && t in SideList(rows[0], side)) ||
              ListsOn(rows[1..], k, side, t)
  {
    if ListsOn(rows, k, side, t) {
      var i :| 0 <= i < |rows| && rows[i].rtype == LocationRow && rows[i].id == k && t in SideList(rows[i], side);
      if i > 0 { assert rows[1..][i - 1] == rows[i]; }
    }
    if ListsOn(rows[1..], k, side, t) {
      var i :| 0 <= i < |rows[1..]| && rows[1..][i].rtype == LocationRow && rows[1..][i].id == k && t in SideList(rows[1..][i], side);
      assert rows[i + 1] == rows[1..][i];
    }
  }

  /** What the linking loop adds, in terms of the records: children from
      treenode records naming a loaded parent, groups and connectors from
      location records listing loaded nodes; a parent is only ever set to
      a loaded node. */
  lemma {:induction false} LinkAllFacts(nodes: map<int, LNode>, rows: seq<NodeRow>, k: int, side: Side, t: int)
    requires forall i | 0 <= i < |rows| :: rows[i].id in nodes
    requires k in nodes
    ensures var r := LinkAll(nodes, rows);
            && Base(r[k]) == Base(nodes[k])
            && (t in r[k].children <==> t in nodes[k].children || NamesParent(rows, k, t))
            && (t in Group(r[k], side) <==> t in Group(nodes[k], side) || (ListsOn(rows, k, side, t) && t in nodes))
            && (t in r[k].connectors <==>
                  t in nodes[k].connectors || ListsOn(rows, t, PreSide, k) || ListsOn(rows, t, PostSide, k))
            && (r[k].parent.Some? ==> r[k].parent.value in nodes || r[k].parent == nodes[k].parent)
    decreases |rows|
  {
    if rows != [] {
      var n1 := LinkRow(nodes, rows[0]);
      LinkRowFacts(nodes, rows[0], k, side, t);
      LinkAllFacts(n1, rows[1..], k, side, t);
      NamesParentCons(rows, k, t);
      ListsOnCons(rows, k, side, t);
      ListsOnCons(rows, t, PreSide, k);
      ListsOnCons(rows, t, PostSide, k);
    }
  }

  /** Which node is active after the rebuild. Activation in the source
      happens inside the first loop, for every record whose id is the
      active node's; the last such record is the one left in the cache and
      the linking loop then completes that very object, so the active node
      ends up as the cached node with the old id. When no record has that
      id the old node object stays active. */
  function Reactivate(nodes: map<int, LNode>, act: Active): Active
  {
    if act.atn.Some? && act.atn.value.id in nodes then ActivateNode(Some(nodes[act.atn.value.id]))
    else act
  }

  /** refreshNodes on the cache refreshAnnotations has just cleared:
      insert every record, link the records when edges are shown, and keep
      the active node active. */
  function RefreshNodes(rows: seq<NodeRow>, act: Active, edges: bool): (r: (map<int, LNode>, Active))
    ensures r.0.Keys == RowIds(rows)
    ensures act.atn.Some? && act.atn.value.id in RowIds(rows) ==>
              r.1.atn == Some(r.0[act.atn.value.id]) && r.1.skeleton == r.0[act.atn.value.id].skeletonId
    ensures !(act.atn.Some? && act.atn.value.id in RowIds(rows)) ==> r.1 == act
  {
    var inserted := InsertRows(rows);
    var nodes := if edges then LinkAll(inserted, rows) else inserted;
    (nodes, Reactivate(nodes, act))
  }

  /** Every cached node carries the radius and root flag of the last record
      with its id: radius 0 off-section, 8 for an on-section non-treenode,
      the record's own radius for an on-section treenode; a treenode is a
      root exactly when its parent id does not parse as an integer. */
  lemma RefreshNodeFields(rows: seq<NodeRow>, act: Active, edges: bool, k: int)
    requires k in RowIds(rows)
    ensures var n := RefreshNodes(rows, act, edges).0[k];
            var row := LastRow(rows, k);
            && n.id == k
            && (n.kind == TreenodeKind <==> row.rtype == TreenodeRow)
            && n.radius == RowRadius(row)
            && (n.isRoot <==> row.rtype == TreenodeRow && ParentIdOf(row).None?)
            && (n.kind == ConnectorKind ==> n.skeletonId.None?)
  {
    var inserted := InsertRows(rows);
    if edges {
      LinkAllFacts(inserted, rows, k, PreSide, k);
    }
  }

  /** A node's children are exactly the ids of the treenode records naming
      it as parent, and only when edges are shown. */
  lemma RefreshNodesChildren(rows: seq<NodeRow>, act: Active, edges: bool, p: int, c: int)
    requires p in RowIds(rows)
    ensures c in RefreshNodes(rows, act, edges).0[p].children <==> edges && NamesParent(rows, p, c)
  {
    var inserted := InsertRows(rows);
    if edges {
      LinkAllFacts(inserted, rows, p, PreSide, c);
    }
  }

  /** A location's pre or post group holds exactly the loaded ids its
      records list on that side. */
  lemma RefreshNodesGroups(rows: seq<NodeRow>, act: Active, edges: bool, k: int, side: Side, t: int)
    requires k in RowIds(rows)
    ensures t in Group(RefreshNodes(rows, act, edges).0[k], side) <==>
              edges && ListsOn(rows, k, side, t) && t in RowIds(rows)
  {
    var inserted := InsertRows(rows);
    if edges {
      LinkAllFacts(inserted, rows, k, side, t);
    }
  }

  /** A node's connectors are exactly the location records listing it. */
  lemma RefreshNodesConnectors(rows: seq<NodeRow>, act: Active, edges: bool, k: int, c: int)
    requires k in RowIds(rows)
    ensures c in RefreshNodes(rows, act, edges).0[k].connectors <==>
              edges && (ListsOn(rows, c, PreSide, k) || ListsOn(rows, c, PostSide, k))
  {
    var inserted := InsertRows(rows);
    if edges {
      LinkAllFacts(inserted, rows, k, PreSide, c);
    }
  }

  /** A parent is only ever a loaded node. */
  lemma RefreshNodesParentLoaded(rows: seq<NodeRow>, act: Active, edges: bool, k: int)
    requires k in RowIds(rows)
    ensures var n := RefreshNodes(rows, act, edges).0[k];
            n.parent.Some? ==> edges && n.parent.value in RowIds(rows)
  {
    var inserted := InsertRows(rows);
    if edges {
      LinkAllFacts(inserted, rows, k, PreSide, k);
    }
  }

  // ---------------------------------------------------------------------
  // Areas and the active area (refreshAreas)

  /** A cached polygon area: vertex screen coordinates, the vertex-dot
      radius, what reading its `z` property gives (None for undefined) and
      the sync flag. */
  datatype LArea = LArea(id: int, xs: seq<real>, ys: seq<real>, r: real, z: Option<real>, needsync: bool)

  /** The Area constructor, httpdocs/widgets/overlay_area.js: it takes
      (id, paper, x, y, r), keeps the coordinate arrays and the radius, and
      has no section argument, so the area's `z` stays undefined. */
  function NewLArea(id: int, xs: seq<real>, ys: seq<real>, r: real): (a: LArea)
    ensures a.id == id && a.xs == xs && a.ys == ys && a.r == r
    ensures a.z.None? && !a.needsync
  {
    LArea(id, xs, ys, r, None, false)
  }

  /** The vertex-dot radius refreshAreas evidently means (area_dragpt_r). */
  const AreaDotRadius: real := 4.0

  /** One area record from the server: project coordinates of the vertices. */
  datatype AreaRow = AreaRow(id: int, z: real, x: seq<real>, y: seq<real>)

  function Scaled(v: seq<real>, s: real): (r: seq<real>)
    ensures |r| == |v|
    ensures forall j | 0 <= j < |v| :: r[j] == v[j] * s
  {
    seq(|v|, j requires 0 <= j < |v| => v[j] * s)
  }

  function AreaIds(rows: seq<AreaRow>): (ids: set<int>)
    ensures forall k :: k in ids <==> exists i | 0 <= i < |rows| :: rows[i].id == k
  {
    set i | 0 <= i < |rows| :: rows[i].id
  }

  function LastAreaRow(rows: seq<AreaRow>, k: int): (row: AreaRow)
    requires k in AreaIds(rows)
    ensures row in rows && row.id == k
    decreases |rows|
  {
    var last := rows[|rows| - 1];
    if last.id == k then last
    else
      var init := rows[..|rows| - 1];
      assert k in AreaIds(init) by {
        var i :| 0 <= i < |rows| && rows[i].id == k;
        assert init[i] == rows[i];
      }
      LastAreaRow(init, k)
  }

  /** The area made active by the rebuild: the one whose id is the
      previously active area's, or -1 when no area was active. */
  function ReactivatedArea(rows: seq<AreaRow>, aa: Option<int>): (r: Option<int>)
    ensures r.Some? ==> r.value in AreaIds(rows)
    ensures aa.Some? && r.Some? ==> r == aa
    ensures aa.None? && r.Some? ==> r.value == -1
    ensures aa.Some? && aa.value in AreaIds(rows) ==> r == aa
  {
    var lastId := if aa.Some? then aa.value else -1;
    if lastId in AreaIds(rows) then Some(lastId) else None
  }

  /** The scratch arrays of refreshAreas after one record: `for (j in v)`
      overwrites the first |v| slots and leaves any longer tail alone. */
  function Overwrite(buf: seq<real>, v: seq<real>, s: real): (r: seq<real>)
    ensures |r| == if |v| >= |buf| then |v| else |buf|
    ensures forall j | 0 <= j < |v| :: r[j] == v[j] * s
    ensures forall j | |v| <= j < |buf| :: r[j] == buf[j]
  {
    if |v| >= |buf| then Scaled(v, s) else Scaled(v, s) + buf[|v|..]
  }

  function BuffersAfter(rows: seq<AreaRow>, s: real): (r: (seq<real>, seq<real>))
    decreases |rows|
  {
    if rows == [] then ([], [])
    else
      var (bufX, bufY) := BuffersAfter(rows[..|rows| - 1], s);
      var last := rows[|rows| - 1];
      (Overwrite(bufX, last.x, s), Overwrite(bufY, last.y, s))
  }

  /** refreshAreas as written: the two scratch arrays are declared once,
      outside the loop, and handed to every Area, which keeps the array it
      is given. So every area ends up sharing the same two arrays, which
      hold the last record's vertices followed by any longer leftovers.
      The record's z lands in the constructor's radius argument. */
  function RefreshAreasAsWritten(rows: seq<AreaRow>, aa: Option<int>, s: real): (r: (map<int, LArea>, Option<int>))
    ensures r.0.Keys == AreaIds(rows)
    ensures forall k | k in r.0 :: r.0[k].z.None? && !r.0[k].needsync
  {
    var (bufX, bufY) := BuffersAfter(rows, s);
    (map k | k in AreaIds(rows) :: NewLArea(k, bufX, bufY, LastAreaRow(rows, k).z), ReactivatedArea(rows, aa))
  }

  /** Two records are enough for the first area to show the second's vertices. */
  lemma RefreshAreasSharesVertices()
    ensures var rows := [AreaRow(1, 0.0, [1.0], [1.0]), AreaRow(2, 0.0, [2.0], [2.0])];
            var areas := RefreshAreasAsWritten(rows, None, 1.0).0;
            1 in areas && areas[1].xs == [2.0] && areas[1].xs != Scaled(rows[0].x, 1.0)
  {
    var rows := [AreaRow(1, 0.0, [1.0], [1.0]), AreaRow(2, 0.0, [2.0], [2.0])];
    assert rows[..1] == [rows[0]];
    assert [rows[0]][..0] == [];
    assert BuffersAfter([], 1.0) == ([], []);
    var first := BuffersAfter([rows[0]], 1.0);
    assert first.0 == Overwrite([], rows[0].x, 1.0);
    assert first.0 == Scaled([1.0], 1.0);
    var both := BuffersAfter(rows, 1.0);
    assert both.0 == Overwrite(first.0, [2.0], 1.0);
    assert both.0 == [2.0];
    assert Scaled(rows[0].x, 1.0) == [1.0];
    assert 1 in AreaIds(rows) by { assert rows[0].id == 1; }
  }

  /** A shorter later record also keeps the earlier record's extra vertex. */
  lemma RefreshAreasKeepsLeftovers()
    ensures var rows := [AreaRow(1, 0.0, [1.0, 3.0], [1.0, 3.0]), AreaRow(2, 0.0, [2.0], [2.0])];
            var areas := RefreshAreasAsWritten(rows, None, 1.0).0;
            2 in areas && areas[2].xs == [2.0, 3.0] && |areas[2].xs| != |rows[1].x|
  {
    var rows := [AreaRow(1, 0.0, [1.0, 3.0], [1.0, 3.0]), AreaRow(2, 0.0, [2.0], [2.0])];
    assert rows[..1] == [rows[0]];
    assert [rows[0]][..0] == [];
    assert BuffersAfter([], 1.0) == ([], []);
    var first := BuffersAfter([rows[0]], 1.0);
    assert first.0 == Overwrite([], rows[0].x, 1.0);
    assert first.0 == Scaled([1.0, 3.0], 1.0);
    assert first.0 == [1.0, 3.0];
    var both := BuffersAfter(rows, 1.0);
    assert both.0 == Overwrite(first.0, [2.0], 1.0);
    assert both.0 == [2.0, 3.0];
    assert 2 in AreaIds(rows) by { assert rows[1].id == 2; }
  }

  /** refreshAreas with a fresh pair of arrays per record: every area
      holds its own (last) record's vertices, scaled to the screen. The
      constructor call is as written: the record's z becomes the radius and
      the area has no section. */
  function RefreshAreas(rows: seq<AreaRow>, aa: Option<int>, s: real): (r: (map<int, LArea>, Option<int>))
    ensures r.0.Keys == AreaIds(rows)
    ensures forall k | k in r.0 ::
              exists i | 0 <= i < |rows| ::
                rows[i].id == k && r.0[k].xs == Scaled(rows[i].x, s) && r.0[k].ys == Scaled(rows[i].y, s) &&
                r.0[k].r == rows[i].z && r.0[k].z.None? && !r.0[k].needsync
    ensures r.1 == ReactivatedArea(rows, aa)
  {
    var areas := map k | k in AreaIds(rows) ::
      var row := LastAreaRow(rows, k);
      NewLArea(k, Scaled(row.x, s), Scaled(row.y, s), row.z);
    assert forall k | k in areas :: exists i | 0 <= i < |rows| :: rows[i] == LastAreaRow(rows, k) by {
      forall k | k in areas ensures exists i | 0 <= i < |rows| :: rows[i] == LastAreaRow(rows, k) {
        var row := LastAreaRow(rows, k);
        assert row in rows;
      }
    }
    (areas, ReactivatedArea(rows, aa))
  }

  /** refreshAreas as evidently intended: each area keeps its record's
      section and is drawn with the overlay's vertex-dot radius. */
  function RefreshAreasWithSections(rows: seq<AreaRow>, aa: Option<int>, s: real): (r: (map<int, LArea>, Option<int>))
    ensures r.0.Keys == AreaIds(rows)
    ensures forall k | k in r.0 ::
              exists i | 0 <= i < |rows| ::
                rows[i].id == k && r.0[k].xs == Scaled(rows[i].x, s) && r.0[k].ys == Scaled(rows[i].y, s) &&
                r.0[k].r == AreaDotRadius && r.0[k].z == Some(rows[i].z) && !r.0[k].needsync
    ensures r.1 == ReactivatedArea(rows, aa)
  {
    var areas := map k | k in AreaIds(rows) ::
      var row := LastAreaRow(rows, k);
      LArea(k, Scaled(row.x, s), Scaled(row.y, s), AreaDotRadius, Some(row.z), false);
    assert forall k | k in areas :: exists i | 0 <= i < |rows| :: rows[i] == LastAreaRow(rows, k) by {
      forall k | k in areas ensures exists i | 0 <= i < |rows| :: rows[i] == LastAreaRow(rows, k) {
        var row := LastAreaRow(rows, k);
        assert row in rows;
      }
    }
    (areas, ReactivatedArea(rows, aa))
  }

  /** As written, a refreshed area in section 5 is drawn with radius 5 and,
      once edited, is sent with an undefined z and bounds "(1,1,)". */
  lemma RefreshedAreaLosesSection(num: real -> string, undef: string)
    requires num(1.0) == "1"
    ensures var rows := [AreaRow(1, 5.0, [1.0], [1.0])];
            var areas := RefreshAreas(rows, None, 1.0).0;
            1 in areas && var a := areas[1];
            a.r == 5.0 && a.z.None? &&
            AreaFields(a.(needsync := true), 1.0, num, undef)[2] == ("z", undef) &&
            AreaFields(a.(needsync := true), 1.0, num, undef)[3] == ("lbound", "(1,1,)")
  {
    var rows := [AreaRow(1, 5.0, [1.0], [1.0])];
    assert 1 in AreaIds(rows) by { assert rows[0].id == 1; }
    var a := RefreshAreas(rows, None, 1.0).0[1];
    var i :| 0 <= i < |rows| && rows[i].id == 1 && a.xs == Scaled(rows[i].x, 1.0) && a.ys == Scaled(rows[i].y, 1.0) &&
             a.r == rows[i].z && a.z.None?;
    assert i == 0;
    assert a.xs == [1.0] && a.ys == [1.0];
    var b := a.(needsync := true);
    var px := Unscaled(b.xs, 1.0);
    assert px == [1.0];
    assert MinBound(px) == Finite(1.0) by { assert px[..0] == []; }
    assert BoundText(Finite(1.0), num) == "1";
    assert BoundTriple(Finite(1.0), Finite(1.0), None, num) == "(1,1,)";
    assert AreaFields(b, 1.0, num, undef)[3] == ("lbound", "(1,1,)");
    assert AreaFields(b, 1.0, num, undef)[2] == ("z", undef);
  }

  /** With distinct ids an area has exactly its record's vertex count. */
  lemma RefreshAreasVertexCount(rows: seq<AreaRow>, aa: Option<int>, s: real, i: int)
    requires 0 <= i < |rows|
    requires forall a, b | 0 <= a < b < |rows| :: rows[a].id != rows[b].id
    ensures var areas := RefreshAreas(rows, aa, s).0;
            rows[i].id in areas && |areas[rows[i].id].xs| == |rows[i].x| && |areas[rows[i].id].ys| == |rows[i].y|
  {
    var areas := RefreshAreas(rows, aa, s).0;
    var k := rows[i].id;
    var j :| 0 <= j < |rows| && rows[j].id == k && areas[k].xs == Scaled(rows[j].x, s) && areas[k].ys == Scaled(rows[j].y, s);
  }

  // ---------------------------------------------------------------------
  // refreshAnnotations

  /** A record of the annotation list: one whose type is "area", or any other. */
  datatype Annotation = AreaAnnotation(area: AreaRow) | NodeAnnotation(node: NodeRow)

  function AreaRowsOf(anns: seq<Annotation>): (r: seq<AreaRow>)
    ensures |r| <= |anns|
    decreases |anns|
  {
    if anns == [] then []
    else (if anns[0].AreaAnnotation? then [anns[0].area] else []) + AreaRowsOf(anns[1..])
  }

  function NodeRowsOf(anns: seq<Annotation>): (r: seq<NodeRow>)
    ensures |r| <= |anns|
    decreases |anns|
  {
    if anns == [] then []
    else (if anns[0].NodeAnnotation? then [anns[0].node] else []) + NodeRowsOf(anns[1..])
  }

  /** The two lists split the records: each record lands in exactly one,
      and the two lengths add up. */
  lemma {:induction false} PartitionAnnotations(anns: seq<Annotation>, a: AreaRow, n: NodeRow)
    ensures |AreaRowsOf(anns)| + |NodeRowsOf(anns)| == |anns|
    ensures a in AreaRowsOf(anns) <==> AreaAnnotation(a) in anns
    ensures n in NodeRowsOf(anns) <==> NodeAnnotation(n) in anns
    decreases |anns|
  {
    if anns != [] {
      PartitionAnnotations(anns[1..], a, n);
      assert forall x :: x in anns <==> x == anns[0] || x in anns[1..];
    }
  }

  /** Everything the overlay caches about the current view. */
  datatype Cache = Cache(nodes: map<int, LNode>, active: Active, areas: map<int, LArea>, activeArea: Option<int>)

  /** Every node id rebuilt from the non-area records is a node record's id. */
  lemma NodeIdsFromAnnotations(anns: seq<Annotation>)
    ensures forall k :: k in RowIds(NodeRowsOf(anns)) ==> exists n :: NodeAnnotation(n) in anns && n.id == k
  {
    var nodeRows := NodeRowsOf(anns);
    forall k | k in RowIds(nodeRows) ensures exists n :: NodeAnnotation(n) in anns && n.id == k {
      var i :| 0 <= i < |nodeRows| && nodeRows[i].id == k;
      PartitionAnnotations(anns, AreaRow(0, 0.0, [], []), nodeRows[i]);
    }
  }

  /** Every area id rebuilt from the area records is an area record's id. */
  lemma AreaIdsFromAnnotations(anns: seq<Annotation>)
    ensures forall k :: k in AreaIds(AreaRowsOf(anns)) ==> exists a :: AreaAnnotation(a) in anns && a.id == k
  {
    var areaRows := AreaRowsOf(anns);
    forall k | k in AreaIds(areaRows) ensures exists a :: AreaAnnotation(a) in anns && a.id == k {
      var i :| 0 <= i < |areaRows| && areaRows[i].id == k;
      PartitionAnnotations(anns, areaRows[i], NodeRow(0, OtherRow, 0.0, 0.0, 0.0, 0, 0.0, "", None, [], []));
    }
  }

  /** refreshAnnotations: split the records by type, clear the caches and
      rebuild nodes from the non-area records and areas from the area
      records (the per-record arrays of RefreshAreas). */
  function RefreshAnnotations(anns: seq<Annotation>, act: Active, aa: Option<int>, s: real, edges: bool): (c: Cache)
    ensures c.nodes.Keys == RowIds(NodeRowsOf(anns))
    ensures c.areas.Keys == AreaIds(AreaRowsOf(anns))
    ensures forall k :: k in c.nodes ==> exists n :: NodeAnnotation(n) in anns && n.id == k
    ensures forall k :: k in c.areas ==> exists a :: AreaAnnotation(a) in anns && a.id == k
  {
    var (nodes, act2) := RefreshNodes(NodeRowsOf(anns), act, edges);
    var (areas, aa2) := RefreshAreas(AreaRowsOf(anns), aa, s);
    NodeIdsFromAnnotations(anns);
    AreaIdsFromAnnotations(anns);
    Cache(nodes, act2, areas, aa2)
  }

  // ---------------------------------------------------------------------
  // Saving edited areas (updateAreasInDB, updateAreaPositions)

  /** A bound component: a number, or the infinity it starts from. */
  datatype Bound = PosInfinity | NegInfinity | Finite(v: real)

  /** The running minimum that starts at Infinity. */
  function MinBound(vs: seq<real>): (b: Bound)
    ensures vs == [] <==> b == PosInfinity
    ensures b.Finite? ==> b.v in vs && forall j | 0 <= j < |vs| :: b.v <= vs[j]
    ensures b != NegInfinity
    decreases |vs|
  {
    if vs == [] then PosInfinity
    else
      var rest := MinBound(vs[..|vs| - 1]);
      var v := vs[|vs| - 1];
      assert forall j | 0 <= j < |vs| - 1 :: vs[j] == vs[..|vs| - 1][j];
      if rest.Finite? && rest.v <= v then rest else Finite(v)
  }

  /** The running maximum that starts at -Infinity. */
  function MaxBound(vs: seq<real>): (b: Bound)
    ensures vs == [] <==> b == NegInfinity
    ensures b.Finite? ==> b.v in vs && forall j | 0 <= j < |vs| :: vs[j] <= b.v
    ensures b != PosInfinity
    decreases |vs|
  {
    if vs == [] then NegInfinity
    else
      var rest := MaxBound(vs[..|vs| - 1]);
      var v := vs[|vs| - 1];
      assert forall j | 0 <= j < |vs| - 1 :: vs[j] == vs[..|vs| - 1][j];
      if rest.Finite? && rest.v >= v then rest else Finite(v)
  }

  /** A bound as Array.join prints it; num is JavaScript's number-to-string
      conversion, which the model leaves as a parameter. */
  function BoundText(b: Bound, num: real -> string): string
  {
    match b
    case PosInfinity => "Infinity"
    case NegInfinity => "-Infinity"
    case Finite(v) => num(v)
  }

  /** A number that may be undefined, as Array.join prints it: undefined
      becomes the empty text. */
  function JoinedText(v: Option<real>, num: real -> string): string
  {
    match v
    case None => ""
    case Some(x) => num(x)
  }

  /** "(a,b,z)" from a bound triple; an undefined z leaves "(a,b,)". */
  function BoundTriple(bx: Bound, bY: Bound, z: Option<real>, num: real -> string): string
  {
    "(" + BoundText(bx, num) + "," + BoundText(bY, num) + "," + JoinedText(z, num) + ")"
  }

  /** A bound triple ends with its section and the closing parenthesis; an
      undefined section leaves a trailing comma. */
  lemma BoundTripleEnds(bx: Bound, bY: Bound, z: Option<real>, num: real -> string)
    ensures var t := BoundTriple(bx, bY, z, num);
            var tail := "," + JoinedText(z, num) + ")";
            |t| >= |tail| && t[|t| - |tail|..] == tail
  {
    var head := "(" + BoundText(bx, num) + "," + BoundText(bY, num);
    var tail := "," + JoinedText(z, num) + ")";
    assert BoundTriple(bx, bY, z, num) == head + tail;
  }

  /** A number that may be undefined, as the request queue sends it: an
      undefined value is sent as undef, whatever spelling the queue uses. */
  function SentText(v: Option<real>, num: real -> string, undef: string): string
  {
    match v
    case None => undef
    case Some(x) => num(x)
  }

  /** "(x0,y0),(x1,y1),...": one parenthesised pair per vertex, comma separated. */
  function PointList(xs: seq<real>, ys: seq<real>, num: real -> string): string
    requires |xs| == |ys|
    decreases |xs|
  {
    if xs == [] then ""
    else
      var pair := "(" + num(xs[0]) + "," + num(ys[0]) + ")";
      if |xs| == 1 then pair else pair + "," + PointList(xs[1..], ys[1..], num)
  }

  /** The polygon text "((x0,y0),(x1,y1),...)". */
  function PolygonText(xs: seq<real>, ys: seq<real>, num: real -> string): string
    requires |xs| == |ys|
  {
    "(" + PointList(xs, ys, num) + ")"
  }

  /** Screen to project coordinates: division by the current scale. */
  function Unscaled(v: seq<real>, s: real): (r: seq<real>)
    requires s != 0.0
    ensures |r| == |v|
    ensures forall j | 0 <= j < |v| :: r[j] * s == v[j]
  {
    seq(|v|, j requires 0 <= j < |v| => v[j] / s)
  }

  /** A request field: name and printed value. */
  type Field = (string, string)

  predicate AreaWellFormed(a: LArea)
  {
    |a.xs| == |a.ys|
  }

  /** The update record of one area, in the order its keys are written:
      area_id, polygon, z, lbound, ubound. An area without a section sends
      its z as undef and both bounds with an empty third component. */
  function AreaFields(a: LArea, s: real, num: real -> string, undef: string): (r: seq<Field>)
    requires AreaWellFormed(a) && s != 0.0
    ensures |r| == 5
    ensures r[0] == ("area_id", IntToString(a.id))
    ensures r[1].0 == "polygon" && r[2].0 == "z" && r[3].0 == "lbound" && r[4].0 == "ubound"
    ensures r[2].1 == SentText(a.z, num, undef)
    ensures forall j | 3 <= j < 5 :: var tail := "," + JoinedText(a.z, num) + ")";
              |r[j].1| >= |tail| && r[j].1[|r[j].1| - |tail|..] == tail
  {
    var px := Unscaled(a.xs, s);
    var py := Unscaled(a.ys, s);
    BoundTripleEnds(MinBound(px), MinBound(py), a.z, num);
    BoundTripleEnds(MaxBound(px), MaxBound(py), a.z, num);
    [("area_id", IntToString(a.id)),
     ("polygon", PolygonText(px, py, num)),
     ("z", SentText(a.z, num, undef)),
     ("lbound", BoundTriple(MinBound(px), MinBound(py), a.z, num)),
     ("ubound", BoundTriple(MaxBound(px), MaxBound(py), a.z, num))]
  }

  /** The record sent for one area (areas always keep as many x as y coordinates). */
  function AreaRecord(a: LArea, s: real, num: real -> string, undef: string): seq<Field>
    requires s != 0.0
  {
    if AreaWellFormed(a) then AreaFields(a, s, num, undef) else []
  }

  /** The dirty areas' records, in ascending id order. */
  function DirtyAreaRecords(areas: map<int, LArea>, s: real, num: real -> string, undef: string): seq<seq<Field>>
    requires s != 0.0
  {
    Collect(areas, SortedKeys(areas.Keys), (a: LArea) => a.needsync, (a: LArea) => AreaRecord(a, s, num, undef))
  }

  lemma DirtyAreaRecordsMeans(areas: map<int, LArea>, s: real, num: real -> string, undef: string, f: seq<Field>)
    requires s != 0.0
    ensures f in DirtyAreaRecords(areas, s, num, undef) <==>
              exists k | k in areas :: areas[k].needsync && f == AreaRecord(areas[k], s, num, undef)
    ensures |DirtyAreaRecords(areas, s, num, undef)| == 0 <==> forall k | k in areas :: !areas[k].needsync
  {
    var p := (a: LArea) => a.needsync;
    var g := (a: LArea) => AreaRecord(a, s, num, undef);
    CollectAll(areas, p, g, f);
    assert forall k | k in areas :: p(areas[k]) == areas[k].needsync && g(areas[k]) == AreaRecord(areas[k], s, num, undef);
  }

  /** The records sent are exactly the field lists of the dirty areas. */
  ghost predicate SendsDirtyFields(sent: seq<seq<Field>>, areas: map<int, LArea>, s: real, num: real -> string, undef: string)
  {
    && s != 0.0
    && forall f :: f in sent <==>
         exists k | k in areas :: areas[k].needsync && AreaWellFormed(areas[k]) && f == AreaFields(areas[k], s, num, undef)
  }

  lemma DirtyRecordsAreFields(areas: map<int, LArea>, s: real, num: real -> string, undef: string)
    requires forall k | k in areas :: AreaWellFormed(areas[k])
    requires s != 0.0
    ensures SendsDirtyFields(DirtyAreaRecords(areas, s, num, undef), areas, s, num, undef)
  {
    forall f ensures f in DirtyAreaRecords(areas, s, num, undef) <==>
                     exists k | k in areas :: areas[k].needsync && f == AreaFields(areas[k], s, num, undef) {
      DirtyAreaRecordsMeans(areas, s, num, undef, f);
    }
  }

  /** updateAreasInDB: every area's sync flag is cleared; the records of
      exactly the dirty areas, in ascending id order, are sent, and nothing
      is sent when no area is dirty. */
  function UpdateAreasInDB(areas: map<int, LArea>, s: real, num: real -> string, undef: string): (r: (map<int, LArea>, Option<seq<seq<Field>>>))
    requires forall k | k in areas :: AreaWellFormed(areas[k])
    requires s != 0.0
    ensures r.0.Keys == areas.Keys
    ensures forall k | k in areas :: r.0[k] == areas[k].(needsync := false)
    ensures r.1.None? <==> forall k | k in areas :: !areas[k].needsync
    ensures r.1.Some? ==> SendsDirtyFields(r.1.value, areas, s, num, undef)
  {
    var dirty := DirtyAreaRecords(areas, s, num, undef);
    DirtyAreaRecordsMeans(areas, s, num, undef, []);
    DirtyRecordsAreFields(areas, s, num, undef);
    (ClearedAreas(areas), if |dirty| > 0 then Some(dirty) else None)
  }

  /** Every area with its sync flag cleared. */
  function ClearedAreas(areas: map<int, LArea>): (r: map<int, LArea>)
    ensures r.Keys == areas.Keys
    ensures forall k | k in areas :: r[k] == areas[k].(needsync := false)
  {
    map k | k in areas :: areas[k].(needsync := false)
  }

  // ---------------------------------------------------------------------
  // Indexed request keys (updateAreaPositions, updateNodePositions)

  function Suffixed(fields: seq<Field>, suffix: string): (r: seq<Field>)
    ensures |r| == |fields|
    ensures forall j | 0 <= j < |fields| :: r[j] == (fields[j].0 + suffix, fields[j].1)
  {
    seq(|fields|, j requires 0 <= j < |fields| => (fields[j].0 + suffix, fields[j].1))
  }

  /** The request dictionary built from records numbered from start: for
      record i first "pid" + i, then each field name + i, in order. */
  function FlattenFrom(records: seq<seq<Field>>, pid: int, start: nat): (r: seq<Field>)
    decreases |records|
  {
    if records == [] then []
    else
      var suffix := IntToString(start);
      [("pid" + suffix, IntToString(pid))] + Suffixed(records[0], suffix) + FlattenFrom(records[1..], pid, start + 1)
  }

  /** The request dictionary of updateAreaPositions and updateNodePositions. */
  function Flatten(records: seq<seq<Field>>, pid: int): seq<Field>
  {
    FlattenFrom(records, pid, 0)
  }

  /** Entry e of record i: the project id first, then the record's fields. */
  predicate EntryOf(records: seq<seq<Field>>, pid: int, start: nat, i: int, e: Field)
    requires 0 <= i < |records|
  {
    e == ("pid" + IntToString(start + i), IntToString(pid)) ||
    exists j | 0 <= j < |records[i]| :: e == (records[i][j].0 + IntToString(start + i), records[i][j].1)
  }

  /** The first record's block: its pid entry and its suffixed fields. */
  lemma HeadEntries(records: seq<seq<Field>>, pid: int, start: nat, e: Field)
    requires records != []
    ensures e in [("pid" + IntToString(start), IntToString(pid))] + Suffixed(records[0], IntToString(start))
            <==> EntryOf(records, pid, start, 0, e)
  {
    var suffix := IntToString(start);
    var head := [("pid" + suffix, IntToString(pid))] + Suffixed(records[0], suffix);
    if e in head && e != head[0] {
      var j :| 0 <= j < |head| && head[j] == e;
      assert e == (records[0][j - 1].0 + suffix, records[0][j - 1].1);
    }
    if exists j | 0 <= j < |records[0]| :: e == (records[0][j].0 + suffix, records[0][j].1) {
      var j :| 0 <= j < |records[0]| && e == (records[0][j].0 + suffix, records[0][j].1);
      assert head[j + 1] == e;
    }
  }

  /** Record i of the tail, numbered from start + 1, is record i + 1. */
  lemma TailEntries(records: seq<seq<Field>>, rest: seq<seq<Field>>, pid: int, start: nat, next: nat, e: Field)
    requires records != [] && rest == records[1..] && next == start + 1
    ensures (exists i | 0 <= i < |rest| :: EntryOf(rest, pid, next, i, e)) <==>
            (exists i | 1 <= i < |records| :: EntryOf(records, pid, start, i, e))
  {
    if exists i | 0 <= i < |rest| :: EntryOf(rest, pid, next, i, e) {
      var i :| 0 <= i < |rest| && EntryOf(rest, pid, next, i, e);
      assert rest[i] == records[i + 1];
      assert EntryOf(records, pid, start, i + 1, e);
    }
    if exists i | 1 <= i < |records| :: EntryOf(records, pid, start, i, e) {
      var i :| 1 <= i < |records| && EntryOf(records, pid, start, i, e);
      assert rest[i - 1] == records[i];
      assert EntryOf(rest, pid, next, i - 1, e);
    }
  }

  /** The dictionary holds exactly the project id of every record and
      every record's fields, each under its name followed by the record's
      index. */
  lemma {:induction false} FlattenFromContents(records: seq<seq<Field>>, pid: int, start: nat, e: Field)
    ensures e in FlattenFrom(records, pid, start) <==>
              exists i | 0 <= i < |records| :: EntryOf(records, pid, start, i, e)
    decreases |records|
  {
    if records != [] {
      FlattenFromContents(records[1..], pid, start + 1, e);
      HeadEntries(records, pid, start, e);
      TailEntries(records, records[1..], pid, start, start + 1, e);
      if EntryOf(records, pid, start, 0, e) {
        assert exists i | 0 <= i < |records| :: EntryOf(records, pid, start, i, e);
      }
      if exists i | 0 <= i < |records| :: EntryOf(records, pid, start, i, e) {
        var i :| 0 <= i < |records| && EntryOf(records, pid, start, i, e);
        if i > 0 {
          assert exists i | 1 <= i < |records| :: EntryOf(records, pid, start, i, e);
        }
      }
    }
  }

  /** The dictionary has one pid entry per record plus one entry per field. */
  lemma {:induction false} FlattenFromLength(records: seq<seq<Field>>, pid: int, start: nat)
    ensures |FlattenFrom(records, pid, start)| == |records| + FieldCount(records)
    decreases |records|
  {
    if records != [] {
      FlattenFromLength(records[1..], pid, start + 1);
    }
  }

  function FieldCount(records: seq<seq<Field>>): nat
  {
    if records == [] then 0 else |records[0]| + FieldCount(records[1..])
  }

  // ---------------------------------------------------------------------
  // Saving moved nodes (updateNodeCoordinatesinDB)

  /** The type text of a cached node object. */
  function TypeName(k: Kind): string
  {
    if k == TreenodeKind then "treenode" else "location"
  }

  /** The update record of one node: node_id, x, y, z, type, with the
      position converted by the view's pixel-to-physical mapping phys. */
  function NodeFields(n: LNode, phys: (real, real, real) -> (real, real, real), num: real -> string): (r: seq<Field>)
    ensures |r| == 5 && r[0] == ("node_id", IntToString(n.id)) && r[4] == ("type", TypeName(n.kind))
  {
    var (x, y, z) := phys(n.x, n.y, n.z);
    [("node_id", IntToString(n.id)), ("x", num(x)), ("y", num(y)), ("z", num(z)), ("type", TypeName(n.kind))]
  }

  /** What updateNodeCoordinatesinDB does: the cache with every sync flag
      cleared, the records sent (if any) and the value the callback
      receives at once (if any). */
  datatype NodeFlush = NodeFlush(nodes: map<int, LNode>, request: Option<seq<seq<Field>>>, immediate: Option<int>)

  function DirtyNodeRecords(nodes: map<int, LNode>, phys: (real, real, real) -> (real, real, real),
                            num: real -> string): seq<seq<Field>>
  {
    Collect(nodes, SortedKeys(nodes.Keys), (n: LNode) => n.needsync, (n: LNode) => NodeFields(n, phys, num))
  }

  lemma DirtyNodeRecordsMeans(nodes: map<int, LNode>, phys: (real, real, real) -> (real, real, real),
                              num: real -> string, f: seq<Field>)
    ensures f in DirtyNodeRecords(nodes, phys, num) <==>
              exists k | k in nodes :: nodes[k].needsync && f == NodeFields(nodes[k], phys, num)
    ensures |DirtyNodeRecords(nodes, phys, num)| == 0 <==> forall k | k in nodes :: !nodes[k].needsync
  {
    var p := (n: LNode) => n.needsync;
    var g := (n: LNode) => NodeFields(n, phys, num);
    CollectAll(nodes, p, g, f);
    assert forall k | k in nodes :: p(nodes[k]) == nodes[k].needsync && g(nodes[k]) == NodeFields(nodes[k], phys, num);
  }

  /** Exactly the dirty nodes are sent, in ascending id order, and their
      flags cleared; with nothing dirty no request is made and a given
      callback receives 0 straight away. */
  function UpdateNodeCoordinatesInDB(nodes: map<int, LNode>, hasCallback: bool,
                                     phys: (real, real, real) -> (real, real, real), num: real -> string): (r: NodeFlush)
    ensures r.nodes.Keys == nodes.Keys
    ensures forall k | k in nodes :: r.nodes[k] == nodes[k].(needsync := false)
    ensures r.request.None? <==> forall k | k in nodes :: !nodes[k].needsync
    ensures r.request.Some? ==> SendsDirtyNodeFields(r.request.value, nodes, phys, num)
    ensures r.immediate == (if r.request.None? && hasCallback then Some(0) else None)
  {
    var dirty := DirtyNodeRecords(nodes, phys, num);
    DirtyNodeRecordsMeans(nodes, phys, num, []);
    DirtyNodeRecordsAreFields(nodes, phys, num);
    if |dirty| > 0 then NodeFlush(ClearedNodes(nodes), Some(dirty), None)
    else NodeFlush(ClearedNodes(nodes), None, if hasCallback then Some(0) else None)
  }

  /** The records sent are exactly the field lists of the dirty nodes. */
  ghost predicate SendsDirtyNodeFields(sent: seq<seq<Field>>, nodes: map<int, LNode>,
                                       phys: (real, real, real) -> (real, real, real), num: real -> string)
  {
    forall f :: f in sent <==> exists k | k in nodes :: nodes[k].needsync && f == NodeFields(nodes[k], phys, num)
  }

  lemma DirtyNodeRecordsAreFields(nodes: map<int, LNode>, phys: (real, real, real) -> (real, real, real),
                                  num: real -> string)
    ensures SendsDirtyNodeFields(DirtyNodeRecords(nodes, phys, num), nodes, phys, num)
  {
    forall f ensures f in DirtyNodeRecords(nodes, phys, num) <==>
                     exists k | k in nodes :: nodes[k].needsync && f == NodeFields(nodes[k], phys, num) {
      DirtyNodeRecordsMeans(nodes, phys, num, f);
    }
  }

  /** Every node with its sync flag cleared. */
  function ClearedNodes(nodes: map<int, LNode>): (r: map<int, LNode>)
    ensures r.Keys == nodes.Keys
    ensures forall k | k in nodes :: r[k] == nodes[k].(needsync := false)
  {
    map k | k in nodes :: nodes[k].(needsync := false)
  }
}
