/** The client-side node graph and decisions of the tracing overlay
    (django/applications/catmaid/static/js/widgets/overlay.js): the active
    node record with its change detection, the node cache rebuilt from the
    server's rows, connector lookups, the checks made before a link is
    created, the flush of moved nodes, the redraw-or-refetch rule, the
    mouse-click decision table, the selection after a delete, branch
    cycling and the annotation sets of the split/merge dialog.

    Coordinates are exact reals: the overlay's pixel and physical spaces
    coincide (its phys2pix and pix2phys conversions are the identity).
    Server calls are not made here: a decision returns the request it
    would send, and the reply comes back as an explicit argument. */
module TracingOverlay {
  import opened Common
  import Text

  datatype NodeType = Treenode | Connector

  /** How a treenode is linked to a connector. */
  datatype Relation = Presynaptic | Postsynaptic | GapJunction

  /** The treenodes linked to a connector under one relation, each with the
      confidence of its link. */
  type Group = map<int, int>

  /** A node of the cache. `parentId` is the parent id the server reported;
      `parent` is the loaded node this node is actually linked to. */
  datatype Node = Node(
    id: int,
    ntype: NodeType,
    parentId: Option<int>,
    parent: Option<int>,
    children: set<int>,
    skeletonId: Option<int>,
    x: real, y: real, z: real,
    isRoot: bool,
    canEdit: bool,
    needsync: bool,
    pre: Group, post: Group, gj: Group)

  /** The overlay's node cache, keyed by node id. */
  type Nodes = map<int, Node>

  function GroupOf(n: Node, rel: Relation): Group
  {
    match rel
    case Presynaptic => n.pre
    case Postsynaptic => n.post
    case GapJunction => n.gj
  }

  function WithGroup(n: Node, rel: Relation, g: Group): (r: Node)
    ensures GroupOf(r, rel) == g
    ensures forall other | other != rel :: GroupOf(r, other) == GroupOf(n, other)
    ensures r.(pre := n.pre, post := n.post, gj := n.gj) == n
  {
    match rel
    case Presynaptic => n.(pre := g)
    case Postsynaptic => n.(post := g)
    case GapJunction => n.(gj := g)
  }

  // ---------------------------------------------------------------------
  // The active node record (atn.set)
  // ---------------------------------------------------------------------

  /** SkeletonAnnotations.atn: every field may be null. */
  datatype ActiveNode = ActiveNode(
    id: Option<int>,
    skeletonId: Option<int>,
    ntype: Option<NodeType>,
    x: Option<real>, y: Option<real>, z: Option<real>,
    parentId: Option<int>,
    stackId: Option<int>)

  const NoActiveNode := ActiveNode(None, None, None, None, None, None, None, None)

  /** The record a node is compared against: its own fields, with the parent
      id the server reported. */
  function Observed(n: Node, stackId: Option<int>): ActiveNode
  {
    ActiveNode(Some(n.id), n.skeletonId, Some(n.ntype), Some(n.x), Some(n.y),
               Some(n.z), n.parentId, stackId)
  }

  /** atn.set(node, stack_id): returns the new record and whether the
      active-node-changed event fires. The change test compares the node's
      reported parent id, but the record stores the id of the parent the
      node is linked to. */
  function AtnSet(atn: ActiveNode, node: Option<Node>, stackId: Option<int>): (r: (ActiveNode, bool))
    ensures node.None? ==> r.0 == NoActiveNode && r.1
    ensures node.Some? ==> (r.1 <==> atn != Observed(node.value, stackId))
    ensures node.Some? ==> r.0 == Observed(node.value, stackId).(parentId := node.value.parent)
  {
    match node
    case None => (NoActiveNode, true)
    case Some(n) =>
      var changed :=
        atn.id != Some(n.id) || atn.skeletonId != n.skeletonId ||
        atn.ntype != Some(n.ntype) || atn.z != Some(n.z) ||
        atn.y != Some(n.y) || atn.x != Some(n.x) ||
        atn.parentId != n.parentId || atn.stackId != stackId;
      (ActiveNode(Some(n.id), n.skeletonId, Some(n.ntype), Some(n.x), Some(n.y),
                  Some(n.z), n.parent, stackId), changed)
  }

  /** Activating the same node twice fires the event the second time exactly
      when its reported parent id differs from its linked parent, e.g. for a
      treenode whose parent is not loaded. */
  lemma AtnSetRepeat(atn: ActiveNode, n: Node, stackId: Option<int>)
    ensures AtnSet(AtnSet(atn, Some(n), stackId).0, Some(n), stackId).1 <==> n.parent != n.parentId
  {
    var first := AtnSet(atn, Some(n), stackId).0;
    assert first == Observed(n, stackId).(parentId := n.parent);
    assert first == Observed(n, stackId) <==> n.parent == n.parentId;
  }

  // ---------------------------------------------------------------------
  // Rebuilding the node cache (refreshNodesFromTuples)
  // ---------------------------------------------------------------------

  /** A treenode row: id, parent id, position, skeleton id, editability. */
  datatype TreenodeRow = TreenodeRow(
    id: int, parentId: Option<int>, x: real, y: real, z: real,
    skeletonId: int, canEdit: bool)

  /** One treenode listed with a connector, with the link's confidence. */
  datatype LinkRow = LinkRow(treenode: int, confidence: int)

  /** A connector row: id, position, its pre-, postsynaptic and gap-junction
      treenodes, editability, and its parent connector. */
  datatype ConnectorRow = ConnectorRow(
    id: int, x: real, y: real, z: real,
    pre: seq<LinkRow>, post: seq<LinkRow>, gj: seq<LinkRow>,
    canEdit: bool, parentId: Option<int>)

  function RowLinks(c: ConnectorRow, rel: Relation): seq<LinkRow>
  {
    match rel
    case Presynaptic => c.pre
    case Postsynaptic => c.post
    case GapJunction => c.gj
  }

  /** A fresh treenode: unlinked, not dirty, root iff it has no parent id.
      (The node factory is not part of this model; its root flag is taken
      to be "no parent id".) */
  function NewTreenode(a: TreenodeRow): Node
  {
    Node(a.id, Treenode, a.parentId, None, {}, Some(a.skeletonId), a.x, a.y, a.z,
         a.parentId.None?, a.canEdit, false, map[], map[], map[])
  }

  function NewConnector(a: ConnectorRow): Node
  {
    Node(a.id, Connector, None, None, {}, None, a.x, a.y, a.z,
         false, a.canEdit, false, map[], map[], map[])
  }

  function TreenodeNodes(ts: seq<TreenodeRow>): (r: seq<Node>)
    ensures |r| == |ts|
    ensures forall i | 0 <= i < |ts| :: r[i] == NewTreenode(ts[i])
  {
    seq(|ts|, i requires 0 <= i < |ts| => NewTreenode(ts[i]))
  }

  function ConnectorNodes(cs: seq<ConnectorRow>): (r: seq<Node>)
    ensures |r| == |cs|
    ensures forall i | 0 <= i < |cs| :: r[i] == NewConnector(cs[i])
  {
    seq(|cs|, i requires 0 <= i < |cs| => NewConnector(cs[i]))
  }

  function Ids(ns: seq<Node>): set<int>
  {
    set n | n in ns :: n.id
  }

  /** ns[i] is the last node in ns with its id. */
  predicate LastWithId(ns: seq<Node>, i: int)
    requires 0 <= i < |ns|
  {
    forall j | i < j < |ns| :: ns[j].id != ns[i].id
  }

  /** `this.nodes[a[0]] = …` for each row in turn: a later row with the same
      id replaces an earlier one. */
  function Insert(nodes: Nodes, ns: seq<Node>): (r: Nodes)
    ensures r.Keys == nodes.Keys + Ids(ns)
    ensures forall k | k in r :: (k in nodes && r[k] == nodes[k]) || r[k] in ns
    decreases |ns|
  {
    if ns == [] then nodes
    else
      assert Ids(ns) == {ns[0].id} + Ids(ns[1..]) by {
        assert forall n | n in ns :: n == ns[0] || n in ns[1..];
      }
      Insert(nodes[ns[0].id := ns[0]], ns[1..])
  }

  lemma {:induction false} InsertContents(nodes: Nodes, ns: seq<Node>)
    ensures forall k | k in nodes && k !in Ids(ns) :: Insert(nodes, ns)[k] == nodes[k]
    ensures forall i | 0 <= i < |ns| && LastWithId(ns, i) :: Insert(nodes, ns)[ns[i].id] == ns[i]
    decreases |ns|
  {
    if ns != [] {
      var next := nodes[ns[0].id := ns[0]];
      var tail := ns[1..];
      InsertContents(next, tail);
      assert Ids(ns) == {ns[0].id} + Ids(tail) by {
        assert forall n | n in ns :: n == ns[0] || n in tail;
      }
      forall i | 0 <= i < |ns| && LastWithId(ns, i)
        ensures Insert(nodes, ns)[ns[i].id] == ns[i]
      {
        if i == 0 {
          assert ns[0].id !in Ids(tail) by {
            forall n | n in tail ensures n.id != ns[0].id {
              var j :| 0 <= j < |tail| && tail[j] == n;
              assert ns[j + 1] == n;
            }
          }
        } else {
          assert tail[i - 1] == ns[i];
          assert LastWithId(tail, i - 1) by {
            forall j | i - 1 < j < |tail| ensures tail[j].id != tail[i - 1].id {
              assert tail[j] == ns[j + 1];
            }
          }
        }
      }
    }
  }

  /** A request to link `child` to the node `parent`. */
  datatype ParentLink = ParentLink(child: int, parent: Option<int>)

  function TreenodeLinks(ts: seq<TreenodeRow>): (r: seq<ParentLink>)
    ensures |r| == |ts|
    ensures forall i | 0 <= i < |ts| :: r[i] == ParentLink(ts[i].id, ts[i].parentId)
  {
    seq(|ts|, i requires 0 <= i < |ts| => ParentLink(ts[i].id, ts[i].parentId))
  }

  function ConnectorLinks(cs: seq<ConnectorRow>): (r: seq<ParentLink>)
    ensures |r| == |cs|
    ensures forall i | 0 <= i < |cs| :: r[i] == ParentLink(cs[i].id, cs[i].parentId)
  {
    seq(|cs|, i requires 0 <= i < |cs| => ParentLink(cs[i].id, cs[i].parentId))
  }

  /** Whether a link is made: both ends are loaded and, when `section` is
      given (connector-to-connector links), the child or the parent lies on
      that section. */
  predicate Linked(nodes: Nodes, l: ParentLink, section: Option<real>)
  {
    l.parent.Some? && l.parent.value in nodes && l.child in nodes &&
    (section.None? || section.value == nodes[l.child].z ||
     section.value == nodes[l.parent.value].z)
  }

  /** Two nodes that differ at most in their parent and children links. */
  predicate SameExceptLinks(a: Node, b: Node)
  {
    WithoutLinks(a) == WithoutLinks(b)
  }

  function WithoutLinks(n: Node): Node
  {
    n.(parent := None, children := {})
  }

  /** Two caches with the same keys whose nodes differ at most in links. */
  predicate SameNodesExceptLinks(a: Nodes, b: Nodes)
  {
    a.Keys == b.Keys && forall k | k in a :: SameExceptLinks(a[k], b[k])
  }

  lemma LinkedStable(a: Nodes, b: Nodes, l: ParentLink, section: Option<real>)
    requires SameNodesExceptLinks(a, b)
    ensures Linked(a, l, section) == Linked(b, l, section)
  {
    if l.child in a {
      assert a[l.child].z == b[l.child].z;
    }
    if l.parent.Some? && l.parent.value in a {
      var p := l.parent.value;
      assert SameExceptLinks(a[p], b[p]);
      assert a[p].z == b[p].z;
    }
  }

  /** One link: `nn.parent = pn; pn.addChildNode(nn)`. */
  function LinkOne(nodes: Nodes, l: ParentLink, section: Option<real>): (r: Nodes)
    ensures SameNodesExceptLinks(r, nodes)
  {
    if Linked(nodes, l, section) then
      var p := l.parent.value;
      var m := nodes[l.child := nodes[l.child].(parent := l.parent)];
      m[p := m[p].(children := m[p].children + {l.child})]
    else nodes
  }

  /** The parent-linking passes of refreshNodesFromTuples. */
  function LinkParents(nodes: Nodes, links: seq<ParentLink>, section: Option<real>): (r: Nodes)
    ensures SameNodesExceptLinks(r, nodes)
    decreases |links|
  {
    if links == [] then nodes
    else LinkParents(LinkOne(nodes, links[0], section), links[1..], section)
  }

  /** The children a link pass gives node k: the ones it had, plus every
      child of a made link whose parent is k. */
  lemma {:induction false} LinkParentsChildren(nodes: Nodes, links: seq<ParentLink>, section: Option<real>, k: int, c: int)
    requires k in nodes
    ensures k in LinkParents(nodes, links, section)
    ensures c in LinkParents(nodes, links, section)[k].children <==>
            c in nodes[k].children ||
            exists i | 0 <= i < |links| :: links[i] == ParentLink(c, Some(k)) && Linked(nodes, links[i], section)
    decreases |links|
  {
    var r := LinkParents(nodes, links, section);
    if links != [] {
      var next := LinkOne(nodes, links[0], section);
      var tail := links[1..];
      LinkParentsChildren(next, tail, section, k, c);
      forall l: ParentLink ensures Linked(next, l, section) == Linked(nodes, l, section) {
        LinkedStable(next, nodes, l, section);
      }
      assert c in next[k].children <==>
             c in nodes[k].children || (links[0] == ParentLink(c, Some(k)) && Linked(nodes, links[0], section));
      if exists i | 0 <= i < |tail| :: tail[i] == ParentLink(c, Some(k)) && Linked(next, tail[i], section) {
        var i :| 0 <= i < |tail| && tail[i] == ParentLink(c, Some(k)) && Linked(next, tail[i], section);
        assert links[i + 1] == tail[i];
      }
      if exists i | 0 <= i < |links| :: links[i] == ParentLink(c, Some(k)) && Linked(nodes, links[i], section) {
        var i :| 0 <= i < |links| && links[i] == ParentLink(c, Some(k)) && Linked(nodes, links[i], section);
        if i > 0 {
          assert tail[i - 1] == links[i];
        }
      }
    }
  }

  /** The parent a link pass gives a node that is the child of exactly one
      link: that link's parent when the link is made, else the old one; a
      node that no link names keeps its parent. */
  lemma {:induction false} LinkParentsParent(nodes: Nodes, links: seq<ParentLink>, section: Option<real>, k: int)
    requires k in nodes
    requires forall i, j | 0 <= i < j < |links| :: links[i].child == k ==> links[j].child != k
    ensures k in LinkParents(nodes, links, section)
    ensures (forall i | 0 <= i < |links| :: links[i].child != k) ==>
            LinkParents(nodes, links, section)[k].parent == nodes[k].parent
    ensures forall i | 0 <= i < |links| && links[i].child == k ::
            LinkParents(nodes, links, section)[k].parent ==
            (if Linked(nodes, links[i], section) then links[i].parent else nodes[k].parent)
    decreases |links|
  {
    if links != [] {
      var next := LinkOne(nodes, links[0], section);
      var tail := links[1..];
      LinkParentsParent(next, tail, section, k);
      forall l: ParentLink ensures Linked(next, l, section) == Linked(nodes, l, section) {
        LinkedStable(next, nodes, l, section);
      }
      if links[0].child != k {
        assert next[k].parent == nodes[k].parent;
        forall i | 0 <= i < |links| && links[i].child == k
          ensures LinkParents(nodes, links, section)[k].parent ==
                  (if Linked(nodes, links[i], section) then links[i].parent else nodes[k].parent)
        {
          assert tail[i - 1] == links[i];
        }
      } else {
        assert forall i | 0 <= i < |tail| :: tail[i].child != k by {
          forall i | 0 <= i < |tail| ensures tail[i].child != k {
            assert tail[i] == links[i + 1];
          }
        }
        forall i | 0 <= i < |links| && links[i].child == k
          ensures i == 0
        {
        }
      }
    }
  }

  /** `connector.pregroup[tnid] = {…}` for one listed treenode, when it is
      loaded. */
  function AddLink(nodes: Nodes, cid: int, l: LinkRow, rel: Relation): (r: Nodes)
    ensures SameNodesExceptGroups(r, nodes)
  {
    if l.treenode in nodes && cid in nodes then
      nodes[cid := WithGroup(nodes[cid], rel, GroupOf(nodes[cid], rel)[l.treenode := l.confidence])]
    else nodes
  }

  /** One relation of one connector row, link by link. */
  function AddLinks(nodes: Nodes, cid: int, links: seq<LinkRow>, rel: Relation): (r: Nodes)
    ensures SameNodesExceptGroups(r, nodes)
    decreases |links|
  {
    if links == [] then nodes
    else AddLinks(AddLink(nodes, cid, links[0], rel), cid, links[1..], rel)
  }

  /** Two caches with the same keys whose nodes differ at most in groups. */
  predicate SameNodesExceptGroups(a: Nodes, b: Nodes)
  {
    a.Keys == b.Keys && forall k | k in a :: WithoutGroups(a[k]) == WithoutGroups(b[k])
  }

  function WithoutGroups(n: Node): Node
  {
    n.(pre := map[], post := map[], gj := map[])
  }

  /** The treenode ids a link list names. */
  function Treenodes(links: seq<LinkRow>): set<int>
  {
    set l | l in links :: l.treenode
  }

  lemma TreenodesCons(links: seq<LinkRow>)
    requires links != []
    ensures Treenodes(links) == {links[0].treenode} + Treenodes(links[1..])
  {
    assert forall l | l in links :: l == links[0] || l in links[1..];
  }

  function LoadedIn(links: seq<LinkRow>, loaded: set<int>): set<int>
  {
    Treenodes(links) * loaded
  }

  lemma AddLinkGroup(nodes: Nodes, cid: int, l: LinkRow, rel: Relation, k: int, other: Relation, t: int)
    requires k in nodes
    ensures k in AddLink(nodes, cid, l, rel)
    ensures t in GroupOf(AddLink(nodes, cid, l, rel)[k], other) <==>
            t in GroupOf(nodes[k], other) ||
            (k == cid && other == rel && l.treenode in nodes && t == l.treenode)
  {
  }

  /** The group of connector `cid` under `rel` gains exactly the loaded
      treenodes listed; every other group is unchanged. */
  lemma {:induction false} AddLinksGroup(nodes: Nodes, cid: int, links: seq<LinkRow>, rel: Relation, k: int, other: Relation, t: int)
    requires k in nodes
    ensures k in AddLinks(nodes, cid, links, rel)
    ensures t in GroupOf(AddLinks(nodes, cid, links, rel)[k], other) <==>
            t in GroupOf(nodes[k], other) ||
            (k == cid && other == rel && t in nodes && t in Treenodes(links))
    decreases |links|
  {
    if links != [] {
      var next := AddLink(nodes, cid, links[0], rel);
      AddLinkGroup(nodes, cid, links[0], rel, k, other, t);
      AddLinksGroup(next, cid, links[1..], rel, k, other, t);
      TreenodesCons(links);
    }
  }

  /** The relation groups of every connector row, in row order. */
  function AddGroups(nodes: Nodes, cs: seq<ConnectorRow>): (r: Nodes)
    ensures SameNodesExceptGroups(r, nodes)
    decreases |cs|
  {
    if cs == [] then nodes
    else
      var c := cs[0];
      var n1 := AddLinks(nodes, c.id, c.pre, Presynaptic);
      var n2 := AddLinks(n1, c.id, c.post, Postsynaptic);
      var n3 := AddLinks(n2, c.id, c.gj, GapJunction);
      AddGroups(n3, cs[1..])
  }

  /** The treenodes the rows list for connector k under one relation. */
  function Listed(cs: seq<ConnectorRow>, k: int, rel: Relation): set<int>
    decreases |cs|
  {
    if cs == [] then {}
    else (if cs[0].id == k then Treenodes(RowLinks(cs[0], rel)) else {}) + Listed(cs[1..], k, rel)
  }

  lemma ListedMeans(cs: seq<ConnectorRow>, k: int, rel: Relation, t: int)
    ensures t in Listed(cs, k, rel) <==>
            exists i | 0 <= i < |cs| :: cs[i].id == k && exists l | l in RowLinks(cs[i], rel) :: l.treenode == t
    decreases |cs|
  {
    if cs != [] {
      ListedMeans(cs[1..], k, rel, t);
      if exists i | 0 <= i < |cs| :: cs[i].id == k && exists l | l in RowLinks(cs[i], rel) :: l.treenode == t {
        var i :| 0 <= i < |cs| && cs[i].id == k && exists l | l in RowLinks(cs[i], rel) :: l.treenode == t;
        if i > 0 {
          assert cs[1..][i - 1] == cs[i];
        }
      }
      if exists i | 0 <= i < |cs[1..]| :: cs[1..][i].id == k && exists l | l in RowLinks(cs[1..][i], rel) :: l.treenode == t {
        var i :| 0 <= i < |cs[1..]| && cs[1..][i].id == k && exists l | l in RowLinks(cs[1..][i], rel) :: l.treenode == t;
        assert cs[i + 1] == cs[1..][i];
      }
    }
  }

  lemma ListedCons(cs: seq<ConnectorRow>, k: int, rel: Relation)
    requires cs != []
    ensures Listed(cs, k, rel) ==
            (if cs[0].id == k then Treenodes(RowLinks(cs[0], rel)) else {}) + Listed(cs[1..], k, rel)
  {
  }

  lemma {:induction false} AddGroupsGroup(nodes: Nodes, cs: seq<ConnectorRow>, k: int, rel: Relation, t: int)
    requires k in nodes
    ensures k in AddGroups(nodes, cs)
    ensures t in GroupOf(AddGroups(nodes, cs)[k], rel) <==>
            t in GroupOf(nodes[k], rel) || (t in nodes && t in Listed(cs, k, rel))
    decreases |cs|
  {
    if cs != [] {
      var c := cs[0];
      var n1 := AddLinks(nodes, c.id, c.pre, Presynaptic);
      var n2 := AddLinks(n1, c.id, c.post, Postsynaptic);
      var n3 := AddLinks(n2, c.id, c.gj, GapJunction);
      assert n1.Keys == nodes.Keys && n2.Keys == nodes.Keys && n3.Keys == nodes.Keys;
      AddLinksGroup(nodes, c.id, c.pre, Presynaptic, k, rel, t);
      AddLinksGroup(n1, c.id, c.post, Postsynaptic, k, rel, t);
      AddLinksGroup(n2, c.id, c.gj, GapJunction, k, rel, t);
      AddGroupsGroup(n3, cs[1..], k, rel, t);
      ListedCons(cs, k, rel);
      assert t in GroupOf(n3[k], rel) <==>
             t in GroupOf(nodes[k], rel) || (c.id == k && t in nodes && t in Treenodes(RowLinks(c, rel))) by {
        match rel
        case Presynaptic =>
        case Postsynaptic =>
        case GapJunction =>
      }
    }
  }

  function RowIds(ts: seq<TreenodeRow>, cs: seq<ConnectorRow>): set<int>
  {
    (set a | a in ts :: a.id) + (set a | a in cs :: a.id)
  }

  /** refreshNodesFromTuples(jso, pz), with the section `pz` as `section`:
      the cache is rebuilt from the treenode rows and the connector rows. */
  function RefreshNodes(ts: seq<TreenodeRow>, cs: seq<ConnectorRow>, section: real): (r: Nodes)
    ensures r.Keys == RowIds(ts, cs)
  {
    RowIdsOfNodes(ts, cs);
    AddGroups(Linked2(ts, cs, section), cs)
  }

  /** The cache after both insertion passes. */
  function Inserted(ts: seq<TreenodeRow>, cs: seq<ConnectorRow>): Nodes
  {
    Insert(Insert(map[], TreenodeNodes(ts)), ConnectorNodes(cs))
  }

  /** The cache after insertion and both parent-linking passes. */
  function Linked2(ts: seq<TreenodeRow>, cs: seq<ConnectorRow>, section: real): Nodes
  {
    var n2 := Inserted(ts, cs);
    LinkParents(LinkParents(n2, TreenodeLinks(ts), None), ConnectorLinks(cs), Some(section))
  }

  lemma RowIdsOfNodes(ts: seq<TreenodeRow>, cs: seq<ConnectorRow>)
    ensures Ids(TreenodeNodes(ts)) + Ids(ConnectorNodes(cs)) == RowIds(ts, cs)
  {
    assert Ids(TreenodeNodes(ts)) == set a | a in ts :: a.id by {
      forall a | a in ts ensures a.id in Ids(TreenodeNodes(ts)) {
        var i :| 0 <= i < |ts| && ts[i] == a;
        assert TreenodeNodes(ts)[i].id == a.id;
      }
    }
    assert Ids(ConnectorNodes(cs)) == set a | a in cs :: a.id by {
      forall a | a in cs ensures a.id in Ids(ConnectorNodes(cs)) {
        var i :| 0 <= i < |cs| && cs[i] == a;
        assert ConnectorNodes(cs)[i].id == a.id;
      }
    }
  }

  predicate EmptyGroups(nodes: Nodes)
  {
    forall k | k in nodes :: nodes[k].pre == map[] && nodes[k].post == map[] && nodes[k].gj == map[]
  }

  /** A node as the rows create it: unlinked and without groups. */
  predicate Bare(n: Node)
  {
    n.children == {} && n.parent == None && n.pre == map[] && n.post == map[] && n.gj == map[]
  }

  predicate AllBare(nodes: Nodes)
  {
    forall k | k in nodes :: Bare(nodes[k])
  }

  lemma InsertBare(nodes: Nodes, ns: seq<Node>)
    requires AllBare(nodes)
    requires forall i | 0 <= i < |ns| :: Bare(ns[i])
    ensures AllBare(Insert(nodes, ns))
  {
    var r := Insert(nodes, ns);
    forall k | k in r ensures Bare(r[k]) {
      if r[k] in ns {
        var i :| 0 <= i < |ns| && ns[i] == r[k];
      }
    }
  }

  lemma InsertedBare(ts: seq<TreenodeRow>, cs: seq<ConnectorRow>)
    ensures AllBare(Inserted(ts, cs))
  {
    var tn := TreenodeNodes(ts);
    var cn := ConnectorNodes(cs);
    assert forall i | 0 <= i < |tn| :: Bare(tn[i]);
    assert forall i | 0 <= i < |cn| :: Bare(cn[i]);
    InsertBare(map[], tn);
    InsertBare(Insert(map[], tn), cn);
  }

  lemma InsertedEmptyGroups(ts: seq<TreenodeRow>, cs: seq<ConnectorRow>)
    ensures EmptyGroups(Inserted(ts, cs))
  {
    InsertedBare(ts, cs);
  }

  lemma LinkingKeepsGroups(nodes: Nodes, links: seq<ParentLink>, section: Option<real>)
    requires EmptyGroups(nodes)
    ensures EmptyGroups(LinkParents(nodes, links, section))
  {
    var r := LinkParents(nodes, links, section);
    forall k | k in r ensures r[k].pre == map[] && r[k].post == map[] && r[k].gj == map[] {
      assert WithoutLinks(r[k]) == WithoutLinks(nodes[k]);
    }
  }

  /** The nodes the rows create start with empty groups, and the linking
      passes do not touch groups. */
  lemma UnlinkedGroups(ts: seq<TreenodeRow>, cs: seq<ConnectorRow>, section: real)
    ensures EmptyGroups(Linked2(ts, cs, section))
  {
    var n2 := Inserted(ts, cs);
    InsertedEmptyGroups(ts, cs);
    LinkingKeepsGroups(n2, TreenodeLinks(ts), None);
    LinkingKeepsGroups(LinkParents(n2, TreenodeLinks(ts), None), ConnectorLinks(cs), Some(section));
  }

  /** After a refresh, a connector's group under each relation holds exactly
      the listed treenodes that are loaded: links to nodes outside the
      cache are dropped. */
  lemma RefreshGroups(ts: seq<TreenodeRow>, cs: seq<ConnectorRow>, section: real, k: int, rel: Relation, t: int)
    requires k in RowIds(ts, cs)
    ensures t in GroupOf(RefreshNodes(ts, cs, section)[k], rel) <==>
            t in RowIds(ts, cs) && t in Listed(cs, k, rel)
  {
    var n4 := Linked2(ts, cs, section);
    UnlinkedGroups(ts, cs, section);
    AddGroupsGroup(n4, cs, k, rel, t);
    assert GroupOf(n4[k], rel) == map[];
  }

  predicate NoChildren(nodes: Nodes)
  {
    forall k | k in nodes :: nodes[k].children == {} && nodes[k].parent == None
  }

  lemma InsertedUnlinked(ts: seq<TreenodeRow>, cs: seq<ConnectorRow>)
    ensures NoChildren(Inserted(ts, cs))
  {
    InsertedBare(ts, cs);
  }

  /** A node on the section, by its refreshed position. */
  predicate OnSection(nodes: Nodes, k: int, section: real)
  {
    k in nodes && nodes[k].z == section
  }

  lemma TreenodeLinksMade(ts: seq<TreenodeRow>, nodes: Nodes, c: int, p: int)
    requires p in nodes
    requires forall i | 0 <= i < |ts| :: ts[i].id in nodes
    ensures (exists i | 0 <= i < |ts| :: TreenodeLinks(ts)[i] == ParentLink(c, Some(p)) &&
                                         Linked(nodes, TreenodeLinks(ts)[i], None)) <==>
            (exists i | 0 <= i < |ts| :: ts[i].id == c && ts[i].parentId == Some(p))
  {
    var tl := TreenodeLinks(ts);
    if exists i | 0 <= i < |ts| :: ts[i].id == c && ts[i].parentId == Some(p) {
      var i :| 0 <= i < |ts| && ts[i].id == c && ts[i].parentId == Some(p);
      assert tl[i] == ParentLink(c, Some(p)) && Linked(nodes, tl[i], None);
    }
  }

  lemma ConnectorLinksMade(cs: seq<ConnectorRow>, nodes: Nodes, section: real, c: int, p: int)
    requires p in nodes
    requires forall j | 0 <= j < |cs| :: cs[j].id in nodes
    ensures (exists j | 0 <= j < |cs| :: ConnectorLinks(cs)[j] == ParentLink(c, Some(p)) &&
                                         Linked(nodes, ConnectorLinks(cs)[j], Some(section))) <==>
            (exists j | 0 <= j < |cs| :: cs[j].id == c && cs[j].parentId == Some(p) &&
                (OnSection(nodes, c, section) || OnSection(nodes, p, section)))
  {
    var cl := ConnectorLinks(cs);
    if exists j | 0 <= j < |cs| :: cs[j].id == c && cs[j].parentId == Some(p) &&
              (OnSection(nodes, c, section) || OnSection(nodes, p, section)) {
      var j :| 0 <= j < |cs| && cs[j].id == c && cs[j].parentId == Some(p) &&
               (OnSection(nodes, c, section) || OnSection(nodes, p, section));
      assert cl[j] == ParentLink(c, Some(p)) && Linked(nodes, cl[j], Some(section));
    }
  }

  /** Two caches with the same keys and the same node positions. */
  predicate SamePositions(a: Nodes, b: Nodes)
  {
    a.Keys == b.Keys && forall k | k in a :: a[k].z == b[k].z
  }

  lemma RowsLoaded(ts: seq<TreenodeRow>, cs: seq<ConnectorRow>)
    ensures forall i | 0 <= i < |ts| :: ts[i].id in RowIds(ts, cs)
    ensures forall j | 0 <= j < |cs| :: cs[j].id in RowIds(ts, cs)
  {
    forall i | 0 <= i < |ts| ensures ts[i].id in RowIds(ts, cs) {
      assert ts[i] in ts;
    }
    forall j | 0 <= j < |cs| ensures cs[j].id in RowIds(ts, cs) {
      assert cs[j] in cs;
    }
  }

  lemma LinkedChildren(ts: seq<TreenodeRow>, cs: seq<ConnectorRow>, section: real, p: int, c: int)
    requires p in RowIds(ts, cs)
    ensures p in Linked2(ts, cs, section)
    ensures c in Linked2(ts, cs, section)[p].children <==>
            (exists i | 0 <= i < |ts| :: ts[i].id == c && ts[i].parentId == Some(p)) ||
            (exists j | 0 <= j < |cs| :: cs[j].id == c && cs[j].parentId == Some(p) &&
                (OnSection(Linked2(ts, cs, section), c, section) ||
                 OnSection(Linked2(ts, cs, section), p, section)))
  {
    var n2 := Inserted(ts, cs);
    var n3 := LinkParents(n2, TreenodeLinks(ts), None);
    var n4 := LinkParents(n3, ConnectorLinks(cs), Some(section));
    assert n4 == Linked2(ts, cs, section);
    RowIdsOfNodes(ts, cs);
    RowsLoaded(ts, cs);
    InsertedUnlinked(ts, cs);
    LinkParentsChildren(n2, TreenodeLinks(ts), None, p, c);
    LinkParentsChildren(n3, ConnectorLinks(cs), Some(section), p, c);
    TreenodeLinksMade(ts, n2, c, p);
    ConnectorLinksMade(cs, n3, section, c, p);
    assert SamePositions(n4, n3) by {
      forall k | k in n4 ensures n4[k].z == n3[k].z {
        assert WithoutLinks(n4[k]) == WithoutLinks(n3[k]);
      }
    }
    assert OnSection(n4, c, section) == OnSection(n3, c, section);
    assert OnSection(n4, p, section) == OnSection(n3, p, section);
  }

  /** After a refresh, a loaded node's children are exactly the treenodes
      whose row names it as parent, and the connectors whose row names it as
      parent connector when the child or the parent lies on the section. */
  lemma RefreshChildren(ts: seq<TreenodeRow>, cs: seq<ConnectorRow>, section: real, p: int, c: int)
    requires p in RowIds(ts, cs)
    ensures c in RefreshNodes(ts, cs, section)[p].children <==>
            (exists i | 0 <= i < |ts| :: ts[i].id == c && ts[i].parentId == Some(p)) ||
            (exists j | 0 <= j < |cs| :: cs[j].id == c && cs[j].parentId == Some(p) &&
                (OnSection(RefreshNodes(ts, cs, section), c, section) ||
                 OnSection(RefreshNodes(ts, cs, section), p, section)))
  {
    var r := RefreshNodes(ts, cs, section);
    var n4 := Linked2(ts, cs, section);
    assert r == AddGroups(n4, cs);
    LinkedChildren(ts, cs, section, p, c);
    assert r[p].children == n4[p].children by {
      assert WithoutGroups(r[p]) == WithoutGroups(n4[p]);
    }
    assert SamePositions(r, n4) by {
      forall k | k in r ensures r[k].z == n4[k].z {
        assert WithoutGroups(r[k]) == WithoutGroups(n4[k]);
      }
    }
    assert OnSection(r, c, section) == OnSection(n4, c, section);
    assert OnSection(r, p, section) == OnSection(n4, p, section);
  }

  /** Row ids are distinct across all treenode and connector rows. */
  predicate DistinctRows(ts: seq<TreenodeRow>, cs: seq<ConnectorRow>)
  {
    (forall i, j | 0 <= i < j < |ts| :: ts[i].id != ts[j].id) &&
    (forall i, j | 0 <= i < j < |cs| :: cs[i].id != cs[j].id) &&
    (forall i, j | 0 <= i < |ts| && 0 <= j < |cs| :: ts[i].id != cs[j].id)
  }

  lemma InsertedTreenode(ts: seq<TreenodeRow>, cs: seq<ConnectorRow>, i: int)
    requires DistinctRows(ts, cs)
    requires 0 <= i < |ts|
    ensures ts[i].id in Inserted(ts, cs)
    ensures Inserted(ts, cs)[ts[i].id] == NewTreenode(ts[i])
  {
    var k := ts[i].id;
    var tn := TreenodeNodes(ts);
    var n1 := Insert(map[], tn);
    RowIdsOfNodes(ts, cs);
    RowsLoaded(ts, cs);
    InsertContents(map[], tn);
    assert LastWithId(tn, i);
    assert n1[k] == NewTreenode(ts[i]);
    InsertContents(n1, ConnectorNodes(cs));
    assert k !in Ids(ConnectorNodes(cs)) by {
      forall n | n in ConnectorNodes(cs) ensures n.id != k {
        var j :| 0 <= j < |cs| && ConnectorNodes(cs)[j] == n;
      }
    }
  }

  lemma LinkedParent(ts: seq<TreenodeRow>, cs: seq<ConnectorRow>, section: real, i: int)
    requires DistinctRows(ts, cs)
    requires 0 <= i < |ts|
    ensures ts[i].id in Linked2(ts, cs, section)
    ensures Linked2(ts, cs, section)[ts[i].id].parent ==
            (if ts[i].parentId.Some? && ts[i].parentId.value in RowIds(ts, cs) then ts[i].parentId else None)
    ensures WithoutLinks(Linked2(ts, cs, section)[ts[i].id]) == WithoutLinks(NewTreenode(ts[i]))
  {
    var k := ts[i].id;
    var n2 := Inserted(ts, cs);
    var tl := TreenodeLinks(ts);
    var cl := ConnectorLinks(cs);
    var n3 := LinkParents(n2, tl, None);
    var n4 := LinkParents(n3, cl, Some(section));
    assert n4 == Linked2(ts, cs, section);
    RowIdsOfNodes(ts, cs);
    InsertedTreenode(ts, cs, i);
    LinkParentsParent(n2, tl, None, k);
    assert tl[i].child == k;
    LinkParentsParent(n3, cl, Some(section), k);
    assert WithoutLinks(n4[k]) == WithoutLinks(n3[k]) && WithoutLinks(n3[k]) == WithoutLinks(n2[k]);
  }

  /** With distinct row ids, a refreshed treenode is linked to a parent
      exactly when its parent id is loaded, and then to that parent; it is
      a root exactly when it has no parent id. */
  lemma RefreshParent(ts: seq<TreenodeRow>, cs: seq<ConnectorRow>, section: real, i: int)
    requires DistinctRows(ts, cs)
    requires 0 <= i < |ts|
    ensures ts[i].id in RefreshNodes(ts, cs, section)
    ensures RefreshNodes(ts, cs, section)[ts[i].id].parent ==
            (if ts[i].parentId.Some? && ts[i].parentId.value in RowIds(ts, cs) then ts[i].parentId else None)
    ensures RefreshNodes(ts, cs, section)[ts[i].id].isRoot <==> ts[i].parentId.None?
  {
    var k := ts[i].id;
    var r := RefreshNodes(ts, cs, section);
    var n4 := Linked2(ts, cs, section);
    assert r == AddGroups(n4, cs);
    LinkedParent(ts, cs, section, i);
    assert WithoutGroups(r[k]) == WithoutGroups(n4[k]);
  }

  // ---------------------------------------------------------------------
  // Connector lookups and the checks before a link is created
  // ---------------------------------------------------------------------

  /** The connectors a treenode is linked to, split by relation. */
  datatype ConnectorLists = ConnectorLists(pre: seq<int>, post: seq<int>, gj: seq<int>)

  predicate IsConnector(nodes: Nodes, c: int)
  {
    c in nodes && nodes[c].ntype == Connector
  }

  /** The loop of findConnectors over the given keys, in order: each
      connector lands in the first of pre, post, gj whose group holds t. */
  function Classify(nodes: Nodes, keys: seq<int>, t: int): (r: ConnectorLists)
    requires forall k | k in keys :: k in nodes
    ensures forall c :: c in r.pre <==> c in keys && IsConnector(nodes, c) && t in nodes[c].pre
    ensures forall c :: c in r.post <==>
              c in keys && IsConnector(nodes, c) && t !in nodes[c].pre && t in nodes[c].post
    ensures forall c :: c in r.gj <==>
              c in keys && IsConnector(nodes, c) && t !in nodes[c].pre && t !in nodes[c].post &&
              t in nodes[c].gj
    decreases |keys|
  {
    if keys == [] then ConnectorLists([], [], [])
    else
      var k := keys[0];
      var rest := Classify(nodes, keys[1..], t);
      assert forall c | c in keys :: c == k || c in keys[1..];
      if IsConnector(nodes, k) then
        if t in nodes[k].pre then rest.(pre := [k] + rest.pre)
        else if t in nodes[k].post then rest.(post := [k] + rest.post)
        else if t in nodes[k].gj then rest.(gj := [k] + rest.gj)
        else rest
      else rest
  }

  /** The head of an ascending list is below the rest, which ascends too. */
  lemma AscendingTail(keys: seq<int>)
    requires Ascending(keys) && keys != []
    ensures Ascending(keys[1..]) && forall c | c in keys[1..] :: keys[0] < c
  {
    forall c | c in keys[1..] ensures keys[0] < c {
      var j :| 0 <= j < |keys[1..]| && keys[1..][j] == c;
      assert keys[j + 1] == c;
    }
  }

  /** Over ascending keys the three lists ascend. */
  lemma {:induction false} ClassifyAscending(nodes: Nodes, keys: seq<int>, t: int)
    requires forall k | k in keys :: k in nodes
    requires Ascending(keys)
    ensures var r := Classify(nodes, keys, t);
            Ascending(r.pre) && Ascending(r.post) && Ascending(r.gj)
    decreases |keys|
  {
    if keys != [] {
      var k := keys[0];
      var rest := Classify(nodes, keys[1..], t);
      AscendingTail(keys);
      ClassifyAscending(nodes, keys[1..], t);
      AscendingCons(k, rest.pre);
      AscendingCons(k, rest.post);
      AscendingCons(k, rest.gj);
    }
  }

  /** findConnectors(node_id): the connectors the node is presynaptic to,
      postsynaptic to, and has a gap junction with, each in ascending id
      order; a connector listing the node under several relations counts
      once, under the first of pre, post, gap junction. */
  function FindConnectors(nodes: Nodes, t: int): (r: ConnectorLists)
    ensures Ascending(r.pre) && Ascending(r.post) && Ascending(r.gj)
    ensures forall c :: c in r.pre <==> IsConnector(nodes, c) && t in nodes[c].pre
    ensures forall c :: c in r.post <==> IsConnector(nodes, c) && t !in nodes[c].pre && t in nodes[c].post
    ensures forall c :: c in r.gj <==>
              IsConnector(nodes, c) && t !in nodes[c].pre && t !in nodes[c].post && t in nodes[c].gj
  {
    ClassifyAscending(nodes, SortedKeys(nodes.Keys), t);
    Classify(nodes, SortedKeys(nodes.Keys), t)
  }

  /** The three lists of findConnectors never share a connector. */
  lemma FindConnectorsDisjoint(nodes: Nodes, t: int, c: int)
    ensures !(c in FindConnectors(nodes, t).pre && c in FindConnectors(nodes, t).post)
    ensures !(c in FindConnectors(nodes, t).pre && c in FindConnectors(nodes, t).gj)
    ensures !(c in FindConnectors(nodes, t).post && c in FindConnectors(nodes, t).gj)
  {
  }

  /** The outcome of checkLoadedAndIsNotRoot. */
  datatype RootCheck = NodeNotFound | AlreadyRoot | NotRoot

  function CheckLoadedAndIsNotRoot(nodes: Nodes, id: Option<int>): (r: RootCheck)
    ensures r == NotRoot <==> id.Some? && id.value in nodes && !nodes[id.value].isRoot
    ensures r == NodeNotFound <==> id.None? || id.value !in nodes
  {
    if id.None? || id.value !in nodes then NodeNotFound
    else if nodes[id.value].isRoot then AlreadyRoot
    else NotRoot
  }

  /** After a refresh with distinct rows, rerooting at a loaded treenode
      passes the check exactly when its row had a parent id, whether or not
      that parent is loaded. */
  lemma RerootAfterRefresh(ts: seq<TreenodeRow>, cs: seq<ConnectorRow>, section: real, i: int)
    requires DistinctRows(ts, cs)
    requires 0 <= i < |ts|
    ensures CheckLoadedAndIsNotRoot(RefreshNodes(ts, cs, section), Some(ts[i].id)) == NotRoot <==>
            ts[i].parentId.Some?
  {
    RefreshParent(ts, cs, section, i);
  }

  /** The outcome of the checks createPresynapticTreenode and
      createGapjunctionTreenode make before linking a new treenode. */
  datatype LinkCheck = ConnectorNotLoaded | HasPresynapticNode | HasTwoGapJunctions | PartOfSynapse | LinkAllowed

  function PresynapticCheck(nodes: Nodes, cid: int): (r: LinkCheck)
    ensures r == LinkAllowed <==> cid in nodes && |nodes[cid].pre| == 0
    ensures r == ConnectorNotLoaded <==> cid !in nodes
  {
    if cid !in nodes then ConnectorNotLoaded
    else if |nodes[cid].pre.Keys| > 0 then HasPresynapticNode
    else LinkAllowed
  }

  function GapJunctionCheck(nodes: Nodes, cid: int): (r: LinkCheck)
    ensures r == LinkAllowed <==>
            cid in nodes && |nodes[cid].gj| <= 1 && |nodes[cid].pre| == 0 && |nodes[cid].post| == 0
    ensures r == ConnectorNotLoaded <==> cid !in nodes
  {
    if cid !in nodes then ConnectorNotLoaded
    else if |nodes[cid].gj.Keys| > 1 then HasTwoGapJunctions
    else if |nodes[cid].pre.Keys| > 0 || |nodes[cid].post.Keys| > 0 then PartOfSynapse
    else LinkAllowed
  }

  /** A new link the checks let through keeps a connector's shape: at most
      one presynaptic treenode, and at most two gap junctions, which never
      share the connector with a synapse. */
  lemma ChecksKeepSynapseShape(nodes: Nodes, cid: int, t: int, confidence: int)
    requires cid in nodes
    requires t !in nodes[cid].pre && t !in nodes[cid].gj
    ensures PresynapticCheck(nodes, cid) == LinkAllowed ==>
            |nodes[cid].pre[t := confidence]| == 1
    ensures GapJunctionCheck(nodes, cid) == LinkAllowed ==>
            |nodes[cid].gj[t := confidence]| <= 2 &&
            |nodes[cid].pre| == 0 && |nodes[cid].post| == 0
  {
    var n := nodes[cid];
    assert n.pre[t := confidence].Keys == n.pre.Keys + {t};
    assert n.gj[t := confidence].Keys == n.gj.Keys + {t};
  }

  // ---------------------------------------------------------------------
  // Flushing moved nodes (updateNodeCoordinatesinDB)
  // ---------------------------------------------------------------------

  /** One entry of the update request: id and position. */
  datatype Position = Position(id: int, x: real, y: real, z: real)

  /** The dirty nodes of one type among the given keys, in key order. */
  function DirtyOfType(nodes: Nodes, keys: seq<int>, ty: NodeType): (r: seq<Position>)
    requires forall k | k in keys :: k in nodes
    ensures forall e :: e in r <==>
              exists k | k in keys :: nodes[k].needsync && nodes[k].ntype == ty &&
                                      e == Position(k, nodes[k].x, nodes[k].y, nodes[k].z)
    ensures |r| <= |keys|
    decreases |keys|
  {
    if keys == [] then []
    else
      var k := keys[0];
      var rest := DirtyOfType(nodes, keys[1..], ty);
      assert forall c | c in keys :: c == k || c in keys[1..];
      if nodes[k].needsync && nodes[k].ntype == ty then
        [Position(k, nodes[k].x, nodes[k].y, nodes[k].z)] + rest
      else rest
  }

  /** The update request: moved treenodes and moved connectors. */
  datatype NodeUpdate = NodeUpdate(treenodes: seq<Position>, connectors: seq<Position>)

  /** The effect of updateNodeCoordinatesinDB(callback): the cache with every
      dirty flag cleared, the request sent (if any), and the value the
      callback receives straight away (if any). */
  datatype Flush = Flush(nodes: Nodes, request: Option<NodeUpdate>, immediate: Option<int>)

  predicate Dirty(nodes: Nodes, k: int)
  {
    k in nodes && nodes[k].needsync
  }

  /** A list of one type is empty exactly when no listed key is dirty with that type. */
  lemma {:induction false} DirtyOfTypeEmpty(nodes: Nodes, keys: seq<int>, ty: NodeType)
    requires forall k | k in keys :: k in nodes
    ensures |DirtyOfType(nodes, keys, ty)| == 0 <==>
            forall i | 0 <= i < |keys| :: !(nodes[keys[i]].needsync && nodes[keys[i]].ntype == ty)
    decreases |keys|
  {
    if keys != [] {
      DirtyOfTypeEmpty(nodes, keys[1..], ty);
      assert forall i | 1 <= i < |keys| :: keys[i] == keys[1..][i - 1];
    }
  }

  lemma NoneDirtyInKeys(nodes: Nodes, keys: seq<int>)
    requires forall i | 0 <= i < |keys| :: keys[i] in nodes
    requires forall k | k in nodes :: k in keys
    ensures (forall i | 0 <= i < |keys| :: !nodes[keys[i]].needsync) <==> forall k | k in nodes :: !nodes[k].needsync
  {
    if forall i | 0 <= i < |keys| :: !nodes[keys[i]].needsync {
      forall k | k in nodes ensures !nodes[k].needsync {
        assert k in keys;
        var i :| 0 <= i < |keys| && keys[i] == k;
      }
    } else {
      var i :| 0 <= i < |keys| && nodes[keys[i]].needsync;
      var k := keys[i];
      assert k in nodes && nodes[k].needsync;
      assert !(forall k | k in nodes :: !nodes[k].needsync);
    }
  }

  /** Both lists are empty exactly when no node is dirty. */
  lemma DirtyListsEmpty(nodes: Nodes)
    ensures var keys := SortedKeys(nodes.Keys);
            (|DirtyOfType(nodes, keys, Treenode)| == 0 && |DirtyOfType(nodes, keys, Connector)| == 0) <==>
            forall k | k in nodes :: !nodes[k].needsync
  {
    var keys := SortedKeys(nodes.Keys);
    DirtyOfTypeEmpty(nodes, keys, Treenode);
    DirtyOfTypeEmpty(nodes, keys, Connector);
    var none := forall i | 0 <= i < |keys| :: !nodes[keys[i]].needsync;
    NoneDirtyInKeys(nodes, keys);
    if !none {
      var i :| 0 <= i < |keys| && nodes[keys[i]].needsync;
      match nodes[keys[i]].ntype
      case Treenode =>
      case Connector =>
    }
  }

  /** The list holds exactly the positions of the dirty nodes of type ty. */
  ghost predicate ListsDirty(es: seq<Position>, nodes: Nodes, ty: NodeType)
  {
    forall e :: e in es <==>
      Dirty(nodes, e.id) && nodes[e.id].ntype == ty && e == Position(e.id, nodes[e.id].x, nodes[e.id].y, nodes[e.id].z)
  }

  lemma DirtyOfTypeLists(nodes: Nodes, ty: NodeType)
    ensures ListsDirty(DirtyOfType(nodes, SortedKeys(nodes.Keys), ty), nodes, ty)
  {
    var keys := SortedKeys(nodes.Keys);
    var es := DirtyOfType(nodes, keys, ty);
    forall e ensures e in es <==>
      Dirty(nodes, e.id) && nodes[e.id].ntype == ty && e == Position(e.id, nodes[e.id].x, nodes[e.id].y, nodes[e.id].z)
    {
      if Dirty(nodes, e.id) && nodes[e.id].ntype == ty && e == Position(e.id, nodes[e.id].x, nodes[e.id].y, nodes[e.id].z) {
        assert e.id in keys;
      }
    }
  }

  /** The cache with every dirty flag cleared. */
  function ClearedCache(nodes: Nodes): (r: Nodes)
    ensures r.Keys == nodes.Keys
    ensures forall k | k in nodes :: r[k] == nodes[k].(needsync := false)
  {
    map k | k in nodes :: nodes[k].(needsync := false)
  }

  function UpdateNodeCoordinates(nodes: Nodes, hasCallback: bool): (r: Flush)
    ensures r.nodes.Keys == nodes.Keys
    ensures forall k | k in nodes :: r.nodes[k] == nodes[k].(needsync := false)
    ensures r.request.None? <==> forall k | k in nodes :: !nodes[k].needsync
    ensures r.request.Some? ==>
              ListsDirty(r.request.value.treenodes, nodes, Treenode) &&
              ListsDirty(r.request.value.connectors, nodes, Connector)
    ensures r.immediate == (if r.request.None? && hasCallback then Some(0) else None)
  {
    var keys := SortedKeys(nodes.Keys);
    var update := NodeUpdate(DirtyOfType(nodes, keys, Treenode), DirtyOfType(nodes, keys, Connector));
    DirtyListsEmpty(nodes);
    DirtyOfTypeLists(nodes, Treenode);
    DirtyOfTypeLists(nodes, Connector);
    if |update.treenodes| > 0 || |update.connectors| > 0 then
      Flush(ClearedCache(nodes), Some(update), None)
    else
      Flush(ClearedCache(nodes), None, if hasCallback then Some(0) else None)
  }

  /** A second flush right after the first sends nothing. */
  lemma FlushTwice(nodes: Nodes, hasCallback: bool)
    ensures UpdateNodeCoordinates(UpdateNodeCoordinates(nodes, hasCallback).nodes, hasCallback).request.None?
  {
  }

  // ---------------------------------------------------------------------
  // Redraw: reuse the nodes or fetch them again
  // ---------------------------------------------------------------------

  /** The margin, in screen pixels, the view may move before nodes are
      fetched again. */
  const Pad: real := 256.0

  /** The stack state redraw reads: position, section and scale level now
      and at the last redraw, and the scale factor. */
  datatype StackState = StackState(x: real, y: real, z: int, s: int, oldZ: int, oldS: int, scale: real)

  /** The outcome of redraw: fetch nodes (handing the completion callback
      to the fetch), or keep them and call the callback at once. */
  datatype RedrawAction = FetchNodes | KeepNodes

  function RealAbs(a: real): real { if a < 0.0 then -a else a }

  function Redraw(st: StackState, oldX: real, oldY: real): (r: RedrawAction)
    requires st.scale > 0.0
    ensures r == KeepNodes <==>
            st.z == st.oldZ && st.s == st.oldS &&
            RealAbs(oldX - st.x) * st.scale < Pad && RealAbs(oldY - st.y) * st.scale < Pad
  {
    var sPad := Pad / st.scale;
    var keep :=
      st.oldZ == st.z && st.oldS == st.s &&
      (var dx := oldX - st.x; dx < sPad && dx > -sPad) &&
      (var dy := oldY - st.y; dy < sPad && dy > -sPad);
    if keep then KeepNodes else FetchNodes
  }

  /** A redraw at the position of the last fetch, on the same section and
      scale, never fetches. */
  lemma RedrawInPlace(st: StackState)
    requires st.scale > 0.0 && st.z == st.oldZ && st.s == st.oldS
    ensures Redraw(st, st.x, st.y) == KeepNodes
  {
  }

  // ---------------------------------------------------------------------
  // The click decision table (whenclicked)
  // ---------------------------------------------------------------------

  /** The tracing mode. The initial mode is neither value: the source sets
      it from an undefined property of its mode table. */
  datatype Mode = SkeletonMode | SynapseMode | NoMode

  datatype Modifiers = Modifiers(ctrl: bool, meta: bool, shift: bool, alt: bool)

  /** What a click asks for. Creating a treenode for a connector goes through
      the matching create function, whose own checks may still refuse. */
  datatype ClickAction =
    | NoAction
    | NoPermission
    | NeedActiveTreenode
    | ConnectorNotLoadedAlert(connector: int)
    | InsertIntoActiveSkeleton(treenode: int)
    | Deactivate
    | NewConnectorLinkedTo(treenode: int, rel: Relation)
    | NewTreenodeFor(connector: int, rel: Relation)
    | NewNode(parent: Option<int>)
    | NewLoneConnector

  datatype ClickResult = ClickResult(action: ClickAction, stopPropagation: bool)

  /** whenclicked(e): `unfocused` is true when the click only focuses the
      overlay, `ownView` whether the click targets this overlay's view,
      `mayEdit` the user's permission. */
  function WhenClicked(unfocused: bool, ownView: bool, mayEdit: bool, m: Modifiers,
                       atn: ActiveNode, mode: Mode, nodes: Nodes): (r: ClickResult)
    ensures unfocused ==> r == ClickResult(NoAction, true)
    ensures !unfocused && !ownView ==> r == ClickResult(NoAction, false)
    ensures !unfocused && ownView && !mayEdit ==> r == ClickResult(NoAction, true).(action := NoPermission)
    ensures (m.ctrl || m.meta) && r.action != NoAction && r.action != NoPermission ==>
              r.action == Deactivate || r.action.InsertIntoActiveSkeleton?
    ensures r.action.InsertIntoActiveSkeleton? ==>
              m.alt && (m.ctrl || m.meta) && atn.id == Some(r.action.treenode) && atn.ntype == Some(Treenode)
    ensures r.action.NewConnectorLinkedTo? ==>
              !m.ctrl && !m.meta && atn.id == Some(r.action.treenode) && atn.ntype == Some(Treenode) &&
              r.action.rel == (if !m.shift then GapJunction else if m.alt then Postsynaptic else Presynaptic)
    ensures r.action.NewTreenodeFor? ==> atn.id == Some(r.action.connector) && atn.ntype == Some(Connector)
    ensures r.action.NewNode? ==> !m.ctrl && !m.meta && !m.shift && !m.alt && mode == SkeletonMode &&
                                  r.action.parent == atn.id
    ensures r.action == NewLoneConnector ==> !m.ctrl && !m.meta && !m.shift && !m.alt && mode == SynapseMode
    ensures !r.stopPropagation ==> r.action == NoAction
  {
    if unfocused then ClickResult(NoAction, true)
    else if !ownView then ClickResult(NoAction, false)
    else if !mayEdit then ClickResult(NoPermission, true)
    else if m.ctrl || m.meta then
      if m.alt && atn.id.Some? && atn.ntype == Some(Treenode) then
        ClickResult(InsertIntoActiveSkeleton(atn.id.value), true)
      else
        ClickResult(Deactivate, true)
    else if m.shift || m.alt then
      if atn.id.None? then
        if mode == SkeletonMode then ClickResult(NeedActiveTreenode, true)
        else ClickResult(NoAction, true)
      else if atn.ntype == Some(Treenode) then
        if m.shift then
          ClickResult(NewConnectorLinkedTo(atn.id.value, if m.alt then Postsynaptic else Presynaptic), true)
        else
          ClickResult(NewConnectorLinkedTo(atn.id.value, GapJunction), true)
      else if atn.ntype == Some(Connector) then
        ClickResult(NewTreenodeFor(atn.id.value, if m.alt then GapJunction else Postsynaptic), true)
      else ClickResult(NoAction, true)
    else if mode == SkeletonMode then
      if atn.ntype == Some(Treenode) || atn.id.None? then
        ClickResult(NewNode(atn.id), true)
      else if atn.ntype == Some(Connector) then
        var cid := atn.id.value;
        if cid !in nodes then ClickResult(ConnectorNotLoadedAlert(cid), true)
        else if |nodes[cid].gj.Keys| == 0 then ClickResult(NewTreenodeFor(cid, Presynaptic), true)
        else ClickResult(NewTreenodeFor(cid, GapJunction), true)
      else ClickResult(NoAction, false)
    else if mode == SynapseMode then ClickResult(NewLoneConnector, true)
    else ClickResult(NoAction, true)
  }

  /** A plain click in skeleton mode with an active, loaded connector
      creates a presynaptic treenode when the connector has no gap junction
      and a gap-junction treenode otherwise; with an active treenode, or
      none, it creates a node whose parent is the active node. */
  lemma PlainSkeletonClick(atn: ActiveNode, nodes: Nodes)
    requires atn.id.Some? ==> atn.ntype.Some?
    ensures var r := WhenClicked(false, true, true, Modifiers(false, false, false, false), atn, SkeletonMode, nodes);
            r.stopPropagation &&
            (atn.ntype == Some(Connector) && atn.id.Some? && atn.id.value in nodes ==>
               r.action == NewTreenodeFor(atn.id.value, if nodes[atn.id.value].gj.Keys == {} then Presynaptic else GapJunction)) &&
            (atn.ntype != Some(Connector) ==> r.action == NewNode(atn.id))
  {
    var r := WhenClicked(false, true, true, Modifiers(false, false, false, false), atn, SkeletonMode, nodes);
    if atn.id.Some? && atn.ntype == Some(Connector) && atn.id.value in nodes {
      var g := nodes[atn.id.value].gj.Keys;
      assert |g| == 0 <==> g == {};
    } else if atn.id.Some? {
      match atn.ntype.value
      case Treenode =>
      case Connector =>
    }
  }

  // ---------------------------------------------------------------------
  // Deleting a node (deleteNode)
  // ---------------------------------------------------------------------

  /** The immediate outcome of deleteNode: refused, or a delete request for a
      treenode or a connector, with the active node cleared first when the
      node was active. */
  datatype DeleteStart = DeleteRefused | DeleteRequested(node: Node, wasActive: bool)

  function DeleteNode(nodes: Nodes, id: int, activeId: Option<int>, mayEdit: bool): (r: DeleteStart)
    ensures r == DeleteRefused <==> id !in nodes || !mayEdit || !nodes[id].canEdit
    ensures r.DeleteRequested? ==> r.node == nodes[id] && (r.wasActive <==> activeId == Some(id))
  {
    if id !in nodes then DeleteRefused
    else if !mayEdit || !nodes[id].canEdit then DeleteRefused
    else DeleteRequested(nodes[id], activeId == Some(id))
  }

  /** The selection made when the server confirms a delete. */
  datatype Selection = SelectNode(id: int) | SelectNone | KeepSelection

  function First(s: set<int>): int
    requires s != {}
  {
    SetMin(s)
  }

  /** The reply handler: for a deleted connector, its first presynaptic,
      else postsynaptic, else gap-junction treenode; for a deleted treenode
      that was active, the parent the server reports (when non-zero), else
      the first connector it was postsynaptic to, then presynaptic to, then
      had a gap junction with. `nodes` is the cache when the reply
      arrives. */
  function AfterDelete(nodes: Nodes, deleted: Node, wasActive: bool, replyParent: Option<int>): (r: Selection)
  {
    match deleted.ntype
    case Connector =>
      if deleted.pre.Keys != {} then SelectNode(First(deleted.pre.Keys))
      else if deleted.post.Keys != {} then SelectNode(First(deleted.post.Keys))
      else if deleted.gj.Keys != {} then SelectNode(First(deleted.gj.Keys))
      else SelectNone
    case Treenode =>
      if !wasActive then KeepSelection
      else if replyParent.Some? && replyParent.value != 0 then SelectNode(replyParent.value)
      else
        var pp := FindConnectors(nodes, deleted.id);
        if |pp.post| > 0 then SelectNode(pp.post[0])
        else if |pp.pre| > 0 then SelectNode(pp.pre[0])
        else if |pp.gj| > 0 then SelectNode(pp.gj[0])
        else SelectNone
  }

  /** The selection for an active treenode without a reported parent, by
      the lists of findConnectors. */
  lemma AfterDeleteByLists(nodes: Nodes, deleted: Node)
    requires deleted.ntype == Treenode
    ensures var pp := FindConnectors(nodes, deleted.id);
            AfterDelete(nodes, deleted, true, None) ==
              if |pp.post| > 0 then SelectNode(pp.post[0])
              else if |pp.pre| > 0 then SelectNode(pp.pre[0])
              else if |pp.gj| > 0 then SelectNode(pp.gj[0])
              else SelectNone
  {
  }

  /** The first element of an ascending list is its least. */
  lemma FirstIsLeast(s: seq<int>, c: int)
    requires Ascending(s) && c in s
    ensures s[0] <= c
  {
    var j :| 0 <= j < |s| && s[j] == c;
  }

  /** A connector t is postsynaptic to and not presynaptic to. */
  predicate PostOnly(nodes: Nodes, t: int, c: int)
  {
    IsConnector(nodes, c) && t in nodes[c].post && t !in nodes[c].pre
  }

  /** Nothing is selected exactly when t is linked to no loaded connector. */
  lemma AfterDeleteTreenodeNone(nodes: Nodes, deleted: Node)
    requires deleted.ntype == Treenode
    ensures var t := deleted.id;
            AfterDelete(nodes, deleted, true, None) == SelectNone <==>
              forall c | IsConnector(nodes, c) :: t !in nodes[c].pre && t !in nodes[c].post && t !in nodes[c].gj
  {
    var t := deleted.id;
    var pp := FindConnectors(nodes, t);
    AfterDeleteByLists(nodes, deleted);
    if |pp.post| > 0 {
      assert pp.post[0] in pp.post;
    } else if |pp.pre| > 0 {
      assert pp.pre[0] in pp.pre;
    } else if |pp.gj| > 0 {
      assert pp.gj[0] in pp.gj;
    } else {
      forall c | IsConnector(nodes, c)
        ensures t !in nodes[c].pre && t !in nodes[c].post && t !in nodes[c].gj
      {
        assert c !in pp.pre && c !in pp.post && c !in pp.gj;
      }
    }
  }

  /** The node selected is a loaded connector; when some connector has t
      only as postsynaptic partner, the least such one is selected. */
  lemma AfterDeleteTreenodePost(nodes: Nodes, deleted: Node)
    requires deleted.ntype == Treenode
    ensures var r := AfterDelete(nodes, deleted, true, None);
            var t := deleted.id;
            (r.SelectNode? ==> IsConnector(nodes, r.id)) &&
            (r.SelectNode? && PostOnly(nodes, t, r.id) ==>
               forall c | PostOnly(nodes, t, c) :: r.id <= c) &&
            ((exists c :: PostOnly(nodes, t, c)) ==> r.SelectNode? && PostOnly(nodes, t, r.id))
  {
    var t := deleted.id;
    var pp := FindConnectors(nodes, t);
    AfterDeleteByLists(nodes, deleted);
    if exists c :: PostOnly(nodes, t, c) {
      var c :| PostOnly(nodes, t, c);
      assert c in pp.post;
    }
    if |pp.post| > 0 {
      assert pp.post[0] in pp.post;
      forall c | PostOnly(nodes, t, c) ensures pp.post[0] <= c {
        FirstIsLeast(pp.post, c);
      }
    } else if |pp.pre| > 0 {
      assert pp.pre[0] in pp.pre;
    } else if |pp.gj| > 0 {
      assert pp.gj[0] in pp.gj;
    }
  }

  /** After deleting an active treenode without a parent, the selection is
      the least connector it was postsynaptic to (and not presynaptic to);
      failing that the least one it was presynaptic to; failing that the
      least one it shared a gap junction with; and nothing only when it was
      linked to no loaded connector. */
  lemma AfterDeleteTreenode(nodes: Nodes, deleted: Node)
    requires deleted.ntype == Treenode
    ensures var r := AfterDelete(nodes, deleted, true, None);
            var t := deleted.id;
            (r == SelectNone <==>
               forall c | IsConnector(nodes, c) :: t !in nodes[c].pre && t !in nodes[c].post && t !in nodes[c].gj) &&
            (r.SelectNode? ==> IsConnector(nodes, r.id)) &&
            (r.SelectNode? && t in nodes[r.id].post && t !in nodes[r.id].pre ==>
               forall c | IsConnector(nodes, c) && t in nodes[c].post && t !in nodes[c].pre :: r.id <= c) &&
            ((exists c | IsConnector(nodes, c) :: t in nodes[c].post && t !in nodes[c].pre) ==>
               r.SelectNode? && t in nodes[r.id].post && t !in nodes[r.id].pre)
  {
    AfterDeleteTreenodeNone(nodes, deleted);
    AfterDeleteTreenodePost(nodes, deleted);
    var r := AfterDelete(nodes, deleted, true, None);
    var t := deleted.id;
    if exists c | IsConnector(nodes, c) :: t in nodes[c].post && t !in nodes[c].pre {
      var c :| IsConnector(nodes, c) && t in nodes[c].post && t !in nodes[c].pre;
      assert PostOnly(nodes, t, c);
    }
    if r.SelectNode? && t in nodes[r.id].post && t !in nodes[r.id].pre {
      forall c | IsConnector(nodes, c) && t in nodes[c].post && t !in nodes[c].pre ensures r.id <= c {
        assert PostOnly(nodes, t, c);
      }
    }
  }

  /** After deleting a connector, the selection is the least treenode of
      the first of its pre, post and gap-junction groups that is
      non-empty, and nothing when all three are empty. */
  lemma AfterDeleteConnector(nodes: Nodes, deleted: Node, wasActive: bool, replyParent: Option<int>)
    requires deleted.ntype == Connector
    ensures var r := AfterDelete(nodes, deleted, wasActive, replyParent);
            (r == SelectNone <==> deleted.pre.Keys == {} && deleted.post.Keys == {} && deleted.gj.Keys == {}) &&
            (deleted.pre.Keys != {} ==> r.SelectNode? && r.id in deleted.pre &&
                                        forall t | t in deleted.pre :: r.id <= t) &&
            (deleted.pre.Keys == {} && deleted.post.Keys != {} ==>
               r.SelectNode? && r.id in deleted.post && forall t | t in deleted.post :: r.id <= t) &&
            (deleted.pre.Keys == {} && deleted.post.Keys == {} && deleted.gj.Keys != {} ==>
               r.SelectNode? && r.id in deleted.gj && forall t | t in deleted.gj :: r.id <= t)
  {
  }

  // ---------------------------------------------------------------------
  // Cycling through branches (cycleThroughBranches)
  // ---------------------------------------------------------------------

  /** A branch node as the server lists it: id and position. */
  datatype BranchNode = BranchNode(id: int, x: real, y: real, z: real)

  /** The index of the first branch holding the node, or -1. */
  function BranchIndex(branches: seq<seq<BranchNode>>, id: Option<int>): (r: int)
    ensures -1 <= r < |branches|
    ensures r >= 0 ==> id.Some? && exists n | n in branches[r] :: n.id == id.value
    ensures forall k | 0 <= k < |branches| && (r == -1 || k < r) ::
              !(id.Some? && exists n | n in branches[k] :: n.id == id.value)
    decreases |branches|
  {
    if branches == [] then -1
    else if id.Some? && exists n | n in branches[0] :: n.id == id.value then 0
    else
      var rest := BranchIndex(branches[1..], id);
      assert forall k | 1 <= k < |branches| :: branches[k] == branches[1..][k - 1];
      if rest == -1 then -1 else rest + 1
  }

  /** cycleThroughBranches(treenode_id, node_index): the node to move to and
      select, from the branch after the one holding treenode_id (the first
      branch when no branch holds it). Nothing happens without branches; an
      empty branch list or a missing node_index fails in the source, which
      is None here too. */
  function CycleThroughBranches(next: Option<seq<seq<BranchNode>>>, id: Option<int>, nodeIndex: int): (r: Option<BranchNode>)
    ensures r.Some? ==> (next.Some? && |next.value| > 0 &&
              var k := (BranchIndex(next.value, id) + 1) % |next.value|;
              0 <= nodeIndex < |next.value[k]| && r.value == next.value[k][nodeIndex])
    ensures r.None? <==> (next.None? || |next.value| == 0 ||
              !(0 <= nodeIndex < |next.value[(BranchIndex(next.value, id) + 1) % |next.value|]|))
  {
    match next
    case None => None
    case Some(branches) =>
      if |branches| == 0 then None
      else
        var current := (BranchIndex(branches, id) + 1) % |branches|;
        var branch := branches[current];
        if 0 <= nodeIndex < |branch| then Some(branch[nodeIndex]) else None
  }

  /** A node listed only once, first in branch k, is found in branch k. */
  lemma BranchIndexOf(branches: seq<seq<BranchNode>>, k: int, n: BranchNode)
    requires 0 <= k < |branches| && n in branches[k]
    requires forall j | 0 <= j < k :: n !in branches[j]
    requires forall j, m | 0 <= j < |branches| && m in branches[j] && m.id == n.id :: m == n
    ensures BranchIndex(branches, Some(n.id)) == k
  {
    var r := BranchIndex(branches, Some(n.id));
    assert r != -1 && r <= k by {
      assert exists m | m in branches[k] :: m.id == n.id;
    }
  }

  /** Cycling from a node of branch k moves to branch k + 1, wrapping to the
      first branch after the last; from a node on no branch it moves to the
      first branch. */
  lemma CycleMovesToNextBranch(branches: seq<seq<BranchNode>>, k: int, n: BranchNode, nodeIndex: int)
    requires 0 <= k < |branches| && n in branches[k]
    requires forall j | 0 <= j < k :: n !in branches[j]
    requires forall j, m | 0 <= j < |branches| && m in branches[j] && m.id == n.id :: m == n
    requires forall j | 0 <= j < |branches| :: 0 <= nodeIndex < |branches[j]|
    ensures CycleThroughBranches(Some(branches), Some(n.id), nodeIndex) ==
            Some(branches[if k + 1 == |branches| then 0 else k + 1][nodeIndex])
  {
    BranchIndexOf(branches, k, n);
    assert (k + 1) % |branches| == if k + 1 == |branches| then 0 else k + 1;
  }

  // ---------------------------------------------------------------------
  // Annotation sets of the split/merge dialog
  // ---------------------------------------------------------------------

  /** One annotation checkbox: the annotation, its annotator attribute and
      whether it is checked. */
  datatype Checkbox = Checkbox(annotation: string, annotator: string, checked: bool)

  /** get_annotation_set: checked annotations mapped to their parsed
      annotator id (None for NaN); a later checkbox wins on a repeated
      annotation. */
  function AnnotationSet(cbs: seq<Checkbox>): (r: map<string, Option<int>>)
    ensures forall a :: a in r <==> exists i | 0 <= i < |cbs| :: cbs[i].checked && cbs[i].annotation == a
    ensures forall i | 0 <= i < |cbs| && cbs[i].checked &&
              (forall j | i < j < |cbs| :: !(cbs[j].checked && cbs[j].annotation == cbs[i].annotation)) ::
              r[cbs[i].annotation] == Text.ParseIntPrefix(cbs[i].annotator)
    decreases |cbs|
  {
    if cbs == [] then map[]
    else
      var last := cbs[|cbs| - 1];
      var init := AnnotationSet(cbs[..|cbs| - 1]);
      assert forall i | 0 <= i < |cbs| - 1 :: cbs[..|cbs| - 1][i] == cbs[i];
      if last.checked then init[last.annotation := Text.ParseIntPrefix(last.annotator)] else init
  }

  /** get_combined_annotation_set: the over set, plus the under annotations
      it lacks. */
  function CombinedAnnotationSet(over: map<string, Option<int>>, under: map<string, Option<int>>): (r: map<string, Option<int>>)
    ensures r.Keys == over.Keys + under.Keys
    ensures forall a | a in over :: r[a] == over[a]
    ensures forall a | a in under && a !in over :: r[a] == under[a]
  {
    under + over
  }

  /** check_split_annotations: one part keeps every annotation. */
  function CheckSplitAnnotations(over: seq<Checkbox>, under: seq<Checkbox>): (r: bool)
    ensures r <==> (forall i | 0 <= i < |over| :: over[i].checked) ||
                   (forall i | 0 <= i < |under| :: under[i].checked)
  {
    AllChecked(over) || AllChecked(under)
  }

  function AllChecked(cbs: seq<Checkbox>): (r: bool)
    ensures r <==> forall i | 0 <= i < |cbs| :: cbs[i].checked
    decreases |cbs|
  {
    if cbs == [] then true
    else cbs[0].checked && (assert forall i | 1 <= i < |cbs| :: cbs[i] == cbs[1..][i - 1]; AllChecked(cbs[1..]))
  }

  /** When every over checkbox is checked, the split is allowed and the over
      set covers every annotation listed there. */
  lemma FullOverSetAllowsSplit(over: seq<Checkbox>, under: seq<Checkbox>)
    requires forall i | 0 <= i < |over| :: over[i].checked
    ensures CheckSplitAnnotations(over, under)
    ensures forall i | 0 <= i < |over| :: over[i].annotation in AnnotationSet(over)
  {
  }
}
