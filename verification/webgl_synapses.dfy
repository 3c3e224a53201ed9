/** The synapse bookkeeping of the 3D viewer's skeletons,
    django/applications/catmaid/static/js/webglapp.js: per-node synapse
    counts, the connector-to-treenode map, and the filter that keeps only
    connectors shared by several visible skeletons. A skeleton's synaptic
    geometry is reduced to the node ids of its vertices, which come in
    pairs: the connector first, then the treenode. */
module WebGLSynapses {
  import opened Common

  /** Skeleton.prototype.synapticTypes, in order. */
  const SynapticTypes: seq<string> := ["presynaptic_to", "postsynaptic_to", "gapjunction_with"]

  /** The node ids of the vertices of each geometry type. */
  type SynapticGeometry = map<string, seq<int>>

  /** Every synaptic type has a geometry of whole vertex pairs. */
  predicate WellFormed(g: SynapticGeometry)
  {
    forall k :: 0 <= k < |SynapticTypes| ==> SynapticTypes[k] in g && |g[SynapticTypes[k]]| % 2 == 0
  }

  /** The (connector, treenode) pairs of a vertex list. */
  function Pairs(vs: seq<int>): (ps: seq<(int, int)>)
    requires |vs| % 2 == 0
    ensures |ps| == |vs| / 2
    ensures forall i :: 0 <= i < |ps| ==> ps[i] == (vs[2 * i], vs[2 * i + 1])
  {
    seq(|vs| / 2, i requires 0 <= i < |vs| / 2 => (vs[2 * i], vs[2 * i + 1]))
  }

  /** The pairs of all synaptic types, type after type: the order in which
      the reductions over synapticTypes visit them, threading one map. */
  function TypePairs(g: SynapticGeometry): seq<(int, int)>
    requires WellFormed(g)
  {
    Pairs(g[SynapticTypes[0]]) + Pairs(g[SynapticTypes[1]]) + Pairs(g[SynapticTypes[2]])
  }

  function Treenodes(ps: seq<(int, int)>): (ts: seq<int>)
    ensures |ts| == |ps| && forall i :: 0 <= i < |ps| ==> ts[i] == ps[i].1
  {
    seq(|ps|, i requires 0 <= i < |ps| => ps[i].1)
  }

  // ---------------------------------------------------------------------
  // Counting

  /** How often x occurs in s. */
  function Count(s: seq<int>, x: int): nat
  {
    if |s| == 0 then 0 else (if s[0] == x then 1 else 0) + Count(s[1..], x)
  }

  function Get(m: map<int, nat>, x: int): nat
  {
    if x in m then m[x] else 0
  }

  /** The counting loop: an id seen before has its count raised by one,
      a new id starts at 1. */
  function Tally(m: map<int, nat>, ids: seq<int>): map<int, nat>
    decreases |ids|
  {
    if |ids| == 0 then m
    else
      var id := ids[0];
      var count := if id in m then m[id] else 0;
      Tally(m[id := if count > 0 then count + 1 else 1], ids[1..])
  }

  /** After counting, an id is a key exactly when it was one or occurs in
      the list, and its count grew by its number of occurrences. */
  lemma {:induction false} TallyCounts(m: map<int, nat>, ids: seq<int>, x: int)
    requires forall y :: y in m ==> m[y] > 0
    ensures x in Tally(m, ids) <==> x in m || x in ids
    ensures Get(Tally(m, ids), x) == Get(m, x) + Count(ids, x)
    decreases |ids|
  {
    if |ids| > 0 {
      var id := ids[0];
      var count := if id in m then m[id] else 0;
      var m' := m[id := if count > 0 then count + 1 else 1];
      TallyCounts(m', ids[1..], x);
      assert x in ids <==> x == id || x in ids[1..] by {
        assert ids == [id] + ids[1..];
      }
    }
  }

  /** createSynapseCounts: treenode id to its number of synapses of any
      synaptic type. */
  function SynapseCounts(g: SynapticGeometry): map<int, nat>
    requires WellFormed(g)
  {
    Tally(map[], Treenodes(TypePairs(g)))
  }

  /** A treenode's count is the number of synaptic pairs that end at it,
      and only treenodes of some pair are counted. */
  lemma SynapseCountsCount(g: SynapticGeometry, t: int)
    requires WellFormed(g)
    ensures t in SynapseCounts(g) <==> exists i :: 0 <= i < |TypePairs(g)| && TypePairs(g)[i].1 == t
    ensures Get(SynapseCounts(g), t) == Count(Treenodes(TypePairs(g)), t)
  {
    var ts := Treenodes(TypePairs(g));
    TallyCounts(map[], ts, t);
    if t in ts {
      var i :| 0 <= i < |ts| && ts[i] == t;
      assert TypePairs(g)[i].1 == t;
    }
  }

  /** The per-type counts of createPrePostCounts: for each synaptic type the
      map treenode id to count, and under the type's name followed by
      "_count" the number of its vertex pairs. */
  datatype PrePost = PrePost(perNode: map<string, map<int, nat>>, totals: map<string, nat>)

  /** The treenode counts of one synaptic type. */
  function TypeCounts(vs: seq<int>): (m: map<int, nat>)
    requires |vs| % 2 == 0
    ensures forall t :: Get(m, t) == Count(Treenodes(Pairs(vs)), t)
  {
    var m := Tally(map[], Treenodes(Pairs(vs)));
    assert forall t :: Get(m, t) == Count(Treenodes(Pairs(vs)), t) by {
      forall t ensures Get(m, t) == Count(Treenodes(Pairs(vs)), t) {
        TallyCounts(map[], Treenodes(Pairs(vs)), t);
      }
    }
    m
  }

  /** The entries of a synaptic type t: its per-node counts and, under
      t + "_count", its number of vertex pairs. */
  ghost predicate CountedType(r: PrePost, g: SynapticGeometry, t: string)
    requires t in g && |g[t]| % 2 == 0
  {
    && t in r.perNode && t + "_count" in r.totals
    && r.totals[t + "_count"] == |Pairs(g[t])|
    && forall x :: Get(r.perNode[t], x) == Count(Treenodes(Pairs(g[t])), x)
  }

  function PrePostCounts(g: SynapticGeometry): (r: PrePost)
    requires WellFormed(g)
    ensures forall k :: 0 <= k < |SynapticTypes| ==> CountedType(r, g, SynapticTypes[k])
  {
    var t0, t1, t2 := SynapticTypes[0], SynapticTypes[1], SynapticTypes[2];
    assert WellFormed(g) ==> t0 in g && t1 in g && t2 in g by {
      assert 0 < |SynapticTypes| && 1 < |SynapticTypes| && 2 < |SynapticTypes|;
    }
    var r := PrePost(
      map[t0 := TypeCounts(g[t0]), t1 := TypeCounts(g[t1]), t2 := TypeCounts(g[t2])],
      map[t0 + "_count" := |g[t0]| / 2, t1 + "_count" := |g[t1]| / 2, t2 + "_count" := |g[t2]| / 2]);
    assert CountedType(r, g, t0) && CountedType(r, g, t1) && CountedType(r, g, t2);
    r
  }

  lemma {:induction false} CountAppend(a: seq<int>, b: seq<int>, x: int)
    ensures Count(a + b, x) == Count(a, x) + Count(b, x)
  {
    if |a| > 0 {
      CountAppend(a[1..], b, x);
      assert (a + b)[0] == a[0] && (a + b)[1..] == a[1..] + b;
    } else {
      assert a + b == b;
    }
  }

  /** The all-type count of a treenode is the sum of its per-type counts. */
  lemma CountsAddUp(g: SynapticGeometry, t: int)
    requires WellFormed(g)
    ensures Get(SynapseCounts(g), t)
            == Get(PrePostCounts(g).perNode[SynapticTypes[0]], t)
             + Get(PrePostCounts(g).perNode[SynapticTypes[1]], t)
             + Get(PrePostCounts(g).perNode[SynapticTypes[2]], t)
  {
    var p0, p1, p2 := Pairs(g[SynapticTypes[0]]), Pairs(g[SynapticTypes[1]]), Pairs(g[SynapticTypes[2]]);
    SynapseCountsCount(g, t);
    assert Treenodes(p0 + p1 + p2) == Treenodes(p0) + Treenodes(p1) + Treenodes(p2);
    CountAppend(Treenodes(p0) + Treenodes(p1), Treenodes(p2), t);
    CountAppend(Treenodes(p0), Treenodes(p1), t);
  }

  // ---------------------------------------------------------------------
  // createInverseSynapseMap

  /** One step as written: a connector seen before gets its own id
      appended, a new connector starts with its treenode. */
  function InvertAsWritten(o: map<int, seq<int>>, ps: seq<(int, int)>): map<int, seq<int>>
    decreases |ps|
  {
    if |ps| == 0 then o
    else
      var (c, t) := ps[0];
      InvertAsWritten(if c in o then o[c := o[c] + [c]] else o[c := [t]], ps[1..])
  }

  /** createInverseSynapseMap as written. */
  function InverseSynapseMapAsWritten(g: SynapticGeometry): map<int, seq<int>>
    requires WellFormed(g)
  {
    InvertAsWritten(map[], TypePairs(g))
  }

  /** A connector at two synapses of the same skeleton lists its own id as
      the second treenode. */
  lemma InverseListsConnector()
    ensures var g := map["presynaptic_to" := [5, 7, 5, 8], "postsynaptic_to" := [], "gapjunction_with" := []];
            && WellFormed(g)
            && InverseSynapseMapAsWritten(g)[5] == [7, 5]
            && InverseSynapseMap(g)[5] == [7, 8]
  {
    var g := map["presynaptic_to" := [5, 7, 5, 8], "postsynaptic_to" := [], "gapjunction_with" := []];
    assert SynapticTypes[0] == "presynaptic_to" && SynapticTypes[1] == "postsynaptic_to"
           && SynapticTypes[2] == "gapjunction_with";
    var ps: seq<(int, int)> := [(5, 7), (5, 8)];
    assert Pairs(g[SynapticTypes[0]]) == ps;
    assert TypePairs(g) == ps;
    assert |ps[1..][1..]| == 0;
    assert InvertAsWritten(map[], ps) == InvertAsWritten(map[5 := [7]], [(5, 8)]);
    assert Invert(map[], ps) == Invert(map[5 := [7]], [(5, 8)]);
  }

  /** The map the function is meant to build: every treenode paired with
      the connector, in pair order. */
  function Invert(o: map<int, seq<int>>, ps: seq<(int, int)>): map<int, seq<int>>
    decreases |ps|
  {
    if |ps| == 0 then o
    else
      var (c, t) := ps[0];
      Invert(if c in o then o[c := o[c] + [t]] else o[c := [t]], ps[1..])
  }

  function InverseSynapseMap(g: SynapticGeometry): map<int, seq<int>>
    requires WellFormed(g)
  {
    Invert(map[], TypePairs(g))
  }

  /** The treenodes paired with connector c, in order. */
  function PairedWith(ps: seq<(int, int)>, c: int): seq<int>
  {
    if |ps| == 0 then []
    else (if ps[0].0 == c then [ps[0].1] else []) + PairedWith(ps[1..], c)
  }

  function Lookup(o: map<int, seq<int>>, c: int): seq<int>
  {
    if c in o then o[c] else []
  }

  lemma {:induction false} InvertCollects(o: map<int, seq<int>>, ps: seq<(int, int)>, c: int)
    requires forall d :: d in o ==> |o[d]| > 0
    ensures c in Invert(o, ps) <==> c in o || exists i :: 0 <= i < |ps| && ps[i].0 == c
    ensures Lookup(Invert(o, ps), c) == Lookup(o, c) + PairedWith(ps, c)
    decreases |ps|
  {
    if |ps| > 0 {
      var (d, t) := ps[0];
      var o' := if d in o then o[d := o[d] + [t]] else o[d := [t]];
      InvertCollects(o', ps[1..], c);
      if d == c {
        assert Lookup(o', c) == Lookup(o, c) + [t];
        assert PairedWith(ps, c) == [t] + PairedWith(ps[1..], c);
        assert Lookup(o, c) + [t] + PairedWith(ps[1..], c) == Lookup(o, c) + ([t] + PairedWith(ps[1..], c));
      } else {
        assert Lookup(o', c) == Lookup(o, c);
        assert PairedWith(ps, c) == PairedWith(ps[1..], c);
      }
      if exists i :: 0 <= i < |ps[1..]| && ps[1..][i].0 == c {
        var i :| 0 <= i < |ps[1..]| && ps[1..][i].0 == c;
        assert ps[i + 1].0 == c;
      }
      if exists i :: 0 <= i < |ps| && ps[i].0 == c {
        var i :| 0 <= i < |ps| && ps[i].0 == c;
        if i > 0 { assert ps[1..][i - 1].0 == c; }
      }
    }
  }

  /** Each connector of a synapse maps to all treenodes it is paired with,
      in pair order, and no other id is a key. */
  lemma InverseSynapseMapCollects(g: SynapticGeometry, c: int)
    requires WellFormed(g)
    ensures c in InverseSynapseMap(g) <==> exists i :: 0 <= i < |TypePairs(g)| && TypePairs(g)[i].0 == c
    ensures Lookup(InverseSynapseMap(g), c) == PairedWith(TypePairs(g), c)
  {
    InvertCollects(map[], TypePairs(g), c);
  }

  // ---------------------------------------------------------------------
  // refreshRestrictedConnectors

  datatype SkeletonView = SkeletonView(visible: bool, geometry: SynapticGeometry)

  /** The skeletons of the space, each with well-formed synaptic geometry. */
  predicate Loaded(skels: map<int, SkeletonView>)
  {
    forall s :: s in skels ==> WellFormed(skels[s].geometry)
  }

  /** The connectors a skeleton has a synapse with. */
  function ConnectorsOf(g: SynapticGeometry): set<int>
    requires WellFormed(g)
  {
    Conn(TypePairs(g))
  }
  /** Skeleton s has a synapse with connector c. */
  predicate HasSynapse(skels: map<int, SkeletonView>, s: int, c: int)
    requires Loaded(skels)
  {
    s in skels && c in ConnectorsOf(skels[s].geometry)
  }

  /** The visible skeletons that have a synapse with connector c. */
  function Holders(skels: map<int, SkeletonView>, c: int): set<int>
    requires Loaded(skels)
  {
    set s | s in skels && skels[s].visible && HasSynapse(skels, s, c)
  }

  /** The connectors of a list of pairs. */
  function Conn(ps: seq<(int, int)>): set<int>
  {
    set i | 0 <= i < |ps| :: ps[i].0
  }

  /** The counting reduce for one skeleton: each connector of its pairs
      records the skeleton. */
  function AddHolder(counts: map<int, set<int>>, ps: seq<(int, int)>, s: int): (r: map<int, set<int>>)
    ensures r.Keys == counts.Keys + Conn(ps)
    ensures forall c :: c in r ==>
              r[c] == (if c in counts then counts[c] else {}) + (if c in Conn(ps) then {s} else {})
  {
    map c | c in counts.Keys + Conn(ps) ::
      (if c in counts then counts[c] else {}) + (if c in Conn(ps) then {s} else {})
  }

  /** The reduce over the visible skeletons, in key order. */
  function HolderCounts(skels: map<int, SkeletonView>, ids: seq<int>): (counts: map<int, set<int>>)
    requires Loaded(skels)
    requires forall i :: 0 <= i < |ids| ==> ids[i] in skels
  {
    if |ids| == 0 then map[]
    else
      var last := ids[|ids| - 1];
      AddHolder(HolderCounts(skels, ids[..|ids| - 1]), TypePairs(skels[last].geometry), last)
  }

  /** The skeletons recorded for connector c. */
  function HolderSet(counts: map<int, set<int>>, c: int): set<int>
  {
    if c in counts then counts[c] else {}
  }

  /** A skeleton is recorded for a connector exactly when it is listed and
      has a synapse with it. */
  lemma {:induction false} HolderCountsMember(skels: map<int, SkeletonView>, ids: seq<int>, c: int, s: int)
    requires Loaded(skels)
    requires forall i :: 0 <= i < |ids| ==> ids[i] in skels
    ensures s in HolderSet(HolderCounts(skels, ids), c) <==> s in ids && HasSynapse(skels, s, c)
  {
    if |ids| > 0 {
      var init := ids[..|ids| - 1];
      var last := ids[|ids| - 1];
      HolderCountsMember(skels, init, c, s);
      var prev := HolderCounts(skels, init);
      var ps := TypePairs(skels[last].geometry);
      assert HolderSet(HolderCounts(skels, ids), c) == HolderSet(prev, c) + (if c in Conn(ps) then {last} else {});
      assert s in ids <==> s in init || s == last by {
        assert ids == init + [last];
      }
    }
  }

  /** The outcome of refreshRestrictedConnectors when the filter is on:
      every skeleton's connector selection is removed, and each visible
      skeleton gets a selection of the common connectors. */
  datatype Restriction = Restriction(cleared: set<int>, common: set<int>, selected: set<int>)

  function VisibleIds(skels: map<int, SkeletonView>): set<int>
  {
    set s | s in skels && skels[s].visible
  }

  /** refreshRestrictedConnectors: nothing when the connector filter is off;
      otherwise the common connectors are those with synapses on more than
      one visible skeleton. */
  function RestrictedConnectors(filterOn: bool, skels: map<int, SkeletonView>): (r: Option<Restriction>)
    requires Loaded(skels)
    ensures r.Some? <==> filterOn
    ensures r.Some? ==> r.value.cleared == skels.Keys && r.value.selected == VisibleIds(skels)
  {
    if !filterOn then None
    else
      var ids := SortedKeys(VisibleIds(skels));
      assert forall i :: 0 <= i < |ids| ==> ids[i] in VisibleIds(skels);
      var counts := HolderCounts(skels, ids);
      var common := set c | c in counts && |counts[c]| > 1;
      Some(Restriction(skels.Keys, common, VisibleIds(skels)))
  }

  /** A connector is common exactly when at least two visible skeletons
      have a synapse with it. */
  lemma CommonConnectors(skels: map<int, SkeletonView>, c: int)
    requires Loaded(skels)
    ensures c in RestrictedConnectors(true, skels).value.common <==> |Holders(skels, c)| >= 2
  {
    var ids := SortedKeys(VisibleIds(skels));
    assert forall i :: 0 <= i < |ids| ==> ids[i] in VisibleIds(skels);
    var counts := HolderCounts(skels, ids);
    forall s ensures s in HolderSet(counts, c) <==> s in Holders(skels, c) {
      HolderCountsMember(skels, ids, c, s);
      assert s in ids <==> s in VisibleIds(skels);
    }
    assert HolderSet(counts, c) == Holders(skels, c);
  }
}
