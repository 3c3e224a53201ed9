/** The Venn diagram widget, django/applications/catmaid/static/widgets/venn_diagram.js:
    groups of skeleton models, the sets and pairwise overlaps drawn from
    them, and the union of all models the widget offers to other widgets.
    Skeleton ids are the integer keys of the model maps; the dialog that
    asks for a group's name and colour is replaced by its answer. */
module Venn {
  import opened Common
  import opened Text

  /** The part of a skeleton model the widget looks at; the colour and
      other display settings travel along unread. */
  datatype SkeletonModel = SkeletonModel(selected: bool, color: string)

  datatype Group = Group(models: map<int, SkeletonModel>, name: string, color: string)

  datatype VennState = VennState(groups: seq<Group>, selected: map<int, SkeletonModel>)

  /** A set of the diagram: the group's label and its number of skeletons. */
  datatype VennSet = VennSet(caption: string, size: nat)

  /** The overlap of groups a < b: how many skeletons they share. */
  datatype Overlap = Overlap(a: nat, b: nat, size: nat)

  // ---------------------------------------------------------------------
  // clear and getSkeletonModels

  /** clear: no groups and no selection. */
  function Clear(st: VennState): (r: VennState)
    ensures |r.groups| == 0 && |r.selected| == 0
  {
    VennState([], map[])
  }

  /** getSkeletonModels: the models of all groups, merged in group order so
      that a later group's model replaces an earlier one with the same id. */
  function SkeletonModels(groups: seq<Group>): (m: map<int, SkeletonModel>)
    ensures forall skid :: skid in m ==> exists i :: 0 <= i < |groups| && skid in groups[i].models
  {
    if |groups| == 0 then map[]
    else SkeletonModels(groups[..|groups| - 1]) + groups[|groups| - 1].models
  }

  /** The index of the last group holding a skeleton, -1 if none does. */
  function LastHolder(groups: seq<Group>, skid: int): (i: int)
    ensures -1 <= i < |groups|
    ensures i >= 0 ==> skid in groups[i].models
    ensures forall j :: i < j < |groups| ==> skid !in groups[j].models
  {
    if |groups| == 0 then -1
    else if skid in groups[|groups| - 1].models then |groups| - 1
    else LastHolder(groups[..|groups| - 1], skid)
  }

  /** A skeleton is offered exactly when some group holds it, with the model
      of the last group that does. */
  lemma {:induction false} SkeletonModelsLastWins(groups: seq<Group>, skid: int)
    ensures skid in SkeletonModels(groups) <==> LastHolder(groups, skid) >= 0
    ensures skid in SkeletonModels(groups) ==>
              SkeletonModels(groups)[skid] == groups[LastHolder(groups, skid)].models[skid]
  {
    if |groups| > 0 {
      var init := groups[..|groups| - 1];
      SkeletonModelsLastWins(init, skid);
      if skid !in groups[|groups| - 1].models && LastHolder(init, skid) >= 0 {
        assert groups[LastHolder(init, skid)] == init[LastHolder(init, skid)];
      }
    }
  }

  /** After clear the widget offers no skeletons. */
  lemma ClearOffersNothing(st: VennState)
    ensures SkeletonModels(Clear(st).groups) == map[]
  {
  }

  // ---------------------------------------------------------------------
  // append

  /** The selected models only. */
  function Visible(models: map<int, SkeletonModel>): (v: map<int, SkeletonModel>)
    ensures forall skid :: skid in v <==> skid in models && models[skid].selected
    ensures forall skid :: skid in v ==> v[skid] == models[skid]
  {
    map skid | skid in models && models[skid].selected :: models[skid]
  }

  datatype AppendOutcome =
    | NothingSelected            // no dialog is shown
    | NameMissing                // the dialog's "Must provide a group name!"
    | Appended

  /** append, with the dialog's answer as parameters: nothing happens
      unless some model is selected; an empty name is refused; any other
      name is trimmed (a name of blanks thus becomes the empty name) and a
      group of the selected models is added at the end. */
  function Append(st: VennState, models: map<int, SkeletonModel>, name: string, color: string): (r: (VennState, AppendOutcome))
    ensures r.1 == NothingSelected <==> |Visible(models)| == 0
    ensures r.1 == NameMissing <==> |Visible(models)| > 0 && |name| == 0
    ensures r.1 != Appended ==> r.0 == st
    ensures r.1 == Appended ==>
              && r.0.selected == st.selected
              && |r.0.groups| == |st.groups| + 1
              && r.0.groups[..|st.groups|] == st.groups
              && r.0.groups[|st.groups|] == Group(Visible(models), Trim(name), color)
  {
    var visible := Visible(models);
    if |visible| == 0 then (st, NothingSelected)
    else if |name| == 0 then (st, NameMissing)
    else (st.(groups := st.groups + [Group(visible, Trim(name), color)]), Appended)
  }

  /** A name made only of blanks is accepted and becomes the empty name. */
  lemma BlankNameAccepted(st: VennState, models: map<int, SkeletonModel>, color: string)
    requires |Visible(models)| > 0
    ensures Append(st, models, " ", color).1 == Appended
    ensures Append(st, models, " ", color).0.groups[|st.groups|].name == ""
  {
    assert SkipSpaces(" ") == "";
  }

  /** After an append the widget offers what it offered before together
      with the selected models just added, the new ones winning. */
  lemma AppendOffers(st: VennState, models: map<int, SkeletonModel>, name: string, color: string)
    requires Append(st, models, name, color).1 == Appended
    ensures SkeletonModels(Append(st, models, name, color).0.groups) == SkeletonModels(st.groups) + Visible(models)
  {
    var gs := Append(st, models, name, color).0.groups;
    assert gs[..|gs| - 1] == st.groups;
  }

  // ---------------------------------------------------------------------
  // redraw

  function KeyCount(g: Group): nat
  {
    |g.models.Keys|
  }

  /** The label of a group's set: its name and its size in parentheses. */
  function SetLabel(name: string, size: nat): string
  {
    name + " (" + IntToString(size) + ")"
  }

  /** One set per group, in group order. */
  function Sets(groups: seq<Group>): (sets: seq<VennSet>)
    ensures |sets| == |groups|
    ensures forall i :: 0 <= i < |groups| ==> sets[i].size == |groups[i].models|
  {
    seq(|groups|, i requires 0 <= i < |groups| => VennSet(SetLabel(groups[i].name, KeyCount(groups[i])), KeyCount(groups[i])))
  }

  /** A set's label starts with the group's name, and the number after
      " (" reads back as the set's size. */
  lemma SetLabelReadsBack(groups: seq<Group>, i: int)
    requires 0 <= i < |groups|
    ensures var l := Sets(groups)[i].caption;
            var n := groups[i].name;
            && |l| > |n| + 2
            && l[..|n|] == n
            && l[|n|..|n| + 2] == " ("
            && IntVal(l[|n| + 2..]) == |groups[i].models|
  {
    var n := groups[i].name;
    var d := IntToString(KeyCount(groups[i]));
    var l := SetLabel(n, KeyCount(groups[i]));
    assert l == n + (" (" + (d + ")"));
    assert l[|n| + 2..] == d + ")";
    IntToStringParses(KeyCount(groups[i]), ")");
  }

  /** The number of skeletons two groups share. */
  function Shared(groups: seq<Group>, a: nat, b: nat): nat
    requires a < |groups| && b < |groups|
  {
    |groups[a].models.Keys * groups[b].models.Keys|
  }

  /** The number of pairs (a, b) with a < b < n and a < k. */
  function PairsBefore(k: nat, n: nat): nat
    requires k <= n
  {
    if k == 0 then 0 else PairsBefore(k - 1, n) + (n - k)
  }

  lemma {:induction false} AllPairs(k: nat, n: nat)
    requires k <= n
    ensures 2 * PairsBefore(k, n) == k * (2 * n - k - 1)
  {
    if k > 0 {
      AllPairs(k - 1, n);
    }
  }

  /** Lexicographic order of the pairs of two overlaps. */
  predicate PairBefore(x: Overlap, y: Overlap)
  {
    x.a < y.a || (x.a == y.a && x.b < y.b)
  }

  /** Overlap i is the shared count of a valid pair. */
  predicate Counted(groups: seq<Group>, o: Overlap)
  {
    o.a < o.b < |groups| && o.size == Shared(groups, o.a, o.b)
  }

  /** Some overlap of the list is for the pair (a, b). */
  predicate Listed(ov: seq<Overlap>, a: nat, b: nat)
  {
    exists i :: 0 <= i < |ov| && ov[i].a == a && ov[i].b == b
  }

  /** Adjacent overlaps are in ascending pair order, so no pair repeats. */
  predicate InPairOrder(ov: seq<Overlap>)
  {
    forall i :: 0 < i < |ov| ==> PairBefore(ov[i - 1], ov[i])
  }

  /** Every overlap is a counted pair whose first group is below k. */
  predicate CountedBelow(groups: seq<Group>, ov: seq<Overlap>, k: nat)
  {
    forall i :: 0 <= i < |ov| ==> Counted(groups, ov[i]) && ov[i].a < k
  }

  /** Every pair whose first group is below k is listed. */
  predicate ListsBelow(ov: seq<Overlap>, k: nat, n: nat)
  {
    forall a: nat, b: nat :: a < k && a < b < n ==> Listed(ov, a, b)
  }

  /** The overlaps of redraw: for k ascending and j from k + 1 up, the pair
      (k, j) and the number of skeletons of group k also in group j, zero
      included. */
  method Overlaps(groups: seq<Group>) returns (ov: seq<Overlap>)
    ensures 2 * |ov| == |groups| * (|groups| - 1)
    ensures forall i :: 0 <= i < |ov| ==> Counted(groups, ov[i])
    ensures forall i :: 0 < i < |ov| ==> PairBefore(ov[i - 1], ov[i])
    ensures forall a: nat, b: nat :: a < b < |groups| ==> Listed(ov, a, b)
  {
    var n := |groups|;
    ov := [];
    var k := 0;
    while k < n
      invariant 0 <= k <= n
      invariant |ov| == PairsBefore(k, n)
      invariant CountedBelow(groups, ov, k)
      invariant InPairOrder(ov)
      invariant ListsBelow(ov, k, n)
    {
      ov := OverlapsOf(groups, ov, k);
      k := k + 1;
    }
    AllPairs(n, n);
    assert CountedBelow(groups, ov, n) && ListsBelow(ov, n, n);
  }

  /** The inner loop of redraw for group k: the overlaps of (k, j) for
      every later group j, pushed in order of j. */
  method OverlapsOf(groups: seq<Group>, before: seq<Overlap>, k: nat) returns (ov: seq<Overlap>)
    requires k < |groups|
    requires CountedBelow(groups, before, k) && InPairOrder(before) && ListsBelow(before, k, |groups|)
    ensures |ov| == |before| + (|groups| - k - 1)
    ensures CountedBelow(groups, ov, k + 1) && InPairOrder(ov) && ListsBelow(ov, k + 1, |groups|)
  {
    var n := |groups|;
    ov := before;
    var j := k + 1;
    while j < n
      invariant k + 1 <= j <= n
      invariant |ov| == |before| + (j - k - 1)
      invariant CountedBelow(groups, ov, k + 1) && InPairOrder(ov) && ListsBelow(ov, k, n)
      invariant forall i :: |before| <= i < |ov| ==> ov[i].a == k && ov[i].b < j
      invariant forall i :: 0 <= i < |before| ==> ov[i].a < k
      invariant forall b: nat :: k < b < j ==> Listed(ov, k, b)
    {
      ov := AddOverlap(groups, ov, k, j, |before|);
      j := j + 1;
    }
  }

  /** One step of the inner loop: the overlap of (k, j) is pushed. */
  method AddOverlap(groups: seq<Group>, ov: seq<Overlap>, k: nat, j: nat, start: nat) returns (r: seq<Overlap>)
    requires k < j < |groups| && start <= |ov|
    requires forall i :: start <= i < |ov| ==> ov[i].a == k && ov[i].b < j
    requires forall i :: 0 <= i < start ==> ov[i].a < k
    requires InPairOrder(ov)
    ensures r == ov + [Overlap(k, j, Shared(groups, k, j))]
    ensures InPairOrder(r)
    ensures Listed(r, k, j)
    ensures forall a: nat, b: nat :: Listed(ov, a, b) ==> Listed(r, a, b)
  {
    r := ov + [Overlap(k, j, Shared(groups, k, j))];
    assert r[|ov|].a == k && r[|ov|].b == j;
    forall a: nat, b: nat | Listed(ov, a, b) ensures Listed(r, a, b) {
      var i :| 0 <= i < |ov| && ov[i].a == a && ov[i].b == b;
      assert r[i] == ov[i];
    }
  }

  /** Two groups share no more skeletons than either set counts. */
  lemma OverlapWithinSets(groups: seq<Group>, o: Overlap)
    requires Counted(groups, o)
    ensures o.size <= Sets(groups)[o.a].size && o.size <= Sets(groups)[o.b].size
  {
    var ka := groups[o.a].models.Keys;
    var kb := groups[o.b].models.Keys;
    assert ka * kb <= ka && ka * kb <= kb;
    SubsetCard(ka * kb, ka);
    SubsetCard(ka * kb, kb);
  }

  lemma SubsetCard(s: set<int>, t: set<int>)
    requires s <= t
    ensures |s| <= |t|
  {
    assert t == s + (t - s);
  }
}
