/** Navigation state of an image stack: the scale level and the pixel
    position are clamped to the stack, the section search skips broken
    planes, the list of valid slices and the number of scale levels are
    derived from the stack's dimensions, and the scale bar picks a length
    and a unit. Project coordinates and resolutions are exact reals. */
module Stack {
  import opened Common

  /** The immutable description of a stack: pixel dimensions, physical
      resolution and translation per dimension, and the skipped planes. */
  datatype StackInfo = StackInfo(dimension: seq<int>, resolution: seq<real>, translation: seq<real>, skipPlanes: set<int>)
  {
    /** At least x, y and z, each at least one pixel, with a positive
        resolution per dimension. */
    predicate Valid() {
      |dimension| >= 3 && |resolution| == |dimension| && |translation| == |dimension|
      && (forall i :: 0 <= i < |dimension| ==> dimension[i] >= 1)
      && (forall i :: 0 <= i < |resolution| ==> resolution[i] > 0.0)
    }

    /** max[i] = dimension[i] - 1 */
    function MaxIndex(i: nat): int
      requires i < |dimension|
    {
      dimension[i] - 1
    }
  }

  // ----- Scale levels -----

  const TileSize := 256

  /** The least level count k >= `from` with TileSize * 2^k >= dimY. */
  function LevelsFrom(dimY: int, from: nat): (k: nat)
    requires from >= 1
    ensures k >= from
    ensures TileSize * Pow2(k) >= dimY
    ensures k == from || TileSize * Pow2(k - 1) < dimY
    decreases Max(0, dimY - TileSize * Pow2(from))
  {
    if TileSize * Pow2(from) >= dimY then from else LevelsFrom(dimY, from + 1)
  }

  /** num_scale_levels: log2(dimension.y / 256), at least 1, rounded up
      when not integral. As integers: the least k >= 1 with
      256 * 2^k >= dimension.y. */
  function NumScaleLevels(dimY: int): (k: nat)
    ensures k >= 1 && TileSize * Pow2(k) >= dimY
  {
    LevelsFrom(dimY, 1)
  }

  /** No smaller level count reaches the stack height. */
  lemma NumScaleLevelsLeast(dimY: int, k: nat)
    requires 1 <= k < NumScaleLevels(dimY)
    ensures TileSize * Pow2(k) < dimY
  {
    var n := NumScaleLevels(dimY);
    Pow2Monotone(k, n - 1);
  }

  /** MAX_S: the coarsest scale level; never negative. */
  function MaxS(s: StackInfo): (m: nat)
    requires s.Valid()
    ensures m + 1 == NumScaleLevels(s.dimension[1])
  {
    NumScaleLevels(s.dimension[1]) - 1
  }

  // ----- Slices -----

  /** `slices`: every section index of the stack that is not skipped, in
      ascending order. */
  method Slices(dimZ: int, skipPlanes: set<int>) returns (slices: seq<int>)
    ensures forall a, b :: 0 <= a < b < |slices| ==> slices[a] < slices[b]
    ensures forall z :: z in slices <==> 0 <= z < dimZ && z !in skipPlanes
  {
    slices := [];
    var i := 0;
    while i < dimZ
      invariant 0 <= i || dimZ <= 0
      invariant i <= Max(dimZ, 0)
      invariant forall a, b :: 0 <= a < b < |slices| ==> slices[a] < slices[b]
      invariant forall k :: 0 <= k < |slices| ==> slices[k] < i
      invariant forall z :: z in slices <==> 0 <= z < i && z !in skipPlanes
    {
      if i !in skipPlanes {
        slices := slices + [i];
      }
      i := i + 1;
    }
  }

  // ----- Section search -----

  /** Termination measure of the skip-plane search. */
  function SearchMeasure(z1: int, z2: int, maxZ: int): nat {
    Max(z1, 0) + Max(maxZ - z2, 0) + (if z1 == 0 && z2 == maxZ then 0 else 1)
  }

  /** The loop of moveTo that widens [z1, z2] while both ends are skipped
      planes, z1 clamped at 0 and z2 at max[2]; then z1 if it is not
      skipped, else z2. None when the loop never ends: both ends stay
      skipped once they reach 0 and max[2]. */
  function SkipSearch(z1: int, z2: int, maxZ: int, skip: set<int>): (r: Option<int>)
    requires maxZ >= 0
    ensures r.Some? ==> r.value !in skip
    decreases SearchMeasure(z1, z2, maxZ)
  {
    if z1 in skip && z2 in skip then
      var n1 := Max(0, z1 - 1);
      var n2 := Min(maxZ, z2 + 1);
      if n1 == z1 && n2 == z2 then None else SkipSearch(n1, n2, maxZ, skip)
    else Some(if z1 !in skip then z1 else z2)
  }

  /** r is the plane a search around z should find: none exactly when
      every plane is skipped, otherwise a plane that is not skipped with
      every nearer plane skipped, the lower one on a tie. */
  predicate NearestFree(r: Option<int>, z: int, maxZ: int, skip: set<int>)
  {
    && (r.None? <==> forall q :: 0 <= q <= maxZ ==> q in skip)
    && (r.Some? ==>
          0 <= r.value <= maxZ && r.value !in skip
          && (forall q :: 0 <= q <= maxZ && Abs(q - z) < Abs(r.value - z) ==> q in skip)
          && (r.value > z ==> (2 * z - r.value < 0 || 2 * z - r.value in skip)))
  }

  /** Every plane closer to z than d is skipped. */
  predicate SkippedWithin(z: int, d: nat, maxZ: int, skip: set<int>)
  {
    forall q :: 0 <= q <= maxZ && z - d < q < z + d ==> q in skip
  }

  /** The round where one end is free ends the search at the right plane. */
  lemma SkipSearchStops(z: int, d: nat, maxZ: int, skip: set<int>)
    requires 0 <= z <= maxZ && SkippedWithin(z, d, maxZ, skip)
    requires !(Max(0, z - d) in skip && Min(maxZ, z + d) in skip)
    ensures NearestFree(SkipSearch(Max(0, z - d), Min(maxZ, z + d), maxZ, skip), z, maxZ, skip)
  {
  }

  /** The round where both ends are skipped at the stack's borders hangs,
      and then every plane is skipped. */
  lemma SkipSearchHangs(z: int, d: nat, maxZ: int, skip: set<int>)
    requires 0 <= z <= maxZ && SkippedWithin(z, d, maxZ, skip)
    requires Max(0, z - d) in skip && Min(maxZ, z + d) in skip
    requires Max(0, z - d) - 1 < 0 && Min(maxZ, z + d) + 1 > maxZ
    ensures NearestFree(SkipSearch(Max(0, z - d), Min(maxZ, z + d), maxZ, skip), z, maxZ, skip)
  {
    var z1 := Max(0, z - d);
    var z2 := Min(maxZ, z + d);
    assert forall q :: 0 <= q <= maxZ ==> q in skip by {
      forall q | 0 <= q <= maxZ ensures q in skip {
        if q == z1 || q == z2 { } else { assert z - d < q < z + d; }
      }
    }
  }

  /** The round where both ends are skipped and the window can still grow
      is the search one round further on. */
  lemma SkipSearchWidens(z: int, d: nat, maxZ: int, skip: set<int>)
    requires 0 <= z <= maxZ && SkippedWithin(z, d, maxZ, skip)
    requires Max(0, z - d) in skip && Min(maxZ, z + d) in skip
    requires !(Max(0, z - d) - 1 < 0 && Min(maxZ, z + d) + 1 > maxZ)
    ensures SkippedWithin(z, d + 1, maxZ, skip)
    ensures SkipSearch(Max(0, z - d), Min(maxZ, z + d), maxZ, skip)
         == SkipSearch(Max(0, z - (d + 1)), Min(maxZ, z + (d + 1)), maxZ, skip)
  {
    var z1 := Max(0, z - d);
    var z2 := Min(maxZ, z + d);
    assert Max(0, z - (d + 1)) == Max(0, z1 - 1) && Min(maxZ, z + (d + 1)) == Min(maxZ, z2 + 1);
    forall q | 0 <= q <= maxZ && z - (d + 1) < q < z + (d + 1)
      ensures q in skip
    {
      if q == z - d { assert q == z1; }
      else if q == z + d { assert q == z2; }
    }
  }

  /** Started at a section z of the stack, the search finds the nearest
      plane that is not skipped, the lower one on a tie, and it hangs
      exactly when every plane is skipped. Stated for the search after d
      rounds, with every plane closer than d skipped. */
  lemma {:induction false} SkipSearchNearestFrom(z: int, d: nat, maxZ: int, skip: set<int>)
    requires 0 <= z <= maxZ && SkippedWithin(z, d, maxZ, skip)
    ensures NearestFree(SkipSearch(Max(0, z - d), Min(maxZ, z + d), maxZ, skip), z, maxZ, skip)
    decreases SearchMeasure(Max(0, z - d), Min(maxZ, z + d), maxZ)
  {
    var z1 := Max(0, z - d);
    var z2 := Min(maxZ, z + d);
    if !(z1 in skip && z2 in skip) {
      SkipSearchStops(z, d, maxZ, skip);
    } else if z1 - 1 < 0 && z2 + 1 > maxZ {
      SkipSearchHangs(z, d, maxZ, skip);
    } else {
      SkipSearchWidens(z, d, maxZ, skip);
      SkipSearchNearestFrom(z, d + 1, maxZ, skip);
    }
  }

  /** The section moveTo settles on, starting at a section inside the
      stack: the nearest plane that is not skipped (the lower of two
      equally near ones), or a hang when all planes are skipped. */
  lemma SkipSearchNearest(z: int, maxZ: int, skip: set<int>)
    requires 0 <= z <= maxZ
    ensures var r := SkipSearch(z, z, maxZ, skip);
      (r.None? <==> forall q :: 0 <= q <= maxZ ==> q in skip)
      && (r.Some? ==>
            0 <= r.value <= maxZ && r.value !in skip
            && (forall q :: 0 <= q <= maxZ && Abs(q - z) < Abs(r.value - z) ==> q in skip)
            && (r.value > z ==> (2 * z - r.value < 0 || 2 * z - r.value in skip)))
  {
    SkipSearchNearestFrom(z, 0, maxZ, skip);
  }

  // ----- moveTo / moveToPixel -----

  /** The stack's view state: scale level and pixel position. */
  datatype View = View(s: nat, pos: seq<int>)

  /** Stack pixel index for a project coordinate, before clamping. */
  function PixelOf(info: StackInfo, posp: seq<real>, i: nat): int
    requires info.Valid() && |posp| == |info.dimension| && i < |posp|
  {
    Round((posp[i] - info.translation[i]) / info.resolution[i])
  }

  /** The new scale level for a requested one: rounded, then clamped to
      [0, MAX_S]. */
  function ClampScale(info: StackInfo, sp: real): (s: nat)
    requires info.Valid()
    ensures s <= MaxS(info)
    ensures 0 <= Round(sp) <= MaxS(info) ==> s == Round(sp)
    ensures Round(sp) < 0 ==> s == 0
    ensures Round(sp) > MaxS(info) ==> s == MaxS(info)
  {
    Clamp(Round(sp), 0, MaxS(info))
  }

  /** moveTo(posp, sp): the scale changes only when a number is passed;
      every coordinate becomes the rounded pixel index clamped to the
      stack, and the section is the result of the skip-plane search from
      the rounded (unclamped) section, then clamped. None when the search
      never ends. */
  function MoveTo(info: StackInfo, v: View, posp: seq<real>, sp: Option<real>): (r: Option<View>)
    requires info.Valid() && |posp| == |info.dimension|
    ensures r.Some? ==> |r.value.pos| == |info.dimension|
    ensures r.Some? ==> forall i :: 0 <= i < |info.dimension| ==> 0 <= r.value.pos[i] <= info.MaxIndex(i)
    ensures r.Some? ==> forall i :: 0 <= i < |info.dimension| && i != 2 ==>
      r.value.pos[i] == Clamp(PixelOf(info, posp, i), 0, info.MaxIndex(i))
    ensures r.Some? ==> r.value.s == (if sp.Some? then ClampScale(info, sp.value) else v.s)
    ensures r.None? <==> SkipSearch(PixelOf(info, posp, 2), PixelOf(info, posp, 2), info.MaxIndex(2), info.skipPlanes).None?
  {
    var s := if sp.Some? then ClampScale(info, sp.value) else v.s;
    var z := PixelOf(info, posp, 2);
    match SkipSearch(z, z, info.MaxIndex(2), info.skipPlanes)
    case None => None
    case Some(z') =>
      var pos := seq(|info.dimension|, i requires 0 <= i < |info.dimension| =>
        if i == 2 then Clamp(z', 0, info.MaxIndex(2))
        else Clamp(PixelOf(info, posp, i), 0, info.MaxIndex(i)));
      Some(View(s, pos))
  }

  /** moveToPixel: the scale level clamped (not rounded) to [0, MAX_S],
      and the project coordinates of the pixel position, which are handed
      on to the project's moveTo. */
  function MoveToPixel(info: StackInfo, posp: seq<int>, sp: int): (r: (nat, seq<real>))
    requires info.Valid() && |posp| == |info.dimension|
    ensures r.0 <= MaxS(info)
    ensures |r.1| == |posp|
  {
    var s := Clamp(sp, 0, MaxS(info));
    (s, seq(|posp|, i requires 0 <= i < |posp| => posp[i] as real * info.resolution[i] + info.translation[i]))
  }

  /** Moving to a pixel position inside the stack through its project
      coordinates lands exactly on that pixel, when its section is not
      skipped. */
  lemma MoveToPixelRoundTrip(info: StackInfo, v: View, posp: seq<int>, sp: int)
    requires info.Valid() && |posp| == |info.dimension|
    requires forall i :: 0 <= i < |posp| ==> 0 <= posp[i] <= info.MaxIndex(i)
    requires posp[2] !in info.skipPlanes
    ensures var (s, p) := MoveToPixel(info, posp, sp);
      MoveTo(info, v.(s := s), p, None) == Some(View(s, posp))
  {
    var (s, p) := MoveToPixel(info, posp, sp);
    forall i | 0 <= i < |posp|
      ensures PixelOf(info, p, i) == posp[i]
    {
      assert (p[i] - info.translation[i]) / info.resolution[i] == posp[i] as real;
      RoundOfInt(posp[i]);
    }
    var r := MoveTo(info, v.(s := s), p, None);
    assert r.Some?;
    assert r.value.pos == posp;
  }

  // ----- Scale bar -----

  /** SCALE_BAR_SIZES, in nanometres. */
  const ScaleBarSizes: seq<int> := [
    10, 20, 25, 50, 100, 200, 250, 500,
    1000, 2000, 2500, 5000, 10000, 20000, 25000, 50000,
    100000, 200000, 250000, 500000, 1000000, 2000000, 2500000, 5000000,
    10000000, 20000000, 25000000, 50000000, 100000000, 200000000, 250000000, 500000000,
    1000000000, 2000000000, 2500000000, 5000000000, 10000000000, 20000000000, 25000000000, 50000000000,
    100000000000, 200000000000, 250000000000, 500000000000]

  /** SCALE_BAR_UNITS */
  const ScaleBarUnits: seq<string> := ["nm", "μm", "mm", "m"]

  /** Every bar size is a positive length. */
  predicate PositiveSizes(sizes: seq<int>) { forall i :: 0 <= i < |sizes| ==> sizes[i] >= 1 }

  lemma ScaleBarSizesPositive()
    ensures |ScaleBarSizes| == 44 && PositiveSizes(ScaleBarSizes)
  {
  }

  /** The index of the first bar size whose on-screen width exceeds the
      limit, or the last index when none does. */
  function ScaleBarIndex(sizes: seq<int>, pixelsPerNm: real, limit: real, from: nat): (k: nat)
    requires from < |sizes|
    ensures from <= k < |sizes|
    ensures forall i :: from <= i < k ==> sizes[i] as real * pixelsPerNm <= limit
    ensures k < |sizes| - 1 ==> sizes[k] as real * pixelsPerNm > limit
    decreases |sizes| - from
  {
    if sizes[from] as real * pixelsPerNm > limit || from == |sizes| - 1 then from
    else ScaleBarIndex(sizes, pixelsPerNm, limit, from + 1)
  }

  function Pow1000(k: nat): (r: real)
    ensures r >= 1.0
  {
    if k == 0 then 1.0 else 1000.0 * Pow1000(k - 1)
  }

  /** Dividing the label by 1000 while the unit grows by 1000 keeps the
      length it stands for. */
  lemma ThousandStep(text: real, p: real)
    requires text >= 1000.0
    ensures (text / 1000.0) * (1000.0 * p) == text * p && text / 1000.0 >= 1.0
  {
    assert (text / 1000.0) * 1000.0 == text;
  }

  /** The label of a bar length in nanometres: divided by 1000 per unit
      step while it is at least 1000 and a larger unit is left. */
  method InUnits(length: real) returns (text: real, unit: nat)
    requires length >= 1.0
    ensures unit < |ScaleBarUnits|
    ensures text * Pow1000(unit) == length
    ensures 1.0 <= text
    ensures unit < |ScaleBarUnits| - 1 ==> text < 1000.0
  {
    text := length;
    unit := 0;
    while text >= 1000.0 && unit < |ScaleBarUnits| - 1
      invariant unit < |ScaleBarUnits|
      invariant text * Pow1000(unit) == length
      invariant 1.0 <= text
      decreases |ScaleBarUnits| - unit
    {
      var t := text / 1000.0;
      ThousandStep(text, Pow1000(unit));
      text := t;
      unit := unit + 1;
    }
  }

  /** updateScaleBar over a list of bar sizes (SCALE_BAR_SIZES in the
      stack): picks the first size longer on screen than
      min(192, viewWidth / 5) pixels, then labels it in the largest unit
      (nm, μm, mm, m) that keeps the number at least 1. */
  method ScaleBar(sizes: seq<int>, scale: real, resolutionX: real, viewWidth: real) returns (width: real, text: real, unit: nat)
    requires resolutionX > 0.0 && |sizes| > 0 && PositiveSizes(sizes)
    ensures unit < |ScaleBarUnits|
    ensures var k := ScaleBarIndex(sizes, scale / resolutionX, if 192.0 <= viewWidth / 5.0 then 192.0 else viewWidth / 5.0, 0);
      width == sizes[k] as real * (scale / resolutionX)
      && text * Pow1000(unit) == sizes[k] as real
    ensures 1.0 <= text
    ensures unit < |ScaleBarUnits| - 1 ==> text < 1000.0
  {
    var meter := scale / resolutionX;
    var limit := if 192.0 <= viewWidth / 5.0 then 192.0 else viewWidth / 5.0;
    var k := ScaleBarIndex(sizes, meter, limit, 0);
    width := sizes[k] as real * meter;
    text, unit := InUnits(sizes[k] as real);
  }

  // ----- Layers -----

  /** A layer registered at a stack, identified by a name. */
  type LayerId = string

  /** addLayer: the layer previously stored under the key, if any, is
      unregistered (returned as the second component), and the new one
      takes its place. */
  function AddLayer(layers: map<string, LayerId>, key: string, layer: LayerId): (r: (map<string, LayerId>, Option<LayerId>))
    ensures r.0 == layers[key := layer]
    ensures r.1 == (if key in layers then Some(layers[key]) else None)
  {
    (layers[key := layer], if key in layers then Some(layers[key]) else None)
  }

  /** removeLayer: for a stored key the layer is unregistered, removed and
      returned; otherwise nothing changes and null is returned. */
  function RemoveLayer(layers: map<string, LayerId>, key: string): (r: (map<string, LayerId>, Option<LayerId>))
    ensures key !in layers ==> r.0 == layers && r.1 == None
    ensures key in layers ==> r.0 == layers - {key} && r.1 == Some(layers[key])
  {
    if key in layers then (layers - {key}, Some(layers[key])) else (layers, None)
  }

  /** Removing a layer that was just added under a fresh key restores the
      previous layers and hands back the added layer. */
  lemma AddThenRemove(layers: map<string, LayerId>, key: string, layer: LayerId)
    requires key !in layers
    ensures RemoveLayer(AddLayer(layers, key, layer).0, key) == (layers, Some(layer))
  {
    assert layers[key := layer] - {key} == layers;
  }
}
