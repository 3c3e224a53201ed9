/** The segment views of django/applications/catmaid/control/segment.py:
    the vote endpoint's validation, the file path of a slice image, and the
    bounding box of the slices a segment joins. The database lookups are
    parameters: whether a record exists and the rows a query returns. */
module Segment {
  import opened Common
  import opened Text

  // ---------------------------------------------------------------------
  // Python helpers

  /** Python 2 int() on a string: surrounding whitespace, an optional sign
      and at least one digit; anything else raises ValueError (None). */
  function PyInt(s: string): (r: Option<int>)
    ensures r.Some? ==> |Trim(s)| > 0
  {
    var t := Trim(s);
    var neg := |t| > 0 && t[0] == '-';
    var u := if |t| > 0 && (t[0] == '-' || t[0] == '+') then t[1..] else t;
    if |u| == 0 || !AllDigits(u) then None
    else Some(if neg then -(DigitsValue(u) as int) else DigitsValue(u) as int)
  }

  /** A printed integer is read back by int(). */
  lemma PyIntOfIntToString(i: int)
    ensures PyInt(IntToString(i)) == Some(i)
  {
    var s := IntToString(i);
    var n: nat := if i < 0 then -i else i;
    DigitsOfNat(n);
    assert IsDigit(s[|s| - 1]) by {
      if i < 0 { assert s[|s| - 1] == s[1..][|s| - 2]; }
    }
    TrimUnspaced(s);
    if i < 0 {
      assert s[1..] == NatToString(n);
    }
  }

  /** A string that neither starts nor ends with whitespace is its own trim. */
  lemma TrimUnspaced(s: string)
    requires |s| > 0 && !IsSpace(s[0]) && !IsSpace(s[|s| - 1])
    ensures Trim(s) == s
  {
    assert SkipSpaces(s) == s;
    var cs := set c | c in s && IsSpace(c);
    assert s[|s| - 1] !in cs;
    assert RStrip(s, cs) == s;
  }

  /** posixpath.join: an absolute part restarts the path; otherwise a '/'
      is put in between unless the path is empty or already ends in one. */
  function PathJoin(path: string, parts: seq<string>): string
    decreases |parts|
  {
    if |parts| == 0 then path
    else
      var b := parts[0];
      var p :=
        if |b| > 0 && b[0] == '/' then b
        else if |path| == 0 || path[|path| - 1] == '/' then path + b
        else path + "/" + b;
      PathJoin(p, parts[1..])
  }

  /** The characters of a string, each as a one-letter string (tuple(s)). */
  function Chars(s: string): (cs: seq<string>)
    ensures |cs| == |s| && forall k :: 0 <= k < |s| ==> cs[k] == [s[k]]
  {
    seq(|s|, k requires 0 <= k < |s| => [s[k]])
  }

  // ---------------------------------------------------------------------
  // slice_path / slice_path2

  /** The image path of a slice node "<section>_<slice id>": the last digit
      of the slice id names the file, the digits before it are nested
      directories, all under the base (trailing newlines stripped) and the
      section. A node id that does not split into two parts at '_', or an
      empty slice id, raises (None). slice_path and slice_path2 differ
      only in the base they are given: the local base path or the base
      URL of the stack's slices. */
  function SlicePath(nodeId: string, base: string, ext: string): (r: Option<string>)
    ensures r.Some? <==> |Split(nodeId, '_')| == 2 && |Split(nodeId, '_')[1]| > 0
  {
    var pieces := Split(nodeId, '_');
    if |pieces| != 2 then None
    else
      var section := pieces[0];
      var sliceId := pieces[1];
      if |sliceId| == 0 then None
      else
        var fname := FileName(sliceId, ext);
        var dirs := Join(Chars(sliceId[..|sliceId| - 1]), "/");
        Some(PathJoin(RStrip(base, {'\n'}), [section, dirs, fname]))
  }

  /** The directories spelled by the leading digits, each followed by '/'. */
  function DirPrefix(ds: string): string
  {
    if |ds| == 0 then "" else Join(Chars(ds), "/") + "/"
  }

  /** The image file of a slice: its last character and the extension. */
  function FileName(sliceId: string, ext: string): string
    requires |sliceId| > 0
  {
    [sliceId[|sliceId| - 1]] + "." + ext
  }

  /** The path under base and section: the leading digits as directories,
      then the file named by the last digit. */
  function SliceTail(digits: string, ext: string): string
    requires |digits| > 0
  {
    DirPrefix(digits[..|digits| - 1]) + FileName(digits, ext)
  }

  /** A node id of a section and a slice id made of digits gets the path
      base/section/d1/.../dk-1/dk.ext. */
  lemma SlicePathLayout(section: string, digits: string, base: string, ext: string)
    requires '_' !in section && '/' !in section && |section| > 0
    requires |digits| > 0 && AllDigits(digits)
    requires var b := RStrip(base, {'\n'}); |b| > 0 && b[|b| - 1] != '/'
    ensures SlicePath(section + "_" + digits, base, ext)
            == Some(RStrip(base, {'\n'}) + "/" + section + "/" + SliceTail(digits, ext))
  {
    NodeIdPieces(section, digits);
    var ds := digits[..|digits| - 1];
    var fname := FileName(digits, ext);
    assert IsDigit(fname[0]);
    JoinUnder(RStrip(base, {'\n'}), section, ds, fname);
    assert SliceTail(digits, ext) == DirPrefix(ds) + fname;
  }

  lemma NodeIdPieces(section: string, digits: string)
    requires '_' !in section && AllDigits(digits)
    ensures Split(section + "_" + digits, '_') == [section, digits]
  {
    SplitJoin([section, digits], '_');
    assert Join([section, digits], "_") == section + "_" + digits;
  }

  /** One step of posixpath.join with a relative part after a path that
      does not end in '/'. */
  lemma PathJoinStep(path: string, part: string, rest: seq<string>)
    requires |path| > 0 && path[|path| - 1] != '/' && (|part| == 0 || part[0] != '/')
    ensures PathJoin(path, [part] + rest) == PathJoin(path + "/" + part, rest)
  {
    assert ([part] + rest)[1..] == rest;
  }

  /** The last step, after a path that ends in '/'. */
  lemma PathJoinAfterSlash(path: string, part: string)
    requires |path| > 0 && path[|path| - 1] == '/' && (|part| == 0 || part[0] != '/')
    ensures PathJoin(path, [part]) == path + part
  {
    assert [part][1..] == [];
  }

  /** Joining a section, the directory text and a file name under a base. */
  lemma JoinUnder(b: string, section: string, ds: string, fname: string)
    requires |b| > 0 && b[|b| - 1] != '/'
    requires |section| > 0 && '/' !in section
    requires AllDigits(ds) && |fname| > 0 && fname[0] != '/'
    ensures PathJoin(b, [section, Join(Chars(ds), "/"), fname]) == b + "/" + section + "/" + (DirPrefix(ds) + fname)
  {
    var dirs := Join(Chars(ds), "/");
    var p1 := b + "/" + section;
    assert p1[|p1| - 1] == section[|section| - 1];
    PathJoinStep(b, section, [dirs, fname]);
    PathJoinStep(p1, dirs, [fname]) by {
      if |ds| > 0 {
        JoinCharsEnds(ds);
        assert IsDigit(ds[0]);
      }
    }
    var p2 := p1 + "/" + dirs;
    if |ds| == 0 {
      assert p2 == p1 + "/";
      PathJoinAfterSlash(p2, fname);
      assert DirPrefix(ds) + fname == fname;
    } else {
      JoinCharsEnds(ds);
      assert p2[|p2| - 1] == ds[|ds| - 1];
      assert IsDigit(ds[|ds| - 1]);
      PathJoinStep(p2, fname, []);
      assert [fname] + [] == [fname];
      Assoc(p1 + "/", dirs, "/");
      Assoc(p1 + "/", dirs + "/", fname);
    }
  }

  /** Joining the characters of a non-empty string with '/' starts with its
      first character and ends with its last. */
  lemma {:induction false} JoinCharsEnds(ds: string)
    requires |ds| > 0
    ensures |Join(Chars(ds), "/")| > 0
    ensures Join(Chars(ds), "/")[0] == ds[0]
    ensures Join(Chars(ds), "/")[|Join(Chars(ds), "/")| - 1] == ds[|ds| - 1]
    decreases |ds|
  {
    if |ds| > 1 {
      JoinCharsEnds(ds[1..]);
      assert Chars(ds)[1..] == Chars(ds[1..]);
    }
  }

  /** With the slashes taken out, the path under the section spells the
      slice id followed by the extension. */
  lemma SliceTailSpellsId(digits: string, ext: string)
    requires |digits| > 0 && AllDigits(digits) && '/' !in ext
    ensures RemoveChars(SliceTail(digits, ext), {'/'}) == digits + "." + ext
  {
    var ds := digits[..|digits| - 1];
    var c := [digits[|digits| - 1]];
    FileNameAvoidsSlash(digits, ext);
    RemoveCharsAvoiding(FileName(digits, ext), {'/'});
    RemoveCharsAppend(DirPrefix(ds), FileName(digits, ext), {'/'});
    DirPrefixSpells(ds);
    Assoc(ds, c + ".", ext);
    Assoc(ds, c, ".");
    assert ds + c == digits;
  }

  lemma FileNameAvoidsSlash(digits: string, ext: string)
    requires |digits| > 0 && AllDigits(digits) && '/' !in ext
    ensures Avoids(FileName(digits, ext), {'/'})
  {
    var f := FileName(digits, ext);
    forall i | 0 <= i < |f| ensures f[i] != '/' {
      if i >= 2 { assert f[i] == ext[i - 2]; }
    }
  }

  lemma DirPrefixSpells(ds: string)
    requires AllDigits(ds)
    ensures RemoveChars(DirPrefix(ds), {'/'}) == ds
  {
    if |ds| > 0 {
      JoinCharsSpell(ds);
      RemoveCharsAppend(Join(Chars(ds), "/"), "/", {'/'});
    }
  }

  lemma {:induction false} JoinCharsSpell(ds: string)
    requires |ds| > 0 && AllDigits(ds)
    ensures RemoveChars(Join(Chars(ds), "/"), {'/'}) == ds
    decreases |ds|
  {
    if |ds| == 1 {
      assert Join(Chars(ds), "/") == [ds[0]];
    } else {
      JoinCharsSpell(ds[1..]);
      assert Chars(ds)[1..] == Chars(ds[1..]);
      var rest := Join(Chars(ds[1..]), "/");
      assert Join(Chars(ds), "/") == [ds[0]] + "/" + rest;
      RemoveCharsAppend([ds[0]] + "/", rest, {'/'});
      assert RemoveChars([ds[0]] + "/", {'/'}) == [ds[0]];
      assert [ds[0]] + ds[1..] == ds;
    }
  }

  // ---------------------------------------------------------------------
  // segment_vote

  datatype Vote = Vote(userId: int, segment: int, vote: int, elapsedTime: int)

  datatype VoteComment = VoteComment(userId: int, vote: Vote, comment: string)

  datatype VoteOutcome =
    | NotLoggedIn
    | NotFound            // the fixed project or stack does not exist (404)
    | BadNumber           // int() raised on a posted value
    | InvalidSegmentKey
    | SegmentMissing      // Segments.objects.get raised
    | InvalidVote
    | Voted(saved: Vote, comment: Option<VoteComment>)

  /** A posted number: the default when absent, int() of the text otherwise. */
  function PostedInt(post: map<string, string>, key: string, default: int): Option<int>
  {
    if key in post then PyInt(post[key]) else Some(default)
  }

  /** segment_vote: the posted numbers are converted first, then the
      segment key is checked before any lookup, then the vote; a comment is
      stored only when it is present and non-empty. */
  function SegmentVote(loggedIn: bool, userId: int, projectAndStackExist: bool,
                       post: map<string, string>, segmentExists: int -> bool): (r: VoteOutcome)
    ensures r.Voted? <==>
              && loggedIn && projectAndStackExist
              && PostedInt(post, "segmentkey", -1).Some? && PostedInt(post, "vote", -1).Some?
              && PostedInt(post, "elapsed_time", 0).Some?
              && PostedInt(post, "segmentkey", -1).value != -1
              && segmentExists(PostedInt(post, "segmentkey", -1).value)
              && PostedInt(post, "vote", -1).value in {1, 2, 3}
    ensures r.Voted? ==>
              && r.saved == Vote(userId, PostedInt(post, "segmentkey", -1).value, PostedInt(post, "vote", -1).value,
                                 PostedInt(post, "elapsed_time", 0).value)
              && (r.comment.Some? <==> "comment" in post && |post["comment"]| > 0)
              && (r.comment.Some? ==> r.comment.value == VoteComment(userId, r.saved, post["comment"]))
    ensures r == InvalidSegmentKey ==> PostedInt(post, "segmentkey", -1) == Some(-1)
    ensures r == InvalidVote ==> PostedInt(post, "vote", -1).Some? && PostedInt(post, "vote", -1).value !in {1, 2, 3}
  {
    if !loggedIn then NotLoggedIn
    else if !projectAndStackExist then NotFound
    else
      var key := PostedInt(post, "segmentkey", -1);
      var vote := PostedInt(post, "vote", -1);
      var elapsed := PostedInt(post, "elapsed_time", 0);
      if key.None? || vote.None? || elapsed.None? then BadNumber
      else if key.value == -1 then InvalidSegmentKey
      else if !segmentExists(key.value) then SegmentMissing
      else if vote.value == -1 || vote.value !in {1, 2, 3} then InvalidVote
      else
        var sv := Vote(userId, key.value, vote.value, elapsed.value);
        var comment := if "comment" in post && |post["comment"]| > 0
                       then Some(VoteComment(userId, sv, post["comment"])) else None;
        Voted(sv, comment)
  }

  /** A missing segment key is rejected before the segment is looked up and
      whatever the vote: no lookup result changes the answer. */
  lemma MissingKeyRejectedFirst(userId: int, post: map<string, string>, exists1: int -> bool, exists2: int -> bool)
    requires "segmentkey" !in post
    requires PostedInt(post, "vote", -1).Some? && PostedInt(post, "elapsed_time", 0).Some?
    ensures SegmentVote(true, userId, true, post, exists1) == InvalidSegmentKey
    ensures SegmentVote(true, userId, true, post, exists1) == SegmentVote(true, userId, true, post, exists2)
  {
  }

  // ---------------------------------------------------------------------
  // get_segment_boundingbox

  datatype SegmentRow = SegmentRow(
    segmentType: int,
    originSection: int, targetSection: int,
    originSliceId: int, target1SliceId: int, target2SliceId: int)

  function NodeId(section: int, sliceId: int): string
  {
    IntToString(section) + "_" + IntToString(sliceId)
  }

  /** The slice node ids a segment joins: the origin slice, then for type 2
      one target slice and for type 3 two. */
  function SliceNodeIds(s: SegmentRow): (ids: seq<string>)
    ensures |ids| == (if s.segmentType == 2 then 2 else if s.segmentType == 3 then 3 else 1)
    ensures ids[0] == NodeId(s.originSection, s.originSliceId)
    ensures |ids| >= 2 ==> ids[1] == NodeId(s.targetSection, s.target1SliceId)
    ensures |ids| == 3 ==> ids[2] == NodeId(s.targetSection, s.target2SliceId)
  {
    var origin := [NodeId(s.originSection, s.originSliceId)];
    if s.segmentType == 2 then origin + [NodeId(s.targetSection, s.target1SliceId)]
    else if s.segmentType == 3 then
      origin + [NodeId(s.targetSection, s.target1SliceId), NodeId(s.targetSection, s.target2SliceId)]
    else origin
  }

  /** The sections of the joined slices, in the same order. */
  function SliceSections(s: SegmentRow): (secs: seq<int>)
    ensures |secs| == |SliceNodeIds(s)|
  {
    if s.segmentType == 2 then [s.originSection, s.targetSection]
    else if s.segmentType == 3 then [s.originSection, s.targetSection, s.targetSection]
    else [s.originSection]
  }

  /** A node id splits back into its section and slice id. */
  lemma NodeIdSplits(section: int, sliceId: int)
    ensures Split(NodeId(section, sliceId), '_') == [IntToString(section), IntToString(sliceId)]
  {
    IntToStringChars(section);
    IntToStringChars(sliceId);
    SplitJoin([IntToString(section), IntToString(sliceId)], '_');
  }

  /** Every node id a segment asks for, paired with its section, names a
      slice of that section: the part before '_' reads back as the section. */
  lemma SliceNodeIdsOfSections(s: SegmentRow, k: int)
    requires 0 <= k < |SliceNodeIds(s)|
    ensures |Split(SliceNodeIds(s)[k], '_')| == 2
    ensures PyInt(Split(SliceNodeIds(s)[k], '_')[0]) == Some(SliceSections(s)[k])
  {
    var ids := SliceNodeIds(s);
    var sec := SliceSections(s)[k];
    var sl := if k == 0 then s.originSliceId else if k == 1 then s.target1SliceId else s.target2SliceId;
    assert ids[k] == NodeId(sec, sl);
    NodeIdSplits(sec, sl);
    PyIntOfIntToString(sec);
  }

  datatype Slice = Slice(nodeId: string, minX: int, minY: int, maxX: int, maxY: int)

  /** The box of one slice as the response lists it. */
  datatype SliceBox = SliceBox(minX: int, maxX: int, minY: int, maxY: int, slicePath: string, width: int, height: int)

  datatype Box = Box(minX: int, maxX: int, minY: int, maxY: int, width: int, height: int)

  /** The slice lies inside the box. */
  predicate Within(sl: Slice, b: Box)
  {
    b.minX <= sl.minX && b.minY <= sl.minY && sl.maxX <= b.maxX && sl.maxY <= b.maxY
  }

  /** Each bound of the box is attained by some slice. */
  predicate Tight(slices: seq<Slice>, b: Box)
  {
    && (exists i :: 0 <= i < |slices| && slices[i].minX == b.minX)
    && (exists i :: 0 <= i < |slices| && slices[i].minY == b.minY)
    && (exists i :: 0 <= i < |slices| && slices[i].maxX == b.maxX)
    && (exists i :: 0 <= i < |slices| && slices[i].maxY == b.maxY)
  }

  /** The total bounding box: the first slice's bounds, widened by each
      further slice in turn. */
  method TotalBox(slices: seq<Slice>) returns (b: Box)
    requires |slices| > 0
    ensures forall i :: 0 <= i < |slices| ==> Within(slices[i], b)
    ensures Tight(slices, b)
    ensures b.width == b.maxX - b.minX && b.height == b.maxY - b.minY
  {
    var minX, minY, maxX, maxY := slices[0].minX, slices[0].minY, slices[0].maxX, slices[0].maxY;
    var k := 1;
    while k < |slices|
      invariant 1 <= k <= |slices|
      invariant forall i :: 0 <= i < k ==> Within(slices[i], Box(minX, maxX, minY, maxY, 0, 0))
      invariant Tight(slices[..k], Box(minX, maxX, minY, maxY, 0, 0))
    {
      var sl := slices[k];
      minX := Min(minX, sl.minX);
      minY := Min(minY, sl.minY);
      maxX := Max(maxX, sl.maxX);
      maxY := Max(maxY, sl.maxY);
      k := k + 1;
    }
    assert slices[..k] == slices;
    b := Box(minX, maxX, minY, maxY, maxX - minX, maxY - minY);
  }

  datatype BoxOutcome =
    | BoxNotLoggedIn
    | BoxNotFound         // the fixed project or stack does not exist (404)
    | BoxBadNumber        // int() raised on a query value
    | Crash               // no slice info, no segment found, no slice returned, a malformed node id
    | Boxes(segmentType: int, origin: SliceBox, targets: seq<SliceBox>, total: Box, tileWidth: int, tileHeight: int)

  /** The stack's slice info row: the base URL of the slice images and
      their file extension. */
  datatype SliceInfo = SliceInfo(baseUrl: string, ext: string)

  /** The listed box of a slice, its image path under the base URL. */
  function SliceBoxOf(sl: Slice, baseUrl: string, ext: string): Option<SliceBox>
  {
    match SlicePath(sl.nodeId, baseUrl, ext)
    case None => None
    case Some(p) => Some(SliceBox(sl.minX, sl.maxX, sl.minY, sl.maxY, p, sl.maxX - sl.minX, sl.maxY - sl.minY))
  }

  /** The listed boxes of all slices in order; None as soon as one node id
      has no image path. */
  method SliceBoxes(slices: seq<Slice>, baseUrl: string, ext: string) returns (r: Option<seq<SliceBox>>)
    ensures r.Some? <==> forall i :: 0 <= i < |slices| ==> SliceBoxOf(slices[i], baseUrl, ext).Some?
    ensures r.Some? ==> |r.value| == |slices|
                        && forall i :: 0 <= i < |slices| ==> SliceBoxOf(slices[i], baseUrl, ext) == Some(r.value[i])
  {
    var boxes: seq<SliceBox> := [];
    var k := 0;
    while k < |slices|
      invariant 0 <= k <= |slices| && |boxes| == k
      invariant forall i :: 0 <= i < k ==> SliceBoxOf(slices[i], baseUrl, ext) == Some(boxes[i])
    {
      var b := SliceBoxOf(slices[k], baseUrl, ext);
      if b.None? {
        return None;
      }
      boxes := boxes + [b.value];
      k := k + 1;
    }
    return Some(boxes);
  }

  /** The query values get_segment_boundingbox reads: origin and target
      section, converted with int(), and the segment id as text; None when
      int() raises on the origin, target or edge value. */
  function BoxQuery(get: map<string, string>): (q: Option<(int, int, string)>)
    ensures q.Some? <==> PostedInt(get, "originsection", 0).Some? && PostedInt(get, "targetsection", 0).Some? &&
                         PostedInt(get, "edge", 0).Some?
    ensures q.Some? ==> q.value.0 == PostedInt(get, "originsection", 0).value &&
                        q.value.1 == PostedInt(get, "targetsection", 0).value &&
                        q.value.2 == (if "segmentid" in get then get["segmentid"] else "0")
  {
    var origin := PostedInt(get, "originsection", 0);
    var target := PostedInt(get, "targetsection", 0);
    var edge := PostedInt(get, "edge", 0);
    if origin.None? || target.None? || edge.None? then None
    else Some((origin.value, target.value, if "segmentid" in get then get["segmentid"] else "0"))
  }

  /** get_segment_boundingbox. The database is reduced to what the view
      reads: whether the fixed project and stack exist, the stack's slice
      info and tile size, the segment query on the parsed sections and the
      segment id, and the slices the node-id query returns. The query
      values are converted before the segment is looked up. The first
      slice is the origin entry, the others the targets, and the total box
      spans them all. */
  method SegmentBoundingBox(loggedIn: bool, projectAndStackExist: bool, sliceInfo: Option<SliceInfo>,
                            tileWidth: int, tileHeight: int, get: map<string, string>,
                            findSegment: (int, int, string) -> Option<SegmentRow>, slices: seq<Slice>)
    returns (r: BoxOutcome)
    ensures r == BoxNotLoggedIn <==> !loggedIn
    ensures r == BoxNotFound <==> loggedIn && !projectAndStackExist
    ensures r == BoxBadNumber <==> loggedIn && projectAndStackExist && sliceInfo.Some? && BoxQuery(get).None?
    ensures r.Boxes? <==>
              && loggedIn && projectAndStackExist && sliceInfo.Some? && BoxQuery(get).Some?
              && findSegment(BoxQuery(get).value.0, BoxQuery(get).value.1, BoxQuery(get).value.2).Some?
              && |slices| > 0
              && forall i :: 0 <= i < |slices| ==> SliceBoxOf(slices[i], sliceInfo.value.baseUrl, sliceInfo.value.ext).Some?
    ensures r.Boxes? ==>
              && r.segmentType == findSegment(BoxQuery(get).value.0, BoxQuery(get).value.1, BoxQuery(get).value.2).value.segmentType
              && Some(r.origin) == SliceBoxOf(slices[0], sliceInfo.value.baseUrl, sliceInfo.value.ext)
              && |r.targets| == |slices| - 1
              && (forall i :: 1 <= i < |slices| ==>
                    Some(r.targets[i - 1]) == SliceBoxOf(slices[i], sliceInfo.value.baseUrl, sliceInfo.value.ext))
              && (forall i :: 0 <= i < |slices| ==> Within(slices[i], r.total))
              && Tight(slices, r.total)
              && r.total.width == r.total.maxX - r.total.minX
              && r.total.height == r.total.maxY - r.total.minY
              && r.tileWidth == tileWidth && r.tileHeight == tileHeight
  {
    if !loggedIn {
      return BoxNotLoggedIn;
    }
    if !projectAndStackExist {
      return BoxNotFound;
    }
    if sliceInfo.None? {
      return Crash;
    }
    var query := BoxQuery(get);
    if query.None? {
      return BoxBadNumber;
    }
    var segment := findSegment(query.value.0, query.value.1, query.value.2);
    if segment.None? || |slices| == 0 {
      return Crash;
    }
    var info := sliceInfo.value;
    var boxes := SliceBoxes(slices, info.baseUrl, info.ext);
    if boxes.None? {
      return Crash;
    }
    var total := TotalBox(slices);
    r := Boxes(segment.value.segmentType, boxes.value[0], boxes.value[1..], total, tileWidth, tileHeight);
  }
}
