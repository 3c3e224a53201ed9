/** The area update endpoint, httpdocs/model/area.update.php: the request
    dictionary built by the overlay (one group of keys per area, each key a
    field name followed by the area's index) is split back into groups,
    every group is checked for its required keys and a nonzero project id,
    and one polygon row is updated per group, in order. */
module AreaUpdate {
  import opened Common
  import opened Text
  import LegacyOverlay

  type Field = (string, string)

  /** The characters \w matches: ASCII letters, digits and underscore. */
  predicate IsWordChar(c: char)
  {
    'a' <= c <= 'z' || 'A' <= c <= 'Z' || IsDigit(c) || c == '_'
  }

  predicate AllWord(s: string)
  {
    forall i | 0 <= i < |s| :: IsWordChar(s[i])
  }

  /** (field, index) is a match of /^(\w+)([0-9]+)$/ against key. */
  predicate Matches(key: string, field: string, index: string)
  {
    |field| > 0 && AllWord(field) && |index| > 0 && AllDigits(index) && field + index == key
  }

  /** The split preg_match returns: the greedy \w+ keeps all but the last
      character, so the index is the final digit alone. None when the key
      does not match at all. */
  function SplitKeyAsWritten(key: string): Option<(string, string)>
  {
    if |key| >= 2 && AllWord(key) && IsDigit(key[|key| - 1]) then Some((key[..|key| - 1], key[|key| - 1..]))
    else None
  }

  /** The split the overlay's keys need, that of /^(\w+?)([0-9]+)$/: the
      index is the whole run of trailing digits, short of the first
      character, which the field needs. */
  function SplitKey(key: string): Option<(string, string)>
  {
    if |key| >= 2 && AllWord(key) && IsDigit(key[|key| - 1]) then
      var n := Min(TrailingDigits(key), |key| - 1);
      Some((key[..|key| - n], key[|key| - n..]))
    else None
  }

  /** Length of the run of digits at the end of s. */
  function TrailingDigits(s: string): (n: nat)
    ensures n <= |s| && AllDigits(s[|s| - n..])
    ensures n < |s| ==> !IsDigit(s[|s| - n - 1])
    decreases |s|
  {
    if |s| > 0 && IsDigit(s[|s| - 1]) then
      var m := TrailingDigits(s[..|s| - 1]);
      DigitSuffixGrows(s, m);
      m + 1
    else 0
  }

  /** A digit run at the end of all but the last character, followed by a
      final digit, is a digit run one longer. */
  lemma DigitSuffixGrows(s: string, m: nat)
    requires |s| > 0 && IsDigit(s[|s| - 1]) && m <= |s| - 1
    requires AllDigits(s[..|s| - 1][|s| - 1 - m..])
    ensures AllDigits(s[|s| - (m + 1)..])
  {
    var t := s[|s| - (m + 1)..];
    forall i | 0 <= i < |t| ensures IsDigit(t[i]) {
      if i < m {
        assert t[i] == s[..|s| - 1][|s| - 1 - m..][i];
      }
    }
  }

  /** A suffix of digits is within the trailing run. */
  lemma {:induction false} TrailingDigitsAtLeast(s: string, m: nat)
    requires m <= |s| && AllDigits(s[|s| - m..])
    ensures TrailingDigits(s) >= m
    decreases m
  {
    if m > 0 {
      assert s[|s| - m..][m - 1] == s[|s| - 1];
      var t := s[..|s| - 1];
      var u := t[|t| - (m - 1)..];
      forall k | 0 <= k < |u| ensures IsDigit(u[k]) {
        assert u[k] == s[|s| - m..][k];
      }
      TrailingDigitsAtLeast(t, m - 1);
    }
  }

  /** A match exists exactly when the key is at least two word characters
      ending in a digit. */
  lemma MatchShape(key: string, k: int)
    requires 0 < k < |key| && Matches(key, key[..k], key[k..])
    ensures |key| >= 2 && AllWord(key) && IsDigit(key[|key| - 1])
  {
    assert key[|key| - 1] == key[k..][|key| - k - 1];
    forall i | 0 <= i < |key| ensures IsWordChar(key[i]) {
      if i < k {
        assert key[i] == key[..k][i];
      } else {
        assert key[i] == key[k..][i - k];
      }
    }
  }

  /** The as-written split is the regular expression's greedy match: a
      match exists exactly when a split is returned, and the returned one
      has the longest field of all matches. */
  lemma SplitKeyAsWrittenIsGreedy(key: string, field: string, index: string)
    ensures SplitKeyAsWritten(key).Some? <==> exists k | 0 < k < |key| :: Matches(key, key[..k], key[k..])
    ensures SplitKeyAsWritten(key).Some? ==> Matches(key, SplitKeyAsWritten(key).value.0, SplitKeyAsWritten(key).value.1)
    ensures SplitKeyAsWritten(key).Some? && Matches(key, field, index) ==> |field| <= |SplitKeyAsWritten(key).value.0|
  {
    if exists k | 0 < k < |key| :: Matches(key, key[..k], key[k..]) {
      var k :| 0 < k < |key| && Matches(key, key[..k], key[k..]);
      MatchShape(key, k);
    }
    if SplitKeyAsWritten(key).Some? {
      var (f, d) := SplitKeyAsWritten(key).value;
      assert f + d == key;
      assert forall i | 0 <= i < |f| :: f[i] == key[i];
      assert key[..|f|] == f && key[|f|..] == d;
    }
    if Matches(key, field, index) {
      assert |field| == |key| - |index|;
    }
  }

  /** The corrected split is the match with the shortest field, i.e. the
      longest index. */
  lemma SplitKeyIsLazy(key: string, field: string, index: string)
    ensures SplitKey(key).Some? <==> SplitKeyAsWritten(key).Some?
    ensures SplitKey(key).Some? ==> Matches(key, SplitKey(key).value.0, SplitKey(key).value.1)
    ensures SplitKey(key).Some? && Matches(key, field, index) ==> |index| <= |SplitKey(key).value.1|
  {
    if SplitKey(key).Some? {
      var (f, d) := SplitKey(key).value;
      assert f + d == key;
      assert forall i | 0 <= i < |f| :: f[i] == key[i];
      assert key[..|f|] == f && key[|f|..] == d;
    }
    if Matches(key, field, index) {
      assert key[|key| - |index|..] == index;
      TrailingDigitsAtLeast(key, |index|);
    }
  }

  /** A field name the overlay writes: word characters not ending in a digit. */
  predicate FieldName(f: string)
  {
    |f| > 0 && AllWord(f) && !IsDigit(f[|f| - 1])
  }

  lemma TrailingDigitsOf(f: string, d: string)
    requires |f| > 0 && !IsDigit(f[|f| - 1]) && AllDigits(d)
    ensures TrailingDigits(f + d) == |d|
    decreases |d|
  {
    if |d| > 0 {
      assert (f + d)[..|f + d| - 1] == f + d[..|d| - 1];
      TrailingDigitsOf(f, d[..|d| - 1]);
    } else {
      assert f + d == f;
    }
  }

  /** Every key the overlay writes splits back into its field name and
      record index. */
  lemma SplitKeyRoundTrip(f: string, i: nat)
    requires FieldName(f)
    ensures SplitKey(f + IntToString(i)) == Some((f, IntToString(i)))
  {
    var d := IntToString(i);
    var key := f + d;
    TrailingDigitsOf(f, d);
    assert key[..|key| - |d|] == f && key[|key| - |d|..] == d;
    assert key[|key| - 1] == d[|d| - 1];
    forall j | 0 <= j < |key| ensures IsWordChar(key[j]) {
      if j < |f| {
        assert key[j] == f[j];
      } else {
        assert key[j] == d[j - |f|];
      }
    }
  }

  /** For indices below ten the greedy split gets the same answer. */
  lemma SplitKeyAsWrittenSmall(f: string, i: nat)
    requires FieldName(f) && i < 10
    ensures SplitKeyAsWritten(f + IntToString(i)) == Some((f, IntToString(i)))
  {
    SplitKeyRoundTrip(f, i);
  }

  /** The greedy split reads the key of field area_id for record 12 as a
      field area_id1 of record 2. */
  lemma SplitKeyAsWrittenTwelve()
    ensures SplitKeyAsWritten("area_id12") == Some(("area_id1", "2"))
    ensures SplitKey("area_id12") == Some(("area_id", "12"))
  {
    var key := "area_id12";
    SplitKeyRoundTrip("area_id", 12);
    assert IntToString(12) == "12";
    assert "area_id" + "12" == key;
    assert AllWord(key);
    assert key[..|key| - 1] == "area_id1" && key[|key| - 1..] == "2";
  }

  // ---------------------------------------------------------------------
  // Grouping: the PHP array of groups, an insertion-ordered dictionary

  type Group = map<string, string>
  type Groups = seq<(string, Group)>

  predicate DistinctIndices(gs: Groups)
  {
    forall j, k | 0 <= j < k < |gs| :: gs[j].0 != gs[k].0
  }

  function IndexOf(gs: Groups, index: string): (r: Option<nat>)
    ensures r.Some? ==> r.value < |gs| && gs[r.value].0 == index
    ensures r.None? <==> forall j | 0 <= j < |gs| :: gs[j].0 != index
    decreases |gs|
  {
    if gs == [] then None
    else if gs[|gs| - 1].0 == index then Some(|gs| - 1)
    else
      var r := IndexOf(gs[..|gs| - 1], index);
      assert forall j | 0 <= j < |gs| - 1 :: gs[..|gs| - 1][j] == gs[j];
      r
  }

  /** $areas[$index][$real_key] = $value: a new index opens a group at the
      end; an existing one is extended in place. */
  function AddEntry(gs: Groups, index: string, field: string, value: string): (r: Groups)
    ensures DistinctIndices(gs) ==> DistinctIndices(r)
    ensures IndexOf(gs, index).None? ==> r == gs + [(index, map[field := value])]
    ensures IndexOf(gs, index).Some? ==> |r| == |gs|
  {
    match IndexOf(gs, index)
    case Some(p) => gs[p := (index, gs[p].1[field := value])]
    case None => gs + [(index, map[field := value])]
  }

  /** The request loop: every key is split and its value filed under its
      group. A key that does not match leaves both captures unset, and
      PHP files the value under the empty index and the empty field. */
  function GroupFrom(gs: Groups, req: seq<Field>, split: string -> Option<(string, string)>): (r: Groups)
    ensures DistinctIndices(gs) ==> DistinctIndices(r)
    decreases |req|
  {
    if req == [] then gs
    else
      var (field, index) := split(req[0].0).GetOr(("", ""));
      GroupFrom(AddEntry(gs, index, field, req[0].1), req[1..], split)
  }

  lemma {:induction false} GroupFromAppend(gs: Groups, a: seq<Field>, b: seq<Field>, split: string -> Option<(string, string)>)
    ensures GroupFrom(gs, a + b, split) == GroupFrom(GroupFrom(gs, a, split), b, split)
    decreases |a|
  {
    if a != [] {
      var (field, index) := split(a[0].0).GetOr(("", ""));
      assert (a + b)[1..] == a[1..] + b;
      GroupFromAppend(AddEntry(gs, index, field, a[0].1), a[1..], b, split);
    } else {
      assert a + b == b;
    }
  }

  /** The $index variable left over from the request loop: the index of
      the last key. */
  function LastIndex(req: seq<Field>, split: string -> Option<(string, string)>): string
  {
    if req == [] then "" else split(req[|req| - 1].0).GetOr(("", "")).1
  }

  // ---------------------------------------------------------------------
  // Processing the groups

  const RequiredKeys: seq<string> := ["pid", "area_id", "z", "polygon", "lbound", "ubound"]

  /** The first required key the group lacks, in the order they are checked. */
  function FirstMissing(g: Group, keys: seq<string>): (r: Option<string>)
    ensures r.None? <==> forall j | 0 <= j < |keys| :: keys[j] in g
    ensures r.Some? ==> r.value in keys && r.value !in g
    decreases |keys|
  {
    if keys == [] then None
    else if keys[0] !in g then Some(keys[0])
    else
      var r := FirstMissing(g, keys[1..]);
      assert forall j | 1 <= j < |keys| :: keys[j] == keys[1..][j - 1];
      r
  }

  /** A group that is written: all required keys and a nonzero project id. */
  predicate GroupOk(g: Group)
  {
    FirstMissing(g, RequiredKeys).None? && IntVal(g["pid"]) != 0
  }

  /** The row update of one group: id and z converted, the three geometric
      texts passed through. */
  datatype PolygonUpdate = PolygonUpdate(id: int, z: real, polygon: string, lbound: string, ubound: string)

  function UpdateOf(g: Group): PolygonUpdate
    requires FirstMissing(g, RequiredKeys).None?
  {
    assert "area_id" == RequiredKeys[1] && "z" == RequiredKeys[2] && "polygon" == RequiredKeys[3];
    assert "lbound" == RequiredKeys[4] && "ubound" == RequiredKeys[5];
    PolygonUpdate(IntVal(g["area_id"]), FloatVal(g["z"]), g["polygon"], g["lbound"], g["ubound"])
  }

  /** The response: an error, or the number of groups written. */
  datatype Outcome =
    | NotLoggedIn
    | MissingKey(key: string, index: string)
    | InvalidProject
    | Updated(count: nat)

  /** What the group loop promises of its result r: the written updates
      are those of a prefix of good groups; the loop reports every group
      exactly when it got through them all; otherwise the group after the
      prefix is bad, and the error says why. */
  ghost predicate WritesPrefix(gs: Groups, reported: Option<string>, r: (seq<PolygonUpdate>, Outcome))
  {
    && |r.0| <= |gs| && !r.1.NotLoggedIn?
    && (forall j | 0 <= j < |r.0| :: GroupOk(gs[j].1) && r.0[j] == UpdateOf(gs[j].1))
    && (r.1.Updated? <==> |r.0| == |gs|)
    && (r.1.Updated? ==> r.1.count == |gs|)
    && (!r.1.Updated? ==> |r.0| < |gs| && !GroupOk(gs[|r.0|].1) && StopsWith(gs[|r.0|], reported, r.1))
  }

  /** The error for a bad group: its first missing key, named with the
      reported index or else the group's own; or an invalid project id. */
  predicate StopsWith(group: (string, Group), reported: Option<string>, out: Outcome)
  {
    && (out.MissingKey? ==> FirstMissing(group.1, RequiredKeys) == Some(out.key) &&
                            out.index == reported.GetOr(group.0))
    && (out.InvalidProject? ==> FirstMissing(group.1, RequiredKeys).None? && IntVal(group.1["pid"]) == 0)
  }

  /** A good group written ahead of the rest of the loop's result. */
  function WriteFirst(g: Group, rest: (seq<PolygonUpdate>, Outcome)): (seq<PolygonUpdate>, Outcome)
    requires GroupOk(g)
  {
    ([UpdateOf(g)] + rest.0, if rest.1.Updated? then Updated(rest.1.count + 1) else rest.1)
  }

  lemma WriteFirstPrefix(gs: Groups, reported: Option<string>, rest: (seq<PolygonUpdate>, Outcome))
    requires |gs| > 0 && GroupOk(gs[0].1) && WritesPrefix(gs[1..], reported, rest)
    ensures WritesPrefix(gs, reported, WriteFirst(gs[0].1, rest))
  {
    var r := WriteFirst(gs[0].1, rest);
    WriteFirstWrites(gs, reported, rest);
    if !rest.1.Updated? {
      assert gs[|r.0|] == gs[1..][|rest.0|];
    }
  }

  lemma WriteFirstWrites(gs: Groups, reported: Option<string>, rest: (seq<PolygonUpdate>, Outcome))
    requires |gs| > 0 && GroupOk(gs[0].1) && WritesPrefix(gs[1..], reported, rest)
    ensures var r := WriteFirst(gs[0].1, rest);
            forall j | 0 <= j < |r.0| :: GroupOk(gs[j].1) && r.0[j] == UpdateOf(gs[j].1)
  {
    var r := WriteFirst(gs[0].1, rest);
    forall j | 0 <= j < |r.0| ensures GroupOk(gs[j].1) && r.0[j] == UpdateOf(gs[j].1) {
      if j > 0 {
        assert gs[j] == gs[1..][j - 1];
        assert r.0[j] == rest.0[j - 1];
      }
    }
  }

  /** The group loop. Groups are written in order, and the first bad group
      ends the request with an error after the earlier groups have been
      written. reported, when present, is the index every missing-key
      error names; otherwise the error names the group's own index. */
  function Process(gs: Groups, reported: Option<string>): (r: (seq<PolygonUpdate>, Outcome))
    ensures WritesPrefix(gs, reported, r)
    decreases |gs|
  {
    if gs == [] then ([], Updated(0))
    else
      var (index, g) := gs[0];
      match FirstMissing(g, RequiredKeys)
      case Some(k) => ([], MissingKey(k, reported.GetOr(index)))
      case None =>
        if IntVal(g["pid"]) == 0 then ([], InvalidProject)
        else
          var rest := Process(gs[1..], reported);
          WriteFirstPrefix(gs, reported, rest);
          WriteFirst(g, rest)
  }

  /** The endpoint as written: the greedy split, and missing-key errors
      naming the index left over from the request loop. */
  function AreaUpdateAsWritten(uid: int, req: seq<Field>): (r: (seq<PolygonUpdate>, Outcome))
    ensures uid == 0 ==> r == ([], NotLoggedIn)
  {
    if uid == 0 then ([], NotLoggedIn)
    else Process(GroupFrom([], req, SplitKeyAsWritten), Some(LastIndex(req, SplitKeyAsWritten)))
  }

  /** The endpoint as intended: the whole trailing digit run is the index,
      and an error names the group it is about. */
  function AreaUpdate(uid: int, req: seq<Field>): (r: (seq<PolygonUpdate>, Outcome))
    ensures uid == 0 ==> r == ([], NotLoggedIn)
  {
    if uid == 0 then ([], NotLoggedIn)
    else Process(GroupFrom([], req, SplitKey), None)
  }

  // ---------------------------------------------------------------------
  // The overlay's request round-trips through the corrected endpoint

  const AreaFieldNames: seq<string> := ["area_id", "polygon", "z", "lbound", "ubound"]

  /** A record shaped like the overlay's area record. */
  predicate AreaShaped(rec: seq<Field>)
  {
    |rec| == 5 && forall j | 0 <= j < 5 :: rec[j].0 == AreaFieldNames[j]
  }

  /** The group one area record should become. */
  function ExpectedGroup(rec: seq<Field>, pid: int): Group
    requires AreaShaped(rec)
  {
    map["pid" := IntToString(pid), "area_id" := rec[0].1, "polygon" := rec[1].1, "z" := rec[2].1,
        "lbound" := rec[3].1, "ubound" := rec[4].1]
  }

  function ExpectedGroups(records: seq<seq<Field>>, pid: int, start: nat): (r: Groups)
    requires forall i | 0 <= i < |records| :: AreaShaped(records[i])
    ensures |r| == |records|
    ensures forall i | 0 <= i < |records| :: r[i] == (IntToString(start + i), ExpectedGroup(records[i], pid))
  {
    seq(|records|, i requires 0 <= i < |records| => (IntToString(start + i), ExpectedGroup(records[i], pid)))
  }

  lemma ExpectedGroupsCons(records: seq<seq<Field>>, pid: int, start: nat)
    requires |records| > 0 && forall i | 0 <= i < |records| :: AreaShaped(records[i])
    ensures ExpectedGroups(records, pid, start) ==
              [(IntToString(start), ExpectedGroup(records[0], pid))] + ExpectedGroups(records[1..], pid, start + 1)
  {
    var a := ExpectedGroups(records, pid, start);
    var t := ExpectedGroups(records[1..], pid, start + 1);
    var b := [(IntToString(start), ExpectedGroup(records[0], pid))] + t;
    forall i | 0 <= i < |a| ensures a[i] == b[i] {
      if i > 0 {
        ExpectedGroupsShift(records, pid, start, i);
      }
    }
  }

  lemma ExpectedGroupsShift(records: seq<seq<Field>>, pid: int, start: nat, i: nat)
    requires 0 < i < |records| && forall k | 0 <= k < |records| :: AreaShaped(records[k])
    ensures ExpectedGroups(records, pid, start)[i] == ExpectedGroups(records[1..], pid, start + 1)[i - 1]
  {
    assert records[1..][i - 1] == records[i];
    assert start + 1 + (i - 1) == start + i;
  }

  /** The key of field f in record i. */
  function IndexedKey(f: string, i: nat): string
  {
    f + IntToString(i)
  }

  /** A split that takes apart every key of records numbered below bound. */
  ghost predicate SplitsUpTo(split: string -> Option<(string, string)>, bound: nat)
  {
    forall f, i: nat | FieldName(f) && i < bound :: split(IndexedKey(f, i)) == Some((f, IntToString(i)))
  }

  lemma SplitsUpToFewer(split: string -> Option<(string, string)>, a: nat, b: nat)
    requires a <= b && SplitsUpTo(split, b)
    ensures SplitsUpTo(split, a)
  {
  }

  /** The groups hold only indices that read as numbers below bound. */
  predicate IndicesBelow(gs: Groups, bound: nat)
  {
    forall j | 0 <= j < |gs| :: IntVal(gs[j].0) < bound
  }

  lemma IntToStringInjective(a: int, b: int)
    requires IntToString(a) == IntToString(b)
    ensures a == b
  {
    IntToStringParses(a, "");
    IntToStringParses(b, "");
    assert IntToString(a) + "" == IntToString(a);
    assert IntToString(b) + "" == IntToString(b);
  }

  lemma PidIsFieldName()
    ensures FieldName("pid")
  {
    var p := "pid";
    assert p[0] == 'p' && p[1] == 'i' && p[2] == 'd';
    assert forall k | 0 <= k < |p| :: IsWordChar(p[k]);
  }

  lemma AreaFieldNamesAreFieldNames()
    ensures forall j | 0 <= j < 5 :: FieldName(AreaFieldNames[j])
  {
    assert FieldName("area_id") && FieldName("polygon") && FieldName("z");
    assert FieldName("lbound") && FieldName("ubound");
  }

  /** Later fields of a record overwrite earlier ones of the same name. */
  function MapInto(m: Group, rec: seq<Field>): Group
    decreases |rec|
  {
    if rec == [] then m else MapInto(m[rec[0].0 := rec[0].1], rec[1..])
  }

  lemma ExpectedGroupIsMapInto(rec: seq<Field>, pid: int)
    requires AreaShaped(rec)
    ensures MapInto(map["pid" := IntToString(pid)], rec) == ExpectedGroup(rec, pid)
  {
    var m0 := map["pid" := IntToString(pid)];
    var m1 := m0["area_id" := rec[0].1];
    var m2 := m1["polygon" := rec[1].1];
    var m3 := m2["z" := rec[2].1];
    var m4 := m3["lbound" := rec[3].1];
    var m5 := m4["ubound" := rec[4].1];
    assert rec[0].0 == "area_id" && rec[1].0 == "polygon" && rec[2].0 == "z";
    assert rec[3].0 == "lbound" && rec[4].0 == "ubound";
    assert MapInto(m0, rec) == MapInto(m1, rec[1..]);
    assert MapInto(m1, rec[1..]) == MapInto(m2, rec[2..]) by { assert rec[1..][1..] == rec[2..]; }
    assert MapInto(m2, rec[2..]) == MapInto(m3, rec[3..]) by { assert rec[2..][1..] == rec[3..]; }
    assert MapInto(m3, rec[3..]) == MapInto(m4, rec[4..]) by { assert rec[3..][1..] == rec[4..]; }
    assert MapInto(m4, rec[4..]) == MapInto(m5, rec[5..]) by { assert rec[4..][1..] == rec[5..]; }
    assert rec[5..] == [];
  }

  /** Once the group of index s is the last one, filing the rest of a
      record's keys under s only extends that group. */
  lemma {:induction false} FillLastGroup(gs: Groups, s: string, m: Group, rec: seq<Field>,
                                         split: string -> Option<(string, string)>)
    requires forall j | 0 <= j < |rec| :: split(rec[j].0 + s) == Some((rec[j].0, s))
    ensures GroupFrom(gs + [(s, m)], LegacyOverlay.Suffixed(rec, s), split) == gs + [(s, MapInto(m, rec))]
    decreases |rec|
  {
    var keys := LegacyOverlay.Suffixed(rec, s);
    if rec != [] {
      assert split(keys[0].0) == Some((rec[0].0, s));
      assert IndexOf(gs + [(s, m)], s) == Some(|gs|);
      var m1 := m[rec[0].0 := rec[0].1];
      assert AddEntry(gs + [(s, m)], s, rec[0].0, rec[0].1) == gs + [(s, m1)];
      assert keys[1..] == LegacyOverlay.Suffixed(rec[1..], s);
      FillLastGroup(gs, s, m1, rec[1..], split);
    }
  }

  lemma SplitsAt(split: string -> Option<(string, string)>, bound: nat, f: string, i: nat)
    requires SplitsUpTo(split, bound) && FieldName(f) && i < bound
    ensures split(f + IntToString(i)) == Some((f, IntToString(i)))
  {
    assert split(IndexedKey(f, i)) == Some((f, IntToString(i)));
  }

  /** Every field key of an area record numbered i splits back. */
  lemma RecordKeysSplit(rec: seq<Field>, i: nat, split: string -> Option<(string, string)>)
    requires AreaShaped(rec) && SplitsUpTo(split, i + 1)
    ensures forall j | 0 <= j < |rec| :: split(rec[j].0 + IntToString(i)) == Some((rec[j].0, IntToString(i)))
  {
    AreaFieldNamesAreFieldNames();
    forall j | 0 <= j < |rec| ensures split(rec[j].0 + IntToString(i)) == Some((rec[j].0, IntToString(i))) {
      assert FieldName(rec[j].0);
      SplitsAt(split, i + 1, rec[j].0, i);
    }
  }

  /** Filing a single entry. */
  lemma GroupFromOne(gs: Groups, key: string, value: string, split: string -> Option<(string, string)>)
    ensures GroupFrom(gs, [(key, value)], split) ==
            AddEntry(gs, split(key).GetOr(("", "")).1, split(key).GetOr(("", "")).0, value)
  {
    var req: seq<Field> := [(key, value)];
    assert req[0].0 == key && req[0].1 == value && req[1..] == [];
  }

  /** An entry under a fresh index opens a new group at the end. */
  lemma AddEntryFresh(gs: Groups, index: string, field: string, value: string)
    requires forall j | 0 <= j < |gs| :: gs[j].0 != index
    ensures AddEntry(gs, index, field, value) == gs + [(index, map[field := value])]
  {
  }

  /** The pid key of record i opens the record's group. */
  lemma PidKeyOpens(gs: Groups, pid: int, i: nat, split: string -> Option<(string, string)>)
    requires split("pid" + IntToString(i)) == Some(("pid", IntToString(i)))
    requires forall j | 0 <= j < |gs| :: gs[j].0 != IntToString(i)
    ensures GroupFrom(gs, [("pid" + IntToString(i), IntToString(pid))], split)
            == gs + [(IntToString(i), map["pid" := IntToString(pid)])]
  {
    GroupFromOne(gs, "pid" + IntToString(i), IntToString(pid), split);
    AddEntryFresh(gs, IntToString(i), "pid", IntToString(pid));
  }

  /** Filing the keys of one record under a fresh index opens one group
      holding exactly the record. */
  lemma ChunkGroups(gs: Groups, rec: seq<Field>, pid: int, i: nat, split: string -> Option<(string, string)>)
    requires AreaShaped(rec) && SplitsUpTo(split, i + 1)
    requires forall j | 0 <= j < |gs| :: gs[j].0 != IntToString(i)
    ensures GroupFrom(gs, [("pid" + IntToString(i), IntToString(pid))] + LegacyOverlay.Suffixed(rec, IntToString(i)), split)
            == gs + [(IntToString(i), ExpectedGroup(rec, pid))]
  {
    var s := IntToString(i);
    var first := [("pid" + s, IntToString(pid))];
    var m0 := map["pid" := IntToString(pid)];
    GroupFromAppend(gs, first, LegacyOverlay.Suffixed(rec, s), split);
    PidIsFieldName();
    SplitsAt(split, i + 1, "pid", i);
    PidKeyOpens(gs, pid, i, split);
    RecordKeysSplit(rec, i, split);
    FillLastGroup(gs, s, m0, rec, split);
    ExpectedGroupIsMapInto(rec, pid);
  }

  /** Filing the whole flattened request of records numbered from start
      appends one group per record, in record order. */
  lemma {:induction false} FlattenGroups(gs: Groups, records: seq<seq<Field>>, pid: int, start: nat,
                                         split: string -> Option<(string, string)>)
    requires forall i | 0 <= i < |records| :: AreaShaped(records[i])
    requires SplitsUpTo(split, start + |records|)
    requires IndicesBelow(gs, start)
    ensures GroupFrom(gs, LegacyOverlay.FlattenFrom(records, pid, start), split) == gs + ExpectedGroups(records, pid, start)
    decreases |records|
  {
    if records == [] {
      assert gs + ExpectedGroups(records, pid, start) == gs;
    } else {
      var x := (IntToString(start), ExpectedGroup(records[0], pid));
      FreshAfter(gs, ExpectedGroup(records[0], pid), start);
      SplitsUpToFewer(split, start + 1, start + |records|);
      FlattenStep(gs, records, pid, start, split);
      FlattenGroups(gs + [x], records[1..], pid, start + 1, split);
      ExpectedGroupsCons(records, pid, start);
      AppendOne(gs, x, ExpectedGroups(records[1..], pid, start + 1));
    }
  }

  lemma AppendOne<T>(a: seq<T>, x: T, b: seq<T>)
    ensures (a + [x]) + b == a + ([x] + b)
  {
  }

  /** The first record of a flattened request opens its group. */
  lemma FlattenStep(gs: Groups, records: seq<seq<Field>>, pid: int, start: nat,
                    split: string -> Option<(string, string)>)
    requires |records| > 0 && forall i | 0 <= i < |records| :: AreaShaped(records[i])
    requires SplitsUpTo(split, start + 1)
    requires forall j | 0 <= j < |gs| :: gs[j].0 != IntToString(start)
    ensures GroupFrom(gs, LegacyOverlay.FlattenFrom(records, pid, start), split) ==
            GroupFrom(gs + [(IntToString(start), ExpectedGroup(records[0], pid))],
                      LegacyOverlay.FlattenFrom(records[1..], pid, start + 1), split)
  {
    var s := IntToString(start);
    var chunk := [("pid" + s, IntToString(pid))] + LegacyOverlay.Suffixed(records[0], s);
    var rest := LegacyOverlay.FlattenFrom(records[1..], pid, start + 1);
    assert LegacyOverlay.FlattenFrom(records, pid, start) == chunk + rest;
    GroupFromAppend(gs, chunk, rest, split);
    ChunkGroups(gs, records[0], pid, start, split);
  }

  /** The index start is fresh, and once used the indices stay below
      start + 1. */
  lemma FreshAfter(gs: Groups, g: Group, start: nat)
    requires IndicesBelow(gs, start)
    ensures forall j | 0 <= j < |gs| :: gs[j].0 != IntToString(start)
    ensures IndicesBelow(gs + [(IntToString(start), g)], start + 1)
  {
    IntToStringParses(start, "");
    assert IntToString(start) + "" == IntToString(start);
    var gs1 := gs + [(IntToString(start), g)];
    assert gs1[|gs|].0 == IntToString(start);
    assert forall j | 0 <= j < |gs| :: gs1[j] == gs[j];
  }

  lemma ExpectedGroupOk(rec: seq<Field>, pid: int)
    requires AreaShaped(rec) && pid != 0
    ensures GroupOk(ExpectedGroup(rec, pid))
    ensures UpdateOf(ExpectedGroup(rec, pid)) == PolygonUpdate(IntVal(rec[0].1), FloatVal(rec[2].1), rec[1].1, rec[3].1, rec[4].1)
  {
    ExpectedGroupKeys(rec, pid);
    IntToStringParses(pid, "");
    assert IntToString(pid) + "" == IntToString(pid);
  }

  /** The expected group has every required key, with the record's values. */
  lemma ExpectedGroupKeys(rec: seq<Field>, pid: int)
    requires AreaShaped(rec)
    ensures FirstMissing(ExpectedGroup(rec, pid), RequiredKeys).None?
    ensures var g := ExpectedGroup(rec, pid);
            g["pid"] == IntToString(pid) && g["area_id"] == rec[0].1 && g["polygon"] == rec[1].1 &&
            g["z"] == rec[2].1 && g["lbound"] == rec[3].1 && g["ubound"] == rec[4].1
  {
    var g := ExpectedGroup(rec, pid);
    assert forall j | 0 <= j < |RequiredKeys| :: RequiredKeys[j] in g;
  }

  /** The update a record asks for. */
  function RecordUpdate(rec: seq<Field>): PolygonUpdate
    requires AreaShaped(rec)
  {
    PolygonUpdate(IntVal(rec[0].1), FloatVal(rec[2].1), rec[1].1, rec[3].1, rec[4].1)
  }

  /** Given groups that are all written, the loop writes each one and
      reports them all, whatever index an error would have named. */
  lemma ProcessAllOk(gs: Groups, reported: Option<string>)
    requires forall j | 0 <= j < |gs| :: GroupOk(gs[j].1)
    ensures Process(gs, reported).1 == Updated(|gs|)
    ensures |Process(gs, reported).0| == |gs|
    ensures Process(gs, reported) == Process(gs, None)
  {
    var r := Process(gs, reported);
    var q := Process(gs, None);
    assert |r.0| == |gs| && |q.0| == |gs|;
    assert forall j | 0 <= j < |gs| :: r.0[j] == q.0[j];
  }

  /** The round trip: the request the overlay sends for a list of area
      records, read by the corrected endpoint of a logged-in user, writes
      exactly those records, in order, and reports them all. */
  lemma AreaUpdateRoundTrip(uid: int, records: seq<seq<Field>>, pid: int)
    requires uid != 0 && pid != 0
    requires forall i | 0 <= i < |records| :: AreaShaped(records[i])
    ensures AreaUpdate(uid, LegacyOverlay.Flatten(records, pid)).1 == Updated(|records|)
    ensures AreaUpdate(uid, LegacyOverlay.Flatten(records, pid)).0 ==
              seq(|records|, i requires 0 <= i < |records| => RecordUpdate(records[i]))
  {
    SplitKeySplitsAll(|records|);
    FlattenGroups([], records, pid, 0, SplitKey);
    var gs := ExpectedGroups(records, pid, 0);
    assert [] + gs == gs;
    ExpectedGroupsAllOk(records, pid);
    ProcessAllOk(gs, None);
  }

  lemma SplitKeySplitsAll(bound: nat)
    ensures SplitsUpTo(SplitKey, bound)
  {
    forall f, i: nat | FieldName(f) && i < bound ensures SplitKey(IndexedKey(f, i)) == Some((f, IntToString(i))) {
      SplitKeyRoundTrip(f, i);
    }
  }

  /** Every expected group is written, as the update its record asks for. */
  lemma ExpectedGroupsAllOk(records: seq<seq<Field>>, pid: int)
    requires pid != 0 && forall i | 0 <= i < |records| :: AreaShaped(records[i])
    ensures forall j | 0 <= j < |records| :: GroupOk(ExpectedGroups(records, pid, 0)[j].1) &&
              UpdateOf(ExpectedGroups(records, pid, 0)[j].1) == RecordUpdate(records[j])
  {
    var gs := ExpectedGroups(records, pid, 0);
    forall j | 0 <= j < |gs| ensures GroupOk(gs[j].1) && UpdateOf(gs[j].1) == RecordUpdate(records[j]) {
      ExpectedGroupOk(records[j], pid);
    }
  }


  /** f is the update record of a dirty area. */
  ghost predicate RecordOfDirty(areas: map<int, LegacyOverlay.LArea>, s: real, num: real -> string, undef: string, f: seq<Field>)
    requires s != 0.0
  {
    exists k | k in areas :: areas[k].needsync && LegacyOverlay.AreaWellFormed(areas[k]) &&
                             f == LegacyOverlay.AreaFields(areas[k], s, num, undef)
  }

  /** Records that are each the update record of some dirty area are
      written one row per record, under that area's id. */
  lemma DirtyRecordsWritten(uid: int, areas: map<int, LegacyOverlay.LArea>, s: real,
                            num: real -> string, undef: string, pid: int, recs: seq<seq<Field>>)
    requires uid != 0 && pid != 0 && s != 0.0
    requires forall i | 0 <= i < |recs| :: RecordOfDirty(areas, s, num, undef, recs[i])
    ensures AreaUpdate(uid, LegacyOverlay.Flatten(recs, pid)).1 == Updated(|recs|)
    ensures forall j | 0 <= j < |AreaUpdate(uid, LegacyOverlay.Flatten(recs, pid)).0| :: exists k | k in areas ::
              areas[k].needsync && AreaUpdate(uid, LegacyOverlay.Flatten(recs, pid)).0[j].id == areas[k].id
  {
    forall i | 0 <= i < |recs| ensures AreaShaped(recs[i]) {
      var k :| k in areas && areas[k].needsync && LegacyOverlay.AreaWellFormed(areas[k]) &&
               recs[i] == LegacyOverlay.AreaFields(areas[k], s, num, undef);
      RecordUpdateId(areas[k], s, num, undef);
    }
    AreaUpdateRoundTrip(uid, recs, pid);
    var r := AreaUpdate(uid, LegacyOverlay.Flatten(recs, pid));
    forall j | 0 <= j < |r.0| ensures exists k | k in areas :: areas[k].needsync && r.0[j].id == areas[k].id {
      var k :| k in areas && areas[k].needsync && LegacyOverlay.AreaWellFormed(areas[k]) &&
               recs[j] == LegacyOverlay.AreaFields(areas[k], s, num, undef);
      RecordUpdateId(areas[k], s, num, undef);
    }
  }

  /** The row an area's record updates is the area's own. */
  lemma RecordUpdateId(a: LegacyOverlay.LArea, s: real, num: real -> string, undef: string)
    requires LegacyOverlay.AreaWellFormed(a) && s != 0.0
    ensures AreaShaped(LegacyOverlay.AreaFields(a, s, num, undef))
    ensures RecordUpdate(LegacyOverlay.AreaFields(a, s, num, undef)).id == a.id
  {
    IntToStringParses(a.id, "");
    assert IntToString(a.id) + "" == IntToString(a.id);
  }

  /** The endpoint reads an undefined z, sent as "" or as "undefined", as 0. */
  lemma UndefinedSectionReadsZero(undef: string)
    requires undef == "" || undef == "undefined"
    ensures FloatVal(undef) == 0.0
  {
    if undef == "undefined" {
      assert SkipSpaces(undef) == undef;
      assert DigitRun(undef) == 0 && undef[0] != '.';
      assert undef[..0] == [] && DigitsValue([]) == 0;
    }
  }

  /** An area without a section is written with the z the endpoint reads
      from the text sent for undefined. */
  lemma UnsectionedAreaWritesUndefined(a: LegacyOverlay.LArea, s: real, num: real -> string, undef: string)
    requires LegacyOverlay.AreaWellFormed(a) && s != 0.0 && a.z.None?
    ensures AreaShaped(LegacyOverlay.AreaFields(a, s, num, undef))
    ensures RecordUpdate(LegacyOverlay.AreaFields(a, s, num, undef)).z == FloatVal(undef)
  {
    RecordUpdateId(a, s, num, undef);
  }

  /** As written, an area the overlay refreshed has no section: once it
      is edited and flushed, the row written for it lands in section 0
      when the request queue sends undefined as "" or as "undefined". */
  lemma RefreshedAreaStoredAtSectionZero(rows: seq<LegacyOverlay.AreaRow>, aa: Option<int>, s: real,
                                         num: real -> string, undef: string, k: int)
    requires s != 0.0 && (undef == "" || undef == "undefined")
    requires forall i | 0 <= i < |rows| :: |rows[i].x| == |rows[i].y|
    requires k in LegacyOverlay.RefreshAreas(rows, aa, s).0
    ensures var a := LegacyOverlay.RefreshAreas(rows, aa, s).0[k].(needsync := true);
            LegacyOverlay.AreaWellFormed(a) && AreaShaped(LegacyOverlay.AreaFields(a, s, num, undef)) &&
            RecordUpdate(LegacyOverlay.AreaFields(a, s, num, undef)).z == 0.0
  {
    var a := LegacyOverlay.RefreshAreas(rows, aa, s).0[k].(needsync := true);
    var i :| 0 <= i < |rows| && rows[i].id == k && a.xs == LegacyOverlay.Scaled(rows[i].x, s) &&
             a.ys == LegacyOverlay.Scaled(rows[i].y, s) && a.z.None?;
    UnsectionedAreaWritesUndefined(a, s, num, undef);
    UndefinedSectionReadsZero(undef);
  }

  /** Corrected: an area refreshed with its section and then flushed is
      written in its record's section, provided num prints that section so
      that the endpoint reads it back. */
  lemma RefreshedSectionWritten(rows: seq<LegacyOverlay.AreaRow>, aa: Option<int>, s: real,
                                num: real -> string, undef: string, k: int)
    requires s != 0.0
    requires forall i | 0 <= i < |rows| :: |rows[i].x| == |rows[i].y| && FloatVal(num(rows[i].z)) == rows[i].z
    requires k in LegacyOverlay.RefreshAreasWithSections(rows, aa, s).0
    ensures var a := LegacyOverlay.RefreshAreasWithSections(rows, aa, s).0[k].(needsync := true);
            LegacyOverlay.AreaWellFormed(a) && AreaShaped(LegacyOverlay.AreaFields(a, s, num, undef)) &&
            exists i | 0 <= i < |rows| :: rows[i].id == k &&
              RecordUpdate(LegacyOverlay.AreaFields(a, s, num, undef)).z == rows[i].z
  {
    var a := LegacyOverlay.RefreshAreasWithSections(rows, aa, s).0[k].(needsync := true);
    var i :| 0 <= i < |rows| && rows[i].id == k && a.xs == LegacyOverlay.Scaled(rows[i].x, s) &&
             a.ys == LegacyOverlay.Scaled(rows[i].y, s) && a.z == Some(rows[i].z);
    RecordUpdateId(a, s, num, undef);
  }

  /** End to end: whatever dirty areas the overlay flushes, the corrected
      endpoint writes one row per dirty area, under that area's id, and
      reports them all. */
  lemma OverlayFlushWritesEveryDirtyArea(uid: int, areas: map<int, LegacyOverlay.LArea>, s: real,
                                         num: real -> string, undef: string, pid: int)
    requires uid != 0 && pid != 0 && s != 0.0
    requires forall k | k in areas :: LegacyOverlay.AreaWellFormed(areas[k])
    ensures var flushed := LegacyOverlay.UpdateAreasInDB(areas, s, num, undef).1;
            flushed.Some? ==>
              var recs := flushed.value;
              AreaUpdate(uid, LegacyOverlay.Flatten(recs, pid)).1 == Updated(|recs|) &&
              forall j | 0 <= j < |AreaUpdate(uid, LegacyOverlay.Flatten(recs, pid)).0| :: exists k | k in areas ::
                areas[k].needsync && AreaUpdate(uid, LegacyOverlay.Flatten(recs, pid)).0[j].id == areas[k].id
  {
    var flushed := LegacyOverlay.UpdateAreasInDB(areas, s, num, undef).1;
    if flushed.None? { return; }
    var recs := flushed.value;
    forall i | 0 <= i < |recs| ensures RecordOfDirty(areas, s, num, undef, recs[i]) {
      assert recs[i] in recs;
    }
    DirtyRecordsWritten(uid, areas, s, num, undef, pid, recs);
  }

  /** For at most ten records the greedy endpoint does the same. */
  lemma AreaUpdateAsWrittenUpToTen(uid: int, records: seq<seq<Field>>, pid: int)
    requires uid != 0 && pid != 0 && |records| <= 10
    requires forall i | 0 <= i < |records| :: AreaShaped(records[i])
    ensures AreaUpdateAsWritten(uid, LegacyOverlay.Flatten(records, pid)) == AreaUpdate(uid, LegacyOverlay.Flatten(records, pid))
  {
    var req := LegacyOverlay.Flatten(records, pid);
    assert SplitsUpTo(SplitKeyAsWritten, |records|) by {
      forall f, i: nat | FieldName(f) && i < |records| ensures SplitKeyAsWritten(f + IntToString(i)) == Some((f, IntToString(i))) {
        SplitKeyAsWrittenSmall(f, i);
      }
    }
    assert SplitsUpTo(SplitKey, |records|) by {
      forall f, i: nat | FieldName(f) && i < |records| ensures SplitKey(f + IntToString(i)) == Some((f, IntToString(i))) {
        SplitKeyRoundTrip(f, i);
      }
    }
    FlattenGroups([], records, pid, 0, SplitKeyAsWritten);
    FlattenGroups([], records, pid, 0, SplitKey);
    var gs := ExpectedGroups(records, pid, 0);
    assert [] + gs == gs;
    forall j | 0 <= j < |gs| ensures GroupOk(gs[j].1) {
      ExpectedGroupOk(records[j], pid);
    }
    ProcessAllOk(gs, Some(LastIndex(req, SplitKeyAsWritten)));
  }

  // ---------------------------------------------------------------------
  // What the greedy split does to longer requests

  /** The groups the greedy split can produce: indices are single digits,
      except that keys that do not match land in the group with the empty
      index under the empty field. */
  predicate GreedyGroups(gs: Groups)
  {
    && DistinctIndices(gs)
    && forall j | 0 <= j < |gs| ::
         (gs[j].0 == "" ==> gs[j].1.Keys <= {""}) &&
         (gs[j].0 != "" ==> |gs[j].0| == 1 && IsDigit(gs[j].0[0]))
  }

  lemma {:induction false} GroupFromGreedy(gs: Groups, req: seq<Field>)
    requires GreedyGroups(gs)
    ensures GreedyGroups(GroupFrom(gs, req, SplitKeyAsWritten))
    decreases |req|
  {
    if req != [] {
      var (field, index) := SplitKeyAsWritten(req[0].0).GetOr(("", ""));
      var next := AddEntry(gs, index, field, req[0].1);
      assert index == "" ==> field == "";
      GroupFromGreedy(next, req[1..]);
    }
  }

  lemma DistinctDigitsBound(s: seq<char>, allowed: set<char>)
    requires forall j | 0 <= j < |s| :: s[j] in allowed
    requires forall j, k | 0 <= j < k < |s| :: s[j] != s[k]
    ensures |s| <= |allowed|
    decreases |s|
  {
    if s != [] {
      DistinctDigitsBound(s[1..], allowed - {s[0]});
    }
  }

  lemma SingleChars(a: string, b: string)
    requires |a| == 1 && |b| == 1 && a[0] == b[0]
    ensures a == b
  {
  }

  /** Groups with distinct one-digit indices number at most ten. */
  lemma GreedyGroupsBound(gs: Groups)
    requires GreedyGroups(gs) && forall j | 0 <= j < |gs| :: gs[j].0 != ""
    ensures |gs| <= 10
  {
    var digits := seq(|gs|, j requires 0 <= j < |gs| => gs[j].0[0]);
    var allowed := {'0', '1', '2', '3', '4', '5', '6', '7', '8', '9'};
    forall j | 0 <= j < |gs| ensures digits[j] in allowed {
      assert IsDigit(gs[j].0[0]);
    }
    forall j, k | 0 <= j < k < |gs| ensures digits[j] != digits[k] {
      if digits[j] == digits[k] {
        SingleChars(gs[j].0, gs[k].0);
      }
    }
    DistinctDigitsBound(digits, allowed);
  }

  /** However many areas the overlay sends, the greedy endpoint reports at
      most ten rows updated: every index it sees is a single digit. */
  lemma AreaUpdateAsWrittenAtMostTen(uid: int, req: seq<Field>)
    ensures AreaUpdateAsWritten(uid, req).1.Updated? ==> AreaUpdateAsWritten(uid, req).1.count <= 10
  {
    if uid != 0 {
      var gs := GroupFrom([], req, SplitKeyAsWritten);
      GroupFromGreedy([], req);
      var r := Process(gs, Some(LastIndex(req, SplitKeyAsWritten)));
      if r.1.Updated? {
        forall j | 0 <= j < |gs| ensures gs[j].0 != "" {
          assert GroupOk(gs[j].1);
          assert "pid" in gs[j].1 by {
            assert RequiredKeys[0] == "pid";
          }
        }
        GreedyGroupsBound(gs);
      }
    }
  }

  /** Eleven area records: the corrected endpoint writes all eleven, the
      greedy one at most ten. */
  lemma ElevenAreasLoseOne(uid: int, records: seq<seq<Field>>, pid: int)
    requires uid != 0 && pid != 0 && |records| == 11
    requires forall i | 0 <= i < |records| :: AreaShaped(records[i])
    ensures AreaUpdate(uid, LegacyOverlay.Flatten(records, pid)).1 == Updated(11)
    ensures AreaUpdateAsWritten(uid, LegacyOverlay.Flatten(records, pid)).1 != Updated(11)
  {
    AreaUpdateRoundTrip(uid, records, pid);
    AreaUpdateAsWrittenAtMostTen(uid, LegacyOverlay.Flatten(records, pid));
  }

  /** A request whose first group lacks its area id while the second is
      complete: the error names the last key's index, 1, although it is
      group 0 that is incomplete; the corrected endpoint names 0. */
  lemma MissingKeyNamesWrongIndex()
    ensures AreaUpdateAsWritten(1, [("pid0", "1"), ("pid1", "1")]).1 == MissingKey("area_id", "1")
    ensures AreaUpdate(1, [("pid0", "1"), ("pid1", "1")]).1 == MissingKey("area_id", "0")
  {
    var req: seq<Field> := [("pid0", "1"), ("pid1", "1")];
    PidKeysSplit();
    TwoPidGroups(SplitKeyAsWritten);
    TwoPidGroups(SplitKey);
    assert FirstMissing(map["pid" := "1"], RequiredKeys) == Some("area_id");
    assert LastIndex(req, SplitKeyAsWritten) == "1";
  }

  /** Both splits take "pid0" and "pid1" apart alike. */
  lemma PidKeysSplit()
    ensures SplitKeyAsWritten("pid0") == Some(("pid", "0")) && SplitKeyAsWritten("pid1") == Some(("pid", "1"))
    ensures SplitKey("pid0") == Some(("pid", "0")) && SplitKey("pid1") == Some(("pid", "1"))
  {
    PidIsFieldName();
    SplitKeyAsWrittenSmall("pid", 0);
    SplitKeyAsWrittenSmall("pid", 1);
    SplitKeyRoundTrip("pid", 0);
    SplitKeyRoundTrip("pid", 1);
    assert IntToString(0) == "0" && IntToString(1) == "1";
    assert "pid" + "0" == "pid0" && "pid" + "1" == "pid1";
  }

  /** Two project ids numbered 0 and 1 make two groups holding only them. */
  lemma TwoPidGroups(split: string -> Option<(string, string)>)
    requires split("pid0") == Some(("pid", "0")) && split("pid1") == Some(("pid", "1"))
    ensures GroupFrom([], [("pid0", "1"), ("pid1", "1")], split) == [("0", map["pid" := "1"]), ("1", map["pid" := "1"])]
  {
    var req: seq<Field> := [("pid0", "1"), ("pid1", "1")];
    var g0: Groups := [("0", map["pid" := "1"])];
    assert GroupFrom([], req, split) == GroupFrom(g0, req[1..], split);
    assert IndexOf(g0, "1").None?;
    var g1: Groups := g0 + [("1", map["pid" := "1"])];
    assert GroupFrom(g0, req[1..], split) == GroupFrom(g1, [], split);
  }
}
