/** The Ilastik data layer, django/applications/catmaid/static/layers/ilastik_layer.js:
    its rows of detected synapses are grouped by section when the layer is
    made, and a redraw marks the rows of the current section. Drawing is
    reduced to the screen positions of the marks. */
module IlastikLayer {

  /** One row of Ilastik output: column 3 is the section (z), columns 1
      and 2 the synapse's stack position, columns 8 and 9 the position of
      the node it refers to. */
  datatype Row = Row(values: seq<real>)

  /** A row carries every column the layer reads. */
  predicate Complete(r: Row)
  {
    |r.values| >= 10
  }

  function Section(r: Row): real
    requires Complete(r)
  {
    r.values[3]
  }

  /** The rows of section z, in input order. */
  function RowsAt(rows: seq<Row>, z: real): (rs: seq<Row>)
    requires forall i :: 0 <= i < |rows| ==> Complete(rows[i])
    ensures forall i :: 0 <= i < |rs| ==> Complete(rs[i]) && Section(rs[i]) == z
    ensures |rs| <= |rows|
  {
    if |rows| == 0 then []
    else (if Section(rows[0]) == z then [rows[0]] else []) + RowsAt(rows[1..], z)
  }

  function Lookup(o: map<real, seq<Row>>, z: real): seq<Row>
  {
    if z in o then o[z] else []
  }

  /** The reduce of the constructor: each row is pushed onto the list of
      its section, a new section starting a new list. */
  function Bucket(o: map<real, seq<Row>>, rows: seq<Row>): map<real, seq<Row>>
    requires forall i :: 0 <= i < |rows| ==> Complete(rows[i])
    decreases |rows|
  {
    if |rows| == 0 then o
    else
      var z := Section(rows[0]);
      Bucket(o[z := Lookup(o, z) + [rows[0]]], rows[1..])
  }

  /** The layer's data: section to its rows. */
  function Buckets(rows: seq<Row>): map<real, seq<Row>>
    requires forall i :: 0 <= i < |rows| ==> Complete(rows[i])
  {
    Bucket(map[], rows)
  }

  lemma {:induction false} BucketCollects(o: map<real, seq<Row>>, rows: seq<Row>, z: real)
    requires forall i :: 0 <= i < |rows| ==> Complete(rows[i])
    ensures z in Bucket(o, rows) <==> z in o || exists i :: 0 <= i < |rows| && Section(rows[i]) == z
    ensures Lookup(Bucket(o, rows), z) == Lookup(o, z) + RowsAt(rows, z)
    decreases |rows|
  {
    if |rows| > 0 {
      var r := rows[0];
      var o' := o[Section(r) := Lookup(o, Section(r)) + [r]];
      BucketCollects(o', rows[1..], z);
      if Section(r) == z {
        assert Lookup(o', z) == Lookup(o, z) + [r];
        assert RowsAt(rows, z) == [r] + RowsAt(rows[1..], z);
        assert Lookup(o, z) + [r] + RowsAt(rows[1..], z) == Lookup(o, z) + ([r] + RowsAt(rows[1..], z));
      } else {
        assert Lookup(o', z) == Lookup(o, z);
        assert RowsAt(rows, z) == RowsAt(rows[1..], z);
      }
      if exists i :: 0 <= i < |rows[1..]| && Section(rows[1..][i]) == z {
        var i :| 0 <= i < |rows[1..]| && Section(rows[1..][i]) == z;
        assert rows[i + 1] == rows[1..][i];
      }
      if exists i :: 0 <= i < |rows| && Section(rows[i]) == z {
        var i :| 0 <= i < |rows| && Section(rows[i]) == z;
        if i > 0 { assert rows[1..][i - 1] == rows[i]; }
      }
    }
  }

  /** Every section of some row has a bucket, no other section does, and a
      bucket holds exactly the rows of its section in input order. */
  lemma BucketsBySection(rows: seq<Row>, z: real)
    requires forall i :: 0 <= i < |rows| ==> Complete(rows[i])
    ensures z in Buckets(rows) <==> exists i :: 0 <= i < |rows| && Section(rows[i]) == z
    ensures Lookup(Buckets(rows), z) == RowsAt(rows, z)
  {
    BucketCollects(map[], rows, z);
  }

  lemma {:induction false} InRowsAt(rows: seq<Row>, z: real, r: Row)
    requires forall i :: 0 <= i < |rows| ==> Complete(rows[i])
    ensures r in RowsAt(rows, z) <==> r in rows && Section(r) == z
    decreases |rows|
  {
    if |rows| > 0 {
      InRowsAt(rows[1..], z, r);
      assert r in rows <==> r == rows[0] || r in rows[1..] by {
        assert rows == [rows[0]] + rows[1..];
      }
    }
  }

  /** Each row lies in the bucket of its own section and in no other. */
  lemma RowInOneBucket(rows: seq<Row>, i: int, z: real)
    requires forall k :: 0 <= k < |rows| ==> Complete(rows[k])
    requires 0 <= i < |rows|
    ensures rows[i] in Lookup(Buckets(rows), z) <==> z == Section(rows[i])
  {
    BucketsBySection(rows, z);
    InRowsAt(rows, z, rows[i]);
  }

  // ---------------------------------------------------------------------
  // redraw

  /** What a redraw reads of the stack: its position and section, scale,
      and the size of its view. */
  datatype StackView = StackView(x: real, y: real, z: int, scale: real, viewWidth: real, viewHeight: real)

  /** A synapse mark: the circle at (x1, y1) and the line to (x2, y2). */
  datatype Mark = Mark(x1: real, y1: real, x2: real, y2: real)

  datatype Drawing = Drawing(cleared: bool, marks: seq<Mark>, callbackInvoked: bool)

  function ScreenX(s: StackView, x: real): real
  {
    (x - s.x) * s.scale + s.viewWidth * 0.5
  }

  function ScreenY(s: StackView, y: real): real
  {
    (y - s.y) * s.scale + s.viewHeight * 0.5
  }

  function MarkOf(s: StackView, r: Row): Mark
    requires Complete(r)
  {
    Mark(ScreenX(s, r.values[1]), ScreenY(s, r.values[2]), ScreenX(s, r.values[8]), ScreenY(s, r.values[9]))
  }

  /** redraw: the paper is cleared, each row of the current section gets a
      mark, and the completion callback runs when one is given. */
  function Redraw(data: map<real, seq<Row>>, s: StackView, hasCallback: bool): (d: Drawing)
    requires forall z :: z in data ==> forall i :: 0 <= i < |data[z]| ==> Complete(data[z][i])
    ensures d.cleared && d.callbackInvoked == hasCallback
    ensures |d.marks| == |Lookup(data, s.z as real)|
  {
    var rows := Lookup(data, s.z as real);
    Drawing(true, seq(|rows|, i requires 0 <= i < |rows| => MarkOf(s, rows[i])), hasCallback)
  }

  /** The layer marks exactly the rows of the stack's section, in input
      order, each at its screen position; a section without rows draws
      nothing. */
  lemma RedrawMarksSection(rows: seq<Row>, s: StackView, hasCallback: bool)
    requires forall i :: 0 <= i < |rows| ==> Complete(rows[i])
    ensures var data := Buckets(rows);
            (forall z :: z in data ==> forall i :: 0 <= i < |data[z]| ==> Complete(data[z][i]))
            && var d := Redraw(data, s, hasCallback);
               var here := RowsAt(rows, s.z as real);
               && |d.marks| == |here|
               && (forall i :: 0 <= i < |here| ==> d.marks[i] == MarkOf(s, here[i]))
               && (|d.marks| == 0 <==> forall i :: 0 <= i < |rows| ==> Section(rows[i]) != s.z as real)
  {
    var data := Buckets(rows);
    forall z | z in data ensures forall i :: 0 <= i < |data[z]| ==> Complete(data[z][i]) {
      BucketsBySection(rows, z);
    }
    BucketsBySection(rows, s.z as real);
    var here := RowsAt(rows, s.z as real);
    if exists i :: 0 <= i < |rows| && Section(rows[i]) == s.z as real {
      var i :| 0 <= i < |rows| && Section(rows[i]) == s.z as real;
      InRowsAt(rows, s.z as real, rows[i]);
    }
  }
}
