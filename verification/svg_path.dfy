/** The SVG path text both polygon editors draw (getSVGPath in
    httpdocs/widgets/overlay_area.js and in the svg-polylines experiment):
    "M x0 y0", then "L xi yi" for every further vertex, then "Z", joined
    with commas. A reader for that text is the partner that shows nothing
    is lost. */
module SvgPath {
  import opened Common
  import opened Text

  /** JavaScript's number-to-string conversion is a parameter of the
      model. A value prints back when a reader for that text recovers it
      and the text contains neither separator used in the path. */
  predicate PrintsBack(num: real -> string, read: string -> Option<real>, v: real)
  {
    read(num(v)) == Some(v) && ' ' !in num(v) && ',' !in num(v)
  }

  predicate AllPrintBack(num: real -> string, read: string -> Option<real>, vs: seq<real>)
  {
    forall j | 0 <= j < |vs| :: PrintsBack(num, read, vs[j])
  }

  /** One command: a letter, the x text, a space, the y text. */
  function Command(letter: char, x: string, y: string): string
  {
    [letter] + x + " " + y
  }

  /** The coordinate text of vertex i: a missing vertex prints as undefined. */
  function CoordText(v: seq<real>, i: nat, num: real -> string): string
  {
    if i < |v| then num(v[i]) else "undefined"
  }

  /** One line command per vertex. */
  function LinesOf(xs: seq<real>, ys: seq<real>, num: real -> string): (r: seq<string>)
    requires |xs| == |ys|
    ensures |r| == |xs|
    ensures forall i | 0 <= i < |xs| :: r[i] == Command('L', num(xs[i]), num(ys[i]))
  {
    seq(|xs|, i requires 0 <= i < |xs| => Command('L', num(xs[i]), num(ys[i])))
  }

  /** The line commands for vertices 1 .. |xs|-1. */
  function LineCommands(xs: seq<real>, ys: seq<real>, num: real -> string): (r: seq<string>)
    requires |xs| == |ys|
    ensures |xs| > 0 ==> |r| == |xs| - 1
    ensures |xs| > 0 ==> forall i | 1 <= i < |xs| :: r[i - 1] == Command('L', num(xs[i]), num(ys[i]))
  {
    if |xs| <= 1 then [] else LinesOf(xs[1..], ys[1..], num)
  }

  /** The pieces of the path before joining. */
  function PathList(xs: seq<real>, ys: seq<real>, num: real -> string): (r: seq<string>)
    requires |xs| == |ys|
    ensures |r| == (if |xs| == 0 then 2 else |xs| + 1)
    ensures r[0] == Command('M', CoordText(xs, 0, num), CoordText(ys, 0, num))
    ensures r[|r| - 1] == "Z"
  {
    [Command('M', CoordText(xs, 0, num), CoordText(ys, 0, num))] + LineCommands(xs, ys, num) + ["Z"]
  }

  /** getSVGPath: Array.join() with its default comma. */
  function SvgPathText(xs: seq<real>, ys: seq<real>, num: real -> string): string
    requires |xs| == |ys|
  {
    Join(PathList(xs, ys, num), ",")
  }

  /** Reads one command with the given letter back into its two numbers. */
  function ReadCommand(s: string, letter: char, read: string -> Option<real>): Option<(real, real)>
  {
    if |s| > 0 && s[0] == letter then
      var halves := Split(s[1..], ' ');
      if |halves| == 2 && read(halves[0]).Some? && read(halves[1]).Some? then
        Some((read(halves[0]).value, read(halves[1]).value))
      else None
    else None
  }

  /** Reads a run of line commands. */
  function ReadLines(parts: seq<string>, read: string -> Option<real>): (r: Option<(seq<real>, seq<real>)>)
    ensures r.Some? ==> |r.value.0| == |parts| && |r.value.1| == |parts|
    decreases |parts|
  {
    if parts == [] then Some(([], []))
    else
      match (ReadCommand(parts[0], 'L', read), ReadLines(parts[1..], read))
      case (Some((x, y)), Some((xs, ys))) => Some(([x] + xs, [y] + ys))
      case _ => None
  }

  /** Reads a whole path back into its vertex lists: a move, line
      commands, and a closing Z. */
  function ReadPath(s: string, read: string -> Option<real>): Option<(seq<real>, seq<real>)>
  {
    var parts := Split(s, ',');
    if |parts| >= 2 && parts[|parts| - 1] == "Z" then
      match (ReadCommand(parts[0], 'M', read), ReadLines(parts[1..|parts| - 1], read))
      case (Some((x, y)), Some((xs, ys))) => Some(([x] + xs, [y] + ys))
      case _ => None
    else None
  }

  lemma SplitWithoutSeparator(s: string, sep: char)
    requires sep !in s
    ensures Split(s, sep) == [s]
  {
    SplitJoin([s], sep);
  }

  lemma CommandWithout(c: char, letter: char, x: string, y: string)
    requires c != letter && c != ' ' && c !in x && c !in y
    ensures c !in Command(letter, x, y)
  {
    assert Command(letter, x, y) == [letter] + x + [' '] + y;
  }

  lemma ReadCommandOf(letter: char, x: real, y: real, num: real -> string, read: string -> Option<real>)
    requires PrintsBack(num, read, x) && PrintsBack(num, read, y)
    ensures ReadCommand(Command(letter, num(x), num(y)), letter, read) == Some((x, y))
  {
    var c := Command(letter, num(x), num(y));
    assert c[1..] == num(x) + [' '] + num(y);
    SplitAfterPiece(num(x), num(y), ' ');
    SplitWithoutSeparator(num(y), ' ');
  }

  lemma ReadLinesCons(parts: seq<string>, read: string -> Option<real>, x: real, y: real, xs: seq<real>, ys: seq<real>)
    requires parts != []
    requires ReadCommand(parts[0], 'L', read) == Some((x, y))
    requires ReadLines(parts[1..], read) == Some((xs, ys))
    ensures ReadLines(parts, read) == Some(([x] + xs, [y] + ys))
  {
  }

  lemma LinesOfTail(xs: seq<real>, ys: seq<real>, num: real -> string)
    requires |xs| == |ys| && xs != []
    ensures LinesOf(xs, ys, num)[1..] == LinesOf(xs[1..], ys[1..], num)
  {
  }

  lemma ReadLinesStep(xs: seq<real>, ys: seq<real>, num: real -> string, read: string -> Option<real>)
    requires |xs| == |ys| && xs != []
    requires PrintsBack(num, read, xs[0]) && PrintsBack(num, read, ys[0])
    requires ReadLines(LinesOf(xs[1..], ys[1..], num), read) == Some((xs[1..], ys[1..]))
    ensures ReadLines(LinesOf(xs, ys, num), read) == Some((xs, ys))
  {
    var parts := LinesOf(xs, ys, num);
    ReadCommandOf('L', xs[0], ys[0], num, read);
    LinesOfTail(xs, ys, num);
    ReadLinesCons(parts, read, xs[0], ys[0], xs[1..], ys[1..]);
    assert [xs[0]] + xs[1..] == xs;
    assert [ys[0]] + ys[1..] == ys;
  }

  lemma {:induction false} ReadLinesOf(xs: seq<real>, ys: seq<real>, num: real -> string, read: string -> Option<real>)
    requires |xs| == |ys|
    requires AllPrintBack(num, read, xs) && AllPrintBack(num, read, ys)
    ensures ReadLines(LinesOf(xs, ys, num), read) == Some((xs, ys))
    decreases |xs|
  {
    if xs != [] {
      assert AllPrintBack(num, read, xs[1..]) && AllPrintBack(num, read, ys[1..]);
      ReadLinesOf(xs[1..], ys[1..], num, read);
      ReadLinesStep(xs, ys, num, read);
    } else {
      assert LinesOf(xs, ys, num) == [];
    }
  }

  /** No piece of the path contains the comma that joins them. */
  lemma PathSplitsBack(xs: seq<real>, ys: seq<real>, num: real -> string, read: string -> Option<real>)
    requires |xs| == |ys| && |xs| > 0
    requires AllPrintBack(num, read, xs) && AllPrintBack(num, read, ys)
    ensures Split(SvgPathText(xs, ys, num), ',') == PathList(xs, ys, num)
  {
    var parts := PathList(xs, ys, num);
    forall k | 0 <= k < |parts| ensures ',' !in parts[k] {
      if k == 0 {
        CommandWithout(',', 'M', num(xs[0]), num(ys[0]));
      } else if k < |parts| - 1 {
        var x := num(xs[k]);
        var y := num(ys[k]);
        assert parts[k] == Command('L', x, y);
        CommandWithout(',', 'L', x, y);
      }
    }
    SplitJoin(parts, ',');
  }

  /** The pieces between the move and the Z are the line commands of the
      vertices after the first. */
  lemma PathLines(xs: seq<real>, ys: seq<real>, num: real -> string)
    requires |xs| == |ys| && |xs| > 0
    ensures var parts := PathList(xs, ys, num);
            parts[1..|parts| - 1] == LinesOf(xs[1..], ys[1..], num)
  {
  }

  /** ReadPath on a text whose pieces read as a move and line commands. */
  lemma ReadPathOf(s: string, read: string -> Option<real>, x: real, y: real, xs: seq<real>, ys: seq<real>)
    requires var parts := Split(s, ',');
             && |parts| >= 2 && parts[|parts| - 1] == "Z"
             && ReadCommand(parts[0], 'M', read) == Some((x, y))
             && ReadLines(parts[1..|parts| - 1], read) == Some((xs, ys))
    ensures ReadPath(s, read) == Some(([x] + xs, [y] + ys))
  {
  }

  /** The pieces of a polygon's path read back as its first vertex and
      the rest. */
  lemma ReadPieces(xs: seq<real>, ys: seq<real>, num: real -> string, read: string -> Option<real>)
    requires |xs| == |ys| && |xs| > 0
    requires AllPrintBack(num, read, xs) && AllPrintBack(num, read, ys)
    ensures var parts := PathList(xs, ys, num);
            && ReadCommand(parts[0], 'M', read) == Some((xs[0], ys[0]))
            && ReadLines(parts[1..|parts| - 1], read) == Some((xs[1..], ys[1..]))
  {
    ReadCommandOf('M', xs[0], ys[0], num, read);
    PathLines(xs, ys, num);
    assert AllPrintBack(num, read, xs[1..]) && AllPrintBack(num, read, ys[1..]);
    ReadLinesOf(xs[1..], ys[1..], num, read);
  }

  /** Reading the path of a polygon with at least one vertex gives back its
      vertices exactly. */
  lemma ReadSvgPath(xs: seq<real>, ys: seq<real>, num: real -> string, read: string -> Option<real>)
    requires |xs| == |ys| && |xs| > 0
    requires AllPrintBack(num, read, xs) && AllPrintBack(num, read, ys)
    ensures ReadPath(SvgPathText(xs, ys, num), read) == Some((xs, ys))
  {
    PathSplitsBack(xs, ys, num, read);
    ReadPieces(xs, ys, num, read);
    ReadPathOf(SvgPathText(xs, ys, num), read, xs[0], ys[0], xs[1..], ys[1..]);
    assert [xs[0]] + xs[1..] == xs;
    assert [ys[0]] + ys[1..] == ys;
  }

  /** The path has one command per vertex plus the closing Z, and it is
      never empty: an empty polygon still prints "Mundefined undefined,Z". */
  lemma SvgPathShape(xs: seq<real>, ys: seq<real>, num: real -> string)
    requires |xs| == |ys|
    ensures |xs| == 0 ==> SvgPathText(xs, ys, num) == "Mundefined undefined,Z"
    ensures |PathList(xs, ys, num)| == if |xs| == 0 then 2 else |xs| + 1
  {
    if |xs| == 0 {
      var parts := PathList(xs, ys, num);
      assert Command('M', "undefined", "undefined") == "Mundefined undefined";
      assert parts == ["Mundefined undefined", "Z"];
      assert Join(parts, ",") == parts[0] + "," + Join(parts[1..], ",");
    }
  }
}
