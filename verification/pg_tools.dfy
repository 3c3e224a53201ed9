/** The PHP helpers of inc/tools.inc.php: the readers of Postgres array
    literals ("{1,2,3}") and tv_node, which writes a tree-view node and its
    children as JSON text for the client's tree widget. */
module PgTools {
  import opened Common
  import opened Text

  const Braces: set<char> := {'{', '}'}

  /** The pieces of an array literal: every brace removed, then split at
      each comma. */
  function Pieces(s: string): (ps: seq<string>)
    ensures |ps| >= 1
  {
    Split(RemoveChars(s, Braces), ',')
  }

  /** pgDoubleArrayToPhp: floatval of every piece. */
  function PgDoubleArray(s: string): (r: seq<real>)
    ensures |r| == |Pieces(s)| >= 1
  {
    var ps := Pieces(s);
    seq(|ps|, k requires 0 <= k < |ps| => FloatVal(ps[k]))
  }

  /** pgIntegerArrayToPhp: intval of every piece. */
  function PgIntegerArray(s: string): (r: seq<int>)
    ensures |r| == |Pieces(s)| >= 1
  {
    var ps := Pieces(s);
    seq(|ps|, k requires 0 <= k < |ps| => IntVal(ps[k]))
  }

  function IntTexts(xs: seq<int>): (ts: seq<string>)
    ensures |ts| == |xs|
  {
    seq(|xs|, k requires 0 <= k < |xs| => IntToString(xs[k]))
  }

  /** The array literal Postgres prints for a list of integers. */
  function PgArrayText(xs: seq<int>): string
  {
    "{" + Join(IntTexts(xs), ",") + "}"
  }

  function AsReals(xs: seq<int>): (r: seq<real>)
    ensures |r| == |xs| && forall k :: 0 <= k < |xs| ==> r[k] == xs[k] as real
  {
    seq(|xs|, k requires 0 <= k < |xs| => xs[k] as real)
  }

  /** A non-empty integer array printed by Postgres reads back as itself,
      with either reader. */
  lemma PgArrayRoundTrip(xs: seq<int>)
    requires |xs| > 0
    ensures Pieces(PgArrayText(xs)) == IntTexts(xs)
    ensures PgIntegerArray(PgArrayText(xs)) == xs
    ensures PgDoubleArray(PgArrayText(xs)) == AsReals(xs)
  {
    var ts := IntTexts(xs);
    forall k | 0 <= k < |ts|
      ensures Avoids(ts[k], Braces + {','})
    {
      IntToStringChars(xs[k]);
    }
    JoinAvoids(ts, ",", Braces);
    var body := Join(ts, ",");
    BracesRemoved(body);
    SplitJoin(ts, ',');
    forall k | 0 <= k < |xs|
      ensures IntVal(ts[k]) == xs[k] && FloatVal(ts[k]) == xs[k] as real
    {
      IntToStringParses(xs[k], "");
      assert IntToString(xs[k]) + "" == IntToString(xs[k]);
    }
  }

  /** The empty array "{}" does not read back as empty: splitting the empty
      string gives one empty piece, whose value is 0. */
  lemma EmptyArrayReadsZero()
    ensures PgDoubleArray("{}") == [0.0]
    ensures PgIntegerArray("{}") == [0]
  {
    assert RemoveChars("{}", Braces) == "";
    assert FloatVal("") == 0.0;
  }

  /** "{1.5,2}" reads as [1.5, 2.0]. */
  lemma DoubleArrayExample()
    ensures var r := PgDoubleArray("{1.5,2}"); |r| == 2 && r[0] == 1.5 && r[1] == 2.0
  {
    ExamplePieces();
    FloatTwo();
    FloatOneFive();
  }

  lemma FloatTwo()
    ensures FloatVal("2") == 2.0
  {
    UnsignedParse("2", "");
    assert "2" + "" == "2";
    assert DigitsValue("2") == 2;
  }

  lemma ExamplePieces()
    ensures Pieces("{1.5,2}") == ["1.5", "2"]
  {
    ExampleBracesRemoved();
    SplitAfterPiece("1.5", "2", ',');
    assert "1.5,2" == "1.5" + [','] + "2";
    SplitOfTwo();
  }

  lemma ExampleBracesRemoved()
    ensures RemoveChars("{1.5,2}", Braces) == "1.5,2"
  {
    BracesRemoved("1.5,2");
    assert "{" + "1.5,2" + "}" == "{1.5,2}";
  }

  /** Removing the braces around a body without braces leaves the body. */
  lemma BracesRemoved(body: string)
    requires Avoids(body, Braces)
    ensures RemoveChars("{" + body + "}", Braces) == body
  {
    RemoveCharsAppend("{", body + "}", Braces);
    RemoveCharsAppend(body, "}", Braces);
    RemoveCharsAvoiding(body, Braces);
    assert "{" + body + "}" == "{" + (body + "}");
    assert RemoveChars("{", Braces) == "" && RemoveChars("}", Braces) == "";
  }

  lemma SplitOfTwo()
    ensures Split("2", ',') == ["2"]
  {
    assert "2"[1..] == "";
    assert Split("2"[1..], ',') == [""];
    assert ['2'] + "" == "2";
  }

  lemma FloatOneFive()
    ensures FloatVal("1.5") == 1.5
  {
    var t := "1.5";
    assert SkipSpaces(t) == t;
    assert t[1..] == ".5";
    assert DigitRun(".5") == 0;
    assert DigitRun(t) == 1;
    assert t[..1] == "1";
    assert "1"[..0] == "";
    assert DigitsValue("1") == 1;
    var f := t[2..];
    assert f == "5";
    assert f[1..] == "";
    assert DigitRun(f) == 1;
    assert f[..1] == "5";
    assert FractionValue("5") == 0.5;
  }

  // ---------------------------------------------------------------------
  // tv_node

  /** The 'data' entry of a node: an optional title and icon. */
  datatype TvData = TvData(title: Option<string>, icon: Option<string>)

  /** The 'children' entry of a node, when present, in array order. */
  datatype TvChildren = NoChildren | Children(nodes: seq<TvNode>)

  /** A tree-view node as the PHP array tv_node takes: every entry is
      optional; the attributes keep their array order. */
  datatype TvNode = TvNode(
    data: Option<TvData>,
    attr: Option<seq<(string, string)>>,
    state: Option<string>,
    children: TvChildren)

  function Quoted(s: string): string { "\"" + s + "\"" }

  // The key-value texts tv_node writes; the sections below put them
  // together as the code does.

  function TitleMember(title: string): string { "\"title\":" + Quoted(title) }

  function IconMember(icon: string): string { "\"icon\":" + Quoted(icon) }

  function DataObject(body: string): string { "\"data\":{" + body + "}" }

  function AttrObject(body: string): string { "\"attr\":{" + body + "}" }

  function StateMember(state: string): string { "\"state\":" + Quoted(state) }

  /** The data section: the title, then the icon with a comma before it. */
  function DataSection(d: TvData): string
  {
    DataObject(
      (if d.title.Some? then TitleMember(d.title.value) else "")
      + (if d.icon.Some? then "," + IconMember(d.icon.value) else ""))
  }

  /** One attribute, written with spaces around the colon. */
  function AttrEntry(kv: (string, string)): string
  {
    Quoted(kv.0) + " : " + Quoted(kv.1)
  }

  /** The attribute loop, which writes a comma before every entry but the
      first. */
  function AttrBody(attr: seq<(string, string)>): string
  {
    if |attr| == 0 then ""
    else AttrBody(attr[..|attr| - 1]) + (if |attr| > 1 then "," else "") + AttrEntry(attr[|attr| - 1])
  }

  /** The data, attr and state sections, which the two versions of
      tv_node below share; attr and state always start with a comma. */
  function Head(n: TvNode): string
  {
    (if n.data.Some? then DataSection(n.data.value) else "")
    + (if n.attr.Some? then AttrSection(n.attr.value) else "")
    + (if n.state.Some? then StateSection(n.state.value) else "")
  }

  function AttrSection(attr: seq<(string, string)>): string
  {
    "," + AttrObject(AttrBody(attr))
  }

  function StateSection(state: string): string
  {
    "," + StateMember(state)
  }

  function Concat(ss: seq<string>): string
  {
    if |ss| == 0 then "" else ss[0] + Concat(ss[1..])
  }

  /** tv_node as written: the children key is opened as '",children":['
      (the quote before the comma) and the children are written one after
      the other with nothing between them. */
  function TvNodeAsWritten(n: TvNode): (s: string)
    ensures |s| >= 2 && s[0] == '{' && s[|s| - 1] == '}'
    decreases n, 1
  {
    "{" + Head(n) + (if n.children.Children? then ChildrenAsWritten(n.children.nodes) else "") + "}"
  }

  /** The children section as written. */
  function ChildrenAsWritten(cs: seq<TvNode>): string
    decreases cs, 1
  {
    "\",children\":[" + Concat(AsWrittenOf(cs)) + "]"
  }

  function AsWrittenOf(cs: seq<TvNode>): (ts: seq<string>)
    ensures |ts| == |cs|
    decreases cs, 0
  {
    seq(|cs|, k requires 0 <= k < |cs| => TvNodeAsWritten(cs[k]))
  }

  /** The children member: the key and the array of the children's texts. */
  function ChildrenMember(texts: seq<string>): string
  {
    "\"children\":[" + Join(texts, ",") + "]"
  }

  /** tv_node corrected: the children key is quoted like the other keys
      and the children are separated by commas. */
  function TvNodeText(n: TvNode): (s: string)
    ensures |s| >= 2 && s[0] == '{' && s[|s| - 1] == '}'
    decreases n, 1
  {
    "{" + Head(n) + (if n.children.Children? then ChildrenSection(n.children.nodes) else "") + "}"
  }

  /** The corrected children section. */
  function ChildrenSection(cs: seq<TvNode>): string
    decreases cs, 1
  {
    "," + ChildrenMember(TextsOf(cs))
  }

  function TextsOf(cs: seq<TvNode>): (ts: seq<string>)
    ensures |ts| == |cs|
    decreases cs, 0
  {
    seq(|cs|, k requires 0 <= k < |cs| => TvNodeText(cs[k]))
  }

  // The JSON a node stands for, as an object whose members are joined by
  // commas: the reference both versions are compared with.

  function DataMembers(d: TvData): seq<string>
  {
    (if d.title.Some? then [TitleMember(d.title.value)] else [])
    + (if d.icon.Some? then [IconMember(d.icon.value)] else [])
  }

  function AttrMembers(attr: seq<(string, string)>): (ms: seq<string>)
    ensures |ms| == |attr|
  {
    seq(|attr|, k requires 0 <= k < |attr| => AttrEntry(attr[k]))
  }

  function DataMember(d: TvData): string
  {
    DataObject(Join(DataMembers(d), ","))
  }

  function AttrMember(attr: seq<(string, string)>): string
  {
    AttrObject(Join(AttrMembers(attr), ","))
  }

  function Members(n: TvNode): seq<string>
    decreases n, 1
  {
    (if n.data.Some? then [DataMember(n.data.value)] else [])
    + (if n.attr.Some? then [AttrMember(n.attr.value)] else [])
    + (if n.state.Some? then [StateMember(n.state.value)] else [])
    + (if n.children.Children? then [ChildrenMember(JsonsOf(n.children.nodes))] else [])
  }

  function Json(n: TvNode): string
    decreases n, 2
  {
    "{" + Join(Members(n), ",") + "}"
  }

  function JsonsOf(cs: seq<TvNode>): (ts: seq<string>)
    ensures |ts| == |cs|
    decreases cs, 0
  {
    seq(|cs|, k requires 0 <= k < |cs| => Json(cs[k]))
  }

  /** Every node of the tree has data with a title: the nodes the endpoints
      build. Without data the first written section starts with a comma. */
  predicate Titled(n: TvNode)
    decreases n, 1
  {
    && n.data.Some? && n.data.value.title.Some?
    && (n.children.Children? ==> AllTitled(n.children.nodes))
  }

  predicate AllTitled(cs: seq<TvNode>)
    decreases cs, 0
  {
    forall k :: 0 <= k < |cs| ==> Titled(cs[k])
  }

  /** The attribute loop writes exactly the entries joined by commas. */
  lemma {:induction false} AttrBodyJoins(attr: seq<(string, string)>)
    ensures AttrBody(attr) == Join(AttrMembers(attr), ",")
    decreases |attr|
  {
    if |attr| > 1 {
      var init := attr[..|attr| - 1];
      AttrBodyJoins(init);
      assert AttrMembers(attr) == AttrMembers(init) + [AttrEntry(attr[|attr| - 1])];
      JoinSnoc(AttrMembers(init), AttrEntry(attr[|attr| - 1]), ",");
    } else if |attr| == 1 {
      assert AttrBody(attr) == AttrBody([]) + "" + AttrEntry(attr[0]);
    }
  }

  /** The data section of a titled node is its members joined by commas. */
  lemma DataSectionJoins(d: TvData)
    requires d.title.Some?
    ensures DataSection(d) == DataMember(d)
  {
    var t := TitleMember(d.title.value);
    if d.icon.Some? {
      var i := IconMember(d.icon.value);
      assert DataMembers(d) == [t, i];
      assert Join([t, i], ",") == t + "," + Join([i], ",");
      assert t + "," + i == t + ("," + i);
    } else {
      assert DataMembers(d) == [t];
    }
  }

  /** A member list of at most one entry, written after a comma. */
  function AfterComma(opt: seq<string>): string
  {
    if |opt| == 1 then "," + opt[0] else ""
  }

  /** Adding an optional member (none or one) to a non-empty member list
      appends it after a comma. */
  lemma JoinOptional(ms: seq<string>, opt: seq<string>)
    requires |ms| > 0 && |opt| <= 1
    ensures Join(ms + opt, ",") == Join(ms, ",") + AfterComma(opt)
  {
    if |opt| == 1 {
      JoinSnoc(ms, opt[0], ",");
      assert opt == [opt[0]];
    } else {
      assert ms + opt == ms;
    }
  }

  lemma JoinFirstAndOptionals(first: string, a: seq<string>, b: seq<string>, c: seq<string>)
    requires |a| <= 1 && |b| <= 1 && |c| <= 1
    ensures Join([first] + a + b + c, ",") == first + AfterComma(a) + AfterComma(b) + AfterComma(c)
  {
    JoinOptional([first], a);
    JoinOptional([first] + a, b);
    JoinOptional([first] + a + b, c);
  }

  /** The head sections of a titled node are its data, attr and state
      members, the later two after a comma. */
  lemma HeadMembers(n: TvNode)
    requires n.data.Some? && n.data.value.title.Some?
    ensures Head(n) == DataMember(n.data.value)
                       + AfterComma(if n.attr.Some? then [AttrMember(n.attr.value)] else [])
                       + AfterComma(if n.state.Some? then [StateMember(n.state.value)] else [])
  {
    DataSectionJoins(n.data.value);
    var a := if n.attr.Some? then AttrSection(n.attr.value) else "";
    var st := if n.state.Some? then StateSection(n.state.value) else "";
    assert a == AfterComma(if n.attr.Some? then [AttrMember(n.attr.value)] else []) by {
      if n.attr.Some? {
        AttrSectionIsMember(n.attr.value);
      }
    }
    assert st == AfterComma(if n.state.Some? then [StateMember(n.state.value)] else []);
  }

  lemma AttrSectionIsMember(attr: seq<(string, string)>)
    ensures AttrSection(attr) == "," + AttrMember(attr)
  {
    AttrBodyJoins(attr);
  }

  /** The JSON of a titled node is its head sections followed by the
      children member after a comma. */
  lemma JsonOfHead(n: TvNode)
    requires n.data.Some? && n.data.value.title.Some?
    ensures Json(n) == "{" + Head(n)
              + (if n.children.Children? then "," + ChildrenMember(JsonsOf(n.children.nodes)) else "") + "}"
  {
    var oa := if n.attr.Some? then [AttrMember(n.attr.value)] else [];
    var os := if n.state.Some? then [StateMember(n.state.value)] else [];
    var oc := if n.children.Children? then [ChildrenMember(JsonsOf(n.children.nodes))] else [];
    assert Members(n) == [DataMember(n.data.value)] + oa + os + oc;
    JoinFirstAndOptionals(DataMember(n.data.value), oa, os, oc);
    HeadMembers(n);
    var h := Head(n);
    var c := AfterComma(oc);
    assert Join(Members(n), ",") == h + c;
    Assoc("{", h, c);
  }

  /** The corrected tv_node writes a titled node as the JSON object of its
      members, the children included. */
  lemma {:induction false} TvNodeIsJson(n: TvNode)
    requires Titled(n)
    ensures TvNodeText(n) == Json(n)
    decreases n
  {
    JsonOfHead(n);
    if n.children.Children? {
      var cs := n.children.nodes;
      forall k | 0 <= k < |cs|
        ensures TextsOf(cs)[k] == JsonsOf(cs)[k]
      {
        TvNodeIsJson(cs[k]);
      }
      assert TextsOf(cs) == JsonsOf(cs);
    }
  }

  /** Without children both versions write the same text. */
  lemma ChildlessAgree(n: TvNode)
    requires n.children.NoChildren?
    ensures TvNodeAsWritten(n) == TvNodeText(n)
  {
  }

  function Leaf(title: string): TvNode
  {
    TvNode(Some(TvData(Some(title), None)), None, None, NoChildren)
  }

  /** The written text of a titled node with children is never its JSON:
      straight after the head sections it has a quote where the JSON has
      the comma before the children key. */
  lemma ChildrenKeyMisquoted(n: TvNode)
    requires Titled(n) && n.children.Children?
    ensures |TvNodeAsWritten(n)| > |Head(n)| + 1 && |Json(n)| > |Head(n)| + 1
    ensures TvNodeAsWritten(n)[|Head(n)| + 1] == '"'
    ensures Json(n)[|Head(n)| + 1] == ','
    ensures TvNodeAsWritten(n) != Json(n)
  {
    TvNodeIsJson(n);
    var cs := n.children.nodes;
    assert ChildrenAsWritten(cs)[0] == '"';
    assert TvNodeAsWritten(n)[|Head(n)| + 1] == ChildrenAsWritten(cs)[0];
    assert ChildrenSection(cs)[0] == ',';
    assert TvNodeText(n)[|Head(n)| + 1] == ChildrenSection(cs)[0];
  }

  /** Two children are written with nothing between them: the array holds
      the first child's text, which ends with a closing brace, directly
      followed by the second's, which starts with an opening brace. */
  lemma ChildrenRunTogether(cs: seq<TvNode>)
    requires |cs| >= 2
    ensures Concat(AsWrittenOf(cs))
            == TvNodeAsWritten(cs[0]) + (TvNodeAsWritten(cs[1]) + Concat(AsWrittenOf(cs[2..])))
  {
    var ws := AsWrittenOf(cs);
    forall k | 0 <= k < |cs| - 2
      ensures ws[2..][k] == AsWrittenOf(cs[2..])[k]
    {
      assert cs[2..][k] == cs[k + 2];
    }
    assert ws[2..] == AsWrittenOf(cs[2..]);
    var tail := ws[1..];
    assert tail[1..] == ws[2..];
    assert Concat(tail) == ws[1] + Concat(ws[2..]);
    assert Concat(ws) == ws[0] + Concat(tail);
  }

  /** The corrected section puts a comma between the two children. */
  lemma ChildrenSeparated(cs: seq<TvNode>)
    requires |cs| >= 2
    ensures Join(TextsOf(cs), ",") == TvNodeText(cs[0]) + "," + Join(TextsOf(cs[1..]), ",")
  {
    var ts := TextsOf(cs);
    forall k | 0 <= k < |cs| - 1
      ensures ts[1..][k] == TextsOf(cs[1..])[k]
    {
      assert cs[1..][k] == cs[k + 1];
    }
    assert ts[1..] == TextsOf(cs[1..]);
  }
}
