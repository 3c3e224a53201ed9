/** The account sign-up endpoint, httpdocs/model/user.create.php: the
    checks of the posted form, the new user row, and the links of the new
    user to every project. The database is reduced to what the endpoint
    reads from it: the existing user names, the project ids, the id the
    user insert returns and which project links succeed. */
module UserCreate {
  import opened Common
  import opened Text

  /** PHP's truthiness of a string: only "" and "0" are false. */
  predicate Truthy(s: string)
  {
    s != "" && s != "0"
  }

  /** A posted field, '' when it is not set. */
  function Field(post: map<string, string>, key: string): string
  {
    if key in post then post[key] else ""
  }

  /** Ten to the power e, for an exponent of either sign. */
  function Pow10(e: int): (r: real)
    ensures r > 0.0
    decreases if e < 0 then -e else e
  {
    if e == 0 then 1.0 else if e > 0 then 10.0 * Pow10(e - 1) else Pow10(e + 1) / 10.0
  }

  /** The exponent part of a numeric string: nothing, or 'e' or 'E', an
      optional sign and at least one digit, up to the end. */
  function ExponentText(s: string): Option<int>
  {
    if |s| == 0 then Some(0)
    else if s[0] != 'e' && s[0] != 'E' then None
    else
      var t := s[1..];
      var u := if |t| > 0 && (t[0] == '-' || t[0] == '+') then t[1..] else t;
      if |u| == 0 || !AllDigits(u) then None
      else if |t| > 0 && t[0] == '-' then Some(-(DigitsValue(u) as int))
      else Some(DigitsValue(u) as int)
  }

  /** The value of a string PHP treats as numeric when comparing: optional
      leading whitespace, an optional sign, digits with an optional '.'
      and fraction digits (at least one digit in all), and an optional
      exponent, up to the end. Anything else is not numeric. */
  function NumericText(s: string): Option<real>
  {
    var t := SkipSpaces(s);
    var neg := |t| > 0 && t[0] == '-';
    var u := if |t| > 0 && (t[0] == '-' || t[0] == '+') then t[1..] else t;
    var k := DigitRun(u);
    var f := if k < |u| && u[k] == '.' then u[k + 1..] else [];
    var m := DigitRun(f);
    var rest := if k < |u| && u[k] == '.' then f[m..] else u[k..];
    var e := ExponentText(rest);
    if k + m == 0 || e.None? then None
    else
      var v := (DigitsValue(u[..k]) as real + FractionValue(f[..m])) * Pow10(e.value);
      Some(if neg then -v else v)
  }

  /** PHP's loose == between two strings, as in_array uses it: when both
      are numeric strings they compare by value, otherwise character by
      character. */
  predicate LooseEquals(a: string, b: string)
  {
    if NumericText(a).Some? && NumericText(b).Some? then NumericText(a) == NumericText(b) else a == b
  }

  /** in_array($username, $users). */
  predicate NameTaken(name: string, users: seq<string>)
  {
    exists i :: 0 <= i < |users| && LooseEquals(name, users[i])
  }

  /** A name is always taken by itself, so an existing name is refused. */
  lemma SameNameTaken(name: string, users: seq<string>)
    requires name in users
    ensures NameTaken(name, users)
  {
    var i :| 0 <= i < |users| && users[i] == name;
    assert LooseEquals(name, users[i]);
  }

  /** A name that is not numeric is taken exactly when it is already in
      the list, character for character. */
  lemma TextNameTakenIffPresent(name: string, users: seq<string>)
    requires NumericText(name).None?
    ensures NameTaken(name, users) <==> name in users
  {
    if name in users {
      SameNameTaken(name, users);
    }
  }

  /** The loose comparison refuses a name that differs from an existing
      one only by leading zeros. */
  lemma LeadingZeroTaken()
    ensures NameTaken("01", ["1"])
  {
    assert SkipSpaces("01") == "01" && SkipSpaces("1") == "1";
    assert DigitRun("01") == 2 && DigitRun("1") == 1;
    assert "01"[..2] == "01" && "1"[..1] == "1";
    assert DigitsValue("01") == 1 by {
      assert "01"[..1] == "0";
      assert DigitsValue("0") == 0;
    }
    assert NumericText("01") == Some(1.0);
    assert NumericText("1") == Some(1.0);
    assert LooseEquals("01", ["1"][0]);
  }

  /** A decimal spelling of an existing numeric name is refused. */
  lemma DecimalTaken()
    ensures NameTaken("1.0", ["1"])
  {
    assert SkipSpaces("1.0") == "1.0" && SkipSpaces("1") == "1";
    assert DigitRun("1.0") == 1 && DigitRun("0") == 1 && DigitRun("1") == 1;
    assert "1.0"[..1] == "1" && "1.0"[2..] == "0" && "0"[..1] == "0";
    assert FractionValue("0") == 0.0 by { assert "0"[1..] == []; }
    assert NumericText("1.0") == Some(1.0);
    assert NumericText("1") == Some(1.0);
    assert LooseEquals("1.0", ["1"][0]);
  }

  /** So is an exponent spelling. */
  lemma ExponentTaken()
    ensures NameTaken("1e2", ["100"])
  {
    assert SkipSpaces("1e2") == "1e2" && SkipSpaces("100") == "100";
    assert DigitRun("1e2") == 1 && DigitRun("100") == 3;
    assert "1e2"[..1] == "1" && "1e2"[1..] == "e2" && "100"[..3] == "100";
    assert ExponentText("e2") == Some(2) by { assert "e2"[1..] == "2"; }
    assert DigitsValue("100") == 100 by {
      assert "100"[..2] == "10" && "10"[..1] == "1";
    }
    assert Pow10(2) == 100.0;
    assert NumericText("1e2") == Some(100.0);
    assert NumericText("100") == Some(100.0);
    assert LooseEquals("1e2", ["100"][0]);
  }

  datatype NewUser = NewUser(name: string, passwordHash: string, longName: string)

  /** What the database answers: the existing user names, the project ids
      in query order, the id the user insert returns (None for false), and
      whether the link to a project is inserted. */
  datatype Database = Database(users: seq<string>, projects: seq<int>, insertedId: Option<int>, linkSucceeds: int -> bool)

  /** The output, the user row inserted and the (user id, project id)
      links inserted. */
  datatype Response = Response(output: seq<string>, inserted: Option<NewUser>, links: seq<(Option<int>, int)>)

  const MissingMessage := "{ error : \"One of the required values was missing.\" }"
  const MismatchMessage := "{ error : \"The passwords did not match.\" }"
  const ShortMessage := "{ error : \"The password must be at least 5 characters long.\" }"
  const TakenMessage := "{ error : \"That username is already taken.\"}"
  const CreatedMessage := "{ notice : \"Your account was created successfully - you can now log in.\"}"

  /** The complaint about a failed project link as written: the message is
      in single quotes, so it names the variable, not the project. */
  const LinkFailedAsWritten := "{ error : \"Linking your account with project $cpid failed.\" }"

  /** All five fields are set and truthy. */
  predicate Complete(post: map<string, string>)
  {
    && Truthy(Field(post, "username")) && Truthy(Field(post, "realname")) && Truthy(Field(post, "email"))
    && Truthy(Field(post, "password")) && Truthy(Field(post, "password2"))
  }

  /** The link loop as written: one insert per project, a complaint for
      each that fails. */
  function LinkAsWritten(uid: Option<int>, projects: seq<int>, ok: int -> bool): (r: (seq<string>, seq<(Option<int>, int)>))
    ensures |r.1| == |projects| && forall i :: 0 <= i < |projects| ==> r.1[i] == (uid, projects[i])
  {
    if |projects| == 0 then ([], [])
    else
      var rest := LinkAsWritten(uid, projects[1..], ok);
      ((if ok(projects[0]) then [] else [LinkFailedAsWritten]) + rest.0, [(uid, projects[0])] + rest.1)
  }

  /** user.create.php as written; hash stands for md5. */
  function CreateAsWritten(post: map<string, string>, db: Database, hash: string -> string): Response
  {
    var username := Field(post, "username");
    var password := Field(post, "password");
    if Complete(post) then
      if password != Field(post, "password2") then Response([MismatchMessage], None, [])
      else if |password| < 5 then Response([ShortMessage], None, [])
      else if NameTaken(username, db.users) then Response([TakenMessage], None, [])
      else
        var links := LinkAsWritten(db.insertedId, db.projects, db.linkSucceeds);
        Response(links.0 + [CreatedMessage], Some(NewUser(username, hash(password), Field(post, "realname"))), links.1)
    else if "username" in post || "realname" in post || "password" in post || "password2" in post then
      Response([MissingMessage], None, [])
    else Response([], None, [])
  }

  /** Every failed link reports the same text, whichever project failed:
      two databases whose only failing projects differ give the same
      output. */
  lemma LinkFailureNamesNoProject(post: map<string, string>, users: seq<string>, uid: Option<int>, hash: string -> string,
                                  ok1: int -> bool, ok2: int -> bool)
    requires Complete(post) && Field(post, "password") == Field(post, "password2")
    requires |Field(post, "password")| >= 5 && !NameTaken(Field(post, "username"), users)
    requires !ok1(1) && ok1(2) && ok2(1) && !ok2(2)
    ensures var one := Database(users, [1, 2], uid, ok1);
            var two := Database(users, [1, 2], uid, ok2);
            && CreateAsWritten(post, one, hash).output == CreateAsWritten(post, two, hash).output
            && CreateAsWritten(post, one, hash).output[0] == LinkFailedAsWritten
  {
    var ps: seq<int> := [1, 2];
    assert ps[1..] == [2] && ps[1..][1..] == [];
    assert LinkAsWritten(uid, [], ok1).0 == [] && LinkAsWritten(uid, [], ok2).0 == [];
    assert LinkAsWritten(uid, [2], ok1).0 == [];
    assert LinkAsWritten(uid, [2], ok2).0 == [LinkFailedAsWritten];
    assert LinkAsWritten(uid, ps, ok1).0 == [LinkFailedAsWritten];
    assert LinkAsWritten(uid, ps, ok2).0 == [LinkFailedAsWritten];
  }

  /** The complaint the message evidently means: the id of the project
      whose link failed. */
  function LinkFailed(pid: int): string
  {
    "{ error : \"Linking your account with project " + IntToString(pid) + " failed.\" }"
  }

  /** The link loop with the project named in each complaint. */
  function Link(uid: Option<int>, projects: seq<int>, ok: int -> bool): (r: (seq<string>, seq<(Option<int>, int)>))
    ensures |r.1| == |projects| && forall i :: 0 <= i < |projects| ==> r.1[i] == (uid, projects[i])
  {
    if |projects| == 0 then ([], [])
    else
      var rest := Link(uid, projects[1..], ok);
      ((if ok(projects[0]) then [] else [LinkFailed(projects[0])]) + rest.0, [(uid, projects[0])] + rest.1)
  }

  /** The projects whose link fails, in order. */
  function Failed(projects: seq<int>, ok: int -> bool): seq<int>
  {
    if |projects| == 0 then []
    else (if ok(projects[0]) then [] else [projects[0]]) + Failed(projects[1..], ok)
  }

  /** The complaints name exactly the failed projects, in order, and the
      project id reads back from each. */
  lemma {:induction false} LinkNamesFailures(uid: Option<int>, projects: seq<int>, ok: int -> bool)
    ensures var out := Link(uid, projects, ok).0;
            var fs := Failed(projects, ok);
            && |out| == |fs|
            && forall i :: 0 <= i < |fs| ==> out[i] == LinkFailed(fs[i])
    decreases |projects|
  {
    if |projects| > 0 {
      LinkNamesFailures(uid, projects[1..], ok);
    }
  }

  /** The id in a complaint reads back. */
  lemma LinkFailedNamesProject(pid: int)
    ensures var m := LinkFailed(pid);
            var prefix := "{ error : \"Linking your account with project ";
            && m[..|prefix|] == prefix
            && IntVal(m[|prefix|..]) == pid
  {
    var prefix := "{ error : \"Linking your account with project ";
    var d := IntToString(pid);
    var tail := " failed.\" }";
    assert LinkFailed(pid) == prefix + (d + tail);
    assert LinkFailed(pid)[|prefix|..] == d + tail;
    IntToStringParses(pid, tail);
  }

  /** user.create.php with the complaint naming the project. */
  function Create(post: map<string, string>, db: Database, hash: string -> string): (r: Response)
    ensures r.inserted.Some? <==>
              Complete(post) && Field(post, "password") == Field(post, "password2")
              && |Field(post, "password")| >= 5 && !NameTaken(Field(post, "username"), db.users)
    ensures r.inserted.Some? ==>
              && r.inserted.value == NewUser(Field(post, "username"), hash(Field(post, "password")), Field(post, "realname"))
              && |r.links| == |db.projects|
              && (forall i :: 0 <= i < |db.projects| ==> r.links[i] == (db.insertedId, db.projects[i]))
              && |r.output| > 0 && r.output[|r.output| - 1] == CreatedMessage
    ensures r.inserted.None? ==> |r.links| == 0 && |r.output| <= 1
    ensures r.output == [MissingMessage] <==>
              !Complete(post) && ("username" in post || "realname" in post || "password" in post || "password2" in post)
    ensures r.output == [MismatchMessage] <==> Complete(post) && Field(post, "password") != Field(post, "password2")
    ensures r.output == [ShortMessage] <==>
              Complete(post) && Field(post, "password") == Field(post, "password2") && |Field(post, "password")| < 5
    ensures r.output == [TakenMessage] <==>
              Complete(post) && Field(post, "password") == Field(post, "password2")
              && |Field(post, "password")| >= 5 && NameTaken(Field(post, "username"), db.users)
  {
    var username := Field(post, "username");
    var password := Field(post, "password");
    if Complete(post) then
      if password != Field(post, "password2") then Response([MismatchMessage], None, [])
      else if |password| < 5 then Response([ShortMessage], None, [])
      else if NameTaken(username, db.users) then Response([TakenMessage], None, [])
      else
        var links := Link(db.insertedId, db.projects, db.linkSucceeds);
        Response(links.0 + [CreatedMessage], Some(NewUser(username, hash(password), Field(post, "realname"))), links.1)
    else if "username" in post || "realname" in post || "password" in post || "password2" in post then
      Response([MissingMessage], None, [])
    else Response([], None, [])
  }

  /** Only the link complaints differ between the two: every other answer,
      the inserted user and the links are the same. */
  lemma CreateDiffersOnlyInComplaints(post: map<string, string>, db: Database, hash: string -> string)
    ensures CreateAsWritten(post, db, hash).inserted == Create(post, db, hash).inserted
    ensures CreateAsWritten(post, db, hash).links == Create(post, db, hash).links
    ensures Create(post, db, hash).inserted.None? ==> CreateAsWritten(post, db, hash) == Create(post, db, hash)
  {
    if Create(post, db, hash).inserted.Some? {
      LinksAgree(db.insertedId, db.projects, db.linkSucceeds);
    }
  }

  lemma {:induction false} LinksAgree(uid: Option<int>, projects: seq<int>, ok: int -> bool)
    ensures LinkAsWritten(uid, projects, ok).1 == Link(uid, projects, ok).1
    decreases |projects|
  {
    if |projects| > 0 {
      LinksAgree(uid, projects[1..], ok);
    }
  }

  /** Only the e-mail field posted: the endpoint answers nothing. */
  lemma EmailAloneSilent(email: string, db: Database, hash: string -> string)
    ensures Create(map["email" := email], db, hash).output == []
  {
    assert !Truthy(Field(map["email" := email], "username"));
  }
}
