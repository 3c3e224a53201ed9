/** String helpers shared by the models: decimal formatting of integers as
    JavaScript, PHP and Python print them, the numeric-prefix parsers
    behind PHP intval/floatval and JavaScript parseInt, and the splitting
    primitives (explode/split, join, strtok). */
module Text {
  import opened Common

  predicate IsDigit(c: char) { '0' <= c <= '9' }

  predicate AllDigits(s: string) { forall i :: 0 <= i < |s| ==> IsDigit(s[i]) }

  /** ASCII whitespace skipped by PHP's numeric conversions and by parseInt. */
  predicate IsSpace(c: char) {
    c == ' ' || c == '\t' || c == '\n' || c == '\r' || c == 11 as char || c == 12 as char
  }

  function DigitChar(d: nat): (c: char)
    requires d < 10
    ensures IsDigit(c)
  {
    (48 + d) as char
  }

  function DigitValue(c: char): (d: nat)
    requires IsDigit(c)
    ensures d < 10
  {
    (c as int - 48) as nat
  }

  /** Decimal digits of a natural number, most significant first. */
  function NatToString(n: nat): (s: string)
    ensures |s| > 0 && AllDigits(s)
  {
    if n < 10 then [DigitChar(n)] else NatToString(n / 10) + [DigitChar(n % 10)]
  }

  /** An integral number printed by JavaScript's String(), PHP's string
      conversion or Python's str(). */
  function IntToString(i: int): (s: string)
    ensures |s| > 0
    ensures i >= 0 ==> AllDigits(s)
    ensures i < 0 ==> s[0] == '-' && AllDigits(s[1..])
  {
    if i < 0 then "-" + NatToString(-i) else NatToString(i)
  }

  /** The value of a run of decimal digits. */
  function DigitsValue(s: string): nat
    requires AllDigits(s)
  {
    if |s| == 0 then 0 else 10 * DigitsValue(s[..|s| - 1]) + DigitValue(s[|s| - 1])
  }

  lemma {:induction false} DigitsOfNat(n: nat)
    ensures DigitsValue(NatToString(n)) == n
  {
    var s := NatToString(n);
    if n >= 10 {
      DigitsOfNat(n / 10);
      assert s[..|s| - 1] == NatToString(n / 10);
    }
  }

  /** Length of the longest prefix of s made of characters satisfying
      the digit test. */
  function DigitRun(s: string): (k: nat)
    ensures k <= |s| && AllDigits(s[..k])
    ensures k < |s| ==> !IsDigit(s[k])
  {
    if |s| == 0 || !IsDigit(s[0]) then 0
    else
      var k := 1 + DigitRun(s[1..]);
      assert s[..k] == [s[0]] + s[1..][..k - 1];
      k
  }

  lemma {:induction false} DigitRunOfDigits(d: string, rest: string)
    requires AllDigits(d)
    requires |rest| == 0 || !IsDigit(rest[0])
    ensures DigitRun(d + rest) == |d|
    decreases |d|
  {
    if |d| > 0 {
      DigitRunOfDigits(d[1..], rest);
      assert (d + rest)[1..] == d[1..] + rest;
    }
  }

  function SkipSpaces(s: string): (t: string)
    ensures |t| <= |s|
    ensures |t| > 0 ==> !IsSpace(t[0])
  {
    if |s| > 0 && IsSpace(s[0]) then SkipSpaces(s[1..]) else s
  }

  /** Sign and digits of a leading integer: the sign is -1 or 1, and the
      digit run is empty when there is no number. */
  function SignedDigits(s: string): (r: (int, string))
    ensures r.0 == 1 || r.0 == -1
    ensures AllDigits(r.1)
  {
    var t := SkipSpaces(s);
    if |t| > 0 && (t[0] == '-' || t[0] == '+') then
      (if t[0] == '-' then -1 else 1, t[1..][..DigitRun(t[1..])])
    else (1, t[..DigitRun(t)])
  }

  /** JavaScript parseInt(s, 10): the leading integer, or NaN (None). */
  function ParseIntPrefix(s: string): (r: Option<int>)
    ensures r.None? <==> |SignedDigits(s).1| == 0
  {
    var (sign, digits) := SignedDigits(s);
    if |digits| == 0 then None else Some(sign * DigitsValue(digits))
  }

  /** PHP intval(): the leading integer, 0 when there is none. */
  function IntVal(s: string): int
  {
    ParseIntPrefix(s).GetOr(0)
  }

  /** Value of a run of fraction digits d1 d2 ... as d1/10 + d2/100 + ... */
  function FractionValue(s: string): real
    requires AllDigits(s)
  {
    if |s| == 0 then 0.0 else (DigitValue(s[0]) as real + FractionValue(s[1..])) / 10.0
  }

  /** PHP floatval() on decimal notation: sign, integer digits, and an
      optional '.' followed by fraction digits; 0 when there is no number.
      Exponent notation and binary rounding are not modelled. */
  function FloatVal(s: string): real
  {
    var t := SkipSpaces(s);
    var neg := |t| > 0 && t[0] == '-';
    var u := if |t| > 0 && (t[0] == '-' || t[0] == '+') then t[1..] else t;
    var k := DigitRun(u);
    var intPart := DigitsValue(u[..k]) as real;
    var frac :=
      if k < |u| && u[k] == '.' then
        var f := u[k + 1..]; FractionValue(f[..DigitRun(f)])
      else 0.0;
    if neg then -(intPart + frac) else intPart + frac
  }

  /** A digit run followed by something that does not continue a number. */
  predicate NumberEnds(rest: string)
  {
    |rest| == 0 || (!IsDigit(rest[0]) && rest[0] != '.')
  }

  lemma UnsignedParse(d: string, rest: string)
    requires |d| > 0 && AllDigits(d) && NumberEnds(rest)
    ensures SignedDigits(d + rest) == (1, d)
    ensures FloatVal(d + rest) == DigitsValue(d) as real
  {
    UnsignedSigned(d, rest);
    UnsignedFloat(d, rest);
  }

  lemma UnsignedSigned(d: string, rest: string)
    requires |d| > 0 && AllDigits(d) && NumberEnds(rest)
    ensures SignedDigits(d + rest) == (1, d)
  {
    DigitRunOfDigits(d, rest);
    assert (d + rest)[..|d|] == d;
    assert SkipSpaces(d + rest) == d + rest;
  }

  lemma UnsignedFloat(d: string, rest: string)
    requires |d| > 0 && AllDigits(d) && NumberEnds(rest)
    ensures FloatVal(d + rest) == DigitsValue(d) as real
  {
    DigitRunOfDigits(d, rest);
    assert (d + rest)[..|d|] == d;
    assert SkipSpaces(d + rest) == d + rest;
  }

  lemma NegativeParse(d: string, rest: string)
    requires |d| > 0 && AllDigits(d) && NumberEnds(rest)
    ensures SignedDigits("-" + (d + rest)) == (-1, d)
    ensures FloatVal("-" + (d + rest)) == -(DigitsValue(d) as real)
  {
    NegativeSigned(d, rest);
    NegativeFloat(d, rest);
  }

  lemma NegativeSigned(d: string, rest: string)
    requires |d| > 0 && AllDigits(d) && NumberEnds(rest)
    ensures SignedDigits("-" + (d + rest)) == (-1, d)
  {
    DigitRunOfDigits(d, rest);
    assert (d + rest)[..|d|] == d && ("-" + (d + rest))[1..] == d + rest;
    assert SkipSpaces("-" + (d + rest)) == "-" + (d + rest);
  }

  lemma NegativeFloat(d: string, rest: string)
    requires |d| > 0 && AllDigits(d) && NumberEnds(rest)
    ensures FloatVal("-" + (d + rest)) == -(DigitsValue(d) as real)
  {
    DigitRunOfDigits(d, rest);
    assert (d + rest)[..|d|] == d && ("-" + (d + rest))[1..] == d + rest;
    assert SkipSpaces("-" + (d + rest)) == "-" + (d + rest);
  }

  /** A printed integer followed by anything that does not continue the
      number parses back to that integer. */
  lemma IntToStringParses(i: int, rest: string)
    requires |rest| == 0 || (!IsDigit(rest[0]) && rest[0] != '.')
    ensures ParseIntPrefix(IntToString(i) + rest) == Some(i)
    ensures IntVal(IntToString(i) + rest) == i
    ensures FloatVal(IntToString(i) + rest) == i as real
  {
    var n: nat := if i < 0 then -i else i;
    var d := NatToString(n);
    DigitsOfNat(n);
    if i < 0 {
      assert IntToString(i) + rest == "-" + (d + rest);
      NegativeParse(d, rest);
    } else {
      assert IntToString(i) + rest == d + rest;
      UnsignedParse(d, rest);
    }
  }

  /** explode/split on one separator character: the pieces between
      separators, always at least one (the empty string gives [""]). */
  function Split(s: string, sep: char): (parts: seq<string>)
    ensures |parts| > 0
    ensures forall k :: 0 <= k < |parts| ==> sep !in parts[k]
  {
    if |s| == 0 then [""]
    else
      var rest := Split(s[1..], sep);
      if s[0] == sep then [""] + rest
      else [[s[0]] + rest[0]] + rest[1..]
  }

  /** Array.prototype.join / str.join with a separator string. */
  function Join(parts: seq<string>, sep: string): string
  {
    if |parts| == 0 then ""
    else if |parts| == 1 then parts[0]
    else parts[0] + sep + Join(parts[1..], sep)
  }

  lemma {:induction false} JoinSplit(s: string, sep: char)
    ensures Join(Split(s, sep), [sep]) == s
  {
    if |s| > 0 {
      JoinSplit(s[1..], sep);
      var rest := Split(s[1..], sep);
      if s[0] != sep {
        if |rest| > 1 {
          assert ([[s[0]] + rest[0]] + rest[1..])[1..] == rest[1..];
          assert Join(rest, [sep]) == rest[0] + [sep] + Join(rest[1..], [sep]);
        }
      }
    }
  }

  lemma {:induction false} SplitJoin(parts: seq<string>, sep: char)
    requires |parts| > 0
    requires forall k :: 0 <= k < |parts| ==> sep !in parts[k]
    ensures Split(Join(parts, [sep]), sep) == parts
    decreases |parts|, |parts[0]|
  {
    if |parts[0]| > 0 {
      var p0' := parts[0][1..];
      var parts' := [p0'] + parts[1..];
      SplitJoin(parts', sep);
      assert parts[0] == [parts[0][0]] + p0';
      assert parts'[1..] == parts[1..];
      if |parts| > 1 {
        assert Join(parts', [sep]) == p0' + [sep] + Join(parts[1..], [sep]);
      }
      assert Join(parts, [sep]) == [parts[0][0]] + Join(parts', [sep]);
      assert Join(parts, [sep])[1..] == Join(parts', [sep]);
      assert Join(parts, [sep])[0] != sep;
    } else if |parts| > 1 {
      SplitJoin(parts[1..], sep);
      assert Join(parts, [sep]) == [sep] + Join(parts[1..], [sep]);
      assert Join(parts, [sep])[1..] == Join(parts[1..], [sep]);
    }
  }

  /** A piece without the separator, the separator, and the rest split
      into that piece followed by the pieces of the rest. */
  lemma {:induction false} SplitAfterPiece(a: string, rest: string, sep: char)
    requires sep !in a
    ensures Split(a + [sep] + rest, sep) == [a] + Split(rest, sep)
    decreases |a|
  {
    var s := a + [sep] + rest;
    if |a| == 0 {
      assert s == [sep] + rest;
      assert s[1..] == rest;
    } else {
      SplitAfterPiece(a[1..], rest, sep);
      assert s[1..] == a[1..] + [sep] + rest;
      assert [a[0]] + a[1..] == a;
    }
  }

  /** The string with every occurrence of the given characters removed
      (repeated str_replace with an empty replacement). */
  function RemoveChars(s: string, cs: set<char>): (t: string)
    ensures forall k :: 0 <= k < |t| ==> t[k] !in cs
    ensures |t| <= |s|
  {
    if |s| == 0 then ""
    else (if s[0] in cs then "" else [s[0]]) + RemoveChars(s[1..], cs)
  }

  lemma Assoc(a: string, b: string, c: string)
    ensures a + (b + c) == a + b + c
  {
  }

  /** No character of s is in cs. */
  predicate Avoids(s: string, cs: set<char>)
  {
    forall i :: 0 <= i < |s| ==> s[i] !in cs
  }

  lemma {:induction false} RemoveCharsAppend(a: string, b: string, cs: set<char>)
    ensures RemoveChars(a + b, cs) == RemoveChars(a, cs) + RemoveChars(b, cs)
    decreases |a|
  {
    if |a| > 0 {
      RemoveCharsAppend(a[1..], b, cs);
      assert (a + b)[1..] == a[1..] + b;
    } else {
      assert a + b == b;
    }
  }

  lemma {:induction false} RemoveCharsAvoiding(s: string, cs: set<char>)
    requires Avoids(s, cs)
    ensures RemoveChars(s, cs) == s
    decreases |s|
  {
    if |s| > 0 {
      RemoveCharsAvoiding(s[1..], cs);
    }
  }

  /** Joining pieces that avoid a set of characters with a separator that
      avoids it gives a string that avoids it. */
  lemma {:induction false} JoinAvoids(parts: seq<string>, sep: string, cs: set<char>)
    requires forall k :: 0 <= k < |parts| ==> Avoids(parts[k], cs)
    requires Avoids(sep, cs)
    ensures Avoids(Join(parts, sep), cs)
    decreases |parts|
  {
    if |parts| > 1 {
      JoinAvoids(parts[1..], sep, cs);
      var j := Join(parts[1..], sep);
      assert Join(parts, sep) == parts[0] + sep + j;
      assert Avoids(parts[0], cs);
      forall i | 0 <= i < |Join(parts, sep)|
        ensures Join(parts, sep)[i] !in cs
      {
        if i >= |parts[0]| + |sep| {
          assert Join(parts, sep)[i] == j[i - |parts[0]| - |sep|];
        } else if i >= |parts[0]| {
          assert Join(parts, sep)[i] == sep[i - |parts[0]|];
        }
      }
    } else if |parts| == 1 {
      assert Avoids(parts[0], cs);
    }
  }

  /** Join with one more piece at the end. */
  lemma {:induction false} JoinSnoc(parts: seq<string>, last: string, sep: string)
    requires |parts| > 0
    ensures Join(parts + [last], sep) == Join(parts, sep) + sep + last
    decreases |parts|
  {
    if |parts| > 1 {
      JoinSnoc(parts[1..], last, sep);
      assert (parts + [last])[1..] == parts[1..] + [last];
    } else {
      assert (parts + [last])[1..] == [last];
    }
  }

  /** A printed integer holds only digits and a minus sign. */
  lemma IntToStringChars(i: int)
    ensures forall j :: 0 <= j < |IntToString(i)| ==> IsDigit(IntToString(i)[j]) || IntToString(i)[j] == '-'
  {
    var s := IntToString(i);
    if i < 0 {
      forall j | 1 <= j < |s| ensures IsDigit(s[j]) {
        assert s[j] == s[1..][j - 1];
      }
    }
  }

  /** Length of the leading run of characters that are not delimiters. */
  function WordRun(s: string, delims: set<char>): (k: nat)
    ensures k <= |s|
    ensures forall i :: 0 <= i < k ==> s[i] !in delims
    ensures k < |s| ==> s[k] in delims
  {
    if |s| == 0 || s[0] in delims then 0 else 1 + WordRun(s[1..], delims)
  }

  /** The successive results of PHP strtok($s, $delims) followed by
      strtok($delims) until it returns false: the maximal non-empty runs
      of non-delimiter characters, in order. */
  function Tokens(s: string, delims: set<char>): (ts: seq<string>)
    ensures forall k :: 0 <= k < |ts| ==> |ts[k]| > 0
    ensures forall k, i :: 0 <= k < |ts| && 0 <= i < |ts[k]| ==> ts[k][i] !in delims
    decreases |s|
  {
    if |s| == 0 then []
    else if s[0] in delims then Tokens(s[1..], delims)
    else
      var k := WordRun(s, delims);
      [s[..k]] + Tokens(s[k..], delims)
  }

  lemma {:induction false} TokensWordThenDelim(w: string, rest: string, delims: set<char>)
    requires |w| > 0 && forall i :: 0 <= i < |w| ==> w[i] !in delims
    requires |rest| == 0 || rest[0] in delims
    ensures Tokens(w + rest, delims) == [w] + Tokens(rest, delims)
  {
    WordRunOf(w, rest, delims);
    assert (w + rest)[..|w|] == w;
    assert (w + rest)[|w|..] == rest;
  }

  lemma {:induction false} WordRunOf(w: string, rest: string, delims: set<char>)
    requires forall i :: 0 <= i < |w| ==> w[i] !in delims
    requires |rest| == 0 || rest[0] in delims
    ensures WordRun(w + rest, delims) == |w|
    decreases |w|
  {
    if |w| > 0 {
      WordRunOf(w[1..], rest, delims);
      assert (w + rest)[1..] == w[1..] + rest;
    }
  }

  lemma {:induction false} TokensDelimsFirst(d: string, rest: string, delims: set<char>)
    requires forall i :: 0 <= i < |d| ==> d[i] in delims
    ensures Tokens(d + rest, delims) == Tokens(rest, delims)
    decreases |d|
  {
    if |d| > 0 {
      TokensDelimsFirst(d[1..], rest, delims);
      var s := d + rest;
      assert s[0] == d[0] && s[0] in delims;
      assert s[1..] == d[1..] + rest;
      assert Tokens(s, delims) == Tokens(s[1..], delims);
      assert Tokens(s[1..], delims) == Tokens(d[1..] + rest, delims);
    } else {
      assert d + rest == rest;
    }
  }

  /** The string without trailing characters from the set (Python rstrip). */
  function RStrip(s: string, cs: set<char>): (t: string)
    ensures |t| <= |s| && t == s[..|t|]
    ensures |t| == 0 || t[|t| - 1] !in cs
    ensures forall i :: |t| <= i < |s| ==> s[i] in cs
  {
    if |s| > 0 && s[|s| - 1] in cs then RStrip(s[..|s| - 1], cs) else s
  }

  /** The string without leading and trailing whitespace (String.trim and
      str.strip restricted to ASCII whitespace). */
  function Trim(s: string): (t: string)
    ensures |t| == 0 || (!IsSpace(t[0]) && !IsSpace(t[|t| - 1]))
  {
    var u := SkipSpaces(s);
    RStrip(u, set c | c in u && IsSpace(c))
  }
}
