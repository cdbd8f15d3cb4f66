/** The Python string behaviour the bots rely on: ASCII case folding, substring
    search, str.split with an explicit one-character separator, and int()/str()
    on integers. */
module Text {
  import opened Wrappers

  // ---------------------------------------------------------------- case folding

  function LowerChar(c: char): char {
    if 'A' <= c <= 'Z' then (c as int - 'A' as int + 'a' as int) as char else c
  }

  function Lower(s: string): string {
    seq(|s|, i requires 0 <= i < |s| => LowerChar(s[i]))
  }

  function UpperChar(c: char): char {
    if 'a' <= c <= 'z' then (c as int - 'a' as int + 'A' as int) as char else c
  }

  function Upper(s: string): string {
    seq(|s|, i requires 0 <= i < |s| => UpperChar(s[i]))
  }

  /** Folding is insensitive to a prior change of case, in either direction. */
  lemma LowerForgetsCase(s: string)
    ensures Lower(Upper(s)) == Lower(s) && Lower(Lower(s)) == Lower(s)
  {
  }

  // ---------------------------------------------------------------- substrings

  /** w occurs in s starting at index i. */
  predicate OccursAt(w: string, s: string, i: int) {
    0 <= i && i + |w| <= |s| && s[i..i + |w|] == w
  }

  /** s begins with w, compared character by character. */
  predicate StartsWith(w: string, s: string)
    decreases |w|
  {
    |w| == 0 || (|s| > 0 && w[0] == s[0] && StartsWith(w[1..], s[1..]))
  }

  lemma {:induction false} StartsWithIsPrefix(w: string, s: string)
    ensures StartsWith(w, s) <==> w <= s
    decreases |w|
  {
    if |w| > 0 && |s| > 0 {
      StartsWithIsPrefix(w[1..], s[1..]);
      assert w == [w[0]] + w[1..];
      assert s == [s[0]] + s[1..];
    }
  }

  /** w is a substring of s (what an unanchored regex literal searches for). */
  predicate IsInfix(w: string, s: string)
    decreases |s|
  {
    StartsWith(w, s) || (|s| > 0 && IsInfix(w, s[1..]))
  }

  lemma {:induction false} InfixIffOccurs(w: string, s: string)
    ensures IsInfix(w, s) <==> exists i :: OccursAt(w, s, i)
    decreases |s|
  {
    StartsWithIsPrefix(w, s);
    assert OccursAt(w, s, 0) <==> w <= s;
    if |s| > 0 && !(w <= s) {
      InfixIffOccurs(w, s[1..]);
      forall i | OccursAt(w, s[1..], i) ensures OccursAt(w, s, i + 1) {
        assert s[1..][i..i + |w|] == s[i + 1..i + 1 + |w|];
      }
      forall i | OccursAt(w, s, i) && i != 0 ensures OccursAt(w, s[1..], i - 1) {
        assert s[1..][i - 1..i - 1 + |w|] == s[i..i + |w|];
      }
    }
  }

  /** A word longer than the text never occurs in it. */
  lemma {:induction false} InfixNotLonger(w: string, s: string)
    requires IsInfix(w, s)
    ensures |w| <= |s|
    decreases |s|
  {
    StartsWithIsPrefix(w, s);
    if !(w <= s) {
      InfixNotLonger(w, s[1..]);
    }
  }

  /** Containment of substrings composes: a word found inside a word found in s is found in s. */
  lemma InfixTransitive(u: string, w: string, s: string)
    requires IsInfix(u, w) && IsInfix(w, s)
    ensures IsInfix(u, s)
  {
    InfixIffOccurs(u, w);
    InfixIffOccurs(w, s);
    var i :| OccursAt(u, w, i);
    var k :| OccursAt(w, s, k);
    assert OccursAt(u, s, k + i) by {
      forall j | 0 <= j < |u| ensures s[k + i + j] == u[j] {
        assert u[j] == w[i..i + |u|][j] == w[i + j];
        assert w[i + j] == s[k..k + |w|][i + j];
      }
      assert s[k + i..k + i + |u|] == u;
    }
    InfixIffOccurs(u, s);
  }

  // ---------------------------------------------------------------- str.split(sep)

  /** Inverse of Split: sep.join(parts). */
  function Join(parts: seq<string>, sep: char): string
    requires |parts| >= 1
    decreases |parts|
  {
    if |parts| == 1 then parts[0] else parts[0] + [sep] + Join(parts[1..], sep)
  }

  /** Python's s.split(sep) for a one-character sep: every occurrence of sep
      separates two fields, so consecutive separators give empty fields and the
      empty string gives [""]. */
  function Split(s: string, sep: char): (parts: seq<string>)
    ensures |parts| >= 1
    ensures forall k :: 0 <= k < |parts| ==> sep !in parts[k]
    ensures Join(parts, sep) == s
    decreases |s|
  {
    if |s| == 0 then [""]
    else if s[0] == sep then [""] + Split(s[1..], sep)
    else
      var rest := Split(s[1..], sep);
      assert s == [s[0]] + s[1..];
      var parts := [[s[0]] + rest[0]] + rest[1..];
      assert parts[1..] == rest[1..];
      parts
  }

  /** A separator-free prefix becomes the first field and the rest is split on its own. */
  lemma {:induction false} SplitAfterField(a: string, sep: char, b: string)
    requires sep !in a
    ensures Split(a + [sep] + b, sep) == [a] + Split(b, sep)
    decreases |a|
  {
    if |a| == 0 {
      assert a + [sep] + b == [sep] + b;
      assert ([sep] + b)[1..] == b;
    } else {
      SplitAfterField(a[1..], sep, b);
      assert (a + [sep] + b)[1..] == a[1..] + [sep] + b;
      assert [a[0]] + a[1..] == a;
    }
  }

  /** Two separator-free fields followed by a separator are the first two fields. */
  lemma SplitTwoFields(a: string, b: string, sep: char, rest: string)
    requires sep !in a && sep !in b
    ensures Split(a + [sep] + b + [sep] + rest, sep) == [a, b] + Split(rest, sep)
  {
    SplitAfterField(b, sep, rest);
    assert a + [sep] + b + [sep] + rest == a + [sep] + (b + [sep] + rest);
    SplitAfterField(a, sep, b + [sep] + rest);
  }

  lemma {:induction false} SplitNoSeparator(a: string, sep: char)
    requires sep !in a
    ensures Split(a, sep) == [a]
    decreases |a|
  {
    if |a| > 0 {
      SplitNoSeparator(a[1..], sep);
      assert [a[0]] + a[1..] == a;
    }
  }

  /** Split undoes Join for separator-free fields, so Split is the unique
      decomposition of s into separator-free fields. */
  lemma {:induction false} SplitJoin(parts: seq<string>, sep: char)
    requires |parts| >= 1
    requires forall k :: 0 <= k < |parts| ==> sep !in parts[k]
    ensures Split(Join(parts, sep), sep) == parts
    decreases |parts|
  {
    if |parts| == 1 {
      SplitNoSeparator(parts[0], sep);
    } else {
      SplitJoin(parts[1..], sep);
      SplitAfterField(parts[0], sep, Join(parts[1..], sep));
      assert [parts[0]] + parts[1..] == parts;
    }
  }

  /** There is a second field exactly when sep occurs in s (the "' ' in cmd" test). */
  lemma {:induction false} SplitHasSecondField(s: string, sep: char)
    ensures |Split(s, sep)| > 1 <==> sep in s
    decreases |s|
  {
    if |s| > 0 && s[0] != sep {
      SplitHasSecondField(s[1..], sep);
      assert s == [s[0]] + s[1..];
    }
  }

  // ---------------------------------------------------------------- int() and str()

  /** The characters Python's int() strips around a literal (str.isspace). */
  predicate IsSpace(c: char) {
    var n := c as int;
    n == 0x20 || 0x09 <= n <= 0x0D || 0x1C <= n <= 0x1F || n == 0x85 || n == 0xA0
    || n == 0x1680 || 0x2000 <= n <= 0x200A || n == 0x2028 || n == 0x2029
    || n == 0x202F || n == 0x205F || n == 0x3000
  }

  function TrimStart(s: string): (t: string)
    ensures |t| > 0 ==> !IsSpace(t[0])
    ensures |t| <= |s| && t == s[|s| - |t|..]
    decreases |s|
  {
    if |s| > 0 && IsSpace(s[0]) then TrimStart(s[1..]) else s
  }

  function TrimEnd(s: string): string
    decreases |s|
  {
    if |s| > 0 && IsSpace(s[|s| - 1]) then TrimEnd(s[..|s| - 1]) else s
  }

  /** str.strip() with no argument. */
  function Strip(s: string): (t: string)
    ensures |t| > 0 ==> !IsSpace(t[0]) && !IsSpace(t[|t| - 1])
  {
    TrimEndKeepsStart(TrimStart(s));
    TrimEnd(TrimStart(s))
  }

  lemma {:induction false} TrimEndKeepsStart(s: string)
    requires |s| > 0 ==> !IsSpace(s[0])
    ensures var t := TrimEnd(s); (|t| > 0 ==> !IsSpace(t[0]) && !IsSpace(t[|t| - 1])) && t <= s
    decreases |s|
  {
    if |s| > 0 && IsSpace(s[|s| - 1]) {
      TrimEndKeepsStart(s[..|s| - 1]);
    }
  }

  /** The stripped text is a substring of the original. */
  lemma StripIsInside(s: string)
    ensures exists k :: OccursAt(Strip(s), s, k)
  {
    var a := TrimStart(s);
    TrimEndKeepsStart(a);
    var t := TrimEnd(a);
    var k := |s| - |a|;
    assert s[k..k + |t|] == a[..|t|] == t;
    assert OccursAt(t, s, k);
    assert Strip(s) == t;
  }

  predicate IsDigit(c: char) { '0' <= c <= '9' }

  function DigitValue(c: char): nat
    requires IsDigit(c)
  {
    c as int - '0' as int
  }

  function DigitChar(d: nat): char
    requires d < 10
  {
    ('0' as int + d) as char
  }

  /** The digit part of a base-10 int() literal: ASCII digits, where one '_'
      may stand between two digits. */
  predicate DigitRun(s: string) {
    && |s| > 0
    && IsDigit(s[0])
    && IsDigit(s[|s| - 1])
    && (forall i :: 0 <= i < |s| ==> IsDigit(s[i]) || s[i] == '_')
    && (forall i :: 0 <= i < |s| - 1 ==> s[i] == '_' ==> s[i + 1] != '_')
  }

  /** The number a digit run denotes; underscores carry no value. */
  function RunValue(s: string): nat
    requires forall i :: 0 <= i < |s| ==> IsDigit(s[i]) || s[i] == '_'
    decreases |s|
  {
    if |s| == 0 then 0
    else if s[|s| - 1] == '_' then RunValue(s[..|s| - 1])
    else RunValue(s[..|s| - 1]) * 10 + DigitValue(s[|s| - 1])
  }

  /** Python's int(s) for a str s (base 10): surrounding whitespace is
      stripped, one sign is allowed, and anything else is a ValueError. */
  function ParseInt(s: string): (r: Result<int>)
    ensures r.Err? ==> r.error == ValueError
    ensures r.Ok? ==> |Strip(s)| > 0 && (IsDigit(Strip(s)[0]) || Strip(s)[0] in "+-")
  {
    var t := Strip(s);
    if |t| > 0 && (t[0] == '+' || t[0] == '-') then
      if DigitRun(t[1..]) then
        var v: int := RunValue(t[1..]);
        Ok(if t[0] == '-' then -v else v)
      else Err(ValueError)
    else if DigitRun(t) then Ok(RunValue(t))
    else Err(ValueError)
  }

  /** Python's str(n) on a non-negative int: shortest decimal, no leading zeros. */
  function ShowNat(n: nat): (s: string)
    ensures |s| > 0 && forall i :: 0 <= i < |s| ==> IsDigit(s[i])
  {
    if n < 10 then [DigitChar(n)] else ShowNat(n / 10) + [DigitChar(n % 10)]
  }

  /** Python's str(n) on an int. */
  function ShowInt(n: int): string {
    if n < 0 then "-" + ShowNat(-n) else ShowNat(n)
  }

  /** A numeral is a single token: it holds no space. */
  lemma ShowIntNoSpace(n: int)
    ensures ' ' !in ShowInt(n)
  {
    var d := ShowNat(if n < 0 then -n else n);
    assert forall i :: 0 <= i < |d| ==> d[i] != ' ';
  }

  lemma {:induction false} ShowNatValue(n: nat)
    ensures RunValue(ShowNat(n)) == n
  {
    if n >= 10 {
      ShowNatValue(n / 10);
      var s := ShowNat(n);
      assert s[..|s| - 1] == ShowNat(n / 10);
    }
  }

  /** int() accepts nothing without an ASCII digit in it. */
  lemma ParseNeedsDigit(s: string)
    requires ParseInt(s).Ok?
    ensures exists i :: 0 <= i < |s| && IsDigit(s[i])
  {
    var t := Strip(s);
    StripIsInside(s);
    var k :| OccursAt(t, s, k);
    var d := if IsDigit(t[0]) then 0 else 1;
    assert IsDigit(t[d]);
    assert s[k + d] == s[k..k + |t|][d] == t[d];
  }

  lemma StripNoSpace(s: string)
    requires |s| > 0 && !IsSpace(s[0]) && !IsSpace(s[|s| - 1])
    ensures Strip(s) == s
  {
    assert TrimStart(s) == s;
  }

  lemma ParseDigitRun(t: string)
    requires DigitRun(t) && !IsSpace(t[|t| - 1])
    ensures ParseInt(t) == Ok(RunValue(t))
  {
    StripNoSpace(t);
  }

  lemma ParseSignedDigitRun(t: string)
    requires |t| > 1 && t[0] == '-' && DigitRun(t[1..]) && !IsSpace(t[|t| - 1])
    ensures ParseInt(t) == Ok(-(RunValue(t[1..]) as int))
  {
    StripNoSpace(t);
  }

  /** What int() accepted: the stripped text is a digit run with at most one
      sign before it, and the value is that run's, negated after a '-'. */
  lemma ParseIntValue(s: string)
    requires ParseInt(s).Ok?
    ensures var t := Strip(s);
      var u := if t[0] == '+' || t[0] == '-' then t[1..] else t;
      && DigitRun(u)
      && ParseInt(s).value == (if t[0] == '-' then -(RunValue(u) as int) else RunValue(u))
  {
  }

  // The int() examples below fix their text with `requires s == "..."` so
  // that each proof works from a few facts about s instead of unfolding the
  // literal into every clause; this keeps them cheap.

  /** Surrounding whitespace is stripped. */
  lemma ParseStripsSpace(s: string)
    requires s == " 42\n"
    ensures ParseInt(s) == Ok(42)
  {
    var u := s[1..];
    var t := u[..2];
    assert u == "42\n" && t == "42";
    assert IsSpace(s[0]) && !IsSpace(u[0]);
    assert TrimStart(u) == u;
    assert TrimStart(s) == u;
    assert IsSpace(u[2]) && !IsSpace(t[1]);
    assert TrimEnd(t) == t;
    assert TrimEnd(u) == t;
    assert Strip(s) == t;
    RunValueSnoc("4", '2');
    assert RunValue(t) == 42;
  }

  /** A '+' sign is accepted. */
  lemma ParsePlusSign(s: string)
    requires s == "+7"
    ensures ParseInt(s) == Ok(7)
  {
    StripNoSpace(s);
    var u := s[1..];
    assert u == "7";
    assert DigitRun(u);
    assert RunValue(u) == RunValue(u[..0]) * 10 + 7;
  }

  /** Appending a character adds a digit, or nothing for '_'. */
  lemma RunValueSnoc(u: string, c: char)
    requires forall i :: 0 <= i < |u| ==> IsDigit(u[i]) || u[i] == '_'
    requires IsDigit(c) || c == '_'
    ensures RunValue(u + [c]) == if c == '_' then RunValue(u) else RunValue(u) * 10 + DigitValue(c)
  {
    assert (u + [c])[..|u|] == u;
  }

  /** A single underscore between digits carries no value. */
  lemma ParseUnderscore(s: string)
    requires s == "1_000"
    ensures ParseInt(s) == Ok(1000)
  {
    var p1 := "1";
    var p2 := p1 + "_";
    var p3 := p2 + "0";
    var p4 := p3 + "0";
    var p5 := p4 + "0";
    RunValueSnoc(p1, '_');
    RunValueSnoc(p2, '0');
    RunValueSnoc(p3, '0');
    RunValueSnoc(p4, '0');
    assert RunValue(p5) == 1000;
    assert p5 == s;
    assert forall i :: 0 <= i < |s| ==> IsDigit(s[i]) || s[i] == '_';
    assert forall i :: 0 <= i < |s| - 1 ==> s[i] == '_' ==> s[i + 1] != '_';
    ParseDigitRun(s);
  }

  /** Leading zeros are accepted. */
  lemma ParseLeadingZeros(s: string)
    requires s == "007"
    ensures ParseInt(s) == Ok(7)
  {
    var p1 := "0";
    var p2 := p1 + "0";
    var p3 := p2 + "7";
    RunValueSnoc(p1, '0');
    RunValueSnoc(p2, '7');
    assert RunValue(p3) == 7;
    assert p3 == s;
    assert forall i :: 0 <= i < |s| ==> IsDigit(s[i]);
    ParseDigitRun(s);
  }

  /** A doubled underscore, a leading underscore and a space after the sign
      are rejected. */
  lemma ParseRejects(a: string, b: string, c: string)
    requires a == "1__0" && b == "_1" && c == "- 1"
    ensures ParseInt(a) == Err(ValueError)
    ensures ParseInt(b) == Err(ValueError)
    ensures ParseInt(c) == Err(ValueError)
  {
    StripNoSpace(a);
    assert !DigitRun(a) by { assert a[1] == '_' && a[2] == '_'; }
    StripNoSpace(b);
    StripNoSpace(c);
    assert c[1..][0] == ' ';
  }

  /** int(str(n)) == n for every integer. */
  lemma IntOfStr(n: int)
    ensures ParseInt(ShowInt(n)) == Ok(n)
  {
    var m: nat := if n < 0 then -n else n;
    var d := ShowNat(m);
    ShowNatValue(m);
    assert DigitRun(d);
    if n < 0 {
      var s := "-" + d;
      assert s[1..] == d;
      ParseSignedDigitRun(s);
    } else {
      ParseDigitRun(d);
    }
  }
}
