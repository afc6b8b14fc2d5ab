/**
 * The string operations of JavaScript that the server and the web client rely on:
 * white space as `\s` and `trim()` see it, ASCII `toLowerCase()`, `includes()`,
 * `split('\n')` and `join`, decimal rendering of a count, and a total order on
 * strings standing in for `localeCompare`.
 */
module Text {

  /** The characters JavaScript's `\s` class and `String.prototype.trim` treat as white space. */
  predicate IsWhitespace(c: char) {
    || c == ' ' || c == '\t' || c == '\n' || c == '\U{000B}' || c == '\U{000C}' || c == '\r'
    || c == '\U{00A0}' || c == '\U{1680}' || ('\U{2000}' <= c <= '\U{200A}')
    || c == '\U{2028}' || c == '\U{2029}' || c == '\U{202F}' || c == '\U{205F}'
    || c == '\U{3000}' || c == '\U{FEFF}'
  }

  predicate AllWhitespace(s: string) {
    forall i :: 0 <= i < |s| ==> IsWhitespace(s[i])
  }

  // ---------------------------------------------------------------- case

  function LowerChar(c: char): char {
    if 'A' <= c <= 'Z' then (c as int + 32) as char else c
  }

  /** `toLowerCase()` restricted to ASCII letters. */
  function ToLower(s: string): (r: string)
    ensures |r| == |s|
    ensures forall i :: 0 <= i < |s| ==> r[i] == LowerChar(s[i])
    ensures forall i :: 0 <= i < |r| ==> !('A' <= r[i] <= 'Z')
  {
    if s == [] then [] else [LowerChar(s[0])] + ToLower(s[1..])
  }

  lemma {:induction false} ToLowerIdempotent(s: string)
    ensures ToLower(ToLower(s)) == ToLower(s)
  {
    var once := ToLower(s);
    var twice := ToLower(once);
    assert |twice| == |once|;
    forall i | 0 <= i < |once| ensures twice[i] == once[i] {
      assert !('A' <= once[i] <= 'Z');
    }
  }

  // ---------------------------------------------------------------- includes

  predicate IsPrefix(p: string, s: string) {
    |p| <= |s| && s[..|p|] == p
  }

  /** `s.includes(term)`: some position of `s` starts a copy of `term`. */
  predicate Includes(s: string, term: string)
    decreases |s|
  {
    IsPrefix(term, s) || (s != [] && Includes(s[1..], term))
  }

  /** The reference definition of a substring occurrence. */
  ghost predicate OccursAt(s: string, term: string, k: int) {
    0 <= k && k + |term| <= |s| && s[k..k + |term|] == term
  }

  lemma {:induction false} IncludesOccurs(s: string, term: string)
    requires Includes(s, term)
    ensures exists k :: OccursAt(s, term, k)
    decreases |s|
  {
    if IsPrefix(term, s) {
      assert OccursAt(s, term, 0);
    } else {
      IncludesOccurs(s[1..], term);
      var k :| OccursAt(s[1..], term, k);
      assert s[k + 1..k + 1 + |term|] == s[1..][k..k + |term|];
      assert OccursAt(s, term, k + 1);
    }
  }

  lemma {:induction false} OccursIncludes(s: string, term: string, k: int)
    requires OccursAt(s, term, k)
    ensures Includes(s, term)
    decreases k
  {
    if k == 0 {
      assert s[..|term|] == s[0..|term|];
    } else {
      assert s[1..][k - 1..k - 1 + |term|] == s[k..k + |term|];
      OccursIncludes(s[1..], term, k - 1);
    }
  }

  /** `includes` agrees with the reference definition, both ways. */
  lemma IncludesIffOccurs(s: string, term: string)
    ensures Includes(s, term) <==> exists k :: OccursAt(s, term, k)
  {
    if Includes(s, term) {
      IncludesOccurs(s, term);
    }
    if exists k :: OccursAt(s, term, k) {
      var k :| OccursAt(s, term, k);
      OccursIncludes(s, term, k);
    }
  }

  /** Every string includes the empty string (JavaScript's `'abc'.includes('')` is true). */
  lemma IncludesEmpty(s: string)
    ensures Includes(s, "")
  {
    assert IsPrefix("", s);
  }

  // ---------------------------------------------------------------- trim

  /** `trimEnd()`: white space cut off the end; the first character stays where one stays. */
  function TrimEnd(s: string): (r: string)
    ensures |r| <= |s|
    ensures r == [] || !IsWhitespace(r[|r| - 1])
    ensures r != [] ==> r[0] == s[0]
  {
    if s != [] && IsWhitespace(s[|s| - 1]) then TrimEnd(s[..|s| - 1]) else s
  }

  /**
   * `trim()`: white space cut off the start, then off the end. The result
   * neither starts nor ends in white space; `TrimSlice` says what it is cut from.
   */
  function Trim(s: string): (r: string)
    ensures |r| <= |s|
    ensures r == [] || (!IsWhitespace(r[0]) && !IsWhitespace(r[|r| - 1]))
  {
    if s != [] && IsWhitespace(s[0]) then Trim(s[1..]) else TrimEnd(s)
  }

  lemma AllWhitespaceCons(s: string)
    requires s != []
    ensures AllWhitespace(s) <==> IsWhitespace(s[0]) && AllWhitespace(s[1..])
  {
    assert forall i :: 0 <= i < |s[1..]| ==> s[1..][i] == s[i + 1];
  }

  lemma AllWhitespaceSnoc(s: string)
    requires s != []
    ensures AllWhitespace(s) <==> IsWhitespace(s[|s| - 1]) && AllWhitespace(s[..|s| - 1])
  {
    assert forall i :: 0 <= i < |s| - 1 ==> s[..|s| - 1][i] == s[i];
  }

  /** `TrimEnd` cuts a white-space suffix and nothing else. */
  lemma {:induction false} TrimEndSlice(s: string)
    ensures TrimEnd(s) == s[..|TrimEnd(s)|]
    ensures AllWhitespace(s[|TrimEnd(s)|..])
    decreases |s|
  {
    if s != [] && IsWhitespace(s[|s| - 1]) {
      var s' := s[..|s| - 1];
      TrimEndSlice(s');
      var k := |TrimEnd(s)|;
      assert s'[..k] == s[..k];
      forall i | 0 <= i < |s| - k - 1 ensures IsWhitespace(s[k..][i]) {
        assert s[k..][i] == s'[k..][i];
      }
    }
  }

  /** A white-space character in front of a slice that a white-space prefix precedes. */
  lemma TrimSliceCons(s: string, a: nat, b: nat)
    requires s != [] && IsWhitespace(s[0])
    requires a <= b <= |s| - 1
    requires AllWhitespace(s[1..][..a]) && AllWhitespace(s[1..][b..])
    ensures s[1..][a..b] == s[a + 1..b + 1]
    ensures AllWhitespace(s[..a + 1]) && AllWhitespace(s[b + 1..])
  {
    var t := s[1..];
    assert t[b..] == s[b + 1..];
    var p := s[..a + 1];
    forall i | 0 <= i < |p| ensures IsWhitespace(p[i]) {
      if i > 0 {
        assert p[i] == t[..a][i - 1];
      }
    }
  }

  /** `trim()` cuts only white space, and only off either end of `s`. */
  lemma {:induction false} TrimSlice(s: string)
    ensures exists a, b :: 0 <= a <= b <= |s| && Trim(s) == s[a..b] && AllWhitespace(s[..a]) && AllWhitespace(s[b..])
    decreases |s|
  {
    if s != [] && IsWhitespace(s[0]) {
      var t := s[1..];
      TrimSlice(t);
      var a, b :| 0 <= a <= b <= |t| && Trim(t) == t[a..b] && AllWhitespace(t[..a]) && AllWhitespace(t[b..]);
      TrimSliceCons(s, a, b);
      assert Trim(s) == s[a + 1..b + 1];
    } else {
      TrimEndSlice(s);
      assert s[..0] == [];
    }
  }

  lemma {:induction false} TrimEndBlank(s: string)
    ensures TrimEnd(s) == [] <==> AllWhitespace(s)
    decreases |s|
  {
    if s != [] {
      AllWhitespaceSnoc(s);
      if IsWhitespace(s[|s| - 1]) {
        TrimEndBlank(s[..|s| - 1]);
      }
    }
  }

  /** `trim()` yields the empty string exactly on blank input. */
  lemma {:induction false} TrimBlank(s: string)
    ensures Trim(s) == [] <==> AllWhitespace(s)
    decreases |s|
  {
    if s != [] {
      AllWhitespaceCons(s);
      if IsWhitespace(s[0]) {
        TrimBlank(s[1..]);
      } else {
        TrimEndBlank(s);
      }
    }
  }

  /** A leading white-space character never survives `trim()`. */
  lemma TrimConsWhitespace(c: char, s: string)
    requires IsWhitespace(c)
    ensures Trim([c] + s) == Trim(s)
  {
    assert ([c] + s)[1..] == s;
  }

  /** A trailing white-space character never survives `trim()`. */
  lemma {:induction false} TrimSnocWhitespace(s: string, c: char)
    requires IsWhitespace(c)
    ensures Trim(s + [c]) == Trim(s)
    decreases |s|
  {
    if s == [] {
      assert Trim([c]) == Trim([c][1..]);
      assert [c][1..] == [];
    } else if IsWhitespace(s[0]) {
      assert (s + [c])[1..] == s[1..] + [c];
      TrimSnocWhitespace(s[1..], c);
    } else {
      assert (s + [c])[..|s|] == s;
    }
  }

  /** `trim()` leaves a string alone that neither starts nor ends in white space. */
  lemma TrimTrimmed(s: string)
    requires s == [] || (!IsWhitespace(s[0]) && !IsWhitespace(s[|s| - 1]))
    ensures Trim(s) == s
  {
  }

  // ---------------------------------------------------------------- split and join

  /** `parts.join(sep)`; the empty array joins to the empty string. */
  function Join(parts: seq<string>, sep: string): string {
    if |parts| == 0 then []
    else if |parts| == 1 then parts[0]
    else parts[0] + sep + Join(parts[1..], sep)
  }

  /** `s.split(sep)` for a one-character separator: never empty, no piece holds the separator. */
  function Split(s: string, sep: char): (r: seq<string>)
    ensures |r| >= 1
    ensures forall i :: 0 <= i < |r| ==> sep !in r[i]
    ensures Join(r, [sep]) == s
  {
    if s == [] then [[]]
    else
      var rest := Split(s[1..], sep);
      if s[0] == sep then
        assert [sep] + Join(rest, [sep]) == s;
        [[]] + rest
      else
        var r := [[s[0]] + rest[0]] + rest[1..];
        assert r[1..] == rest[1..];
        assert Join(r, [sep]) == [s[0]] + Join(rest, [sep]) by {
          if |rest| > 1 {
            assert Join(rest, [sep]) == rest[0] + [sep] + Join(rest[1..], [sep]);
          }
        }
        r
  }

  /** Splitting what was joined gives the pieces back when no piece holds the separator. */
  lemma {:induction false} SplitJoin(parts: seq<string>, sep: char)
    requires |parts| >= 1
    requires forall i :: 0 <= i < |parts| ==> sep !in parts[i]
    ensures Split(Join(parts, [sep]), sep) == parts
    decreases |parts|, |parts[0]|
  {
    if |parts| == 1 {
      SplitNoSeparator(parts[0], sep);
    } else {
      SplitAround(parts[0], Join(parts[1..], [sep]), sep);
      SplitNoSeparator(parts[0], sep);
      SplitJoin(parts[1..], sep);
    }
  }

  lemma {:induction false} SplitNoSeparator(s: string, sep: char)
    requires sep !in s
    ensures Split(s, sep) == [s]
    decreases |s|
  {
    if s != [] {
      assert sep !in s[1..] by { assert forall i :: 0 <= i < |s[1..]| ==> s[1..][i] == s[i + 1]; }
      SplitNoSeparator(s[1..], sep);
      assert [s[0]] + s[1..] == s;
    }
  }

  /** A separator in front starts with an empty piece. */
  lemma SplitConsSeparator(s: string, sep: char)
    ensures Split([sep] + s, sep) == [[]] + Split(s, sep)
  {
    assert ([sep] + s)[1..] == s;
  }

  /** Prepending a character other than the separator lengthens the first piece. */
  lemma SplitCons(c: char, s: string, sep: char)
    requires c != sep
    ensures var p := Split(s, sep);
            Split([c] + s, sep) == [[c] + p[0]] + p[1..]
  {
    assert ([c] + s)[1..] == s;
  }

  /** Appending after a non-empty sequence keeps its head and extends its tail. */
  lemma AppendParts<T>(x: T, q: seq<T>, r: seq<T>)
    requires q != []
    ensures (q + r)[0] == q[0] && (q + r)[1..] == q[1..] + r
    ensures [x] + (q[1..] + r) == ([x] + q[1..]) + r
  {
  }

  lemma ConsAppend<T>(x: T, q: seq<T>, r: seq<T>)
    ensures [x] + (q + r) == ([x] + q) + r
  {
  }

  /** The step of `SplitAround`: one more character in front of the left side. */
  lemma SplitAroundStep(c: char, a: string, b: string, sep: char)
    requires Split(a + [sep] + b, sep) == Split(a, sep) + Split(b, sep)
    ensures Split([c] + a + [sep] + b, sep) == Split([c] + a, sep) + Split(b, sep)
  {
    var t := a + [sep] + b;
    assert [c] + a + [sep] + b == [c] + t;
    var q, r := Split(a, sep), Split(b, sep);
    if c == sep {
      SplitConsSeparator(t, sep);
      SplitConsSeparator(a, sep);
      ConsAppend([], q, r);
    } else {
      SplitCons(c, a, sep);
      SplitCons(c, t, sep);
      AppendParts([c] + q[0], q, r);
    }
  }

  /** Splitting around one separator splits each side on its own. */
  lemma {:induction false} SplitAround(a: string, b: string, sep: char)
    ensures Split(a + [sep] + b, sep) == Split(a, sep) + Split(b, sep)
    decreases |a|
  {
    if a == [] {
      SplitConsSeparator(b, sep);
      assert a + [sep] + b == [sep] + b;
    } else {
      SplitAround(a[1..], b, sep);
      SplitAroundStep(a[0], a[1..], b, sep);
      assert [a[0]] + a[1..] == a;
    }
  }

  /** Appending a character other than the separator lengthens the last piece. */
  lemma {:induction false} SplitSnoc(s: string, c: char, sep: char)
    requires c != sep
    ensures var p := Split(s, sep);
            Split(s + [c], sep) == p[..|p| - 1] + [p[|p| - 1] + [c]]
    decreases |s|
  {
    if s == [] {
      assert Split([c], sep) == [[c]] by { assert [c][1..] == []; }
    } else {
      var t := s[1..];
      assert (s + [c])[1..] == t + [c];
      SplitSnoc(t, c, sep);
      var q := Split(t, sep);
      var q' := Split(t + [c], sep);
      assert q' == q[..|q| - 1] + [q[|q| - 1] + [c]];
      if s[0] == sep {
        assert Split(s, sep) == [[]] + q;
        assert Split(s + [c], sep) == [[]] + q';
      } else {
        assert Split(s, sep) == [[s[0]] + q[0]] + q[1..];
        assert Split(s + [c], sep) == [[s[0]] + q'[0]] + q'[1..];
      }
    }
  }

  // ---------------------------------------------------------------- decimal

  predicate IsDigit(c: char) { '0' <= c <= '9' }

  /** The value of a string of decimal digits: the reference the rendering is checked against. */
  function DecimalValue(s: string): nat
    requires forall i :: 0 <= i < |s| ==> IsDigit(s[i])
  {
    if s == [] then 0
    else
      assert IsDigit(s[|s| - 1]);
      DecimalValue(s[..|s| - 1]) * 10 + (s[|s| - 1] as int - '0' as int)
  }

  /** `String(n)` for a count: decimal digits, no leading zero, reading back as `n`. */
  function NatToString(n: nat): (r: string)
    ensures |r| >= 1 && forall i :: 0 <= i < |r| ==> IsDigit(r[i])
    ensures DecimalValue(r) == n
    ensures r[0] == '0' ==> n == 0
  {
    var d := ['0' + (n % 10) as char];
    if n < 10 then
      assert DecimalValue(d) == DecimalValue([]) * 10 + n % 10;
      d
    else
      var r := NatToString(n / 10) + d;
      assert r[..|r| - 1] == NatToString(n / 10);
      r
  }

  // ---------------------------------------------------------------- order

  /**
   * The comparison the table screens sort with. `localeCompare` depends on the
   * locale; this model uses the order of character codes, which, like any
   * collation, is a total order (lemmas below), and that is all the sort needs.
   */
  function Compare(a: string, b: string): (r: int)
    ensures -1 <= r <= 1
    ensures r == 0 <==> a == b
  {
    if a == [] && b == [] then 0
    else if a == [] then -1
    else if b == [] then 1
    else if a[0] < b[0] then -1
    else if a[0] > b[0] then 1
    else
      var r := Compare(a[1..], b[1..]);
      assert r == 0 ==> a == [a[0]] + a[1..] == [b[0]] + b[1..] == b;
      r
  }

  lemma {:induction false} CompareAntisymmetric(a: string, b: string)
    ensures Compare(a, b) == -Compare(b, a)
    decreases |a|
  {
    if a != [] && b != [] && a[0] == b[0] {
      CompareAntisymmetric(a[1..], b[1..]);
    }
  }

  lemma {:induction false} CompareTransitive(a: string, b: string, c: string)
    requires Compare(a, b) <= 0 && Compare(b, c) <= 0
    ensures Compare(a, c) <= 0
    decreases |a|
  {
    if a != [] && b != [] && c != [] && a[0] == b[0] == c[0] {
      CompareTransitive(a[1..], b[1..], c[1..]);
    }
  }
}
