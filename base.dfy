/** Small building blocks shared by the quiz modules: an optional value, the
    decimal rendering of a natural number (what JavaScript template strings do
    with a non-negative integer), JavaScript's notion of white space (what
    String.prototype.trim removes) and substring search (String.prototype.includes). */
module Base {

  datatype Option<+T> = None | Some(value: T)

  /** A value, or the error a JavaScript function would have thrown. */
  datatype Result<+T, +E> = Ok(value: T) | Err(error: E)

  /** The decimal digit character for d. */
  function DigitChar(d: nat): (c: char)
    requires d < 10
    ensures '0' <= c <= '9'
    ensures c as int - '0' as int == d
  {
    ('0' as int + d) as char
  }

  /** Decimal rendering of n, without leading zeros. */
  function NatToString(n: nat): (s: string)
    ensures 1 <= |s|
    ensures forall i :: 0 <= i < |s| ==> '0' <= s[i] <= '9'
    ensures |s| == 1 <==> n < 10
    decreases n
  {
    if n < 10 then [DigitChar(n)] else NatToString(n / 10) + [DigitChar(n % 10)]
  }

  /** Different numbers never render alike, so numbered labels are distinct. */
  lemma {:induction false} NatToStringInjective(a: nat, b: nat)
    requires NatToString(a) == NatToString(b)
    ensures a == b
    decreases a
  {
    var sa, sb := NatToString(a), NatToString(b);
    if a < 10 || b < 10 {
      assert |sa| == 1 && |sb| == 1;
      assert sa[0] == DigitChar(a) && sb[0] == DigitChar(b);
    } else {
      assert sa == NatToString(a / 10) + [DigitChar(a % 10)];
      assert sb == NatToString(b / 10) + [DigitChar(b % 10)];
      assert sa[|sa| - 1] == DigitChar(a % 10) && sb[|sb| - 1] == DigitChar(b % 10);
      assert NatToString(a / 10) == sa[..|sa| - 1] == sb[..|sb| - 1] == NatToString(b / 10);
      NatToStringInjective(a / 10, b / 10);
    }
  }

  /** Decimal rendering of any integer, with a leading '-' when negative. */
  function IntToString(i: int): (s: string)
    ensures i >= 0 ==> s == NatToString(i)
    ensures i < 0 ==> s == "-" + NatToString(-i)
  {
    if i < 0 then "-" + NatToString(-i) else NatToString(i)
  }

  /** JavaScript's `a % b` for a positive divisor: the remainder takes the sign
      of the dividend (Dafny's own `%` never goes negative). */
  function JsRem(a: int, b: int): (r: int)
    requires b > 0
    ensures a >= 0 ==> r == a % b
    ensures a < 0 ==> -b < r <= 0
    // the remainder differs from the dividend by a multiple of the divisor
    ensures (a - r) % b == 0
  {
    var r := if a >= 0 then a % b else -((-a) % b);
    JsRemMultiple(a, b, r);
    r
  }

  lemma JsRemMultiple(a: int, b: int, r: int)
    requires b > 0
    requires r == if a >= 0 then a % b else -((-a) % b)
    ensures (a - r) % b == 0
  {
    var k := if a >= 0 then a / b else -((-a) / b);
    assert a - r == b * k;
    MultipleRem(b, k);
  }

  /** A multiple of b leaves no remainder. */
  lemma MultipleRem(b: int, k: int)
    requires b > 0
    ensures (b * k) % b == 0
  {
    var q, rem := (b * k) / b, (b * k) % b;
    assert b * k == b * q + rem && 0 <= rem < b;
    var d := k - q;
    assert b * d == rem;
    ProductBounds(b, d);
  }

  /** A positive b times a non-zero integer is at least b away from zero. */
  lemma ProductBounds(b: int, d: int)
    requires b > 0
    ensures d >= 1 ==> b * d >= b
    ensures d <= -1 ==> b * d <= -b
  {
    if d >= 1 {
      assert b * d == b + b * (d - 1);
      assert b * (d - 1) >= 0;
    } else if d <= -1 {
      assert b * d == -b + b * (d + 1);
      assert b * (d + 1) <= 0;
    }
  }

  /** The parts a count of seconds is shown in, as `Math.floor(s / 3600)`,
      `Math.floor((s % 3600) / 60)` and `s % 60` compute them with JavaScript's
      `%` (division by a positive number rounds down, as Dafny's does). */
  function HoursPart(seconds: int): int { seconds / 3600 }
  function MinutesPart(seconds: int): int { JsRem(seconds, 3600) / 60 }
  function SecondsPart(seconds: int): int { JsRem(seconds, 60) }

  /** For a non-negative count of seconds the three parts recompose it, with
      minutes and seconds below 60. */
  lemma TimePartsRecompose(seconds: int)
    requires seconds >= 0
    ensures HoursPart(seconds) >= 0
    ensures 0 <= MinutesPart(seconds) < 60 && 0 <= SecondsPart(seconds) < 60
    ensures 3600 * HoursPart(seconds) + 60 * MinutesPart(seconds) + SecondsPart(seconds) == seconds
  {
    var h, r := seconds / 3600, seconds % 3600;
    assert seconds == 3600 * h + r;
    var m, sec := r / 60, r % 60;
    assert r == 60 * m + sec;
    assert seconds == 60 * (60 * h + m) + sec;
    assert seconds % 60 == sec;
  }

  /** The characters String.prototype.trim removes: ECMAScript WhiteSpace and
      LineTerminator code points. */
  predicate IsJsWhitespace(c: char)
  {
    c == '\t' || c == '\n' || c == '\U{B}' || c == '\U{C}' || c == '\r' || c == ' '
    || c == '\U{A0}' || c == '\U{1680}' || ('\U{2000}' <= c <= '\U{200A}')
    || c == '\U{2028}' || c == '\U{2029}' || c == '\U{202F}' || c == '\U{205F}'
    || c == '\U{3000}' || c == '\U{FEFF}'
  }

  /** `!s.trim()` in JavaScript: the string is empty once trimmed. */
  predicate IsBlank(s: string)
  {
    forall i :: 0 <= i < |s| ==> IsJsWhitespace(s[i])
  }

  predicate StartsWith(s: string, prefix: string)
  {
    |prefix| <= |s| && s[..|prefix|] == prefix
  }

  predicate EndsWith(s: string, suffix: string)
  {
    |suffix| <= |s| && s[|s| - |suffix|..] == suffix
  }

  /** `hay.includes(needle)`, searched from the left one position at a time. */
  function Includes(hay: string, needle: string): (b: bool)
    decreases |hay|
  {
    if StartsWith(hay, needle) then true
    else if hay == [] then false
    else Includes(hay[1..], needle)
  }

  /** needle occurs in hay starting at position i. */
  predicate OccursAt(hay: string, needle: string, i: int)
  {
    0 <= i && i + |needle| <= |hay| && hay[i..i + |needle|] == needle
  }

  /** A slice is the two slices on either side of a point inside it. */
  lemma SliceSplit<T>(s: seq<T>, a: nat, b: nat, c: nat)
    requires a <= b <= c <= |s|
    ensures s[a..c] == s[a..b] + s[b..c]
  {
  }

  /** An occurrence of a + b is an occurrence of a followed by one of b. */
  lemma OccursAtConcat(hay: string, a: string, b: string, i: int)
    ensures OccursAt(hay, a + b, i) <==> OccursAt(hay, a, i) && OccursAt(hay, b, i + |a|)
  {
    if 0 <= i && i + |a| + |b| <= |hay| {
      var w := hay[i..i + |a| + |b|];
      assert w[..|a|] == hay[i..i + |a|];
      assert w[|a|..] == hay[i + |a|..i + |a| + |b|];
      assert (a + b)[..|a|] == a && (a + b)[|a|..] == b;
      assert w == w[..|a|] + w[|a|..];
    }
  }

  /** Includes agrees with the definition "needle occurs at some position". */
  lemma {:induction false} IncludesIffOccurs(hay: string, needle: string)
    ensures Includes(hay, needle) <==> exists i :: OccursAt(hay, needle, i)
    decreases |hay|
  {
    if StartsWith(hay, needle) {
      assert OccursAt(hay, needle, 0);
    } else if hay == [] {
    } else {
      IncludesIffOccurs(hay[1..], needle);
      if exists i :: OccursAt(hay, needle, i) {
        var i :| OccursAt(hay, needle, i);
        assert i != 0;
        assert OccursAt(hay[1..], needle, i - 1);
      }
      if Includes(hay[1..], needle) {
        var j :| OccursAt(hay[1..], needle, j);
        assert OccursAt(hay, needle, j + 1);
      }
    }
  }

  /** The empty string is included in every string. */
  lemma IncludesEmpty(hay: string)
    ensures Includes(hay, "")
  {
    assert StartsWith(hay, "");
  }

  /** `s.filter(p)`: the elements that pass p, in their original order. */
  function Filter<T(==)>(s: seq<T>, p: T -> bool): (r: seq<T>)
    ensures |r| <= |s|
    ensures forall i :: 0 <= i < |r| ==> r[i] in s && p(r[i])
    ensures forall i :: 0 <= i < |s| && p(s[i]) ==> s[i] in r
    decreases |s|
  {
    if s == [] then [] else (if p(s[0]) then [s[0]] else []) + Filter(s[1..], p)
  }

  /** Filtering a concatenation filters each part and keeps them in order. */
  lemma {:induction false} FilterAppend<T>(a: seq<T>, b: seq<T>, p: T -> bool)
    ensures Filter(a + b, p) == Filter(a, p) + Filter(b, p)
    decreases |a|
  {
    if a == [] {
      assert a + b == b;
    } else {
      assert (a + b)[0] == a[0];
      assert (a + b)[1..] == a[1..] + b;
      FilterAppend(a[1..], b, p);
    }
  }

  /** The last element adds one to the filtered length exactly when it passes. */
  lemma FilterLastLength<T>(s: seq<T>, p: T -> bool)
    requires s != []
    ensures |Filter(s, p)| == |Filter(s[..|s| - 1], p)| + (if p(s[|s| - 1]) then 1 else 0)
  {
    var n := |s| - 1;
    calc {
      |Filter(s, p)|;
    == { assert s == s[..n] + [s[n]]; }
      |Filter(s[..n] + [s[n]], p)|;
    == { FilterAppend(s[..n], [s[n]], p); }
      |Filter(s[..n], p) + Filter([s[n]], p)|;
    == { assert |Filter([s[n]], p)| == if p(s[n]) then 1 else 0; }
      |Filter(s[..n], p)| + (if p(s[n]) then 1 else 0);
    }
  }

  /** A filter that every element passes changes nothing. */
  lemma {:induction false} FilterAllPass<T>(s: seq<T>, p: T -> bool)
    requires forall i :: 0 <= i < |s| ==> p(s[i])
    ensures Filter(s, p) == s
    decreases |s|
  {
    if s != [] {
      FilterAllPass(s[1..], p);
    }
  }

  /** A filter and its complement split a sequence between them. */
  lemma {:induction false} FilterComplement<T>(s: seq<T>, p: T -> bool, q: T -> bool)
    requires forall i :: 0 <= i < |s| ==> q(s[i]) == !p(s[i])
    ensures multiset(Filter(s, p)) + multiset(Filter(s, q)) == multiset(s)
    decreases |s|
  {
    if s != [] {
      var x, rest := s[0], s[1..];
      FilterComplement(rest, p, q);
      assert s == [x] + rest;
      MultisetCons(x, Filter(rest, p), Filter(rest, q), rest);
      if p(x) {
        assert Filter(s, p) == [x] + Filter(rest, p) && Filter(s, q) == Filter(rest, q);
      } else {
        assert Filter(s, p) == Filter(rest, p) && Filter(s, q) == [x] + Filter(rest, q);
      }
    }
  }

  /** An element put in front of either part of a split goes in front of
      the whole. */
  lemma MultisetCons<T>(x: T, a: seq<T>, b: seq<T>, rest: seq<T>)
    requires multiset(a) + multiset(b) == multiset(rest)
    ensures multiset([x] + a) + multiset(b) == multiset([x] + rest)
    ensures multiset(a) + multiset([x] + b) == multiset([x] + rest)
  {
  }

  /** A filter that no element passes leaves nothing. */
  lemma {:induction false} FilterNonePass<T>(s: seq<T>, p: T -> bool)
    requires forall i :: 0 <= i < |s| ==> !p(s[i])
    ensures Filter(s, p) == []
    decreases |s|
  {
    if s != [] {
      FilterNonePass(s[1..], p);
    }
  }

  /** Replacing one element by another that p classifies alike keeps the
      number of elements passing p. */
  lemma {:induction false} FilterCountUpdate<T>(s: seq<T>, k: nat, x: T, p: T -> bool)
    requires k < |s| && p(s[k]) == p(x)
    ensures |Filter(s[k := x], p)| == |Filter(s, p)|
    decreases |s|
  {
    if k == 0 {
      assert s[k := x][1..] == s[1..];
    } else {
      assert s[k := x][0] == s[0];
      assert s[k := x][1..] == s[1..][k - 1 := x];
      FilterCountUpdate(s[1..], k - 1, x, p);
    }
  }

  /** Filtering first by q can only lower the number of elements passing p. */
  lemma {:induction false} FilterTwiceCount<T>(s: seq<T>, q: T -> bool, p: T -> bool)
    ensures |Filter(Filter(s, q), p)| <= |Filter(s, p)|
    decreases |s|
  {
    if s != [] {
      FilterTwiceCount(s[1..], q, p);
      var head := if q(s[0]) then [s[0]] else [];
      FilterAppend(head, Filter(s[1..], q), p);
    }
  }

  /** `s.findIndex(p)`: the first index whose element passes p, or -1. */
  function FirstIndex<T>(s: seq<T>, p: T -> bool): (i: int)
    ensures -1 <= i < |s|
    ensures i >= 0 ==> p(s[i])
    ensures forall j :: 0 <= j < |s| && (i < 0 || j < i) ==> !p(s[j])
    decreases |s|
  {
    if s == [] then -1
    else if p(s[0]) then 0
    else
      var k := FirstIndex(s[1..], p);
      if k < 0 then -1 else k + 1
  }

  /** `s.find(p)`: the first element that passes p, if any. */
  function Find<T>(s: seq<T>, p: T -> bool): (r: Option<T>)
    ensures r.None? <==> forall j :: 0 <= j < |s| ==> !p(s[j])
    ensures r.Some? ==> r.value == s[FirstIndex(s, p)]
  {
    var k := FirstIndex(s, p);
    if k < 0 then None else Some(s[k])
  }
}
