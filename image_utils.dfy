/** src/utils/imageUtils.ts: markdown images whose source is a base64 data URI
    are swapped for numbered placeholders, and a placeholder is looked up again
    when the image is drawn.

    The global regular expression of `extractBase64Images` is spelled out here
    as the matcher it denotes: `![`, the alt text (the lazy `.*?`: the
    shortest run without a line terminator after which the rest matches), `](`,
    then the data URI `data:image/` + lower-case letters + `;base64,` + a
    payload without `)`, and a closing `)`. Each `exec` resumes where the
    previous match ended. */
module ImageUtils {
  import opened Base

  // ---------------------------------------------------------------------------
  // The pattern

  /** What `.` refuses to match without the `s` flag. */
  predicate IsLineTerminator(c: char)
  {
    c == '\n' || c == '\r' || c == '\U{2028}' || c == '\U{2029}'
  }

  predicate IsLowerLetter(c: char) { 'a' <= c <= 'z' }

  predicate NotCloseParen(c: char) { c != ')' }

  /** The length of the longest run of characters passing p from position j. */
  function RunLength(s: string, j: nat, p: char -> bool): (n: nat)
    requires j <= |s|
    ensures j + n <= |s|
    decreases |s| - j
  {
    if j == |s| || !p(s[j]) then 0 else 1 + RunLength(s, j + 1, p)
  }

  /** Every character of the run passes p, and the one after it, if any,
      does not. */
  lemma {:induction false} RunLengthMaximal(s: string, j: nat, p: char -> bool)
    requires j <= |s|
    ensures var n := RunLength(s, j, p);
            (forall k :: j <= k < j + n ==> p(s[k])) && (j + n == |s| || !p(s[j + n]))
    decreases |s| - j
  {
    if j < |s| && p(s[j]) {
      RunLengthMaximal(s, j + 1, p);
    }
  }

  /** A run that reaches a character failing p ends there. */
  lemma RunLengthStopsAt(s: string, j: nat, t: nat, p: char -> bool)
    requires j <= t < |s| && !p(s[t])
    requires forall k :: j <= k < t ==> p(s[k])
    ensures RunLength(s, j, p) == t - j
  {
    RunLengthMaximal(s, j, p);
  }

  /** A data URI as the pattern accepts it: it starts at j, its media subtype
      (a non-empty run of lower-case letters) ends at t, where ";base64,"
      follows, its payload is non-empty and free of ')', and it ends at e, where
      a ')' closes the image. */
  predicate DataUriSplit(s: string, j: nat, t: nat, e: nat)
  {
    && OccursAt(s, "data:image/", j)
    && j + 11 < t
    && (forall k :: j + 11 <= k < t ==> k < |s| && IsLowerLetter(s[k]))
    && OccursAt(s, ";base64,", t)
    && t + 8 < e < |s|
    && (forall k :: t + 8 <= k < e ==> NotCloseParen(s[k]))
    && s[e] == ')'
  }

  /** Where the media subtype of a data URI ends and where its ')' stands. */
  datatype Tail = Tail(typeEnd: nat, dataEnd: nat)

  /** The part of the pattern after the alt text, tried at position j: `](`
      and a data URI. */
  function TailAt(s: string, j: nat): (r: Option<Tail>)
    requires j <= |s|
    ensures r.Some? ==> OccursAt(s, "](", j) && DataUriSplit(s, j + 2, r.value.typeEnd, r.value.dataEnd)
  {
    if !OccursAt(s, "](data:image/", j) then None
    else
      var k := j + 13;
      var letters := RunLength(s, k, IsLowerLetter);
      RunLengthMaximal(s, k, IsLowerLetter);
      if letters == 0 || !OccursAt(s, ";base64,", k + letters) then None
      else
        var m := k + letters + 8;
        var payload := RunLength(s, m, NotCloseParen);
        RunLengthMaximal(s, m, NotCloseParen);
        if payload == 0 || m + payload == |s| then None
        else
          var tail := Tail(k + letters, m + payload);
          TailFound(s, j, tail);
          Some(tail)
  }

  /** `](`, the media subtype up to t, ";base64," and the payload up to the
      ')' at e make a tail. */
  lemma TailFound(s: string, j: nat, tail: Tail)
    requires j <= |s| && OccursAt(s, "](data:image/", j)
    requires j + 13 < tail.typeEnd && tail.typeEnd + 8 < tail.dataEnd < |s|
    requires forall k :: j + 13 <= k < tail.typeEnd ==> IsLowerLetter(s[k])
    requires OccursAt(s, ";base64,", tail.typeEnd)
    requires forall k :: tail.typeEnd + 8 <= k < tail.dataEnd ==> NotCloseParen(s[k])
    requires !NotCloseParen(s[tail.dataEnd])
    ensures OccursAt(s, "](", j) && DataUriSplit(s, j + 2, tail.typeEnd, tail.dataEnd)
  {
    assert "](data:image/" == "](" + "data:image/";
    OccursAtConcat(s, "](", "data:image/", j);
  }

  /** The tail matches wherever `](` and a data URI stand: TailAt is exactly
      the pattern, with no backtracking left to try. */
  lemma TailAtComplete(s: string, j: nat, t: nat, e: nat)
    requires j <= |s| && OccursAt(s, "](", j) && DataUriSplit(s, j + 2, t, e)
    ensures TailAt(s, j) == Some(Tail(t, e))
  {
    assert "](data:image/" == "](" + "data:image/";
    OccursAtConcat(s, "](", "data:image/", j);
    assert s[t] == s[t..t + 8][0] == ';';
    RunLengthStopsAt(s, j + 13, t, IsLowerLetter);
    RunLengthStopsAt(s, t + 8, e, NotCloseParen);
  }

  /** No line terminator in s[a..b]. */
  predicate NoTerminator(s: string, a: nat, b: nat)
  {
    forall k :: a <= k < b ==> k < |s| && !IsLineTerminator(s[k])
  }

  /** A match of the pattern: it starts at `start` with `![`, the alt text runs
      up to `altEnd`, the data URI's media subtype up to `typeEnd` and its
      payload up to `dataEnd`, where the closing ')' stands. */
  datatype Match = Match(start: nat, altEnd: nat, typeEnd: nat, dataEnd: nat)

  /** The pattern matches as m says, with m's alt text. */
  predicate WellPlaced(s: string, m: Match)
  {
    && OccursAt(s, "![", m.start)
    && m.start + 2 <= m.altEnd <= |s|
    && NoTerminator(s, m.start + 2, m.altEnd)
    && TailAt(s, m.altEnd) == Some(Tail(m.typeEnd, m.dataEnd))
  }

  /** The first k in [from, to] where f gives a value, if any. */
  function FirstFound<T>(f: nat -> Option<T>, from: nat, to: nat): (r: Option<nat>)
    ensures r.Some? ==> from <= r.value <= to && f(r.value).Some?
    ensures r.Some? ==> forall k :: from <= k < r.value ==> f(k).None?
    ensures r.None? ==> forall k :: from <= k <= to ==> f(k).None?
    decreases if from <= to then to - from + 1 else 0
  {
    if from > to then None
    else if f(from).Some? then Some(from)
    else FirstFound(f, from + 1, to)
  }

  predicate NotLineTerminator(c: char) { !IsLineTerminator(c) }

  /** The tail tried at a, or nothing past the end of s. */
  function TailTry(s: string): nat -> Option<Tail>
  {
    (a: nat) => if a <= |s| then TailAt(s, a) else None
  }

  /** The match starting at i, if the pattern matches there: the alt text may
      run as far as the first line terminator, and the shortest one after
      which the tail matches wins. */
  function MatchAt(s: string, i: nat): (r: Option<Match>)
    requires i <= |s|
    ensures r.Some? ==> r.value.start == i && WellPlaced(s, r.value)
    ensures r.Some? ==> forall b :: i + 2 <= b < r.value.altEnd ==> TailAt(s, b).None?
  {
    if !OccursAt(s, "![", i) then None
    else
      var reach := RunLength(s, i + 2, NotLineTerminator);
      RunLengthMaximal(s, i + 2, NotLineTerminator);
      match FirstFound(TailTry(s), i + 2, i + 2 + reach)
      case None => None
      case Some(a) =>
        assert TailTry(s)(a) == TailAt(s, a);
        assert forall b :: i + 2 <= b < a ==> TailTry(s)(b) == TailAt(s, b);
        Some(Match(i, a, TailAt(s, a).value.typeEnd, TailAt(s, a).value.dataEnd))
  }

  /** When nothing matches at i, no choice of alt text makes the pattern
      match there. */
  lemma MatchAtComplete(s: string, i: nat, m: Match)
    requires i <= |s| && m.start == i && WellPlaced(s, m)
    ensures MatchAt(s, i).Some?
  {
    var reach := RunLength(s, i + 2, NotLineTerminator);
    RunLengthMaximal(s, i + 2, NotLineTerminator);
    assert m.altEnd <= i + 2 + reach;
    assert TailTry(s)(m.altEnd).Some?;
  }

  lemma MatchBounds(s: string, m: Match)
    requires WellPlaced(s, m)
    ensures InBounds(s, m)
  {
  }

  /** MatchAt as a total function of the position. */
  function MatchTry(s: string): nat -> Option<Match>
  {
    (i: nat) => if i <= |s| then MatchAt(s, i) else None
  }

  /** `regex.exec(text)` resuming at `from`: the first position at or after
      it where the pattern matches. */
  function NextMatch(s: string, from: nat): (r: Option<Match>)
    requires from <= |s|
    ensures r.Some? ==> from <= r.value.start <= |s| && InBounds(s, r.value)
  {
    match FirstFound(MatchTry(s), from, |s|)
    case None => None
    case Some(k) =>
      var m := MatchTry(s)(k).value;
      assert MatchAt(s, k) == Some(m);
      MatchBounds(s, m);
      Some(m)
  }

  /** NextMatch finds the leftmost match: the one at its start, with no match
      starting earlier, and when it finds none there is none. */
  lemma NextMatchLeftmost(s: string, from: nat)
    requires from <= |s|
    ensures var r := NextMatch(s, from);
            && (r.Some? ==> MatchAt(s, r.value.start) == r)
            && (r.Some? ==> forall i :: from <= i < r.value.start ==> MatchAt(s, i).None?)
            && (r.None? ==> forall i :: from <= i <= |s| ==> MatchAt(s, i).None?)
  {
    var f := FirstFound(MatchTry(s), from, |s|);
    if f.Some? {
      assert forall i :: from <= i <= f.value ==> MatchTry(s)(i) == MatchAt(s, i);
    } else {
      assert forall i :: from <= i <= |s| ==> MatchTry(s)(i) == MatchAt(s, i);
    }
  }

  /** Where a match ends: one past its closing ')'. */
  function End(m: Match): nat { m.dataEnd + 1 }

  /** The positions of a match lie in order inside the text. */
  predicate InBounds(s: string, m: Match)
  {
    m.start + 2 <= m.altEnd && m.altEnd + 13 < m.typeEnd && m.typeEnd + 8 < m.dataEnd && End(m) <= |s|
  }

  /** Every match from `from` on, in text order. */
  function AllMatches(s: string, from: nat): (ms: seq<Match>)
    requires from <= |s|
    ensures forall k :: 0 <= k < |ms| ==> InBounds(s, ms[k]) && from <= ms[k].start
    decreases |s| - from
  {
    match NextMatch(s, from)
    case None => []
    case Some(m) => [m] + AllMatches(s, End(m))
  }

  /** One step of AllMatches. */
  lemma AllMatchesUnfold(s: string, from: nat)
    requires from <= |s|
    ensures NextMatch(s, from).None? ==> AllMatches(s, from) == []
    ensures NextMatch(s, from).Some? ==>
      AllMatches(s, from) == [NextMatch(s, from).value] + AllMatches(s, End(NextMatch(s, from).value))
  {
  }

  /** The matches come in text order without overlapping, each is the
      pattern's match at its start, and between them no match starts. */
  lemma {:induction false} AllMatchesOrdered(s: string, from: nat)
    requires from <= |s|
    ensures var ms := AllMatches(s, from);
            && (forall k :: 0 <= k < |ms| ==> MatchAt(s, ms[k].start) == Some(ms[k]))
            && (forall k :: 0 <= k < |ms| - 1 ==> End(ms[k]) <= ms[k + 1].start)
            && (|ms| == 0 ==> forall i :: from <= i <= |s| ==> MatchAt(s, i).None?)
            && (|ms| > 0 ==> forall i :: from <= i < ms[0].start ==> MatchAt(s, i).None?)
    decreases |s| - from
  {
    var r := NextMatch(s, from);
    NextMatchLeftmost(s, from);
    if r.Some? {
      var m := r.value;
      AllMatchesOrdered(s, End(m));
      var ms := AllMatches(s, from);
      var rest := AllMatches(s, End(m));
      assert ms == [m] + rest;
      forall k | 0 <= k < |ms| ensures MatchAt(s, ms[k].start) == Some(ms[k]) {
        if k > 0 { assert ms[k] == rest[k - 1]; }
      }
      forall k | 0 <= k < |ms| - 1 ensures End(ms[k]) <= ms[k + 1].start {
        assert ms[k + 1] == rest[k];
        if k > 0 { assert ms[k] == rest[k - 1]; }
      }
    }
  }

  /** The matched substring, the alt text and the data URI of a match. */
  function FullMatch(s: string, m: Match): string
    requires InBounds(s, m)
  {
    s[m.start..End(m)]
  }

  function AltText(s: string, m: Match): string
    requires InBounds(s, m)
  {
    s[m.start + 2..m.altEnd]
  }

  function ImageData(s: string, m: Match): string
    requires InBounds(s, m)
  {
    s[m.altEnd + 2..m.dataEnd]
  }

  /** The data URI of a match begins with "data:image/", the alt text has no
      line terminator, and the whole match is `![`, alt, `](`, data, `)`. */
  lemma MatchShape(s: string, m: Match)
    requires WellPlaced(s, m)
    ensures InBounds(s, m)
    ensures StartsWith(ImageData(s, m), "data:image/")
    ensures forall k :: 0 <= k < |AltText(s, m)| ==> !IsLineTerminator(AltText(s, m)[k])
    ensures FullMatch(s, m) == "![" + AltText(s, m) + "](" + ImageData(s, m) + ")"
  {
    assert ImageData(s, m)[..11] == s[m.altEnd + 2..m.altEnd + 13];
    FullMatchParts(s, m);
  }

  /** A match in bounds whose delimiters stand where they should reads as
      `![`, alt, `](`, data, `)`. */
  lemma FullMatchParts(s: string, m: Match)
    requires InBounds(s, m)
    requires OccursAt(s, "![", m.start) && OccursAt(s, "](", m.altEnd) && s[m.dataEnd] == ')'
    ensures FullMatch(s, m) == "![" + AltText(s, m) + "](" + ImageData(s, m) + ")"
  {
    var a, c, e := m.start, m.altEnd, m.dataEnd;
    var alt, data := AltText(s, m), ImageData(s, m);
    calc {
      FullMatch(s, m);
    == { SliceSplit(s, a, a + 2, e + 1); SliceSplit(s, a + 2, c, e + 1); }
      s[a..a + 2] + (s[a + 2..c] + s[c..e + 1]);
    == { SliceSplit(s, c, c + 2, e + 1); SliceSplit(s, c + 2, e, e + 1); }
      s[a..a + 2] + (s[a + 2..c] + (s[c..c + 2] + (s[c + 2..e] + s[e..e + 1])));
    == { assert s[e..e + 1] == [s[e]]; }
      "![" + (alt + ("](" + (data + ")")));
    == { assert "![" + (alt + ("](" + (data + ")"))) == "![" + alt + "](" + data + ")"; }
      "![" + alt + "](" + data + ")";
    }
  }

  // ---------------------------------------------------------------------------
  // String.prototype.replace with a string pattern

  /** The first position at or after `from` where needle occurs, if any. */
  function IndexOf(hay: string, needle: string, from: nat): (r: Option<nat>)
    ensures r.Some? ==> from <= r.value && OccursAt(hay, needle, r.value)
    ensures r.Some? ==> forall p :: from <= p < r.value ==> !OccursAt(hay, needle, p)
    ensures r.None? ==> forall p :: from <= p ==> !OccursAt(hay, needle, p)
    decreases |hay| - from
  {
    if from + |needle| > |hay| then None
    else if OccursAt(hay, needle, from) then Some(from)
    else IndexOf(hay, needle, from + 1)
  }

  /** The replacement string as `replace` expands it: `$$` is '$', `$&` the
      matched text, `` $` `` the text before it, `$'` the text after it; with a
      string pattern there are no capture groups, so any other '$' is kept. */
  function Expand(rep: string, matched: string, before: string, after: string): (r: string)
    ensures (forall k :: 0 <= k < |rep| ==> rep[k] != '$') ==> r == rep
    decreases |rep|
  {
    if rep == [] then []
    else if rep[0] == '$' && |rep| >= 2 && rep[1] == '$' then "$" + Expand(rep[2..], matched, before, after)
    else if rep[0] == '$' && |rep| >= 2 && rep[1] == '&' then matched + Expand(rep[2..], matched, before, after)
    else if rep[0] == '$' && |rep| >= 2 && rep[1] == '`' then before + Expand(rep[2..], matched, before, after)
    else if rep[0] == '$' && |rep| >= 2 && rep[1] == '\'' then after + Expand(rep[2..], matched, before, after)
    else [rep[0]] + Expand(rep[1..], matched, before, after)
  }

  /** `hay.replace(pattern, rep)`: only the first occurrence is replaced. */
  function ReplaceFirst(hay: string, pattern: string, rep: string): (r: string)
    ensures IndexOf(hay, pattern, 0).None? ==> r == hay
    ensures IndexOf(hay, pattern, 0).Some? ==>
      var p := IndexOf(hay, pattern, 0).value;
      r == hay[..p] + Expand(rep, pattern, hay[..p], hay[p + |pattern|..]) + hay[p + |pattern|..]
  {
    match IndexOf(hay, pattern, 0)
    case None => hay
    case Some(p) => hay[..p] + Expand(rep, pattern, hay[..p], hay[p + |pattern|..]) + hay[p + |pattern|..]
  }

  /** With no '$' in the replacement, the first occurrence gives way to the
      replacement verbatim, and what surrounds it stays. */
  lemma ReplaceFirstLiteral(hay: string, pattern: string, rep: string)
    requires forall k :: 0 <= k < |rep| ==> rep[k] != '$'
    requires exists p :: OccursAt(hay, pattern, p)
    ensures exists p :: OccursAt(hay, pattern, p) && ReplaceFirst(hay, pattern, rep) == hay[..p] + rep + hay[p + |pattern|..]
  {
    var p0 :| OccursAt(hay, pattern, p0);
    var p := IndexOf(hay, pattern, 0).value;
    assert OccursAt(hay, pattern, p);
  }

  // ---------------------------------------------------------------------------
  // extractBase64Images

  /** `__IMAGE_${k}__`. */
  function Placeholder(k: nat): string
  {
    "__IMAGE_" + NatToString(k) + "__"
  }

  /** A placeholder has the shape getImageSrc looks for, and no '$'. */
  lemma PlaceholderShape(k: nat)
    ensures StartsWith(Placeholder(k), "__IMAGE_") && EndsWith(Placeholder(k), "__")
    ensures forall i :: 0 <= i < |Placeholder(k)| ==> Placeholder(k)[i] != '$'
  {
    var p := Placeholder(k);
    assert p[..8] == "__IMAGE_";
    assert p[|p| - 2..] == "__";
    var digits := NatToString(k);
    forall i | 0 <= i < |p|
      ensures p[i] != '$'
    {
      if 8 <= i < 8 + |digits| {
        assert p[i] == digits[i - 8];
      }
    }
  }

  /** Different numbers give different placeholders. */
  lemma PlaceholderInjective(a: nat, b: nat)
    requires Placeholder(a) == Placeholder(b)
    ensures a == b
  {
    var pa, pb := Placeholder(a), Placeholder(b);
    assert NatToString(a) == pa[8..|pa| - 2];
    assert NatToString(b) == pb[8..|pb| - 2];
    NatToStringInjective(a, b);
  }

  /** The text put in place of the k-th match: its alt text, now pointing at
      the placeholder. */
  function Replacement(alt: string, k: nat): string
  {
    "![" + alt + "](" + Placeholder(k) + ")"
  }

  /** The text after the first n matches have been replaced, one `replace`
      call per match in text order. */
  function Rewritten(text: string, ms: seq<Match>): string
    requires forall k :: 0 <= k < |ms| ==> InBounds(text, ms[k])
  {
    if ms == [] then text
    else
      var n := |ms| - 1;
      ReplaceFirst(Rewritten(text, ms[..n]), FullMatch(text, ms[n]), Replacement(AltText(text, ms[n]), n))
  }

  /** The image map after the first n matches: the k-th data URI under the
      k-th placeholder. */
  function Images(text: string, ms: seq<Match>): (images: map<string, string>)
    requires forall k :: 0 <= k < |ms| ==> InBounds(text, ms[k])
  {
    if ms == [] then map[]
    else
      var n := |ms| - 1;
      Images(text, ms[..n])[Placeholder(n) := ImageData(text, ms[n])]
  }

  /** The map holds an entry for each match: the k-th data URI under the
      k-th placeholder. */
  lemma {:induction false} ImagesValues(text: string, ms: seq<Match>, k: nat)
    requires forall j :: 0 <= j < |ms| ==> InBounds(text, ms[j])
    requires k < |ms|
    ensures Placeholder(k) in Images(text, ms) && Images(text, ms)[Placeholder(k)] == ImageData(text, ms[k])
    decreases |ms|
  {
    var n := |ms| - 1;
    if k < n {
      ImagesValues(text, ms[..n], k);
      assert ms[..n][k] == ms[k];
      if Placeholder(k) == Placeholder(n) {
        PlaceholderInjective(k, n);
      }
    }
  }

  /** The map holds nothing else: every key is the placeholder of a match. */
  lemma {:induction false} ImagesKeys(text: string, ms: seq<Match>, key: string)
    requires forall j :: 0 <= j < |ms| ==> InBounds(text, ms[j])
    requires key in Images(text, ms)
    ensures exists k :: 0 <= k < |ms| && key == Placeholder(k)
    decreases |ms|
  {
    var n := |ms| - 1;
    if key != Placeholder(n) {
      ImagesKeys(text, ms[..n], key);
    }
  }

  /** One more match: its replacement applied to the text so far and its
      entry added to the map. */
  lemma ExtractStep(text: string, done: seq<Match>, m: Match)
    requires forall j :: 0 <= j < |done| ==> InBounds(text, done[j])
    requires InBounds(text, m)
    ensures forall j :: 0 <= j < |done + [m]| ==> InBounds(text, (done + [m])[j])
    ensures Rewritten(text, done + [m])
         == ReplaceFirst(Rewritten(text, done), FullMatch(text, m), Replacement(AltText(text, m), |done|))
    ensures Images(text, done + [m]) == Images(text, done)[Placeholder(|done|) := ImageData(text, m)]
  {
    assert (done + [m])[..|done|] == done;
  }

  /** What the loop of extractBase64Images keeps: the matches found so far
      and those still to come from lastIndex make up all the matches, and the
      text and the map are those of the matches found so far. */
  ghost predicate ScanInvariant(text: string, lastIndex: nat, done: seq<Match>, out: string, images: map<string, string>)
  {
    && lastIndex <= |text|
    && AllMatches(text, 0) == done + AllMatches(text, lastIndex)
    && (forall k :: 0 <= k < |done| ==> InBounds(text, done[k]))
    && out == Rewritten(text, done)
    && images == Images(text, done)
  }

  /** Before the first match nothing is replaced and the map is empty. */
  lemma ScanStart(text: string)
    ensures ScanInvariant(text, 0, [], text, map[])
  {
    assert [] + AllMatches(text, 0) == AllMatches(text, 0);
  }

  /** A match at lastIndex: replacing it and storing its data URI keeps the
      invariant, and the scan moves past it. */
  lemma ScanStep(text: string, lastIndex: nat, done: seq<Match>, out: string, images: map<string, string>, m: Match)
    requires ScanInvariant(text, lastIndex, done, out, images) && NextMatch(text, lastIndex) == Some(m)
    ensures lastIndex < End(m) <= |text|
    ensures ScanInvariant(text, End(m), done + [m],
                          ReplaceFirst(out, FullMatch(text, m), Replacement(AltText(text, m), |done|)),
                          images[Placeholder(|done|) := ImageData(text, m)])
  {
    MatchesStep(text, lastIndex, done, m);
    ExtractStep(text, done, m);
  }

  /** The matches still to come after a match at lastIndex start past it. */
  lemma MatchesStep(text: string, lastIndex: nat, done: seq<Match>, m: Match)
    requires lastIndex <= |text| && NextMatch(text, lastIndex) == Some(m)
    requires AllMatches(text, 0) == done + AllMatches(text, lastIndex)
    ensures lastIndex < End(m) <= |text|
    ensures AllMatches(text, 0) == (done + [m]) + AllMatches(text, End(m))
  {
    AllMatchesUnfold(text, lastIndex);
    AppendOne(done, m, AllMatches(text, End(m)));
  }

  lemma AppendOne<T>(done: seq<T>, x: T, rest: seq<T>)
    ensures done + ([x] + rest) == (done + [x]) + rest
  {
  }

  /** No match left: the text and the map are those of all the matches. */
  lemma ScanDone(text: string, lastIndex: nat, done: seq<Match>, out: string, images: map<string, string>)
    requires ScanInvariant(text, lastIndex, done, out, images) && NextMatch(text, lastIndex).None?
    ensures out == Rewritten(text, AllMatches(text, 0)) && images == Images(text, AllMatches(text, 0))
  {
    AllMatchesUnfold(text, lastIndex);
    assert done + [] == done;
  }

  /** `extractBase64Images(text)`: the `while` loop over `regex.exec`. Each
      match's data URI is stored under the next placeholder, and its first
      occurrence in the text so far is replaced by `![alt](placeholder)`. */
  method ExtractBase64Images(text: string) returns (out: string, images: map<string, string>)
    ensures out == Rewritten(text, AllMatches(text, 0))
    ensures images == Images(text, AllMatches(text, 0))
    ensures AllMatches(text, 0) == [] ==> out == text && images == map[]
    ensures PlainAlts(text) ==> Ordered(text, AllMatches(text, 0)) && out == Positional(text, AllMatches(text, 0))
  {
    if PlainAlts(text) {
      RewrittenIsPositional(text);
    }
    if text == "" {
      return "", map[];
    }
    images := map[];
    out := text;
    var lastIndex := 0;
    var index := 0;
    ghost var done: seq<Match> := [];
    ScanStart(text);
    while true
      invariant ScanInvariant(text, lastIndex, done, out, images)
      invariant index == |done|
      decreases |text| - lastIndex
    {
      var found := NextMatch(text, lastIndex);
      if found.None? {
        ScanDone(text, lastIndex, done, out, images);
        break;
      }
      var m := found.value;
      ScanStep(text, lastIndex, done, out, images, m);
      var fullMatch, altText, imageData := FullMatch(text, m), AltText(text, m), ImageData(text, m);
      var placeholder := Placeholder(index);
      images := images[placeholder := imageData];
      out := ReplaceFirst(out, fullMatch, "![" + altText + "](" + placeholder + ")");
      index := index + 1;
      done := done + [m];
      lastIndex := End(m);
    }
  }

  // ---------------------------------------------------------------------------
  // A '$' in the alt text

  /** A character other than '$' is copied as it is. */
  lemma ExpandLiteralChar(c: char, rest: string, matched: string, before: string, after: string)
    requires c != '$'
    ensures Expand([c] + rest, matched, before, after) == [c] + Expand(rest, matched, before, after)
  {
    assert ([c] + rest)[1..] == rest;
  }

  /** `$&` expands to the matched text. */
  lemma ExpandMatched(rest: string, matched: string, before: string, after: string)
    ensures Expand("$&" + rest, matched, before, after) == matched + Expand(rest, matched, before, after)
  {
    assert ("$&" + rest)[2..] == rest;
  }

  /** With alt text "$&" the text `replace` inserts holds the whole match,
      data URI and all, where the alt text should be. */
  lemma DollarAltReinsertsMatch(matched: string, before: string, after: string, k: nat)
    ensures Expand(Replacement("$&", k), matched, before, after) == "![" + matched + "](" + Placeholder(k) + ")"
  {
    PlaceholderShape(k);
    DollarAltExpands(matched, before, after, Placeholder(k));
  }

  lemma DollarAltExpands(matched: string, before: string, after: string, target: string)
    requires forall i :: 0 <= i < |target| ==> target[i] != '$'
    ensures Expand("![" + "$&" + "](" + target + ")", matched, before, after) == "![" + matched + "](" + target + ")"
  {
    var rest := "](" + target + ")";
    var x := ['['] + ("$&" + rest);
    calc {
      Expand("![" + "$&" + "](" + target + ")", matched, before, after);
    == { assert "![" + "$&" + "](" + target + ")" == ['!'] + x; }
      Expand(['!'] + x, matched, before, after);
    == { ExpandLiteralChar('!', x, matched, before, after); }
      ['!'] + Expand(x, matched, before, after);
    == { ExpandLiteralChar('[', "$&" + rest, matched, before, after); }
      ['!'] + (['['] + Expand("$&" + rest, matched, before, after));
    == { ExpandMatched(rest, matched, before, after); }
      ['!'] + (['['] + (matched + Expand(rest, matched, before, after)));
    == { LinkTailNoDollar(target); }
      ['!'] + (['['] + (matched + rest));
    == { assert ['!'] + (['['] + (matched + rest)) == "![" + matched + "](" + target + ")"; }
      "![" + matched + "](" + target + ")";
    }
  }

  /** The text after the alt text adds no '$' of its own. */
  lemma LinkTailNoDollar(target: string)
    requires forall i :: 0 <= i < |target| ==> target[i] != '$'
    ensures var rest := "](" + target + ")"; forall i :: 0 <= i < |rest| ==> rest[i] != '$'
  {
    var rest := "](" + target + ")";
    forall i | 0 <= i < |rest| ensures rest[i] != '$' {
      if 2 <= i < 2 + |target| { assert rest[i] == target[i - 2]; }
    }
  }

  /** The smallest text that shows it. */
  function DollarText(): string { "![$&](data:image/png;base64,AA)" }

  lemma TailAtNoOpening(s: string, j: nat)
    requires j <= |s| && !OccursAt(s, "](data:image/", j)
    ensures TailAt(s, j).None?
  {
  }

  /** Where its delimiters and its data URI stand. */
  lemma DollarTextUri(s: string)
    requires s == DollarText()
    ensures OccursAt(s, "![", 0) && OccursAt(s, "](", 4)
    ensures DataUriSplit(s, 6, 20, 30)
  {
    DollarTextDelimiters(s);
    DollarTextMedia(s);
    DollarTextPayload(s);
  }

  lemma DollarTextDelimiters(s: string)
    requires s == DollarText()
    ensures |s| == 31 && OccursAt(s, "![", 0) && OccursAt(s, "](", 4) && s[30] == ')'
  {
    assert |s| == 31 && s[0] == '!' && s[1] == '[' && s[4] == ']' && s[5] == '(' && s[30] == ')';
    assert s[0..2] == [s[0], s[1]];
    assert s[4..6] == [s[4], s[5]];
  }

  lemma DollarTextMedia(s: string)
    requires s == DollarText()
    ensures |s| == 31 && OccursAt(s, "data:image/", 6) && OccursAt(s, ";base64,", 20)
    ensures forall k :: 17 <= k < 20 ==> IsLowerLetter(s[k])
  {
    DollarTextPrefix(s);
    DollarTextBase64(s);
  }

  lemma DollarTextPrefix(s: string)
    requires s == DollarText()
    ensures |s| == 31 && OccursAt(s, "data:image/", 6)
  {
    assert s == "![$&](" + "data:image/" + "png;base64,AA)";
  }

  lemma DollarTextBase64(s: string)
    requires s == DollarText()
    ensures |s| == 31 && OccursAt(s, ";base64,", 20)
    ensures forall k :: 17 <= k < 20 ==> IsLowerLetter(s[k])
  {
    assert s[20..28] == ";base64,";
  }

  lemma DollarTextPayload(s: string)
    requires s == DollarText()
    ensures |s| == 31 && forall k :: 28 <= k < 30 ==> NotCloseParen(s[k])
  {
  }

  /** Its alt text is "$&". */
  lemma DollarTextAlt(s: string)
    requires s == DollarText()
    ensures |s| == 31 && s[2..4] == "$&"
  {
    assert s[2] == '$' && s[3] == '&';
    assert s[2..4] == [s[2], s[3]];
  }

  /** The pattern matches the whole of it, with alt text "$&", and no
      shorter alt text is followed by a data URI. */
  lemma DollarTextShape(s: string)
    requires s == DollarText()
    ensures WellPlaced(s, Match(0, 4, 20, 30))
    ensures forall b :: 2 <= b < 4 ==> TailAt(s, b).None?
  {
    DollarTextUri(s);
    TailAtComplete(s, 4, 20, 30);
    assert s[2] == '$' && s[3] == '&';
    forall b | 2 <= b < 4
      ensures TailAt(s, b).None?
    {
      assert s[b..b + 13][0] == s[b];
      TailAtNoOpening(s, b);
    }
  }

  /** Its one image, with alt text "$&". */
  lemma DollarTextMatches(s: string)
    requires s == DollarText()
    ensures AllMatches(s, 0) == [Match(0, 4, 20, 30)]
  {
    DollarTextShape(s);
    OnlyMatch(s, Match(0, 4, 20, 30));
  }

  /** A match that starts the text and ends it, with no shorter alt text
      followed by a data URI, is the only match of the text. */
  lemma OnlyMatch(s: string, m: Match)
    requires m.start == 0 && End(m) == |s| && WellPlaced(s, m)
    requires forall b :: 2 <= b < m.altEnd ==> TailAt(s, b).None?
    ensures AllMatches(s, 0) == [m]
  {
    OnlyMatchFirst(s, m);
    NothingAtEnd(s);
    AllMatchesUnfold(s, 0);
    AllMatchesUnfold(s, |s|);
  }

  lemma OnlyMatchFirst(s: string, m: Match)
    requires m.start == 0 && End(m) == |s| && WellPlaced(s, m)
    requires forall b :: 2 <= b < m.altEnd ==> TailAt(s, b).None?
    ensures NextMatch(s, 0) == Some(m)
  {
    MatchAtIs(s, m);
    NextMatchIs(s, 0, m);
  }

  /** No match starts at the end of the text. */
  lemma NothingAtEnd(s: string)
    ensures NextMatch(s, |s|).None?
  {
    NextMatchLeftmost(s, |s|);
  }

  /** As written, the one image of that text is not replaced: the output
      wraps the whole original text, data URI included, as the new alt text. */
  lemma DollarAltKeepsData(s: string)
    requires s == DollarText()
    ensures Rewritten(s, AllMatches(s, 0)) == "![" + s + "](" + Placeholder(0) + ")"
  {
    DollarTextFacts(s);
    DollarImageKeepsData(s);
  }

  /** Its one match and that match's alt text. */
  lemma DollarTextFacts(s: string)
    requires s == DollarText()
    ensures AllMatches(s, 0) == [Match(0, 4, 20, 30)] && |s| == 31 && s[2..4] == "$&"
  {
    DollarTextMatches(s);
    DollarTextAlt(s);
  }

  /** Any text of that shape keeps its data URI. */
  lemma DollarImageKeepsData(s: string)
    requires AllMatches(s, 0) == [Match(0, 4, 20, 30)] && |s| == 31 && s[2..4] == "$&"
    ensures Rewritten(s, AllMatches(s, 0)) == "![" + s + "](" + Placeholder(0) + ")"
  {
    OnlyDollarMatchKeepsData(s, Match(0, 4, 20, 30));
  }

  /** A text that is one image with alt text "$&" is wrapped whole, data URI
      included, as the new alt text. */
  lemma OnlyDollarMatchKeepsData(s: string, m: Match)
    requires AllMatches(s, 0) == [m] && InBounds(s, m) && m.start == 0 && End(m) == |s|
    requires AltText(s, m) == "$&"
    ensures Rewritten(s, AllMatches(s, 0)) == "![" + s + "](" + Placeholder(0) + ")"
  {
    WholeTextRewritten(s, m, "$&");
    DollarAltReinsertsMatch(s, [], [], 0);
  }

  /** A match spanning the whole text, with alt text alt, rewritten either
      way. */
  lemma WholeTextRewritten(s: string, m: Match, alt: string)
    requires InBounds(s, m) && m.start == 0 && End(m) == |s| && AltText(s, m) == alt
    ensures Rewritten(s, [m]) == Expand(Replacement(alt, 0), s, [], [])
    ensures RewrittenVerbatim(s, [m]) == Replacement(alt, 0)
  {
    WholeTextMatch(s, m);
  }

  /** A match that spans the whole text is found at 0, with nothing before
      or after it. */
  lemma WholeTextMatch(s: string, m: Match)
    requires InBounds(s, m) && m.start == 0 && End(m) == |s|
    ensures FullMatch(s, m) == s && IndexOf(s, s, 0) == Some(0)
    ensures Rewritten(s, [m]) == Expand(Replacement(AltText(s, m), 0), s, [], [])
    ensures RewrittenVerbatim(s, [m]) == Replacement(AltText(s, m), 0)
  {
    WholeTextFound(s, m);
    WholeTextExpanded(s, m);
    WholeTextVerbatim(s, m);
  }

  lemma WholeTextFound(s: string, m: Match)
    requires InBounds(s, m) && m.start == 0 && End(m) == |s|
    ensures FullMatch(s, m) == s && IndexOf(s, s, 0) == Some(0)
  {
    assert OccursAt(s, s, 0);
  }

  lemma WholeTextExpanded(s: string, m: Match)
    requires InBounds(s, m) && m.start == 0 && End(m) == |s|
    ensures Rewritten(s, [m]) == Expand(Replacement(AltText(s, m), 0), s, [], [])
  {
    WholeTextFound(s, m);
    assert [m][..0] == [];
    assert s[..0] == [] && s[|s|..] == [];
  }

  lemma WholeTextVerbatim(s: string, m: Match)
    requires InBounds(s, m) && m.start == 0 && End(m) == |s|
    ensures RewrittenVerbatim(s, [m]) == Replacement(AltText(s, m), 0)
  {
    WholeTextFound(s, m);
    assert [m][..0] == [];
    assert s[..0] == [] && s[|s|..] == [];
  }

  // ---------------------------------------------------------------------------
  // The replacement taken verbatim

  /** `hay.replace(pattern, () => rep)`: the first occurrence gives way to rep
      exactly as it is, whatever '$' it holds. */
  function ReplaceFirstVerbatim(hay: string, pattern: string, rep: string): (r: string)
    ensures IndexOf(hay, pattern, 0).None? ==> r == hay
  {
    match IndexOf(hay, pattern, 0)
    case None => hay
    case Some(p) => hay[..p] + rep + hay[p + |pattern|..]
  }

  /** Rewritten, with each replacement inserted verbatim. */
  function RewrittenVerbatim(text: string, ms: seq<Match>): string
    requires forall k :: 0 <= k < |ms| ==> InBounds(text, ms[k])
  {
    if ms == [] then text
    else
      var n := |ms| - 1;
      ReplaceFirstVerbatim(RewrittenVerbatim(text, ms[..n]), FullMatch(text, ms[n]), Replacement(AltText(text, ms[n]), n))
  }

  /** No '$' in the alt text means none in its replacement. */
  lemma ReplacementLiteral(alt: string, k: nat)
    requires forall i :: 0 <= i < |alt| ==> alt[i] != '$'
    ensures forall i :: 0 <= i < |Replacement(alt, k)| ==> Replacement(alt, k)[i] != '$'
  {
    var p := Placeholder(k);
    PlaceholderShape(k);
    var r := Replacement(alt, k);
    assert r == "![" + alt + "](" + p + ")";
    forall i | 0 <= i < |r| ensures r[i] != '$' {
      if 2 <= i < 2 + |alt| {
        assert r[i] == alt[i - 2];
      } else if 4 + |alt| <= i < 4 + |alt| + |p| {
        assert r[i] == p[i - 4 - |alt|];
      }
    }
  }

  /** Without '$' in the replacement the two kinds of `replace` agree. */
  lemma VerbatimAgreesOnLiteral(hay: string, pattern: string, rep: string)
    requires forall i :: 0 <= i < |rep| ==> rep[i] != '$'
    ensures ReplaceFirstVerbatim(hay, pattern, rep) == ReplaceFirst(hay, pattern, rep)
  {
  }

  /** The verbatim replacement changes nothing for texts whose alt texts hold
      no '$': there the two agree match by match. */
  lemma {:induction false} VerbatimAgreesWithoutDollar(text: string, ms: seq<Match>)
    requires forall k :: 0 <= k < |ms| ==> InBounds(text, ms[k])
    requires forall k :: 0 <= k < |ms| ==> DollarFree(AltText(text, ms[k]))
    ensures RewrittenVerbatim(text, ms) == Rewritten(text, ms)
    decreases |ms|
  {
    if ms != [] {
      var n := |ms| - 1;
      var alt := AltText(text, ms[n]);
      assert forall k :: 0 <= k < n ==> ms[..n][k] == ms[k];
      VerbatimAgreesWithoutDollar(text, ms[..n]);
      assert forall i :: 0 <= i < |alt| ==> alt[i] != '$';
      ReplacementLiteral(alt, n);
      VerbatimStep(text, ms);
    }
  }

  /** One more match keeps the two rewritings equal when its replacement has
      no '$'. */
  lemma VerbatimStep(text: string, ms: seq<Match>)
    requires ms != [] && forall k :: 0 <= k < |ms| ==> InBounds(text, ms[k])
    requires RewrittenVerbatim(text, ms[..|ms| - 1]) == Rewritten(text, ms[..|ms| - 1])
    requires var rep := Replacement(AltText(text, ms[|ms| - 1]), |ms| - 1);
             forall i :: 0 <= i < |rep| ==> rep[i] != '$'
    ensures RewrittenVerbatim(text, ms) == Rewritten(text, ms)
  {
    var n := |ms| - 1;
    VerbatimAgreesOnLiteral(Rewritten(text, ms[..n]), FullMatch(text, ms[n]), Replacement(AltText(text, ms[n]), n));
  }

  // ---------------------------------------------------------------------------
  // Each image replaced where it stands

  /** The matches lie inside the text in order, each ending before the next
      one begins. */
  predicate Ordered(text: string, ms: seq<Match>)
  {
    && (forall k :: 0 <= k < |ms| ==> InBounds(text, ms[k]))
    && (forall j, k :: 0 <= j < k < |ms| ==> End(ms[j]) <= ms[k].start)
  }

  /** Where the text after the given matches resumes. */
  function Resume(ms: seq<Match>): nat
  {
    if ms == [] then 0 else End(ms[|ms| - 1])
  }

  /** The first n matches are in order too, and the next one starts after
      them. */
  lemma OrderedPrefix(text: string, ms: seq<Match>, n: nat)
    requires Ordered(text, ms) && n <= |ms|
    ensures Ordered(text, ms[..n]) && Resume(ms[..n]) <= |text|
    ensures n < |ms| ==> Resume(ms[..n]) <= ms[n].start
  {
    assert forall k :: 0 <= k < n ==> ms[..n][k] == ms[k];
  }

  /** The text up to the end of the last match, each match replaced where it
      stands by `![alt](placeholder)`. */
  function Replaced(text: string, ms: seq<Match>): string
    requires Ordered(text, ms)
  {
    if ms == [] then ""
    else
      var n := |ms| - 1;
      OrderedPrefix(text, ms, n);
      Replaced(text, ms[..n]) + text[Resume(ms[..n])..ms[n].start] + Replacement(AltText(text, ms[n]), n)
  }

  /** What extractBase64Images is for: every match replaced where it stands,
      the text between and after the matches kept as it is. */
  function Positional(text: string, ms: seq<Match>): (r: string)
    requires Ordered(text, ms)
    ensures ms == [] ==> r == text
  {
    OrderedPrefix(text, ms, |ms|);
    assert ms[..|ms|] == ms;
    Replaced(text, ms) + text[Resume(ms)..]
  }

  /** Every ']' of the text is the one that closes the alt text of a match. */
  predicate BracketsCloseAlts(text: string, ms: seq<Match>)
  {
    forall t :: 0 <= t < |text| && text[t] == ']' ==> exists j :: 0 <= j < |ms| && ms[j].altEnd == t
  }

  /** No ']' in s[a..b]. */
  predicate BracketFree(s: string, a: nat, b: nat)
  {
    forall t :: a <= t < b && t < |s| ==> s[t] != ']'
  }

  /** Every ']' of s is the `](` in front of a placeholder: two characters on
      stands a '_'. */
  predicate BracketsBeforePlaceholders(s: string)
  {
    forall i :: 0 <= i < |s| && s[i] == ']' ==> i + 2 < |s| && s[i + 2] == '_'
  }

  /** When every ']' closes an alt text, none stands between the end of the
      first n matches and the end of the next match's alt text. */
  lemma BracketsBetween(text: string, ms: seq<Match>, n: nat)
    requires Ordered(text, ms) && BracketsCloseAlts(text, ms) && n < |ms|
    ensures Resume(ms[..n]) <= ms[n].start && BracketFree(text, Resume(ms[..n]), ms[n].altEnd)
  {
    OrderedPrefix(text, ms, n);
    var lo := Resume(ms[..n]);
    assert n > 0 ==> lo == End(ms[n - 1]);
    forall j | 0 <= j < |ms|
      ensures ms[j].altEnd < lo || ms[n].altEnd <= ms[j].altEnd
    {
      if j < n - 1 {
        assert End(ms[j]) <= ms[n - 1].start;
      } else if j > n {
        assert End(ms[n]) <= ms[j].start;
      }
    }
  }

  /** A placeholder holds no ']' and begins with '_'. */
  lemma PlaceholderNoBracket(k: nat)
    ensures Placeholder(k)[0] == '_'
    ensures forall i :: 0 <= i < |Placeholder(k)| ==> Placeholder(k)[i] != ']'
  {
    var p := Placeholder(k);
    var digits := NatToString(k);
    forall i | 0 <= i < |p|
      ensures p[i] != ']'
    {
      if 8 <= i < 8 + |digits| {
        assert p[i] == digits[i - 8];
      }
    }
  }

  /** An alt text without ']' leaves the `](` before the placeholder as the
      only ']' of its replacement. */
  lemma ReplacementBrackets(alt: string, k: nat)
    requires forall i :: 0 <= i < |alt| ==> alt[i] != ']'
    ensures BracketsBeforePlaceholders(Replacement(alt, k))
  {
    var p := Placeholder(k);
    PlaceholderNoBracket(k);
    var r := Replacement(alt, k);
    assert r == "![" + alt + "](" + p + ")";
    forall i | 0 <= i < |r|
      ensures r[i] == ']' ==> i + 2 < |r| && r[i + 2] == '_'
    {
      if 2 <= i < 2 + |alt| {
        assert r[i] == alt[i - 2];
      } else if 4 + |alt| <= i < 4 + |alt| + |p| {
        assert r[i] == p[i - 4 - |alt|];
      } else if i == 2 + |alt| {
        assert r[i + 2] == p[0];
      }
    }
  }

  lemma BracketsConcat(a: string, b: string)
    requires BracketsBeforePlaceholders(a) && BracketsBeforePlaceholders(b)
    ensures BracketsBeforePlaceholders(a + b)
  {
    var s := a + b;
    forall i | 0 <= i < |s|
      ensures s[i] == ']' ==> i + 2 < |s| && s[i + 2] == '_'
    {
      if i < |a| {
        assert s[i] == a[i];
        if i + 2 < |a| { assert s[i + 2] == a[i + 2]; }
      } else {
        assert s[i] == b[i - |a|];
        if i + 2 < |s| { assert s[i + 2] == b[i + 2 - |a|]; }
      }
    }
  }

  /** When every ']' of the text closes an alt text, the ']'s of the
      replaced text are those before the placeholders. */
  lemma {:induction false} ReplacedBrackets(text: string, ms: seq<Match>, n: nat)
    requires Ordered(text, ms) && BracketsCloseAlts(text, ms) && n <= |ms|
    ensures Ordered(text, ms[..n]) && BracketsBeforePlaceholders(Replaced(text, ms[..n]))
    decreases n
  {
    OrderedPrefix(text, ms, n);
    if n > 0 {
      ReplacedBrackets(text, ms, n - 1);
      ReplacedBracketsStep(text, ms, n);
    }
  }

  /** The step of ReplacedBrackets: one more match replaced. */
  lemma ReplacedBracketsStep(text: string, ms: seq<Match>, n: nat)
    requires Ordered(text, ms) && BracketsCloseAlts(text, ms) && 0 < n <= |ms|
    requires Ordered(text, ms[..n - 1]) && BracketsBeforePlaceholders(Replaced(text, ms[..n - 1]))
    ensures Ordered(text, ms[..n]) && BracketsBeforePlaceholders(Replaced(text, ms[..n]))
  {
    OrderedPrefix(text, ms, n);
    {
      var k := n - 1;
      BracketsBetween(text, ms, k);
      var m, lo := ms[k], Resume(ms[..k]);
      assert ms[..n][..k] == ms[..k] && ms[..n][k] == m;
      var gap, alt := text[lo..m.start], AltText(text, m);
      assert forall i :: 0 <= i < |gap| ==> gap[i] == text[lo + i];
      assert forall i :: 0 <= i < |alt| ==> alt[i] == text[m.start + 2 + i];
      ReplacementBrackets(alt, k);
      BracketsConcat(Replaced(text, ms[..k]), gap);
      BracketsConcat(Replaced(text, ms[..k]) + gap, Replacement(alt, k));
    }
  }

  /** Where needle occurs, hay holds its characters one by one. */
  lemma OccursAtIndex(hay: string, needle: string, i: int)
    ensures OccursAt(hay, needle, i) ==> forall k :: 0 <= k < |needle| ==> hay[i + k] == needle[k]
  {
    if OccursAt(hay, needle, i) {
      forall k | 0 <= k < |needle| ensures hay[i + k] == needle[k] {
        assert hay[i..i + |needle|][k] == hay[i + k];
      }
    }
  }

  /** The first occurrence is the one no other occurrence precedes. */
  lemma IndexOfFirst(hay: string, needle: string, p: nat)
    requires OccursAt(hay, needle, p)
    requires forall q :: 0 <= q < p ==> !OccursAt(hay, needle, q)
    ensures IndexOf(hay, needle, 0) == Some(p)
  {
  }

  /** In the text so far, the first matches replaced and the rest as it was,
      the next match's text occurs where it stands. */
  lemma OccursInPlace(text: string, m: Match, lo: nat, done: string)
    requires InBounds(text, m) && lo <= m.start
    ensures OccursAt(done + text[lo..], FullMatch(text, m), |done| + (m.start - lo))
  {
    var hay, p, f := done + text[lo..], |done| + (m.start - lo), FullMatch(text, m);
    forall i | 0 <= i < |f|
      ensures hay[p + i] == f[i]
    {
      assert hay[p + i] == text[lo..][m.start - lo + i];
    }
    assert hay[p..p + |f|] == f;
  }

  /** Nor does it occur any earlier: its `](` would stand either at a ']' of
      the replaced text, where a placeholder follows instead of its data URI,
      or in the untouched text before its own alt text ends, where there is
      no ']'. */
  lemma NoEarlierOccurrence(text: string, m: Match, lo: nat, done: string, q: nat)
    requires WellPlaced(text, m) && lo <= m.start
    requires BracketsBeforePlaceholders(done) && BracketFree(text, lo, m.altEnd)
    requires q < |done| + (m.start - lo)
    ensures !OccursAt(done + text[lo..], FullMatch(text, m), q)
  {
    var hay, f := done + text[lo..], FullMatch(text, m);
    var a := m.altEnd - m.start - 2;
    TailCharacters(text, m);
    assert f[2 + a] == text[m.altEnd] && f[4 + a] == text[m.altEnd + 2];
    var i := q + 2 + a;
    if i + 2 < |hay| {
      if i < |done| {
        assert hay[i] == done[i];
        if i + 2 < |done| { assert hay[i + 2] == done[i + 2]; }
      } else {
        assert hay[i] == text[lo + i - |done|];
      }
      assert hay[i] != ']' || hay[i + 2] != 'd';
    }
    OccursAtIndex(hay, f, q);
  }

  /** A match's alt text is closed by ']', and its data URI starts with 'd'
      two characters on. */
  lemma TailCharacters(text: string, m: Match)
    requires WellPlaced(text, m)
    ensures InBounds(text, m) && text[m.altEnd] == ']' && text[m.altEnd + 2] == 'd'
  {
    var t := TailAt(text, m.altEnd).value;
    assert DataUriSplit(text, m.altEnd + 2, t.typeEnd, t.dataEnd);
    OccursAtIndex(text, "](", m.altEnd);
    OccursAtIndex(text, "data:image/", m.altEnd + 2);
    assert "](data:image/"[0] == ']' && "data:image/"[0] == 'd';
  }

  /** Replacing the next match's first occurrence replaces it where it
      stands. */
  lemma ReplacesInPlace(text: string, m: Match, lo: nat, done: string, rep: string)
    requires WellPlaced(text, m) && lo <= m.start
    requires BracketsBeforePlaceholders(done) && BracketFree(text, lo, m.altEnd)
    ensures ReplaceFirstVerbatim(done + text[lo..], FullMatch(text, m), rep)
         == done + text[lo..m.start] + rep + text[End(m)..]
  {
    OccursInPlace(text, m, lo, done);
    NoneEarlier(text, m, lo, done);
    ReplaceVerbatimAt(done + text[lo..], FullMatch(text, m), rep, |done| + (m.start - lo));
    SplitAround(text, m, lo, done);
  }

  /** `replace` with a function replaces the first occurrence, at p. */
  lemma ReplaceVerbatimAt(hay: string, pattern: string, rep: string, p: nat)
    requires OccursAt(hay, pattern, p) && forall q :: 0 <= q < p ==> !OccursAt(hay, pattern, q)
    ensures ReplaceFirstVerbatim(hay, pattern, rep) == hay[..p] + rep + hay[p + |pattern|..]
  {
    IndexOfFirst(hay, pattern, p);
  }

  lemma NoneEarlier(text: string, m: Match, lo: nat, done: string)
    requires WellPlaced(text, m) && lo <= m.start
    requires BracketsBeforePlaceholders(done) && BracketFree(text, lo, m.altEnd)
    ensures forall q :: 0 <= q < |done| + (m.start - lo) ==> !OccursAt(done + text[lo..], FullMatch(text, m), q)
  {
    forall q | 0 <= q < |done| + (m.start - lo)
      ensures !OccursAt(done + text[lo..], FullMatch(text, m), q)
    {
      NoEarlierOccurrence(text, m, lo, done, q);
    }
  }

  /** What stands before and after the next match in the text so far. */
  lemma SplitAround(text: string, m: Match, lo: nat, done: string)
    requires InBounds(text, m) && lo <= m.start
    ensures var hay, p := done + text[lo..], |done| + (m.start - lo);
            && p + |FullMatch(text, m)| <= |hay|
            && hay[..p] == done + text[lo..m.start]
            && hay[p + |FullMatch(text, m)|..] == text[End(m)..]
  {
    var hay, p := done + text[lo..], |done| + (m.start - lo);
    assert |FullMatch(text, m)| == End(m) - m.start;
    assert hay[..p] == done + text[lo..][..m.start - lo];
    assert text[lo..][..m.start - lo] == text[lo..m.start];
    assert hay[p + End(m) - m.start..] == text[lo..][End(m) - lo..];
  }

  /** Taken verbatim, the replacements put each match's replacement where it
      stands, provided every ']' of the text closes an alt text. */
  lemma {:induction false} VerbatimIsPositional(text: string, ms: seq<Match>, n: nat)
    requires Ordered(text, ms) && n <= |ms|
    requires forall k :: 0 <= k < |ms| ==> WellPlaced(text, ms[k])
    requires BracketsCloseAlts(text, ms)
    ensures Ordered(text, ms[..n])
    ensures RewrittenVerbatim(text, ms[..n]) == Positional(text, ms[..n])
    decreases n
  {
    OrderedPrefix(text, ms, n);
    if n > 0 {
      VerbatimIsPositional(text, ms, n - 1);
      VerbatimPositionalStep(text, ms, n);
    }
  }

  /** One more match keeps the verbatim rewrite positional. */
  lemma VerbatimPositionalStep(text: string, ms: seq<Match>, n: nat)
    requires Ordered(text, ms) && 0 < n <= |ms|
    requires WellPlaced(text, ms[n - 1]) && BracketsCloseAlts(text, ms)
    requires Ordered(text, ms[..n - 1])
    requires RewrittenVerbatim(text, ms[..n - 1]) == Positional(text, ms[..n - 1])
    ensures Ordered(text, ms[..n])
    ensures RewrittenVerbatim(text, ms[..n]) == Positional(text, ms[..n])
  {
    var k := n - 1;
    ReplacedBrackets(text, ms, k);
    BracketsBetween(text, ms, k);
    var m, lo, done := ms[k], Resume(ms[..k]), Replaced(text, ms[..k]);
    var rep := Replacement(AltText(text, m), k);
    ReplacesInPlace(text, m, lo, done, rep);
    StepUnfold(text, ms, n);
  }

  /** RewrittenVerbatim and Positional one match further on. */
  lemma StepUnfold(text: string, ms: seq<Match>, n: nat)
    requires Ordered(text, ms) && 0 < n <= |ms|
    ensures Ordered(text, ms[..n]) && Ordered(text, ms[..n - 1]) && Resume(ms[..n - 1]) <= ms[n - 1].start
    ensures var m, rep := ms[n - 1], Replacement(AltText(text, ms[n - 1]), n - 1);
            && RewrittenVerbatim(text, ms[..n])
               == ReplaceFirstVerbatim(RewrittenVerbatim(text, ms[..n - 1]), FullMatch(text, m), rep)
            && Positional(text, ms[..n])
               == Replaced(text, ms[..n - 1]) + text[Resume(ms[..n - 1])..m.start] + rep + text[End(m)..]
  {
    StepOrdered(text, ms, n);
    StepVerbatim(text, ms, n);
    StepPositional(text, ms, n);
  }

  lemma StepOrdered(text: string, ms: seq<Match>, n: nat)
    requires Ordered(text, ms) && 0 < n <= |ms|
    ensures Ordered(text, ms[..n]) && Ordered(text, ms[..n - 1]) && Resume(ms[..n - 1]) <= ms[n - 1].start
    ensures ms[..n][..n - 1] == ms[..n - 1] && ms[..n][n - 1] == ms[n - 1]
  {
    OrderedPrefix(text, ms, n);
    OrderedPrefix(text, ms, n - 1);
  }

  lemma StepVerbatim(text: string, ms: seq<Match>, n: nat)
    requires Ordered(text, ms) && 0 < n <= |ms|
    ensures Ordered(text, ms[..n - 1])
    ensures RewrittenVerbatim(text, ms[..n])
         == ReplaceFirstVerbatim(RewrittenVerbatim(text, ms[..n - 1]), FullMatch(text, ms[n - 1]),
                                 Replacement(AltText(text, ms[n - 1]), n - 1))
  {
    StepOrdered(text, ms, n);
  }

  lemma StepPositional(text: string, ms: seq<Match>, n: nat)
    requires Ordered(text, ms) && 0 < n <= |ms|
    ensures Ordered(text, ms[..n - 1]) && Resume(ms[..n - 1]) <= ms[n - 1].start
    ensures Positional(text, ms[..n])
         == Replaced(text, ms[..n - 1]) + text[Resume(ms[..n - 1])..ms[n - 1].start]
            + Replacement(AltText(text, ms[n - 1]), n - 1) + text[End(ms[n - 1])..]
  {
    StepOrdered(text, ms, n);
  }

  /** Matches each ending before the next begins end before all later ones
      begin. */
  lemma {:induction false} ChainOrdered(text: string, ms: seq<Match>, j: nat, k: nat)
    requires forall i :: 0 <= i < |ms| ==> InBounds(text, ms[i])
    requires forall i :: 0 <= i < |ms| - 1 ==> End(ms[i]) <= ms[i + 1].start
    requires j < k < |ms|
    ensures End(ms[j]) <= ms[k].start
    decreases k - j
  {
    if j + 1 < k {
      ChainOrdered(text, ms, j + 1, k);
    }
  }

  /** The matches come pairwise in order. */
  lemma AllMatchesPairwise(s: string, from: nat)
    requires from <= |s|
    ensures Ordered(s, AllMatches(s, from))
  {
    AllMatchesConsecutive(s, from);
    ConsecutiveOrdered(s, AllMatches(s, from));
  }

  /** Each match ends before the next one begins. */
  lemma AllMatchesConsecutive(s: string, from: nat)
    requires from <= |s|
    ensures Consecutive(AllMatches(s, from))
  {
    AllMatchesOrdered(s, from);
  }

  /** Each match ends before the next one begins. */
  predicate Consecutive(ms: seq<Match>)
  {
    forall i :: 0 <= i < |ms| - 1 ==> End(ms[i]) <= ms[i + 1].start
  }

  /** Matches each ending before the next begins are in order. */
  lemma ConsecutiveOrdered(text: string, ms: seq<Match>)
    requires forall i :: 0 <= i < |ms| ==> InBounds(text, ms[i])
    requires Consecutive(ms)
    ensures Ordered(text, ms)
  {
    forall j, k | 0 <= j < k < |ms|
      ensures End(ms[j]) <= ms[k].start
    {
      ChainOrdered(text, ms, j, k);
    }
  }

  /** No '$' in s. */
  predicate DollarFree(s: string)
  {
    forall i :: 0 <= i < |s| ==> s[i] != '$'
  }

  /** Every ']' of the text closes the alt text of an image, and no alt text
      holds a '$'. */
  predicate PlainAlts(text: string)
  {
    var ms := AllMatches(text, 0);
    BracketsCloseAlts(text, ms) && forall k :: 0 <= k < |ms| ==> DollarFree(AltText(text, ms[k]))
  }

  /** For a text whose every ']' closes an alt text, and whose alt texts hold
      no '$', extractBase64Images replaces each image where it stands. */
  lemma RewrittenIsPositional(text: string)
    requires PlainAlts(text)
    ensures Ordered(text, AllMatches(text, 0))
    ensures Rewritten(text, AllMatches(text, 0)) == Positional(text, AllMatches(text, 0))
  {
    var ms := AllMatches(text, 0);
    AllMatchesPairwise(text, 0);
    AllMatchesWellPlaced(text);
    VerbatimIsPositional(text, ms, |ms|);
    assert ms[..|ms|] == ms;
    VerbatimAgreesWithoutDollar(text, ms);
  }

  /** Every match stands where the pattern matches. */
  lemma AllMatchesWellPlaced(text: string)
    ensures forall k :: 0 <= k < |AllMatches(text, 0)| ==> WellPlaced(text, AllMatches(text, 0)[k])
  {
    var ms := AllMatches(text, 0);
    AllMatchesOrdered(text, 0);
    forall k | 0 <= k < |ms| ensures WellPlaced(text, ms[k]) {
      assert MatchAt(text, ms[k].start) == Some(ms[k]);
    }
  }

  /** Replaced where it stands, the one image of the "$&" text gives way to
      its placeholder with its alt text "$&" kept. */
  lemma DollarTextPositional(s: string)
    requires s == DollarText()
    ensures Positional(s, AllMatches(s, 0)) == Replacement("$&", 0)
  {
    var m := Match(0, 4, 20, 30);
    DollarTextMatches(s);
    DollarTextAlt(s);
    PositionalOne(s, m);
    assert s[..0] == [] && s[31..] == [];
  }

  /** One match, replaced where it stands. */
  lemma PositionalOne(text: string, m: Match)
    requires InBounds(text, m)
    ensures Ordered(text, [m])
    ensures Positional(text, [m]) == text[..m.start] + Replacement(AltText(text, m), 0) + text[End(m)..]
  {
    assert [m][..0] == [];
    assert Replaced(text, [m]) == Replaced(text, []) + text[0..m.start] + Replacement(AltText(text, m), 0);
    assert text[0..m.start] == text[..m.start];
  }

  /** Two matches, each replaced where it stands. */
  lemma PositionalTwo(text: string, m1: Match, m2: Match)
    requires InBounds(text, m1) && InBounds(text, m2) && End(m1) <= m2.start
    ensures Ordered(text, [m1, m2])
    ensures Positional(text, [m1, m2])
         == text[..m1.start] + Replacement(AltText(text, m1), 0) + text[End(m1)..m2.start]
            + Replacement(AltText(text, m2), 1) + text[End(m2)..]
  {
    var r1, r2 := Replacement(AltText(text, m1), 0), Replacement(AltText(text, m2), 1);
    ReplacedOne(text, m1);
    ReplacedSecond(text, m1, m2);
    assert Positional(text, [m1, m2]) == Replaced(text, [m1, m2]) + text[End(m2)..];
  }

  lemma ReplacedOne(text: string, m: Match)
    requires InBounds(text, m)
    ensures Ordered(text, [m])
    ensures Replaced(text, [m]) == text[..m.start] + Replacement(AltText(text, m), 0)
  {
    assert [m][..0] == [];
    assert text[0..m.start] == text[..m.start];
  }

  lemma ReplacedSecond(text: string, m1: Match, m2: Match)
    requires InBounds(text, m1) && InBounds(text, m2) && End(m1) <= m2.start
    ensures Ordered(text, [m1]) && Ordered(text, [m1, m2])
    ensures Replaced(text, [m1, m2])
         == Replaced(text, [m1]) + text[End(m1)..m2.start] + Replacement(AltText(text, m2), 1)
  {
    assert [m1, m2][..1] == [m1];
  }

  /** Two matches that start and end the text, replaced where they stand. */
  lemma PositionalTwoWhole(text: string, m1: Match, m2: Match, alt1: string, gap: string, alt2: string)
    requires InBounds(text, m1) && InBounds(text, m2) && End(m1) <= m2.start
    requires m1.start == 0 && End(m2) == |text|
    requires AltText(text, m1) == alt1 && text[End(m1)..m2.start] == gap && AltText(text, m2) == alt2
    ensures Ordered(text, [m1, m2])
    ensures Positional(text, [m1, m2]) == Replacement(alt1, 0) + gap + Replacement(alt2, 1)
  {
    PositionalTwo(text, m1, m2);
    assert text[..m1.start] == [] && text[End(m2)..] == [];
  }

  // ---------------------------------------------------------------------------
  // An image whose text turns up earlier once an earlier image is replaced

  /** `![alt](data:image/ty;base64,payload)` at i is a match in the shape
      the pattern accepts, with alt as its alt text. */
  lemma ImageAt(s: string, i: nat, alt: string, ty: string, payload: string)
    requires OccursAt(s, "![" + alt + "](" + "data:image/" + ty + ";base64," + payload + ")", i)
    requires ty != [] && forall k :: 0 <= k < |ty| ==> IsLowerLetter(ty[k])
    requires payload != [] && forall k :: 0 <= k < |payload| ==> NotCloseParen(payload[k])
    requires forall k :: 0 <= k < |alt| ==> NotLineTerminator(alt[k])
    ensures var a := i + 2 + |alt|;
            var t := a + 13 + |ty|;
            WellPlaced(s, Match(i, a, t, t + 8 + |payload|))
    ensures forall k :: 0 <= k < |alt| ==> s[i + 2 + k] == alt[k]
  {
    var a := i + 2 + |alt|;
    var t := a + 13 + |ty|;
    var e := t + 8 + |payload|;
    ImageParts(s, i, alt, ty, payload);
    TailAtComplete(s, a, t, e);
    PlacedAt(s, Match(i, a, t, e));
  }

  /** The pieces of `![alt](data:image/ty;base64,payload)` at i, as the
      pattern reads them. */
  lemma ImageParts(s: string, i: nat, alt: string, ty: string, payload: string)
    requires OccursAt(s, "![" + alt + "](" + "data:image/" + ty + ";base64," + payload + ")", i)
    requires ty != [] && forall k :: 0 <= k < |ty| ==> IsLowerLetter(ty[k])
    requires payload != [] && forall k :: 0 <= k < |payload| ==> NotCloseParen(payload[k])
    requires forall k :: 0 <= k < |alt| ==> NotLineTerminator(alt[k])
    ensures var a := i + 2 + |alt|;
            var t := a + 13 + |ty|;
            var e := t + 8 + |payload|;
            && OccursAt(s, "![", i) && a <= |s| && OccursAt(s, "](", a)
            && DataUriSplit(s, a + 2, t, e) && NoTerminator(s, i + 2, a)
    ensures forall k :: 0 <= k < |alt| ==> s[i + 2 + k] == alt[k]
  {
    ImageAltPart(s, i, alt, ty, payload);
    ImageUriPart(s, i, alt, ty, payload);
  }

  /** The `![alt](` of an image. */
  lemma ImageAltPart(s: string, i: nat, alt: string, ty: string, payload: string)
    requires OccursAt(s, "![" + alt + "](" + "data:image/" + ty + ";base64," + payload + ")", i)
    requires forall k :: 0 <= k < |alt| ==> NotLineTerminator(alt[k])
    ensures var a := i + 2 + |alt|;
            && OccursAt(s, "![", i) && a <= |s| && OccursAt(s, "](", a) && NoTerminator(s, i + 2, a)
    ensures forall k :: 0 <= k < |alt| ==> s[i + 2 + k] == alt[k]
  {
    EightPieces(s, i, "![", alt, "](", "data:image/", ty, ";base64,", payload, ")");
    OccursAtIndex(s, alt, i + 2);
    PieceChars(s, alt, i + 2, NotLineTerminator);
  }

  /** The data URI of an image. */
  lemma ImageUriPart(s: string, i: nat, alt: string, ty: string, payload: string)
    requires OccursAt(s, "![" + alt + "](" + "data:image/" + ty + ";base64," + payload + ")", i)
    requires ty != [] && forall k :: 0 <= k < |ty| ==> IsLowerLetter(ty[k])
    requires payload != [] && forall k :: 0 <= k < |payload| ==> NotCloseParen(payload[k])
    ensures var a := i + 2 + |alt|;
            var t := a + 13 + |ty|;
            DataUriSplit(s, a + 2, t, t + 8 + |payload|)
  {
    var a := i + 2 + |alt|;
    var t := a + 13 + |ty|;
    var uri := "data:image/" + ty + ";base64," + payload + ")";
    Regroup("![", alt, "](", "data:image/", ty, ";base64,", payload, ")");
    OccursAtConcat(s, "![" + alt + "](", uri, i);
    ImageUri(s, a + 2, t, t + 8 + |payload|, ty, payload);
  }

  lemma Regroup(a: string, b: string, c: string, d: string, e: string, f: string, g: string, h: string)
    ensures a + b + c + d + e + f + g + h == (a + b + c) + (d + e + f + g + h)
  {
  }

  /** The pieces of a data URI each occur where they stand. */
  lemma UriPieces(s: string, j: nat, ty: string, payload: string)
    requires OccursAt(s, "data:image/" + ty + ";base64," + payload + ")", j)
    ensures OccursAt(s, "data:image/", j) && OccursAt(s, ty, j + 11)
    ensures OccursAt(s, ";base64,", j + 11 + |ty|) && OccursAt(s, payload, j + 19 + |ty|)
    ensures OccursAt(s, ")", j + 19 + |ty| + |payload|)
  {
    OccursAtConcat(s, "data:image/" + ty + ";base64," + payload, ")", j);
    OccursAtConcat(s, "data:image/" + ty + ";base64,", payload, j);
    OccursAtConcat(s, "data:image/" + ty, ";base64,", j);
    OccursAtConcat(s, "data:image/", ty, j);
  }

  /** `data:image/ty;base64,payload)` at j, each piece where it stands, is a
      data URI the pattern accepts. */
  lemma ImageUri(s: string, j: nat, t: nat, e: nat, ty: string, payload: string)
    requires OccursAt(s, "data:image/" + ty + ";base64," + payload + ")", j)
    requires t == j + 11 + |ty| && e == t + 8 + |payload|
    requires ty != [] && forall k :: 0 <= k < |ty| ==> IsLowerLetter(ty[k])
    requires payload != [] && forall k :: 0 <= k < |payload| ==> NotCloseParen(payload[k])
    ensures DataUriSplit(s, j, t, e)
  {
    UriPieces(s, j, ty, payload);
    OccursAtIndex(s, ")", t + 8 + |payload|);
    PieceChars(s, payload, t + 8, NotCloseParen);
    PieceChars(s, ty, j + 11, IsLowerLetter);
  }

  /** A match whose pieces stand where it says is well placed. */
  lemma PlacedAt(s: string, m: Match)
    requires OccursAt(s, "![", m.start) && m.start + 2 <= m.altEnd <= |s|
    requires NoTerminator(s, m.start + 2, m.altEnd)
    requires TailAt(s, m.altEnd) == Some(Tail(m.typeEnd, m.dataEnd))
    ensures WellPlaced(s, m)
  {
  }

  /** Eight texts side by side each occur where they stand. */
  lemma EightPieces(s: string, i: nat, p1: string, p2: string, p3: string, p4: string,
                    p5: string, p6: string, p7: string, p8: string)
    requires OccursAt(s, p1 + p2 + p3 + p4 + p5 + p6 + p7 + p8, i)
    ensures var i2 := i + |p1|; var i3 := i2 + |p2|; var i4 := i3 + |p3|; var i5 := i4 + |p4|;
            var i6 := i5 + |p5|; var i7 := i6 + |p6|; var i8 := i7 + |p7|;
            && OccursAt(s, p1, i) && OccursAt(s, p2, i2) && OccursAt(s, p3, i3) && OccursAt(s, p4, i4)
            && OccursAt(s, p5, i5) && OccursAt(s, p6, i6) && OccursAt(s, p7, i7) && OccursAt(s, p8, i8)
  {
    OccursAtConcat(s, p1 + p2 + p3 + p4 + p5 + p6 + p7, p8, i);
    OccursAtConcat(s, p1 + p2 + p3 + p4 + p5 + p6, p7, i);
    OccursAtConcat(s, p1 + p2 + p3 + p4 + p5, p6, i);
    OccursAtConcat(s, p1 + p2 + p3 + p4, p5, i);
    OccursAtConcat(s, p1 + p2 + p3, p4, i);
    OccursAtConcat(s, p1 + p2, p3, i);
    OccursAtConcat(s, p1, p2, i);
  }

  /** Where a piece occurs, the text's characters pass every test the
      piece's characters pass. */
  lemma PieceChars(s: string, piece: string, off: nat, p: char -> bool)
    requires OccursAt(s, piece, off) && forall k :: 0 <= k < |piece| ==> p(piece[k])
    ensures forall k :: off <= k < off + |piece| ==> k < |s| && p(s[k])
  {
    OccursAtIndex(s, piece, off);
    forall k | off <= k < off + |piece| ensures k < |s| && p(s[k]) {
      assert s[k] == piece[k - off];
    }
  }

  /** No tail can start where there is no ']' followed, two characters on,
      by 'd'. */
  lemma NoTailAt(s: string, b: nat)
    requires b <= |s|
    requires b + 2 < |s| ==> s[b] != ']' || s[b + 2] != 'd'
    ensures TailAt(s, b).None?
  {
    OccursAtIndex(s, "](data:image/", b);
  }

  /** A match with no shorter alt text followed by a tail is the one found
      at its start. */
  lemma MatchAtIs(s: string, m: Match)
    requires m.start <= |s| && WellPlaced(s, m)
    requires forall b :: m.start + 2 <= b < m.altEnd ==> TailAt(s, b).None?
    ensures MatchAt(s, m.start) == Some(m)
  {
    MatchAtComplete(s, m.start, m);
    var found := MatchAt(s, m.start).value;
    assert found.altEnd == m.altEnd;
  }

  /** The match at m's start, with none between from and it, is the next
      one found from `from`. */
  lemma NextMatchIs(s: string, from: nat, m: Match)
    requires from <= m.start <= |s| && MatchAt(s, m.start) == Some(m)
    requires forall i :: from <= i < m.start ==> MatchAt(s, i).None?
    ensures NextMatch(s, from) == Some(m)
  {
    var f := MatchTry(s);
    assert forall i :: from <= i < m.start ==> f(i).None?;
    FirstFoundIs(f, from, |s|, m.start);
    assert f(m.start) == Some(m);
  }

  /** A search over positions stops at the first one that gives a value. */
  lemma {:induction false} FirstFoundIs<T>(f: nat -> Option<T>, from: nat, to: nat, p: nat)
    requires from <= p <= to && f(p).Some?
    requires forall i :: from <= i < p ==> f(i).None?
    ensures FirstFound(f, from, to) == Some(p)
    decreases p - from
  {
    if from < p {
      FirstFoundIs(f, from + 1, to, p);
    }
  }

  /** Nothing matches where no '!' stands. */
  lemma NoMatchAt(s: string, i: nat)
    requires i <= |s| && (i < |s| ==> s[i] != '!')
    ensures MatchAt(s, i).None?
  {
    OccursAtIndex(s, "![", i);
  }

  /** Three texts side by side each occur where they stand. */
  lemma ThreePieces(a: string, b: string, c: string)
    ensures OccursAt(a + b + c, a, 0) && OccursAt(a + b + c, b, |a|) && OccursAt(a + b + c, c, |a| + |b|)
  {
    var s := a + b + c;
    assert s[..|a|] == a;
    assert s[|a|..|a| + |b|] == b;
    assert s[|a| + |b|..] == c;
  }

  /** The second image's alt text: `](`, the first placeholder, `)`. */
  function OverlapAlt(): string { "](" + "__IMAGE_0__" + ")" }

  /** The first image, with alt text "![", the text after it, and the second
      image. */
  function OverlapFirst(): string { "![" + "![" + "](" + "data:image/" + "a" + ";base64," + "A" + ")" }
  function OverlapGap(): string { "](" + "data:image/" + "a" + ";base64," + "B" + ")" }
  function OverlapSecond(): string { "![" + OverlapAlt() + "](" + "data:image/" + "a" + ";base64," + "B" + ")" }

  /** The first image's alt text "![" makes its replacement end with
      `![](__IMAGE_0__)`, which the text after it completes into a copy of
      the second image:
      `![![](data:image/a;base64,A)](data:image/a;base64,B)![](__IMAGE_0__)](data:image/a;base64,B)`. */
  function OverlapText(): string { OverlapFirst() + OverlapGap() + OverlapSecond() }

  lemma PlaceholderDigits()
    ensures Placeholder(0) == "__IMAGE_0__" && Placeholder(1) == "__IMAGE_1__"
  {
    assert NatToString(0) == "0" && NatToString(1) == "1";
  }

  /** The characters the pattern looks at in the three pieces. */
  lemma OverlapPieceCharacters()
    ensures |OverlapFirst()| == 28 && |OverlapGap()| == 24 && |OverlapAlt()| == 14
    ensures forall k :: 0 <= k < 24 ==> OverlapGap()[k] != '!'
    ensures OverlapAlt()[2] == '_' && forall k :: 0 < k < 14 ==> OverlapAlt()[k] != ']'
    ensures forall k :: 0 <= k < 14 ==> !IsLineTerminator(OverlapAlt()[k])
  {
  }

  /** Its two images, where they stand. */
  lemma OverlapImages(s: string)
    requires s == OverlapText()
    ensures |s| == 92
    ensures WellPlaced(s, Match(0, 4, 18, 27)) && WellPlaced(s, Match(52, 68, 82, 91))
    ensures s[2] == '!' && s[3] == '['
    ensures forall k :: 0 <= k < 14 ==> s[54 + k] == OverlapAlt()[k]
    ensures forall k :: 0 <= k < 24 ==> s[28 + k] == OverlapGap()[k]
  {
    OverlapFirstImage(s);
    OverlapSecondImage(s);
    OverlapGapCharacters(s);
  }

  lemma OverlapFirstImage(s: string)
    requires s == OverlapText()
    ensures |s| == 92 && WellPlaced(s, Match(0, 4, 18, 27)) && s[2] == '!' && s[3] == '['
  {
    OverlapPieceCharacters();
    ThreePieces(OverlapFirst(), OverlapGap(), OverlapSecond());
    ImageAt(s, 0, "![", "a", "A");
  }

  lemma OverlapSecondImage(s: string)
    requires s == OverlapText()
    ensures WellPlaced(s, Match(52, 68, 82, 91))
    ensures forall k :: 0 <= k < 14 ==> s[54 + k] == OverlapAlt()[k]
  {
    OverlapPieceCharacters();
    ThreePieces(OverlapFirst(), OverlapGap(), OverlapSecond());
    ImageAt(s, 52, OverlapAlt(), "a", "B");
  }

  lemma OverlapGapCharacters(s: string)
    requires s == OverlapText()
    ensures forall k :: 0 <= k < 24 ==> s[28 + k] == OverlapGap()[k]
  {
    OverlapPieceCharacters();
    ThreePieces(OverlapFirst(), OverlapGap(), OverlapSecond());
    OccursAtIndex(s, OverlapGap(), 28);
  }

  /** Its matches are the two images. */
  lemma OverlapMatches(s: string)
    requires s == OverlapText()
    ensures AllMatches(s, 0) == [Match(0, 4, 18, 27), Match(52, 68, 82, 91)]
  {
    OverlapNext(s);
    AllMatchesUnfold(s, 0);
    AllMatchesUnfold(s, 28);
    AllMatchesUnfold(s, 92);
  }

  /** The searches from the start and from the end of the first image. */
  lemma OverlapNext(s: string)
    requires s == OverlapText()
    ensures |s| == 92
    ensures NextMatch(s, 0) == Some(Match(0, 4, 18, 27)) && NextMatch(s, 28) == Some(Match(52, 68, 82, 91))
  {
    var m1, m2 := Match(0, 4, 18, 27), Match(52, 68, 82, 91);
    OverlapMatchesAt(s);
    NextMatchIs(s, 0, m1);
    NextMatchIs(s, 28, m2);
  }

  /** The pattern matches at 0 and 52, and nowhere between the two images. */
  lemma OverlapMatchesAt(s: string)
    requires s == OverlapText()
    ensures |s| == 92
    ensures MatchAt(s, 0) == Some(Match(0, 4, 18, 27)) && MatchAt(s, 52) == Some(Match(52, 68, 82, 91))
    ensures forall i :: 28 <= i < 52 ==> MatchAt(s, i).None?
  {
    OverlapImages(s);
    OverlapPieceCharacters();
    forall b | 2 <= b < 4 ensures TailAt(s, b).None? { NoTailAt(s, b); }
    forall b | 54 <= b < 68 ensures TailAt(s, b).None? {
      assert s[b] == OverlapAlt()[b - 54];
      NoTailAt(s, b);
    }
    forall i | 28 <= i < 52 ensures MatchAt(s, i).None? {
      assert s[i] == OverlapGap()[i - 28];
      NoMatchAt(s, i);
    }
    MatchAtIs(s, Match(0, 4, 18, 27));
    MatchAtIs(s, Match(52, 68, 82, 91));
  }

  /** The two images' texts and alt texts. */
  lemma OverlapParts(s: string)
    requires s == OverlapText()
    ensures |s| == 92 && InBounds(s, Match(0, 4, 18, 27)) && InBounds(s, Match(52, 68, 82, 91))
    ensures FullMatch(s, Match(0, 4, 18, 27)) == OverlapFirst() && AltText(s, Match(0, 4, 18, 27)) == "!["
    ensures FullMatch(s, Match(52, 68, 82, 91)) == OverlapSecond() && AltText(s, Match(52, 68, 82, 91)) == OverlapAlt()
    ensures s[28..52] == OverlapGap() && s[28..] == OverlapGap() + OverlapSecond()
  {
    var a, b, c := OverlapFirst(), OverlapGap(), OverlapSecond();
    OverlapPieceCharacters();
    OverlapAltTexts();
    SlicesOfThree(s, a, b, c);
    SliceOfSlice(s, 0, 28, 2, 4);
    SliceOfSlice(s, 52, 92, 2, 16);
  }

  /** The slices of a + b + c that are its three pieces. */
  lemma SlicesOfThree(s: string, a: string, b: string, c: string)
    requires s == a + b + c
    ensures s[..|a|] == s[0..|a|] == a && s[|a|..|a| + |b|] == b
    ensures s[|a| + |b|..] == s[|a| + |b|..|s|] == c && s[|a|..] == b + c
  {
  }

  lemma SliceOfSlice(s: string, i: nat, j: nat, k: nat, l: nat)
    requires i <= j <= |s| && k <= l <= j - i
    ensures s[i..j][k..l] == s[i + k..i + l]
  {
    assert forall t :: 0 <= t < l - k ==> s[i..j][k..l][t] == s[i + k + t];
  }

  /** Where the alt texts stand inside the two images. */
  lemma OverlapAltTexts()
    ensures |OverlapSecond()| == 40
    ensures OverlapFirst()[2..4] == "![" && OverlapSecond()[2..16] == OverlapAlt()
  {
  }

  /** The second image is its alt text followed by the text between the
      images, and neither holds a '$'. */
  lemma OverlapSecondShape()
    ensures OverlapSecond() == "![" + OverlapAlt() + OverlapGap()
    ensures OverlapAlt() == "](" + Placeholder(0) + ")"
    ensures DollarFree("![") && DollarFree(OverlapAlt())
    ensures Replacement(OverlapAlt(), 1) == "![](__IMAGE_0__)](__IMAGE_1__)"
    ensures Replacement("![", 0) == "![![](__IMAGE_0__)"
  {
    OverlapAltShape();
    OverlapReplacements();
  }

  lemma OverlapAltShape()
    ensures OverlapSecond() == "![" + OverlapAlt() + OverlapGap()
    ensures OverlapAlt() == "](" + Placeholder(0) + ")"
    ensures DollarFree("![") && DollarFree(OverlapAlt())
  {
    PlaceholderDigits();
  }

  lemma OverlapReplacements()
    ensures Replacement(OverlapAlt(), 1) == "![](__IMAGE_0__)](__IMAGE_1__)"
    ensures Replacement("![", 0) == "![![](__IMAGE_0__)"
  {
    PlaceholderDigits();
  }

  /** Two `replace` calls, one per match, in text order. */
  lemma RewrittenTwo(text: string, m1: Match, m2: Match)
    requires InBounds(text, m1) && InBounds(text, m2)
    ensures Rewritten(text, [m1, m2])
         == ReplaceFirst(ReplaceFirst(text, FullMatch(text, m1), Replacement(AltText(text, m1), 0)),
                         FullMatch(text, m2), Replacement(AltText(text, m2), 1))
  {
    assert [m1, m2][..1] == [m1] && [m1][..0] == [];
    assert Rewritten(text, [m1]) == ReplaceFirst(Rewritten(text, []), FullMatch(text, m1), Replacement(AltText(text, m1), 0));
  }

  /** `replace` of the occurrence at p, the first one, by a text without '$'. */
  lemma ReplaceFirstAt(hay: string, pattern: string, rep: string, p: nat)
    requires OccursAt(hay, pattern, p) && forall q :: 0 <= q < p ==> !OccursAt(hay, pattern, q)
    requires DollarFree(rep)
    ensures ReplaceFirst(hay, pattern, rep) == hay[..p] + rep + hay[p + |pattern|..]
  {
    IndexOfFirst(hay, pattern, p);
  }

  /** When the first match starts the text with alt text "![", and the
      second is its alt text, the first placeholder's link, followed by what
      follows the first match, the second `replace` finds the copy the first
      one made. */
  lemma FirstReplacementCopiesSecond(s: string, m1: Match, m2: Match, alt: string, gap: string)
    requires InBounds(s, m1) && InBounds(s, m2) && m1.start == 0
    requires AltText(s, m1) == "![" && AltText(s, m2) == alt
    requires alt == "](" + Placeholder(0) + ")" && DollarFree(alt)
    requires FullMatch(s, m2) == "![" + alt + gap && s[End(m1)..] == gap + FullMatch(s, m2)
    ensures Rewritten(s, [m1, m2]) == "![" + Replacement(alt, 1) + FullMatch(s, m2)
  {
    RewrittenTwo(s, m1, m2);
    ReplacementLiteral("![", 0);
    ReplacementLiteral(alt, 1);
    OpeningReplacement(alt);
    FirstReplacement(s, m1, Replacement("![", 0), "![" + alt, gap, FullMatch(s, m2));
    SecondReplacement(FullMatch(s, m2), alt, gap, Replacement(alt, 1));
  }

  /** The first `replace`: the text starts with the first match, whose
      replacement r1 ends with the start p of a copy of the second. */
  lemma FirstReplacement(s: string, m1: Match, r1: string, p: string, gap: string, f2: string)
    requires InBounds(s, m1) && m1.start == 0 && DollarFree(r1)
    requires r1 == "![" + p && f2 == p + gap && s[End(m1)..] == gap + f2
    ensures ReplaceFirst(s, FullMatch(s, m1), r1) == "![" + f2 + f2
  {
    var f1 := FullMatch(s, m1);
    assert s[..End(m1)] == f1;
    ReplaceFirstAt(s, f1, r1, 0);
    assert s[..0] == [] && |f1| == End(m1);
    Reassociate("![", p, gap, f2);
  }

  /** The replacement of a match with alt text "![" ends with `![`, `](`,
      the first placeholder and `)`. */
  lemma OpeningReplacement(alt: string)
    requires alt == "](" + Placeholder(0) + ")"
    ensures Replacement("![", 0) == "![" + ("![" + alt)
  {
  }

  lemma Reassociate(a: string, b: string, c: string, d: string)
    ensures [] + (a + b) + (c + d) == a + (b + c) + d
  {
  }

  /** The second `replace` finds the copy at 2, just after `![`. */
  lemma SecondReplacement(f2: string, alt: string, gap: string, r2: string)
    requires f2 == "![" + alt + gap && |alt| > 0 && alt[0] == ']' && DollarFree(r2)
    ensures ReplaceFirst("![" + f2 + f2, f2, r2) == "![" + r2 + f2
  {
    var hay := "![" + f2 + f2;
    ThreePieces("![", f2, f2);
    assert hay[2] == '!' && f2[2] == ']';
    NotOccursAt(hay, f2, 0, 2);
    assert hay[1] == '[' && f2[0] == '!';
    NotOccursAt(hay, f2, 1, 0);
    ReplaceFirstAt(hay, f2, r2, 2);
    assert hay[..2] == "![" && hay[2 + |f2|..] == f2;
  }

  /** One character that differs rules an occurrence out. */
  lemma NotOccursAt(hay: string, needle: string, i: nat, k: nat)
    requires k < |needle| && i + k < |hay| && hay[i + k] != needle[k]
    ensures !OccursAt(hay, needle, i)
  {
    OccursAtIndex(hay, needle, i);
  }

  /** As written, the first replacement leaves a copy of the second image's
      text right after `![`, and the second `replace` rewrites that copy: the
      output is `![![](__IMAGE_0__)](__IMAGE_1__)` followed by the second
      image, data URI and all, where it stood. */
  lemma OverlapKeepsSecondImage(s: string)
    requires s == OverlapText()
    ensures Rewritten(s, AllMatches(s, 0)) == "![" + "![](__IMAGE_0__)](__IMAGE_1__)" + OverlapSecond()
  {
    OverlapMatches(s);
    OverlapParts(s);
    OverlapSecondShape();
    FirstReplacementCopiesSecond(s, Match(0, 4, 18, 27), Match(52, 68, 82, 91), OverlapAlt(), OverlapGap());
  }

  /** Replaced where they stand, both data URIs give way to their
      placeholders and the text between is kept:
      `![![](__IMAGE_0__)](data:image/a;base64,B)![](__IMAGE_0__)](__IMAGE_1__)`. */
  lemma OverlapPositional(s: string)
    requires s == OverlapText()
    ensures Ordered(s, AllMatches(s, 0))
    ensures Positional(s, AllMatches(s, 0)) == Replacement("![", 0) + OverlapGap() + Replacement(OverlapAlt(), 1)
  {
    var m1, m2 := Match(0, 4, 18, 27), Match(52, 68, 82, 91);
    OverlapMatches(s);
    OverlapParts(s);
    PositionalTwoWhole(s, m1, m2, "![", OverlapGap(), OverlapAlt());
  }

  // ---------------------------------------------------------------------------
  // getImageSrc

  /** `getImageSrc(src, images)`: None is `undefined`. An absent or empty src
      gives undefined; a placeholder-shaped src is looked up (undefined when
      missing); anything else is returned as it is. */
  function GetImageSrc(src: Option<string>, images: map<string, string>): (r: Option<string>)
    ensures src.None? || src.value == "" ==> r.None?
    ensures src.Some? && src.value != "" && StartsWith(src.value, "__IMAGE_") && EndsWith(src.value, "__") ==>
      r == (if src.value in images then Some(images[src.value]) else None)
    ensures src.Some? && src.value != "" && !(StartsWith(src.value, "__IMAGE_") && EndsWith(src.value, "__")) ==>
      r == src
  {
    if src.None? || src.value == "" then None
    else if StartsWith(src.value, "__IMAGE_") && EndsWith(src.value, "__") then
      if src.value in images then Some(images[src.value]) else None
    else src
  }

  /** Drawing the k-th placeholder against the extracted map gives back the
      k-th data URI. */
  lemma PlaceholderRoundTrip(text: string, k: nat)
    requires k < |AllMatches(text, 0)|
    ensures GetImageSrc(Some(Placeholder(k)), Images(text, AllMatches(text, 0)))
         == Some(ImageData(text, AllMatches(text, 0)[k]))
  {
    ImagesValues(text, AllMatches(text, 0), k);
    PlaceholderShape(k);
  }
}
