/**
 * The fixed URL pattern `(https?://[^\s<>"'\)\]]+)` and the way Python's
 * `re.findall` applies it: leftmost, greedy, non-overlapping matches, scanned
 * from the start of the text. This is a hand-written scanner for this one
 * pattern, not a general regular-expression engine.
 */
module UrlPattern {

  import opened Wrappers

  /** Characters for which Python's `str.isspace` holds; `\s` matches exactly these in a str pattern. */
  predicate IsSpace(c: char) {
    var n := c as int;
    (0x09 <= n <= 0x0D) || (0x1C <= n <= 0x20) || n == 0x85 || n == 0xA0 || n == 0x1680
    || (0x2000 <= n <= 0x200A) || n == 0x2028 || n == 0x2029 || n == 0x202F || n == 0x205F
    || n == 0x3000
  }

  /** The negated character class `[^\s<>"'\)\]]` rejects exactly these characters. */
  predicate Excluded(c: char) {
    IsSpace(c) || c == '<' || c == '>' || c == '"' || c == '\'' || c == ')' || c == ']'
  }

  const Http: string := "http://"
  const Https: string := "https://"

  datatype Span = Span(start: nat, end: nat)

  predicate PrefixAt(text: string, i: nat, p: string) {
    i + |p| <= |text| && text[i..i + |p|] == p
  }

  predicate AllUrlChars(text: string, lo: nat, hi: nat)
    requires lo <= hi <= |text|
  {
    forall j :: lo <= j < hi ==> !Excluded(text[j])
  }

  /**
   * Declarative reading of one match of the pattern on text[s..e]: a scheme,
   * at least one accepted character, and (greediness) the match cannot be
   * extended because the next character is rejected or the text ends.
   */
  predicate IsMatch(text: string, s: nat, e: nat) {
    && e <= |text|
    && ((PrefixAt(text, s, Http) && s + |Http| < e && AllUrlChars(text, s + |Http|, e))
        || (PrefixAt(text, s, Https) && s + |Https| < e && AllUrlChars(text, s + |Https|, e)))
    && (e == |text| || Excluded(text[e]))
  }

  /** At most one of the two schemes starts at a position: the fifth character tells them apart. */
  lemma SchemesDisjoint(text: string, i: nat)
    ensures !(PrefixAt(text, i, Http) && PrefixAt(text, i, Https))
  {
    if PrefixAt(text, i, Https) {
      assert text[i..i + |Http|][4] == Https[4] != Http[4];
    }
  }

  /** Length of the scheme `https?://` at position i, or 0 when none starts there. */
  function SchemeLength(text: string, i: nat): (k: nat)
    ensures k == 0 || k == |Http| || k == |Https|
    ensures k == |Http| <==> PrefixAt(text, i, Http)
    ensures k == |Https| <==> PrefixAt(text, i, Https)
  {
    SchemesDisjoint(text, i);
    if PrefixAt(text, i, Https) then |Https|
    else if PrefixAt(text, i, Http) then |Http|
    else 0
  }

  /** End of the longest run of accepted characters starting at i (the greedy `+`). */
  function RunEnd(text: string, i: nat): (e: nat)
    requires i <= |text|
    ensures i <= e <= |text|
    ensures AllUrlChars(text, i, e)
    ensures e == |text| || Excluded(text[e])
    decreases |text| - i
  {
    if i == |text| || Excluded(text[i]) then i else RunEnd(text, i + 1)
  }

  /** The end of the match that starts exactly at i, if there is one. */
  function MatchAt(text: string, i: nat): (r: Option<nat>)
    ensures r.Some? ==> i < r.value <= |text|
  {
    var k := SchemeLength(text, i);
    if k == 0 then None
    else
      var e := RunEnd(text, i + k);
      if e > i + k then Some(e) else None
  }

  /** Matches only, none before pos, in text order and not overlapping. */
  predicate ValidScan(text: string, pos: nat, spans: seq<Span>) {
    && (forall k :: 0 <= k < |spans| ==> pos <= spans[k].start && IsMatch(text, spans[k].start, spans[k].end))
    && (forall k :: 0 <= k < |spans| ==> spans[k].start < spans[k].end)
    && (forall i, j :: 0 <= i < j < |spans| ==> spans[i].end <= spans[j].start)
  }

  /** The spans that `findall` reports when the scan is resumed at position pos. */
  function FindSpans(text: string, pos: nat): (spans: seq<Span>)
    ensures ValidScan(text, pos, spans)
    decreases |text| - pos
  {
    if pos >= |text| then []
    else
      match MatchAt(text, pos)
      case Some(e) =>
        MatchAtSound(text, pos);
        [Span(pos, e)] + FindSpans(text, e)
      case None => FindSpans(text, pos + 1)
  }

  /** The text at each span, in order. */
  function Substrings(text: string, spans: seq<Span>): (subs: seq<string>)
    requires forall k :: 0 <= k < |spans| ==> spans[k].start <= spans[k].end <= |text|
    ensures |subs| == |spans|
    ensures forall k :: 0 <= k < |spans| ==> subs[k] == text[spans[k].start..spans[k].end]
  {
    if spans == [] then []
    else [text[spans[0].start..spans[0].end]] + Substrings(text, spans[1..])
  }

  /** The matched substrings, in text order: `URL_PATTERN.findall(text)`. */
  function FindAll(text: string): seq<string> {
    Substrings(text, FindSpans(text, 0))
  }

  // ----- correctness of the scanner -----

  lemma MatchAtSound(text: string, i: nat)
    requires MatchAt(text, i).Some?
    ensures i < MatchAt(text, i).value
    ensures IsMatch(text, i, MatchAt(text, i).value)
  {
  }

  /** `MatchAt` finds a match at i exactly when the declarative reading says there is one, and with the same end. */
  lemma MatchAtExact(text: string, i: nat, e: nat)
    ensures MatchAt(text, i) == Some(e) <==> IsMatch(text, i, e)
  {
    if IsMatch(text, i, e) {
      var k := SchemeLength(text, i);
      assert k != 0;
      RunEndIsFirstRejected(text, i + k, e);
    }
  }

  /** A run of accepted characters that ends at a rejected character or the end of the text ends where `RunEnd` says. */
  lemma {:induction false} RunEndIsFirstRejected(text: string, i: nat, e: nat)
    requires i <= e <= |text|
    requires AllUrlChars(text, i, e)
    requires e == |text| || Excluded(text[e])
    ensures RunEnd(text, i) == e
    decreases e - i
  {
    if i < e {
      RunEndIsFirstRejected(text, i + 1, e);
    }
  }

  /** A match is determined by where it starts: greediness leaves one possible end. */
  lemma MatchEndUnique(text: string, s: nat, e1: nat, e2: nat)
    requires IsMatch(text, s, e1) && IsMatch(text, s, e2)
    ensures e1 == e2
  {
    MatchAtExact(text, s, e1);
    MatchAtExact(text, s, e2);
  }

  ghost predicate Covered(spans: seq<Span>, p: nat) {
    exists k :: 0 <= k < |spans| && spans[k].start <= p < spans[k].end
  }

  /** Leftmost: no match starts in a gap the scan skipped; every match start lies inside a reported span. */
  lemma {:induction false} FindSpansCovers(text: string, pos: nat, p: nat, e: nat)
    requires pos <= p && IsMatch(text, p, e)
    ensures Covered(FindSpans(text, pos), p)
    decreases |text| - pos
  {
    MatchAtExact(text, p, e);
    assert pos < |text|;
    match MatchAt(text, pos)
    case Some(e') =>
      assert FindSpans(text, pos) == [Span(pos, e')] + FindSpans(text, e');
      if e' <= p {
        FindSpansCovers(text, e', p, e);
      }
      CoveredCons(Span(pos, e'), FindSpans(text, e'), p);
    case None =>
      FindSpansCovers(text, pos + 1, p, e);
  }

  lemma CoveredCons(x: Span, t: seq<Span>, p: nat)
    requires x.start <= p < x.end || Covered(t, p)
    ensures Covered([x] + t, p)
  {
    if !(x.start <= p < x.end) {
      var k :| 0 <= k < |t| && t[k].start <= p < t[k].end;
      assert ([x] + t)[k + 1] == t[k];
    } else {
      assert ([x] + t)[0] == x;
    }
  }

  /**
   * Declarative description of a findall scan resumed at pos: matches only,
   * in order, not overlapping, not before pos, and missing no match start.
   */
  ghost predicate LeftmostScan(text: string, pos: nat, spans: seq<Span>) {
    && ValidScan(text, pos, spans)
    && (forall p, e :: pos <= p && IsMatch(text, p, e) ==> Covered(spans, p))
  }

  lemma FindSpansIsLeftmostScan(text: string, pos: nat)
    ensures LeftmostScan(text, pos, FindSpans(text, pos))
  {
    forall p, e | pos <= p && IsMatch(text, p, e) ensures Covered(FindSpans(text, pos), p) {
      FindSpansCovers(text, pos, p, e);
    }
  }

  /** In a leftmost scan, the first span starts no later than any match at or after pos. */
  lemma FirstSpanIsLeftmost(text: string, pos: nat, a: seq<Span>, p: nat, e: nat)
    requires LeftmostScan(text, pos, a)
    requires pos <= p && IsMatch(text, p, e)
    ensures a != [] && a[0].start <= p
  {
    assert Covered(a, p);
    var k :| 0 <= k < |a| && a[k].start <= p < a[k].end;
    if k > 0 {
      assert a[0].end <= a[k].start;
    }
  }

  /** Dropping the first span of a leftmost scan leaves a leftmost scan resumed at its end. */
  lemma LeftmostScanTail(text: string, pos: nat, a: seq<Span>)
    requires LeftmostScan(text, pos, a) && a != []
    ensures LeftmostScan(text, a[0].end, a[1..])
  {
    ValidScanTail(text, pos, a);
    CoverageTail(text, pos, a);
  }

  lemma ValidScanTail(text: string, pos: nat, a: seq<Span>)
    requires ValidScan(text, pos, a) && a != []
    ensures ValidScan(text, a[0].end, a[1..])
  {
    var t := a[1..];
    forall k | 0 <= k < |t| ensures a[0].end <= t[k].start && IsMatch(text, t[k].start, t[k].end) && t[k].start < t[k].end {
      assert t[k] == a[k + 1];
      assert a[0].end <= a[k + 1].start;
    }
    forall i, j | 0 <= i < j < |t| ensures t[i].end <= t[j].start {
      assert t[i] == a[i + 1] && t[j] == a[j + 1];
    }
  }

  lemma CoverageTail(text: string, pos: nat, a: seq<Span>)
    requires LeftmostScan(text, pos, a) && a != []
    ensures forall p, e :: a[0].end <= p && IsMatch(text, p, e) ==> Covered(a[1..], p)
  {
    var t := a[1..];
    forall p, e | a[0].end <= p && IsMatch(text, p, e) ensures Covered(t, p) {
      assert Covered(a, p);
      var k :| 0 <= k < |a| && a[k].start <= p < a[k].end;
      assert k != 0;
      assert t[k - 1] == a[k];
    }
  }

  /** Two leftmost scans from the same position agree on their first span. */
  lemma LeftmostScanHead(text: string, pos: nat, a: seq<Span>, b: seq<Span>)
    requires LeftmostScan(text, pos, a) && LeftmostScan(text, pos, b)
    requires a != [] || b != []
    ensures a != [] && b != [] && a[0] == b[0]
  {
    if a == [] {
      FirstSpanIsLeftmost(text, pos, a, b[0].start, b[0].end);
    } else if b == [] {
      FirstSpanIsLeftmost(text, pos, b, a[0].start, a[0].end);
    } else {
      FirstSpanIsLeftmost(text, pos, b, a[0].start, a[0].end);
      FirstSpanIsLeftmost(text, pos, a, b[0].start, b[0].end);
      MatchEndUnique(text, a[0].start, a[0].end, b[0].end);
    }
  }

  /** There is only one leftmost scan, so the scanner computes exactly the matches `findall` reports. */
  lemma {:induction false} LeftmostScanUnique(text: string, pos: nat, a: seq<Span>, b: seq<Span>)
    requires LeftmostScan(text, pos, a) && LeftmostScan(text, pos, b)
    ensures a == b
    decreases |a|
  {
    if a != [] || b != [] {
      LeftmostScanHead(text, pos, a, b);
      LeftmostScanTail(text, pos, a);
      LeftmostScanTail(text, pos, b);
      LeftmostScanUnique(text, a[0].end, a[1..], b[1..]);
      SameHeadSameTail(a, b);
    }
  }

  lemma SameHeadSameTail(a: seq<Span>, b: seq<Span>)
    requires a != [] && b != [] && a[0] == b[0] && a[1..] == b[1..]
    ensures a == b
  {
    assert a == [a[0]] + a[1..] && b == [b[0]] + b[1..];
  }

  /** The scanner is the one and only leftmost scan of the text. */
  lemma FindSpansCharacterized(text: string, spans: seq<Span>)
    ensures LeftmostScan(text, 0, spans) <==> spans == FindSpans(text, 0)
  {
    FindSpansIsLeftmostScan(text, 0);
    if LeftmostScan(text, 0, spans) {
      LeftmostScanUnique(text, 0, spans, FindSpans(text, 0));
    }
  }

  /**
   * Every match is the text of the k-th scanned span: it starts with
   * `http://` or `https://`, holds no rejected character after the scheme,
   * and is followed by a rejected character or the end of the text.
   */
  lemma FindAllShape(text: string, k: nat)
    requires k < |FindAll(text)|
    ensures var m := FindAll(text)[k];
      (|Http| < |m| && m[..|Http|] == Http && forall j :: |Http| <= j < |m| ==> !Excluded(m[j]))
      || (|Https| < |m| && m[..|Https|] == Https && forall j :: |Https| <= j < |m| ==> !Excluded(m[j]))
    ensures var sp := FindSpans(text, 0);
      && k < |sp| && sp[k].start < sp[k].end <= |text|
      && FindAll(text)[k] == text[sp[k].start..sp[k].end]
      && (sp[k].end == |text| || Excluded(text[sp[k].end]))
  {
    var sp := FindSpans(text, 0)[k];
    assert FindAll(text)[k] == text[sp.start..sp.end];
    MatchText(text, sp.start, sp.end);
  }

  /** The text of a match is its scheme followed by accepted characters only. */
  lemma MatchText(text: string, s: nat, e: nat)
    requires IsMatch(text, s, e)
    ensures s <= e
    ensures var m := text[s..e];
      (|Http| < |m| && m[..|Http|] == Http && forall j :: |Http| <= j < |m| ==> !Excluded(m[j]))
      || (|Https| < |m| && m[..|Https|] == Https && forall j :: |Https| <= j < |m| ==> !Excluded(m[j]))
  {
    var m := text[s..e];
    if PrefixAt(text, s, Http) && s + |Http| < e && AllUrlChars(text, s + |Http|, e) {
      assert m[..|Http|] == text[s..s + |Http|];
      assert forall j :: |Http| <= j < |m| ==> m[j] == text[s + j];
    } else {
      assert m[..|Https|] == text[s..s + |Https|];
      assert forall j :: |Https| <= j < |m| ==> m[j] == text[s + j];
    }
  }

  /** A text whose only match start is s has that one match as its `findall` result. */
  lemma OnlyMatchFindAll(text: string, s: nat, e: nat)
    requires IsMatch(text, s, e)
    requires forall p, e' :: IsMatch(text, p, e') ==> p == s
    ensures FindSpans(text, 0) == [Span(s, e)]
    ensures FindAll(text) == [text[s..e]]
  {
    var spans := [Span(s, e)];
    MatchText(text, s, e);
    forall p, e' | 0 <= p && IsMatch(text, p, e') ensures Covered(spans, p) {
      assert spans[0].start <= p < spans[0].end;
    }
    FindSpansCharacterized(text, spans);
  }

  /** Both schemes start with `h`, so a match starts at an `h` with room for `http://` after it. */
  lemma MatchStartsAtH(text: string, p: nat, e: nat)
    requires IsMatch(text, p, e)
    ensures p + |Http| <= |text| && text[p] == 'h'
  {
    if PrefixAt(text, p, Http) {
      assert text[p..p + |Http|][0] == text[p];
    } else {
      assert text[p..p + |Https|][0] == text[p];
    }
  }

  // ----- the example text `see http://example.com).` -----

  /** A sentence ending in a URL followed by `).`; the class rejects `)`, so the match stops before it. */
  const SampleText: string := "see http://example.com)."

  /** `http://example.com`, at positions 4 to 22, is a match of the sample text. */
  lemma SampleTextMatch()
    ensures IsMatch(SampleText, 4, 22)
  {
    assert SampleText[4..11] == Http;
    assert forall j :: 11 <= j < 22 ==> !Excluded(SampleText[j]);
    assert SampleText[22] == ')';
  }

  /** Position 4 holds the only `h` of the sample text that leaves room for a scheme. */
  lemma SampleTextMatchStart(p: nat, e: nat)
    requires IsMatch(SampleText, p, e)
    ensures p == 4
  {
    MatchStartsAtH(SampleText, p, e);
  }

  lemma SampleTextSlice()
    ensures SampleText[4..22] == "http://example.com"
  {
  }

  /** `findall` on the sample text gives `http://example.com`, without the closing parenthesis. */
  lemma SampleTextFindAll()
    ensures FindSpans(SampleText, 0) == [Span(4, 22)]
    ensures FindAll(SampleText) == ["http://example.com"]
  {
    SampleTextMatch();
    forall p, e | IsMatch(SampleText, p, e) ensures p == 4 {
      SampleTextMatchStart(p, e);
    }
    OnlyMatchFindAll(SampleText, 4, 22);
    SampleTextSlice();
  }
}
