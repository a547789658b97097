/** Python's `s.rstrip('.,;:)]')`, applied to every extracted link candidate. */
module TrailingStrip {

  /** The characters stripped from the end of a link: `.`, `,`, `;`, `:`, `)` and `]`. */
  const StripChars: set<char> := {'.', ',', ';', ':', ')', ']'}

  /** No trailing character is one of the stripped characters. */
  predicate CleanEnd(s: string) {
    s == [] || s[|s| - 1] !in StripChars
  }

  /** Removes the longest suffix made only of StripChars. */
  function RStrip(s: string): (r: string)
    ensures r <= s
    ensures CleanEnd(r)
    ensures forall i :: |r| <= i < |s| ==> s[i] in StripChars
    decreases |s|
  {
    if s != [] && s[|s| - 1] in StripChars then RStrip(s[..|s| - 1]) else s
  }

  /** Stripping twice is stripping once. */
  lemma RStripIdempotent(s: string)
    ensures RStrip(RStrip(s)) == RStrip(s)
  {
  }

  /** A string that already has a clean end is left as it is. */
  lemma RStripFixesClean(s: string)
    ensures RStrip(s) == s <==> CleanEnd(s)
  {
  }

  /**
   * `RStrip` is the only prefix that removes nothing but stripped characters
   * and leaves a clean end: the three ensures of RStrip determine its result.
   */
  lemma RStripUnique(s: string, r: string)
    requires r <= s && CleanEnd(r)
    requires forall i :: |r| <= i < |s| ==> s[i] in StripChars
    ensures r == RStrip(s)
  {
    var t := RStrip(s);
    assert |r| == |t|;
    assert r == s[..|r|] && t == s[..|t|];
  }
}
