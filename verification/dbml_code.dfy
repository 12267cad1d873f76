/**
 * The back end's `DBMLCode`: cutting the schema text out of a generated answer
 * that wraps it in a fenced block opened by "```dbml" and closed by "```".
 */
module DbmlCode {
  import opened Text

  const StartDelimiter: string := "```dbml"
  const EndDelimiter: string := "```"

  /** `i` is the first occurrence of `pat` in `s` at or after `from`. */
  predicate FirstOccurrence(s: string, pat: string, from: nat, i: nat)
  {
    from <= i && OccursAt(s, pat, i) && forall j: nat :: from <= j < i ==> !OccursAt(s, pat, j)
  }

  /** No occurrence of `pat` in `s` starts at or after `from`. */
  ghost predicate NoOccurrenceFrom(s: string, pat: string, from: nat)
  {
    forall j: nat :: from <= j ==> !OccursAt(s, pat, j)
  }

  /** The static `extractCleanDbmlCode(String)`. A successful cut holds no fence. */
  function ExtractCleanDbmlCode(raw: string): (r: string)
    ensures r == raw || !Contains(r, EndDelimiter)
  {
    var startIndex := IndexOf(raw, StartDelimiter, 0);
    if startIndex != -1 then
      var start := startIndex + |StartDelimiter|;
      var endIndex := IndexOf(raw, EndDelimiter, start);
      if endIndex != -1 then
        SliceWithoutPattern(raw, EndDelimiter, start, endIndex);
        JavaTrim(raw[start..endIndex])
      else raw
    else raw
  }

  /** A slice of `s` that no occurrence of `pat` fits into holds no `pat`. */
  lemma SliceWithoutOccurrence(s: string, pat: string, a: nat, b: nat)
    requires a <= b <= |s|
    requires forall j: nat :: a <= j && j + |pat| <= b ==> !OccursAt(s, pat, j)
    ensures !Contains(s[a..b], pat)
  {
    var t := s[a..b];
    forall j: nat | j <= |t| ensures !OccursAt(t, pat, j) {
      if OccursAt(t, pat, j) {
        var w := s[a + j..a + j + |pat|];
        forall k | 0 <= k < |pat| ensures w[k] == pat[k] {
          assert pat[k] == t[j..j + |pat|][k] == t[j + k] == s[a + j + k];
        }
        assert w == pat;
        assert OccursAt(s, pat, a + j);
      }
    }
  }

  /** The text between `from` and the first later occurrence of `pat` holds no `pat`,
      and neither does the trimmed piece of it. */
  lemma SliceWithoutPattern(s: string, pat: string, from: nat, e: nat)
    requires |pat| > 0 && from <= e && e + |pat| <= |s|
    requires forall j: nat :: from <= j < e ==> !OccursAt(s, pat, j)
    ensures !Contains(JavaTrim(s[from..e]), pat)
  {
    var piece := s[from..e];
    var t1 := TrimStart(piece, IsJavaSpace);
    var i := |piece| - |t1|;
    var t := TrimEnd(t1, IsJavaSpace);
    TrimStartShape(piece, IsJavaSpace);
    TrimEndShape(t1, IsJavaSpace);
    assert t == s[from + i..from + i + |t|];
    SliceWithoutOccurrence(s, pat, from + i, from + i + |t|);
  }

  /** An occurrence preceded by none is what `IndexOf` finds. */
  lemma IndexOfFinds(s: string, pat: string, from: nat, i: nat)
    requires FirstOccurrence(s, pat, from, i)
    ensures IndexOf(s, pat, from) == i
  {
  }

  /** Without an opening fence the text comes back unchanged. */
  lemma ExtractWithoutFence(raw: string)
    requires NoOccurrenceFrom(raw, StartDelimiter, 0)
    ensures ExtractCleanDbmlCode(raw) == raw
  {
  }

  /** An opening fence with no closing fence after it leaves the text unchanged. */
  lemma ExtractUnclosedFence(raw: string, p: nat)
    requires FirstOccurrence(raw, StartDelimiter, 0, p)
    requires NoOccurrenceFrom(raw, EndDelimiter, p + |StartDelimiter|)
    ensures ExtractCleanDbmlCode(raw) == raw
  {
    IndexOfFinds(raw, StartDelimiter, 0, p);
  }

  /** Otherwise the result is the trimmed text between the end of the first opening
      fence and the next closing fence. */
  lemma ExtractBetweenFences(raw: string, p: nat, e: nat)
    requires FirstOccurrence(raw, StartDelimiter, 0, p)
    requires FirstOccurrence(raw, EndDelimiter, p + |StartDelimiter|, e)
    ensures ExtractCleanDbmlCode(raw) == JavaTrim(raw[p + |StartDelimiter|..e])
  {
    IndexOfFinds(raw, StartDelimiter, 0, p);
    IndexOfFinds(raw, EndDelimiter, p + |StartDelimiter|, e);
  }

  /** A text with no closing fence has no opening fence either. */
  lemma NoFenceNoStart(s: string)
    requires !Contains(s, EndDelimiter)
    ensures IndexOf(s, StartDelimiter, 0) == -1
  {
    var i := IndexOf(s, StartDelimiter, 0);
    if i != -1 {
      assert s[i..i + 3] == s[i..i + 7][..3];
      assert OccursAt(s, EndDelimiter, i);
    }
  }

  /** Cutting twice gives what cutting once gave. */
  lemma ExtractIdempotent(raw: string)
    ensures ExtractCleanDbmlCode(ExtractCleanDbmlCode(raw)) == ExtractCleanDbmlCode(raw)
  {
    var r := ExtractCleanDbmlCode(raw);
    if r != raw {
      NoFenceNoStart(r);
    }
  }

  /** The Lombok-generated holder of the raw answer, with the instance form of the cut. */
  class DBMLCode {
    var rawDbmlCode: string

    constructor (rawDbmlCode: string)
      ensures this.rawDbmlCode == rawDbmlCode
    {
      this.rawDbmlCode := rawDbmlCode;
    }

    /** The instance `extractCleanDbmlCode()`, written out as the source writes it;
        it agrees with the static form on the held text. */
    function ExtractClean(): (r: string)
      reads this
      ensures r == ExtractCleanDbmlCode(rawDbmlCode)
    {
      var startIndex := IndexOf(rawDbmlCode, StartDelimiter, 0);
      if startIndex != -1 then
        var start := startIndex + |StartDelimiter|;
        var endIndex := IndexOf(rawDbmlCode, EndDelimiter, start);
        if endIndex != -1 then JavaTrim(rawDbmlCode[start..endIndex]) else rawDbmlCode
      else rawDbmlCode
    }
  }
}
