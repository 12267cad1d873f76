/**
 * String primitives shared by the model: the white-space classes and the
 * trimming of JavaScript and of Java, prefix/suffix/substring search, ASCII
 * case mapping, splitting on one character and decimal printing.
 */
module Text {

  // ---------------------------------------------------------------------------
  // Character classes
  // ---------------------------------------------------------------------------

  /** White space as JavaScript's `trim` and the regular-expression class `\s`
      define it (ECMAScript WhiteSpace and LineTerminator). */
  predicate IsJsSpace(c: char)
  {
    if c < '\U{A0}' then c == ' ' || '\t' <= c <= '\r'
    else c == '\U{A0}' || c == '\U{1680}' || '\U{2000}' <= c <= '\U{200A}' || c == '\U{2028}' || c == '\U{2029}'
         || c == '\U{202F}' || c == '\U{205F}' || c == '\U{3000}' || c == '\U{FEFF}'
  }

  /** What Java's `String.trim` strips: every character at or below U+0020. */
  predicate IsJavaSpace(c: char)
  {
    c <= ' '
  }

  /** The characters that `.` in a JavaScript regular expression does not match. */
  predicate IsLineTerminator(c: char)
  {
    c == '\n' || c == '\r' || c == '\U{2028}' || c == '\U{2029}'
  }

  /** The regular-expression class `\w`: ASCII letters, digits and underscore. */
  predicate IsWordChar(c: char)
  {
    ('a' <= c <= 'z') || ('A' <= c <= 'Z') || ('0' <= c <= '9') || c == '_'
  }

  predicate AllSatisfy(s: string, p: char -> bool)
  {
    forall i :: 0 <= i < |s| ==> p(s[i])
  }

  /** The end of the run of `\s` characters that starts at `i`. */
  function SkipSpaces(s: string, i: nat): (j: nat)
    requires i <= |s|
    ensures i <= j <= |s|
    decreases |s| - i
  {
    if i < |s| && IsJsSpace(s[i]) then SkipSpaces(s, i + 1) else i
  }

  /** `SkipSpaces` stops at the first character outside the run. */
  lemma {:induction false} SkipSpacesRun(s: string, i: nat)
    requires i <= |s|
    ensures forall k :: i <= k < SkipSpaces(s, i) ==> IsJsSpace(s[k])
    ensures SkipSpaces(s, i) == |s| || !IsJsSpace(s[SkipSpaces(s, i)])
    decreases |s| - i
  {
    if i < |s| && IsJsSpace(s[i]) {
      SkipSpacesRun(s, i + 1);
    }
  }

  /** A run that stops where the class stops is the one `SkipSpaces` finds. */
  lemma {:induction false} SkipSpacesExact(s: string, i: nat, j: nat)
    requires i <= j <= |s|
    requires forall k :: i <= k < j ==> IsJsSpace(s[k])
    requires j == |s| || !IsJsSpace(s[j])
    ensures SkipSpaces(s, i) == j
    decreases j - i
  {
    if i < j {
      SkipSpacesExact(s, i + 1, j);
    }
  }

  /** The end of the run of `\w` characters that starts at `i`. */
  function SkipWord(s: string, i: nat): (j: nat)
    requires i <= |s|
    ensures i <= j <= |s|
    decreases |s| - i
  {
    if i < |s| && IsWordChar(s[i]) then SkipWord(s, i + 1) else i
  }

  /** `SkipWord` stops at the first character outside the run. */
  lemma {:induction false} SkipWordRun(s: string, i: nat)
    requires i <= |s|
    ensures forall k :: i <= k < SkipWord(s, i) ==> IsWordChar(s[k])
    ensures SkipWord(s, i) == |s| || !IsWordChar(s[SkipWord(s, i)])
    decreases |s| - i
  {
    if i < |s| && IsWordChar(s[i]) {
      SkipWordRun(s, i + 1);
    }
  }

  /** A run that stops where the class stops is the one `SkipWord` finds. */
  lemma {:induction false} SkipWordExact(s: string, i: nat, j: nat)
    requires i <= j <= |s|
    requires forall k :: i <= k < j ==> IsWordChar(s[k])
    requires j == |s| || !IsWordChar(s[j])
    ensures SkipWord(s, i) == j
    decreases j - i
  {
    if i < j {
      SkipWordExact(s, i + 1, j);
    }
  }

  /** The end of the run of characters other than `\s` that starts at `i`. */
  function SkipNonSpaces(s: string, i: nat): (j: nat)
    requires i <= |s|
    ensures i <= j <= |s|
    decreases |s| - i
  {
    if i < |s| && !IsJsSpace(s[i]) then SkipNonSpaces(s, i + 1) else i
  }

  /** `SkipNonSpaces` stops at the first character outside the run. */
  lemma {:induction false} SkipNonSpacesRun(s: string, i: nat)
    requires i <= |s|
    ensures forall k :: i <= k < SkipNonSpaces(s, i) ==> !IsJsSpace(s[k])
    ensures SkipNonSpaces(s, i) == |s| || IsJsSpace(s[SkipNonSpaces(s, i)])
    decreases |s| - i
  {
    if i < |s| && !IsJsSpace(s[i]) {
      SkipNonSpacesRun(s, i + 1);
    }
  }

  /** A run that stops where the class stops is the one `SkipNonSpaces` finds. */
  lemma {:induction false} SkipNonSpacesExact(s: string, i: nat, j: nat)
    requires i <= j <= |s|
    requires forall k :: i <= k < j ==> !IsJsSpace(s[k])
    requires j == |s| || IsJsSpace(s[j])
    ensures SkipNonSpaces(s, i) == j
    decreases j - i
  {
    if i < j {
      SkipNonSpacesExact(s, i + 1, j);
    }
  }

  // ---------------------------------------------------------------------------
  // ASCII case mapping
  // ---------------------------------------------------------------------------

  function LowerChar(c: char): char
  {
    if 'A' <= c <= 'Z' then (c as int + 32) as char else c
  }

  function UpperChar(c: char): char
  {
    if 'a' <= c <= 'z' then (c as int - 32) as char else c
  }

  function Lower(s: string): (r: string)
    ensures |r| == |s|
    ensures forall i :: 0 <= i < |s| ==> r[i] == LowerChar(s[i])
  {
    seq(|s|, i requires 0 <= i < |s| => LowerChar(s[i]))
  }

  /** Where Java's character-wise case-insensitive comparison sends a character,
      as far as ASCII letters are concerned: the ASCII capitals and the four
      non-ASCII characters whose upper or lower case is an ASCII letter (dotless i,
      dotted capital I, long s, Kelvin sign) fold to an ASCII lower-case letter;
      any other character folds to an ASCII letter under neither mapping. */
  function JavaFoldChar(c: char): char
  {
    if 'A' <= c <= 'Z' then LowerChar(c)
    else if c == '\U{131}' || c == '\U{130}' then 'i'
    else if c == '\U{17F}' then 's'
    else if c == '\U{212A}' then 'k'
    else c
  }

  /** Java's `s.equalsIgnoreCase(word)` for an ASCII `word`: equal lengths, and each
      character of `s` matches the ASCII character at its place up to case. */
  predicate JavaEqualsIgnoreCase(s: string, word: string)
  {
    |s| == |word| && forall i :: 0 <= i < |s| ==> JavaFoldChar(s[i]) == LowerChar(word[i])
  }

  // ---------------------------------------------------------------------------
  // Trimming
  // ---------------------------------------------------------------------------

  function TrimStart(s: string, isSpace: char -> bool): (r: string)
    ensures |r| <= |s|
    decreases |s|
  {
    if s != [] && isSpace(s[0]) then TrimStart(s[1..], isSpace) else s
  }

  /** `TrimStart` drops exactly the leading run of spaces. */
  lemma {:induction false} TrimStartShape(s: string, isSpace: char -> bool)
    ensures var r := TrimStart(s, isSpace);
            && r == s[|s| - |r|..]
            && (forall i :: 0 <= i < |s| - |r| ==> isSpace(s[i]))
            && (r == [] || !isSpace(r[0]))
    decreases |s|
  {
    if s != [] && isSpace(s[0]) {
      TrimStartShape(s[1..], isSpace);
    }
  }

  function TrimEnd(s: string, isSpace: char -> bool): (r: string)
    ensures |r| <= |s|
    decreases |s|
  {
    if s != [] && isSpace(s[|s| - 1]) then TrimEnd(s[..|s| - 1], isSpace) else s
  }

  /** `TrimEnd` drops exactly the trailing run of spaces. */
  lemma {:induction false} TrimEndShape(s: string, isSpace: char -> bool)
    ensures var r := TrimEnd(s, isSpace);
            && r == s[..|r|]
            && (forall i :: |r| <= i < |s| ==> isSpace(s[i]))
            && (r == [] || !isSpace(r[|r| - 1]))
    decreases |s|
  {
    if s != [] && isSpace(s[|s| - 1]) {
      TrimEndShape(s[..|s| - 1], isSpace);
    }
  }

  function Trim(s: string, isSpace: char -> bool): string
  {
    TrimEnd(TrimStart(s, isSpace), isSpace)
  }

  /** JavaScript's `String.prototype.trim`. */
  function JsTrim(s: string): string
  {
    Trim(s, IsJsSpace)
  }

  /** Java's `String.trim`. */
  function JavaTrim(s: string): string
  {
    Trim(s, IsJavaSpace)
  }

  /** A trimmed string is a contiguous piece of the original. */
  lemma TrimIsSlice(s: string, isSpace: char -> bool)
    ensures exists i, j :: 0 <= i <= j <= |s| && Trim(s, isSpace) == s[i..j]
  {
    var t := TrimStart(s, isSpace);
    var i := |s| - |t|;
    var u := TrimEnd(t, isSpace);
    TrimStartShape(s, isSpace);
    TrimEndShape(t, isSpace);
    assert u == s[i..i + |u|];
  }

  lemma {:induction false} TrimStartPadded(w: string, x: string, isSpace: char -> bool)
    requires AllSatisfy(w, isSpace)
    ensures TrimStart(w + x, isSpace) == TrimStart(x, isSpace)
    decreases |w|
  {
    if w != [] {
      assert (w + x)[0] == w[0] && isSpace(w[0]);
      assert (w + x)[1..] == w[1..] + x;
      assert AllSatisfy(w[1..], isSpace) by {
        forall i | 0 <= i < |w| - 1 ensures isSpace(w[1..][i]) { assert w[1..][i] == w[i + 1]; }
      }
      TrimStartPadded(w[1..], x, isSpace);
      assert w + x != [];
      assert TrimStart(w + x, isSpace) == TrimStart((w + x)[1..], isSpace);
    } else {
      assert w + x == x;
    }
  }

  lemma {:induction false} TrimEndPadded(x: string, w: string, isSpace: char -> bool)
    requires AllSatisfy(w, isSpace)
    ensures TrimEnd(x + w, isSpace) == TrimEnd(x, isSpace)
    decreases |w|
  {
    if w != [] {
      var w' := w[..|w| - 1];
      assert (x + w)[|x + w| - 1] == w[|w| - 1] && isSpace(w[|w| - 1]);
      assert (x + w)[..|x + w| - 1] == x + w';
      assert AllSatisfy(w', isSpace) by {
        forall i | 0 <= i < |w'| ensures isSpace(w'[i]) { assert w'[i] == w[i]; }
      }
      TrimEndPadded(x, w', isSpace);
      assert x + w != [];
      assert TrimEnd(x + w, isSpace) == TrimEnd((x + w)[..|x + w| - 1], isSpace);
    } else {
      assert x + w == x;
    }
  }

  lemma {:induction false} TrimStartAppend(x: string, w: string, isSpace: char -> bool)
    requires AllSatisfy(w, isSpace)
    ensures TrimStart(x, isSpace) != [] ==> TrimStart(x + w, isSpace) == TrimStart(x, isSpace) + w
    ensures TrimStart(x, isSpace) == [] ==> TrimStart(x + w, isSpace) == []
    decreases |x|
  {
    if x == [] {
      assert x + w == w;
      TrimStartPadded(w, [], isSpace);
      assert w + [] == w;
    } else {
      assert (x + w)[0] == x[0];
      assert (x + w)[1..] == x[1..] + w;
      TrimStartAppend(x[1..], w, isSpace);
    }
  }

  /** Trimming ignores white space added on either side. */
  lemma TrimPadded(w: string, d: string, w': string, isSpace: char -> bool)
    requires AllSatisfy(w, isSpace) && AllSatisfy(w', isSpace)
    ensures Trim(w + d + w', isSpace) == Trim(d, isSpace)
  {
    assert w + d + w' == w + (d + w');
    TrimStartPadded(w, d + w', isSpace);
    TrimStartAppend(d, w', isSpace);
    if TrimStart(d, isSpace) != [] {
      TrimEndPadded(TrimStart(d, isSpace), w', isSpace);
    }
  }

  // ---------------------------------------------------------------------------
  // Prefixes, suffixes and substrings
  // ---------------------------------------------------------------------------

  predicate StartsWith(s: string, prefix: string)
  {
    |prefix| <= |s| && s[..|prefix|] == prefix
  }

  predicate EndsWith(s: string, suffix: string)
  {
    |suffix| <= |s| && s[|s| - |suffix|..] == suffix
  }

  /** `pat` occurs in `s` starting at index `i`. */
  predicate OccursAt(s: string, pat: string, i: nat)
  {
    i + |pat| <= |s| && s[i..i + |pat|] == pat
  }

  predicate Contains(s: string, pat: string)
  {
    exists i: nat | i <= |s| :: OccursAt(s, pat, i)
  }

  /** An occurrence in the right part of a concatenation is an occurrence in that part. */
  lemma OccursAtShift(a: string, b: string, pat: string, k: nat)
    ensures OccursAt(a + b, pat, |a| + k) == OccursAt(b, pat, k)
  {
    if k + |pat| <= |b| {
      assert (a + b)[|a| + k..|a| + k + |pat|] == b[k..k + |pat|];
    }
  }

  /** Java's `indexOf(pat, from)`: the first occurrence at or after `from`, or -1. */
  function IndexOf(s: string, pat: string, from: nat): (r: int)
    ensures r == -1 || (from <= r && OccursAt(s, pat, r))
    ensures forall i: nat :: from <= i && (r == -1 || i < r) ==> !OccursAt(s, pat, i)
    decreases |s| - from
  {
    if from + |pat| > |s| then -1
    else if OccursAt(s, pat, from) then from
    else IndexOf(s, pat, from + 1)
  }

  /** The first index of `c` in `s` at or after `from`, or -1. */
  function FindChar(s: string, c: char, from: nat): (r: int)
    requires from <= |s|
    ensures r == -1 || (from <= r < |s| && s[r] == c)
    ensures forall k :: from <= k < |s| && (r == -1 || k < r) ==> s[k] != c
    decreases |s| - from
  {
    if from == |s| then -1 else if s[from] == c then from else FindChar(s, c, from + 1)
  }

  /** The first index of `c` in `s`. */
  function FirstIndexOfChar(s: string, c: char): (k: nat)
    requires c in s
    ensures k < |s| && s[k] == c && c !in s[..k]
  {
    if s[0] == c then 0 else
      var k := FirstIndexOfChar(s[1..], c);
      assert s[..k + 1] == [s[0]] + s[1..][..k];
      k + 1
  }

  /** The last index of `c` in `s`. */
  function LastIndexOfChar(s: string, c: char): (k: nat)
    requires c in s
    ensures k < |s| && s[k] == c && c !in s[k + 1..]
  {
    if s[|s| - 1] == c then |s| - 1 else
      var k := LastIndexOfChar(s[..|s| - 1], c);
      assert s[k + 1..] == s[..|s| - 1][k + 1..] + [s[|s| - 1]];
      k
  }

  /** The last occurrence is the one with no occurrence after it. */
  lemma LastIndexOfCharUnique(s: string, c: char, j: nat)
    requires j < |s| && s[j] == c && c !in s[j + 1..]
    ensures LastIndexOfChar(s, c) == j
  {
  }

  // ---------------------------------------------------------------------------
  // Splitting and joining
  // ---------------------------------------------------------------------------

  /** JavaScript's `s.split(sep)` for a one-character separator: every piece,
      empty ones included; the empty string gives `[""]`. */
  function SplitOn(s: string, sep: char): (r: seq<string>)
    ensures |r| >= 1
    ensures forall k :: 0 <= k < |r| ==> sep !in r[k]
    decreases |s|
  {
    if sep in s then
      var k := FirstIndexOfChar(s, sep);
      [s[..k]] + SplitOn(s[k + 1..], sep)
    else [s]
  }

  function Join(parts: seq<string>, sep: char): string
  {
    if |parts| == 0 then ""
    else if |parts| == 1 then parts[0]
    else parts[0] + [sep] + Join(parts[1..], sep)
  }

  /** Joining the pieces with the separator gives back the original text. */
  lemma {:induction false} JoinSplitOn(s: string, sep: char)
    ensures Join(SplitOn(s, sep), sep) == s
    decreases |s|
  {
    if sep in s {
      var k := FirstIndexOfChar(s, sep);
      var rest := SplitOn(s[k + 1..], sep);
      JoinSplitOn(s[k + 1..], sep);
      var parts := [s[..k]] + rest;
      assert SplitOn(s, sep) == parts;
      assert |parts| >= 2 && parts[0] == s[..k] && parts[1..] == rest;
      assert Join(parts, sep) == s[..k] + [sep] + s[k + 1..];
      assert s == s[..k] + [sep] + s[k + 1..];
    }
  }

  /** The last piece is what follows the last separator. */
  lemma {:induction false} SplitOnLast(s: string, sep: char, j: nat)
    requires j < |s| && s[j] == sep && sep !in s[j + 1..]
    ensures SplitOn(s, sep)[|SplitOn(s, sep)| - 1] == s[j + 1..]
    decreases |s|
  {
    var k := FirstIndexOfChar(s, sep);
    var rest := s[k + 1..];
    var tail := SplitOn(rest, sep);
    assert SplitOn(s, sep) == [s[..k]] + tail;
    assert SplitOn(s, sep)[|SplitOn(s, sep)| - 1] == tail[|tail| - 1];
    if k < j {
      assert rest[j - k - 1] == sep;
      assert rest[j - k..] == s[j + 1..];
      SplitOnLast(rest, sep, j - k - 1);
    } else {
      assert rest == s[j + 1..];
      assert tail == [rest];
    }
  }

  /** A character absent from the text is absent from every piece. */
  lemma {:induction false} SplitOnAbsent(s: string, sep: char, c: char)
    requires c !in s
    ensures forall k :: 0 <= k < |SplitOn(s, sep)| ==> c !in SplitOn(s, sep)[k]
    decreases |s|
  {
    if sep in s {
      var k := FirstIndexOfChar(s, sep);
      assert c !in s[..k] && c !in s[k + 1..] by {
        assert forall i :: 0 <= i < k ==> s[..k][i] == s[i];
        var rest := s[k + 1..];
        assert forall i :: 0 <= i < |rest| ==> rest[i] == s[k + 1 + i];
      }
      SplitOnAbsent(s[k + 1..], sep, c);
      var rest := SplitOn(s[k + 1..], sep);
      assert SplitOn(s, sep) == [s[..k]] + rest;
      assert forall j :: 1 <= j < |SplitOn(s, sep)| ==> SplitOn(s, sep)[j] == rest[j - 1];
    }
  }

  /** A character absent from the text is absent from its trimmed form. */
  lemma TrimAbsent(s: string, isSpace: char -> bool, c: char)
    requires c !in s
    ensures c !in Trim(s, isSpace)
  {
    TrimIsSlice(s, isSpace);
    var i, j :| 0 <= i <= j <= |s| && Trim(s, isSpace) == s[i..j];
    assert forall k :: 0 <= k < j - i ==> s[i..j][k] == s[i + k];
  }

  /** Java's `s.split(sep)` for a one-character separator: like JavaScript's,
      except that trailing empty pieces are removed whenever the separator occurs. */
  function JavaSplit(s: string, sep: char): (r: seq<string>)
    ensures forall k :: 0 <= k < |r| ==> sep !in r[k]
    ensures sep in s ==> |r| == 0 || r[|r| - 1] != ""
  {
    if sep in s then DropTrailingEmpty(SplitOn(s, sep)) else [s]
  }

  /** When the text does not end with the separator, the last piece of Java's
      split is what follows the last separator. */
  lemma JavaSplitLast(s: string, sep: char, j: nat)
    requires j < |s| - 1 && s[j] == sep && sep !in s[j + 1..]
    ensures |JavaSplit(s, sep)| > 0 && JavaSplit(s, sep)[|JavaSplit(s, sep)| - 1] == s[j + 1..]
  {
    var pieces := SplitOn(s, sep);
    SplitOnLast(s, sep, j);
    assert pieces[|pieces| - 1] != [];
  }

  function DropTrailingEmpty(parts: seq<string>): (r: seq<string>)
    ensures |r| <= |parts| && r == parts[..|r|]
    ensures |r| == 0 || r[|r| - 1] != ""
    ensures forall k :: |r| <= k < |parts| ==> parts[k] == ""
  {
    if |parts| > 0 && parts[|parts| - 1] == "" then DropTrailingEmpty(parts[..|parts| - 1]) else parts
  }

  // ---------------------------------------------------------------------------
  // Decimal printing
  // ---------------------------------------------------------------------------

  function DigitChar(d: nat): (c: char)
    requires d < 10
    ensures '0' <= c <= '9'
  {
    ('0' as int + d) as char
  }

  /** The decimal form of a natural number, as JavaScript prints an array index. */
  function NatToString(n: nat): (r: string)
    ensures |r| >= 1
  {
    if n < 10 then [DigitChar(n)] else NatToString(n / 10) + [DigitChar(n % 10)]
  }

  /** Different numbers print differently: single digits are the numbers below
      ten, and a longer text fixes both its last digit and its prefix. */
  lemma {:induction false} NatToStringInjective(a: nat, b: nat)
    requires NatToString(a) == NatToString(b)
    ensures a == b
    decreases a
  {
    var s := NatToString(a);
    if a < 10 && b < 10 {
      assert s[0] == DigitChar(a) && s[0] == DigitChar(b);
    } else if a >= 10 && b >= 10 {
      var pa, pb := NatToString(a / 10), NatToString(b / 10);
      assert s == pa + [DigitChar(a % 10)] && s == pb + [DigitChar(b % 10)];
      assert s[|s| - 1] == DigitChar(a % 10) == DigitChar(b % 10);
      assert pa == s[..|s| - 1] == pb;
      NatToStringInjective(a / 10, b / 10);
    }
  }
}
