/**
 * The front end's `parseDBML`: the global scan for `Table name { ... }` blocks,
 * the line-by-line reading of each block body (columns, the `indexes` block and
 * its composite primary-key promotion) and the global scan for `Ref:` lines.
 *
 * The two regular expressions are written out as scanners over the text. Both
 * are deterministic: every quantifier in them is followed by a character its own
 * class cannot contain, so the greedy runs never give anything back, and the
 * lazy block body stops at the first "}". Each scanner is stated against a
 * predicate that spells out the expression's shape, in both directions.
 */
module DbmlParser {
  import opened Text
  import opened Types

  predicate IsNotJsSpace(c: char)
  {
    !IsJsSpace(c)
  }

  predicate IsRelationChar(c: char)
  {
    c == '-' || c == '>' || c == '<'
  }

  // ---------------------------------------------------------------------------
  // Table blocks: /Table\s+(\w+)\s*\{([\s\S]*?)\}/g
  // ---------------------------------------------------------------------------

  /** A match of the table pattern: where it starts, the captured name and body,
      and where the next search resumes (`lastIndex`). */
  datatype TableMatch = TableMatch(start: nat, name: string, body: string, end: nat)

  /** The table pattern matches `s[p..e]` with the name in `s[a..b]` and the opening
      brace at `c`: "Table", at least one blank, a word, blanks, "{", text holding no
      "}", then "}". */
  predicate TableSyntax(s: string, p: nat, a: nat, b: nat, c: nat, e: nat)
  {
    && p + 5 < a < b <= c && c + 2 <= e <= |s|
    && OccursAt(s, "Table", p)
    && (forall k :: p + 5 <= k < a ==> IsJsSpace(s[k]))
    && (forall k :: a <= k < b ==> IsWordChar(s[k]))
    && (forall k :: b <= k < c ==> IsJsSpace(s[k]))
    && s[c] == '{' && s[e - 1] == '}'
    && (forall k :: c < k < e - 1 ==> s[k] != '}')
  }

  /** A slice of positions none of which holds `c` does not contain `c`. */
  lemma SliceAvoids(s: string, lo: nat, hi: nat, c: char)
    requires lo <= hi <= |s| && forall k :: lo <= k < hi ==> s[k] != c
    ensures c !in s[lo..hi]
  {
    assert forall i :: 0 <= i < hi - lo ==> s[lo..hi][i] == s[lo + i];
  }

  /** Whether the table pattern matches at `p`, and with which captures. */
  function MatchTableAt(s: string, p: nat): (r: Option<TableMatch>)
    requires p <= |s|
    ensures r.Some? ==> r.value.start == p && p < r.value.end <= |s|
    ensures r.Some? ==> r.value.name != [] && AllSatisfy(r.value.name, IsWordChar) && '}' !in r.value.body
  {
    if !OccursAt(s, "Table", p) then None
    else
      var a := SkipSpaces(s, p + 5);
      var b := SkipWord(s, a);
      var c := SkipSpaces(s, b);
      if a == p + 5 || b == a || c == |s| || s[c] != '{' then None
      else
        var close := FindChar(s, '}', c + 1);
        if close == -1 then None
        else
          assert AllSatisfy(s[a..b], IsWordChar) by {
            SkipWordRun(s, a);
            forall i | 0 <= i < b - a ensures IsWordChar(s[a..b][i]) { assert s[a..b][i] == s[a + i]; }
          }
          SliceAvoids(s, c + 1, close, '}');
          Some(TableMatch(p, s[a..b], s[c + 1..close], close + 1))
  }

  /** What `MatchTableAt` reports is a match of the pattern. */
  lemma MatchTableAtSound(s: string, p: nat)
    requires p <= |s| && MatchTableAt(s, p).Some?
    ensures var m := MatchTableAt(s, p).value;
            exists a: nat, b: nat, c: nat :: TableSyntax(s, p, a, b, c, m.end) && m.name == s[a..b] && m.body == s[c + 1..m.end - 1]
  {
    var a := SkipSpaces(s, p + 5);
    var b := SkipWord(s, a);
    var c := SkipSpaces(s, b);
    var close := FindChar(s, '}', c + 1);
    SkipSpacesRun(s, p + 5);
    SkipWordRun(s, a);
    SkipSpacesRun(s, b);
    assert TableSyntax(s, p, a, b, c, close + 1);
    MatchTableAtComplete(s, p, a, b, c, close + 1);
  }

  /** Every match of the pattern at `p` is the one `MatchTableAt` reports: the
      greedy runs and the lazy body leave no other choice. */
  lemma MatchTableAtComplete(s: string, p: nat, a: nat, b: nat, c: nat, e: nat)
    requires TableSyntax(s, p, a, b, c, e)
    ensures MatchTableAt(s, p) == Some(TableMatch(p, s[a..b], s[c + 1..e - 1], e))
  {
    SkipSpacesExact(s, p + 5, a);
    SkipWordExact(s, a, b);
    SkipSpacesExact(s, b, c);
    var close := FindChar(s, '}', c + 1);
    assert s[e - 1] == '}';
    assert close == e - 1;
  }

  /** One `exec` of the global table pattern with `lastIndex == from`: the search
      for the leftmost match starting at or after `from`. */
  function ExecTable(s: string, from: nat): (r: Option<TableMatch>)
    requires from <= |s|
    ensures r.Some? ==> from <= r.value.start < r.value.end <= |s|
    decreases |s| - from
  {
    var m := MatchTableAt(s, from);
    if m.Some? || from == |s| then m else ExecTable(s, from + 1)
  }

  /** `exec` returns the leftmost match: it is a match at its start, and there is
      none between `from` and that start (nor anywhere after `from` when there is
      no result). */
  lemma {:induction false} ExecTableLeftmost(s: string, from: nat, q: nat)
    requires from <= q <= |s|
    ensures var r := ExecTable(s, from);
            (r.Some? ==> MatchTableAt(s, r.value.start) == r)
            && (r.None? || q < r.value.start ==> MatchTableAt(s, q).None?)
    decreases |s| - from
  {
    if MatchTableAt(s, from).None? && from < |s| {
      if q == from {
        ExecTableLeftmost(s, from + 1, from + 1);
      } else {
        ExecTableLeftmost(s, from + 1, q);
      }
    }
  }

  /** The matches the `while (exec)` loop visits, from `from` on, in text order and
      without overlapping. */
  function TableMatches(s: string, from: nat): (ms: seq<TableMatch>)
    requires from <= |s|
    ensures forall i :: 0 <= i < |ms| ==> from <= ms[i].start < ms[i].end <= |s|
    ensures forall i, j :: 0 <= i < j < |ms| ==> ms[i].end <= ms[j].start
    decreases |s| - from
  {
    var r := ExecTable(s, from);
    if r.None? then []
    else
      var m := r.value;
      var rest := TableMatches(s, m.end);
      var ms := [m] + rest;
      assert forall i :: 0 < i < |ms| ==> ms[i] == rest[i - 1];
      ms
  }

  /** Each visited match is a match of the pattern at its start. */
  lemma {:induction false} TableMatchesAreMatches(s: string, from: nat, i: nat)
    requires from <= |s| && i < |TableMatches(s, from)|
    ensures var m := TableMatches(s, from)[i]; MatchTableAt(s, m.start) == Some(m)
    decreases |s| - from
  {
    var r := ExecTable(s, from);
    ExecTableLeftmost(s, from, from);
    if i > 0 {
      var rest := TableMatches(s, r.value.end);
      assert TableMatches(s, from)[i] == rest[i - 1];
      TableMatchesAreMatches(s, r.value.end, i - 1);
    }
  }

  /** Every place where the pattern matches lies inside a visited match: the scan
      only passes over matches that begin inside an earlier one. */
  lemma {:induction false} EveryTableMatchCovered(s: string, from: nat, q: nat)
    requires from <= q <= |s| && MatchTableAt(s, q).Some?
    ensures exists i :: 0 <= i < |TableMatches(s, from)| && TableMatches(s, from)[i].start <= q < TableMatches(s, from)[i].end
    decreases |s| - from
  {
    var ms := TableMatches(s, from);
    ExecTableLeftmost(s, from, q);
    var m := ms[0];
    if q >= m.end {
      var rest := TableMatches(s, m.end);
      assert ms == [m] + rest;
      EveryTableMatchCovered(s, m.end, q);
      var i :| 0 <= i < |rest| && rest[i].start <= q < rest[i].end;
      assert ms[i + 1] == rest[i];
    } else {
      assert ms[0].start <= q < ms[0].end;
    }
  }

  // ---------------------------------------------------------------------------
  // Relationships: /Ref:\s*(\w+)\.(\w+)\s*([-><])\s*(\w+)\.(\w+)/g
  // ---------------------------------------------------------------------------

  datatype RefMatch = RefMatch(start: nat, ref: Ref, end: nat)

  /** Where `\w+\.\w+` starting at `i` puts its dot and its end, if it matches;
      the second word runs as far as it can. */
  datatype QualifiedName = QualifiedName(dot: nat, end: nat)

  function QualifiedNameAt(s: string, i: nat): (r: Option<QualifiedName>)
    requires i <= |s|
    ensures r.Some? ==> i < r.value.dot && r.value.dot + 1 < r.value.end <= |s|
  {
    var b := SkipWord(s, i);
    if b == i || b == |s| || s[b] != '.' then None
    else
      var d := SkipWord(s, b + 1);
      if d == b + 1 then None else Some(QualifiedName(b, d))
  }

  /** The shape `QualifiedNameAt` looks for: a word in `s[i..b]`, a dot at `b`, and
      a word in `s[b+1..d]` that cannot be extended. */
  predicate QualifiedNameSyntax(s: string, i: nat, b: nat, d: nat)
  {
    && i < b && b + 1 < d <= |s|
    && (forall k :: i <= k < b ==> IsWordChar(s[k]))
    && s[b] == '.'
    && (forall k :: b + 1 <= k < d ==> IsWordChar(s[k]))
    && (d == |s| || !IsWordChar(s[d]))
  }

  lemma QualifiedNameAtSound(s: string, i: nat)
    requires i <= |s| && QualifiedNameAt(s, i).Some?
    ensures QualifiedNameSyntax(s, i, QualifiedNameAt(s, i).value.dot, QualifiedNameAt(s, i).value.end)
  {
    var b := SkipWord(s, i);
    SkipWordRun(s, i);
    SkipWordRun(s, b + 1);
  }

  lemma QualifiedNameAtComplete(s: string, i: nat, b: nat, d: nat)
    requires QualifiedNameSyntax(s, i, b, d)
    ensures QualifiedNameAt(s, i) == Some(QualifiedName(b, d))
  {
    SkipWordExact(s, i, b);
    SkipWordExact(s, b + 1, d);
  }

  /** Whether the ref pattern matches at `p`, and the relationship it captures. */
  function MatchRefAt(s: string, p: nat): (r: Option<RefMatch>)
    requires p <= |s|
    ensures r.Some? ==> r.value.start == p && p < r.value.end <= |s|
    ensures r.Some? ==> r.value.ref.relation in {"-", ">", "<"}
  {
    if !OccursAt(s, "Ref:", p) then None
    else
      var a := SkipSpaces(s, p + 4);
      var left := QualifiedNameAt(s, a);
      if left.None? then None
      else
        var e := SkipSpaces(s, left.value.end);
        if e == |s| || !IsRelationChar(s[e]) then None
        else
          var f := SkipSpaces(s, e + 1);
          var right := QualifiedNameAt(s, f);
          if right.None? then None
          else
            var b, d, g, h := left.value.dot, left.value.end, right.value.dot, right.value.end;
            Some(RefMatch(p, Ref(s[a..b], s[b + 1..d], s[f..g], s[g + 1..h], [s[e]]), h))
  }

  /** The ref pattern matches `s[p..h]` with the from-table in `s[a..b]`, the
      from-column in `s[b+1..d]`, the operator at `e`, the to-table in `s[f..g]`
      and the to-column in `s[g+1..h]`. */
  predicate RefSyntax(s: string, p: nat, a: nat, b: nat, d: nat, e: nat, f: nat, g: nat, h: nat)
  {
    && p + 4 <= a && d <= e < f
    && QualifiedNameSyntax(s, a, b, d) && QualifiedNameSyntax(s, f, g, h)
    && OccursAt(s, "Ref:", p)
    && (forall k :: p + 4 <= k < a ==> IsJsSpace(s[k]))
    && (forall k :: d <= k < e ==> IsJsSpace(s[k]))
    && IsRelationChar(s[e])
    && (forall k :: e + 1 <= k < f ==> IsJsSpace(s[k]))
  }

  /** What `MatchRefAt` reports is a match of the pattern. */
  lemma MatchRefAtSound(s: string, p: nat)
    requires p <= |s| && MatchRefAt(s, p).Some?
    ensures var m := MatchRefAt(s, p).value;
            exists a: nat, b: nat, d: nat, e: nat, f: nat, g: nat :: RefSyntax(s, p, a, b, d, e, f, g, m.end)
              && m.ref == Ref(s[a..b], s[b + 1..d], s[f..g], s[g + 1..m.end], [s[e]])
  {
    var a := SkipSpaces(s, p + 4);
    var left := QualifiedNameAt(s, a).value;
    var e := SkipSpaces(s, left.end);
    var f := SkipSpaces(s, e + 1);
    var right := QualifiedNameAt(s, f).value;
    MatchRefAtSoundAt(s, p, a, left, e, f, right);
  }

  /** The same, once the scanner's positions are named. */
  lemma MatchRefAtSoundAt(s: string, p: nat, a: nat, left: QualifiedName, e: nat, f: nat, right: QualifiedName)
    requires p + 4 <= |s| && OccursAt(s, "Ref:", p) && a == SkipSpaces(s, p + 4)
    requires QualifiedNameAt(s, a) == Some(left) && e == SkipSpaces(s, left.end)
    requires e < |s| && IsRelationChar(s[e]) && f == SkipSpaces(s, e + 1) && QualifiedNameAt(s, f) == Some(right)
    ensures MatchRefAt(s, p).Some?
    ensures var m := MatchRefAt(s, p).value;
            exists a: nat, b: nat, d: nat, e: nat, f: nat, g: nat :: RefSyntax(s, p, a, b, d, e, f, g, m.end)
              && m.ref == Ref(s[a..b], s[b + 1..d], s[f..g], s[g + 1..m.end], [s[e]])
  {
    QualifiedNameAtSound(s, a);
    QualifiedNameAtSound(s, f);
    RefSyntaxOfSkips(s, p, a, left.dot, left.end, e, f, right.dot, right.end);
    MatchRefAtComplete(s, p, a, left.dot, left.end, e, f, right.dot, right.end);
  }

  /** The positions the scanner computes satisfy the pattern. */
  lemma RefSyntaxOfSkips(s: string, p: nat, a: nat, b: nat, d: nat, e: nat, f: nat, g: nat, h: nat)
    requires OccursAt(s, "Ref:", p) && a == SkipSpaces(s, p + 4)
    requires QualifiedNameSyntax(s, a, b, d) && e == SkipSpaces(s, d) && e < |s| && IsRelationChar(s[e])
    requires f == SkipSpaces(s, e + 1) && QualifiedNameSyntax(s, f, g, h)
    ensures RefSyntax(s, p, a, b, d, e, f, g, h)
  {
    SkipSpacesRun(s, p + 4);
    SkipSpacesRun(s, d);
    SkipSpacesRun(s, e + 1);
  }

  /** The pattern fixes what the scanner computes at each step. */
  lemma SkipsOfRefSyntax(s: string, p: nat, a: nat, b: nat, d: nat, e: nat, f: nat, g: nat, h: nat)
    requires RefSyntax(s, p, a, b, d, e, f, g, h)
    ensures SkipSpaces(s, p + 4) == a && QualifiedNameAt(s, a) == Some(QualifiedName(b, d))
    ensures SkipSpaces(s, d) == e && SkipSpaces(s, e + 1) == f && QualifiedNameAt(s, f) == Some(QualifiedName(g, h))
  {
    assert !IsJsSpace(s[a]) && !IsJsSpace(s[e]) && !IsJsSpace(s[f]);
    SkipSpacesExact(s, p + 4, a);
    QualifiedNameAtComplete(s, a, b, d);
    SkipSpacesExact(s, d, e);
    SkipSpacesExact(s, e + 1, f);
    QualifiedNameAtComplete(s, f, g, h);
  }

  /** Every match of the ref pattern at `p` is the one `MatchRefAt` reports: the
      greedy runs leave no other choice. */
  lemma MatchRefAtComplete(s: string, p: nat, a: nat, b: nat, d: nat, e: nat, f: nat, g: nat, h: nat)
    requires RefSyntax(s, p, a, b, d, e, f, g, h)
    ensures MatchRefAt(s, p) == Some(RefMatch(p, Ref(s[a..b], s[b + 1..d], s[f..g], s[g + 1..h], [s[e]]), h))
  {
    SkipsOfRefSyntax(s, p, a, b, d, e, f, g, h);
  }

  /** One `exec` of the global ref pattern with `lastIndex == from`: the search
      for the leftmost match starting at or after `from`. */
  function ExecRef(s: string, from: nat): (r: Option<RefMatch>)
    requires from <= |s|
    ensures r.Some? ==> from <= r.value.start < r.value.end <= |s|
    decreases |s| - from
  {
    var m := MatchRefAt(s, from);
    if m.Some? || from == |s| then m else ExecRef(s, from + 1)
  }

  /** `exec` returns the leftmost match: it is a match at its start, and there is
      none between `from` and that start (nor anywhere after `from` when there is
      no result). */
  lemma {:induction false} ExecRefLeftmost(s: string, from: nat, q: nat)
    requires from <= q <= |s|
    ensures var r := ExecRef(s, from);
            (r.Some? ==> MatchRefAt(s, r.value.start) == r)
            && (r.None? || q < r.value.start ==> MatchRefAt(s, q).None?)
    decreases |s| - from
  {
    if MatchRefAt(s, from).None? && from < |s| {
      if q == from {
        ExecRefLeftmost(s, from + 1, from + 1);
      } else {
        ExecRefLeftmost(s, from + 1, q);
      }
    }
  }

  /** The matches the `while (exec)` loop visits, from `from` on, in text order and
      without overlapping. */
  function RefMatches(s: string, from: nat): (ms: seq<RefMatch>)
    requires from <= |s|
    ensures forall i :: 0 <= i < |ms| ==> from <= ms[i].start < ms[i].end <= |s|
    ensures forall i, j :: 0 <= i < j < |ms| ==> ms[i].end <= ms[j].start
    decreases |s| - from
  {
    var r := ExecRef(s, from);
    if r.None? then []
    else
      var m := r.value;
      var rest := RefMatches(s, m.end);
      var ms := [m] + rest;
      assert forall i :: 0 < i < |ms| ==> ms[i] == rest[i - 1];
      ms
  }

  /** Each visited match is a match of the pattern at its start. */
  lemma {:induction false} RefMatchesAreMatches(s: string, from: nat, i: nat)
    requires from <= |s| && i < |RefMatches(s, from)|
    ensures var m := RefMatches(s, from)[i]; MatchRefAt(s, m.start) == Some(m)
    decreases |s| - from
  {
    var r := ExecRef(s, from);
    ExecRefLeftmost(s, from, from);
    if i > 0 {
      var rest := RefMatches(s, r.value.end);
      assert RefMatches(s, from)[i] == rest[i - 1];
      RefMatchesAreMatches(s, r.value.end, i - 1);
    }
  }

  /** Every place where the pattern matches lies inside a visited match: the scan
      only passes over matches that begin inside an earlier one. */
  lemma {:induction false} EveryRefMatchCovered(s: string, from: nat, q: nat)
    requires from <= q <= |s| && MatchRefAt(s, q).Some?
    ensures exists i :: 0 <= i < |RefMatches(s, from)| && RefMatches(s, from)[i].start <= q < RefMatches(s, from)[i].end
    decreases |s| - from
  {
    var ms := RefMatches(s, from);
    ExecRefLeftmost(s, from, q);
    var m := ms[0];
    if q >= m.end {
      var rest := RefMatches(s, m.end);
      assert ms == [m] + rest;
      EveryRefMatchCovered(s, m.end, q);
      var i :| 0 <= i < |rest| && rest[i].start <= q < rest[i].end;
      assert ms[i + 1] == rest[i];
    } else {
      assert ms[0].start <= q < ms[0].end;
    }
  }

  // ---------------------------------------------------------------------------
  // Pieces of one body line
  // ---------------------------------------------------------------------------

  /** The first index at or after `k` holding `close`, provided no line terminator
      comes before it; -1 otherwise. This is how far `(.*?)` followed by the
      closing character can reach. */
  function CloseAfter(s: string, k: nat, close: char): (r: int)
    requires k <= |s|
    ensures r == -1 || (k <= r < |s| && s[r] == close)
    ensures r != -1 ==> forall j :: k <= j < r ==> s[j] != close && !IsLineTerminator(s[j])
    decreases |s| - k
  {
    if k == |s| then -1
    else if s[k] == close then k
    else if IsLineTerminator(s[k]) then -1
    else CloseAfter(s, k + 1, close)
  }

  /** The capture of the first match of `\[(.*?)\]` (or `\((.*?)\)`) at or after
      `from`: the text after the leftmost opening character that is closed on
      the same line, up to the first closing character. */
  function FindDelimited(s: string, open: char, close: char, from: nat): (r: Option<string>)
    requires from <= |s|
    ensures r.Some? ==> close !in r.value && forall k :: 0 <= k < |r.value| ==> !IsLineTerminator(r.value[k])
    decreases |s| - from
  {
    if from == |s| then None
    else if s[from] == open && CloseAfter(s, from + 1, close) != -1 then
      var e := CloseAfter(s, from + 1, close);
      var t := s[from + 1..e];
      assert forall k :: 0 <= k < |t| ==> t[k] == s[from + 1 + k];
      Some(t)
    else FindDelimited(s, open, close, from + 1)
  }

  /** `content.split(',').map(x => x.trim())`. */
  function SplitTrim(content: string): (r: seq<string>)
    ensures |r| == |SplitOn(content, ',')|
    ensures forall i :: 0 <= i < |r| ==> r[i] == JsTrim(SplitOn(content, ',')[i])
  {
    var parts := SplitOn(content, ',');
    seq(|parts|, i requires 0 <= i < |parts| => JsTrim(parts[i]))
  }

  /** The attributes of a column line: the pieces of its first `[...]`, or none. */
  function BracketAttributes(line: string): seq<string>
  {
    match FindDelimited(line, '[', ']', 0)
    case None => []
    case Some(content) => SplitTrim(content)
  }

  /** `piece.toLowerCase() === 'pk'`: "p" or "P", then "k", "K" or the Kelvin sign
      (the one non-ASCII character JavaScript lower-cases to an ASCII letter). */
  predicate IsPkWord(piece: string)
  {
    |piece| == 2 && (piece[0] == 'p' || piece[0] == 'P')
    && (piece[1] == 'k' || piece[1] == 'K' || piece[1] == '\U{212A}')
  }

  /** An indexes line carries a primary-key marker: one piece of its first `[...]`
      reads "pk" once lower-cased. */
  predicate HasPkMarker(line: string)
  {
    match FindDelimited(line, '[', ']', 0)
    case None => false
    case Some(content) =>
      var pieces := SplitTrim(content);
      exists i :: 0 <= i < |pieces| && IsPkWord(pieces[i])
  }

  /** `/^indexes\s*\{/i`: the line opens an indexes block. */
  predicate IndexesOpen(line: string)
  {
    |line| >= 7 && Lower(line[..7]) == "indexes"
    && var q := SkipSpaces(line, 7); q < |line| && line[q] == '{'
  }

  /** The column a (trimmed) line declares: its first two white-space separated
      tokens as name and type, and its bracket attributes; none when the line has
      fewer than two tokens. */
  function DeclaredColumn(line: string): (r: Option<Column>)
    ensures r.Some? ==> StartsWith(line, r.value.name) && r.value.colType != []
    ensures r.Some? ==> (forall k :: 0 <= k < |r.value.name| ==> !IsJsSpace(r.value.name[k]))
                        && (forall k :: 0 <= k < |r.value.colType| ==> !IsJsSpace(r.value.colType[k]))
    ensures r.Some? ==> r.value.attributes == BracketAttributes(line)
    ensures r.None? ==> forall k :: SkipNonSpaces(line, 0) <= k < |line| ==> IsJsSpace(line[k])
  {
    var i1 := SkipNonSpaces(line, 0);
    var i2 := SkipSpaces(line, i1);
    SkipNonSpacesRun(line, 0);
    SkipSpacesRun(line, i1);
    if i2 == |line| then None
    else
      var i3 := SkipNonSpaces(line, i2);
      SkipNonSpacesRun(line, i2);
      assert forall k :: 0 <= k < i1 ==> line[..i1][k] == line[k];
      assert forall k :: 0 <= k < i3 - i2 ==> line[i2..i3][k] == line[i2 + k];
      Some(Column(line[..i1], line[i2..i3], BracketAttributes(line)))
  }

  // ---------------------------------------------------------------------------
  // The body scan
  // ---------------------------------------------------------------------------

  /** What the `for` loop over the body lines keeps: the columns so far, the name
      map (a name stands for the index of the column object it points to) and the
      indexes flag. */
  datatype BodyState = BodyState(columns: seq<Column>, columnMap: map<string, nat>, inIndexes: bool)

  /** `after` is `before`, or `before` with "pk" appended when it was absent. */
  predicate PkAdded(before: seq<string>, after: seq<string>)
  {
    after == before || ("pk" !in before && after == before + ["pk"])
  }

  /** `col.attributes.push('pk')` for the column `name` points to, unless it is
      already marked; an unknown name changes nothing. */
  function PromoteOne(columns: seq<Column>, columnMap: map<string, nat>, name: string): (r: seq<Column>)
    ensures |r| == |columns|
    ensures forall k :: 0 <= k < |r| ==> r[k].name == columns[k].name && r[k].colType == columns[k].colType
                                         && PkAdded(columns[k].attributes, r[k].attributes)
    ensures name in columnMap && columnMap[name] < |columns| ==> "pk" in r[columnMap[name]].attributes
    ensures forall k :: 0 <= k < |r| && !(name in columnMap && columnMap[name] == k) ==> r[k] == columns[k]
  {
    if name in columnMap && columnMap[name] < |columns| then
      var k := columnMap[name];
      var col := columns[k];
      if "pk" in col.attributes then columns
      else columns[k := col.(attributes := col.attributes + ["pk"])]
    else columns
  }

  /** The `pkCols.forEach` of one indexes line, name by name. */
  function PromoteAll(columns: seq<Column>, columnMap: map<string, nat>, names: seq<string>): (r: seq<Column>)
    ensures |r| == |columns|
    ensures forall k :: 0 <= k < |r| ==> r[k].name == columns[k].name && r[k].colType == columns[k].colType
                                         && PkAdded(columns[k].attributes, r[k].attributes)
    ensures forall n :: n in names && n in columnMap && columnMap[n] < |columns| ==> "pk" in r[columnMap[n]].attributes
    ensures forall k :: 0 <= k < |r| && k !in Targets(columnMap, names) ==> r[k] == columns[k]
    decreases |names|
  {
    if names == [] then columns
    else
      var prev := PromoteAll(columns, columnMap, names[..|names| - 1]);
      var r := PromoteOne(prev, columnMap, names[|names| - 1]);
      assert forall n :: n in names ==> n in names[..|names| - 1] || n == names[|names| - 1];
      forall k | 0 <= k < |r| ensures PkAdded(columns[k].attributes, r[k].attributes) {
        PkAddedTrans(columns[k].attributes, prev[k].attributes, r[k].attributes);
      }
      r
  }

  /** The indices of the columns some name points to. */
  function Targets(columnMap: map<string, nat>, names: seq<string>): set<nat>
  {
    set n | n in names && n in columnMap :: columnMap[n]
  }

  lemma PkAddedTrans(a: seq<string>, b: seq<string>, c: seq<string>)
    requires PkAdded(a, b) && PkAdded(b, c)
    ensures PkAdded(a, c)
  {
    if b != a {
      assert "pk" in b by { assert b[|b| - 1] == "pk"; }
    }
  }

  /** One turn of the `for` loop over the body lines. */
  function ParseLine(st: BodyState, raw: string): BodyState
  {
    var line := JsTrim(raw);
    if line == "" || StartsWith(line, "//") then st
    else if IndexesOpen(line) then st.(inIndexes := true)
    else if st.inIndexes then
      if StartsWith(line, "}") then st.(inIndexes := false)
      else if HasPkMarker(line) then
        match FindDelimited(line, '(', ')', 0)
        case None => st
        case Some(content) => st.(columns := PromoteAll(st.columns, st.columnMap, SplitTrim(content)))
      else st
    else if StartsWith(line, "}") then st
    else
      match DeclaredColumn(line)
      case None => st
      case Some(col) => st.(columns := st.columns + [col], columnMap := st.columnMap[col.name := |st.columns|])
  }

  /** The loop state after the given lines. */
  function ScanLines(lines: seq<string>): BodyState
    decreases |lines|
  {
    if lines == [] then BodyState([], map[], false)
    else ParseLine(ScanLines(lines[..|lines| - 1]), lines[|lines| - 1])
  }

  /** The columns of one table body. */
  function ParseBody(body: string): seq<Column>
  {
    ScanLines(SplitOn(body, '\n')).columns
  }

  // ---------------------------------------------------------------------------
  // What the body scan produces, stated line by line
  // ---------------------------------------------------------------------------

  /** How one line moves the indexes flag. */
  function NextFlag(inIndexes: bool, raw: string): bool
  {
    var line := JsTrim(raw);
    if line == "" || StartsWith(line, "//") then inIndexes
    else if IndexesOpen(line) then true
    else if inIndexes && StartsWith(line, "}") then false
    else inIndexes
  }

  /** Whether an indexes block is open after the given lines, tracked on its own. */
  function IndexesFlag(lines: seq<string>): bool
    decreases |lines|
  {
    if lines == [] then false else NextFlag(IndexesFlag(lines[..|lines| - 1]), lines[|lines| - 1])
  }

  /** A line declares a column, given whether an indexes block is open before it:
      once trimmed it is not blank, not a `//` comment, does not open an indexes
      block, lies outside one, does not start with "}", and has two tokens. */
  predicate DeclaresColumn(inIndexes: bool, raw: string)
  {
    var line := JsTrim(raw);
    && line != "" && !StartsWith(line, "//") && !IndexesOpen(line)
    && !inIndexes && !StartsWith(line, "}")
    && DeclaredColumn(line).Some?
  }

  /** Line `i` declares a column, given the lines before it. */
  predicate ColumnLine(lines: seq<string>, i: nat)
    requires i < |lines|
  {
    DeclaresColumn(IndexesFlag(lines[..i]), lines[i])
  }

  /** Whether a line declares a column depends only on it and the lines before it. */
  lemma ColumnLinePrefix(lines: seq<string>, n: nat)
    requires n <= |lines|
    ensures forall i :: 0 <= i < n ==> ColumnLine(lines[..n], i) == ColumnLine(lines, i)
  {
    assert forall i :: 0 <= i < n ==> lines[..n][..i] == lines[..i] && lines[..n][i] == lines[i];
  }

  /** The indices of the lines that declare a column, in increasing order. */
  function ColumnLineIndices(lines: seq<string>): (r: seq<nat>)
    ensures forall j :: 0 <= j < |r| ==> r[j] < |lines|
    ensures forall j, k :: 0 <= j < k < |r| ==> r[j] < r[k]
    decreases |lines|
  {
    if lines == [] then []
    else
      var n := |lines| - 1;
      ColumnLineIndices(lines[..n]) + (if ColumnLine(lines, n) then [n] else [])
  }

  /** Every listed line declares a column. */
  lemma {:induction false} ColumnLineIndicesSound(lines: seq<string>)
    ensures forall j :: 0 <= j < |ColumnLineIndices(lines)| ==> ColumnLine(lines, ColumnLineIndices(lines)[j])
    decreases |lines|
  {
    if lines != [] {
      var n := |lines| - 1;
      ColumnLineIndicesSound(lines[..n]);
      ColumnLinePrefix(lines, n);
    }
  }

  /** A scanned column keeps the name and type its line declares; its attributes
      are the line's own, possibly followed by one promoted "pk". */
  predicate SameDeclaration(declared: Column, col: Column)
  {
    col.name == declared.name && col.colType == declared.colType && PkAdded(declared.attributes, col.attributes)
  }

  /** The name map points every name at the last column carrying it, and every
      column's name is in the map. */
  predicate StateValid(st: BodyState)
  {
    && (forall n :: n in st.columnMap ==> st.columnMap[n] < |st.columns| && st.columns[st.columnMap[n]].name == n)
    && (forall n, k :: n in st.columnMap && st.columnMap[n] < k < |st.columns| ==> st.columns[k].name != n)
    && (forall k :: 0 <= k < |st.columns| ==> st.columns[k].name in st.columnMap)
  }

  /** One line of the scan: it keeps the name map valid, moves the flag as
      `NextFlag` does, appends exactly the column the line declares when it
      declares one, and otherwise at most adds "pk" to earlier columns. */
  ghost predicate LineShape(st: BodyState, raw: string)
  {
    var next := ParseLine(st, raw);
    && StateValid(next)
    && next.inIndexes == NextFlag(st.inIndexes, raw)
    && (DeclaresColumn(st.inIndexes, raw) ==> next.columns == st.columns + [DeclaredColumn(JsTrim(raw)).value])
    && (!DeclaresColumn(st.inIndexes, raw) ==>
          && |next.columns| == |st.columns|
          && forall k :: 0 <= k < |st.columns| ==> SameDeclaration(st.columns[k], next.columns[k]))
  }

  lemma ParseLineShape(st: BodyState, raw: string)
    requires StateValid(st)
    ensures LineShape(st, raw)
  {
    var line := JsTrim(raw);
    if line == "" || StartsWith(line, "//") || IndexesOpen(line) {
      SkippedLineShape(st, raw);
    } else if st.inIndexes {
      IndexesLineShape(st, raw);
    } else {
      OutsideLineShape(st, raw);
    }
  }

  /** A blank line, a comment, or the opening of an indexes block. */
  lemma SkippedLineShape(st: BodyState, raw: string)
    requires StateValid(st)
    requires JsTrim(raw) == "" || StartsWith(JsTrim(raw), "//") || IndexesOpen(JsTrim(raw))
    ensures LineShape(st, raw)
  {
  }

  /** A line inside an indexes block: it closes the block or promotes columns. */
  lemma IndexesLineShape(st: BodyState, raw: string)
    requires StateValid(st) && st.inIndexes
    requires !(JsTrim(raw) == "" || StartsWith(JsTrim(raw), "//") || IndexesOpen(JsTrim(raw)))
    ensures LineShape(st, raw)
  {
    var line := JsTrim(raw);
    if !StartsWith(line, "}") && HasPkMarker(line) && FindDelimited(line, '(', ')', 0).Some? {
      PromoteKeepsValid(st, SplitTrim(FindDelimited(line, '(', ')', 0).value));
    }
  }

  /** A line outside an indexes block: it declares a column or is ignored. */
  lemma OutsideLineShape(st: BodyState, raw: string)
    requires StateValid(st) && !st.inIndexes
    requires !(JsTrim(raw) == "" || StartsWith(JsTrim(raw), "//") || IndexesOpen(JsTrim(raw)))
    ensures LineShape(st, raw)
  {
    var line := JsTrim(raw);
    if !StartsWith(line, "}") && DeclaredColumn(line).Some? {
      AppendKeepsValid(st, DeclaredColumn(line).value);
    }
  }

  /** Promotion keeps names and the map, so the map stays valid. */
  lemma PromoteKeepsValid(st: BodyState, names: seq<string>)
    requires StateValid(st)
    ensures var next := st.(columns := PromoteAll(st.columns, st.columnMap, names));
            && StateValid(next)
            && forall k :: 0 <= k < |st.columns| ==> SameDeclaration(st.columns[k], next.columns[k])
  {
  }

  /** Appending a column and pointing its name at it keeps the map valid. */
  lemma AppendKeepsValid(st: BodyState, col: Column)
    requires StateValid(st)
    ensures StateValid(BodyState(st.columns + [col], st.columnMap[col.name := |st.columns|], st.inIndexes))
  {
  }

  /** The body scan, line by line: its flag is `IndexesFlag`, there is one column
      per column line and in the same order, each with the name, type and
      attributes its line declares (plus at most one promoted "pk"), and the name
      map stays valid. */
  ghost predicate ScanShape(lines: seq<string>)
  {
    ColumnLineIndicesSound(lines);
    var st := ScanLines(lines);
    var idx := ColumnLineIndices(lines);
    && StateValid(st)
    && st.inIndexes == IndexesFlag(lines)
    && |st.columns| == |idx|
    && forall j :: 0 <= j < |idx| ==> SameDeclaration(DeclaredColumn(JsTrim(lines[idx[j]])).value, st.columns[j])
  }

  lemma {:induction false} ScanLinesShape(lines: seq<string>)
    ensures ScanShape(lines)
    decreases |lines|
  {
    if lines != [] {
      ScanLinesShape(lines[..|lines| - 1]);
      var n := |lines| - 1;
      if ColumnLine(lines, n) {
        ScanStepColumn(lines);
      } else {
        ScanStepOther(lines);
      }
    }
  }

  /** The last line declares a column: the scan appends that column. */
  lemma ScanStepColumn(lines: seq<string>)
    requires lines != [] && ScanShape(lines[..|lines| - 1])
    requires ColumnLine(lines, |lines| - 1)
    ensures ScanShape(lines)
  {
    var n := |lines| - 1;
    var prefix := lines[..n];
    var before := ScanLines(prefix);
    var prevIdx := ColumnLineIndices(prefix);
    var st := ScanLines(lines);
    var idx := ColumnLineIndices(lines);
    ColumnLineIndicesSound(lines);
    assert st == ParseLine(before, lines[n]);
    ParseLineShape(before, lines[n]);
    forall j | 0 <= j < |prevIdx| ensures lines[prevIdx[j]] == prefix[prevIdx[j]] {
    }
    assert idx == prevIdx + [n];
    assert st.columns[n - n + |before.columns|] == DeclaredColumn(JsTrim(lines[n])).value;
  }

  /** The last line declares no column: the columns keep their declarations. */
  lemma ScanStepOther(lines: seq<string>)
    requires lines != [] && ScanShape(lines[..|lines| - 1])
    requires !ColumnLine(lines, |lines| - 1)
    ensures ScanShape(lines)
  {
    var n := |lines| - 1;
    var prefix := lines[..n];
    var before := ScanLines(prefix);
    var prevIdx := ColumnLineIndices(prefix);
    var st := ScanLines(lines);
    var idx := ColumnLineIndices(lines);
    ColumnLineIndicesSound(lines);
    assert st == ParseLine(before, lines[n]);
    ParseLineShape(before, lines[n]);
    forall j | 0 <= j < |prevIdx| ensures lines[prevIdx[j]] == prefix[prevIdx[j]] {
    }
    assert idx == prevIdx;
    forall j | 0 <= j < |idx|
      ensures SameDeclaration(DeclaredColumn(JsTrim(lines[idx[j]])).value, st.columns[j])
    {
      PkAddedTrans(DeclaredColumn(JsTrim(lines[idx[j]])).value.attributes,
                   before.columns[j].attributes, st.columns[j].attributes);
    }
  }

  /** Inside a table body (which holds no "}"), an open indexes block is never
      closed again: once open, the flag stays set. */
  lemma {:induction false} IndexesFlagStaysOpen(lines: seq<string>, i: nat)
    requires i <= |lines| && IndexesFlag(lines[..i])
    requires forall j :: 0 <= j < |lines| ==> '}' !in lines[j]
    ensures IndexesFlag(lines)
    decreases |lines|
  {
    if i < |lines| {
      var n := |lines| - 1;
      assert lines[..n][..i] == lines[..i];
      IndexesFlagStaysOpen(lines[..n], i);
      TrimAbsent(lines[n], IsJsSpace, '}');
      var t := JsTrim(lines[n]);
      assert |t| == 0 || t[..1][0] == t[0] != '}';
    } else {
      assert lines[..i] == lines;
    }
  }

  /** So no line after an `indexes {` line declares a column: everything after it
      up to the table's closing brace is read as index definitions. */
  lemma {:induction false} IndexesBlockEndsTable(lines: seq<string>, i: nat)
    requires i <= |lines| && IndexesFlag(lines[..i])
    requires forall j :: 0 <= j < |lines| ==> '}' !in lines[j]
    ensures ColumnLineIndices(lines) == ColumnLineIndices(lines[..i])
    decreases |lines|
  {
    if i < |lines| {
      var n := |lines| - 1;
      var prefix := lines[..n];
      assert prefix[..i] == lines[..i];
      IndexesBlockEndsTable(prefix, i);
      IndexesFlagStaysOpen(prefix, i);
      LineInBlock(lines);
    } else {
      assert lines[..i] == lines;
    }
  }

  /** A last line read while an indexes block is open declares no column. */
  lemma LineInBlock(lines: seq<string>)
    requires lines != [] && IndexesFlag(lines[..|lines| - 1])
    ensures ColumnLineIndices(lines) == ColumnLineIndices(lines[..|lines| - 1])
  {
    assert !ColumnLine(lines, |lines| - 1);
  }

  /** The same for a whole table body, split into lines as the scan splits it. */
  lemma BodyIndexesEndColumns(body: string, i: nat)
    requires '}' !in body
    requires i <= |SplitOn(body, '\n')| && IndexesFlag(SplitOn(body, '\n')[..i])
    ensures ColumnLineIndices(SplitOn(body, '\n')) == ColumnLineIndices(SplitOn(body, '\n')[..i])
  {
    SplitOnAbsent(body, '\n', '}');
    IndexesBlockEndsTable(SplitOn(body, '\n'), i);
  }

  // ---------------------------------------------------------------------------
  // The whole parse
  // ---------------------------------------------------------------------------

  /** One table per table match, in text order; duplicates are kept. */
  function TablesOf(ms: seq<TableMatch>): seq<Table>
  {
    if ms == [] then [] else [Table(ms[0].name, ParseBody(ms[0].body))] + TablesOf(ms[1..])
  }

  /** One ref per ref match, in text order. */
  function RefsOf(ms: seq<RefMatch>): seq<Ref>
  {
    if ms == [] then [] else [ms[0].ref] + RefsOf(ms[1..])
  }

  /** What `parseDBML` returns: nothing for blank text, otherwise the tables of all
      table matches and the refs of all ref matches. */
  function ParseDbmlSpec(dbml: string): ParsedSchema
  {
    if JsTrim(dbml) == "" then ParsedSchema([], [])
    else ParsedSchema(TablesOf(TableMatches(dbml, 0)), RefsOf(RefMatches(dbml, 0)))
  }

  /** `parseDBML`: the blank-input shortcut, then the two `while (exec)` loops. */
  method ParseDbml(dbml: string) returns (schema: ParsedSchema)
    ensures schema == ParseDbmlSpec(dbml)
  {
    if JsTrim(dbml) == "" {
      return ParsedSchema([], []);
    }
    var tables := CollectTables(dbml);
    var refs := CollectRefs(dbml);
    schema := ParsedSchema(tables, refs);
  }

  /** The table loop of `parseDBML`: each match's body is read with
      `ParseTableBody`. */
  method CollectTables(dbml: string) returns (tables: seq<Table>)
    ensures tables == TablesOf(TableMatches(dbml, 0))
  {
    tables := [];
    var lastIndex: nat := 0;
    var tableMatch := ExecTable(dbml, lastIndex);
    while tableMatch.Some?
      invariant lastIndex <= |dbml| && tableMatch == ExecTable(dbml, lastIndex)
      invariant TablesSoFar(dbml, lastIndex, tables)
      decreases |dbml| - lastIndex
    {
      var m := tableMatch.value;
      var columns := ParseTableBody(m.body);
      TablesStep(dbml, lastIndex, tables, columns);
      tables := tables + [Table(m.name, columns)];
      lastIndex := m.end;
      tableMatch := ExecTable(dbml, lastIndex);
    }
    TablesDone(dbml, lastIndex, tables);
  }

  /** The tables collected so far followed by those of the matches still ahead
      are all the tables. */
  ghost predicate TablesSoFar(s: string, from: nat, tables: seq<Table>)
    requires from <= |s|
  {
    tables + TablesOf(TableMatches(s, from)) == TablesOf(TableMatches(s, 0))
  }

  /** One turn of the table loop: the first match's table, then the rest. */
  lemma TablesStep(s: string, from: nat, tables: seq<Table>, columns: seq<Column>)
    requires from <= |s| && ExecTable(s, from).Some? && TablesSoFar(s, from, tables)
    requires columns == ParseBody(ExecTable(s, from).value.body)
    ensures var m := ExecTable(s, from).value;
            TablesSoFar(s, m.end, tables + [Table(m.name, columns)])
  {
    var m := ExecTable(s, from).value;
    TablesOfStep(s, from);
    assert tables + [Table(m.name, columns)] + TablesOf(TableMatches(s, m.end))
        == tables + TablesOf(TableMatches(s, from));
  }

  lemma TablesOfStep(s: string, from: nat)
    requires from <= |s| && ExecTable(s, from).Some?
    ensures var m := ExecTable(s, from).value;
            TablesOf(TableMatches(s, from)) == [Table(m.name, ParseBody(m.body))] + TablesOf(TableMatches(s, m.end))
  {
    var m := ExecTable(s, from).value;
    var rest := TableMatches(s, m.end);
    assert TableMatches(s, from) == [m] + rest;
    assert ([m] + rest)[1..] == rest;
  }

  lemma TablesDone(s: string, from: nat, tables: seq<Table>)
    requires from <= |s| && ExecTable(s, from).None? && TablesSoFar(s, from, tables)
    ensures tables == TablesOf(TableMatches(s, 0))
  {
  }

  /** The ref loop of `parseDBML`. */
  method CollectRefs(dbml: string) returns (refs: seq<Ref>)
    ensures refs == RefsOf(RefMatches(dbml, 0))
  {
    refs := [];
    var lastIndex: nat := 0;
    var refMatch := ExecRef(dbml, lastIndex);
    while refMatch.Some?
      invariant lastIndex <= |dbml| && refMatch == ExecRef(dbml, lastIndex)
      invariant RefsSoFar(dbml, lastIndex, refs)
      decreases |dbml| - lastIndex
    {
      var m := refMatch.value;
      RefsStep(dbml, lastIndex, refs);
      refs := refs + [m.ref];
      lastIndex := m.end;
      refMatch := ExecRef(dbml, lastIndex);
    }
    RefsDone(dbml, lastIndex, refs);
  }

  ghost predicate RefsSoFar(s: string, from: nat, refs: seq<Ref>)
    requires from <= |s|
  {
    refs + RefsOf(RefMatches(s, from)) == RefsOf(RefMatches(s, 0))
  }

  /** One turn of the ref loop: the first match's ref, then the rest. */
  lemma RefsStep(s: string, from: nat, refs: seq<Ref>)
    requires from <= |s| && ExecRef(s, from).Some? && RefsSoFar(s, from, refs)
    ensures var m := ExecRef(s, from).value;
            RefsSoFar(s, m.end, refs + [m.ref])
  {
    var m := ExecRef(s, from).value;
    RefsOfStep(s, from);
    assert refs + [m.ref] + RefsOf(RefMatches(s, m.end)) == refs + RefsOf(RefMatches(s, from));
  }

  lemma RefsOfStep(s: string, from: nat)
    requires from <= |s| && ExecRef(s, from).Some?
    ensures var m := ExecRef(s, from).value;
            RefsOf(RefMatches(s, from)) == [m.ref] + RefsOf(RefMatches(s, m.end))
  {
    var m := ExecRef(s, from).value;
    var rest := RefMatches(s, m.end);
    assert RefMatches(s, from) == [m] + rest;
    assert ([m] + rest)[1..] == rest;
  }

  lemma RefsDone(s: string, from: nat, refs: seq<Ref>)
    requires from <= |s| && ExecRef(s, from).None? && RefsSoFar(s, from, refs)
    ensures refs == RefsOf(RefMatches(s, 0))
  {
  }

  /** The `for` loop over one table body, with `columnMap` standing for the column
      objects by their index; an indexes line promotes its columns in a nested loop. */
  method ParseTableBody(body: string) returns (columns: seq<Column>)
    ensures columns == ParseBody(body)
  {
    var lines := SplitOn(body, '\n');
    columns := [];
    var columnMap: map<string, nat> := map[];
    var inIndexes := false;
    for i := 0 to |lines|
      invariant BodyState(columns, columnMap, inIndexes) == ScanLines(lines[..i])
    {
      ScanLinesSnoc(lines, i);
      var line := JsTrim(lines[i]);
      if line == "" || StartsWith(line, "//") {
        continue;
      }
      if IndexesOpen(line) {
        inIndexes := true;
        continue;
      }
      if inIndexes {
        if StartsWith(line, "}") {
          inIndexes := false;
          continue;
        }
        if HasPkMarker(line) {
          var colsMatch := FindDelimited(line, '(', ')', 0);
          if colsMatch.Some? {
            var pkCols := SplitTrim(colsMatch.value);
            columns := PromoteColumns(columns, columnMap, pkCols);
          }
        }
        continue;
      }
      if StartsWith(line, "}") {
        continue;
      }
      var col := DeclaredColumn(line);
      if col.None? {
        continue;
      }
      columns := columns + [col.value];
      columnMap := columnMap[col.value.name := |columns| - 1];
    }
    assert lines[..|lines|] == lines;
  }

  /** The scan after one more line is one more turn of the loop. */
  lemma ScanLinesSnoc(lines: seq<string>, i: nat)
    requires i < |lines|
    ensures ScanLines(lines[..i + 1]) == ParseLine(ScanLines(lines[..i]), lines[i])
  {
    assert lines[..i + 1][..i] == lines[..i];
  }

  /** The nested loop over the columns an index line names: each one the name map
      knows gets "pk" unless it already has it. */
  method PromoteColumns(columns: seq<Column>, columnMap: map<string, nat>, pkCols: seq<string>)
    returns (promoted: seq<Column>)
    ensures promoted == PromoteAll(columns, columnMap, pkCols)
  {
    promoted := columns;
    for j := 0 to |pkCols|
      invariant promoted == PromoteAll(columns, columnMap, pkCols[..j])
    {
      assert pkCols[..j + 1][..j] == pkCols[..j];
      var colName := pkCols[j];
      if colName in columnMap && columnMap[colName] < |promoted| {
        var k := columnMap[colName];
        if "pk" !in promoted[k].attributes {
          promoted := promoted[k := promoted[k].(attributes := promoted[k].attributes + ["pk"])];
        }
      }
    }
    assert pkCols[..|pkCols|] == pkCols;
  }

  // ---------------------------------------------------------------------------
  // Properties of the whole parse
  // ---------------------------------------------------------------------------

  /** Every character of a text that trims to nothing is a JavaScript space. */
  lemma BlankIsAllSpaces(s: string)
    requires JsTrim(s) == ""
    ensures forall k :: 0 <= k < |s| ==> IsJsSpace(s[k])
  {
    TrimStartShape(s, IsJsSpace);
    var t := TrimStart(s, IsJsSpace);
    TrimEndShape(t, IsJsSpace);
  }

  /** The blank-input shortcut changes nothing: blank text holds no table and no
      ref match, so the general path would return the same empty schema. */
  lemma BlankShortcutAgrees(dbml: string)
    ensures ParseDbmlSpec(dbml) == ParsedSchema(TablesOf(TableMatches(dbml, 0)), RefsOf(RefMatches(dbml, 0)))
  {
    if JsTrim(dbml) == "" {
      BlankIsAllSpaces(dbml);
      ExecTableNone(dbml, 0);
      ExecRefNone(dbml, 0);
    }
  }

  /** Text without a 'T' holds no table match. */
  lemma {:induction false} ExecTableNone(s: string, from: nat)
    requires from <= |s| && forall k :: from <= k < |s| ==> IsJsSpace(s[k])
    ensures ExecTable(s, from).None?
    decreases |s| - from
  {
    if from + 5 <= |s| {
      assert s[from..from + 5][0] == s[from];
    }
    if from < |s| {
      ExecTableNone(s, from + 1);
    }
  }

  /** Text without an 'R' holds no ref match. */
  lemma {:induction false} ExecRefNone(s: string, from: nat)
    requires from <= |s| && forall k :: from <= k < |s| ==> IsJsSpace(s[k])
    ensures ExecRef(s, from).None?
    decreases |s| - from
  {
    if from + 4 <= |s| {
      assert s[from..from + 4][0] == s[from];
    }
    if from < |s| {
      ExecRefNone(s, from + 1);
    }
  }

  /** Each parsed table comes from a table block in the text: its name is the
      block's word and its columns are the scan of the block's body. */
  lemma ParsedTableFromBlock(dbml: string, i: nat)
    requires i < |ParseDbmlSpec(dbml).tables|
    ensures exists p: nat, a: nat, b: nat, c: nat, e: nat ::
              && TableSyntax(dbml, p, a, b, c, e)
              && ParseDbmlSpec(dbml).tables[i] == Table(dbml[a..b], ParseBody(dbml[c + 1..e - 1]))
  {
    BlankShortcutAgrees(dbml);
    var ms := TableMatches(dbml, 0);
    TablesOfLength(ms);
    TablesOfIndex(ms, i);
    TableMatchesAreMatches(dbml, 0, i);
    var m := ms[i];
    assert ParseDbmlSpec(dbml).tables[i] == Table(m.name, ParseBody(m.body));
    TableFromMatch(dbml, m);
  }

  lemma TableFromMatch(s: string, m: TableMatch)
    requires m.start <= |s| && MatchTableAt(s, m.start) == Some(m)
    ensures exists p: nat, a: nat, b: nat, c: nat, e: nat ::
              TableSyntax(s, p, a, b, c, e) && Table(m.name, ParseBody(m.body)) == Table(s[a..b], ParseBody(s[c + 1..e - 1]))
  {
    MatchTableAtSound(s, m.start);
    var a: nat, b: nat, c: nat :| TableSyntax(s, m.start, a, b, c, m.end) && m.name == s[a..b] && m.body == s[c + 1..m.end - 1];
    assert TableSyntax(s, m.start, a, b, c, m.end) && Table(m.name, ParseBody(m.body)) == Table(s[a..b], ParseBody(s[c + 1..m.end - 1]));
  }

  lemma {:induction false} TablesOfIndex(ms: seq<TableMatch>, i: nat)
    requires i < |ms|
    ensures |TablesOf(ms)| == |ms| && TablesOf(ms)[i] == Table(ms[i].name, ParseBody(ms[i].body))
  {
    TablesOfLength(ms);
    if i > 0 {
      TablesOfIndex(ms[1..], i - 1);
    }
  }

  lemma {:induction false} TablesOfLength(ms: seq<TableMatch>)
    ensures |TablesOf(ms)| == |ms|
  {
    if ms != [] {
      TablesOfLength(ms[1..]);
    }
  }

  /** Each parsed ref comes from a `Ref:` line: the words around the operator, in order. */
  lemma ParsedRefFromLine(dbml: string, i: nat)
    requires i < |ParseDbmlSpec(dbml).refs|
    ensures exists p: nat, a: nat, b: nat, d: nat, e: nat, f: nat, g: nat, h: nat ::
              && RefSyntax(dbml, p, a, b, d, e, f, g, h)
              && ParseDbmlSpec(dbml).refs[i] == Ref(dbml[a..b], dbml[b + 1..d], dbml[f..g], dbml[g + 1..h], [dbml[e]])
  {
    BlankShortcutAgrees(dbml);
    var ms := RefMatches(dbml, 0);
    RefsOfLength(ms);
    RefsOfIndex(ms, i);
    RefMatchesAreMatches(dbml, 0, i);
    MatchRefAtSound(dbml, ms[i].start);
  }

  lemma {:induction false} RefsOfIndex(ms: seq<RefMatch>, i: nat)
    requires i < |ms|
    ensures |RefsOf(ms)| == |ms| && RefsOf(ms)[i] == ms[i].ref
  {
    RefsOfLength(ms);
    if i > 0 {
      RefsOfIndex(ms[1..], i - 1);
    }
  }

  lemma {:induction false} RefsOfLength(ms: seq<RefMatch>)
    ensures |RefsOf(ms)| == |ms|
  {
    if ms != [] {
      RefsOfLength(ms[1..]);
    }
  }

  /** Text without "Ref:" (the keyword is case-sensitive) yields no refs. */
  lemma NoRefKeywordNoRefs(dbml: string)
    requires !Contains(dbml, "Ref:")
    ensures ParseDbmlSpec(dbml).refs == []
  {
    ExecRefLeftmost(dbml, 0, 0);
  }

  /** A many-to-many declaration at `p`: the keyword "Ref:", white space up to
      `a`, the words `s[a..b]` and `s[b+1..d]` around a dot, white space up to
      `e`, and the operator "<>" at `e`. The words may be empty; what follows
      the "<>" does not matter. */
  predicate ManyToManyAt(s: string, p: nat, a: nat, b: nat, d: nat, e: nat)
  {
    && OccursAt(s, "Ref:", p) && p + 4 <= a <= b < d <= e && e + 1 < |s|
    && (forall k :: p + 4 <= k < a ==> IsJsSpace(s[k]))
    && (forall k :: a <= k < b ==> IsWordChar(s[k]))
    && s[b] == '.'
    && (forall k :: b + 1 <= k < d ==> IsWordChar(s[k]))
    && (forall k :: d <= k < e ==> IsJsSpace(s[k]))
    && s[e] == '<' && s[e + 1] == '>'
  }

  /** A `<>` declaration is no ref, wherever it stands in the schema and however
      much white space it holds: no match the `while (exec)` loop visits starts
      at its keyword, so it contributes none of the parsed refs. */
  lemma ManyToManyDropped(s: string, p: nat, a: nat, b: nat, d: nat, e: nat)
    requires ManyToManyAt(s, p, a, b, d, e)
    ensures forall i :: 0 <= i < |RefMatches(s, 0)| ==> RefMatches(s, 0)[i].start != p
  {
    OperatorWithoutWord(s, p, a, b, d, e);
    forall i | 0 <= i < |RefMatches(s, 0)| ensures RefMatches(s, 0)[i].start != p {
      RefMatchesAreMatches(s, 0, i);
    }
  }

  /** The pattern fails at the keyword of a `<>` declaration: the greedy runs stop
      at the dot and at the white space, the operator is "<", and ">" starts no
      word. */
  lemma OperatorWithoutWord(s: string, p: nat, a: nat, b: nat, d: nat, e: nat)
    requires ManyToManyAt(s, p, a, b, d, e)
    ensures MatchRefAt(s, p).None?
  {
    assert !IsJsSpace(s[a]);
    SkipSpacesExact(s, p + 4, a);
    if a < b && b + 1 < d {
      assert QualifiedNameSyntax(s, a, b, d);
      SkipSpacesExact(s, d, e);
      NoNameAfterOperator(s, p, a, b, d, e);
    } else {
      assert QualifiedNameAt(s, a).None? by {
        SkipWordExact(s, a, b);
        SkipWordExact(s, b + 1, d);
      }
    }
  }

  /** With both words present the first name is read, the operator found is "<",
      and no name starts at the ">" after it. */
  lemma NoNameAfterOperator(s: string, p: nat, a: nat, b: nat, d: nat, e: nat)
    requires OccursAt(s, "Ref:", p) && SkipSpaces(s, p + 4) == a && QualifiedNameSyntax(s, a, b, d)
    requires SkipSpaces(s, d) == e && e + 1 < |s| && s[e] == '<' && s[e + 1] == '>'
    ensures MatchRefAt(s, p).None?
  {
    QualifiedNameAtComplete(s, a, b, d);
    SkipSpacesExact(s, e + 1, e + 1);
    SkipWordExact(s, e + 1, e + 1);
  }

  /** A schema that is one many-to-many line `Ref: a.b <> c.d` has no ref at all. */
  lemma ManyToManyLineHasNoRefs(t1: string, c1: string, t2: string, c2: string)
    requires AllSatisfy(t1, IsWordChar) && AllSatisfy(c1, IsWordChar)
    requires AllSatisfy(t2, IsWordChar) && AllSatisfy(c2, IsWordChar)
    ensures RefMatches("Ref: " + t1 + "." + c1 + " <> " + t2 + "." + c2, 0) == []
  {
    var s := "Ref: " + t1 + "." + c1 + " <> " + t2 + "." + c2;
    ManyToManyLayout(t1, c1, t2, c2);
    OperatorWithoutWord(s, 0, 5, 5 + |t1|, 6 + |t1| + |c1|, 7 + |t1| + |c1|);
    ManyToManyOneKeyword(t1, c1, t2, c2);
    OnlyRefAtZero(s);
  }

  lemma ManyToManyLayout(t1: string, c1: string, t2: string, c2: string)
    requires AllSatisfy(t1, IsWordChar) && AllSatisfy(c1, IsWordChar)
    ensures var s := "Ref: " + t1 + "." + c1 + " <> " + t2 + "." + c2;
            var b := 5 + |t1|;
            var d := b + 1 + |c1|;
            ManyToManyAt(s, 0, 5, b, d, d + 1)
  {
    var s := "Ref: " + t1 + "." + c1 + " <> " + t2 + "." + c2;
    var b := 5 + |t1|;
    var d := b + 1 + |c1|;
    assert s[..4] == "Ref:";
    assert forall k :: 5 <= k < b ==> s[k] == t1[k - 5];
    assert forall k :: b + 1 <= k < d ==> s[k] == c1[k - b - 1];
  }

  lemma ManyToManyOneKeyword(t1: string, c1: string, t2: string, c2: string)
    requires AllSatisfy(t1, IsWordChar) && AllSatisfy(c1, IsWordChar)
    requires AllSatisfy(t2, IsWordChar) && AllSatisfy(c2, IsWordChar)
    ensures var s := "Ref: " + t1 + "." + c1 + " <> " + t2 + "." + c2;
            forall q :: 0 < q <= |s| ==> !OccursAt(s, "Ref:", q)
  {
    var s := "Ref: " + t1 + "." + c1 + " <> " + t2 + "." + c2;
    var tail := s[4..];
    assert tail == " " + t1 + "." + c1 + " <> " + t2 + "." + c2;
    assert ':' !in tail;
    forall q | 0 < q <= |s| ensures !OccursAt(s, "Ref:", q) {
      if q + 4 <= |s| {
        assert tail[q - 1] == s[q + 3];
        assert s[q..q + 4][3] == s[q + 3];
      }
    }
  }

  /** A text whose only "Ref:" is at its start, where the pattern fails, has no ref match. */
  lemma OnlyRefAtZero(s: string)
    requires MatchRefAt(s, 0).None?
    requires forall q :: 0 < q <= |s| ==> !OccursAt(s, "Ref:", q)
    ensures RefMatches(s, 0) == []
  {
    ExecRefLeftmost(s, 0, 0);
  }
}
