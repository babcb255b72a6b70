// The global TODO-marker regular expression of `TodoProvider.getTodos`
// as a hand-written scanner. Alternative 1 (the line form) is `//`, any
// whitespace, `TODO:` and a greedy run of non-line-terminator characters;
// alternative 2 (the block form) is `{/*`, any whitespace, `TODO:`, the
// shortest run of non-line-terminator characters and `*/}`. The declarative
// predicates LineParse and BlockParse say which spans the pattern can match at
// a position; the lemmas below prove that the scanner picks the one the
// backtracking order of a regular expression picks.
module TodoRegex {
  import opened Wrappers
  import opened Text

  // The capture group that participated in a match: group 1 (line form) or group 2 (block form).
  datatype Capture = LineText(text: string) | BlockText(text: string)

  // One successful `exec`: the matched span `s[start..end]` and its capture.
  datatype Match = Match(start: nat, end: nat, capture: Capture)

  // The shortest possible match, `//TODO:`.
  const MinMatchLength: nat := 7

  // `s` holds the literal `lit` at index `i`.
  predicate HasAt(s: string, i: nat, lit: string) {
    i + |lit| <= |s| && s[i..i + |lit|] == lit
  }

  // `s[i..j]` is whitespace only.
  ghost predicate SpacesBetween(s: string, i: nat, j: nat)
    requires i <= j <= |s|
  {
    forall k :: i <= k < j ==> IsWhitespace(s[k])
  }

  // `s[i..j]` holds no line terminator.
  ghost predicate OnOneLine(s: string, i: nat, j: nat)
    requires i <= j <= |s|
  {
    forall k :: i <= k < j ==> !IsLineTerminator(s[k])
  }

  // Length of the longest run of whitespace starting at `i` (the greedy `\s*`).
  function WhitespaceRun(s: string, i: nat): (n: nat)
    requires i <= |s|
    ensures i + n <= |s| && SpacesBetween(s, i, i + n)
    ensures i + n == |s| || !IsWhitespace(s[i + n])
    decreases |s| - i
  {
    if i < |s| && IsWhitespace(s[i]) then 1 + WhitespaceRun(s, i + 1) else 0
  }

  // Index of the first line terminator at or after `i`, or `|s|` (where the greedy `.*` stops).
  function LineEnd(s: string, i: nat): (j: nat)
    requires i <= |s|
    ensures i <= j <= |s| && OnOneLine(s, i, j)
    ensures j == |s| || IsLineTerminator(s[j])
    decreases |s| - i
  {
    if i < |s| && !IsLineTerminator(s[i]) then LineEnd(s, i + 1) else i
  }

  // Where the lazy `.*?` followed by `*/}` stops: the first `*/}` at or after `i`
  // reached without crossing a line terminator, if there is one.
  function BlockClose(s: string, i: nat): (k: Option<nat>)
    requires i <= |s|
    ensures k.Some? ==> i <= k.value <= |s| && HasAt(s, k.value, "*/}") && OnOneLine(s, i, k.value)
    ensures k.Some? ==> forall j :: i <= j < k.value ==> !HasAt(s, j, "*/}")
    ensures k.None? ==> forall j :: i <= j <= |s| && OnOneLine(s, i, j) ==> !HasAt(s, j, "*/}")
    decreases |s| - i
  {
    if HasAt(s, i, "*/}") then Some(i)
    else if i < |s| && !IsLineTerminator(s[i]) then BlockClose(s, i + 1)
    else None
  }

  // Alternative 1 at position `p`: `//`, the whitespace run, `TODO:`, then the rest of the line.
  function LineMatchAt(s: string, p: nat): (m: Option<Match>)
    ensures m.Some? ==> m.value.start == p && m.value.capture.LineText?
  {
    if HasAt(s, p, "//") then
      var q := p + 2 + WhitespaceRun(s, p + 2);
      if HasAt(s, q, "TODO:") then
        var e := LineEnd(s, q + 5);
        Some(Match(p, e, LineText(s[q + 5..e])))
      else None
    else None
  }

  // Alternative 2 at position `p`: `{/*`, the whitespace run, `TODO:`, then up to the first `*/}` on that line.
  function BlockMatchAt(s: string, p: nat): (m: Option<Match>)
    ensures m.Some? ==> m.value.start == p && m.value.capture.BlockText?
  {
    if HasAt(s, p, "{/*") then
      var q := p + 3 + WhitespaceRun(s, p + 3);
      if HasAt(s, q, "TODO:") then
        match BlockClose(s, q + 5)
        case Some(k) => Some(Match(p, k + 3, BlockText(s[q + 5..k])))
        case None => None
      else None
    else None
  }

  // The pattern tried at position `p`: alternative 1 first, then alternative 2.
  function MatchAt(s: string, p: nat): (m: Option<Match>)
    ensures m.Some? ==> m.value.start == p && p + MinMatchLength <= m.value.end <= |s|
  {
    if LineMatchAt(s, p).Some? then LineMatchAt(s, p) else BlockMatchAt(s, p)
  }

  // One way alternative 1 matches `s[p..e]`: `w` whitespace characters after `//`,
  // then `TODO:`, then the capture `s[p + 7 + w..e]`, which holds no line terminator.
  ghost predicate LineParse(s: string, p: nat, w: nat, e: nat) {
    && HasAt(s, p, "//")
    && p + 2 + w <= |s| && SpacesBetween(s, p + 2, p + 2 + w)
    && HasAt(s, p + 2 + w, "TODO:")
    && p + 7 + w <= e <= |s| && OnOneLine(s, p + 7 + w, e)
  }

  // One way alternative 2 matches `s[p..k + 3]`: `w` whitespace characters after `{/*`,
  // then `TODO:`, the capture `s[p + 8 + w..k]` without line terminators, then `*/}`.
  ghost predicate BlockParse(s: string, p: nat, w: nat, k: nat) {
    && HasAt(s, p, "{/*")
    && p + 3 + w <= |s| && SpacesBetween(s, p + 3, p + 3 + w)
    && HasAt(s, p + 3 + w, "TODO:")
    && p + 8 + w <= k <= |s| && OnOneLine(s, p + 8 + w, k)
    && HasAt(s, k, "*/}")
  }

  // The whitespace between the opener and `TODO:` is determined: `T` is not whitespace,
  // so any parse uses exactly the whitespace run.
  lemma WhitespaceIsRun(s: string, i: nat, w: nat)
    requires i + w <= |s| && SpacesBetween(s, i, i + w) && HasAt(s, i + w, "TODO:")
    ensures w == WhitespaceRun(s, i)
  {
    assert s[i + w] == s[i + w..i + w + 5][0] == 'T';
  }

  // Alternative 1 matches only along a parse, and along the greedy one: the capture
  // runs to the next line terminator or to the end of the text.
  lemma LineMatchIsParse(s: string, p: nat)
    requires LineMatchAt(s, p).Some?
    ensures var m := LineMatchAt(s, p).value;
      var w := WhitespaceRun(s, p + 2);
      && LineParse(s, p, w, m.end) && m.capture == LineText(s[p + 7 + w..m.end])
      && (m.end == |s| || IsLineTerminator(s[m.end]))
  {
    var w := WhitespaceRun(s, p + 2);
    var e := LineEnd(s, p + 7 + w);
    assert LineMatchAt(s, p).value == Match(p, e, LineText(s[p + 7 + w..e]));
  }

  // Whenever alternative 1 has a parse, the scanner reports a match with the same
  // whitespace whose capture is at least as long (the greedy choice).
  lemma {:induction false} LineParseIsMatched(s: string, p: nat, w: nat, e: nat)
    requires LineParse(s, p, w, e)
    ensures LineMatchAt(s, p).Some?
    ensures w == WhitespaceRun(s, p + 2) && e <= LineMatchAt(s, p).value.end
  {
    WhitespaceIsRun(s, p + 2, w);
  }

  // Alternative 2 matches only along a parse, and along the lazy one: no `*/}` occurs
  // earlier on the line.
  lemma BlockMatchIsParse(s: string, p: nat)
    requires BlockMatchAt(s, p).Some?
    ensures var m := BlockMatchAt(s, p).value;
      var w := WhitespaceRun(s, p + 3);
      && 3 <= m.end && BlockParse(s, p, w, m.end - 3)
      && m.capture == BlockText(s[p + 8 + w..m.end - 3])
      && forall j :: p + 8 + w <= j < m.end - 3 ==> !HasAt(s, j, "*/}")
  {
    var w := WhitespaceRun(s, p + 3);
    var k := BlockClose(s, p + 8 + w).value;
    assert BlockMatchAt(s, p).value == Match(p, k + 3, BlockText(s[p + 8 + w..k]));
  }

  // Whenever alternative 2 has a parse, the scanner reports a match with the same
  // whitespace whose capture is at most as long (the lazy choice).
  lemma {:induction false} BlockParseIsMatched(s: string, p: nat, w: nat, k: nat)
    requires BlockParse(s, p, w, k)
    ensures BlockMatchAt(s, p).Some?
    ensures w == WhitespaceRun(s, p + 3) && BlockMatchAt(s, p).value.end - 3 <= k
  {
    WhitespaceIsRun(s, p + 3, w);
    assert BlockClose(s, p + 8 + w).Some?;
  }

  // The two alternatives never both match at one position (`/` versus `{`), so the
  // order in which they are tried does not change the result.
  lemma AlternativesExclusive(s: string, p: nat)
    ensures LineMatchAt(s, p).None? || BlockMatchAt(s, p).None?
  {
    if HasAt(s, p, "//") {
      assert s[p] == s[p..p + 2][0] == '/';
      if p + 3 <= |s| {
        assert s[p..p + 3][0] == s[p];
      }
    }
  }

  // What one `exec` call returns when the search starts at `from` (the regex's `lastIndex`):
  // the match at the leftmost position at or after `from` where the pattern matches.
  function NextMatch(s: string, from: nat): (m: Option<Match>)
    ensures m.Some? ==> from <= m.value.start && MatchAt(s, m.value.start) == m
    ensures forall p :: from <= p < (if m.Some? then m.value.start else |s|) ==> MatchAt(s, p).None?
    decreases |s| - from
  {
    if from >= |s| then None
    else if MatchAt(s, from).Some? then MatchAt(s, from)
    else NextMatch(s, from + 1)
  }

  // All matches of the global regex from `from` on: each search resumes where the previous
  // match ended. Every match is at least MinMatchLength long, so the scan terminates.
  function Matches(s: string, from: nat): (ms: seq<Match>)
    ensures ms != [] ==> 7 * |ms| <= |s| - from  // each match is at least MinMatchLength (7) long
    decreases |s| - from
  {
    match NextMatch(s, from)
    case None => []
    case Some(m) => [m] + Matches(s, m.end)
  }

  // A search that finds `m` contributes `m`, and the scan resumes where `m` ends.
  lemma MatchesStep(s: string, from: nat, m: Match)
    requires NextMatch(s, from) == Some(m)
    ensures Matches(s, from) == [m] + Matches(s, m.end)
  {
  }

  // A search that finds nothing ends the scan.
  lemma MatchesDone(s: string, from: nat)
    requires NextMatch(s, from) == None
    ensures Matches(s, from) == []
  {
  }

  // Every reported match is a match of the pattern at its start, lies within the text at
  // or after `from`, and is at least MinMatchLength long.
  lemma {:induction false} MatchesAreMatches(s: string, from: nat)
    ensures forall m :: m in Matches(s, from) ==>
      from <= m.start && m.start + MinMatchLength <= m.end <= |s| && MatchAt(s, m.start) == Some(m)
    decreases |s| - from
  {
    match NextMatch(s, from)
    case None =>
    case Some(m) =>
      MatchesAreMatches(s, m.end);
  }

  // Matches in left-to-right order that do not overlap.
  ghost predicate Ordered(ms: seq<Match>) {
    forall i, j :: 0 <= i < j < |ms| ==> ms[i].end <= ms[j].start
  }

  // The matches come in left-to-right order and never overlap.
  lemma {:induction false} MatchesDoNotOverlap(s: string, from: nat)
    ensures Ordered(Matches(s, from))
    decreases |s| - from
  {
    match NextMatch(s, from)
    case None =>
    case Some(m) =>
      var rest := Matches(s, m.end);
      MatchesDoNotOverlap(s, m.end);
      MatchesAreMatches(s, m.end);
      OrderedCons(m, rest);
  }

  // Prepending a match that ends before every later match starts keeps the order.
  lemma OrderedCons(m: Match, rest: seq<Match>)
    requires Ordered(rest)
    requires forall r :: r in rest ==> m.end <= r.start
    ensures Ordered([m] + rest)
  {
    var ms := [m] + rest;
    forall i, j | 0 <= i < j < |ms|
      ensures ms[i].end <= ms[j].start
    {
      assert ms[j] == rest[j - 1];
      if i > 0 {
        assert ms[i] == rest[i - 1];
      }
    }
  }

  // No position where the pattern matches is skipped, unless a reported match covers it:
  // the scan is global and leftmost.
  lemma {:induction false} MatchesCoverEveryMarker(s: string, from: nat, p: nat) returns (i: nat)
    requires from <= p < |s| && MatchAt(s, p).Some?
    ensures i < |Matches(s, from)| && Matches(s, from)[i].start <= p < Matches(s, from)[i].end
    decreases |s| - from
  {
    var m := NextMatch(s, from).value;
    MatchesStep(s, from, m);
    if p < m.end {
      i := 0;
    } else {
      var k := MatchesCoverEveryMarker(s, m.end, p);
      assert Matches(s, from)[k + 1] == Matches(s, m.end)[k];
      i := k + 1;
    }
  }

  // The scan finds nothing exactly when the pattern matches at no position.
  lemma NoMatchesIffNoMarker(s: string)
    ensures Matches(s, 0) == [] <==> forall p :: 0 <= p < |s| ==> MatchAt(s, p).None?
  {
    MatchesAreMatches(s, 0);
    if Matches(s, 0) != [] {
      assert Matches(s, 0)[0] in Matches(s, 0);
    } else {
      forall p | 0 <= p < |s|
        ensures MatchAt(s, p).None?
      {
        if MatchAt(s, p).Some? {
          var i := MatchesCoverEveryMarker(s, 0, p);
        }
      }
    }
  }

  // Text that never contains `TODO:` yields no match.
  lemma NoTodoNoMatches(s: string)
    requires forall p :: 0 <= p < |s| ==> !HasAt(s, p, "TODO:")
    ensures Matches(s, 0) == []
  {
    forall p | 0 <= p < |s|
      ensures MatchAt(s, p).None?
    {
      if HasAt(s, p, "//") {
        var q := p + 2 + WhitespaceRun(s, p + 2);
        assert !HasAt(s, q, "TODO:");
      }
      if HasAt(s, p, "{/*") {
        var q := p + 3 + WhitespaceRun(s, p + 3);
        assert !HasAt(s, q, "TODO:");
      }
    }
    NoMatchesIffNoMarker(s);
  }

  // Every capture lies on a single line and within its match.
  lemma CaptureOnOneLine(s: string, p: nat)
    requires MatchAt(s, p).Some?
    ensures SingleLine(MatchAt(s, p).value.capture.text)
    ensures |MatchAt(s, p).value.capture.text| < MatchAt(s, p).value.end - p
  {
    var m := MatchAt(s, p).value;
    if LineMatchAt(s, p).Some? {
      LineMatchIsParse(s, p);
      var w := WhitespaceRun(s, p + 2);
      assert m.capture.text == s[p + 7 + w..m.end];
      forall k | 0 <= k < |m.capture.text| ensures !IsLineTerminator(m.capture.text[k]) {
        assert m.capture.text[k] == s[p + 7 + w + k];
      }
    } else {
      BlockMatchIsParse(s, p);
      var w := WhitespaceRun(s, p + 3);
      assert m.capture.text == s[p + 8 + w..m.end - 3];
      forall k | 0 <= k < |m.capture.text| ensures !IsLineTerminator(m.capture.text[k]) {
        assert m.capture.text[k] == s[p + 8 + w + k];
      }
    }
  }

  // `RegExp.prototype.exec` on the global pattern with the given `lastIndex`: tries each
  // position from `lastIndex` on and returns the first match (none past the end of the text).
  method Exec(s: string, lastIndex: nat) returns (m: Option<Match>)
    ensures m == NextMatch(s, lastIndex)
    ensures m.Some? ==> lastIndex <= m.value.start && m.value.start + MinMatchLength <= m.value.end <= |s|
  {
    var p := lastIndex;
    while p < |s|
      invariant lastIndex <= p
      invariant NextMatch(s, lastIndex) == NextMatch(s, p)
    {
      var here := MatchAt(s, p);
      if here.Some? {
        return here;
      }
      p := p + 1;
    }
    return None;
  }
}
