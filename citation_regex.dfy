/** The citation pattern of app.py,
      【(\d+):(\d+)†([^】]+)】\s*(\{.*?\})   with DOTALL,
    and the left-to-right, non-overlapping scan that `finditer` performs with it.

    For this pattern the backtracking engine has no choice to make: `\d+` must
    stop before ':' or '†', `[^】]+` must stop at the first '】', `\s*` must stop
    before '{', and the lazy `.*?\}` stops at the first '}'. So a match at a
    given position is unique, and MatchAt computes it directly. IsMatch is the
    declarative reading of the pattern; MatchAtSound and
    MatchAtComplete show that the two agree, and FindAllIsTheScan that FindAll is the only list of
    matches a leftmost, non-overlapping scan can produce. */
module CitationRegex {
  import opened Wrappers

  const OpenMark: char := '\U{3010}'   // 【
  const CloseMark: char := '\U{3011}'  // 】
  const Dagger: char := '\U{2020}'     // †

  /** `\d`, restricted to ASCII digits. */
  predicate IsDigit(c: char) {
    '0' <= c <= '9'
  }

  /** `\s` on a Python `str`: the characters for which `str.isspace()` holds. */
  predicate IsWhitespace(c: char) {
    || '\t' <= c <= '\r'
    || '\U{1C}' <= c <= '\U{1F}'
    || c == ' '
    || c == '\U{85}'
    || c == '\U{A0}'
    || c == '\U{1680}'
    || '\U{2000}' <= c <= '\U{200A}'
    || c == '\U{2028}'
    || c == '\U{2029}'
    || c == '\U{202F}'
    || c == '\U{205F}'
    || c == '\U{3000}'
  }

  predicate AllDigits(s: string) {
    forall k :: 0 <= k < |s| ==> IsDigit(s[k])
  }

  predicate AllWhitespace(s: string) {
    forall k :: 0 <= k < |s| ==> IsWhitespace(s[k])
  }

  /** A match: the four groups of the pattern and the span [start, end) of the
      whole match in the scanned text. */
  datatype Match = Match(msgIndex: string, searchIndex: string, source: string,
                         payload: string, start: nat, end: nat)

  /** Group 4: '{', then anything (newlines included), up to the first '}'. */
  predicate IsPayload(t: string) {
    && |t| >= 2
    && t[0] == '{'
    && t[|t| - 1] == '}'
    && '}' !in t[..|t| - 1]
  }

  /** Position just after the closing '】' of a match. */
  function MarkerEnd(m: Match): nat {
    m.start + |m.msgIndex| + |m.searchIndex| + |m.source| + 4
  }

  /** '【' g1 ':' g2 '†' g3 '】' at position i of s, with g1 and g2 non-empty
      digit strings and g3 a non-empty string without '】'. */
  ghost predicate IsMarker(s: string, i: nat, g1: string, g2: string, g3: string) {
    var e1 := i + 1 + |g1|;
    var e2 := e1 + 1 + |g2|;
    var e3 := e2 + 1 + |g3|;
    && e3 < |s|
    && s[i] == OpenMark
    && s[i + 1..e1] == g1 && s[e1] == ':'
    && s[e1 + 1..e2] == g2 && s[e2] == Dagger
    && s[e2 + 1..e3] == g3 && s[e3] == CloseMark
    && |g1| > 0 && AllDigits(g1)
    && |g2| > 0 && AllDigits(g2)
    && |g3| > 0 && CloseMark !in g3
  }

  /** The declarative reading of the pattern: s[m.start..m.end] is a marker,
      then whitespace, then the payload g4. */
  ghost predicate IsMatch(s: string, m: Match) {
    var p := MarkerEnd(m);
    var q := m.end - |m.payload|;
    && IsMarker(s, m.start, m.msgIndex, m.searchIndex, m.source)
    && p <= q
    && m.end <= |s|
    && AllWhitespace(s[p..q])
    && s[q..m.end] == m.payload
    && IsPayload(m.payload)
  }

  /** End of the longest run of digits in s that starts at j. */
  function DigitRunEnd(s: string, j: nat): (e: nat)
    requires j <= |s|
    ensures j <= e <= |s|
    ensures AllDigits(s[j..e])
    ensures e < |s| ==> !IsDigit(s[e])
    decreases |s| - j
  {
    if j < |s| && IsDigit(s[j]) then DigitRunEnd(s, j + 1) else j
  }

  /** End of the longest run of whitespace in s that starts at j. */
  function WhitespaceRunEnd(s: string, j: nat): (e: nat)
    requires j <= |s|
    ensures j <= e <= |s|
    ensures AllWhitespace(s[j..e])
    ensures e < |s| ==> !IsWhitespace(s[e])
    decreases |s| - j
  {
    if j < |s| && IsWhitespace(s[j]) then WhitespaceRunEnd(s, j + 1) else j
  }

  /** The first position at or after j that holds c, if any. */
  function FindChar(s: string, j: nat, c: char): (r: Option<nat>)
    requires j <= |s|
    ensures r.Some? ==> j <= r.value < |s| && s[r.value] == c && c !in s[j..r.value]
    ensures r.None? ==> c !in s[j..]
    decreases |s| - j
  {
    if j == |s| then None
    else if s[j] == c then Some(j)
    else FindChar(s, j + 1, c)
  }

  /** The marker that starts exactly at position i, if any: its three groups. */
  function MarkerAt(s: string, i: nat): (r: Option<(string, string, string)>)
    ensures r.Some? ==> i + |r.value.0| + |r.value.1| + |r.value.2| + 4 <= |s|
  {
    if i >= |s| || s[i] != OpenMark then None
    else
      var a := i + 1;
      var e1 := DigitRunEnd(s, a);
      if e1 == a || e1 == |s| || s[e1] != ':' then None
      else
        var b := e1 + 1;
        var e2 := DigitRunEnd(s, b);
        if e2 == b || e2 == |s| || s[e2] != Dagger then None
        else
          var c := e2 + 1;
          match FindChar(s, c, CloseMark)
          case None => None
          case Some(e3) =>
            if e3 == c then None
            else
              Some((s[a..e1], s[b..e2], s[c..e3]))
  }

  /** After a marker ending at p: skip whitespace, require '{', and take
      everything up to the first '}'. Gives the payload's start and end. */
  function PayloadAt(s: string, p: nat): (r: Option<(nat, nat)>)
    requires p <= |s|
    ensures r.Some? ==> p <= r.value.0 < r.value.1 <= |s|
  {
    var q := WhitespaceRunEnd(s, p);
    if q == |s| || s[q] != '{' then None
    else
      match FindChar(s, q + 1, '}')
      case None => None
      case Some(e4) =>
        Some((q, e4 + 1))
  }

  /** The match of the pattern that starts exactly at position i, if any. */
  function MatchAt(s: string, i: nat): (r: Option<Match>)
    ensures r.Some? ==> r.value.start == i < r.value.end <= |s|
  {
    var marker := MarkerAt(s, i);
    if marker.None? then None
    else
      var g := marker.value;
      var payload := PayloadAt(s, i + |g.0| + |g.1| + |g.2| + 4);
      if payload.None? then None
      else
        Some(Match(g.0, g.1, g.2, s[payload.value.0..payload.value.1], i, payload.value.1))
  }

  /** A matcher for a text of length n: at each position it finds nothing,
      or a non-empty match that starts there and ends within the text. */
  ghost predicate IsMatcher(n: nat, at: nat -> Option<Match>) {
    forall i: nat :: at(i).Some? ==> at(i).value.start == i < at(i).value.end <= n
  }

  /** The loop of `finditer`, for any matcher: try to match at pos; on success
      resume at the end of the match, otherwise at pos + 1. */
  function Scan(n: nat, at: nat -> Option<Match>, pos: nat): (ms: seq<Match>)
    requires pos <= n
    requires IsMatcher(n, at)
    ensures forall k :: 0 <= k < |ms| ==> at(ms[k].start) == Some(ms[k]) && pos <= ms[k].start
    ensures forall k :: 0 <= k < |ms| - 1 ==> ms[k].end <= ms[k + 1].start
    decreases n - pos
  {
    if pos == n then []
    else
      match at(pos)
      case Some(m) => [m] + Scan(n, at, m.end)
      case None => Scan(n, at, pos + 1)
  }

  /** The citation pattern as a matcher over s. */
  function Matcher(s: string): nat -> Option<Match> {
    (i: nat) => MatchAt(s, i)
  }

  lemma MatcherIsMatcher(s: string)
    ensures IsMatcher(|s|, Matcher(s))
  {
  }

  /** `finditer` of the citation pattern over s. */
  function FindAll(s: string): (ms: seq<Match>)
    ensures forall k :: 0 <= k < |ms| ==> ms[k].start < ms[k].end <= |s|
    ensures forall k :: 0 <= k < |ms| - 1 ==> ms[k].end <= ms[k + 1].start
  {
    MatcherIsMatcher(s);
    Scan(|s|, Matcher(s), 0)
  }

  /** The k-th gap of a scan from pos: the text before the first match,
      between two consecutive matches, or after the last one. */
  function GapStart(ms: seq<Match>, pos: nat, k: nat): nat
    requires k <= |ms|
  {
    if k == 0 then pos else ms[k - 1].end
  }

  function GapEnd(n: nat, ms: seq<Match>, k: nat): nat
    requires k <= |ms|
  {
    if k < |ms| then ms[k].start else n
  }

  /** What a leftmost, non-overlapping scan from pos must return: matches the
      matcher reports, each starting after the previous one ends, with no
      match starting anywhere in the gaps the scan stepped over. */
  ghost predicate IsScanOf(n: nat, at: nat -> Option<Match>, pos: nat, ms: seq<Match>) {
    && Reported(at, ms)
    && InOrder(pos, ms)
    && GapsEmpty(n, at, pos, ms)
  }

  /** Every match of ms is the one the matcher reports at its start. */
  ghost predicate Reported(at: nat -> Option<Match>, ms: seq<Match>) {
    forall k :: 0 <= k < |ms| ==> at(ms[k].start) == Some(ms[k])
  }

  /** Every match of ms starts at or after the start of its gap. */
  predicate InOrder(pos: nat, ms: seq<Match>) {
    forall k :: 0 <= k < |ms| ==> GapStart(ms, pos, k) <= ms[k].start
  }

  /** Nothing matches at any position of a gap. */
  ghost predicate GapsEmpty(n: nat, at: nat -> Option<Match>, pos: nat, ms: seq<Match>) {
    forall k, p :: 0 <= k <= |ms| && GapStart(ms, pos, k) <= p < GapEnd(n, ms, k) ==> at(p).None?
  }

  /** IsScanOf for the citation pattern over the whole of s. */
  ghost predicate IsScan(s: string, ms: seq<Match>) {
    IsScanOf(|s|, Matcher(s), 0, ms)
  }

  lemma {:induction false} DigitRunEndIs(s: string, j: nat, e: nat)
    requires j <= e <= |s|
    requires AllDigits(s[j..e])
    requires e < |s| ==> !IsDigit(s[e])
    ensures DigitRunEnd(s, j) == e
  {
    var r := DigitRunEnd(s, j);
    forall k | j <= k < e ensures IsDigit(s[k]) { assert s[j..e][k - j] == s[k]; }
    forall k | j <= k < r ensures IsDigit(s[k]) { assert s[j..r][k - j] == s[k]; }
  }

  lemma {:induction false} WhitespaceRunEndIs(s: string, j: nat, e: nat)
    requires j <= e <= |s|
    requires AllWhitespace(s[j..e])
    requires e < |s| ==> !IsWhitespace(s[e])
    ensures WhitespaceRunEnd(s, j) == e
  {
    var r := WhitespaceRunEnd(s, j);
    forall k | j <= k < e ensures IsWhitespace(s[k]) { assert s[j..e][k - j] == s[k]; }
    forall k | j <= k < r ensures IsWhitespace(s[k]) { assert s[j..r][k - j] == s[k]; }
  }

  lemma {:induction false} FindCharIs(s: string, j: nat, c: char, e: nat)
    requires j <= e < |s|
    requires s[e] == c && c !in s[j..e]
    ensures FindChar(s, j, c) == Some(e)
  {
    var r := FindChar(s, j, c);
    forall k | j <= k < e ensures s[k] != c { assert s[j..e][k - j] == s[k]; }
    assert s[j..][e - j] == s[e];
    if r.Some? {
      forall k | j <= k < r.value ensures s[k] != c { assert s[j..r.value][k - j] == s[k]; }
    }
  }

  /** A match is never empty: it spans at least the brackets, the two
      separators, one character of each group and the two braces. */
  lemma {:induction false} MatchIsNonEmpty(s: string, m: Match)
    requires IsMatch(s, m)
    ensures m.start + 9 <= m.end
  {
  }

  /** A marker is the bracketed text '【' g1 ':' g2 '†' g3 '】'. */
  lemma MarkerText(s: string, i: nat, g1: string, g2: string, g3: string)
    requires IsMarker(s, i, g1, g2, g3)
    ensures i + |g1| + |g2| + |g3| + 4 <= |s|
    ensures s[i..i + |g1| + |g2| + |g3| + 4] == [OpenMark] + g1 + [':'] + g2 + [Dagger] + g3 + [CloseMark]
  {
    var e1 := i + 1 + |g1|;
    var e2 := e1 + 1 + |g2|;
    var e3 := e2 + 1 + |g3|;
    assert s[i..e1] == [OpenMark] + g1 by { assert s[i..e1] == [s[i]] + s[i + 1..e1]; }
    assert s[i..e1 + 1] == s[i..e1] + [':'];
    assert s[i..e2] == s[i..e1 + 1] + g2;
    assert s[i..e2 + 1] == s[i..e2] + [Dagger];
    assert s[i..e3] == s[i..e2 + 1] + g3;
    assert s[i..e3 + 1] == s[i..e3] + [CloseMark];
  }

  /** A marker at a position is unique: its groups are determined by the text. */
  lemma {:induction false} MarkerAtComplete(s: string, i: nat, g1: string, g2: string, g3: string)
    requires IsMarker(s, i, g1, g2, g3)
    ensures MarkerAt(s, i) == Some((g1, g2, g3))
  {
    var e1 := i + 1 + |g1|;
    var e2 := e1 + 1 + |g2|;
    var e3 := e2 + 1 + |g3|;
    DigitRunEndIs(s, i + 1, e1);
    DigitRunEndIs(s, e1 + 1, e2);
    FindCharIs(s, e2 + 1, CloseMark, e3);
    assert MarkerAt(s, i) == Some((s[i + 1..e1], s[e1 + 1..e2], s[e2 + 1..e3]));
  }

  /** The payload after a marker is unique: whitespace, then '{' up to the
      first '}'. */
  lemma {:induction false} PayloadAtComplete(s: string, p: nat, q: nat, e: nat)
    requires p <= q < e <= |s|
    requires AllWhitespace(s[p..q]) && IsPayload(s[q..e])
    ensures PayloadAt(s, p) == Some((q, e))
  {
    var t := s[q..e];
    assert s[q] == t[0] == '{';
    WhitespaceRunEndIs(s, p, q);
    assert s[e - 1] == t[|t| - 1] == '}';
    assert t[..|t| - 1] == s[q..e - 1];
    forall k | q + 1 <= k < e - 1 ensures s[k] != '}' {
      assert s[k] == s[q..e - 1][k - q];
    }
    FindCharIs(s, q + 1, '}', e - 1);
  }

  /** MatchAt assembles the match from the marker and the payload after it. */
  lemma MatchAtOfParts(s: string, m: Match, q: nat)
    requires MarkerAt(s, m.start) == Some((m.msgIndex, m.searchIndex, m.source))
    requires MarkerEnd(m) <= q <= m.end <= |s|
    requires PayloadAt(s, MarkerEnd(m)) == Some((q, m.end))
    requires m.payload == s[q..m.end]
    ensures MatchAt(s, m.start) == Some(m)
  {
  }

  /** Every match the declarative reading allows is the one MatchAt finds:
      the match at a position is unique. */
  lemma {:induction false} MatchAtComplete(s: string, m: Match)
    requires IsMatch(s, m)
    ensures MatchAt(s, m.start) == Some(m)
  {
    MarkerAtComplete(s, m.start, m.msgIndex, m.searchIndex, m.source);
    var q := m.end - |m.payload|;
    PayloadAtComplete(s, MarkerEnd(m), q, m.end);
    MatchAtOfParts(s, m, q);
  }

  /** What MarkerAt finds is a marker. */
  lemma {:induction false} MarkerAtSound(s: string, i: nat)
    requires MarkerAt(s, i).Some?
    ensures var g := MarkerAt(s, i).value; IsMarker(s, i, g.0, g.1, g.2)
  {
  }

  /** What PayloadAt finds is whitespace followed by a payload. */
  lemma {:induction false} PayloadAtSound(s: string, p: nat)
    requires p <= |s|
    requires PayloadAt(s, p).Some?
    ensures var r := PayloadAt(s, p).value; AllWhitespace(s[p..r.0]) && IsPayload(s[r.0..r.1])
  {
    var r := PayloadAt(s, p).value;
    assert s[r.0..r.1][..r.1 - 1 - r.0] == s[r.0..r.1 - 1];
  }

  /** What MatchAt finds is a match of the pattern. */
  lemma {:induction false} MatchAtSound(s: string, i: nat)
    requires MatchAt(s, i).Some?
    ensures IsMatch(s, MatchAt(s, i).value)
  {
    var g, q, e := MatchAtParts(s, i);
    MarkerAtSound(s, i);
    PayloadAtSound(s, i + |g.0| + |g.1| + |g.2| + 4);
    PartsAreMatch(s, MatchAt(s, i).value, q);
  }

  /** A match found by MatchAt is the marker MarkerAt finds at i and the
      payload PayloadAt finds after it. */
  lemma MatchAtParts(s: string, i: nat) returns (g: (string, string, string), q: nat, e: nat)
    requires MatchAt(s, i).Some?
    ensures MarkerAt(s, i) == Some(g)
    ensures i + |g.0| + |g.1| + |g.2| + 4 <= q <= e <= |s|
    ensures PayloadAt(s, i + |g.0| + |g.1| + |g.2| + 4) == Some((q, e))
    ensures MatchAt(s, i) == Some(Match(g.0, g.1, g.2, s[q..e], i, e))
  {
    g := MarkerAt(s, i).value;
    var r := PayloadAt(s, i + |g.0| + |g.1| + |g.2| + 4).value;
    q, e := r.0, r.1;
  }

  /** A marker, then whitespace, then a payload from q on, form a match. */
  lemma PartsAreMatch(s: string, m: Match, q: nat)
    requires IsMarker(s, m.start, m.msgIndex, m.searchIndex, m.source)
    requires MarkerEnd(m) <= q <= m.end <= |s|
    requires AllWhitespace(s[MarkerEnd(m)..q]) && m.payload == s[q..m.end] && IsPayload(m.payload)
    ensures IsMatch(s, m)
  {
    assert m.end - |m.payload| == q;
  }

  /** MatchAt(s, i) finds m exactly when m is a match of the pattern at i. */
  lemma {:induction false} MatchAtSpec(s: string, i: nat, m: Match)
    ensures MatchAt(s, i) == Some(m) <==> IsMatch(s, m) && m.start == i
  {
    if IsMatch(s, m) && m.start == i {
      MatchAtComplete(s, m);
    }
    if MatchAt(s, i) == Some(m) {
      MatchAtSound(s, i);
    }
  }

  /** If the text after a well-formed marker, once whitespace is skipped,
      does not begin with '{', nothing matches at that marker. */
  lemma {:induction false} TextBeforePayloadBlocksMatch(s: string, i: nat, g1: string, g2: string, g3: string)
    requires IsMarker(s, i, g1, g2, g3)
    requires var q := WhitespaceRunEnd(s, i + |g1| + |g2| + |g3| + 4); q < |s| && s[q] != '{'
    ensures MatchAt(s, i) == None
  {
    MarkerAtComplete(s, i, g1, g2, g3);
  }

  /** FindAll is a leftmost, non-overlapping scan of s, and the only one:
      any list of matches with the properties of IsScan is FindAll's. */
  lemma {:induction false} FindAllIsTheScan(s: string, ms: seq<Match>)
    ensures IsScan(s, FindAll(s))
    ensures IsScan(s, ms) ==> ms == FindAll(s)
  {
    MatcherIsMatcher(s);
    ScanIsScan(|s|, Matcher(s), 0);
    if IsScan(s, ms) {
      ScanIsUnique(|s|, Matcher(s), 0, ms);
    }
  }

  /** Every match FindAll reports is a match of the pattern. */
  lemma FindAllFindsMatches(s: string, m: Match)
    requires m in FindAll(s)
    ensures IsMatch(s, m)
  {
    FindAllIsTheScan(s, []);
    var k :| 0 <= k < |FindAll(s)| && FindAll(s)[k] == m;
    assert Matcher(s)(m.start) == Some(m);
    MatchAtSound(s, m.start);
  }

  lemma {:induction false} ScanIsScan(n: nat, at: nat -> Option<Match>, pos: nat)
    requires pos <= n
    requires IsMatcher(n, at)
    ensures IsScanOf(n, at, pos, Scan(n, at, pos))
    decreases n - pos
  {
    if pos < n {
      match at(pos)
      case Some(m) =>
        ScanIsScan(n, at, m.end);
        ScanStepMatch(n, at, pos, m, Scan(n, at, m.end));
      case None =>
        ScanIsScan(n, at, pos + 1);
        ScanStepNoMatch(n, at, pos, Scan(n, at, pos + 1));
    }
  }

  /** A match at pos followed by a scan from its end is a scan from pos. */
  lemma ScanStepMatch(n: nat, at: nat -> Option<Match>, pos: nat, m: Match, rest: seq<Match>)
    requires at(pos) == Some(m) && m.start == pos
    requires IsScanOf(n, at, m.end, rest)
    ensures IsScanOf(n, at, pos, [m] + rest)
  {
    StepReported(at, pos, m, rest);
    StepInOrder(pos, m, rest);
    StepGapsEmpty(n, at, pos, m, rest);
  }

  /** The three parts of ScanStepMatch, one conjunct of IsScanOf each. */
  lemma StepReported(at: nat -> Option<Match>, pos: nat, m: Match, rest: seq<Match>)
    requires at(pos) == Some(m) && m.start == pos
    requires Reported(at, rest)
    ensures Reported(at, [m] + rest)
  {
    var ms := [m] + rest;
    forall k | 0 <= k < |ms| ensures at(ms[k].start) == Some(ms[k]) {
      if k > 0 {
        assert ms[k] == rest[k - 1];
      }
    }
  }

  lemma StepInOrder(pos: nat, m: Match, rest: seq<Match>)
    requires m.start == pos
    requires InOrder(m.end, rest)
    ensures InOrder(pos, [m] + rest)
  {
    var ms := [m] + rest;
    forall k | 0 <= k < |ms| ensures GapStart(ms, pos, k) <= ms[k].start {
      if k > 0 {
        assert ms[k] == rest[k - 1];
        assert GapStart(ms, pos, k) == GapStart(rest, m.end, k - 1);
      }
    }
  }

  lemma StepGapsEmpty(n: nat, at: nat -> Option<Match>, pos: nat, m: Match, rest: seq<Match>)
    requires m.start == pos
    requires GapsEmpty(n, at, m.end, rest)
    ensures GapsEmpty(n, at, pos, [m] + rest)
  {
    var ms := [m] + rest;
    forall k, p | 0 <= k <= |ms| && GapStart(ms, pos, k) <= p < GapEnd(n, ms, k)
      ensures at(p).None?
    {
      assert k != 0;
      assert GapStart(ms, pos, k) == GapStart(rest, m.end, k - 1);
      assert GapEnd(n, ms, k) == GapEnd(n, rest, k - 1);
    }
  }

  /** Where nothing matches at pos, a scan from pos + 1 is a scan from pos. */
  lemma ScanStepNoMatch(n: nat, at: nat -> Option<Match>, pos: nat, rest: seq<Match>)
    requires at(pos).None?
    requires IsScanOf(n, at, pos + 1, rest)
    ensures IsScanOf(n, at, pos, rest)
  {
    forall k | 1 <= k <= |rest|
      ensures GapStart(rest, pos, k) == GapStart(rest, pos + 1, k)
    {
    }
  }

  lemma {:induction false} ScanIsUnique(n: nat, at: nat -> Option<Match>, pos: nat, ms: seq<Match>)
    requires pos <= n
    requires IsMatcher(n, at)
    requires IsScanOf(n, at, pos, ms)
    ensures ms == Scan(n, at, pos)
    decreases n - pos, 1
  {
    if pos == n {
      if |ms| > 0 {
        FirstMatchBounds(n, at, pos, ms);
      }
    } else if at(pos).Some? {
      UniqueAfterMatch(n, at, pos, ms);
    } else {
      UniqueAfterNoMatch(n, at, pos, ms);
    }
  }

  /** The first match of a scan from pos lies between pos and n. */
  lemma FirstMatchBounds(n: nat, at: nat -> Option<Match>, pos: nat, ms: seq<Match>)
    requires |ms| > 0
    requires IsMatcher(n, at)
    requires IsScanOf(n, at, pos, ms)
    ensures pos <= ms[0].start < ms[0].end <= n
  {
    assert at(ms[0].start) == Some(ms[0]);
    assert GapStart(ms, pos, 0) <= ms[0].start;
  }

  /** ScanIsUnique where a match starts at pos. */
  lemma {:induction false} UniqueAfterMatch(n: nat, at: nat -> Option<Match>, pos: nat, ms: seq<Match>)
    requires pos < n && at(pos).Some?
    requires IsMatcher(n, at)
    requires IsScanOf(n, at, pos, ms)
    ensures ms == Scan(n, at, pos)
    decreases n - pos, 0
  {
    var m := at(pos).value;
    assert Scan(n, at, pos) == [m] + Scan(n, at, m.end);
    assert GapStart(ms, pos, 0) == pos;
    assert ms[0] == m;
    UnstepMatch(n, at, pos, ms);
    ScanIsUnique(n, at, m.end, ms[1..]);
    assert ms == [m] + ms[1..];
  }

  /** ScanIsUnique where nothing matches at pos. */
  lemma {:induction false} UniqueAfterNoMatch(n: nat, at: nat -> Option<Match>, pos: nat, ms: seq<Match>)
    requires pos < n && at(pos).None?
    requires IsMatcher(n, at)
    requires IsScanOf(n, at, pos, ms)
    ensures ms == Scan(n, at, pos)
    decreases n - pos, 0
  {
    assert Scan(n, at, pos) == Scan(n, at, pos + 1);
    assert |ms| > 0 ==> ms[0].start != pos;
    UnstepNoMatch(n, at, pos, ms);
    ScanIsUnique(n, at, pos + 1, ms);
  }

  /** A scan from pos whose first match starts at pos continues, after that
      match, as a scan from its end. */
  lemma UnstepMatch(n: nat, at: nat -> Option<Match>, pos: nat, ms: seq<Match>)
    requires |ms| > 0 && ms[0].start == pos
    requires IsScanOf(n, at, pos, ms)
    ensures IsScanOf(n, at, ms[0].end, ms[1..])
  {
    var rest := ms[1..];
    assert Reported(at, rest) by {
      forall k | 0 <= k < |rest| ensures at(rest[k].start) == Some(rest[k]) {
        assert rest[k] == ms[k + 1];
      }
    }
    assert InOrder(ms[0].end, rest) by {
      forall k | 0 <= k < |rest| ensures GapStart(rest, ms[0].end, k) <= rest[k].start {
        assert rest[k] == ms[k + 1];
        assert GapStart(rest, ms[0].end, k) == GapStart(ms, pos, k + 1);
      }
    }
    assert GapsEmpty(n, at, ms[0].end, rest) by {
      forall k, p | 0 <= k <= |rest| && GapStart(rest, ms[0].end, k) <= p < GapEnd(n, rest, k)
        ensures at(p).None?
      {
        assert GapStart(rest, ms[0].end, k) == GapStart(ms, pos, k + 1);
        assert GapEnd(n, rest, k) == GapEnd(n, ms, k + 1);
      }
    }
  }

  /** A scan from pos whose first match does not start at pos is a scan from
      pos + 1. */
  lemma UnstepNoMatch(n: nat, at: nat -> Option<Match>, pos: nat, ms: seq<Match>)
    requires |ms| > 0 ==> ms[0].start != pos
    requires IsScanOf(n, at, pos, ms)
    ensures IsScanOf(n, at, pos + 1, ms)
  {
    assert InOrder(pos + 1, ms) by {
      forall k | 0 <= k < |ms| ensures GapStart(ms, pos + 1, k) <= ms[k].start {
        assert GapStart(ms, pos, k) <= ms[k].start;
      }
    }
    assert GapsEmpty(n, at, pos + 1, ms) by {
      forall k, p | 0 <= k <= |ms| && GapStart(ms, pos + 1, k) <= p < GapEnd(n, ms, k)
        ensures at(p).None?
      {
        assert GapStart(ms, pos, k) <= p;
      }
    }
  }

  /** Every match begins at a '【': text without one yields no match. */
  lemma {:induction false} NoOpenMarkNoMatches(s: string)
    ensures OpenMark !in s ==> FindAll(s) == []
  {
    var ms := FindAll(s);
    if ms != [] {
      FindAllFindsMatches(s, ms[0]);
      assert s[ms[0].start] == OpenMark;
    }
  }
}
