/** Worked examples of `extract_mcp_chunk_map`: concrete tool outputs, the
    matches the scan finds in them and the map that results, for any JSON
    parser that gives the payloads the values `json.loads` gives them. */
module CitationExamples {
  import opened Wrappers
  import opened CitationRegex
  import opened ChunkMap

  /** A position that does not hold '【' starts no match. */
  lemma NoMatchWithoutOpenMark(s: string, p: nat)
    requires p < |s| && s[p] != OpenMark
    ensures MatchAt(s, p) == None
  {
  }

  /** Matches MatchAt finds, in order and apart, with no '【' in the text
      between them, are what FindAll finds. */
  lemma FindAllOf(s: string, ms: seq<Match>)
    requires forall k :: 0 <= k < |ms| ==> MatchAt(s, ms[k].start) == Some(ms[k])
    requires forall k :: 0 <= k < |ms| ==> GapStart(ms, 0, k) <= ms[k].start
    requires forall k :: 0 <= k <= |ms| ==> GapStart(ms, 0, k) <= GapEnd(|s|, ms, k) <= |s|
    requires forall k :: 0 <= k <= |ms| ==> OpenMark !in s[GapStart(ms, 0, k)..GapEnd(|s|, ms, k)]
    ensures FindAll(s) == ms
  {
    MatcherReports(s, ms);
    GapsWithoutOpenMark(s, ms);
    assert IsScan(s, ms);
    FindAllIsTheScan(s, ms);
  }

  /** Matches MatchAt finds are what the matcher of s reports. */
  lemma MatcherReports(s: string, ms: seq<Match>)
    requires forall k :: 0 <= k < |ms| ==> MatchAt(s, ms[k].start) == Some(ms[k])
    ensures Reported(Matcher(s), ms)
  {
    forall k | 0 <= k < |ms| ensures Matcher(s)(ms[k].start) == Some(ms[k]) {
      assert Matcher(s)(ms[k].start) == MatchAt(s, ms[k].start);
    }
  }

  /** Gaps without '【' hold no match. */
  lemma GapsWithoutOpenMark(s: string, ms: seq<Match>)
    requires forall k :: 0 <= k <= |ms| ==> GapStart(ms, 0, k) <= GapEnd(|s|, ms, k) <= |s|
    requires forall k :: 0 <= k <= |ms| ==> OpenMark !in s[GapStart(ms, 0, k)..GapEnd(|s|, ms, k)]
    ensures GapsEmpty(|s|, Matcher(s), 0, ms)
  {
    forall k, p | 0 <= k <= |ms| && GapStart(ms, 0, k) <= p < GapEnd(|s|, ms, k)
      ensures Matcher(s)(p).None?
    {
      var a, b := GapStart(ms, 0, k), GapEnd(|s|, ms, k);
      assert s[a..b][p - a] == s[p];
      NoMatchWithoutOpenMark(s, p);
      assert Matcher(s)(p) == MatchAt(s, p);
    }
  }

  /** The bracketed marker '【' g1 ':' g2 '†' g3 '】'. */
  function Marker(g1: string, g2: string, g3: string): string {
    [OpenMark] + g1 + [':'] + g2 + [Dagger] + g3 + [CloseMark]
  }

  /** The pieces of a marker, read back by position. */
  lemma MarkerParts(g1: string, g2: string, g3: string)
    ensures var t := Marker(g1, g2, g3);
            && |t| == |g1| + |g2| + |g3| + 4
            && t[0] == OpenMark && t[1 + |g1|] == ':'
            && t[2 + |g1| + |g2|] == Dagger && t[3 + |g1| + |g2| + |g3|] == CloseMark
            && t[1..1 + |g1|] == g1
            && t[2 + |g1|..2 + |g1| + |g2|] == g2
            && t[3 + |g1| + |g2|..3 + |g1| + |g2| + |g3|] == g3
  {
    var t := Marker(g1, g2, g3);
    assert t == [OpenMark] + g1 + [':'] + g2 + [Dagger] + g3 + [CloseMark];
  }

  /** A piece of a text placed at i in s is the same piece of s, shifted by i. */
  lemma PlacedSlice(s: string, i: nat, t: string, a: nat, b: nat)
    requires i + |t| <= |s| && s[i..i + |t|] == t && a <= b <= |t|
    ensures s[i + a..i + b] == t[a..b]
  {
    forall j | 0 <= j < b - a ensures s[i + a..i + b][j] == t[a..b][j] {
      assert t[a + j] == s[i..i + |t|][a + j];
    }
  }

  /** A character of a text placed at i in s is the same character of s. */
  lemma PlacedChar(s: string, i: nat, t: string, a: nat)
    requires i + |t| <= |s| && s[i..i + |t|] == t && a < |t|
    ensures s[i + a] == t[a]
  {
    assert t[a] == s[i..i + |t|][a];
  }

  /** The text of a well-formed marker at i is a marker there. */
  lemma MarkerIsMarker(s: string, i: nat, g1: string, g2: string, g3: string)
    requires |g1| > 0 && AllDigits(g1) && |g2| > 0 && AllDigits(g2) && |g3| > 0 && CloseMark !in g3
    requires i + |Marker(g1, g2, g3)| <= |s| && s[i..i + |Marker(g1, g2, g3)|] == Marker(g1, g2, g3)
    ensures IsMarker(s, i, g1, g2, g3)
  {
    MarkerParts(g1, g2, g3);
    PlacedMarker(s, i, Marker(g1, g2, g3), g1, g2, g3);
  }

  /** MarkerIsMarker for a text t known only by the pieces MarkerParts gives. */
  lemma PlacedMarker(s: string, i: nat, t: string, g1: string, g2: string, g3: string)
    requires |g1| > 0 && AllDigits(g1) && |g2| > 0 && AllDigits(g2) && |g3| > 0 && CloseMark !in g3
    requires i + |t| <= |s| && s[i..i + |t|] == t
    requires |t| == |g1| + |g2| + |g3| + 4
    requires t[0] == OpenMark && t[1 + |g1|] == ':'
    requires t[2 + |g1| + |g2|] == Dagger && t[3 + |g1| + |g2| + |g3|] == CloseMark
    requires t[1..1 + |g1|] == g1
    requires t[2 + |g1|..2 + |g1| + |g2|] == g2
    requires t[3 + |g1| + |g2|..3 + |g1| + |g2| + |g3|] == g3
    ensures IsMarker(s, i, g1, g2, g3)
  {
    PlacedSlice(s, i, t, 1, 1 + |g1|);
    PlacedSlice(s, i, t, 2 + |g1|, 2 + |g1| + |g2|);
    PlacedSlice(s, i, t, 3 + |g1| + |g2|, 3 + |g1| + |g2| + |g3|);
    PlacedChar(s, i, t, 0);
    PlacedChar(s, i, t, 1 + |g1|);
    PlacedChar(s, i, t, 2 + |g1| + |g2|);
    PlacedChar(s, i, t, 3 + |g1| + |g2| + |g3|);
  }

  /** A well-formed marker followed by whitespace and a payload is the
      match MatchAt finds at the start of the text. */
  lemma LoneMatch(g1: string, g2: string, g3: string, ws: string, payload: string)
    requires |g1| > 0 && AllDigits(g1) && |g2| > 0 && AllDigits(g2) && |g3| > 0 && CloseMark !in g3
    requires AllWhitespace(ws) && IsPayload(payload)
    ensures var s := Marker(g1, g2, g3) + ws + payload;
            MatchAt(s, 0) == Some(Match(g1, g2, g3, payload, 0, |s|))
  {
    var t := Marker(g1, g2, g3);
    var s := t + ws + payload;
    MarkerParts(g1, g2, g3);
    ThreePieces(t, ws, payload);
    MarkerIsMarker(s, 0, g1, g2, g3);
    MatchOfPieces(s, 0, g1, g2, g3, ws, payload, |s|);
  }

  /** The pieces of a three-part concatenation, read back by position. */
  lemma ThreePieces(a: string, b: string, c: string)
    ensures var s := a + b + c;
            && |s| == |a| + |b| + |c|
            && s[0..|a|] == a
            && s[|a|..|a| + |b|] == b
            && s[|a| + |b|..|a| + |b| + |c|] == c
  {
    var s := a + b + c;
    assert s == a + (b + c);
    assert s[|a|..] == b + c;
  }

  /** A marker at i followed by whitespace and a payload is the match
      MatchAt finds at i. */
  lemma MatchOfPieces(s: string, i: nat, g1: string, g2: string, g3: string, ws: string, payload: string, end: nat)
    requires IsMarker(s, i, g1, g2, g3)
    requires AllWhitespace(ws) && IsPayload(payload)
    requires end == i + |g1| + |g2| + |g3| + 4 + |ws| + |payload| <= |s|
    requires s[i + |g1| + |g2| + |g3| + 4..end - |payload|] == ws
    requires s[end - |payload|..end] == payload
    ensures MatchAt(s, i) == Some(Match(g1, g2, g3, payload, i, end))
  {
    var m := Match(g1, g2, g3, payload, i, end);
    assert MarkerEnd(m) == i + |g1| + |g2| + |g3| + 4;
    assert IsMatch(s, m);
    MatchAtComplete(s, m);
  }

  /** A text that is one match is scanned as that match. */
  lemma WholeTextMatch(s: string, m: Match)
    requires MatchAt(s, 0) == Some(m) && m.end == |s|
    ensures FindAll(s) == [m]
  {
    FindAllOf(s, [m]);
  }

  /** A marker, whitespace and a payload, and nothing else, are one match,
      whatever the payload holds: line breaks, and even markers of its own,
      which the scan never tries because it resumes after the payload. */
  lemma SingleCitationScan(g1: string, g2: string, g3: string, ws: string, payload: string)
    requires |g1| > 0 && AllDigits(g1) && |g2| > 0 && AllDigits(g2) && |g3| > 0 && CloseMark !in g3
    requires AllWhitespace(ws) && IsPayload(payload)
    ensures FindAll(Marker(g1, g2, g3) + ws + payload)
            == [Match(g1, g2, g3, payload, 0, |Marker(g1, g2, g3) + ws + payload|)]
  {
    var s := Marker(g1, g2, g3) + ws + payload;
    LoneMatch(g1, g2, g3, ws, payload);
    WholeTextMatch(s, Match(g1, g2, g3, payload, 0, |s|));
  }

  /** An "mcp_call" item whose output holds one match, whose payload parses,
      gives exactly one entry. */
  lemma SingleMatchItem(item: OutputItem, m: Match, parse: JsonParser)
    requires IsMcpCall(item) && FindAll(OutputString(item)) == [m] && parse(m.payload).Some?
    ensures ChunkMapOf([item], parse) == map[CitationKey(m) := RecordOf(parse(m.payload).value)]
  {
    assert ChunkMapOf([item], parse) == StoreAll(map[], [m], parse) by {
      assert [item][..0] == [];
    }
    StoreOne(m, parse);
  }

  /** Storing a single match whose payload parses gives one entry. */
  lemma StoreOne(m: Match, parse: JsonParser)
    requires parse(m.payload).Some?
    ensures StoreAll(map[], [m], parse) == map[CitationKey(m) := RecordOf(parse(m.payload).value)]
  {
    assert [m][..0] == [];
  }

  /** An "mcp_call" output holding one citation, whose payload parses,
      gives exactly one entry: the marker's key and the payload's record. */
  lemma SingleCitation(g1: string, g2: string, g3: string, ws: string, payload: string, parse: JsonParser)
    requires |g1| > 0 && AllDigits(g1) && |g2| > 0 && AllDigits(g2) && |g3| > 0 && CloseMark !in g3
    requires AllWhitespace(ws) && IsPayload(payload) && parse(payload).Some?
    ensures ChunkMapOf([OutputItem(Some(McpCallType), Some(Marker(g1, g2, g3) + ws + payload))], parse)
            == map[g1 + [':'] + g2 + [Dagger] + g3 := RecordOf(parse(payload).value)]
  {
    var s := Marker(g1, g2, g3) + ws + payload;
    SingleCitationScan(g1, g2, g3, ws, payload);
    SingleMatchItem(OutputItem(Some(McpCallType), Some(s)), Match(g1, g2, g3, payload, 0, |s|), parse);
  }

  /** A payload with both fields, and the object `json.loads` gives for it. */
  const PolicyPayload: string := "{" + "\"title\": " + "\"Policy Doc\", " + "\"chunk\": " + "\"Section 3...\"" + "}"
  const PolicyData: JsonObject := map["title" := JString("Policy Doc"), "chunk" := JString("Section 3...")]

  /** The payload is '{' up to its only '}'. */
  lemma PolicyPayloadIsPayload()
    ensures IsPayload(PolicyPayload)
  {
  }

  /** PolicyExample with the key still in its pieces. */
  lemma PolicyCitation(output: string, parse: JsonParser)
    requires output == Marker("4", "0", "policy.pdf") + PolicyPayload
    requires parse(PolicyPayload) == Some(PolicyData)
    ensures ChunkMapOf([OutputItem(Some("mcp_call"), Some(output))], parse)
            == map["4" + [':'] + "0" + [Dagger] + "policy.pdf" := RecordOf(PolicyData)]
  {
    PolicyPayloadIsPayload();
    assert output == Marker("4", "0", "policy.pdf") + "" + PolicyPayload;
    SingleCitation("4", "0", "policy.pdf", "", PolicyPayload, parse);
  }

  /** The key's pieces spell "4:0†policy.pdf", and RecordOf keeps both fields. */
  lemma PolicyEntry(r: CitationMap)
    requires r == map["4" + [':'] + "0" + [Dagger] + "policy.pdf" := RecordOf(PolicyData)]
    ensures r == map["4:0†policy.pdf" := CitationRecord(JString("Policy Doc"), JString("Section 3..."))]
  {
    assert "4" + [':'] + "0" + [Dagger] + "policy.pdf" == "4:0†policy.pdf";
  }

  /** Marker and payload side by side: one entry, keyed by the marker's text,
      with the payload's title and chunk. */
  lemma PolicyExample(output: string, parse: JsonParser)
    requires output == Marker("4", "0", "policy.pdf") + PolicyPayload
    requires parse(PolicyPayload) == Some(PolicyData)
    ensures ChunkMapOf([OutputItem(Some("mcp_call"), Some(output))], parse)
            == map["4:0†policy.pdf" := CitationRecord(JString("Policy Doc"), JString("Section 3..."))]
  {
    PolicyCitation(output, parse);
    PolicyEntry(ChunkMapOf([OutputItem(Some("mcp_call"), Some(output))], parse));
  }

  /** A payload without "title", and the object `json.loads` gives for it. */
  const TextOnlyPayload: string := "{\"chunk\": " + "\"text only\"}"
  const TextOnlyData: JsonObject := map["chunk" := JString("text only")]

  /** TextOnlyExample with the key still in its pieces. */
  lemma TextOnlyCitation(output: string, parse: JsonParser)
    requires output == Marker("1", "2", "doc") + TextOnlyPayload
    requires parse(TextOnlyPayload) == Some(TextOnlyData)
    ensures ChunkMapOf([OutputItem(Some("mcp_call"), Some(output))], parse)
            == map["1" + [':'] + "2" + [Dagger] + "doc" := RecordOf(TextOnlyData)]
  {
    assert IsPayload(TextOnlyPayload);
    assert output == Marker("1", "2", "doc") + "" + TextOnlyPayload;
    SingleCitation("1", "2", "doc", "", TextOnlyPayload, parse);
  }

  /** The key's pieces spell "1:2†doc", and RecordOf fills in the title. */
  lemma TextOnlyEntry(r: CitationMap)
    requires r == map["1" + [':'] + "2" + [Dagger] + "doc" := RecordOf(TextOnlyData)]
    ensures r == map["1:2†doc" := CitationRecord(JString("(no title)"), JString("text only"))]
  {
    assert "1" + [':'] + "2" + [Dagger] + "doc" == "1:2†doc";
  }

  /** A payload without "title": the record's title is "(no title)". */
  lemma TextOnlyExample(output: string, parse: JsonParser)
    requires output == Marker("1", "2", "doc") + TextOnlyPayload
    requires parse(TextOnlyPayload) == Some(TextOnlyData)
    ensures ChunkMapOf([OutputItem(Some("mcp_call"), Some(output))], parse)
            == map["1:2†doc" := CitationRecord(JString("(no title)"), JString("text only"))]
  {
    TextOnlyCitation(output, parse);
    TextOnlyEntry(ChunkMapOf([OutputItem(Some("mcp_call"), Some(output))], parse));
  }
}
