/** `extract_mcp_chunk_map` of app.py: walk the response's output items, scan
    the output of every "mcp_call" item for citation matches, parse each
    payload as JSON and record its title and chunk under the citation key.

    ChunkMapOf is the specification, a left fold over the items and, inside
    each item, over its matches; ExtractMcpChunkMap is the loop of the source,
    proved equal to it. The lemmas characterise ChunkMapOf without the fold:
    which keys it holds, which payload each key's record comes from (the last
    one that parsed), and that failed parses and non-"mcp_call" items leave no
    trace. */
module ChunkMap {
  import opened Wrappers
  import opened CitationRegex

  /** A value as `json.loads` returns it; numbers keep their literal text. */
  datatype JsonValue =
    | JNull
    | JBool(b: bool)
    | JNumber(literal: string)
    | JString(str: string)
    | JArray(elems: seq<JsonValue>)
    | JObject(fields: map<string, JsonValue>)

  type JsonObject = map<string, JsonValue>

  /** `json.loads` on a payload: the object it denotes, or None where it
      raises. Every payload begins with '{', so a successful parse is an
      object. */
  type JsonParser = string -> Option<JsonObject>

  const McpCallType: string := "mcp_call"
  const NoTitle: string := "(no title)"

  /** The `{"title": ..., "chunk": ...}` record stored per citation. */
  datatype CitationRecord = CitationRecord(title: JsonValue, chunk: JsonValue)

  type CitationMap = map<string, CitationRecord>

  /** An item of `resp.output`: its `type` and `output` attributes, None when
      missing or None. */
  datatype OutputItem = OutputItem(itemType: Option<string>, output: Option<string>)

  /** The agent's response: `output_text` and the `output` items. */
  datatype Response = Response(outputText: Option<string>, output: seq<OutputItem>)

  predicate IsMcpCall(item: OutputItem) {
    item.itemType == Some(McpCallType)
  }

  /** `getattr(item, "output", "") or ""`. */
  function OutputString(item: OutputItem): (r: string)
    ensures item.output.Some? ==> r == item.output.value
    ensures item.output.None? ==> r == ""
  {
    if item.output.Some? then item.output.value else ""
  }

  /** The key `f"{g1}:{g2}†{g3}"` of a match. */
  function CitationKey(m: Match): string {
    m.msgIndex + [':'] + m.searchIndex + [Dagger] + m.source
  }

  /** `{"title": data.get("title", "(no title)"), "chunk": data.get("chunk", "")}`. */
  function RecordOf(data: JsonObject): (r: CitationRecord)
    ensures "title" in data ==> r.title == data["title"]
    ensures "title" !in data ==> r.title == JString(NoTitle)
    ensures "chunk" in data ==> r.chunk == data["chunk"]
    ensures "chunk" !in data ==> r.chunk == JString("")
  {
    CitationRecord(
      if "title" in data then data["title"] else JString(NoTitle),
      if "chunk" in data then data["chunk"] else JString(""))
  }

  /** One match: a payload that fails to parse is skipped, otherwise its
      record is written under its key. */
  function Store(acc: CitationMap, m: Match, parse: JsonParser): CitationMap {
    match parse(m.payload)
    case None => acc
    case Some(data) => acc[CitationKey(m) := RecordOf(data)]
  }

  /** The matches of one output, stored in order. */
  function StoreAll(acc: CitationMap, ms: seq<Match>, parse: JsonParser): CitationMap
    decreases |ms|
  {
    if |ms| == 0 then acc
    else Store(StoreAll(acc, ms[..|ms| - 1], parse), ms[|ms| - 1], parse)
  }

  /** One output item: only "mcp_call" items are scanned. */
  function StoreItem(acc: CitationMap, item: OutputItem, parse: JsonParser): CitationMap {
    if IsMcpCall(item) then StoreAll(acc, FindAll(OutputString(item)), parse) else acc
  }

  /** The map `extract_mcp_chunk_map` returns for the output items. */
  function ChunkMapOf(items: seq<OutputItem>, parse: JsonParser): CitationMap
    decreases |items|
  {
    if |items| == 0 then map[]
    else StoreItem(ChunkMapOf(items[..|items| - 1], parse), items[|items| - 1], parse)
  }

  /** `extract_mcp_chunk_map(resp)`: the result depends on the response alone,
      so two calls on the same response return the same map. */
  method ExtractMcpChunkMap(resp: Response, parse: JsonParser) returns (chunkMap: CitationMap)
    ensures chunkMap == ChunkMapOf(resp.output, parse)
  {
    chunkMap := map[];
    for i := 0 to |resp.output|
      invariant chunkMap == ChunkMapOf(resp.output[..i], parse)
    {
      assert resp.output[..i + 1][..i] == resp.output[..i];
      var item := resp.output[i];
      if !IsMcpCall(item) {
        continue;
      }
      var outputStr := OutputString(item);
      chunkMap := StoreMatches(chunkMap, FindAll(outputStr), parse);
    }
    assert resp.output[..|resp.output|] == resp.output;
  }

  /** The inner loop of `extract_mcp_chunk_map`: each match whose payload
      parses writes its record under its key, in the order of the matches. */
  method StoreMatches(acc: CitationMap, ms: seq<Match>, parse: JsonParser) returns (chunkMap: CitationMap)
    ensures chunkMap == StoreAll(acc, ms, parse)
  {
    chunkMap := acc;
    for j := 0 to |ms|
      invariant chunkMap == StoreAll(acc, ms[..j], parse)
    {
      assert ms[..j + 1][..j] == ms[..j];
      var m := ms[j];
      var key := CitationKey(m);
      var data := parse(m.payload);
      if data.None? {
        continue;
      }
      chunkMap := chunkMap[key := RecordOf(data.value)];
    }
    assert ms[..|ms|] == ms;
  }

  /** The matches the parser visits, in order: those of every "mcp_call"
      item, item after item. */
  function QualifyingMatches(items: seq<OutputItem>): seq<Match>
    decreases |items|
  {
    if |items| == 0 then []
    else
      var last := items[|items| - 1];
      QualifyingMatches(items[..|items| - 1]) + (if IsMcpCall(last) then FindAll(OutputString(last)) else [])
  }

  /** Storing two runs of matches is storing the first, then the second. */
  lemma {:induction false} StoreAllAppend(acc: CitationMap, ms1: seq<Match>, ms2: seq<Match>, parse: JsonParser)
    ensures StoreAll(acc, ms1 + ms2, parse) == StoreAll(StoreAll(acc, ms1, parse), ms2, parse)
    decreases |ms2|
  {
    if |ms2| > 0 {
      var ms := ms1 + ms2;
      assert ms[..|ms| - 1] == ms1 + ms2[..|ms2| - 1];
      assert ms[|ms| - 1] == ms2[|ms2| - 1];
      StoreAllAppend(acc, ms1, ms2[..|ms2| - 1], parse);
    } else {
      assert ms1 + ms2 == ms1;
    }
  }

  /** Across items the parser is one run over all qualifying matches: the
      item boundaries do not matter, so last-write-wins holds across items. */
  lemma {:induction false} ChunkMapOfIsOneRun(items: seq<OutputItem>, parse: JsonParser)
    ensures ChunkMapOf(items, parse) == StoreAll(map[], QualifyingMatches(items), parse)
    decreases |items|
  {
    if |items| > 0 {
      var init := items[..|items| - 1];
      var last := items[|items| - 1];
      ChunkMapOfIsOneRun(init, parse);
      var tail := if IsMcpCall(last) then FindAll(OutputString(last)) else [];
      StoreAllAppend(map[], QualifyingMatches(init), tail, parse);
    }
  }

  /** The record stored for key k comes from the last match with key k whose
      payload parsed: its title is the payload's "title", or "(no title)"
      when absent, and its chunk the payload's "chunk", or "" when absent. */
  lemma {:induction false} LastWriteWins(acc: CitationMap, ms: seq<Match>, parse: JsonParser, k: string, i: nat)
    requires i < |ms| && CitationKey(ms[i]) == k && parse(ms[i].payload).Some?
    requires forall j :: i < j < |ms| && CitationKey(ms[j]) == k ==> parse(ms[j].payload).None?
    ensures var r := StoreAll(acc, ms, parse);
            var data := parse(ms[i].payload).value;
            && k in r
            && r[k].title == (if "title" in data then data["title"] else JString(NoTitle))
            && r[k].chunk == (if "chunk" in data then data["chunk"] else JString(""))
    decreases |ms|
  {
    var n := |ms|;
    if i < n - 1 {
      LastWriteWins(acc, ms[..n - 1], parse, k, i);
      assert CitationKey(ms[n - 1]) == k ==> parse(ms[n - 1].payload).None?;
    }
  }

  /** A key that no parsed match carries keeps whatever acc held for it. */
  lemma {:induction false} UnwrittenKeyKept(acc: CitationMap, ms: seq<Match>, parse: JsonParser, k: string)
    requires forall j :: 0 <= j < |ms| && CitationKey(ms[j]) == k ==> parse(ms[j].payload).None?
    ensures var r := StoreAll(acc, ms, parse);
            && (k in r <==> k in acc)
            && (k in acc ==> r[k] == acc[k])
    decreases |ms|
  {
    var n := |ms|;
    if n > 0 {
      UnwrittenKeyKept(acc, ms[..n - 1], parse, k);
      assert CitationKey(ms[n - 1]) == k ==> parse(ms[n - 1].payload).None?;
    }
  }

  /** The keys of the result are exactly the keys of the matches whose
      payload parsed. */
  lemma StoredKeys(ms: seq<Match>, parse: JsonParser, k: string)
    ensures k in StoreAll(map[], ms, parse)
            <==> exists j :: 0 <= j < |ms| && CitationKey(ms[j]) == k && parse(ms[j].payload).Some?
  {
    if j :| 0 <= j < |ms| && CitationKey(ms[j]) == k && parse(ms[j].payload).Some? {
      var i := LastParsedWithKey(ms, parse, k, j);
      LastWriteWins(map[], ms, parse, k, i);
    } else {
      UnwrittenKeyKept(map[], ms, parse, k);
    }
  }

  /** The largest index at or after j whose match has key k and parses. */
  lemma {:induction false} LastParsedWithKey(ms: seq<Match>, parse: JsonParser, k: string, j: nat) returns (i: nat)
    requires j < |ms| && CitationKey(ms[j]) == k && parse(ms[j].payload).Some?
    ensures j <= i < |ms| && CitationKey(ms[i]) == k && parse(ms[i].payload).Some?
    ensures forall j' :: i < j' < |ms| && CitationKey(ms[j']) == k ==> parse(ms[j'].payload).None?
    decreases |ms| - j
  {
    if j' :| j < j' < |ms| && CitationKey(ms[j']) == k && parse(ms[j'].payload).Some? {
      i := LastParsedWithKey(ms, parse, k, j');
    } else {
      i := j;
    }
  }

  /** A match whose payload fails to parse changes nothing: dropping it from
      the run gives the same map. */
  lemma FailedParseSkipped(acc: CitationMap, ms: seq<Match>, parse: JsonParser, i: nat)
    requires i < |ms| && parse(ms[i].payload).None?
    ensures StoreAll(acc, ms, parse) == StoreAll(acc, ms[..i] + ms[i + 1..], parse)
  {
    assert ms == ms[..i] + [ms[i]] + ms[i + 1..];
    StoreAllAppend(acc, ms[..i] + [ms[i]], ms[i + 1..], parse);
    StoreAllAppend(acc, ms[..i], [ms[i]], parse);
    assert ([] + [ms[i]])[..0] == [];
    StoreAllAppend(acc, ms[..i], ms[i + 1..], parse);
  }

  /** A key of the result of a run was written by a match of the run with
      that key whose payload parsed; the lemma returns its index. */
  lemma {:induction false} StoredKeyWriter(acc: CitationMap, ms: seq<Match>, parse: JsonParser, k: string) returns (j: nat)
    requires k in StoreAll(acc, ms, parse) && k !in acc
    ensures j < |ms| && CitationKey(ms[j]) == k && parse(ms[j].payload).Some?
    decreases |ms|
  {
    var n := |ms|;
    if n == 0 {
      assert false;
    } else if k in StoreAll(acc, ms[..n - 1], parse) {
      j := StoredKeyWriter(acc, ms[..n - 1], parse, k);
    } else {
      j := n - 1;
    }
  }

  /** The match of QualifyingMatches(items) at j is found in the output of
      the "mcp_call" item the lemma returns. */
  lemma {:induction false} QualifyingMatchItem(items: seq<OutputItem>, j: nat) returns (i: nat)
    requires j < |QualifyingMatches(items)|
    ensures i < |items| && IsMcpCall(items[i])
    ensures QualifyingMatches(items)[j] in FindAll(OutputString(items[i]))
    decreases |items|
  {
    var n := |items|;
    var init := items[..n - 1];
    var last := items[n - 1];
    var qi := QualifyingMatches(init);
    var tail := if IsMcpCall(last) then FindAll(OutputString(last)) else [];
    assert QualifyingMatches(items) == qi + tail;
    if j < |qi| {
      i := QualifyingMatchItem(init, j);
      assert items[i] == init[i];
    } else {
      assert QualifyingMatches(items)[j] == tail[j - |qi|];
      i := n - 1;
    }
  }

  /** Every key of the result is the key of a citation match, found in the
      output of an "mcp_call" item of the same response, whose payload
      parsed; the lemma returns the item's index and the match. */
  lemma KeysComeFromMarkers(items: seq<OutputItem>, parse: JsonParser, k: string) returns (i: nat, m: Match)
    requires k in ChunkMapOf(items, parse)
    ensures i < |items| && IsMcpCall(items[i])
    ensures m in FindAll(OutputString(items[i])) && CitationKey(m) == k && parse(m.payload).Some?
  {
    var qm := QualifyingMatches(items);
    ChunkMapOfIsOneRun(items, parse);
    var j := StoredKeyWriter(map[], qm, parse, k);
    i := QualifyingMatchItem(items, j);
    m := qm[j];
  }

  /** The key of a match is written in the text it was found in, between
      '【' and '】', and has the shape digits ':' digits '†' name. */
  lemma CitationKeyInText(s: string, m: Match)
    requires m in FindAll(s)
    ensures m.start + |CitationKey(m)| + 2 <= |s|
    ensures s[m.start..m.start + |CitationKey(m)| + 2] == [OpenMark] + CitationKey(m) + [CloseMark]
    ensures |m.msgIndex| > 0 && AllDigits(m.msgIndex)
    ensures |m.searchIndex| > 0 && AllDigits(m.searchIndex)
    ensures |m.source| > 0 && CloseMark !in m.source
  {
    FindAllFindsMatches(s, m);
    MatchKeyText(s, m);
  }

  lemma MatchKeyText(s: string, m: Match)
    requires IsMatch(s, m)
    ensures m.start + |CitationKey(m)| + 2 <= |s|
    ensures s[m.start..m.start + |CitationKey(m)| + 2] == [OpenMark] + CitationKey(m) + [CloseMark]
  {
    MarkerText(s, m.start, m.msgIndex, m.searchIndex, m.source);
    assert [OpenMark] + CitationKey(m) + [CloseMark]
        == [OpenMark] + m.msgIndex + [':'] + m.searchIndex + [Dagger] + m.source + [CloseMark];
  }

  /** Outputs without a '【', and items that are not "mcp_call", contribute
      nothing: if no "mcp_call" item carries a marker, the map is empty. */
  lemma {:induction false} NoMarkersNoCitations(items: seq<OutputItem>, parse: JsonParser)
    requires forall i :: 0 <= i < |items| && IsMcpCall(items[i]) ==> OpenMark !in OutputString(items[i])
    ensures ChunkMapOf(items, parse) == map[]
    decreases |items|
  {
    var n := |items|;
    if n > 0 {
      NoMarkersNoCitations(items[..n - 1], parse);
      NoOpenMarkNoMatches(OutputString(items[n - 1]));
    }
  }
}
