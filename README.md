# rag-chat-sample: citation extraction and chat session, in Dafny

This project models the core of `app.py`, a Streamlit chat front-end for an
Azure AI Foundry agent. It covers three parts.

- **The citation parser** `extract_mcp_chunk_map`. It walks the response's
  output items and scans the output of every `"mcp_call"` item with the
  pattern `【(\d+):(\d+)†([^】]+)】\s*(\{.*?\})` (DOTALL). The scan is
  `finditer`: left to right, without overlap. Each payload is given to
  `json.loads`, and the result is a map from the key `"{g1}:{g2}†{g3}"` to
  the payload's `title` and `chunk`, last write winning.
- **The request assembly and answer default** in `call_foundry_agent`. The
  history plus the new user turn form the input list, and an empty or
  missing `output_text` becomes `"(no text)"`.
- **The session state** kept by `main`. The transcript is seeded with a
  greeting. Each submission appends the user turn, asks the agent with the
  transcript before that turn, and appends the answer or the error text.
  The latest citation map replaces the previous one.

Modules:

- `CitationRegex` (`citation_regex.dfy`).
  - `MatchAt` computes the match of the pattern at one position. For this
    pattern that match is unique.
  - `FindAll` is the `finditer` scan.
  - `IsMatch` is the pattern read declaratively. `IsScan` says what a
    leftmost, non-overlapping scan must return.
  - The lemmas prove `MatchAt` equivalent to `IsMatch` and `FindAll` the
    only list satisfying `IsScan`.
- `ChunkMap` (`chunk_map.dfy`).
  - `ChunkMapOf` is the specification, a fold over items and matches.
  - `ExtractMcpChunkMap` is the source's loop over the items, and
    `StoreMatches` its inner loop over the matches. Both are proved equal to
    the fold.
  - The lemmas characterise the fold: which keys it holds, where each record
    comes from, and what leaves it unchanged.
- `FoundryAgent` (`foundry_agent.dfy`). It covers the request
  (`BuildInput`), the answer default (`AnswerText`) and one call
  (`CallFoundryAgent`, against the specification `AgentReply`).
- `ChatSession` (`session.dfy`). The class `Session` holds `messages` and
  `lastChunkMap`. Its invariant `Valid` says the transcript is the greeting
  followed by user/assistant exchanges, with `2 * exchanges + 1` entries.
- `CitationExamples` (`citation_examples.dfy`). It holds the worked outputs
  of the parser.
- `Wrappers` (`wrappers.dfy`). It holds `Option` and `Result`.

External inputs are parameters:

- `json.loads` is `parse: string -> Option<JsonObject>`. It returns `None`
  where `json.loads` raises.
- The remote agent call is `agent: seq<Turn> -> Result<Response, string>`.
  It returns `Failure(str(e))` where the call raises.
- `st.chat_input` is an `Option<string>` argument of `SubmitTurn`.

## Model

| member | source | states |
|---|---|---|
| CitationRegex.DigitRunEnd | app.py:16 | `\d+` is greedy: the end of the longest run of digits from a position |
| CitationRegex.WhitespaceRunEnd | app.py:16 | `\s*` is greedy: the end of the longest run of whitespace from a position |
| CitationRegex.FindChar | app.py:16 | the first occurrence of a character at or after a position, or none in the rest of the text |
| CitationRegex.MatchAt | app.py:15-18 | the match of the pattern that starts exactly at position i, or none; a match it returns starts at i and ends within the text |
| CitationRegex.Scan | app.py:40 | the loop of `finditer` for any matcher: try at pos, resume at the end of a match or at pos + 1; its matches are the matcher's, start at or after pos, and do not overlap |
| CitationRegex.MatchAtSpec | app.py:15-18 | MatchAt(s, i) finds m exactly when m is a match of the pattern starting at i, so the match at a position is unique |
| CitationRegex.MatchAtSound | app.py:15-18 | what MatchAt finds is '【' digits ':' digits '†' a name without '】' '】', whitespace, then '{' up to the first '}' |
| CitationRegex.MatchAtComplete | app.py:15-18 | every text that fits the pattern at a position is found there by MatchAt |
| CitationRegex.MatchIsNonEmpty | app.py:16 | a match spans at least 9 characters: the brackets, ':' and '†', one character of each group, and the two braces |
| CitationRegex.MarkerText | app.py:16 | the marker of a match is the bracketed text '【' g1 ':' g2 '†' g3 '】' |
| CitationRegex.TextBeforePayloadBlocksMatch | app.py:16 | if anything but whitespace separates '】' from '{', nothing matches at that marker |
| CitationRegex.FindAll | app.py:40 | the matches of `finditer` lie within the text, in order and without overlap |
| CitationRegex.FindAllIsTheScan | app.py:40 | FindAll is a leftmost, non-overlapping scan, and any list of matches that is one equals FindAll |
| CitationRegex.FindAllFindsMatches | app.py:40 | every match FindAll reports fits the pattern |
| CitationRegex.ScanIsUnique | app.py:40 | for any matcher, a list of matches with the scan's properties is the scan's result |
| CitationRegex.NoOpenMarkNoMatches | app.py:40 | a text without '【' yields no match |
| ChunkMap.IsMcpCall | app.py:35-36 | an item is scanned exactly when its `type` is "mcp_call" |
| ChunkMap.OutputString | app.py:38 | the item's `output`, or "" when it is missing or None |
| ChunkMap.CitationKey | app.py:41 | the key of a match: group 1, ':', group 2, '†', group 3 |
| ChunkMap.RecordOf | app.py:49-52 | the stored record: the payload's "title", or "(no title)" when it has none, and its "chunk", or "" when it has none |
| ChunkMap.Store | app.py:44-52 | one match: a payload that does not parse leaves the map as it was; otherwise RecordOf is written under CitationKey, replacing any earlier record |
| ChunkMap.StoreAll | app.py:40-52 | the matches of one output stored in the order `finditer` gives them |
| ChunkMap.StoreItem | app.py:34-52 | an item other than "mcp_call" leaves the map as it was; otherwise StoreAll over FindAll of its output |
| ChunkMap.ChunkMapOf | app.py:21-54 | the map `extract_mcp_chunk_map` returns: StoreItem over the output items in order, from the empty map |
| ChunkMap.ExtractMcpChunkMap | app.py:21-54 | the loop over the output items returns ChunkMapOf of those items, so two calls on one response return the same map |
| ChunkMap.StoreMatches | app.py:40-52 | the loop over one output's matches returns StoreAll of the map it started from: each match whose payload parses writes its record under its key, in order |
| ChunkMap.ChunkMapOfIsOneRun | app.py:34-52 | the item loop is one run over all matches of all "mcp_call" items in order, so item boundaries do not matter |
| ChunkMap.StoreAllAppend | app.py:40-52 | storing two runs of matches is storing the first, then the second |
| ChunkMap.LastWriteWins | app.py:40-52 | the record under a key comes from the last match with that key whose payload parsed: its "title" or "(no title)", its "chunk" or "" |
| ChunkMap.UnwrittenKeyKept | app.py:44-52 | a key that no parsed match carries keeps whatever it held before |
| ChunkMap.StoredKeys | app.py:44-52 | a key is in the map exactly when some match with that key has a payload that parses |
| ChunkMap.FailedParseSkipped | app.py:44-47 | dropping a match whose payload does not parse leaves the map unchanged |
| ChunkMap.KeysComeFromMarkers | app.py:34-45 | every key of the result comes from a match, with a payload that parsed, in the output of an "mcp_call" item |
| ChunkMap.CitationKeyInText | app.py:40-41 | the key of a match is written in the text between '【' and '】', and is digits ':' digits '†' a non-empty name without '】' |
| ChunkMap.NoMarkersNoCitations | app.py:32-54 | if no "mcp_call" output holds a '【', including when none exists or its output is missing, the map is empty |
| FoundryAgent.BuildInput | app.py:88-91 | the input is the history's role and content pairs unchanged and in order, then ("user", message); its length is the history's plus one |
| FoundryAgent.BuildInputInjective | app.py:88-91 | two inputs are equal exactly when their histories and user messages are, so nothing is lost or reordered |
| FoundryAgent.AnswerText | app.py:107 | the answer is never empty: `output_text` when it has text, "(no text)" when it is empty or missing |
| FoundryAgent.AgentReply | app.py:88-112 | one call: the agent's failure, or the answer text of its response to BuildInput(history, message) and that response's citation map |
| FoundryAgent.CallFoundryAgent | app.py:88-112 | one call returns the agent's failure, or the answer text and the citation map of the response to BuildInput(history, message) |
| FoundryAgent.ReplyKeysFromResponse | app.py:107-112 | a successful call's answer is non-empty and every key of its map comes from a match in an "mcp_call" output of that response |
| ChatSession.ErrorText | app.py:165 | the error answer is the fixed prefix followed by the exception's text, so the text can be read back |
| ChatSession.TurnOutcome | app.py:159-166 | a successful call gives its answer and map; a failed one gives the error text and an empty map |
| ChatSession.ExchangeKeepsTranscript | app.py:151-189 | appending a user turn and an assistant turn to a well-formed transcript keeps it well formed |
| ChatSession.RequestFromTranscript | app.py:151-160 | the agent is sent a transcript of even length that starts with the greeting, alternates assistant and user, and ends with the new user message |
| ChatSession.Session.constructor | app.py:130-139 | the session starts with exactly the greeting and an empty citation map |
| ChatSession.IsSubmitted | app.py:147-149 | `if user_input:` takes the input only when it is present and not empty |
| ChatSession.Session.SubmitTurn | app.py:149-191 | empty input changes nothing; otherwise the agent gets the transcript before the user turn, the transcript grows by the user turn and the answer or error text, and the citation map is replaced |
| ChatSession.ErrorThenAnswer | app.py:149-191 | after a failed call the error text is the assistant's turn, the map is empty, and the next request replays that error text |
| CitationExamples.FindAllOf | app.py:40 | matches in order with no '【' between them are exactly what the scan finds |
| CitationExamples.SingleCitationScan | app.py:15-18 | a marker, whitespace and a payload are one match; markers inside the payload are never tried |
| CitationExamples.SingleCitation | app.py:34-52 | an "mcp_call" output holding one citation whose payload parses gives that single key and record |
| CitationExamples.PolicyExample | app.py:40-52 | `【4:0†policy.pdf】{"title": "Policy Doc", "chunk": "Section 3..."}` gives the one entry "4:0†policy.pdf" with that title and chunk |
| CitationExamples.TextOnlyExample | app.py:49-52 | `【1:2†doc】{"chunk": "text only"}` gives title "(no title)" and chunk "text only" |

## Left out

- The Streamlit UI is not modelled: page setup, `st.chat_message`, `st.markdown`, the spinner, and the expander/`text_area` loop (app.py:121-127, 141-146, 168-185). It only renders state.
- The Azure clients are not modelled: `DefaultAzureCredential`, `AIProjectClient`, `agents.get`, `responses.create` and the agent reference (app.py:78-104). They are foreign network calls; the call and its response are the `agent` parameter.
- The environment variables with their defaults (app.py:72-76) are not modelled. They are configuration I/O.
- `json.loads` is not modelled inside. It is the `parse` parameter. A payload starts with '{', so a successful parse is an object, and `parse` returns an object map.
- `CitationRegex.IsDigit`: only ASCII digits are `\d`. Python's `str` patterns also accept the other Unicode decimal digits.
- `OutputItem` keeps `type` and `output` only when they are strings or `None`. Other attribute values that Python would compare or accept with `or ""` are not represented.
- The exception text is modelled only as `str(e)`, given by the agent parameter. Exception classes and their formatting are not modelled.
- Exceptions raised outside the agent call inside `call_foundry_agent` are not modelled. App.py would catch any `Exception` among them in the same `except`.
- scripts/create_agent.py is not part of this model. It is a one-off provisioning script made of HTTP and SDK calls.
- There is no login gate in app.py; the session starts on the first run of `main`.
- `st.session_state` is modelled as one `Session` object. Streamlit's reruns of `main` become calls of `SubmitTurn` on it.
- `ChatSession.Session.SubmitTurn`: a run is modelled as running to its end. In app.py the user turn is appended (app.py:151) before the call, the answer only after the UI code (app.py:188-191), and the `except` at app.py:164 catches only `Exception`. A run stopped in between (KeyboardInterrupt, SystemExit, Streamlit ending the run early) leaves a user turn without an answer and `last_chunk_map` unchanged, and the next request then holds two user turns in a row. `Valid` and the alternation it gives hold only for runs that finish.
