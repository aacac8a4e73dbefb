/** `call_foundry_agent` of app.py, without the Azure plumbing: the history
    and the new user message become the request's input list, the remote
    agent answers it (or raises), and the answer text and citation map are
    taken from its response.

    The remote call is the parameter `agent`: it maps the input list to the
    response, or to the text of the exception it raised. AgentReply is the
    specification of one call; CallFoundryAgent is the call itself, which
    runs the citation parser's loop. */
module FoundryAgent {
  import opened Wrappers
  import opened ChunkMap

  const UserRole: string := "user"
  const AssistantRole: string := "assistant"
  const NoText: string := "(no text)"

  /** One entry of the transcript and of the request: `{"role": ..., "content": ...}`. */
  datatype Turn = Turn(role: string, content: string)

  /** `openai_client.responses.create(input=...)` with the agent reference:
      the response, or Failure(str(e)) when it raises. */
  type Agent = seq<Turn> -> Result<Response, string>

  /** The request input: the history's role and content pairs, in order,
      then the new user message. */
  function BuildInput(history: seq<Turn>, userMessage: string): (input: seq<Turn>)
    ensures |input| == |history| + 1
    ensures forall k :: 0 <= k < |history| ==> input[k] == history[k]
    ensures input[|history|] == Turn(UserRole, userMessage)
  {
    history + [Turn(UserRole, userMessage)]
  }

  /** Nothing is lost in assembling the request: the history and the user
      message can be read back from it. */
  lemma BuildInputInjective(h1: seq<Turn>, u1: string, h2: seq<Turn>, u2: string)
    ensures BuildInput(h1, u1) == BuildInput(h2, u2) <==> h1 == h2 && u1 == u2
  {
    if BuildInput(h1, u1) == BuildInput(h2, u2) {
      assert |h1| == |h2|;
      assert h1 == BuildInput(h1, u1)[..|h1|];
      assert h2 == BuildInput(h2, u2)[..|h2|];
    }
  }

  /** `getattr(response, "output_text", "") or "(no text)"`: the answer is
      never empty, and is the response's text whenever that has any. */
  function AnswerText(outputText: Option<string>): (t: string)
    ensures |t| > 0
    ensures outputText.Some? && outputText.value != "" ==> t == outputText.value
    ensures outputText.None? || outputText.value == "" ==> t == NoText
  {
    if outputText.Some? && outputText.value != "" then outputText.value else NoText
  }

  /** What one call returns: the agent's failure, or the answer text and the
      citation map of its response. */
  function AgentReply(userMessage: string, history: seq<Turn>, agent: Agent, parse: JsonParser): Result<(string, CitationMap), string> {
    match agent(BuildInput(history, userMessage))
    case Failure(e) => Failure(e)
    case Success(resp) => Success((AnswerText(resp.outputText), ChunkMapOf(resp.output, parse)))
  }

  /** `call_foundry_agent(user_message, history)`. */
  method CallFoundryAgent(userMessage: string, history: seq<Turn>, agent: Agent, parse: JsonParser)
    returns (r: Result<(string, CitationMap), string>)
    ensures r == AgentReply(userMessage, history, agent, parse)
  {
    var inputMessages := BuildInput(history, userMessage);
    var response := agent(inputMessages);
    if response.Failure? {
      return Failure(response.error);
    }
    var assistantText := AnswerText(response.value.outputText);
    var chunkMap := ExtractMcpChunkMap(response.value, parse);
    return Success((assistantText, chunkMap));
  }

  /** A successful call gives a non-empty answer, and every key of its map
      names a citation match, with a payload that parsed, in the output of an
      "mcp_call" item of the response the agent returned for the request. */
  lemma ReplyKeysFromResponse(userMessage: string, history: seq<Turn>, agent: Agent, parse: JsonParser, k: string)
    returns (i: nat, m: CitationRegex.Match)
    requires AgentReply(userMessage, history, agent, parse).Success?
    requires k in AgentReply(userMessage, history, agent, parse).value.1
    ensures var resp := agent(BuildInput(history, userMessage)).value;
            && |AgentReply(userMessage, history, agent, parse).value.0| > 0
            && i < |resp.output| && IsMcpCall(resp.output[i])
            && m in CitationRegex.FindAll(OutputString(resp.output[i]))
            && CitationKey(m) == k && parse(m.payload).Some?
  {
    var resp := agent(BuildInput(history, userMessage)).value;
    i, m := KeysComeFromMarkers(resp.output, parse, k);
  }
}
