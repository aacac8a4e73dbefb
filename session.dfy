/** The conversation bookkeeping of `main` in app.py: the transcript kept in
    the session state, seeded with one assistant greeting, and the citation
    map of the latest answer.

    A submission with text appends the user turn, calls the agent with
    everything before that turn, and appends exactly one assistant turn: the
    answer, or the error text when the call raised. The stored citation map
    is replaced by the new one (empty after an error). Valid says that the
    transcript is the greeting followed by user/assistant exchanges; every
    submission that runs to its end keeps it, so after such runs the agent
    is sent a transcript that starts with the greeting, alternates and ends
    with the user's turn. A run stopped between the two appends is not
    modelled. */
module ChatSession {
  import opened Wrappers
  import opened ChunkMap
  import opened FoundryAgent

  const Greeting: string := "こんにちは！Azure AI Foundry Agent へのチャットです。"
  const ErrorPrefix: string := "エラーが発生しました: "

  /** `f"エラーが発生しました: {e}"`: the prefix, then the exception's text. */
  function ErrorText(e: string): (t: string)
    ensures |t| == |ErrorPrefix| + |e|
    ensures t[..|ErrorPrefix|] == ErrorPrefix && t[|ErrorPrefix|..] == e
  {
    ErrorPrefix + e
  }

  /** The `try`/`except` around the call: the reply, or the error text and an
      empty map. */
  function TurnOutcome(r: Result<(string, CitationMap), string>): (o: (string, CitationMap))
    ensures r.Success? ==> o == r.value
    ensures r.Failure? ==> o.0 == ErrorText(r.error) && o.1 == map[]
  {
    match r
    case Success(reply) => reply
    case Failure(e) => (ErrorText(e), map[])
  }

  /** The greeting the transcript is seeded with. */
  function GreetingTurn(): Turn {
    Turn(AssistantRole, Greeting)
  }

  /** The role a well-formed transcript has at index k: the greeting, and each
      answer, at even indices; the user's turns at odd ones. */
  function RoleAt(k: nat): string {
    if k % 2 == 0 then AssistantRole else UserRole
  }

  /** The greeting followed by user/assistant exchanges. */
  ghost predicate IsTranscript(ms: seq<Turn>) {
    && |ms| % 2 == 1
    && ms[0] == GreetingTurn()
    && forall k :: 0 <= k < |ms| ==> ms[k].role == RoleAt(k)
  }

  /** The greeting and any number of exchanges are a transcript, and
      appending one more exchange keeps it one. */
  lemma {:induction false} ExchangeKeepsTranscript(ms: seq<Turn>, question: string, answer: string)
    requires IsTranscript(ms)
    ensures IsTranscript(ms + [Turn(UserRole, question), Turn(AssistantRole, answer)])
  {
    var ms' := ms + [Turn(UserRole, question), Turn(AssistantRole, answer)];
    assert (|ms| + 1) % 2 == 0;
    forall k | 0 <= k < |ms'| ensures ms'[k].role == RoleAt(k) {
      if k < |ms| {
        assert ms'[k] == ms[k];
      }
    }
  }

  /** What the agent is sent from a transcript: it has an even number of
      turns, starts with the greeting, alternates assistant and user, and
      ends with the user's message. */
  lemma {:induction false} RequestFromTranscript(ms: seq<Turn>, question: string)
    requires IsTranscript(ms)
    ensures var input := BuildInput(ms, question);
            && |input| % 2 == 0
            && input[0] == GreetingTurn()
            && (forall k :: 0 <= k < |input| ==> input[k].role == RoleAt(k))
            && input[|input| - 1] == Turn(UserRole, question)
  {
    var input := BuildInput(ms, question);
    assert |ms| % 2 == 1;
    forall k | 0 <= k < |input| ensures input[k].role == RoleAt(k) {
      if k < |ms| {
        assert input[k] == ms[k];
      }
    }
  }

  /** `st.chat_input` gave something `if user_input:` accepts. */
  predicate IsSubmitted(userInput: Option<string>) {
    userInput.Some? && userInput.value != ""
  }

  /** `st.session_state`: the transcript and the citation map of the latest
      answer. */
  class Session {
    var messages: seq<Turn>
    var lastChunkMap: CitationMap
    /** The number of submissions with text so far. */
    ghost var exchanges: nat

    ghost predicate Valid()
      reads this
    {
      && IsTranscript(messages)
      && |messages| == 2 * exchanges + 1
    }

    /** The first run of `main`: the greeting alone and no citations. */
    constructor ()
      ensures messages == [GreetingTurn()]
      ensures lastChunkMap == map[]
      ensures exchanges == 0
      ensures Valid()
    {
      messages := [GreetingTurn()];
      lastChunkMap := map[];
      exchanges := 0;
    }

    /** One run of `main` after the user typed userInput. Nothing happens
        without text; otherwise the agent is asked with the transcript as it
        stood, and the transcript grows by the user's turn and the answer
        (or the error text), while the citation map is replaced. */
    method SubmitTurn(userInput: Option<string>, agent: Agent, parse: JsonParser)
      requires Valid()
      modifies this
      ensures Valid()
      ensures exchanges == old(exchanges) + (if IsSubmitted(userInput) then 1 else 0)
      ensures !IsSubmitted(userInput) ==> messages == old(messages) && lastChunkMap == old(lastChunkMap)
      ensures IsSubmitted(userInput) ==>
                var outcome := TurnOutcome(AgentReply(userInput.value, old(messages), agent, parse));
                && messages == old(messages) + [Turn(UserRole, userInput.value), Turn(AssistantRole, outcome.0)]
                && lastChunkMap == outcome.1
    {
      if !IsSubmitted(userInput) {
        return;
      }
      var text := userInput.value;
      ghost var before := messages;
      messages := messages + [Turn(UserRole, text)];
      var history := messages[..|messages| - 1];
      assert history == before;
      var reply := CallFoundryAgent(text, history, agent, parse);
      var assistantText: string, chunkMap: CitationMap;
      if reply.Success? {
        assistantText, chunkMap := reply.value.0, reply.value.1;
      } else {
        assistantText, chunkMap := ErrorText(reply.error), map[];
      }
      messages := messages + [Turn(AssistantRole, assistantText)];
      lastChunkMap := chunkMap;
      exchanges := exchanges + 1;
      ExchangeKeepsTranscript(before, text, assistantText);
      assert messages == before + [Turn(UserRole, text), Turn(AssistantRole, assistantText)];
    }
  }

  /** An empty submission, which changes nothing, then two submissions, the
      first of which raises: the error text becomes the
      assistant's turn, the map is emptied, and the error text is part of the
      history the second call is sent. */
  method ErrorThenAnswer(parse: JsonParser) returns (transcript: seq<Turn>, secondRequest: seq<Turn>, chunks: CitationMap)
    ensures transcript == [GreetingTurn(), Turn(UserRole, "What is X?"), Turn(AssistantRole, ErrorText("network error")),
                           Turn(UserRole, "q2"), Turn(AssistantRole, "fine")]
    ensures secondRequest == [GreetingTurn(), Turn(UserRole, "What is X?"), Turn(AssistantRole, ErrorText("network error")),
                              Turn(UserRole, "q2")]
    ensures chunks == map[]
  {
    var session := new Session();
    var failing: Agent := (input: seq<Turn>) => Failure("network error");
    session.SubmitTurn(Some(""), failing, parse);
    session.SubmitTurn(Some("What is X?"), failing, parse);
    secondRequest := BuildInput(session.messages, "q2");
    var answering: Agent := (input: seq<Turn>) => Success(Response(Some("fine"), []));
    session.SubmitTurn(Some("q2"), answering, parse);
    transcript := session.messages;
    chunks := session.lastChunkMap;
  }
}
