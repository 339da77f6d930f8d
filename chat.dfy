/**
  The `/chat` endpoint of the chat server: general questions are answered from the
  canned replies without running the agent; any other message is given to the
  agent, and an exception it raises becomes an error response, classified as a
  quota problem or reported with its first 200 characters.
 */
module ChatEndpoint {
  import opened Wrappers
  import opened PyStr
  import opened Classifier

  /** What running the agent on a message does: finish with an output, or raise with a message. */
  datatype AgentRun = Finished(finalOutput: string) | Raised(message: string)

  /** The endpoint's response body; `error` is null unless something failed. */
  datatype ChatResponse = ChatResponse(response: string, error: Option<string>)

  const QuotaMessage := "API quota exceeded. Please try again later or check your API key."
  const ErrorPrefix := "Error: "
  const MaxErrorDetail: nat := 200

  /** An exception text that signals a rate limit or an exhausted quota. */
  predicate IsQuotaError(e: string)
  {
    Contains(e, "429") || Contains(e, "RateLimitError") || Contains(Lower(e), "quota")
  }

  /** The response for an exception whose text is `e`. */
  function ErrorResponse(e: string): (r: ChatResponse)
    ensures r.response == [] && r.error.Some?
    ensures IsQuotaError(e) ==> r.error.value == QuotaMessage
    ensures !IsQuotaError(e) ==>
      && |ErrorPrefix| <= |r.error.value| <= |ErrorPrefix| + MaxErrorDetail
      && r.error.value[..|ErrorPrefix|] == ErrorPrefix
      && r.error.value[|ErrorPrefix|..] <= e
      && (|e| <= MaxErrorDetail ==> r.error.value[|ErrorPrefix|..] == e)
      && (|e| >= MaxErrorDetail ==> |r.error.value| == |ErrorPrefix| + MaxErrorDetail)
  {
    if IsQuotaError(e) then ChatResponse([], Some(QuotaMessage))
    else
      var detail := if |e| <= MaxErrorDetail then e else e[..MaxErrorDetail];
      ChatResponse([], Some(ErrorPrefix + detail))
  }

  /** `chat`: `runAgent` is the agent, run on the message only when it is not a general question. */
  function Chat(message: string, runAgent: string -> AgentRun): (r: ChatResponse)
    ensures IsGeneralQuestion(message) ==> r.response == HandleGeneralQuestion(message) && r.error == None
    ensures r.error.Some? <==> !IsGeneralQuestion(message) && runAgent(message).Raised?
    ensures r.error.Some? ==> r.response == []
    ensures r.error == None && !IsGeneralQuestion(message) ==> r.response == runAgent(message).finalOutput
    ensures !IsGeneralQuestion(message) && runAgent(message).Raised? ==> r == ErrorResponse(runAgent(message).message)
  {
    if IsGeneralQuestion(message) then ChatResponse(HandleGeneralQuestion(message), None)
    else
      match runAgent(message)
      case Finished(output) => ChatResponse(output, None)
      case Raised(e) => ErrorResponse(e)
  }

  /** A general question is answered with a canned reply and no error, whatever the agent would do. */
  lemma GeneralSkipsAgent(message: string, agent1: string -> AgentRun, agent2: string -> AgentRun)
    requires IsGeneralQuestion(message)
    ensures Chat(message, agent1) == Chat(message, agent2)
    ensures Chat(message, agent1).error == None
    ensures Chat(message, agent1).response == HandleGeneralQuestion(message)
    ensures exists r :: Chat(message, agent1).response == ReplyText(r)
  {
  }

  /** A response carries an error exactly when the message went to the agent and the agent raised. */
  lemma ErrorIff(message: string, runAgent: string -> AgentRun)
    ensures Chat(message, runAgent).error.Some? <==> !IsGeneralQuestion(message) && runAgent(message).Raised?
  {
  }

  /** "quota" is matched in any letter case. */
  lemma QuotaAnyCase(e: string)
    requires e == "Insufficient QUOTA"
    ensures ErrorResponse(e).error == Some(QuotaMessage)
  {
    assert Lower(e)[13..18] == "quota";
    assert OccursAt(Lower(e), "quota", 13);
  }

  /** "RateLimitError" is matched only with its exact capitalisation. */
  lemma RateLimitIsCaseSensitive(e: string)
    requires e == "ratelimiterror"
    ensures !IsQuotaError(e)
    ensures ErrorResponse(e).error == Some(ErrorPrefix + e)
  {
    LowerCaseRateLimitIsNotQuota(e);
  }

  lemma LowerCaseRateLimitIsNotQuota(e: string)
    requires e == "ratelimiterror"
    ensures !IsQuotaError(e)
  {
    MissingChar(e, "429", '4');
    MissingChar(e, "RateLimitError", 'R');
    NoQuotaInLowerCase(e);
  }

  lemma NoQuotaInLowerCase(e: string)
    requires e == "ratelimiterror"
    ensures !Contains(Lower(e), "quota")
  {
    assert Lower(e) == e;
    MissingChar(e, "quota", 'q');
  }

  /** A long exception text is cut to its first 200 characters. */
  lemma LongErrorIsTruncated(e: string)
    requires |e| > MaxErrorDetail && !IsQuotaError(e)
    ensures ErrorResponse(e).error == Some(ErrorPrefix + e[..MaxErrorDetail])
  {
  }

  /** End to end: "Hello" gets the greeting reply without the agent. */
  lemma HelloEndToEnd(message: string, runAgent: string -> AgentRun)
    requires message == "Hello"
    ensures Chat(message, runAgent) == ChatResponse(ReplyText(Greeting), None)
  {
    HelloIsGeneral(message);
    HelloGetsGreeting(message);
  }

  /** End to end: "What is Physical AI?" is handed to the agent. */
  lemma TopicQuestionEndToEnd(message: string, runAgent: string -> AgentRun)
    requires message == "What is Physical AI?"
    ensures runAgent(message).Finished? ==> Chat(message, runAgent) == ChatResponse(runAgent(message).finalOutput, None)
  {
    TopicQuestionIsNotGeneral(message);
  }
}
