/**
 * The chat panel: the transcript set up when the panel mounts, and a send that
 * appends the user's trimmed text, waits for the model's answer and appends it
 * (or a fixed apology). The chat session is an opaque handle whose presence is
 * `hasSession`; its answer is the `Outcome` passed to `CompleteSend`.
 */
module Chat {
  import opened Types
  import opened Text

  const Greeting: string :=
    "Hello! I'm your Scrabble Scholar. Ask me anything about rules, strategies, or word origins!"
  const Apology: string := "Sorry, I encountered an error. Please try again."

  /** The guard at the top of `handleSendMessage`: something to send, a session, no turn in flight. */
  predicate SendAccepted(currentMessage: string, hasSession: bool, isLoading: bool) {
    Trim(currentMessage) != [] && hasSession && !isLoading
  }

  /** A send goes ahead exactly when the input is not white space alone, a session exists and no turn is loading. */
  lemma SendGuard(currentMessage: string, hasSession: bool, isLoading: bool)
    ensures SendAccepted(currentMessage, hasSession, isLoading) <==>
      !AllWhitespace(currentMessage) && hasSession && !isLoading
  {
    TrimSpec(currentMessage);
  }

  /** The message appended once the model's answer (or failure) arrives. */
  function Reply(outcome: Outcome<string>): ChatMessage {
    match outcome
    case Ok(text) => ChatMessage(Model, text)
    case Err(_) => ChatMessage(Model, Apology)
  }

  /** The reply is always the model's: the answer's text on success, the apology on failure. */
  lemma ReplyContents(outcome: Outcome<string>)
    ensures Reply(outcome).role == Model
    ensures outcome.Ok? ==> Reply(outcome).text == outcome.value
    ensures outcome.Err? ==> Reply(outcome).text == Apology
  {
  }

  /** The role the message at position `i` of a transcript has: the greeting and every answer are the model's, at even positions. */
  function RoleAt(i: nat): Role {
    if i % 2 == 0 then Model else User
  }

  /** Turns alternate: model greeting, then user and model messages in turn. */
  predicate Alternates(ms: seq<ChatMessage>) {
    forall i | 0 <= i < |ms| :: ms[i].role == RoleAt(i)
  }

  class AiChat {
    var hasSession: bool
    var messages: seq<ChatMessage>
    var currentMessage: string
    var isLoading: bool

    /**
     * Before the session exists nothing has been said; afterwards the
     * transcript opens with the greeting, alternates model and user messages,
     * and a turn is loading exactly when the last message is the user's.
     */
    predicate Valid()
      reads this
    {
      (!hasSession ==> messages == [] && !isLoading) &&
      (hasSession ==>
        |messages| > 0 && messages[0] == ChatMessage(Model, Greeting) &&
        Alternates(messages) &&
        (isLoading <==> messages[|messages| - 1].role == User))
    }

    constructor ()
      ensures Valid()
      ensures !hasSession && messages == [] && currentMessage == [] && !isLoading
    {
      hasSession := false;
      messages := [];
      currentMessage := [];
      isLoading := false;
    }

    /** The mount effect: a session is created and the transcript becomes the greeting alone. */
    method InitChat()
      requires Valid() && !hasSession
      modifies this`hasSession, this`messages
      ensures Valid()
      ensures hasSession && messages == [ChatMessage(Model, Greeting)]
    {
      hasSession := true;
      messages := [ChatMessage(Model, Greeting)];
    }

    /** The text area changed. */
    method EditMessage(text: string)
      requires Valid()
      modifies this`currentMessage
      ensures Valid()
      ensures currentMessage == text
    {
      currentMessage := text;
    }

    /**
     * The part of `handleSendMessage` before its await. When the guard fails
     * nothing changes; otherwise the trimmed input is appended as the user's
     * message, the input is cleared, loading starts, and the text handed to the
     * session is exactly that message's text.
     */
    method BeginSend() returns (sent: Option<string>)
      requires Valid()
      modifies this`messages, this`currentMessage, this`isLoading
      ensures Valid()
      ensures !SendAccepted(old(currentMessage), hasSession, old(isLoading)) ==>
        sent == None && messages == old(messages) &&
        currentMessage == old(currentMessage) && isLoading == old(isLoading)
      ensures SendAccepted(old(currentMessage), hasSession, old(isLoading)) ==>
        sent == Some(Trim(old(currentMessage))) &&
        messages == old(messages) + [ChatMessage(User, Trim(old(currentMessage)))] &&
        messages[|messages| - 1].text == sent.value &&
        currentMessage == [] && isLoading
    {
      if !SendAccepted(currentMessage, hasSession, isLoading) {
        return None;
      }
      var text := Trim(currentMessage);
      messages := messages + [ChatMessage(User, text)];
      currentMessage := [];
      isLoading := true;
      sent := Some(text);
    }

    /**
     * The rest of `handleSendMessage`: the model's answer, or the apology when
     * the call failed, is appended, and loading ends. The failure is not
     * passed on.
     */
    method CompleteSend(outcome: Outcome<string>)
      requires Valid() && isLoading
      modifies this`messages, this`isLoading
      ensures Valid()
      ensures messages == old(messages) + [Reply(outcome)]
      ensures !isLoading
    {
      messages := messages + [Reply(outcome)];
      isLoading := false;
    }

    /**
     * One turn from pressing send to the answer: an accepted send grows the
     * transcript by exactly the user's message and then the reply, keeping
     * everything before them.
     */
    method SendMessage(outcome: Outcome<string>) returns (sent: Option<string>)
      requires Valid()
      modifies this`messages, this`currentMessage, this`isLoading
      ensures Valid()
      ensures sent.Some? <==> SendAccepted(old(currentMessage), hasSession, old(isLoading))
      ensures sent.Some? ==>
        messages == old(messages) + [ChatMessage(User, sent.value), Reply(outcome)] &&
        |messages| == |old(messages)| + 2 && !isLoading && currentMessage == []
      ensures sent == None ==> messages == old(messages) && isLoading == old(isLoading)
      ensures old(messages) <= messages
    {
      sent := BeginSend();
      if sent.Some? {
        CompleteSend(outcome);
      }
    }
  }
}
