/**
 * The earlier chat box (`frontend/components/ChatBox.tsx`): the same
 * submit-and-settle cycle, but its guard checks only for blank input (a
 * submission while `loading` goes ahead), every request is sent as English,
 * the failure text is fixed, and turns carry only a role and a content.
 */
module LegacyChat {

  import opened Wrappers
  import opened Text
  import Chat

  /** A turn of the earlier chat box: role and content only. */
  datatype LegacyMessage = LegacyMessage(role: Chat.Role, content: string)

  /** The arguments of `chat(message, language)`. */
  datatype LegacyRequest = LegacyRequest(message: string, language: string)

  /** The call resolved with a `response` text, or threw. */
  datatype LegacyOutcome = Responded(response: string) | Failed

  const FailureText: string := "Sorry, I couldn't connect to the server."

  /** The guard of this `sendMessage`: non-blank input only. */
  predicate Accepts(input: string) {
    Trim(input) != ""
  }

  function LegacyReply(outcome: LegacyOutcome): LegacyMessage {
    match outcome
    case Responded(response) => LegacyMessage(Chat.Bot, response)
    case Failed => LegacyMessage(Chat.Bot, FailureText)
  }

  /**
   * The difference between the two guards: any non-blank input submitted
   * while a call is in flight is refused by the current chat box and
   * accepted by this one.
   */
  lemma NoLoadingGuard(input: string)
    requires !IsBlank(input)
    ensures Accepts(input) && !Chat.Accepts(input, true)
  {
    TrimEmptyIffBlank(input);
  }

  /** Both guards agree when nothing is in flight. */
  lemma GuardsAgreeWhenIdle(input: string)
    ensures Accepts(input) <==> Chat.Accepts(input, false)
  {
  }

  class LegacyChatBox {
    var input: string
    var messages: seq<LegacyMessage>
    var loading: bool
    /** Calls issued and not yet settled; more than one is possible here. */
    ghost var inFlight: nat

    ghost predicate Valid()
      reads this
    {
      && (forall i :: 0 <= i < |messages| && messages[i].role == Chat.User ==> Trim(messages[i].content) != "")
      && (loading ==> inFlight > 0)
    }

    constructor ()
      ensures Valid() && input == "" && messages == [] && !loading && inFlight == 0
    {
      input := "";
      messages := [];
      loading := false;
      inFlight := 0;
    }

    method EditInput(text: string)
      requires Valid()
      modifies this`input
      ensures Valid() && input == text
    {
      input := text;
    }

    /**
     * `sendMessage` up to the call: with non-blank input, whatever `loading`
     * says, appends the user turn, clears the input, sets `loading` and
     * returns the call's arguments, always with language `en`.
     */
    method Submit() returns (request: Option<LegacyRequest>)
      requires Valid()
      modifies this`messages, this`input, this`loading, this`inFlight
      ensures Valid()
      ensures request.Some? <==> Accepts(old(input))
      ensures request.None? ==> messages == old(messages) && input == old(input) && loading == old(loading)
                                && inFlight == old(inFlight)
      ensures request.Some? ==>
        && messages == old(messages) + [LegacyMessage(Chat.User, old(input))]
        && input == "" && loading && inFlight == old(inFlight) + 1
        && request.value == LegacyRequest(old(input), "en")
    {
      if Trim(input) == "" {
        return None;
      }
      var userMsg := LegacyMessage(Chat.User, input);
      messages := messages + [userMsg];
      input := "";
      loading := true;
      inFlight := inFlight + 1;
      request := Some(LegacyRequest(userMsg.content, "en"));
    }

    /**
     * `sendMessage` after the call: appends the response or the fixed
     * failure text and clears `loading`, even when other calls are still in flight.
     */
    method Settle(outcome: LegacyOutcome)
      requires Valid() && inFlight > 0
      modifies this`messages, this`loading, this`inFlight
      ensures Valid()
      ensures messages == old(messages) + [LegacyReply(outcome)]
      ensures !loading && inFlight == old(inFlight) - 1
    {
      match outcome {
        case Responded(response) =>
          messages := messages + [LegacyMessage(Chat.Bot, response)];
        case Failed =>
          messages := messages + [LegacyMessage(Chat.Bot, FailureText)];
      }
      loading := false;
      inFlight := inFlight - 1;
    }
  }
}
