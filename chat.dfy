/**
 * The chat session engine of the current frontend (`frontend/src/components/ChatBox.tsx`):
 * the message log, the `loading` flag, the input buffer and the locale, the
 * submission split into `Submit` (up to the remote call) and `Settle` (its
 * completion), the welcome effect and the confidence badge.
 */
module Chat {

  import opened Wrappers
  import opened Text
  import opened I18n
  import Markup

  datatype Role = User | Bot

  datatype Confidence = Low | Medium | High

  /** One conversation turn; `sources` and `confidence` are the optional fields of the source's `Message`. */
  datatype Message = Message(role: Role, content: string, sources: Option<seq<string>>, confidence: Option<Confidence>)

  /** The body `sendChatMessage` posts. */
  datatype ChatRequest = ChatRequest(query: string, language: string)

  /**
   * How the remote call settled: a response, or a rejection (network error,
   * non-success status, unparsable body), which `sendChatMessage` throws.
   */
  datatype Outcome = Answered(answer: string, sources: seq<string>, confidence: Confidence) | Failed

  /** A user turn carries neither sources nor confidence, and is never blank. */
  predicate WellFormed(m: Message) {
    m.role == User ==> m.sources.None? && m.confidence.None? && Trim(m.content) != ""
  }

  /** The guard of `sendMessage`: a submission goes ahead only with non-blank input and no call in flight. */
  predicate Accepts(input: string, loading: bool) {
    Trim(input) != "" && !loading
  }

  /** The turn the welcome effect inserts. */
  function Welcome(t: Catalog): Message {
    Message(Bot, "**" + t.chat.welcomeTitle + "**" + "\n" + "\n" + t.chat.welcomeMessage, None, Some(High))
  }

  /** The bot turn appended when the call settles: the answer, or the catalog's error text with low confidence. */
  function Reply(outcome: Outcome, t: Catalog): Message {
    match outcome
    case Answered(answer, sources, confidence) => Message(Bot, answer, Some(sources), Some(confidence))
    case Failed => Message(Bot, t.chat.error, None, Some(Low))
  }

  /** A rendered confidence badge: an opaque style token and the localized label. */
  datatype Badge = Badge(style: string, caption: string)

  const HighStyle: string := "bg-green-100 text-green-700 border-green-200"
  const MediumStyle: string := "bg-amber-100 text-amber-700 border-amber-200"
  const LowStyle: string := "bg-rose-100 text-rose-700 border-rose-200"

  /** `getConfidenceBadge`: nothing for an absent confidence, otherwise the level's style and label. */
  function ConfidenceBadge(confidence: Option<Confidence>, t: Catalog): Option<Badge> {
    match confidence
    case None => None
    case Some(High) => Some(Badge(HighStyle, LevelLabel(High, t)))
    case Some(Medium) => Some(Badge(MediumStyle, LevelLabel(Medium, t)))
    case Some(Low) => Some(Badge(LowStyle, LevelLabel(Low, t)))
  }

  /** The label the catalog gives a confidence level. */
  function LevelLabel(c: Confidence, t: Catalog): string {
    match c
    case High => t.common.high
    case Medium => t.common.medium
    case Low => t.common.low
  }

  // ---------------------------------------------------------------------------
  // Properties of the pure parts

  /** The guard rejects exactly blank input and submissions while loading. */
  lemma AcceptsIff(input: string, loading: bool)
    ensures Accepts(input, loading) <==> !IsBlank(input) && !loading
  {
    TrimEmptyIffBlank(input);
  }

  /** The badge exists exactly when a confidence is present, carries that level's label, and the three styles differ. */
  lemma BadgeTotal(confidence: Option<Confidence>, t: Catalog)
    ensures ConfidenceBadge(confidence, t).Some? <==> confidence.Some?
    ensures confidence.Some? ==> ConfidenceBadge(confidence, t).value.caption == LevelLabel(confidence.value, t)
    ensures forall c1: Confidence, c2: Confidence :: c1 != c2 ==>
      ConfidenceBadge(Some(c1), t).value.style != ConfidenceBadge(Some(c2), t).value.style
  {
    assert HighStyle[3] == 'g' && MediumStyle[3] == 'a' && LowStyle[3] == 'r';
  }

  /** Every reply is a well-formed bot turn; a failure is the catalog's error text with low confidence and no sources. */
  lemma ReplyShape(outcome: Outcome, t: Catalog)
    ensures Reply(outcome, t).role == Bot && WellFormed(Reply(outcome, t))
    ensures outcome.Failed? ==> Reply(outcome, t).content == t.chat.error && Reply(outcome, t).sources.None?
                                && Reply(outcome, t).confidence == Some(Low)
    ensures outcome.Answered? ==> Reply(outcome, t).content == outcome.answer
                                  && Reply(outcome, t).sources == Some(outcome.sources)
                                  && Reply(outcome, t).confidence == Some(outcome.confidence)
  {
  }

  /**
   * The welcome turn shows its title in bold, then two line breaks, then the
   * message, provided the catalog strings hold no `*` and no line break.
   */
  lemma WelcomeBubble(t: Catalog)
    requires forall j :: 0 <= j < |t.chat.welcomeTitle| ==> t.chat.welcomeTitle[j] != '*' && !IsLineTerminator(t.chat.welcomeTitle[j])
    requires forall j :: 0 <= j < |t.chat.welcomeMessage| ==> t.chat.welcomeMessage[j] != '*' && !IsLineTerminator(t.chat.welcomeMessage[j])
    ensures Markup.RenderBubble(Welcome(t).content)
         == Markup.BubbleOpen + t.chat.welcomeTitle + Markup.StrongClose + Markup.LineBreak + Markup.LineBreak + t.chat.welcomeMessage
  {
    var title, msg := t.chat.welcomeTitle, t.chat.welcomeMessage;
    var head := "**" + title + "**";
    var tail := "" + "\n" + msg;
    assert Welcome(t).content == head + "\n" + tail by {
      assert tail == "\n" + msg;
    }
    assert Markup.RenderBubble(head) == Markup.BubbleOpen + title + Markup.StrongClose by {
      Markup.SinglePair(title, Markup.BubbleOpen, Markup.StrongClose);
      Markup.BreakLinesNoNewline(Markup.BubbleOpen + title + Markup.StrongClose);
    }
    assert Markup.RenderBubble(tail) == Markup.LineBreak + msg by {
      Markup.RenderBubbleAcrossBreak("", msg);
      assert Markup.RenderBubble("") == "";
      Markup.UnmatchedUnchanged(msg, Markup.BubbleOpen, Markup.StrongClose);
      Markup.BreakLinesNoNewline(msg);
    }
    Markup.RenderBubbleAcrossBreak(head, tail);
  }

  // ---------------------------------------------------------------------------
  // The component's state

  class ChatBox {
    /** The translation catalogs (`locales`). */
    const catalogs: Catalogs
    /** The `locale` prop. */
    var locale: Locale
    var input: string
    var messages: seq<Message>
    var loading: bool
    /** Remote calls issued and not yet settled. */
    ghost var inFlight: nat

    /**
     * Every turn is well formed; `loading` is set exactly while the one
     * permitted call is in flight, and then the log ends with the user turn
     * that call answers.
     */
    ghost predicate Valid()
      reads this
    {
      && (forall i :: 0 <= i < |messages| ==> WellFormed(messages[i]))
      && inFlight == (if loading then 1 else 0)
      && (loading ==> |messages| > 0 && messages[|messages| - 1].role == User)
    }

    /** `t`: the catalog of the current locale. */
    function T(): Catalog
      reads this
    {
      GetTranslations(catalogs, Code(locale))
    }

    /** The state right after the component is created, before any effect runs. */
    constructor (catalogs: Catalogs, locale: Locale)
      ensures Valid()
      ensures this.catalogs == catalogs && this.locale == locale
      ensures input == "" && messages == [] && !loading && inFlight == 0
    {
      this.catalogs := catalogs;
      this.locale := locale;
      input := "";
      messages := [];
      loading := false;
      inFlight := 0;
    }

    /** The welcome effect: a welcome turn in the current locale, only when the log is empty. */
    method WelcomeEffect()
      requires Valid()
      modifies this`messages
      ensures Valid()
      ensures old(messages) == [] ==> messages == [Welcome(T())]
      ensures old(messages) != [] ==> messages == old(messages)
    {
      if |messages| == 0 {
        messages := [Welcome(T())];
      }
    }

    /** A new `locale` prop; the effect, keyed on the locale, runs when it differs from the old one. */
    method ChangeLocale(l: Locale)
      requires Valid()
      modifies this`locale, this`messages
      ensures Valid() && locale == l
      ensures old(locale) != l && old(messages) == [] ==> messages == [Welcome(T())]
      ensures old(locale) == l || old(messages) != [] ==> messages == old(messages)
    {
      if l != locale {
        locale := l;
        WelcomeEffect();
      }
    }

    /** The input field's `onChange` (and a suggestion card's click). */
    method EditInput(text: string)
      requires Valid()
      modifies this`input
      ensures Valid() && input == text
    {
      input := text;
    }

    /**
     * `sendMessage` up to the remote call: rejected without any change when
     * the input is blank or a call is in flight; otherwise appends the user
     * turn with the untrimmed input, clears the input, sets `loading` and
     * returns the request carrying the input and the locale's code.
     */
    method Submit() returns (request: Option<ChatRequest>)
      requires Valid()
      modifies this`messages, this`input, this`loading, this`inFlight
      ensures Valid()
      ensures request.Some? <==> Accepts(old(input), old(loading))
      ensures request.None? ==> messages == old(messages) && input == old(input) && loading == old(loading)
                                && inFlight == old(inFlight)
      ensures request.Some? ==>
        && messages == old(messages) + [Message(User, old(input), None, None)]
        && input == "" && loading && inFlight == 1
        && request.value == ChatRequest(old(input), Code(locale))
    {
      if Trim(input) == "" || loading {
        return None;
      }
      var userMsg := Message(User, input, None, None);
      messages := messages + [userMsg];
      request := Some(ChatRequest(input, Code(locale)));
      input := "";
      loading := true;
      inFlight := inFlight + 1;
    }

    /**
     * `sendMessage` after the remote call: appends the answer (or the
     * localized error turn) right after the user turn it answers, and clears
     * `loading` on either path.
     */
    method Settle(outcome: Outcome)
      requires Valid() && inFlight > 0
      modifies this`messages, this`loading, this`inFlight
      ensures Valid()
      ensures old(messages)[|old(messages)| - 1].role == User
      ensures messages == old(messages) + [Reply(outcome, T())]
      ensures !loading && inFlight == 0
    {
      ReplyShape(outcome, T());
      match outcome {
        case Answered(answer, sources, confidence) =>
          messages := messages + [Message(Bot, answer, Some(sources), Some(confidence))];
        case Failed =>
          messages := messages + [Message(Bot, T().chat.error, None, Some(Low))];
      }
      loading := false;
      inFlight := inFlight - 1;
    }
  }
}
