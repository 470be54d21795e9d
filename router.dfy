/**
 * The message handler `on_message` (main.py:108-162) as a decision ladder
 * over one inbound message: ignore the bot's own and @everyone messages,
 * require a mention or a direct message, refuse attachments, wipe the
 * author's history on RESET, and otherwise run one exchange with the
 * completion service and send the reply in slices.
 *
 * The completion call, error text included, is the parameter `complete`; the
 * messages sent are returned in order rather than written to a channel.
 */
module Router {
  import opened Options
  import opened Text
  import opened History
  import opened Dispatch
  import Conversation

  /** The refusal sent for a message with attachments (main.py:128-129). */
  const ImageRefusal: string :=
    "\U{1F6AB} My Groq brain is designed for words, not pictures. I cannot process images. "
    + "Perhaps you should try a different AI for your visual queries, or just ask me something savage."

  /** The notice sent when a handler step fails (main.py:162). */
  const FailureNotice: string :=
    "\U{274C} Something catastrophic happened while I was preparing my savage response. "
    + "Even I have limits, apparently."

  /** The confirmation of a wipe, naming the author (main.py:139-140). */
  function WipedNotice(authorName: string): string {
    "\U{1F916} History has been wiped clean for user: " + authorName + ". "
    + "Prepare for a fresh wave of my unfiltered, savage intellect."
  }

  /** What the handler reads of an inbound platform message. */
  datatype Message = Message(
    author: UserId,
    authorName: string,
    fromBot: bool,           // the author is the bot itself
    mentionsEveryone: bool,  // an @everyone mention
    mentionsBot: bool,       // the bot is mentioned
    isDirect: bool,          // the channel is a direct-message channel
    content: string,
    hasAttachments: bool)

  /** The rungs of the ladder, in the order they are checked. */
  datatype Branch = Ignore | Unaddressed | RefuseImage | Wipe | Converse

  /**
   * The branch `on_message` takes (main.py:110-146), given the cleaned text
   * of the message (main.py:123).
   */
  function Ladder(m: Message, cleaned: string): Branch {
    if m.fromBot || m.mentionsEveryone then Ignore
    else if !(m.mentionsBot || m.isDirect) then Unaddressed
    else if m.hasAttachments then RefuseImage
    else if HasResetKeyword(cleaned) then Wipe
    else Converse
  }

  datatype Route = Ignored | NotAddressed | ImageRefused | HistoryWiped | Answered | Failed

  /**
   * What one message caused: the route taken, the messages sent in order,
   * whether the speech-bubble reaction was added, and the prompt of the
   * completion request, if one was made.
   */
  datatype Handled = Handled(route: Route, sent: seq<string>, reacted: bool, request: Option<seq<Turn>>)

  /** The outcome of a message and the history store after it. */
  datatype Step = Step(out: Handled, entries: map<UserId, seq<Turn>>)

  /**
   * The steps of main.py:149-157, once the user turn is stored: the prompt
   * is built, the completion asked for and its text appended as the
   * assistant turn, and the reply sent in slices. A failing trim (possible
   * only with a negative `MAX_HISTORY`) ends with the failure notice of
   * main.py:159-162 instead, leaving the store as the trim left it.
   */
  function Replied(entries: map<UserId, seq<Turn>>, maxHistory: int, systemPrompt: string,
                   author: UserId, complete: seq<Turn> -> string): Step
  {
    var prompt := Prompt(systemPrompt, StoredIn(entries, author));
    var reply := complete(prompt);
    var h := StoredIn(entries, author) + [Turn(Assistant, reply)];
    var t := Trim(h, maxHistory);
    if TrimRaises(h, maxHistory) then
      Step(Handled(Failed, [FailureNotice], true, Some(prompt)), entries[author := t])
    else
      Step(Handled(Answered, Dispatched(reply, ReplyChunkLength), true, Some(prompt)), entries[author := t])
  }

  /**
   * The exchange of main.py:143-157 for the author's cleaned text: the user
   * turn is appended (main.py:146), then the steps of `Replied`. A failing
   * trim ends the exchange with the failure notice, no completion asked.
   */
  function Exchanged(entries: map<UserId, seq<Turn>>, maxHistory: int, systemPrompt: string,
                     author: UserId, text: string, complete: seq<Turn> -> string): Step
  {
    var h := StoredIn(entries, author) + [Turn(User, text)];
    var t := Trim(h, maxHistory);
    if TrimRaises(h, maxHistory) then
      Step(Handled(Failed, [FailureNotice], true, None), entries[author := t])
    else
      Replied(entries[author := t], maxHistory, systemPrompt, author, complete)
  }

  /**
   * `on_message` (main.py:108-162) as a function of the store contents, for
   * the message `m` whose cleaned text is `cleaned`. The properties below
   * are stated for any cleaned text, so they hold whatever the cleaning
   * yields.
   */
  function HandleCleaned(entries: map<UserId, seq<Turn>>, maxHistory: int, systemPrompt: string,
                         m: Message, cleaned: string, complete: seq<Turn> -> string): Step
  {
    match Ladder(m, cleaned)
    case Ignore => Step(Handled(Ignored, [], false, None), entries)
    case Unaddressed => Step(Handled(NotAddressed, [], false, None), entries)
    case RefuseImage => Step(Handled(ImageRefused, [ImageRefusal], false, None), entries)
    case Wipe => Step(Handled(HistoryWiped, [WipedNotice(m.authorName)], false, None), entries - {m.author})
    case Converse => Exchanged(entries, maxHistory, systemPrompt, m.author, cleaned, complete)
  }

  /** `on_message` (main.py:108-162) as a function of the store contents. */
  function Handle(entries: map<UserId, seq<Turn>>, maxHistory: int, systemPrompt: string,
                  m: Message, complete: seq<Turn> -> string): Step
  {
    HandleCleaned(entries, maxHistory, systemPrompt, m, Clean(m.content), complete)
  }

  /** The steps of main.py:149-157 against the store. */
  method Reply(store: HistoryStore, author: UserId, complete: seq<Turn> -> string)
    returns (out: Handled)
    modifies store
    ensures Step(out, store.entries)
      == Replied(old(store.entries), store.maxHistory, store.systemPrompt, author, complete)
  {
    var prompt := store.FormattedHistory(author);
    var reply := complete(prompt);
    var raised := store.Update(author, Assistant, reply);
    if raised {
      return Handled(Failed, [FailureNotice], true, Some(prompt));
    }
    var sent := SplitAndSend(reply, ReplyChunkLength);
    return Handled(Answered, sent, true, Some(prompt));
  }

  /** The steps of main.py:143-157 against the store. */
  method RunExchange(store: HistoryStore, author: UserId, text: string, complete: seq<Turn> -> string)
    returns (out: Handled)
    modifies store
    ensures Step(out, store.entries)
      == Exchanged(old(store.entries), store.maxHistory, store.systemPrompt, author, text, complete)
  {
    var raised := store.Update(author, User, text);
    if raised {
      return Handled(Failed, [FailureNotice], true, None);
    }
    out := Reply(store, author, complete);
  }

  /**
   * `on_message` (main.py:108-162) against the store, for the message `m`
   * whose cleaned text is `cleaned`. The command processing at main.py:114
   * and the typing indicator are outside the model.
   */
  method Respond(store: HistoryStore, m: Message, cleaned: string, complete: seq<Turn> -> string)
    returns (out: Handled)
    modifies store
    ensures Step(out, store.entries)
      == HandleCleaned(old(store.entries), store.maxHistory, store.systemPrompt, m, cleaned, complete)
  {
    ghost var e0 := store.entries;
    if m.fromBot || m.mentionsEveryone {
      return Handled(Ignored, [], false, None);
    }
    if !(m.mentionsBot || m.isDirect) {
      return Handled(NotAddressed, [], false, None);
    }
    if m.hasAttachments {
      return Handled(ImageRefused, [ImageRefusal], false, None);
    }
    if HasResetKeyword(cleaned) {
      store.Reset(m.author);
      HandleWipe(e0, store.maxHistory, store.systemPrompt, m, cleaned, complete);
      return Handled(HistoryWiped, [WipedNotice(m.authorName)], false, None);
    }
    HandleConverse(e0, store.maxHistory, store.systemPrompt, m, cleaned, complete);
    out := RunExchange(store, m.author, cleaned, complete);
  }

  /**
   * `on_message` (main.py:108-162): the message is cleaned (main.py:123)
   * and handled. Cleaning is pure, so doing it before the earlier rungs of
   * the ladder changes nothing.
   */
  method OnMessage(store: HistoryStore, m: Message, complete: seq<Turn> -> string)
    returns (out: Handled)
    modifies store
    ensures Step(out, store.entries)
      == Handle(old(store.entries), store.maxHistory, store.systemPrompt, m, complete)
  {
    var cleaned := Clean(m.content);
    out := Respond(store, m, cleaned, complete);
  }

  // ------------------------------------------------------------ properties

  /**
   * Ignored and unaddressed messages, and messages with attachments (checked
   * before the RESET keyword), leave the store unchanged and request no
   * completion; only the refusal is sent for an attachment.
   */
  lemma NoExchangeBeforeConverse(entries: map<UserId, seq<Turn>>, maxHistory: int, systemPrompt: string,
                                 m: Message, cleaned: string, complete: seq<Turn> -> string)
    requires Ladder(m, cleaned) != Converse
    ensures var s := HandleCleaned(entries, maxHistory, systemPrompt, m, cleaned, complete);
      && s.out.request == None && !s.out.reacted
      && (Ladder(m, cleaned) != Wipe ==> s.entries == entries)
      && (!m.fromBot && !m.mentionsEveryone && (m.mentionsBot || m.isDirect) && m.hasAttachments
          ==> s.out.sent == [ImageRefusal])
      && (m.fromBot || m.mentionsEveryone || !(m.mentionsBot || m.isDirect) ==> s.out.sent == [])
  {
  }

  lemma HandleWipe(entries: map<UserId, seq<Turn>>, maxHistory: int, systemPrompt: string,
                    m: Message, cleaned: string, complete: seq<Turn> -> string)
    requires Ladder(m, cleaned) == Wipe
    ensures HandleCleaned(entries, maxHistory, systemPrompt, m, cleaned, complete)
      == Step(Handled(HistoryWiped, [WipedNotice(m.authorName)], false, None), entries - {m.author})
  {
  }

  lemma HandleConverse(entries: map<UserId, seq<Turn>>, maxHistory: int, systemPrompt: string,
                       m: Message, cleaned: string, complete: seq<Turn> -> string)
    requires Ladder(m, cleaned) == Converse
    ensures HandleCleaned(entries, maxHistory, systemPrompt, m, cleaned, complete)
      == Exchanged(entries, maxHistory, systemPrompt, m.author, cleaned, complete)
  {
  }

  /**
   * The keyword rung takes "reset" in any mix of cases, also inside a longer
   * word, and a text without it goes on to the conversation.
   */
  lemma ResetRungExamples(m: Message)
    requires !m.fromBot && !m.mentionsEveryone && (m.mentionsBot || m.isDirect) && !m.hasAttachments
    ensures Ladder(m, "reset now") == Wipe
    ensures Ladder(m, "any presets?") == Wipe
    ensures Ladder(m, "rest") == Converse
  {
    ResetKeywordExamples();
  }

  /**
   * RESET removes the author's entry whether or not there was one, touches
   * no other user, and repeating it changes nothing; the next prompt for
   * the author is the system turn alone.
   */
  lemma ResetForgetsAuthor(entries: map<UserId, seq<Turn>>, maxHistory: int, systemPrompt: string,
                           m: Message, cleaned: string, complete: seq<Turn> -> string)
    requires Ladder(m, cleaned) == Wipe
    ensures var s := HandleCleaned(entries, maxHistory, systemPrompt, m, cleaned, complete);
      && m.author !in s.entries
      && (forall v :: v != m.author ==> StoredIn(s.entries, v) == StoredIn(entries, v))
      && HandleCleaned(s.entries, maxHistory, systemPrompt, m, cleaned, complete).entries == s.entries
      && Prompt(systemPrompt, StoredIn(s.entries, m.author)) == [Turn(System, systemPrompt)]
  {
    var s := HandleCleaned(entries, maxHistory, systemPrompt, m, cleaned, complete);
    HandleWipe(entries, maxHistory, systemPrompt, m, cleaned, complete);
    HandleWipe(s.entries, maxHistory, systemPrompt, m, cleaned, complete);
    assert s.entries == entries - {m.author};
    assert s.entries - {m.author} == s.entries;
    assert StoredIn(s.entries, m.author) == [];
  }

  /** With a non-negative bound the trim after the reply never fails. */
  lemma RepliedAnswers(entries: map<UserId, seq<Turn>>, maxHistory: int, systemPrompt: string,
                       author: UserId, complete: seq<Turn> -> string)
    requires maxHistory >= 0
    ensures var prompt := Prompt(systemPrompt, StoredIn(entries, author));
      var reply := complete(prompt);
      Replied(entries, maxHistory, systemPrompt, author, complete)
        == Step(Handled(Answered, Dispatched(reply, ReplyChunkLength), true, Some(prompt)),
                entries[author := Appended(StoredIn(entries, author), Turn(Assistant, reply), maxHistory)])
  {
  }

  /**
   * With a non-negative bound neither trim fails: the exchange is answered
   * with the reply in slices and stores the exchange.
   */
  lemma ExchangedAnswers(entries: map<UserId, seq<Turn>>, maxHistory: int, systemPrompt: string,
                         author: UserId, text: string, complete: seq<Turn> -> string)
    requires maxHistory >= 0
    ensures var h := StoredIn(entries, author);
      var prompt := Prompt(systemPrompt, Trim(h + [Turn(User, text)], maxHistory));
      var x := Conversation.Exchange(text, complete(prompt));
      Exchanged(entries, maxHistory, systemPrompt, author, text, complete)
        == Step(Handled(Answered, Dispatched(x.answer, ReplyChunkLength), true, Some(prompt)),
                entries[author := Conversation.AfterExchange(h, x, maxHistory)])
  {
    var h := StoredIn(entries, author);
    var t1 := Trim(h + [Turn(User, text)], maxHistory);
    var e1 := entries[author := t1];
    assert Exchanged(entries, maxHistory, systemPrompt, author, text, complete)
      == Replied(e1, maxHistory, systemPrompt, author, complete);
    assert StoredIn(e1, author) == t1;
    RepliedAnswers(e1, maxHistory, systemPrompt, author, complete);
    var x := Conversation.Exchange(text, complete(Prompt(systemPrompt, t1)));
    var t2 := Appended(t1, Turn(Assistant, x.answer), maxHistory);
    assert t2 == Conversation.AfterExchange(h, x, maxHistory);
    UpdateTwice(entries, author, t1, t2);
  }

  lemma UpdateTwice<K, V>(m: map<K, V>, k: K, a: V, b: V)
    ensures m[k := a][k := b] == m[k := b]
  {
  }

  /**
   * From whole pairs within a non-negative bound, an exchange never fails
   * and leaves every history whole pairs within the bound.
   */
  lemma ExchangedKeepsPairs(entries: map<UserId, seq<Turn>>, maxHistory: int, systemPrompt: string,
                            author: UserId, text: string, complete: seq<Turn> -> string)
    requires maxHistory >= 0 && WellPaired(entries, maxHistory)
    ensures var s := Exchanged(entries, maxHistory, systemPrompt, author, text, complete);
      s.out.route == Answered && WellPaired(s.entries, maxHistory)
  {
    var h := StoredIn(entries, author);
    var prompt := Prompt(systemPrompt, Trim(h + [Turn(User, text)], maxHistory));
    var x := Conversation.Exchange(text, complete(prompt));
    ExchangedAnswers(entries, maxHistory, systemPrompt, author, text, complete);
    StoredWellPaired(entries, maxHistory, author);
    Conversation.ExchangeKeepsPairs(h, x, maxHistory);
    WellPairedUpdate(entries, maxHistory, author, Conversation.AfterExchange(h, x, maxHistory));
  }

  /**
   * With a non-negative bound the handler never fails, and every history
   * stays whole user/assistant pairs within the bound.
   */
  lemma HandleKeepsPairs(entries: map<UserId, seq<Turn>>, maxHistory: int, systemPrompt: string,
                         m: Message, cleaned: string, complete: seq<Turn> -> string)
    requires maxHistory >= 0 && WellPaired(entries, maxHistory)
    ensures var s := HandleCleaned(entries, maxHistory, systemPrompt, m, cleaned, complete);
      s.out.route != Failed && WellPaired(s.entries, maxHistory)
  {
    if Ladder(m, cleaned) == Converse {
      HandleConverse(entries, maxHistory, systemPrompt, m, cleaned, complete);
      ExchangedKeepsPairs(entries, maxHistory, systemPrompt, m.author, cleaned, complete);
    }
  }

  /**
   * With a positive bound, the prompt built after the user turn is stored
   * starts with the system turn and ends with that user turn.
   */
  lemma PromptEndsWithQuestion(systemPrompt: string, h: seq<Turn>, u: Turn, maxHistory: int)
    requires maxHistory >= 1
    ensures var prompt := Prompt(systemPrompt, Trim(h + [u], maxHistory));
      |prompt| >= 2 && prompt[0] == Turn(System, systemPrompt) && prompt[|prompt| - 1] == u
  {
    var t1 := Trim(h + [u], maxHistory);
    assert t1 == Appended(h, u, maxHistory);
    assert Prompt(systemPrompt, t1)[|t1|] == t1[|t1| - 1];
  }

  /** Whatever happens in an exchange, only the author's history may change. */
  lemma ExchangeTouchesOnlyAuthor(entries: map<UserId, seq<Turn>>, maxHistory: int, systemPrompt: string,
                                  author: UserId, text: string, complete: seq<Turn> -> string)
    ensures var s := Exchanged(entries, maxHistory, systemPrompt, author, text, complete);
      author in s.entries && forall v :: v != author ==> StoredIn(s.entries, v) == StoredIn(entries, v)
  {
    var h := StoredIn(entries, author) + [Turn(User, text)];
    var e1 := entries[author := Trim(h, maxHistory)];
    var s := Exchanged(entries, maxHistory, systemPrompt, author, text, complete);
    var e2 := e1;
    if !TrimRaises(h, maxHistory) {
      var prompt := Prompt(systemPrompt, StoredIn(e1, author));
      var h2 := StoredIn(e1, author) + [Turn(Assistant, complete(prompt))];
      e2 := e1[author := Trim(h2, maxHistory)];
    }
    assert s.entries == e2;
    forall v | v != author ensures StoredIn(e2, v) == StoredIn(entries, v) {
      assert (v in e2 <==> v in entries) && (v in e2 ==> e2[v] == entries[v]);
    }
  }
}
