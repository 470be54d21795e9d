# Sanda-AI message core, modelled in Dafny

Sanda-AI is a chat bot that answers Discord messages through a hosted
language-model completion service. This project models the part of `main.py`
that decides what happens to one inbound message:

- **Cleaning** (`clean_discord_message`, module `Text`, `text.dfy`). Three
  passes run in order. The first deletes user and channel mentions, custom
  and animated emoji, timestamps and fenced code blocks. The second deletes
  URLs. The third turns every whitespace run into one space and strips both
  ends. Each deletion pass is `Scrub`, a left-to-right scan with the same
  leftmost-match behaviour as `re.sub`. The patterns themselves are written
  as shapes of the matched text (`IsMarkupToken`, `IsUrl`), and the scanner
  is proved to find exactly the prefix that has the shape.
- **History** (`update_message_history`, `get_formatted_message_history` and
  the RESET deletion, module `History`, `history.dfy`). `HistoryStore` is a
  class holding the per-user map of turns. `Update` appends a turn and trims
  the list in place, with the same loop as the source. `Reset` deletes a
  user's entry. `FormattedHistory` builds the prompt: the system turn
  followed by a copy of each stored turn.
- **Conversations** (module `Conversation`, `conversation.dfy`). These are
  lemmas about runs of exchanges. An exchange is one user turn and the
  assistant turn stored after it. The main result: after any run of
  exchanges, the store holds exactly the latest `MAX_HISTORY` of them, as
  user/assistant pairs.
- **Dispatch** (`split_and_send_messages`, module `Dispatch`, `dispatch.dfy`).
  An empty reply becomes the "speechless" notice. Any other reply is cut
  into consecutive 1700-character slices, and only the slices with a
  non-whitespace character are sent.
- **The handler** (`on_message`, module `Router`, `router.dfy`). The rungs
  are checked in the source's order:
  1. the bot's own messages and @everyone messages are ignored;
  2. a message must mention the bot or come in a direct-message channel;
  3. a message with attachments is refused;
  4. a message whose cleaned text contains `RESET` (in any case) wipes the
     author's history;
  5. otherwise one exchange is run and the reply is dispatched.

  The methods (`OnMessage`, `Respond`, `RunExchange`, `Reply`) act on a
  `HistoryStore`. Each is proved equal to a function of the store's contents
  (`Handle`, `HandleCleaned`, `Exchanged`, `Replied`), and the lemmas are
  stated about those functions.

The completion service is the function parameter `complete`. It maps a
prompt to the reply text, and that text may be the source's own error
message. Sending is modelled as the sequence of messages the handler hands
to the channel, in order. Adding the reaction is a flag.

The cleaning is not idempotent: one left-to-right pass can join the text around a deleted token
into a new token. For example, `<@<@1>1>` cleans to `<@1>`, which cleans to
the empty string. The model follows the code, and `Text.CleanIsNotIdempotent`
proves this for every all-digit id.

## Model

| member | source | states |
|---|---|---|
| Text.Squeeze | main.py:265 | `re.sub(r'\s+', ' ', s)`: the result's only whitespace is plain spaces, never two in a row; a leading non-whitespace character is kept and a leading whitespace run becomes one space |
| Text.SqueezeKeepsNonSpace | main.py:265 | collapsing whitespace runs keeps every non-whitespace character, in order |
| Text.SkipSpacesKeepsNonSpace | main.py:265 | stripping the leading whitespace loses no non-whitespace character |
| Text.DropTrailingSpacesKeepsNonSpace | main.py:265 | stripping the trailing whitespace loses no non-whitespace character |
| Text.CollapseWhitespace | main.py:265 | collapse then strip gives exactly the words of the input joined by single spaces (`" ".join(s.split())`); no whitespace at either end, the same non-whitespace characters in order, and empty exactly when the input is blank |
| Text.WordsAreRuns | main.py:265 | every word of `s.split()`, a maximal run without whitespace, is non-empty and holds no whitespace |
| Text.JoinEnds | main.py:265 | words joined by single spaces neither start nor end with whitespace, and are empty exactly when there are no words |
| Text.SqueezeWords | main.py:265 | `re.sub(r'\s+', ' ', s)` is the words of `s` joined by single spaces, with one more space for a whitespace start and one for a whitespace end after a word |
| Text.CollapseIsJoin | main.py:265 | stripping the collapsed text leaves exactly the words joined by single spaces |
| Text.FindFence | main.py:259 | the code-block search finds the first fence at or after a position, with no fence in between, or reports that there is none |
| Text.CodeBlockLen | main.py:259 | a lazy DOTALL code-block match opens with a fence and closes with the first fence that starts after the opening one, so it is at least six characters long; a text opening with a fence has no match only when no fence starts after it |
| Text.MarkupTokenLen | main.py:259 | a match of the markup pattern starts with `<` or a backtick and never runs past the text; `Text.MarkupMatches` says which text it matches |
| Text.UrlLen | main.py:262 | a URL match starts with `h` or `w` and never runs past the text; `Text.UrlMatches` says which text it matches |
| Text.RunThenIff | main.py:259 | scanning a run of a class up to its closing character ends at `j` exactly when the text from the start up to `j - 1` is such a run closed at `j - 1`; the closing character is outside the class, so the regular expression cannot backtrack to another end |
| Text.UserMentionMatches | main.py:259 | the scanner gives `n` exactly when the first `n` characters are the whole of `<@!?\d+>` |
| Text.ChannelMentionMatches | main.py:259 | the scanner gives `n` exactly when the first `n` characters are the whole of `<#\d+>` |
| Text.CustomEmojiMatches | main.py:259 | the scanner gives `n` exactly when the first `n` characters are the whole of `<:\w+:\d+>` |
| Text.AnimatedEmojiMatches | main.py:259 | the scanner gives `n` exactly when the first `n` characters are the whole of `<a:\w+:\d+>` |
| Text.TimestampMatches | main.py:259 | the scanner gives `n` exactly when the first `n` characters are the whole of `<t:\d+:\w+>` |
| Text.CodeBlockMatches | main.py:259 | the scanner gives `n` exactly when the first `n` characters are a fence, anything, and the first fence after the opening one |
| Text.MarkupMatches | main.py:259 | the markup scanner gives `n` exactly when the first `n` characters have one of the six shapes of the pattern |
| Text.UrlMatches | main.py:262 | the URL scanner gives `n` exactly when the first `n` characters are `http://`, `https://` or `www.` followed by non-whitespace, and the greedy `\S+` ends there: at the end of the text or before whitespace |
| Text.TokenLenMatches | main.py:259-262 | the scanner's length is a match of the pass's pattern, and every match has that length, so at most one prefix matches at a position |
| Text.NoTokenNoMatch | main.py:259-262 | the scanner finds no token exactly where the pattern matches no prefix |
| Text.ScrubDropsMatches | main.py:259-262 | `re.sub` with an empty replacement: a matching prefix is dropped and the scan resumes after it; where nothing matches, the first character is kept |
| Text.Scrub | main.py:259-262 | a deletion pass never lengthens the text |
| Text.ScrubIdentity | main.py:259-262 | a text in which the pass's pattern matches at no position is left unchanged |
| Text.ScrubKeepsOpenerFree | main.py:259-262 | a text with no character that can start a token is left unchanged by a deletion pass |
| Text.MentionIsToken | main.py:259 | `<@`, one or more digits, then `>` is a token spanning exactly those characters |
| Text.BareAtIsNoToken | main.py:259 | `<@` followed by `<` starts no token |
| Text.NonOpenerKept | main.py:259-262 | a character that cannot start a token is kept by a deletion pass |
| Text.MentionDeletedBeforePlain | main.py:259 | a mention followed by text without openers is deleted, leaving exactly that text |
| Text.NestedMentionLeavesMention | main.py:259 | `<@` followed by a mention survives the pass, and the deletion joins it to what follows |
| Text.CleanPlainText | main.py:253-266 | a text in which neither pattern matches at any position is only re-spaced |
| Text.Clean | main.py:253-266 | the cleaned text is the words left by the two deletion passes, joined by single spaces; `CleanShape`, `CleanPlainText` and `CleanIsNotIdempotent` state its shape and behaviour |
| Text.CleanShape | main.py:253-266 | the cleaned text has no whitespace at either end, only single plain spaces inside, and the non-whitespace characters left by the two deletion passes |
| Text.CleanIsNotIdempotent | main.py:253-266 | `<@<@ds>ds>` cleans to `<@ds>`, which cleans to the empty string, so cleaning twice differs from cleaning once |
| Text.Upper | main.py:136 | upper-casing keeps the length, maps each lower-case ASCII letter to its capital (code point minus 32), leaves every other character as it is, and leaves no lower-case letter |
| Text.ContainsIffOccurs | main.py:136 | `pat in s` holds exactly when `pat` occurs at some index of `s` |
| Text.UpperContainsIff | main.py:136 | `RESET` is in the upper-cased text exactly when "reset", in any mix of cases, starts at some index |
| Text.HasResetKeyword | main.py:136 | the keyword test holds exactly when "reset", in any mix of cases, occurs at some index of the cleaned text, also inside a longer word |
| Text.ResetKeywordExamples | main.py:136 | "reset now" and "any presets?" hold the keyword; "rest" does not |
| History.Trim | main.py:208-216 | the trimming loop leaves a suffix of the list; it respects a non-negative bound, drops only whole pairs under a positive bound and no more than needed, and empties the list under a negative bound |
| History.TrimRaises | main.py:209-216 | the loop pops an empty list exactly when the bound is negative and the length is even |
| History.EvenDropKeepsAlternation | main.py:208-212 | dropping an even number of the oldest turns keeps user/assistant alternation |
| History.StoredWellPaired | main.py:197-216 | a store of whole pairs within the bound yields whole alternating pairs for any user, stored or not |
| History.WellPairedUpdate | main.py:197-216 | storing whole pairs for one user keeps the whole store well paired |
| History.Appended | main.py:202-216 | after appending and trimming, the list respects a non-negative bound and ends with the new turn when the bound is positive |
| History.Prompt | main.py:218-231 | the prompt is the system turn followed by the stored turns, in order |
| History.HistoryStore.constructor | main.py:13 | the store starts empty, with the configured bound and persona text |
| History.HistoryStore.Update | main.py:197-216 | only the user's entry changes, and it becomes the trimmed list with the turn appended; the IndexError is reported exactly when `TrimRaises` holds |
| History.HistoryStore.Reset | main.py:136-138 | the user's entry is removed, if present, and nothing else changes |
| History.HistoryStore.FormattedHistory | main.py:218-231 | the result is the system turn followed by a copy of each stored turn, and the store is only read |
| Conversation.PairTurnsAlternating | main.py:143-157 | a run of exchanges, stored as turns, alternates user, assistant |
| Conversation.PairTurnsAppendOne | main.py:143-157 | storing one more exchange appends its user turn and its assistant turn |
| Conversation.PairTurnsDropOldest | main.py:208-212 | dropping the two oldest turns is dropping the oldest exchange |
| Conversation.TrimAfterUserTurn | main.py:208-212 | appending to whole pairs within the bound trims at most the oldest pair |
| Conversation.ExchangeClosedForm | main.py:143-157 | an exchange appends the pair below the bound, replaces the oldest pair at the bound, and leaves nothing under a bound of zero |
| Conversation.ExchangeKeepsPairs | main.py:143-157 | from whole pairs within a non-negative bound, an exchange leaves whole alternating pairs within the bound: a suffix of the old turns plus the new pair, and with a positive bound the new pair is last |
| Conversation.ExchangeOnWindow | main.py:143-157 | an exchange applied to the stored window slides the window by that exchange |
| Conversation.ConverseKeepsLatest | main.py:143-157 | after any run of exchanges from no history, the store holds exactly the latest `MAX_HISTORY` exchanges, oldest first |
| Conversation.ElevenExchangesEvictOldest | main.py:208-212 | with ten pairs allowed, eleven exchanges leave exchanges two to eleven, twenty turns |
| Conversation.AfterExchange | main.py:146-154 | one exchange: the user turn stored and trimmed, then the assistant turn stored and trimmed; `ExchangeClosedForm`, `ExchangeKeepsPairs`, `ExchangeOnWindow` and `ConverseKeepsLatest` state its effect |
| Dispatch.ChunksRebuildText | main.py:244-246 | the slices, concatenated, give back the reply |
| Dispatch.ChunksSizes | main.py:244-246 | every slice is non-empty and at most `max_length` long, all but the last exactly `max_length`, and there are ceil(len / max_length) slices |
| Dispatch.NonBlankLosesOnlySpaces | main.py:249-251 | skipping blank slices loses only whitespace, and no blank slice is sent |
| Dispatch.NonBlankKeepsAll | main.py:249-251 | when no slice is blank, every slice is sent |
| Dispatch.SliceText | main.py:242-246 | the slicing loop produces exactly the consecutive slices of the reply |
| Dispatch.SendNonBlank | main.py:249-251 | the sending loop sends exactly the non-blank slices, in order |
| Dispatch.SplitAndSend | main.py:234-251 | an empty reply sends only the speechless notice; any other reply sends exactly its non-blank slices, in order |
| Dispatch.ThreeChunksFor3500 | main.py:244-251 | a 3500-character reply is cut into slices of 1700, 1700 and 100, all sent when the reply has no whitespace |
| Dispatch.Chunks | main.py:244-246 | the consecutive `max_length` slices of the reply; `ChunksRebuildText` and `ChunksSizes` state what they are, and `SliceText` is proved to compute them |
| Dispatch.Dispatched | main.py:238-251 | the messages a reply is sent as; `SplitAndSend` is proved to send them, and `NonBlankLosesOnlySpaces`, `NonBlankKeepsAll` and `ThreeChunksFor3500` state what they hold |
| Router.OnMessage | main.py:108-162 | the messages sent, the reaction, the completion request and the new store are those of `Handle` on the old store |
| Router.Respond | main.py:108-162 | the same, for an already cleaned text |
| Router.Ladder | main.py:110-146 | the rung a message takes, checked in the source's order; `NoExchangeBeforeConverse`, `HandleWipe`, `HandleConverse` and `ResetRungExamples` state what each rung does |
| Router.Handle | main.py:108-162 | the outcome of one message: `HandleCleaned` on the cleaned content; `OnMessage` is proved equal to it, and `HandleKeepsPairs` states its invariant |
| Router.HandleCleaned | main.py:110-162 | the outcome for an already cleaned text; stated rung by rung by `NoExchangeBeforeConverse`, `HandleWipe`, `HandleConverse` and `ResetForgetsAuthor` |
| Router.Exchanged | main.py:143-162 | one exchange with the store; stated by `ExchangedAnswers`, `ExchangedKeepsPairs`, `ExchangeTouchesOnlyAuthor` and `PromptEndsWithQuestion` |
| Router.Replied | main.py:149-162 | the reply step once the question is stored; stated by `RepliedAnswers` |
| Router.RunExchange | main.py:143-162 | storing the question, asking for the reply, storing it and dispatching it, with the failure notice when a trim fails, match `Exchanged` |
| Router.Reply | main.py:149-162 | building the prompt, asking for the reply, storing it and dispatching it match `Replied` |
| Router.NoExchangeBeforeConverse | main.py:110-130 | ignored, unaddressed and attachment messages ask for no completion and leave the store as it was; only an attachment gets a reply, the refusal |
| Router.HandleWipe | main.py:136-141 | on RESET the author's entry is deleted and only the wipe notice, naming the author, is sent |
| Router.HandleConverse | main.py:143-157 | a message that passes every rung runs one exchange |
| Router.ResetRungExamples | main.py:136-138 | an addressed message without attachments whose cleaned text is "reset now" or "any presets?" takes the wipe rung; "rest" goes on to the conversation |
| Router.ResetForgetsAuthor | main.py:136-141 | after RESET the author has no history, no other user's history has changed, a second RESET changes nothing, and the author's next prompt is the system turn alone |
| Router.RepliedAnswers | main.py:149-157 | with a non-negative bound, the reply step answers with the dispatched reply and stores the assistant turn |
| Router.ExchangedAnswers | main.py:143-157 | with a non-negative bound, an exchange answers with the dispatched reply and stores exactly the exchange |
| Router.ExchangedKeepsPairs | main.py:143-157 | from whole pairs within a non-negative bound, an exchange is answered and leaves every history as whole pairs within the bound |
| Router.HandleKeepsPairs | main.py:108-162 | with a non-negative bound the handler never sends the failure notice, and every history stays whole user/assistant pairs within the bound |
| Router.PromptEndsWithQuestion | main.py:146-149 | with a positive bound, the prompt starts with the system turn and ends with the question just stored |
| Router.ExchangeTouchesOnlyAuthor | main.py:143-157 | an exchange, whatever its outcome, changes only the author's history |

## Left out

- Discord itself is not part of this model: the gateway, `bot.process_commands` (main.py:114), the typing indicator and message objects. The handler reads the fields of `Router.Message`, and sending is the returned sequence of messages.
- The completion call (main.py:166-194) is the parameter `complete`. Its model, temperature and token settings, and its catch-all error text, are the service's business. Whatever text it returns, error text included, is handled like a reply.
- Startup, environment loading, `keep_alive`, `test_groq_connection` and logging (`print`, `traceback`) have no effect on the modelled state and are left out.
- `SYSTEM_PROMPT` is an opaque string parameter of the store; its wording is not modelled.
- Asynchrony is left out. Each message is handled to completion before the next, so interleaved handlers sharing `message_history` are not modelled.
- Failures of Discord calls (a send or a reaction raising inside the `try` of main.py:118-162) are not modelled. The `except` branch is modelled only for the one failure inside the core: the `IndexError` of the trim under a negative `MAX_HISTORY`.
- Text.IsSpace: `\s`, `str.strip()` and `str.isspace()` are Unicode-aware in Python; the model recognises only the ASCII whitespace characters (space, U+0009 to U+000D, U+001C to U+001F).
- Text.IsWordChar: `\w` and `\d` are Unicode-aware in Python; the model uses the ASCII letters, digits and underscore.
- Text.Upper: Python's `str.upper()` also maps non-ASCII letters, some to several characters; the model upper-cases ASCII letters only. A non-ASCII spelling of RESET that upper-cases to ASCII is not recognised.
- The order of cleaning is not kept: the model cleans the text before testing the earlier rungs of the ladder, while the source cleans after the address check (main.py:123). Cleaning is pure, so the outcome is the same.
- Dispatch.SplitAndSend: requires `max_length > 0`. Python's `range` raises `ValueError` for a step of 0, and the only caller passes 1700.
