/**
 The reply policy of the bot's text handler `handle_text` (bot.py:68-101) and
 the prompt builder `build_user_input` (bot.py:47-49). The chat transport and
 the completion service are abstracted away: the service's outcome is a
 parameter, and the effect of handling one message is the input sent to the
 service, if it was called at all, and the texts replied, in order.
 */
module Handler {
  import opened Text
  import Segmenter

  datatype Option<T> = None | Some(value: T) {
    /** Python's `x or ""` for a possibly missing string, used only with
        the empty default: Python's `or` would also replace an empty `x` by
        a non-empty default. */
    function GetOr(default: T): T {
      match this
      case Some(v) => v
      case None => default
    }
  }

  /** Longest user text, in characters, that is sent to the service (bot.py:76). */
  const MaxWordLength: nat := 80

  /** Reply to a user text longer than `MaxWordLength` (bot.py:78). */
  const TooLongNotice: string :=
    "Too long, lad! I'm just a cat. Send me a word or phrase less than 80 characters."

  /** Stands in for an empty answer of the service (bot.py:90). The text is
      the source's single literal, written in two pieces so that the proof
      about its first character stays short. */
  const EmptyAnswerNotice: string := "Got an empty answer" + " from model. Sad. Try another word."

  /** Start of the reply to a failed service call (bot.py:100). */
  const ErrorPrefix: string := "Oops, an error: "

  /** Start of the input sent to the service (bot.py:49). */
  const PromptPrefix: string := "Слово/фраза: "

  /** What the completion call yields: the response's `output_text`, which
      may be missing, or an exception, described by its type name and
      message. */
  datatype Completion = Responded(outputText: Option<string>) | Raised(description: string)

  /** The effect of handling one incoming message. */
  datatype Reply = Reply(request: Option<string>, messages: seq<string>)

  /** What follows `prefix` in `s`, if `s` starts with it. */
  function AfterPrefix(prefix: string, s: string): Option<string> {
    if |prefix| <= |s| && s[..|prefix|] == prefix then Some(s[|prefix|..]) else None
  }

  /** A text put after a prefix is recovered from the result, so different
      texts give different results. */
  lemma AfterPrefixRoundTrip(prefix: string, t: string)
    ensures AfterPrefix(prefix, prefix + t) == Some(t)
    ensures forall other :: prefix + other == prefix + t ==> other == t
  {
    assert (prefix + t)[..|prefix|] == prefix;
    assert (prefix + t)[|prefix|..] == t;
    forall other | prefix + other == prefix + t
      ensures other == t
    {
      assert other == (prefix + other)[|prefix|..];
    }
  }

  /** `build_user_input(word)` (bot.py:47-49). */
  function BuildUserInput(word: string): (prompt: string)
    ensures |prompt| == |PromptPrefix| + |word|
    ensures prompt[..|PromptPrefix|] == PromptPrefix && prompt[|PromptPrefix|..] == word
  {
    PromptPrefix + word
  }

  /** The input sent to the service carries the user's word unchanged after
      a fixed prefix, so different words give different inputs. */
  lemma UserInputRoundTrip(word: string)
    ensures AfterPrefix(PromptPrefix, BuildUserInput(word)) == Some(word)
    ensures forall other :: BuildUserInput(other) == BuildUserInput(word) ==> other == word
  {
    AfterPrefixRoundTrip(PromptPrefix, word);
  }

  /** The answer `call_openai` returns: `(response.output_text or "").strip()`
      (bot.py:65). */
  function AnswerText(outputText: Option<string>): (answer: string)
    ensures answer == [] <==> outputText.None? || AllWhitespace(outputText.value)
    ensures answer == [] || (!IsWhitespace(answer[0]) && !IsWhitespace(answer[|answer| - 1]))
    ensures exists i :: TrimmedAt(outputText.GetOr(""), answer, i)
  {
    Strip(outputText.GetOr(""))
  }

  /** The answer is the service's text with its outer whitespace removed:
      it keeps every other character in order, and any trimmed slice of the
      output with only whitespace around it is the answer. */
  lemma AnswerTextOfOutput(outputText: Option<string>, candidate: string, i: int)
    ensures NonWhitespace(AnswerText(outputText)) == NonWhitespace(outputText.GetOr(""))
    ensures TrimmedAt(outputText.GetOr(""), candidate, i)
            && (candidate == [] || (!IsWhitespace(candidate[0]) && !IsWhitespace(candidate[|candidate| - 1])))
            ==> candidate == AnswerText(outputText)
  {
    var out := outputText.GetOr("");
    StripKeepsNonWhitespace(out);
    if TrimmedAt(out, candidate, i)
       && (candidate == [] || (!IsWhitespace(candidate[0]) && !IsWhitespace(candidate[|candidate| - 1])))
    {
      StripUnique(out, candidate, i);
    }
  }

  /** The reply to a failed service call (bot.py:99-101); the exception's
      type name and message are kept together in `description`. */
  function ErrorReply(description: string): (message: string)
    ensures |message| == |ErrorPrefix| + |description|
    ensures message[..|ErrorPrefix|] == ErrorPrefix
    ensures message[|ErrorPrefix|..] == description
  {
    ErrorPrefix + description
  }

  /** The error reply carries the exception's description unchanged after a
      fixed prefix, so different failures are told apart. */
  lemma ErrorReplyRoundTrip(description: string)
    ensures AfterPrefix(ErrorPrefix, ErrorReply(description)) == Some(description)
    ensures forall other :: ErrorReply(other) == ErrorReply(description) ==> other == description
  {
    AfterPrefixRoundTrip(ErrorPrefix, description);
  }

  /** The messages sent once the service has answered or failed
      (bot.py:85-101). */
  function Respond(outcome: Completion): (messages: seq<string>)
    ensures outcome.Raised? ==> messages == [ErrorReply(outcome.description)]
    ensures outcome.Responded? ==>
              && |messages| >= 1
              && forall m :: m in messages ==> 1 <= |m| <= Segmenter.TelegramLimit
    ensures outcome.Responded? && AnswerText(outcome.outputText) == [] ==>
              messages == [EmptyAnswerNotice]
    ensures outcome.Responded? && AnswerText(outcome.outputText) != [] ==>
              messages == Segmenter.Split(AnswerText(outcome.outputText), Segmenter.TelegramLimit)
  {
    match outcome
    case Raised(description) => [ErrorReply(description)]
    case Responded(outputText) => RelayAnswer(AnswerText(outputText))
  }

  /** The messages relaying a trimmed answer of the service (bot.py:89-94):
      an empty answer is replaced by the fallback notice before splitting. */
  function RelayAnswer(answer: string): (messages: seq<string>)
    requires answer == [] || (!IsWhitespace(answer[0]) && !IsWhitespace(answer[|answer| - 1]))
    ensures |messages| >= 1
    ensures forall m :: m in messages ==> 1 <= |m| <= Segmenter.TelegramLimit
    ensures answer == [] ==> messages == [EmptyAnswerNotice]
    ensures answer != [] ==> messages == Segmenter.Split(answer, Segmenter.TelegramLimit)
  {
    if answer == [] then
      EmptyNoticeFits();
      Segmenter.Split(EmptyAnswerNotice, Segmenter.TelegramLimit)
    else
      SplitAnswerFits(answer);
      Segmenter.Split(answer, Segmenter.TelegramLimit)
  }

  /** The fallback notice is sent as a single message. */
  lemma EmptyNoticeFits()
    ensures Segmenter.Split(EmptyAnswerNotice, Segmenter.TelegramLimit) == [EmptyAnswerNotice]
    ensures 1 <= |EmptyAnswerNotice| <= Segmenter.TelegramLimit
  {
    assert EmptyAnswerNotice[0] == 'G';
    assert EmptyAnswerNotice[|EmptyAnswerNotice| - 1] == '.';
    StripOfTrimmed(EmptyAnswerNotice);
  }

  /** A non-empty trimmed answer is sent as non-empty messages that each fit
      in one Telegram message. */
  lemma SplitAnswerFits(answer: string)
    requires answer != [] && !IsWhitespace(answer[0]) && !IsWhitespace(answer[|answer| - 1])
    ensures var messages := Segmenter.Split(answer, Segmenter.TelegramLimit);
            && |messages| >= 1
            && forall m :: m in messages ==> 1 <= |m| <= Segmenter.TelegramLimit
  {
    StripOfTrimmed(answer);
  }

  /** `handle_text` (bot.py:68-101) on the text of one incoming message, which
      may be missing, given what the service would return for it. */
  function HandleText(text: Option<string>, outcome: Completion): (reply: Reply)
    // Blank input gets no reply at all; every other input gets one.
    ensures reply.messages == [] <==> AllWhitespace(text.GetOr(""))
    // The service is asked exactly for non-blank texts of at most 80
    // characters after trimming, with the trimmed text as the word.
    ensures reply.request.Some? <==>
              !AllWhitespace(text.GetOr("")) && |Strip(text.GetOr(""))| <= MaxWordLength
    ensures reply.request.Some? ==>
              reply.request.value == BuildUserInput(Strip(text.GetOr("")))
    ensures |Strip(text.GetOr(""))| > MaxWordLength ==> reply.messages == [TooLongNotice]
    ensures reply.request.Some? ==> reply.messages == Respond(outcome)
    // Whatever does not come from a failure fits in Telegram messages.
    ensures !outcome.Raised? ==>
              forall m :: m in reply.messages ==> 1 <= |m| <= Segmenter.TelegramLimit
  {
    var userText := Strip(text.GetOr(""));
    if userText == [] then Reply(None, [])
    else if |userText| > MaxWordLength then Reply(None, [TooLongNotice])
    else Reply(Some(BuildUserInput(userText)), Respond(outcome))
  }

  /** A short answer that needs no trimming comes back as the only message,
      and the service was asked about the trimmed user text. */
  lemma ShortAnswerRelayed(text: string, answer: string)
    requires !AllWhitespace(text) && |Strip(text)| <= MaxWordLength
    requires answer != [] && |answer| <= Segmenter.TelegramLimit
    requires !IsWhitespace(answer[0]) && !IsWhitespace(answer[|answer| - 1])
    ensures HandleText(Some(text), Responded(Some(answer)))
              == Reply(Some(BuildUserInput(Strip(text))), [answer])
  {
    StripOfTrimmed(answer);
  }

  /** Only whitespace of the service's answer is lost on the way to the user:
      the messages carry every other character of it, in order. */
  lemma AnswerRelayedUpToWhitespace(text: Option<string>, outputText: string)
    requires !AllWhitespace(text.GetOr("")) && |Strip(text.GetOr(""))| <= MaxWordLength
    requires !AllWhitespace(outputText)
    ensures NonWhitespace(Concat(HandleText(text, Responded(Some(outputText))).messages))
              == NonWhitespace(outputText)
  {
    var answer := AnswerText(Some(outputText));
    StripKeepsNonWhitespace(outputText);
    Segmenter.SplitKeepsNonWhitespace(answer, Segmenter.TelegramLimit);
  }
}
