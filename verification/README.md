# A verified model of the Dicky Telegram bot's reply logic

The bot (`bot.py`) takes a word or phrase from a Telegram chat and asks a
language model about it. It then relays the answer back to the chat, cut
into messages that fit Telegram's limit of 4096 characters. This project
models the logic of that path, with the chat and the model service left
abstract:

- `split_telegram` (`segmenter.dfy`, module `Segmenter`). It trims a text
  and, when it is too long for one message, cuts it into chunks of at most
  `limit` characters. A cut is made at the last line break of the window
  when that break lies past 60% of the limit. What follows each chunk is
  left-stripped.
- The Python string operations it relies on (`text.dfy`, module `Text`):
  - `str.isspace` for one code point, as an explicit list of code points;
  - `strip`, `lstrip`, and `rfind` for one character;
  - the projection of a text onto its non-whitespace characters, which is
    how "only whitespace is lost" is stated.
- `build_user_input` and the decision policy of `handle_text`
  (`handler.dfy`, module `Handler`). Handling one message yields a `Reply`:
  the input sent to the model service, if the service was asked at all,
  and the texts replied, in order. The service's outcome is a parameter
  (`Completion`): either the response's `output_text`, which may be
  missing, or a raised exception.
- Generic sequence facts used by the proofs (`seqs.dfy`, module `Seqs`).

`Segmenter.Split` and `Segmenter.SplitFrom` are the functional definitions.
`Segmenter.SplitTelegram` is the source's statement-by-statement loop,
proved equal to `Split`. The loop's trace (`Segmenter.RemainderAt`) names
the text left before each iteration.

The source's threshold test `cut > limit * 0.6` is modelled as
`5 * cut > 3 * limit` over exact integers and proved equal to the same
comparison over exact reals. Python evaluates `limit * 0.6` in binary64.
Take `limit` below 2^50. Then the exact product is below 2^50, and its
half ulp is at most 1/16. The error that the constant 0.6 contributes is
below 0.05.
- When `limit` is not a multiple of 5, the exact product is at least 0.2 away
  from every integer, more than the total error of about 0.11.
- When `limit` is `5k`, the binary64 product rounds to exactly `3k`, because
  the relative error of the constant 0.6 (about 3.7e-17) is below half an
  ulp (at least 5.5e-17).

So the floating-point and exact tests agree for every limit below 2^50. For
larger limits they can disagree: once half an ulp of the product reaches
0.25, a product such as 4810359722531728.8 rounds up to the next integer.

The source needs `limit >= 1`. With `limit <= 0` and a stripped text that
is not blank, the loop never ends. Each chunk is a prefix of the window
`text[:limit]`, which is shorter than the text (for a negative `limit` it is
the text minus its last `-limit` characters). So what remains always keeps
its final non-whitespace character and never becomes empty. Every member
of the segmenter therefore requires `limit >= 1`.

## Model

| member | source | states |
|---|---|---|
| Text.Strip | bot.py:19 | `strip()` returns a slice of the input with only whitespace outside it; the result neither starts nor ends with whitespace; it is empty exactly when the input is all whitespace |
| Text.LStrip | bot.py:29 | `lstrip()` returns a suffix of the input; everything dropped is whitespace; the result does not start with whitespace |
| Text.RFind | bot.py:25 | `rfind` returns -1 or an index holding the character, and no later index holds it |
| Text.StripKeepsNonWhitespace | bot.py:19 | stripping keeps every non-whitespace character, in order |
| Text.LStripKeepsNonWhitespace | bot.py:29 | left-stripping keeps every non-whitespace character, in order |
| Text.LStrippedUnique | bot.py:29 | any suffix of a text whose dropped front is whitespace and which does not start with whitespace is exactly `lstrip()` of the text |
| Text.TrimmedUnique | bot.py:19 | a text has only one slice with whitespace outside it and none at its ends |
| Text.StripUnique | bot.py:19 | any such slice of a text is exactly its `strip()` |
| Text.StripOfTrimmed | bot.py:19 | a text that neither starts nor ends with whitespace is its own strip, so stripping twice equals stripping once |
| Segmenter.Window | bot.py:24 | `text[:limit]` is a prefix of the text, of length `min(len(text), limit)` |
| Segmenter.PastThreshold | bot.py:26 | a line break at index `cut` is used exactly when `cut > limit * 0.6` over exact reals, equivalently when `cut` exceeds 60% of `limit` rounded down |
| Segmenter.NextChunk | bot.py:24-27 | the chunk of one iteration is a prefix of the remaining text, at most `limit` long, and non-empty when the text is non-empty, so the loop makes progress |
| Segmenter.NextChunkCutRule | bot.py:24-27 | if a line break of the window lies past 60% of `limit`, the chunk ends just before the last line break of the window; otherwise the chunk is the whole window |
| Segmenter.CutUnique | bot.py:24-27 | the cut rule determines the chunk: two prefixes of the window that both follow it are equal |
| Segmenter.Advance | bot.py:29 | what follows a chunk, left-stripped, is strictly shorter than the text and does not start with whitespace |
| Segmenter.SplitFrom | bot.py:23-29 | the loop emits no chunk exactly when the remaining text is empty, and never more chunks than the text has characters |
| Segmenter.SplitFromChunks | bot.py:23-29 | every chunk of the loop is non-empty and at most `limit` long; when the loop starts from non-whitespace, every chunk starts with non-whitespace |
| Segmenter.Split | bot.py:17-30 | a stripped text within the limit gives exactly `[strip(text)]`; a longer one gives at least two chunks, each non-empty, within the limit, and starting with non-whitespace |
| Segmenter.SplitLongHasTwoChunks | bot.py:20-29 | a stripped text longer than `limit` is never emitted as a single chunk |
| Segmenter.SplitShort | bot.py:19-21 | a trimmed text within the limit is returned unchanged as one chunk; a blank text of any length gives one empty chunk |
| Segmenter.SplitFromKeepsNonWhitespace | bot.py:23-29 | the chunks of the loop, joined, hold every non-whitespace character of the text, in order |
| Segmenter.SplitKeepsNonWhitespace | bot.py:17-30 | the chunks of `split_telegram`, joined, hold every non-whitespace character of the input, in order: only whitespace is lost |
| Segmenter.RemainderAt | bot.py:23-29 | the text left before the n-th iteration is no longer than the input, strictly shorter after at least one iteration on a non-empty text, and after at least one iteration it is empty or starts with non-whitespace; an empty text stays empty |
| Segmenter.SplitFromTrace | bot.py:23-29 | the i-th iteration starts from a non-empty remainder and emits that remainder's next chunk; the next remainder is what follows that chunk, left-stripped |
| Segmenter.RemainderBeforeEnd | bot.py:23 | before the last chunk is emitted, the remaining text is non-empty |
| Segmenter.ChunkOfRemainder | bot.py:24-28 | the i-th chunk is the next chunk of the i-th remainder |
| Segmenter.RemainderAdvances | bot.py:29 | each non-empty remainder is followed by what its next chunk leaves, left-stripped |
| Segmenter.SplitFromEnds | bot.py:23 | once all chunks are emitted, the remainder is empty, so the loop stops exactly there |
| Segmenter.SplitTelegram | bot.py:17-30 | the statement-level `split_telegram` returns exactly the chunks of `Split` |
| Segmenter.SplitLoop | bot.py:22-30 | the `while` loop with its chunk list returns exactly the chunks of `SplitFrom` |
| Segmenter.TakeChunk | bot.py:24-27 | the window, `rfind` and cut as statements give a prefix of the window that follows the cut rule: it ends at the window's last line break exactly when some line break lies past the threshold, and is the whole window otherwise |
| Segmenter.DropChunk | bot.py:29 | skipping whitespace after the chunk gives a suffix of what follows the chunk, dropping only whitespace, that does not start with whitespace |
| Segmenter.ChunkAndRestDetermined | bot.py:24-29 | a chunk that follows the cut rule and a rest that is what follows it, left-stripped, are the loop definition's next chunk and next remainder |
| Segmenter.LoopStep | bot.py:28-29 | appending the chunk and advancing the text keeps the loop invariant |
| Handler.BuildUserInput | bot.py:47-49 | the input to the service is the prefix `Слово/фраза: ` followed by the word, and is exactly that much longer than the word |
| Handler.UserInputRoundTrip | bot.py:47-49 | the input sent to the service is the fixed prefix `Слово/фраза: ` followed by the word, from which the word is recovered, so different words give different inputs |
| Handler.AnswerText | bot.py:65 | the answer is a slice of `output_text` (or of `""` when it is missing) with only whitespace outside it; it is empty exactly when the output is missing or all whitespace; otherwise it neither starts nor ends with whitespace |
| Handler.AnswerTextOfOutput | bot.py:65 | the answer keeps every non-whitespace character of the output in order, and any trimmed slice of the output with only whitespace around it is the answer |
| Handler.ErrorReply | bot.py:99-101 | the error reply is the prefix `Oops, an error: ` followed by the exception's description, and is exactly that much longer than it |
| Handler.ErrorReplyRoundTrip | bot.py:99-101 | the description is recovered from the error reply after its prefix, so different failures give different replies |
| Handler.Respond | bot.py:85-101 | a failure gives exactly one error message; an empty answer gives exactly the fallback notice; a non-empty answer gives `split_telegram` of it, in order; every message relaying an answer is non-empty and fits in 4096 characters |
| Handler.RelayAnswer | bot.py:89-94 | an empty trimmed answer is replaced by the fallback notice, which is sent as one message; any other is split |
| Handler.EmptyNoticeFits | bot.py:89-94 | the fallback notice fits in one message and is sent unchanged |
| Handler.SplitAnswerFits | bot.py:93-94 | a non-empty trimmed answer is sent as at least one message, each non-empty and within 4096 characters |
| Handler.HandleText | bot.py:68-101 | a blank message gets no reply and no service call; a text over 80 characters after trimming gets exactly the too-long notice and no call; otherwise the trimmed text is sent to the service and the messages are those of `Respond`; all messages not caused by a failure fit in 4096 characters |
| Handler.ShortAnswerRelayed | bot.py:85-94 | a trimmed answer within 4096 characters comes back as the only message, after a call about the trimmed user text |
| Handler.AnswerRelayedUpToWhitespace | bot.py:65-94 | the messages relaying a non-blank answer hold, joined, every non-whitespace character of the service's output, in order |

## Left out

- The Telegram transport (`reply_text`, `send_action`, the application
  builder and its handlers) is not modelled. Handling a message is reduced
  to the texts it would send, in order.
- The "typing" action (bot.py:83) is not modelled. It sends no text, and a
  failure of it, which escapes the handler, is not modelled either.
- Failures of `reply_text` while relaying the chunks (bot.py:93-94) are not
  modelled: part of the chunks and then an error message.
- The OpenAI client and the network part of `call_openai` (bot.py:52-62)
  are not modelled. Their outcome is the `Completion` parameter. Only the
  post-processing of the answer (bot.py:65) is modelled.
- Handler.ErrorReply: the exception is a single `description` standing for
  `type(e).__name__ + ": " + str(e)`. Python's exception naming and
  formatting are not modelled.
- Handler.HandleText: an error reply longer than 4096 characters is not
  split and is not stated to fit, because the source sends it unsplit.
- The `/start` command (bot.py:38-44), `load_system_prompt`, the environment
  variables, `main` and the `print` logging are outside the reply logic and
  are not modelled.
- `asyncio.to_thread` and all concurrency are not modelled: one message is
  handled at a time.
- Segmenter.PastThreshold: decided over exact integers and reals, not in
  binary64. The argument above that they agree below 2^50 is not part of
  the proofs. From about 7.5e15 upward the two tests can differ.
- Segmenter.Split: requires `limit >= 1`. For `limit <= 0` the source's
  loop does not terminate on a text that is not blank. Its results on blank
  texts with such limits (`[""]` for 0, `[]` for a negative limit) are not
  modelled.
