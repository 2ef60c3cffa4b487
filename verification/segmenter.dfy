/**
 The Telegram message segmenter `split_telegram` (bot.py:17-30): it trims a
 text and, when the result does not fit in one message of `limit` characters,
 cuts it into chunks of at most `limit` characters, preferring to cut at the
 window's last line break when it lies past 60% of `limit`.
 */
module Segmenter {
  import opened Text
  import opened Seqs

  /** Characters allowed in one Telegram message (bot.py:8). */
  const TelegramLimit: nat := 4096

  /** The source's test `cut > limit * 0.6`, over exact rationals: a line
      break at index `cut` of the window is used only past 60% of `limit`.
      The comparison is stated over exact reals; Python's binary64 product
      `limit * 0.6` lies on the same side of every integer for limits below
      2^50, but not for every larger one. */
  predicate PastThreshold(cut: int, limit: nat): (past: bool)
    ensures past <==> cut as real > limit as real * 0.6
    ensures past <==> cut > 3 * limit / 5
  {
    5 * cut > 3 * limit
  }

  /** `text[:limit]`: at most the first `limit` characters. */
  function Window(text: string, limit: nat): (w: string)
    ensures |w| <= |text| && w == text[..|w|]
    ensures |w| == if |text| < limit then |text| else limit
  {
    if |text| < limit then text else text[..limit]
  }

  /** The chunk one loop iteration emits from the front of `text`
      (bot.py:24-27). */
  function NextChunk(text: string, limit: nat): (chunk: string)
    requires limit >= 1
    ensures |chunk| <= |text| && chunk == text[..|chunk|]
    ensures |chunk| <= limit
    ensures text != [] ==> chunk != []
  {
    var w := Window(text, limit);
    var cut := RFind(w, '\n');
    if PastThreshold(cut, limit) then w[..cut] else w
  }

  /** What the loop keeps after emitting `NextChunk(text, limit)`: the rest
      of the text, left-stripped (bot.py:29). */
  function Advance(text: string, limit: nat): (next: string)
    requires limit >= 1 && text != []
    ensures |next| < |text|
    ensures next == [] || !IsWhitespace(next[0])
  {
    LStrip(text[|NextChunk(text, limit)|..])
  }

  /** A line break of the window lies past the threshold. */
  ghost predicate BreakPastThreshold(w: string, limit: nat) {
    exists j :: 0 <= j < |w| && w[j] == '\n' && PastThreshold(j, limit)
  }

  /** The cut rule, stated without `rfind`: `chunk` is a prefix of the
      window `w`; when some line break of the window lies past the threshold,
      the chunk ends just before the last line break of the window, which is
      dropped; otherwise the chunk is the whole window, and a line break at or
      below the threshold is ignored. */
  ghost predicate CutOf(w: string, limit: nat, chunk: string) {
    && |chunk| <= |w| && chunk == w[..|chunk|]
    && if BreakPastThreshold(w, limit)
       then && |chunk| < |w| && w[|chunk|] == '\n' && PastThreshold(|chunk|, limit)
            && forall j :: |chunk| < j < |w| ==> w[j] != '\n'
       else chunk == w
  }

  /** The cut rule determines the chunk: two chunks that both follow it are
      the same. */
  lemma CutUnique(w: string, limit: nat, c1: string, c2: string)
    requires CutOf(w, limit, c1) && CutOf(w, limit, c2)
    ensures c1 == c2
  {
  }

  /** `NextChunk` follows the cut rule. */
  lemma NextChunkCutRule(text: string, limit: nat)
    requires limit >= 1
    ensures CutOf(Window(text, limit), limit, NextChunk(text, limit))
  {
    var w := Window(text, limit);
    var cut := RFind(w, '\n');
    if BreakPastThreshold(w, limit) {
      var j :| 0 <= j < |w| && w[j] == '\n' && PastThreshold(j, limit);
      assert j <= cut;
    }
  }

  /** The `while text:` loop of bot.py:23-29 from a given remaining text:
      emit the next chunk, drop it, left-strip what is left, repeat. */
  function SplitFrom(text: string, limit: nat): (chunks: seq<string>)
    requires limit >= 1
    ensures text == [] <==> chunks == []
    ensures |chunks| <= |text|
    decreases |text|
  {
    if text == [] then []
    else [NextChunk(text, limit)] + SplitFrom(Advance(text, limit), limit)
  }

  /** Every chunk the loop emits is non-empty and fits in `limit`; when the
      loop starts from a text that does not begin with whitespace, so does
      every chunk. */
  lemma {:induction false} SplitFromChunks(text: string, limit: nat)
    requires limit >= 1
    ensures forall c :: c in SplitFrom(text, limit) ==> 1 <= |c| <= limit
    ensures text == [] || !IsWhitespace(text[0]) ==>
              forall c :: c in SplitFrom(text, limit) ==> !IsWhitespace(c[0])
    decreases |text|
  {
    if text != [] {
      var chunk := NextChunk(text, limit);
      var next := Advance(text, limit);
      assert chunk[0] == text[0];
      SplitFromChunks(next, limit);
      SplitFromUnfold(text, limit);
    }
  }

  /** `split_telegram(text, limit)` (bot.py:17-30). The source needs
      `limit >= 1`: with `limit <= 0` and a text that is not blank, every
      chunk leaves the last non-whitespace character behind, so the
      remaining text never becomes empty and the loop never ends. */
  function Split(text: string, limit: nat): (chunks: seq<string>)
    requires limit >= 1
    ensures |chunks| >= 1
    ensures forall c :: c in chunks ==> |c| <= limit
    ensures |Strip(text)| <= limit ==> chunks == [Strip(text)]
    ensures |Strip(text)| > limit ==>
              && |chunks| >= 2
              && forall c :: c in chunks ==> |c| >= 1 && !IsWhitespace(c[0])
  {
    var t := Strip(text);
    if |t| <= limit then [t]
    else
      SplitLongHasTwoChunks(t, limit);
      SplitFromChunks(t, limit);
      SplitFrom(t, limit)
  }

  /** A stripped text longer than `limit` is never emitted in one chunk: the
      first chunk is shorter than the text, and what follows it ends in a
      non-whitespace character, so it survives the left-strip. */
  lemma SplitLongHasTwoChunks(t: string, limit: nat)
    requires limit >= 1 && |t| > limit
    requires !IsWhitespace(t[|t| - 1])
    ensures |SplitFrom(t, limit)| >= 2
  {
    var chunk := NextChunk(t, limit);
    var rest := t[|chunk|..];
    assert rest[|rest| - 1] == t[|t| - 1];
    assert Advance(t, limit) == LStrip(rest);
    SplitFromUnfold(t, limit);
  }

  /** Only whitespace is ever lost by the loop: the chunks carry, in order,
      every non-whitespace character of the remaining text. */
  lemma {:induction false} SplitFromKeepsNonWhitespace(text: string, limit: nat)
    requires limit >= 1
    ensures NonWhitespace(Concat(SplitFrom(text, limit))) == NonWhitespace(text)
    decreases |text|
  {
    if text != [] {
      var chunk := NextChunk(text, limit);
      var rest := text[|chunk|..];
      var next := Advance(text, limit);
      ConcatSplitFromStep(text, limit);
      SplitFromKeepsNonWhitespace(next, limit);
      LStripKeepsNonWhitespace(rest);
      KeepsAfterPrefix(chunk, rest, Concat(SplitFrom(next, limit)));
      TakeDrop(text, |chunk|);
    }
  }

  /** One iteration of the loop, seen on the joined chunks. */
  lemma ConcatSplitFromStep(text: string, limit: nat)
    requires limit >= 1 && text != []
    ensures var chunk := NextChunk(text, limit);
            Concat(SplitFrom(text, limit))
              == chunk + Concat(SplitFrom(Advance(text, limit), limit))
  {
    var chunk := NextChunk(text, limit);
    SplitFromUnfold(text, limit);
    ConcatCons(chunk, SplitFrom(Advance(text, limit), limit));
  }

  lemma ConcatCons(c: string, cs: seq<string>)
    ensures Concat([c] + cs) == c + Concat(cs)
  {
    assert ([c] + cs)[1..] == cs;
  }

  lemma KeepsAfterPrefix(chunk: string, rest: string, tail: string)
    requires NonWhitespace(tail) == NonWhitespace(rest)
    ensures NonWhitespace(chunk + tail) == NonWhitespace(chunk + rest)
  {
    NonWhitespaceAppend(chunk, rest);
    NonWhitespaceAppend(chunk, tail);
  }

  /** Only whitespace is ever lost by `split_telegram`: joining its chunks
      gives back every non-whitespace character of the input, in order. */
  lemma SplitKeepsNonWhitespace(text: string, limit: nat)
    requires limit >= 1
    ensures NonWhitespace(Concat(Split(text, limit))) == NonWhitespace(text)
  {
    var t := Strip(text);
    StripKeepsNonWhitespace(text);
    if |t| <= limit {
      assert Concat([t]) == t + Concat([]);
      assert t + [] == t;
    } else {
      SplitFromKeepsNonWhitespace(t, limit);
    }
  }

  /** The text the loop has left before it emits its `n`-th chunk (counting
      from 0), starting from `text`. */
  function RemainderAt(text: string, limit: nat, n: nat): (rest: string)
    requires limit >= 1
    ensures |rest| <= |text|
    ensures n > 0 && text != [] ==> |rest| < |text|
    ensures n > 0 ==> rest == [] || !IsWhitespace(rest[0])
    ensures text == [] ==> rest == []
    decreases n
  {
    if n == 0 || text == [] then text
    else RemainderAt(Advance(text, limit), limit, n - 1)
  }

  /** One iteration of the loop. */
  lemma SplitFromUnfold(text: string, limit: nat)
    requires limit >= 1 && text != []
    ensures SplitFrom(text, limit) == [NextChunk(text, limit)] + SplitFrom(Advance(text, limit), limit)
  {
  }

  /** The trace of the loop: its `i`-th iteration starts from a non-empty
      remainder and emits that remainder's next chunk, a prefix of it; the
      next iteration starts from what that chunk leaves, left-stripped. */
  lemma SplitFromTrace(text: string, limit: nat, i: nat)
    requires limit >= 1
    ensures i < |SplitFrom(text, limit)| ==>
              && RemainderAt(text, limit, i) != []
              && SplitFrom(text, limit)[i] == NextChunk(RemainderAt(text, limit, i), limit)
              && RemainderAt(text, limit, i + 1) == Advance(RemainderAt(text, limit, i), limit)
  {
    RemainderBeforeEnd(text, limit, i);
    ChunkOfRemainder(text, limit, i);
    RemainderAdvances(text, limit, i);
  }

  /** Before the loop has emitted all its chunks, the remainder is not empty. */
  lemma {:induction false} RemainderBeforeEnd(text: string, limit: nat, i: nat)
    requires limit >= 1
    ensures i < |SplitFrom(text, limit)| ==> RemainderAt(text, limit, i) != []
    decreases i
  {
    if 0 < i < |SplitFrom(text, limit)| {
      var next := Advance(text, limit);
      SplitFromUnfold(text, limit);
      var j := i - 1;
      RemainderAtStep(text, limit, j);
      assert j + 1 == i;
      RemainderBeforeEnd(next, limit, j);
    }
  }

  /** The `i`-th chunk is the next chunk of the `i`-th remainder. */
  lemma {:induction false} ChunkOfRemainder(text: string, limit: nat, i: nat)
    requires limit >= 1
    ensures i < |SplitFrom(text, limit)| ==>
              SplitFrom(text, limit)[i] == NextChunk(RemainderAt(text, limit, i), limit)
    decreases i, 1
  {
    if i < |SplitFrom(text, limit)| {
      SplitFromUnfold(text, limit);
      if i == 0 {
        assert RemainderAt(text, limit, 0) == text;
      } else {
        LaterChunkOfRemainder(text, limit, i);
      }
    }
  }

  /** `ChunkOfRemainder` past the first chunk, from what the first leaves. */
  lemma {:induction false} LaterChunkOfRemainder(text: string, limit: nat, i: nat)
    requires limit >= 1
    ensures 0 < i < |SplitFrom(text, limit)| ==>
              SplitFrom(text, limit)[i] == NextChunk(RemainderAt(text, limit, i), limit)
    decreases i, 0
  {
    if 0 < i < |SplitFrom(text, limit)| {
      var next := Advance(text, limit);
      var j := i - 1;
      SplitFromUnfold(text, limit);
      RemainderAtStep(text, limit, j);
      assert j + 1 == i;
      ConsIndex(NextChunk(text, limit), SplitFrom(next, limit), i);
      ChunkOfRemainder(next, limit, j);
    }
  }

  /** A non-empty remainder is followed by what its next chunk leaves. */
  lemma {:induction false} RemainderAdvances(text: string, limit: nat, i: nat)
    requires limit >= 1
    ensures RemainderAt(text, limit, i) != [] ==>
              RemainderAt(text, limit, i + 1) == Advance(RemainderAt(text, limit, i), limit)
    decreases i
  {
    if text != [] {
      var next := Advance(text, limit);
      RemainderAtStep(text, limit, i);
      if i == 0 {
        assert RemainderAt(text, limit, 0) == text;
        assert RemainderAt(next, limit, 0) == next;
      } else {
        var j := i - 1;
        RemainderAtStep(text, limit, j);
        assert j + 1 == i;
        RemainderAdvances(next, limit, j);
      }
    }
  }

  /** The loop stops exactly when the remainder is empty. */
  lemma {:induction false} SplitFromEnds(text: string, limit: nat)
    requires limit >= 1
    ensures RemainderAt(text, limit, |SplitFrom(text, limit)|) == []
    decreases |text|
  {
    if text != [] {
      var next := Advance(text, limit);
      var n := |SplitFrom(next, limit)|;
      SplitFromUnfold(text, limit);
      RemainderAtStep(text, limit, n);
      SplitFromEnds(next, limit);
    }
  }

  /** The remainders seen from a non-empty `text` after its first chunk are
      those seen from what that chunk leaves. */
  lemma RemainderAtStep(text: string, limit: nat, n: nat)
    requires limit >= 1 && text != []
    ensures RemainderAt(text, limit, n + 1) == RemainderAt(Advance(text, limit), limit, n)
  {
  }

  /** A text already trimmed and within the limit is sent unchanged as a
      single message; a blank text, however long, is sent as one empty
      message. */
  lemma SplitShort(text: string, limit: nat)
    requires limit >= 1
    ensures |text| <= limit && (text == [] || (!IsWhitespace(text[0]) && !IsWhitespace(text[|text| - 1])))
            ==> Split(text, limit) == [text]
    ensures AllWhitespace(text) ==> Split(text, limit) == [""]
  {
    if text == [] || (!IsWhitespace(text[0]) && !IsWhitespace(text[|text| - 1])) {
      StripOfTrimmed(text);
    }
  }

  /** `split_telegram` written as the source's code: trim, answer short texts
      at once, otherwise run the loop. */
  method SplitTelegram(text: string, limit: nat) returns (chunks: seq<string>)
    requires limit >= 1
    ensures chunks == Split(text, limit)
  {
    var rest := Strip(text);
    if |rest| <= limit {
      chunks := [rest];
    } else {
      chunks := SplitLoop(rest, limit);
    }
  }

  /** The `while text:` loop of bot.py:22-30 with its list of chunks. */
  method SplitLoop(text: string, limit: nat) returns (chunks: seq<string>)
    requires limit >= 1
    ensures chunks == SplitFrom(text, limit)
  {
    var rest := text;
    chunks := [];
    AppendEmpty(SplitFrom(text, limit));
    while rest != []
      invariant chunks + SplitFrom(rest, limit) == SplitFrom(text, limit)
      decreases |rest|
    {
      var chunk := TakeChunk(rest, limit);
      var next := DropChunk(rest, chunk);
      ChunkAndRestDetermined(rest, limit, chunk, next);
      LoopStep(chunks, rest, limit);
      chunks, rest := chunks + [chunk], next;
    }
    AppendEmpty(chunks);
  }

  /** Lines 24-27 of bot.py as statements: the window, the last line break in
      it, and the cut. */
  method TakeChunk(rest: string, limit: nat) returns (chunk: string)
    requires limit >= 1
    ensures CutOf(Window(rest, limit), limit, chunk)
  {
    chunk := if |rest| < limit then rest else rest[..limit];
    ghost var w := chunk;
    var cut := RFind(chunk, '\n');
    if 5 * cut > 3 * limit {
      chunk := chunk[..cut];
    }
    if BreakPastThreshold(w, limit) {
      var j :| 0 <= j < |w| && w[j] == '\n' && PastThreshold(j, limit);
      assert j <= cut;
    }
  }

  /** Line 29 of bot.py as statements: skip the whitespace that follows the
      chunk and keep the rest. */
  method DropChunk(rest: string, chunk: string) returns (next: string)
    requires |chunk| <= |rest|
    ensures LStripped(rest[|chunk|..], next)
  {
    var i := |chunk|;
    while i < |rest| && IsWhitespace(rest[i])
      invariant |chunk| <= i <= |rest|
      invariant BlankBetween(rest, |chunk|, i)
      decreases |rest| - i
    {
      i := i + 1;
    }
    next := rest[i..];
    ghost var after := rest[|chunk|..];
    assert BlankBetween(after, 0, i - |chunk|) by {
      forall k | 0 <= k < i - |chunk|
        ensures IsWhitespace(after[k])
      {
        assert after[k] == rest[|chunk| + k];
      }
    }
    assert next == after[i - |chunk|..];
  }

  /** The chunk taken by the cut rule and the rest it leaves, left-stripped,
      are those of the loop's definition. */
  lemma ChunkAndRestDetermined(rest: string, limit: nat, chunk: string, next: string)
    requires limit >= 1 && rest != []
    requires CutOf(Window(rest, limit), limit, chunk)
    requires |chunk| <= |rest| && LStripped(rest[|chunk|..], next)
    ensures chunk == NextChunk(rest, limit) && next == Advance(rest, limit)
  {
    NextChunkCutRule(rest, limit);
    CutUnique(Window(rest, limit), limit, chunk, NextChunk(rest, limit));
    LStrippedUnique(rest[|chunk|..], next);
  }

  /** One iteration of the loop keeps the loop invariant of `SplitLoop`. */
  lemma LoopStep(done: seq<string>, rest: string, limit: nat)
    requires limit >= 1 && rest != []
    ensures done + SplitFrom(rest, limit)
              == (done + [NextChunk(rest, limit)]) + SplitFrom(Advance(rest, limit), limit)
  {
    SplitFromUnfold(rest, limit);
    AppendAssoc(done, [NextChunk(rest, limit)], SplitFrom(Advance(rest, limit), limit));
  }
}
