/**
 Text primitives the segmenter is built from: Python's notion of a whitespace
 code point, `str.strip`, `str.lstrip` and `str.rfind` for a single
 character, together with the projection of a text onto its non-whitespace
 characters that states what stripping may lose.
 */
module Text {
  import opened Seqs

  /** Python's `str.isspace` for one code point: the characters whose Unicode
      bidirectional class is WS, B or S, or whose general category is Zs.
      These are exactly the characters `strip()` without arguments removes. */
  predicate IsWhitespace(c: char) {
    || ('\t' <= c <= '\r')
    || ('\U{1C}' <= c <= ' ')
    || c == '\U{85}'
    || c == '\U{A0}'
    || c == '\U{1680}'
    || ('\U{2000}' <= c <= '\U{200A}')
    || c == '\U{2028}'
    || c == '\U{2029}'
    || c == '\U{202F}'
    || c == '\U{205F}'
    || c == '\U{3000}'
  }

  /** Every character of `s` at an index in `[lo, hi)` is whitespace. */
  ghost predicate BlankBetween(s: string, lo: int, hi: int)
    requires 0 <= lo && hi <= |s|
  {
    forall i :: lo <= i < hi ==> IsWhitespace(s[i])
  }

  ghost predicate AllWhitespace(s: string) {
    BlankBetween(s, 0, |s|)
  }

  /** The index of the first non-whitespace character of `s` at or after
      `from`, or `|s|` when there is none. */
  function SkipBlank(s: string, from: nat): (k: nat)
    requires from <= |s|
    ensures from <= k <= |s|
    ensures BlankBetween(s, from, k)
    ensures k < |s| ==> !IsWhitespace(s[k])
    decreases |s| - from
  {
    if from == |s| || !IsWhitespace(s[from]) then from else SkipBlank(s, from + 1)
  }

  /** The index just past the last non-whitespace character of `s` before
      `upto`, or 0 when there is none. */
  function SkipBlankBack(s: string, upto: nat): (k: nat)
    requires upto <= |s|
    ensures k <= upto
    ensures BlankBetween(s, k, upto)
    ensures k > 0 ==> !IsWhitespace(s[k - 1])
  {
    if upto == 0 || !IsWhitespace(s[upto - 1]) then upto else SkipBlankBack(s, upto - 1)
  }

  /** `s.lstrip()`: `s` without its leading whitespace. */
  function LStrip(s: string): (r: string)
    ensures |r| <= |s| && r == s[|s| - |r|..]
    ensures BlankBetween(s, 0, |s| - |r|)
    ensures r == [] || !IsWhitespace(r[0])
  {
    s[SkipBlank(s, 0)..]
  }

  /** `r` is `s` without its leading whitespace: a suffix of `s` whose
      dropped front is all whitespace and which does not itself start with
      whitespace. */
  ghost predicate LStripped(s: string, r: string) {
    && |r| <= |s| && r == s[|s| - |r|..]
    && BlankBetween(s, 0, |s| - |r|)
    && (r == [] || !IsWhitespace(r[0]))
  }

  /** Only one suffix is `s` without its leading whitespace, and `LStrip`
      computes it. */
  lemma LStrippedUnique(s: string, r: string)
    requires LStripped(s, r)
    ensures r == LStrip(s)
  {
  }

  /** `r` is the slice of `s` starting at `i`, and everything of `s` outside
      that slice is whitespace. */
  ghost predicate TrimmedAt(s: string, r: string, i: int) {
    && 0 <= i <= |s| - |r|
    && r == s[i..i + |r|]
    && BlankBetween(s, 0, i)
    && BlankBetween(s, i + |r|, |s|)
  }

  /** `s.strip()`: `s` without its leading and trailing whitespace. */
  function Strip(s: string): (r: string)
    ensures |r| <= |s|
    ensures exists i :: TrimmedAt(s, r, i)
    ensures r == [] || (!IsWhitespace(r[0]) && !IsWhitespace(r[|r| - 1]))
    ensures r == [] <==> AllWhitespace(s)
  {
    var i := SkipBlank(s, 0);
    if i == |s| then
      assert TrimmedAt(s, [], |s|);
      []
    else
      var j := SkipBlankBack(s, |s|);
      assert TrimmedAt(s, s[i..j], i);
      s[i..j]
  }

  /** `s.rfind(c)`: the index of the last occurrence of `c` in `s`, or -1. */
  function RFind(s: string, c: char): (r: int)
    ensures -1 <= r < |s|
    ensures r >= 0 ==> s[r] == c
    ensures forall j :: r < j < |s| ==> s[j] != c
  {
    RFindBefore(s, c, |s|)
  }

  /** The index of the last occurrence of `c` in `s` before `upto`, or -1. */
  function RFindBefore(s: string, c: char, upto: nat): (r: int)
    requires upto <= |s|
    ensures -1 <= r < upto
    ensures r >= 0 ==> s[r] == c
    ensures forall j :: r < j < upto ==> s[j] != c
  {
    if upto == 0 then -1
    else if s[upto - 1] == c then upto - 1
    else RFindBefore(s, c, upto - 1)
  }

  /** The non-whitespace characters of `s`, in order. */
  function NonWhitespace(s: string): (r: string)
    ensures |r| <= |s|
    ensures forall i :: 0 <= i < |r| ==> !IsWhitespace(r[i])
  {
    if s == [] then []
    else (if IsWhitespace(s[0]) then [] else [s[0]]) + NonWhitespace(s[1..])
  }

  /** The texts of `chunks` joined with nothing between them. */
  function Concat(chunks: seq<string>): string {
    if chunks == [] then [] else chunks[0] + Concat(chunks[1..])
  }

  lemma {:induction false} NonWhitespaceAppend(a: string, b: string)
    ensures NonWhitespace(a + b) == NonWhitespace(a) + NonWhitespace(b)
    decreases |a|
  {
    if a != [] {
      var head := if IsWhitespace(a[0]) then [] else [a[0]];
      AppendFront(a, b);
      assert NonWhitespace(a + b) == head + NonWhitespace(a[1..] + b);
      NonWhitespaceAppend(a[1..], b);
      AppendAssoc(head, NonWhitespace(a[1..]), NonWhitespace(b));
    } else {
      AppendEmpty(b);
    }
  }

  lemma {:induction false} NonWhitespaceOfBlank(s: string)
    requires AllWhitespace(s)
    ensures NonWhitespace(s) == []
    decreases |s|
  {
    if s != [] {
      assert IsWhitespace(s[0]);
      assert AllWhitespace(s[1..]) by {
        forall i | 0 <= i < |s| - 1
          ensures IsWhitespace(s[1..][i])
        {
          assert s[1..][i] == s[i + 1];
        }
      }
      NonWhitespaceOfBlank(s[1..]);
    }
  }

  /** Removing a whitespace-only slice `[lo, hi)` keeps every non-whitespace
      character of `s`. */
  lemma DropBlankSlice(s: string, lo: nat, hi: nat)
    requires lo <= hi <= |s| && BlankBetween(s, lo, hi)
    ensures NonWhitespace(s[..lo] + s[hi..]) == NonWhitespace(s)
  {
    var blank := s[lo..hi];
    assert AllWhitespace(blank) by {
      forall i | 0 <= i < |blank|
        ensures IsWhitespace(blank[i])
      {
        assert blank[i] == s[lo + i];
      }
    }
    SliceThree(s, lo, hi);
    DropBlank(s[..lo], blank, s[hi..]);
  }

  lemma DropBlank(a: string, blank: string, b: string)
    requires AllWhitespace(blank)
    ensures NonWhitespace(a + (blank + b)) == NonWhitespace(a + b)
  {
    NonWhitespaceOfBlank(blank);
    NonWhitespaceAppend(a, blank + b);
    NonWhitespaceAppend(blank, b);
    NonWhitespaceAppend(a, b);
  }

  /** Left-stripping only ever removes whitespace. */
  lemma LStripKeepsNonWhitespace(s: string)
    ensures NonWhitespace(LStrip(s)) == NonWhitespace(s)
  {
    var k := |s| - |LStrip(s)|;
    DropBlankSlice(s, 0, k);
    assert s[..0] + s[k..] == LStrip(s);
  }

  /** Stripping only ever removes whitespace. */
  lemma StripKeepsNonWhitespace(s: string)
    ensures NonWhitespace(Strip(s)) == NonWhitespace(s)
  {
    var r := Strip(s);
    var i :| TrimmedAt(s, r, i);
    var t := s[i..];
    DropBlankSlice(s, 0, i);
    assert s[..0] + s[i..] == t;
    assert t[..|r|] == r;
    assert BlankBetween(t, |r|, |t|) by {
      forall j | |r| <= j < |t|
        ensures IsWhitespace(t[j])
      {
        assert t[j] == s[i + j];
      }
    }
    DropBlankSlice(t, |r|, |t|);
    assert t[..|r|] + t[|t|..] == r;
  }

  /** A text that neither starts nor ends with whitespace is its own strip;
      in particular `strip` is idempotent. */
  lemma StripOfTrimmed(s: string)
    requires s == [] || (!IsWhitespace(s[0]) && !IsWhitespace(s[|s| - 1]))
    ensures Strip(s) == s
  {
    if s != [] {
      assert SkipBlank(s, 0) == 0;
      assert SkipBlankBack(s, |s|) == |s|;
    }
  }

  /** Two slices of `s` with only whitespace outside them and no whitespace
      at their ends are the same slice: the trimmed part of a text is
      unique. */
  lemma TrimmedUnique(s: string, r1: string, i1: int, r2: string, i2: int)
    requires TrimmedAt(s, r1, i1) && (r1 == [] || (!IsWhitespace(r1[0]) && !IsWhitespace(r1[|r1| - 1])))
    requires TrimmedAt(s, r2, i2) && (r2 == [] || (!IsWhitespace(r2[0]) && !IsWhitespace(r2[|r2| - 1])))
    ensures r1 == r2
  {
    if r1 != [] && r2 != [] {
      assert s[i1] == r1[0] && s[i2] == r2[0];
      assert i1 == i2;
      assert s[i1 + |r1| - 1] == r1[|r1| - 1] && s[i2 + |r2| - 1] == r2[|r2| - 1];
      assert |r1| == |r2|;
    }
  }

  /** `Strip` is the only trimmed slice of `s`: any slice with whitespace
      outside it and none at its ends is `s.strip()`. */
  lemma StripUnique(s: string, r: string, i: int)
    requires TrimmedAt(s, r, i)
    requires r == [] || (!IsWhitespace(r[0]) && !IsWhitespace(r[|r| - 1]))
    ensures r == Strip(s)
  {
    var t := Strip(s);
    var k :| TrimmedAt(s, t, k);
    TrimmedUnique(s, r, i, t, k);
  }
}
