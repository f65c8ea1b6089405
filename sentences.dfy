/**
 * The sentence splitter: `re.split(r'(?<=[.!?])\s+', text)`, then every piece
 * stripped and the empty ones dropped.
 */
module Sentences {

  import opened Text

  /** The punctuation the split pattern looks behind for. */
  predicate IsTerminal(c: char) {
    c == '.' || c == '!' || c == '?'
  }

  /** The split pattern can match at index `i`: `.`, `!` or `?` just before, whitespace at `i`. */
  predicate BreakAt(s: string, i: int)
    requires 0 < i < |s|
  {
    IsTerminal(s[i - 1]) && IsSpace(s[i])
  }

  /** No split point inside `s`. */
  predicate NoBreak(s: string) {
    forall i :: 0 < i < |s| ==> !BreakAt(s, i)
  }

  /** What `strip()` and the filter at line 78 keep: non-empty, no surrounding whitespace. */
  predicate IsSentence(s: string) {
    s != "" && IsStripped(s)
  }

  /** The first split point at or after `from`, or `|s|` if there is none. */
  function FirstBreak(s: string, from: nat): (i: nat)
    requires 1 <= from
    ensures i == |s| || (from <= i < |s| && BreakAt(s, i))
    ensures forall j :: from <= j < i ==> !BreakAt(s, j)
    decreases |s| - from
  {
    if from >= |s| then |s| else if BreakAt(s, from) then from else FirstBreak(s, from + 1)
  }

  /** The end of the maximal whitespace run that starts at `i` (the greedy `\s+`). */
  function SkipSpace(s: string, i: nat): (j: nat)
    requires i <= |s|
    ensures i <= j <= |s| && (j == |s| || !IsSpace(s[j]))
    ensures forall k :: i <= k < j ==> IsSpace(s[k])
    decreases |s| - i
  {
    if i < |s| && IsSpace(s[i]) then SkipSpace(s, i + 1) else i
  }

  /**
   * `re.split(r'(?<=[.!?])\s+', s)`: cut at the first split point, skip the whitespace
   * run there and go on with the rest. There is always at least one piece.
   */
  function Fragments(s: string): (ps: seq<string>)
    ensures |ps| >= 1
    decreases |s|
  {
    var i := FirstBreak(s, 1);
    if i == |s| then [s]
    else
      var j := SkipSpace(s, i);
      [s[..i]] + Fragments(s[j..])
  }

  /** `[p.strip() for p in ps]`. */
  function StripEach(ps: seq<string>): (ts: seq<string>)
    ensures |ts| == |ps| && forall k :: 0 <= k < |ps| ==> ts[k] == Strip(ps[k])
  {
    seq(|ps|, k requires 0 <= k < |ps| => Strip(ps[k]))
  }

  /** `[t for t in ts if t]`. */
  function DropEmpty(ts: seq<string>): (rs: seq<string>)
    ensures |rs| <= |ts|
    ensures forall k :: 0 <= k < |rs| ==> rs[k] != "" && rs[k] in ts
  {
    if ts == [] then [] else (if ts[0] == "" then [] else [ts[0]]) + DropEmpty(ts[1..])
  }

  /** `[p.strip() for p in ps if p.strip()]`. */
  function StripAll(ps: seq<string>): (ss: seq<string>)
    ensures |ss| <= |ps|
    ensures forall k :: 0 <= k < |ss| ==> ss[k] != ""
  {
    DropEmpty(StripEach(ps))
  }

  /** The sentence list of line 78. */
  function SplitSentences(text: string): (ss: seq<string>)
    ensures |ss| <= |Fragments(text)|
    ensures forall k :: 0 <= k < |ss| ==> ss[k] != ""
  {
    StripAll(Fragments(text))
  }

  // ---------------------------------------------------------------- fragments

  /**
   * Piece `k` is free of split points, and every piece but the last is non-empty and
   * ends with `.`, `!` or `?`.
   */
  lemma {:induction false} FragmentAt(s: string, k: nat)
    requires k < |Fragments(s)|
    ensures var ps := Fragments(s);
      && NoBreak(ps[k])
      && (k + 1 < |ps| ==> ps[k] != [] && IsTerminal(ps[k][|ps[k]| - 1]))
    decreases |s|
  {
    var i := FirstBreak(s, 1);
    if i < |s| {
      var j := SkipSpace(s, i);
      var ps := Fragments(s);
      assert ps == [s[..i]] + Fragments(s[j..]);
      if k == 0 {
        BeforeBreak(s, i);
      } else {
        FragmentAt(s[j..], k - 1);
        assert ps[k] == Fragments(s[j..])[k - 1];
      }
    } else {
      assert Fragments(s) == [s];
    }
  }

  /** The piece before the first split point has none inside and ends with `.`, `!` or `?`. */
  lemma BeforeBreak(s: string, i: nat)
    requires 0 < i < |s| && BreakAt(s, i) && forall m :: 1 <= m < i ==> !BreakAt(s, m)
    ensures NoBreak(s[..i]) && IsTerminal(s[..i][i - 1])
  {
    forall m | 0 < m < i ensures !BreakAt(s[..i], m) {
      assert !BreakAt(s, m);
    }
  }

  /** The pieces lose only whitespace: with it removed, they spell out the text. */
  lemma {:induction false} FragmentsKeepText(s: string)
    ensures NonSpace(Concat(Fragments(s))) == NonSpace(s)
    decreases |s|
  {
    var i := FirstBreak(s, 1);
    if i == |s| {
      assert Concat([s]) == s;
    } else {
      var j := SkipSpace(s, i);
      var rest := Fragments(s[j..]);
      FragmentsKeepText(s[j..]);
      assert Concat(Fragments(s)) == s[..i] + Concat(rest) by {
        assert Fragments(s) == [s[..i]] + rest;
      }
      NonSpaceAppend(s[..i], Concat(rest));
      SkipKeepsText(s, i);
    }
  }

  /** Skipping the whitespace run at `i` loses no other character. */
  lemma SkipKeepsText(s: string, i: nat)
    requires i <= |s|
    ensures NonSpace(s) == NonSpace(s[..i]) + NonSpace(s[SkipSpace(s, i)..])
  {
    var j := SkipSpace(s, i);
    forall m | 0 <= m < j - i ensures IsSpace(s[i..j][m]) {
      assert s[i..j][m] == s[i + m];
    }
    SpaceRunKeepsText(s, i, j);
  }

  // ---------------------------------------------------------------- strip and filter

  lemma NoBreakSlice(p: string, a: nat, b: nat)
    requires a <= b <= |p| && NoBreak(p)
    ensures NoBreak(p[a..b])
  {
    forall i | 0 < i < b - a ensures !BreakAt(p[a..b], i) {
      assert !BreakAt(p, a + i);
    }
  }

  /** Kept string `k` is the non-empty string at some index `m`, and a later one implies a later index. */
  lemma {:induction false} DropEmptyAt(ts: seq<string>, k: nat) returns (m: nat)
    requires k < |DropEmpty(ts)|
    ensures m < |ts| && DropEmpty(ts)[k] == ts[m] != ""
    ensures k + 1 < |DropEmpty(ts)| ==> m + 1 < |ts|
  {
    var rest := DropEmpty(ts[1..]);
    var head: seq<string> := if ts[0] == "" then [] else [ts[0]];
    assert DropEmpty(ts) == head + rest;
    if ts[0] != "" && k == 0 {
      m := 0;
    } else {
      var m' := DropEmptyAt(ts[1..], k - |head|);
      assert DropEmpty(ts)[k] == rest[k - |head|];
      m := m' + 1;
    }
  }

  /** Kept sentence `k` is stripped piece `m`, and a later sentence implies a later piece. */
  lemma StripAllAt(ps: seq<string>, k: nat) returns (m: nat)
    requires k < |StripAll(ps)|
    ensures m < |ps| && StripAll(ps)[k] == Strip(ps[m]) && Strip(ps[m]) != ""
    ensures k + 1 < |StripAll(ps)| ==> m + 1 < |ps|
  {
    m := DropEmptyAt(StripEach(ps), k);
  }

  /** Dropping empty strings does not change their concatenation. */
  lemma {:induction false} DropEmptyConcat(ts: seq<string>)
    ensures Concat(DropEmpty(ts)) == Concat(ts)
  {
    if ts != [] {
      var head: seq<string> := if ts[0] == "" then [] else [ts[0]];
      DropEmptyConcat(ts[1..]);
      ConcatAppend(head, DropEmpty(ts[1..]));
      if ts[0] != "" {
        assert Concat(head) == ts[0];
      }
    }
  }

  lemma {:induction false} StripEachKeepsText(ps: seq<string>)
    ensures NonSpace(Concat(StripEach(ps))) == NonSpace(Concat(ps))
  {
    if ps != [] {
      assert StripEach(ps)[1..] == StripEach(ps[1..]);
      StripEachKeepsText(ps[1..]);
      NonSpaceAppend(Strip(ps[0]), Concat(StripEach(ps[1..])));
      NonSpaceAppend(ps[0], Concat(ps[1..]));
      StripKeepsText(ps[0]);
    }
  }

  // ---------------------------------------------------------------- sentences

  /** No sentence contains a split point: the splitter cut at every one of them. */
  lemma SentencesHaveNoBreak(text: string)
    ensures var ss := SplitSentences(text); forall k :: 0 <= k < |ss| ==> NoBreak(ss[k])
  {
    var ss := SplitSentences(text);
    forall k | 0 <= k < |ss| ensures NoBreak(ss[k]) {
      SentenceNoBreakAt(text, k);
    }
  }

  lemma SentenceNoBreakAt(text: string, k: nat)
    requires k < |SplitSentences(text)|
    ensures NoBreak(SplitSentences(text)[k])
  {
    var ps := Fragments(text);
    var m := StripAllAt(ps, k);
    FragmentAt(text, m);
    var a := StripIsSlice(ps[m]);
    NoBreakSlice(ps[m], a, a + |Strip(ps[m])|);
  }

  /** Every sentence is non-empty and has no whitespace at either end. */
  lemma SentencesAreStripped(text: string)
    ensures var ss := SplitSentences(text); forall k :: 0 <= k < |ss| ==> IsSentence(ss[k])
  {
    var ps := Fragments(text);
    forall k | 0 <= k < |StripAll(ps)| ensures IsSentence(StripAll(ps)[k]) {
      var m := StripAllAt(ps, k);
      StripIsStripped(ps[m]);
    }
  }

  /** Every sentence but the last ends with `.`, `!` or `?`. */
  lemma SentencesEndWithTerminal(text: string)
    ensures var ss := SplitSentences(text);
      forall k :: 0 <= k < |ss| - 1 ==> ss[k] != "" && IsTerminal(ss[k][|ss[k]| - 1])
  {
    var ss := SplitSentences(text);
    forall k | 0 <= k < |ss| - 1 ensures ss[k] != "" && IsTerminal(ss[k][|ss[k]| - 1]) {
      SentenceEndAt(text, k);
    }
  }

  lemma SentenceEndAt(text: string, k: nat)
    requires k + 1 < |SplitSentences(text)|
    ensures var s := SplitSentences(text)[k]; s != "" && IsTerminal(s[|s| - 1])
  {
    var ps := Fragments(text);
    var m := StripAllAt(ps, k);
    FragmentAt(text, m);
    StripKeepsTerminal(ps[m]);
  }

  /** `strip()` keeps a final `.`, `!` or `?`. */
  lemma StripKeepsTerminal(p: string)
    requires p != [] && IsTerminal(p[|p| - 1])
    ensures var t := Strip(p); t != [] && IsTerminal(t[|t| - 1])
  {
    StripKeepsLast(p);
  }

  /**
   * The sentences are the text in order with whitespace removed only: their
   * non-whitespace characters are exactly those of the text.
   */
  lemma SentencesKeepText(text: string)
    ensures NonSpace(Concat(SplitSentences(text))) == NonSpace(text)
  {
    DropEmptyConcat(StripEach(Fragments(text)));
    StripEachKeepsText(Fragments(text));
    FragmentsKeepText(text);
  }

  /** Empty and whitespace-only text has no sentences, and no other text does. */
  lemma NoSentences(text: string)
    ensures SplitSentences(text) == [] <==> AllSpace(text)
  {
    var ss := SplitSentences(text);
    SentencesKeepText(text);
    NonSpaceEmpty(text);
    if ss != [] {
      SentencesAreStripped(text);
      assert ss[0] != "" && !IsSpace(ss[0][0]);
      NonSpaceAppend(ss[0], Concat(ss[1..]));
      assert NonSpace(ss[0]) != [] by {
        assert ss[0] == [ss[0][0]] + ss[0][1..];
        NonSpaceAppend([ss[0][0]], ss[0][1..]);
      }
    }
  }
}
