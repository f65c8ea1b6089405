/**
 * The packing loop of the sentence chunker: sentences are appended to a
 * running chunk while they fit; a full chunk is emitted and, with a positive
 * overlap, its last characters seed the next one.
 *
 * The loop only advances when it appends. After an emission the retained
 * tail may be too long to take the next sentence, and then the loop emits the
 * same tail again and again: it does not terminate. The loop is therefore
 * specified by `After`, the state after a given number of turns, and a run
 * terminates when some number of turns reaches the end of the sentences.
 */
module Packing {

  import opened Text
  import opened Results

  /** The loop's variables: the index `i`, `current` and `chunks`. */
  datatype Packer = Packer(next: nat, current: string, chunks: seq<string>)

  /** The state before the first turn. */
  const Start := Packer(0, "", [])

  /** Python's `s[-n:]` for a positive `n`: the last `n` characters, or all of `s` when it is shorter. */
  function Tail(s: string, n: nat): (t: string)
    requires 0 < n
    ensures |t| == if n < |s| then n else |s|
    ensures t == s[|s| - |t|..]
    decreases |s|
  {
    if n < |s| then Tail(s[1..], n) else s
  }

  /** The test of the loop: `current`, a separating space if `current` is non-empty, and `s` fit. */
  predicate Fits(current: string, s: string, maxChars: nat): (b: bool)
    ensures b <==> |if current == "" then s else current + " " + s| <= maxChars
  {
    |current| + (if current != "" then 1 else 0) + |s| <= maxChars
  }

  /** `(current + " " + s).strip()`: the running chunk with one more sentence. */
  function Grow(current: string, s: string): (g: string)
    ensures |g| <= |current| + 1 + |s|
  {
    Strip(current + " " + s)
  }

  /** One turn of the loop. */
  function Step(ss: seq<string>, maxChars: nat, overlap: nat, st: Packer): (st': Packer)
    requires st.next < |ss|
    ensures st.next <= st'.next <= st.next + 1
  {
    var s := ss[st.next];
    if Fits(st.current, s, maxChars) || st.current == "" then
      Packer(st.next + 1, if st.current != "" then Grow(st.current, s) else s, st.chunks)
    else
      Packer(st.next, if overlap > 0 then Tail(st.current, overlap) else "", st.chunks + [st.current])
  }

  /** After the loop: a non-empty `current` is the last chunk. */
  function Flush(st: Packer): (cs: seq<string>)
    ensures st.chunks <= cs && |cs| <= |st.chunks| + 1
    ensures |cs| == |st.chunks| + 1 <==> st.current != ""
    ensures |cs| == |st.chunks| + 1 ==> cs[|cs| - 1] == st.current
  {
    if st.current != "" then st.chunks + [st.current] else st.chunks
  }

  /** One turn, or nothing once every sentence has been taken. */
  function Advance(ss: seq<string>, maxChars: nat, overlap: nat, st: Packer): (st': Packer)
    requires st.next <= |ss|
    ensures st'.next <= |ss|
  {
    if st.next == |ss| then st else Step(ss, maxChars, overlap, st)
  }

  /** The loop's variables after `k` turns; a finished loop stays as it is. */
  function After(ss: seq<string>, maxChars: nat, overlap: nat, k: nat): (st: Packer)
    ensures st.next <= |ss|
  {
    if k == 0 then Start else Advance(ss, maxChars, overlap, After(ss, maxChars, overlap, k - 1))
  }

  /** A turn that takes the sentence: `current` grows by it, or becomes it. */
  lemma StepTakes(ss: seq<string>, maxChars: nat, overlap: nat, st: Packer)
    requires st.next < |ss| && (Fits(st.current, ss[st.next], maxChars) || st.current == "")
    ensures Step(ss, maxChars, overlap, st)
      == Packer(st.next + 1, if st.current != "" then Grow(st.current, ss[st.next]) else ss[st.next], st.chunks)
  {
  }

  /** A turn that emits `current` and keeps its tail, or nothing. */
  lemma StepEmits(ss: seq<string>, maxChars: nat, overlap: nat, st: Packer)
    requires st.next < |ss| && !Fits(st.current, ss[st.next], maxChars) && st.current != ""
    ensures Step(ss, maxChars, overlap, st)
      == Packer(st.next, if overlap > 0 then Tail(st.current, overlap) else "", st.chunks + [st.current])
  {
  }

  /** The loop terminates on `ss`. */
  ghost predicate Halts(ss: seq<string>, maxChars: nat, overlap: nat): (b: bool)
    ensures ss == [] ==> b
  {
    assert ss == [] ==> After(ss, maxChars, overlap, 0).next == |ss|;
    exists k: nat :: After(ss, maxChars, overlap, k).next == |ss|
  }

  /** The loop terminates on `ss` with the chunks `cs`. */
  ghost predicate Packs(ss: seq<string>, maxChars: nat, overlap: nat, cs: seq<string>): (b: bool)
    ensures b ==> Halts(ss, maxChars, overlap)
  {
    exists k: nat :: After(ss, maxChars, overlap, k).next == |ss| && Flush(After(ss, maxChars, overlap, k)) == cs
  }

  /**
   * The loop of `chunk_text_sentencewise`, run on the sentence list until every
   * sentence has been taken; called only where that happens.
   */
  method PackSentences(ss: seq<string>, maxChars: nat, overlap: nat) returns (chunks: seq<string>)
    requires Halts(ss, maxChars, overlap)
    ensures Packs(ss, maxChars, overlap, chunks)
  {
    ghost var end: nat :| After(ss, maxChars, overlap, end).next == |ss|;
    chunks := [];
    var current := "";
    var i := 0;
    ghost var turns: nat := 0;
    while i < |ss|
      invariant turns <= end
      invariant Packer(i, current, chunks) == After(ss, maxChars, overlap, turns)
      decreases end - turns
    {
      ghost var st := Packer(i, current, chunks);
      var s := ss[i];
      if |current| + (if current != "" then 1 else 0) + |s| <= maxChars || current == "" {
        StepTakes(ss, maxChars, overlap, st);
        current := if current != "" then Grow(current, s) else s;
        i := i + 1;
      } else {
        StepEmits(ss, maxChars, overlap, st);
        chunks := chunks + [current];
        if overlap > 0 {
          current := Tail(current, overlap);
        } else {
          current := "";
        }
      }
      assert Packer(i, current, chunks) == Step(ss, maxChars, overlap, st);
      turns := turns + 1;
    }
    if current != "" {
      chunks := chunks + [current];
    }
  }

  // ---------------------------------------------------------------- determinism

  /** Once every sentence has been taken, further turns change nothing. */
  lemma {:induction false} FinishedStays(ss: seq<string>, maxChars: nat, overlap: nat, k: nat, j: nat)
    requires k <= j && After(ss, maxChars, overlap, k).next == |ss|
    ensures After(ss, maxChars, overlap, j) == After(ss, maxChars, overlap, k)
    decreases j
  {
    if k < j {
      FinishedStays(ss, maxChars, overlap, k, j - 1);
    }
  }

  /** A terminating loop yields one list of chunks. */
  lemma PacksUnique(ss: seq<string>, maxChars: nat, overlap: nat, cs: seq<string>, ds: seq<string>)
    requires Packs(ss, maxChars, overlap, cs) && Packs(ss, maxChars, overlap, ds)
    ensures cs == ds
  {
    var k: nat :| After(ss, maxChars, overlap, k).next == |ss| && Flush(After(ss, maxChars, overlap, k)) == cs;
    var j: nat :| After(ss, maxChars, overlap, j).next == |ss| && Flush(After(ss, maxChars, overlap, j)) == ds;
    if k <= j {
      FinishedStays(ss, maxChars, overlap, k, j);
    } else {
      FinishedStays(ss, maxChars, overlap, j, k);
    }
  }

  // ---------------------------------------------------------------- termination

  /**
   * Every retained tail leaves room for any sentence: then an emission is always
   * followed by an append. With no overlap nothing is retained.
   */
  predicate RoomForOverlap(ss: seq<string>, maxChars: nat, overlap: nat) {
    overlap == 0 || forall k :: 0 <= k < |ss| ==> overlap + 1 + |ss[k]| <= maxChars
  }

  /** `current` is non-empty and does not take the next sentence: the next turn emits. */
  predicate Pending(ss: seq<string>, maxChars: nat, st: Packer) {
    st.next < |ss| && st.current != "" && !Fits(st.current, ss[st.next], maxChars)
  }

  /** An upper bound on the turns left. */
  function Measure(ss: seq<string>, maxChars: nat, st: Packer): nat
    requires st.next <= |ss|
  {
    2 * (|ss| - st.next) + if Pending(ss, maxChars, st) then 1 else 0
  }

  /** With room for the overlap, every turn before the end lowers the measure. */
  lemma StepDescends(ss: seq<string>, maxChars: nat, overlap: nat, st: Packer)
    requires st.next < |ss| && RoomForOverlap(ss, maxChars, overlap)
    ensures Measure(ss, maxChars, Step(ss, maxChars, overlap, st)) < Measure(ss, maxChars, st)
  {
    if !(Fits(st.current, ss[st.next], maxChars) || st.current == "") && overlap > 0 {
      assert overlap + 1 + |ss[st.next]| <= maxChars;
    }
  }

  lemma {:induction false} Within(ss: seq<string>, maxChars: nat, overlap: nat, k: nat)
    requires RoomForOverlap(ss, maxChars, overlap)
    ensures var st := After(ss, maxChars, overlap, k);
      st.next == |ss| || Measure(ss, maxChars, st) + k <= 2 * |ss|
  {
    if k > 0 {
      Within(ss, maxChars, overlap, k - 1);
      var st := After(ss, maxChars, overlap, k - 1);
      if st.next < |ss| {
        StepDescends(ss, maxChars, overlap, st);
      }
    }
  }

  /** With no overlap, or sentences short enough for any tail, the loop ends within `2 |ss|` turns. */
  lemma RoomHalts(ss: seq<string>, maxChars: nat, overlap: nat)
    requires RoomForOverlap(ss, maxChars, overlap)
    ensures After(ss, maxChars, overlap, 2 * |ss|).next == |ss|
    ensures Halts(ss, maxChars, overlap)
  {
    Within(ss, maxChars, overlap, 2 * |ss|);
  }

  // ---------------------------------------------------------------- divergence

  /**
   * A retained tail (at most `overlap` long) that does not take the next sentence:
   * the turn emits it and keeps it unchanged, so the state repeats.
   */
  predicate Doomed(ss: seq<string>, maxChars: nat, overlap: nat, st: Packer) {
    0 < overlap && st.next < |ss| && st.current != "" && |st.current| <= overlap
    && !Fits(st.current, ss[st.next], maxChars)
  }

  lemma {:induction false} DoomedStays(ss: seq<string>, maxChars: nat, overlap: nat, k: nat, j: nat)
    requires k <= j && Doomed(ss, maxChars, overlap, After(ss, maxChars, overlap, k))
    ensures Doomed(ss, maxChars, overlap, After(ss, maxChars, overlap, j))
    decreases j
  {
    if k < j {
      DoomedStays(ss, maxChars, overlap, k, j - 1);
      var st := After(ss, maxChars, overlap, j - 1);
      StepEmits(ss, maxChars, overlap, st);
      assert Tail(st.current, overlap) == st.current;
      assert After(ss, maxChars, overlap, j) == Packer(st.next, st.current, st.chunks + [st.current]);
    }
  }

  /** The index never moves back. */
  lemma {:induction false} NextGrows(ss: seq<string>, maxChars: nat, overlap: nat, k: nat, j: nat)
    requires k <= j
    ensures After(ss, maxChars, overlap, k).next <= After(ss, maxChars, overlap, j).next
    decreases j
  {
    if k < j {
      NextGrows(ss, maxChars, overlap, k, j - 1);
    }
  }

  /** From a doomed state the loop never ends. */
  lemma DoomedNeverHalts(ss: seq<string>, maxChars: nat, overlap: nat, k: nat)
    requires Doomed(ss, maxChars, overlap, After(ss, maxChars, overlap, k))
    ensures !Halts(ss, maxChars, overlap)
  {
    forall j: nat ensures After(ss, maxChars, overlap, j).next < |ss| {
      if k <= j {
        DoomedStays(ss, maxChars, overlap, k, j);
      } else {
        NextGrows(ss, maxChars, overlap, j, k);
      }
    }
  }

  /**
   * An emission whose retained tail does not take the sentence that waits: the
   * loop never ends from there.
   */
  lemma TailTooLongHangs(ss: seq<string>, maxChars: nat, overlap: nat, k: nat)
    requires var st := After(ss, maxChars, overlap, k);
      && st.next < |ss| && st.current != "" && 0 < overlap
      && !Fits(st.current, ss[st.next], maxChars)
      && !Fits(Tail(st.current, overlap), ss[st.next], maxChars)
    ensures !Halts(ss, maxChars, overlap)
  {
    StepEmits(ss, maxChars, overlap, After(ss, maxChars, overlap, k));
    DoomedNeverHalts(ss, maxChars, overlap, k + 1);
  }

  /**
   * A first sentence followed by one that fits neither after it nor after its
   * retained tail: the loop emits the first sentence and then its tail for ever.
   */
  lemma SecondSentenceHangs(ss: seq<string>, maxChars: nat, overlap: nat)
    requires 2 <= |ss| && ss[0] != "" && 0 < overlap
    requires (if overlap < |ss[0]| then overlap else |ss[0]|) + 1 + |ss[1]| > maxChars
    ensures !Halts(ss, maxChars, overlap)
  {
    StepTakes(ss, maxChars, overlap, Start);
    assert After(ss, maxChars, overlap, 1) == Packer(1, ss[0], []);
    TailTooLongHangs(ss, maxChars, overlap, 1);
  }

  /** The sentences of the module's own sample text. */
  const SampleSentences: seq<string> := [
    "This is a short example.",
    "It demonstrates chunking by sentences, characters, or tokens.",
    "Use token-based chunking for embeddings and character/sentence chunking for simpler pipelines."
  ]

  /**
   * With `max_chars=50, overlap_chars=10`, as in the sample run, the loop never ends:
   * the 10-character tail of the first chunk cannot take the 61-character second
   * sentence, and is emitted for ever.
   */
  lemma SampleNeverFinishes()
    ensures !Halts(SampleSentences, 50, 10)
  {
    var ss := SampleSentences;
    assert |ss| == 3 && |ss[0]| == 24 && |ss[1]| == 61;
    SecondSentenceHangs(ss, 50, 10);
  }

  // ---------------------------------------------------------------- what a finished run yields

  /** A chunk is non-empty, and longer than `maxChars` only when it is a single sentence. */
  predicate GoodChunks(ss: seq<string>, maxChars: nat, cs: seq<string>) {
    forall k :: 0 <= k < |cs| ==> cs[k] != "" && (|cs[k]| <= maxChars || cs[k] in ss)
  }

  /** What `current` can hold: nothing, a sentence, at most `maxChars`, or a tail that repeats. */
  predicate Sound(ss: seq<string>, maxChars: nat, overlap: nat, st: Packer) {
    st.current == "" || st.current in ss || |st.current| <= maxChars || Doomed(ss, maxChars, overlap, st)
  }

  /** A turn from a sound state that is not doomed keeps it sound and emits only good chunks. */
  lemma StepSound(ss: seq<string>, maxChars: nat, overlap: nat, st: Packer)
    requires st.next < |ss| && Sound(ss, maxChars, overlap, st) && GoodChunks(ss, maxChars, st.chunks)
    requires !Doomed(ss, maxChars, overlap, st)
    ensures Sound(ss, maxChars, overlap, Step(ss, maxChars, overlap, st))
    ensures GoodChunks(ss, maxChars, Step(ss, maxChars, overlap, st).chunks)
  {
    if !Fits(st.current, ss[st.next], maxChars) && st.current != "" {
      StepEmits(ss, maxChars, overlap, st);
    } else {
      StepTakes(ss, maxChars, overlap, st);
    }
  }

  /** Every turn before the end of a terminating run keeps the state sound and the chunks good. */
  lemma {:induction false} GoodSoFar(ss: seq<string>, maxChars: nat, overlap: nat, k: nat, end: nat)
    requires k <= end && After(ss, maxChars, overlap, end).next == |ss|
    ensures Sound(ss, maxChars, overlap, After(ss, maxChars, overlap, k))
    ensures GoodChunks(ss, maxChars, After(ss, maxChars, overlap, k).chunks)
  {
    if k > 0 {
      GoodSoFar(ss, maxChars, overlap, k - 1, end);
      var st := After(ss, maxChars, overlap, k - 1);
      if st.next < |ss| {
        if Doomed(ss, maxChars, overlap, st) {
          DoomedStays(ss, maxChars, overlap, k - 1, end);
          assert false;
        }
        StepSound(ss, maxChars, overlap, st);
      }
    }
  }

  /**
   * The chunks of a terminating run are non-empty, and a chunk longer than
   * `maxChars` is one sentence that alone exceeds it.
   */
  lemma PacksGood(ss: seq<string>, maxChars: nat, overlap: nat, cs: seq<string>)
    requires Packs(ss, maxChars, overlap, cs)
    ensures GoodChunks(ss, maxChars, cs)
  {
    var k: nat :| After(ss, maxChars, overlap, k).next == |ss| && Flush(After(ss, maxChars, overlap, k)) == cs;
    GoodSoFar(ss, maxChars, overlap, k, k);
  }

  /** Non-empty strings without surrounding whitespace, as the splitter yields. */
  predicate AllSentences(ss: seq<string>) {
    forall k :: 0 <= k < |ss| ==> ss[k] != "" && IsStripped(ss[k])
  }

  /** `(c + " " + s).strip()` keeps the last character of a stripped non-empty `s`. */
  lemma GrowNonEmpty(c: string, s: string)
    requires s != "" && IsStripped(s)
    ensures Grow(c, s) != ""
  {
    var g := c + " " + s;
    assert g[|g| - 1] == s[|s| - 1];
    StripKeepsLast(g);
  }

  /** Once a sentence has been taken, `current` or the chunks hold something. */
  lemma StepKeepsContent(ss: seq<string>, maxChars: nat, overlap: nat, st: Packer)
    requires st.next < |ss| && AllSentences(ss)
    requires st.next > 0 ==> Flush(st) != []
    ensures Flush(Step(ss, maxChars, overlap, st)) != []
  {
    var s := ss[st.next];
    if (Fits(st.current, s, maxChars) || st.current == "") && st.current != "" {
      GrowNonEmpty(st.current, s);
    }
  }

  lemma {:induction false} ContentSoFar(ss: seq<string>, maxChars: nat, overlap: nat, k: nat)
    requires AllSentences(ss)
    ensures var st := After(ss, maxChars, overlap, k); st.next > 0 ==> Flush(st) != []
  {
    if k > 0 {
      ContentSoFar(ss, maxChars, overlap, k - 1);
      var st := After(ss, maxChars, overlap, k - 1);
      if st.next < |ss| {
        StepKeepsContent(ss, maxChars, overlap, st);
      }
    }
  }

  /** A terminating run yields no chunks exactly when there are no sentences. */
  lemma PacksEmpty(ss: seq<string>, maxChars: nat, overlap: nat, cs: seq<string>)
    requires AllSentences(ss) && Packs(ss, maxChars, overlap, cs)
    ensures cs == [] <==> ss == []
  {
    var k: nat :| After(ss, maxChars, overlap, k).next == |ss| && Flush(After(ss, maxChars, overlap, k)) == cs;
    if ss == [] {
      FinishedStays(ss, maxChars, overlap, 0, k);
    } else {
      ContentSoFar(ss, maxChars, overlap, k);
    }
  }

  // ---------------------------------------------------------------- no overlap

  /** With no overlap, the chunks joined by spaces are the sentences joined by spaces. */
  predicate Joined(ss: seq<string>, st: Packer)
    requires st.next <= |ss|
  {
    && (forall k :: 0 <= k < |st.chunks| ==> st.chunks[k] != "")
    && (st.current == "" || IsStripped(st.current))
    && JoinWords(Flush(st)) == JoinWords(ss[..st.next])
  }

  lemma NonEmptyPrefix(ss: seq<string>, n: nat)
    requires n <= |ss| && AllSentences(ss)
    ensures forall k :: 0 <= k < |ss[..n]| ==> ss[..n][k] != ""
  {
  }

  lemma SpacedStripped(c: string, s: string)
    requires c != "" && IsStripped(c) && s != "" && IsStripped(s)
    ensures IsStripped(c + " " + s)
  {
    var g := c + " " + s;
    assert g[0] == c[0] && g[|g| - 1] == s[|s| - 1];
  }

  /** Between stripped non-empty strings, `(c + " " + s).strip()` removes nothing. */
  lemma GrowStripped(c: string, s: string)
    requires c != "" && IsStripped(c) && s != "" && IsStripped(s)
    ensures Grow(c, s) == c + " " + s
  {
    SpacedStripped(c, s);
    StripStripped(c + " " + s);
  }

  /** A sentence taken into an empty `current` starts a new chunk. */
  lemma JoinStart(chunks: seq<string>, prefix: seq<string>, s: string)
    requires forall k :: 0 <= k < |chunks| ==> chunks[k] != ""
    requires forall k :: 0 <= k < |prefix| ==> prefix[k] != ""
    requires JoinWords(chunks) == JoinWords(prefix)
    ensures JoinWords(chunks + [s]) == JoinWords(prefix + [s])
  {
    JoinWordsEmpty(chunks);
    JoinWordsEmpty(prefix);
    if chunks != [] {
      JoinWordsSnoc(chunks, s);
      JoinWordsSnoc(prefix, s);
    } else {
      assert prefix == [];
    }
  }

  /** A sentence appended to a non-empty `current` extends the last chunk by a space and itself. */
  lemma JoinGrow(chunks: seq<string>, c: string, prefix: seq<string>, s: string)
    requires c != ""
    requires JoinWords(chunks + [c]) == JoinWords(prefix)
    ensures JoinWords(chunks + [c + " " + s]) == JoinWords(prefix + [s])
  {
    var grown := JoinWords(chunks + [c + " " + s]);
    if chunks == [] {
      assert chunks + [c] == [c] && chunks + [c + " " + s] == [c + " " + s];
    } else {
      var j := JoinWords(chunks);
      JoinWordsSnoc(chunks, c);
      JoinWordsSnoc(chunks, c + " " + s);
      assert grown == (j + " " + c) + " " + s;
    }
    assert grown == JoinWords(chunks + [c]) + " " + s;
    assert prefix != [];
    JoinWordsSnoc(prefix, s);
  }

  lemma JoinedStart(ss: seq<string>, st: Packer)
    requires st.next < |ss| && Joined(ss, st) && AllSentences(ss) && st.current == ""
    ensures Joined(ss, Packer(st.next + 1, ss[st.next], st.chunks))
  {
    var s := ss[st.next];
    assert ss[..st.next + 1] == ss[..st.next] + [s];
    assert Flush(st) == st.chunks;
    NonEmptyPrefix(ss, st.next);
    JoinStart(st.chunks, ss[..st.next], s);
  }

  lemma JoinedGrow(ss: seq<string>, st: Packer)
    requires st.next < |ss| && Joined(ss, st) && AllSentences(ss) && st.current != ""
    ensures Joined(ss, Packer(st.next + 1, st.current + " " + ss[st.next], st.chunks))
  {
    var s := ss[st.next];
    assert ss[..st.next + 1] == ss[..st.next] + [s];
    assert Flush(st) == st.chunks + [st.current];
    SpacedStripped(st.current, s);
    JoinGrow(st.chunks, st.current, ss[..st.next], s);
  }

  lemma StepJoined(ss: seq<string>, maxChars: nat, st: Packer)
    requires st.next < |ss| && Joined(ss, st) && AllSentences(ss)
    ensures Joined(ss, Step(ss, maxChars, 0, st))
  {
    var s := ss[st.next];
    if Fits(st.current, s, maxChars) || st.current == "" {
      StepTakes(ss, maxChars, 0, st);
      if st.current == "" {
        JoinedStart(ss, st);
      } else {
        GrowStripped(st.current, s);
        JoinedGrow(ss, st);
      }
    } else {
      StepEmits(ss, maxChars, 0, st);
      assert Flush(Step(ss, maxChars, 0, st)) == Flush(st);
    }
  }

  lemma {:induction false} JoinedSoFar(ss: seq<string>, maxChars: nat, k: nat)
    requires AllSentences(ss)
    ensures Joined(ss, After(ss, maxChars, 0, k))
  {
    if k == 0 {
      assert ss[..0] == [];
    } else {
      JoinedSoFar(ss, maxChars, k - 1);
      var st := After(ss, maxChars, 0, k - 1);
      if st.next < |ss| {
        StepJoined(ss, maxChars, st);
      }
    }
  }

  /**
   * With `overlap_chars=0` no character is repeated or lost: the chunks joined by
   * single spaces are the sentences joined by single spaces.
   */
  lemma PacksKeepSentences(ss: seq<string>, maxChars: nat, cs: seq<string>)
    requires AllSentences(ss) && Packs(ss, maxChars, 0, cs)
    ensures JoinWords(cs) == JoinWords(ss)
  {
    var k: nat :| After(ss, maxChars, 0, k).next == |ss| && Flush(After(ss, maxChars, 0, k)) == cs;
    JoinedSoFar(ss, maxChars, k);
    assert ss[..|ss|] == ss;
  }

  // ---------------------------------------------------------------- whole sentences

  /**
   * `cs` cuts the first `n` sentences into consecutive non-empty runs at the indices
   * `cuts`: chunk `k` is the single-space join of the sentences from `cuts[k]` to
   * `cuts[k + 1]`.
   */
  predicate Groups(ss: seq<string>, n: nat, cs: seq<string>, cuts: seq<nat>) {
    && n <= |ss| && |cuts| == |cs| + 1 && cuts[0] == 0 && cuts[|cs|] == n
    && forall k :: 0 <= k < |cs| ==> GroupAt(ss, n, cs, cuts, k)
  }

  /** Chunk `k` is the join of the non-empty run of sentences from `cuts[k]` to `cuts[k + 1]`. */
  predicate GroupAt(ss: seq<string>, n: nat, cs: seq<string>, cuts: seq<nat>, k: nat)
    requires n <= |ss| && k < |cs| && |cuts| == |cs| + 1
  {
    cuts[k] < cuts[k + 1] <= n && cs[k] == JoinWords(ss[cuts[k]..cuts[k + 1]])
  }

  /** The single-space join of one or more sentences is non-empty and stripped. */
  lemma {:induction false} JoinSentences(ws: seq<string>)
    requires ws != [] && AllSentences(ws)
    ensures JoinWords(ws) != "" && IsStripped(JoinWords(ws))
  {
    if |ws| > 1 {
      JoinSentences(ws[1..]);
      var j := JoinWords(ws);
      var rest := JoinWords(ws[1..]);
      assert j == ws[0] + " " + rest;
      assert j[0] == ws[0][0] && j[|j| - 1] == rest[|rest| - 1];
    }
  }

  lemma SliceSentences(ss: seq<string>, a: nat, b: nat)
    requires a < b <= |ss| && AllSentences(ss)
    ensures ss[a..b] != [] && AllSentences(ss[a..b])
  {
    assert forall k :: 0 <= k < b - a ==> ss[a..b][k] == ss[a + k];
  }

  /** A turn taking a sentence into an empty `current` opens a group of one. */
  lemma GroupsOpen(ss: seq<string>, n: nat, cs: seq<string>, cuts: seq<nat>) returns (cuts': seq<nat>)
    requires n < |ss| && Groups(ss, n, cs, cuts)
    ensures Groups(ss, n + 1, cs + [ss[n]], cuts')
  {
    cuts' := cuts + [n + 1];
    assert ss[n..n + 1] == [ss[n]];
    var cs' := cs + [ss[n]];
    var n' := n + 1;
    forall k | 0 <= k < |cs'| ensures GroupAt(ss, n', cs', cuts', k) {
      if k < |cs| {
        assert GroupAt(ss, n, cs, cuts, k);
      }
    }
  }

  /** A turn appending a sentence to a non-empty `current` extends the last group. */
  lemma GroupsExtend(ss: seq<string>, n: nat, cs: seq<string>, c: string, cuts: seq<nat>) returns (cuts': seq<nat>)
    requires n < |ss| && AllSentences(ss) && Groups(ss, n, cs + [c], cuts)
    ensures c != "" && IsStripped(c)
    ensures Groups(ss, n + 1, cs + [c + " " + ss[n]], cuts')
  {
    var last := |cs|;
    assert GroupAt(ss, n, cs + [c], cuts, last);
    var a := cuts[last];
    SliceSentences(ss, a, n);
    JoinSentences(ss[a..n]);
    cuts' := cuts[..last + 1] + [n + 1];
    assert ss[a..n + 1] == ss[a..n] + [ss[n]];
    JoinWordsSnoc(ss[a..n], ss[n]);
    var cs' := cs + [c + " " + ss[n]];
    var n' := n + 1;
    forall k | 0 <= k < |cs'| ensures GroupAt(ss, n', cs', cuts', k) {
      if k < last {
        assert GroupAt(ss, n, cs + [c], cuts, k);
      }
    }
  }

  lemma StepGroups(ss: seq<string>, maxChars: nat, st: Packer, cuts: seq<nat>) returns (cuts': seq<nat>)
    requires st.next < |ss| && AllSentences(ss) && Groups(ss, st.next, Flush(st), cuts)
    ensures var st' := Step(ss, maxChars, 0, st); Groups(ss, st'.next, Flush(st'), cuts')
  {
    var s := ss[st.next];
    if Fits(st.current, s, maxChars) || st.current == "" {
      StepTakes(ss, maxChars, 0, st);
      if st.current == "" {
        cuts' := GroupsOpen(ss, st.next, st.chunks, cuts);
      } else {
        cuts' := GroupsExtend(ss, st.next, st.chunks, st.current, cuts);
        GrowStripped(st.current, s);
      }
    } else {
      StepEmits(ss, maxChars, 0, st);
      cuts' := cuts;
    }
  }

  lemma {:induction false} GroupsSoFar(ss: seq<string>, maxChars: nat, k: nat) returns (cuts: seq<nat>)
    requires AllSentences(ss)
    ensures var st := After(ss, maxChars, 0, k); Groups(ss, st.next, Flush(st), cuts)
  {
    if k == 0 {
      cuts := [0];
    } else {
      var prev := GroupsSoFar(ss, maxChars, k - 1);
      var st := After(ss, maxChars, 0, k - 1);
      if st.next < |ss| {
        cuts := StepGroups(ss, maxChars, st, prev);
      } else {
        cuts := prev;
      }
    }
  }

  /**
   * With `overlap_chars=0` no sentence is cut: the chunks split the sentence list
   * into consecutive non-empty runs, each chunk the single-space join of its run.
   */
  lemma PacksWholeSentences(ss: seq<string>, maxChars: nat, cs: seq<string>)
    requires AllSentences(ss) && Packs(ss, maxChars, 0, cs)
    ensures exists cuts :: Groups(ss, |ss|, cs, cuts)
  {
    var k: nat :| After(ss, maxChars, 0, k).next == |ss| && Flush(After(ss, maxChars, 0, k)) == cs;
    var cuts := GroupsSoFar(ss, maxChars, k);
  }

  // ---------------------------------------------------------------- sentences in the chunks, with any overlap

  /**
   * Each of the first `n` sentences appears whole in chunk `pos[i]`, and a later
   * sentence never appears in an earlier chunk.
   */
  predicate Placed(ss: seq<string>, n: nat, cs: seq<string>, pos: seq<nat>) {
    && n <= |ss| && |pos| == n
    && (forall i :: 0 <= i < n ==> pos[i] < |cs| && Occurs(ss[i], cs[pos[i]]))
    && (forall i, j :: 0 <= i <= j < n ==> pos[i] <= pos[j])
  }

  /** `(c + " " + s).strip()` for a `c` ending in non-whitespace: `c` loses its leading whitespace only. */
  lemma GrowSolid(c: string, s: string)
    requires EndsSolid(c) && s != "" && IsStripped(s)
    ensures Grow(c, s) == Strip(c) + " " + s
  {
    var y := " " + s;
    assert y[|y| - 1] == s[|s| - 1];
    assert EndsSolid(y);
    assert c + " " + s == c + y;
    StripAppend(c, y);
  }

  /** The sentence appended by line 85 ends the new `current`, whole. */
  lemma GrowHasSentence(c: string, s: string)
    requires EndsSolid(c) && s != "" && IsStripped(s)
    ensures Occurs(s, Grow(c, s)) && EndsSolid(Grow(c, s))
  {
    GrowSolid(c, s);
    var g := Grow(c, s);
    assert g[|Strip(c)| + 1..] == s;
  }

  /** A sentence already in `current` is still there after line 85. */
  lemma GrowKeepsSentence(c: string, s: string, w: string)
    requires EndsSolid(c) && s != "" && IsStripped(s)
    requires w != "" && IsStripped(w) && Occurs(w, c)
    ensures Occurs(w, Grow(c, s))
  {
    GrowSolid(c, s);
    OccursStrip(w, c);
    OccursPrefix(w, Strip(c), " " + s);
    assert Strip(c) + " " + s == Strip(c) + (" " + s);
  }

  /** The tail of a chunk ending in non-whitespace ends with it too. */
  lemma TailSolid(s: string, n: nat)
    requires EndsSolid(s) && 0 < n
    ensures EndsSolid(Tail(s, n))
  {
    var t := Tail(s, n);
    assert t[|t| - 1] == s[|s| - 1];
  }

  /** A turn keeps every taken sentence whole in a chunk, in order, and `current` ending in non-whitespace. */
  lemma StepPlaced(ss: seq<string>, maxChars: nat, overlap: nat, st: Packer, pos: seq<nat>) returns (pos': seq<nat>)
    requires st.next < |ss| && AllSentences(ss) && Placed(ss, st.next, Flush(st), pos)
    requires st.current == "" || EndsSolid(st.current)
    ensures var st' := Step(ss, maxChars, overlap, st);
      Placed(ss, st'.next, Flush(st'), pos') && (st'.current == "" || EndsSolid(st'.current))
  {
    var n := st.next;
    var s := ss[n];
    var st' := Step(ss, maxChars, overlap, st);
    if Fits(st.current, s, maxChars) || st.current == "" {
      StepTakes(ss, maxChars, overlap, st);
      var cs' := Flush(st');
      pos' := pos + [|st.chunks|];
      if st.current != "" {
        GrowHasSentence(st.current, s);
        forall i | 0 <= i < n && pos[i] == |st.chunks| ensures Occurs(ss[i], cs'[pos[i]]) {
          assert Flush(st)[pos[i]] == st.current;
          GrowKeepsSentence(st.current, s, ss[i]);
        }
      } else {
        assert s <= s[0..];
      }
      var n' := n + 1;
      forall i | 0 <= i < n' ensures pos'[i] < |cs'| && Occurs(ss[i], cs'[pos'[i]]) {
        if i < n && pos[i] < |st.chunks| {
          assert cs'[pos[i]] == Flush(st)[pos[i]];
        }
      }
    } else {
      StepEmits(ss, maxChars, overlap, st);
      pos' := pos;
      assert Flush(st) <= Flush(st');
      if overlap > 0 {
        TailSolid(st.current, overlap);
      }
    }
  }

  lemma {:induction false} PlacedSoFar(ss: seq<string>, maxChars: nat, overlap: nat, k: nat) returns (pos: seq<nat>)
    requires AllSentences(ss)
    ensures var st := After(ss, maxChars, overlap, k);
      Placed(ss, st.next, Flush(st), pos) && (st.current == "" || EndsSolid(st.current))
  {
    if k == 0 {
      pos := [];
    } else {
      var prev := PlacedSoFar(ss, maxChars, overlap, k - 1);
      var st := After(ss, maxChars, overlap, k - 1);
      if st.next < |ss| {
        pos := StepPlaced(ss, maxChars, overlap, st, prev);
        assert After(ss, maxChars, overlap, k) == Step(ss, maxChars, overlap, st);
      } else {
        pos := prev;
        assert After(ss, maxChars, overlap, k) == st;
      }
    }
  }

  /**
   * With any overlap, a terminating run loses no sentence and cuts none: every
   * sentence appears whole in some chunk, and later sentences in the same or later chunks.
   */
  lemma PacksPlaced(ss: seq<string>, maxChars: nat, overlap: nat, cs: seq<string>)
    requires AllSentences(ss) && Packs(ss, maxChars, overlap, cs)
    ensures exists pos :: Placed(ss, |ss|, cs, pos)
  {
    var k: nat :| After(ss, maxChars, overlap, k).next == |ss| && Flush(After(ss, maxChars, overlap, k)) == cs;
    var pos := PlacedSoFar(ss, maxChars, overlap, k);
  }

  // ---------------------------------------------------------------- the overlap between chunks

  /** Every chunk after the first begins with the tail of the one before, less its leading whitespace. */
  predicate CarriesOver(cs: seq<string>, overlap: nat)
    requires 0 < overlap
  {
    forall k {:trigger Tail(cs[k], overlap)} :: 0 <= k < |cs| - 1 ==> Strip(Tail(cs[k], overlap)) <= cs[k + 1]
  }

  /**
   * After an emission, `current` is the tail of the last chunk (and a sentence is
   * waiting), or it has been grown from that tail: stripped, and starting with it.
   */
  predicate Resumes(ss: seq<string>, overlap: nat, st: Packer)
    requires 0 < overlap && st.chunks != []
  {
    var t := Tail(st.chunks[|st.chunks| - 1], overlap);
    (st.next < |ss| && st.current == t) || (IsStripped(st.current) && Strip(t) <= st.current)
  }

  /** What a run with a positive overlap keeps between turns. */
  predicate Carried(ss: seq<string>, overlap: nat, st: Packer)
    requires 0 < overlap
  {
    && (st.chunks != [] ==> EndsSolid(st.chunks[|st.chunks| - 1]))
    && (st.current == "" || EndsSolid(st.current))
    && CarriesOver(st.chunks, overlap)
    && (st.chunks != [] ==> Resumes(ss, overlap, st))
  }

  /** A tail ending in non-whitespace, stripped, is a non-empty stripped string. */
  lemma StripTail(t: string)
    requires EndsSolid(t)
    ensures Strip(t) != "" && IsStripped(Strip(t))
  {
    StripIsStripped(t);
    StripEmpty(t);
  }

  /** One more chunk that begins with the stripped tail of the last one keeps the overlap. */
  lemma CarriesOverSnoc(cs: seq<string>, c: string, overlap: nat)
    requires 0 < overlap && CarriesOver(cs, overlap)
    requires cs != [] ==> Strip(Tail(cs[|cs| - 1], overlap)) <= c
    ensures CarriesOver(cs + [c], overlap)
  {
    var cs' := cs + [c];
    forall k | 0 <= k < |cs'| - 1 ensures Strip(Tail(cs'[k], overlap)) <= cs'[k + 1] {
      if k + 1 < |cs| {
        assert cs'[k] == cs[k] && cs'[k + 1] == cs[k + 1];
      }
    }
  }

  /** An emission from a `current` that follows on from the last chunk keeps `Carried`. */
  lemma EmitCarried(ss: seq<string>, overlap: nat, st: Packer)
    requires 0 < overlap && st.next < |ss| && Carried(ss, overlap, st) && st.current != ""
    requires st.chunks != [] ==> Strip(Tail(st.chunks[|st.chunks| - 1], overlap)) <= st.current
    ensures Carried(ss, overlap, Packer(st.next, Tail(st.current, overlap), st.chunks + [st.current]))
  {
    TailSolid(st.current, overlap);
    CarriesOverSnoc(st.chunks, st.current, overlap);
    var st' := Packer(st.next, Tail(st.current, overlap), st.chunks + [st.current]);
    assert st'.chunks[|st'.chunks| - 1] == st.current;
    assert Resumes(ss, overlap, st');
  }

  /** Growing a stripped `current` keeps it stripped and keeps its beginning. */
  lemma GrowKeepsStart(c: string, s: string, p: string)
    requires c != "" && IsStripped(c) && s != "" && IsStripped(s) && p <= c
    ensures IsStripped(Grow(c, s)) && p <= Grow(c, s) && EndsSolid(Grow(c, s))
  {
    GrowStripped(c, s);
    SpacedStripped(c, s);
    assert (c + " " + s)[..|c|] == c;
  }

  /** Growing a retained tail strips its leading whitespace and keeps the rest at the front. */
  lemma GrowTail(t: string, s: string)
    requires EndsSolid(t) && s != "" && IsStripped(s)
    ensures IsStripped(Grow(t, s)) && Strip(t) <= Grow(t, s) && EndsSolid(Grow(t, s))
  {
    StripTail(t);
    GrowSolid(t, s);
    SpacedStripped(Strip(t), s);
    assert (Strip(t) + " " + s)[..|Strip(t)|] == Strip(t);
  }

  /** A sentence taken into `current` keeps `Carried`. */
  lemma TakeCarried(ss: seq<string>, overlap: nat, st: Packer, s: string)
    requires 0 < overlap && st.next < |ss| && Carried(ss, overlap, st) && s != "" && IsStripped(s)
    ensures Carried(ss, overlap, Packer(st.next + 1, if st.current != "" then Grow(st.current, s) else s, st.chunks))
  {
    var c' := if st.current != "" then Grow(st.current, s) else s;
    var st' := Packer(st.next + 1, c', st.chunks);
    if st.chunks == [] {
      if st.current != "" {
        GrowHasSentence(st.current, s);
      }
    } else {
      var t := Tail(st.chunks[|st.chunks| - 1], overlap);
      TailSolid(st.chunks[|st.chunks| - 1], overlap);
      StripTail(t);
      assert st.current != "";
      if IsStripped(st.current) && Strip(t) <= st.current {
        GrowKeepsStart(st.current, s, Strip(t));
      } else {
        assert st.current == t;
        GrowTail(t, s);
      }
      assert IsStripped(c') && Strip(t) <= c' && EndsSolid(c');
      assert Resumes(ss, overlap, st');
    }
  }

  /** A turn from a state that is not doomed keeps `Carried`. */
  lemma StepCarried(ss: seq<string>, maxChars: nat, overlap: nat, st: Packer)
    requires 0 < overlap && st.next < |ss| && AllSentences(ss) && Carried(ss, overlap, st)
    requires !Doomed(ss, maxChars, overlap, st)
    ensures Carried(ss, overlap, Step(ss, maxChars, overlap, st))
  {
    if Fits(st.current, ss[st.next], maxChars) || st.current == "" {
      StepTakes(ss, maxChars, overlap, st);
      TakeCarried(ss, overlap, st, ss[st.next]);
    } else {
      StepEmits(ss, maxChars, overlap, st);
      if st.chunks != [] {
        TailSolid(st.chunks[|st.chunks| - 1], overlap);
        assert Resumes(ss, overlap, st);
      }
      EmitCarried(ss, overlap, st);
    }
  }

  /** Every state of a terminating run with a positive overlap keeps `Carried`. */
  lemma {:induction false} CarriedSoFar(ss: seq<string>, maxChars: nat, overlap: nat, k: nat, end: nat)
    requires 0 < overlap && AllSentences(ss)
    requires k <= end && After(ss, maxChars, overlap, end).next == |ss|
    ensures Carried(ss, overlap, After(ss, maxChars, overlap, k))
  {
    if k > 0 {
      CarriedSoFar(ss, maxChars, overlap, k - 1, end);
      var st := After(ss, maxChars, overlap, k - 1);
      if st.next < |ss| {
        if Doomed(ss, maxChars, overlap, st) {
          DoomedStays(ss, maxChars, overlap, k - 1, end);
          assert false;
        }
        StepCarried(ss, maxChars, overlap, st);
      }
    }
  }

  /** Once every sentence is taken, the flushed chunks overlap as `Carried` promises. */
  lemma FinalCarried(ss: seq<string>, overlap: nat, st: Packer)
    requires 0 < overlap && Carried(ss, overlap, st) && st.next == |ss|
    ensures CarriesOver(Flush(st), overlap)
  {
    if st.chunks == [] {
      assert |Flush(st)| <= 1;
    } else {
      var t := Tail(st.chunks[|st.chunks| - 1], overlap);
      assert IsStripped(st.current) && Strip(t) <= st.current;
      TailSolid(st.chunks[|st.chunks| - 1], overlap);
      StripTail(t);
      assert st.current != "";
      CarriesOverSnoc(st.chunks, st.current, overlap);
      assert Flush(st) == st.chunks + [st.current];
    }
  }

  /**
   * With `overlap_chars > 0`, a terminating run overlaps its chunks as line 91
   * intends: each chunk after the first begins with the last `overlap_chars`
   * characters of the one before, less any leading whitespace.
   */
  lemma PacksCarryOver(ss: seq<string>, maxChars: nat, overlap: nat, cs: seq<string>)
    requires 0 < overlap && AllSentences(ss) && Packs(ss, maxChars, overlap, cs)
    ensures CarriesOver(cs, overlap)
  {
    var k: nat :| After(ss, maxChars, overlap, k).next == |ss| && Flush(After(ss, maxChars, overlap, k)) == cs;
    CarriedSoFar(ss, maxChars, overlap, k, k);
    FinalCarried(ss, overlap, After(ss, maxChars, overlap, k));
  }
}
