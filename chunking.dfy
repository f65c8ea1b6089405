/**
 * The three chunkers: by characters, by tokens (with a tokenizer, or with the
 * whitespace words of `str.split()` when none is available) and by sentences.
 * Each validates its sizes first and raises `ValueError` for a non-positive
 * maximum, then for a negative overlap.
 */
module Chunking {

  import opened Results
  import opened Text
  import opened Windows
  import opened Sentences
  import opened Packing

  /** A loaded tokenizer: text to token ids, token ids back to text. */
  datatype Encoder = Encoder(encode: string -> seq<int>, decode: seq<int> -> string)

  /** The words of every chunk. */
  function WordsOf(cs: seq<string>): seq<seq<string>> {
    seq(|cs|, k requires 0 <= k < |cs| => SplitWords(cs[k]))
  }

  // ---------------------------------------------------------------- by characters

  /**
   * `chunk_text_charwise`: windows of at most `maxChars` characters; each window
   * after the first starts `min(overlapChars, maxChars - 1)` characters before the
   * end of the previous one.
   */
  method ChunkCharwise(text: string, maxChars: int, overlapChars: int) returns (r: Result<seq<string>>)
    ensures maxChars <= 0 ==> r == InvalidArgument("max_chars must be > 0")
    ensures maxChars > 0 && overlapChars < 0 ==> r == InvalidArgument("overlap_chars must be >= 0")
    ensures maxChars > 0 && overlapChars >= 0 ==> r == Ok(Windowed(text, maxChars, overlapChars))
    ensures r.Ok? ==> (r.value == [] <==> text == "")
    ensures r.Ok? ==> forall k :: 0 <= k < |r.value| ==> 0 < |r.value[k]| <= maxChars
    ensures r.Ok? ==> forall k :: 0 <= k < |r.value| - 1 ==> |r.value[k]| == maxChars
    ensures r.Ok? ==> Overlapping(r.value, Shared(maxChars, overlapChars))
    ensures r.Ok? ==> Reassemble(r.value, Shared(maxChars, overlapChars)) == text
  {
    if maxChars <= 0 {
      return InvalidArgument("max_chars must be > 0");
    }
    if overlapChars < 0 {
      return InvalidArgument("overlap_chars must be >= 0");
    }
    var chunks := ChunkByWindows(text, maxChars, overlapChars, (c: string) => c);
    assert chunks == Windowed(text, maxChars, overlapChars);
    WindowedShape(text, maxChars, overlapChars);
    WindowedOverlapping(text, maxChars, overlapChars);
    WindowedReassembles(text, maxChars, overlapChars);
    return Ok(chunks);
  }

  // ---------------------------------------------------------------- by tokens

  /**
   * `chunk_text_tokenwise`. With a tokenizer, the token windows are decoded one by
   * one. Without one, the windows run over the words of `str.split()` and each is
   * joined with single spaces.
   */
  method ChunkTokenwise(text: string, maxTokens: int, overlap: int, encoder: Option<Encoder>)
    returns (r: Result<seq<string>>)
    ensures maxTokens <= 0 ==> r == InvalidArgument("max_tokens must be > 0")
    ensures maxTokens > 0 && overlap < 0 ==> r == InvalidArgument("overlap must be >= 0")
    ensures maxTokens > 0 && overlap >= 0 <==> r.Ok?
    ensures r.Ok? && encoder.Some? ==>
      var ws := Windowed(encoder.value.encode(text), maxTokens, overlap);
      |r.value| == |ws| && forall k :: 0 <= k < |ws| ==> r.value[k] == encoder.value.decode(ws[k])
    ensures r.Ok? && encoder.None? ==>
      var ws := Windowed(SplitWords(text), maxTokens, overlap);
      |r.value| == |ws| && forall k :: 0 <= k < |ws| ==> r.value[k] == JoinWords(ws[k])
    ensures r.Ok? && encoder.None? ==> WordsOf(r.value) == Windowed(SplitWords(text), maxTokens, overlap)
    ensures r.Ok? && encoder.None? ==> Reassemble(WordsOf(r.value), Shared(maxTokens, overlap)) == SplitWords(text)
    ensures r.Ok? && encoder.None? ==>
      forall k :: 0 <= k < |r.value| ==> 0 < |SplitWords(r.value[k])| <= maxTokens
    ensures r.Ok? && encoder.None? ==> (r.value == [] <==> AllSpace(text))
  {
    if maxTokens <= 0 {
      return InvalidArgument("max_tokens must be > 0");
    }
    if overlap < 0 {
      return InvalidArgument("overlap must be >= 0");
    }
    match encoder {
      case Some(e) =>
        var tokens := e.encode(text);
        var chunks := ChunkByWindows(tokens, maxTokens, overlap, e.decode);
        return Ok(chunks);
      case None =>
        var words := SplitWords(text);
        var chunks := ChunkByWindows(words, maxTokens, overlap, JoinWords);
        ghost var ws := Windowed(words, maxTokens, overlap);
        WindowedShape(words, maxTokens, overlap);
        forall k | 0 <= k < |chunks| ensures SplitWords(chunks[k]) == ws[k] {
          WindowedAt(words, maxTokens, overlap, k);
          SplitJoinWords(ws[k]);
        }
        assert WordsOf(chunks) == ws;
        WindowedReassembles(words, maxTokens, overlap);
        SplitWordsEmpty(text);
        return Ok(chunks);
    }
  }

  // ---------------------------------------------------------------- by sentences

  /**
   * `chunk_text_sentencewise`: the sentences are packed into chunks of at most
   * `maxChars` characters; a full chunk is emitted and, with a positive overlap,
   * its last `overlapChars` characters begin the next one. The loop need not end
   * (see `Packing.SecondSentenceHangs`), so the method is specified for the inputs
   * on which it does.
   */
  method ChunkSentencewise(text: string, maxChars: int, overlapChars: int) returns (r: Result<seq<string>>)
    requires maxChars <= 0 || overlapChars < 0 || Halts(SplitSentences(text), maxChars, overlapChars)
    ensures maxChars <= 0 ==> r == InvalidArgument("max_chars must be > 0")
    ensures maxChars > 0 && overlapChars < 0 ==> r == InvalidArgument("overlap_chars must be >= 0")
    ensures maxChars > 0 && overlapChars >= 0 <==> r.Ok?
    ensures r.Ok? ==> Packs(SplitSentences(text), maxChars, overlapChars, r.value)
    ensures r.Ok? ==> forall k :: 0 <= k < |r.value| ==>
      r.value[k] != "" && (|r.value[k]| <= maxChars || r.value[k] in SplitSentences(text))
    ensures r.Ok? ==> (r.value == [] <==> AllSpace(text))
    ensures r.Ok? && overlapChars == 0 ==> JoinWords(r.value) == JoinWords(SplitSentences(text))
    ensures r.Ok? && overlapChars == 0 ==>
      exists cuts :: Groups(SplitSentences(text), |SplitSentences(text)|, r.value, cuts)
    ensures r.Ok? ==> exists pos :: Placed(SplitSentences(text), |SplitSentences(text)|, r.value, pos)
    ensures r.Ok? && overlapChars > 0 ==> CarriesOver(r.value, overlapChars)
  {
    if maxChars <= 0 {
      return InvalidArgument("max_chars must be > 0");
    }
    if overlapChars < 0 {
      return InvalidArgument("overlap_chars must be >= 0");
    }
    var ss := SplitSentences(text);
    var chunks := PackSentences(ss, maxChars, overlapChars);
    SentenceChunks(text, maxChars, overlapChars, chunks);
    return Ok(chunks);
  }

  /**
   * What a terminating packing of the text's sentences yields: non-empty chunks,
   * any chunk over the limit being one sentence; no chunks exactly for blank text;
   * every sentence whole in some chunk, in order; with a positive overlap, each
   * chunk beginning with the stripped tail of the one before; and, with no
   * overlap, every sentence once and in order.
   */
  lemma SentenceChunks(text: string, maxChars: nat, overlapChars: nat, cs: seq<string>)
    requires Packs(SplitSentences(text), maxChars, overlapChars, cs)
    ensures forall k :: 0 <= k < |cs| ==> cs[k] != "" && (|cs[k]| <= maxChars || cs[k] in SplitSentences(text))
    ensures cs == [] <==> AllSpace(text)
    ensures overlapChars == 0 ==> JoinWords(cs) == JoinWords(SplitSentences(text))
    ensures overlapChars == 0 ==> exists cuts :: Groups(SplitSentences(text), |SplitSentences(text)|, cs, cuts)
    ensures exists pos :: Placed(SplitSentences(text), |SplitSentences(text)|, cs, pos)
    ensures overlapChars > 0 ==> CarriesOver(cs, overlapChars)
  {
    var ss := SplitSentences(text);
    PacksGood(ss, maxChars, overlapChars, cs);
    SentencesAreStripped(text);
    assert AllSentences(ss);
    NoSentences(text);
    PacksEmpty(ss, maxChars, overlapChars, cs);
    PacksPlaced(ss, maxChars, overlapChars, cs);
    if overlapChars == 0 {
      PacksKeepSentences(ss, maxChars, cs);
      PacksWholeSentences(ss, maxChars, cs);
    } else {
      PacksCarryOver(ss, maxChars, overlapChars, cs);
    }
  }

  /** The precondition of `ChunkSentencewise` holds without overlap, and whenever every sentence leaves room for it. */
  lemma SentencewiseTerminates(text: string, maxChars: nat, overlapChars: nat)
    requires RoomForOverlap(SplitSentences(text), maxChars, overlapChars)
    ensures Halts(SplitSentences(text), maxChars, overlapChars)
  {
    RoomHalts(SplitSentences(text), maxChars, overlapChars);
  }
}
