/**
 * The whitespace notions shared by the chunkers: one character class for
 * `\s` in the sentence pattern, `str.strip()` and `str.split()`, and the
 * string operations built on it.
 */
module Text {

  /** Python's `str.isspace()` for one character; `re`'s `\s` uses the same class. */
  predicate IsSpace(c: char): (b: bool)
    ensures c == ' ' || c == '\t' || c == '\n' || c == '\r' ==> b
    ensures b ==> c != '.' && c != '!' && c != '?'
  {
    c == ' ' || ('\t' <= c <= '\r') || ('\U{001C}' <= c <= '\U{001F}')
    || c == '\U{0085}' || c == '\U{00A0}' || c == '\U{1680}'
    || ('\U{2000}' <= c <= '\U{200A}') || c == '\U{2028}' || c == '\U{2029}'
    || c == '\U{202F}' || c == '\U{205F}' || c == '\U{3000}'
  }

  predicate AllSpace(s: string) {
    forall i :: 0 <= i < |s| ==> IsSpace(s[i])
  }

  /** A word of `str.split()`: non-empty, no whitespace. */
  predicate IsWord(w: string) {
    w != [] && forall i :: 0 <= i < |w| ==> !IsSpace(w[i])
  }

  /** What `str.strip()` leaves: no leading and no trailing whitespace. */
  predicate IsStripped(s: string) {
    s == [] || (!IsSpace(s[0]) && !IsSpace(s[|s| - 1]))
  }

  /** The non-whitespace characters of `s`, in order. */
  function NonSpace(s: string): (r: string)
    ensures forall i :: 0 <= i < |r| ==> !IsSpace(r[i])
  {
    if s == [] then [] else (if IsSpace(s[0]) then [] else [s[0]]) + NonSpace(s[1..])
  }

  /** All strings of `ws`, one after another. */
  function Concat(ws: seq<string>): string {
    if ws == [] then [] else ws[0] + Concat(ws[1..])
  }

  lemma {:induction false} NonSpaceAppend(a: string, b: string)
    ensures NonSpace(a + b) == NonSpace(a) + NonSpace(b)
  {
    if a == [] {
      assert a + b == b;
    } else {
      assert (a + b)[1..] == a[1..] + b;
      NonSpaceAppend(a[1..], b);
    }
  }

  lemma {:induction false} NonSpaceEmpty(s: string)
    ensures NonSpace(s) == [] <==> AllSpace(s)
  {
    if s != [] {
      NonSpaceEmpty(s[1..]);
      assert AllSpace(s) <==> IsSpace(s[0]) && AllSpace(s[1..]) by {
        if IsSpace(s[0]) && AllSpace(s[1..]) {
          forall i | 0 <= i < |s| ensures IsSpace(s[i]) {
            if i > 0 { assert s[i] == s[1..][i - 1]; }
          }
        }
      }
    }
  }

  lemma NonSpaceSplit(s: string, i: nat)
    requires i <= |s|
    ensures NonSpace(s) == NonSpace(s[..i]) + NonSpace(s[i..])
  {
    assert s == s[..i] + s[i..];
    NonSpaceAppend(s[..i], s[i..]);
  }

  /** Removing a run of whitespace does not change the non-whitespace characters. */
  lemma SpaceRunKeepsText(s: string, i: nat, j: nat)
    requires i <= j <= |s| && AllSpace(s[i..j])
    ensures NonSpace(s) == NonSpace(s[..i]) + NonSpace(s[j..])
  {
    var rest := s[i..];
    assert rest[..j - i] == s[i..j] && rest[j - i..] == s[j..];
    NonSpaceEmpty(s[i..j]);
    NonSpaceSplit(s, i);
    NonSpaceSplit(rest, j - i);
    assert NonSpace(rest) == NonSpace(s[j..]);
  }

  lemma {:induction false} ConcatAppend(xs: seq<string>, ys: seq<string>)
    ensures Concat(xs + ys) == Concat(xs) + Concat(ys)
  {
    if xs == [] {
      assert xs + ys == ys;
    } else {
      assert (xs + ys)[1..] == xs[1..] + ys;
      ConcatAppend(xs[1..], ys);
    }
  }

  // ---------------------------------------------------------------- strip()

  /** `str.strip()`: drops the leading and the trailing whitespace runs. */
  function Strip(s: string): (t: string)
    ensures |t| <= |s|
    decreases |s|
  {
    if s != [] && IsSpace(s[0]) then Strip(s[1..])
    else if s != [] && IsSpace(s[|s| - 1]) then Strip(s[..|s| - 1])
    else s
  }

  /** `strip()` leaves no whitespace at either end. */
  lemma {:induction false} StripIsStripped(s: string)
    ensures IsStripped(Strip(s))
    decreases |s|
  {
    if s != [] && IsSpace(s[0]) {
      StripIsStripped(s[1..]);
    } else if s != [] && IsSpace(s[|s| - 1]) {
      StripIsStripped(s[..|s| - 1]);
    }
  }

  /** Stripping removes whitespace only: every other character survives, in order. */
  lemma {:induction false} StripKeepsText(s: string)
    ensures NonSpace(Strip(s)) == NonSpace(s)
    decreases |s|
  {
    if s != [] && IsSpace(s[0]) {
      StripKeepsText(s[1..]);
    } else if s != [] && IsSpace(s[|s| - 1]) {
      var init := s[..|s| - 1];
      StripKeepsText(init);
      assert s == init + [s[|s| - 1]];
      NonSpaceAppend(init, [s[|s| - 1]]);
    }
  }

  /** `s.strip()` is empty exactly when `s` is all whitespace. */
  lemma StripEmpty(s: string)
    ensures Strip(s) == [] <==> AllSpace(s)
  {
    StripKeepsText(s);
    NonSpaceEmpty(s);
    NonSpaceEmpty(Strip(s));
  }

  /** `s` is non-empty and ends with a non-whitespace character. */
  predicate EndsSolid(s: string) {
    s != [] && !IsSpace(s[|s| - 1])
  }

  /** `w` appears in `c` as a contiguous piece. */
  predicate Occurs(w: string, c: string) {
    exists a :: 0 <= a <= |c| && w <= c[a..]
  }

  /** With no whitespace at the back, `strip()` drops a leading whitespace run only. */
  lemma {:induction false} StripFront(s: string) returns (a: nat)
    requires EndsSolid(s)
    ensures a < |s| && Strip(s) == s[a..]
    ensures forall i :: 0 <= i < a ==> IsSpace(s[i])
    decreases |s|
  {
    if IsSpace(s[0]) {
      assert s[1..][|s| - 2] == s[|s| - 1];
      var b := StripFront(s[1..]);
      a := b + 1;
      assert s[1..][b..] == s[a..];
      forall i | 0 <= i < a ensures IsSpace(s[i]) {
        if i > 0 {
          assert s[i] == s[1..][i - 1];
        }
      }
    } else {
      a := 0;
    }
  }

  /** Text ending in non-whitespace, appended to text that does too, is kept whole by `strip()`. */
  lemma {:induction false} StripAppend(c: string, y: string)
    requires EndsSolid(c) && EndsSolid(y)
    ensures Strip(c + y) == Strip(c) + y
    decreases |c|
  {
    assert (c + y)[|c + y| - 1] == y[|y| - 1];
    if IsSpace(c[0]) {
      assert c[1..][|c| - 2] == c[|c| - 1];
      assert (c + y)[1..] == c[1..] + y;
      StripAppend(c[1..], y);
    }
  }

  /** A piece that starts with non-whitespace survives `strip()`. */
  lemma OccursStrip(w: string, c: string)
    requires w != [] && !IsSpace(w[0]) && Occurs(w, c) && EndsSolid(c)
    ensures Occurs(w, Strip(c))
  {
    var p :| 0 <= p <= |c| && w <= c[p..];
    var a := StripFront(c);
    assert c[p] == w[0];
    assert a <= p;
    assert Strip(c)[p - a..] == c[p..];
  }

  /** A piece of `c` is a piece of anything that starts with `c`. */
  lemma OccursPrefix(w: string, c: string, y: string)
    requires Occurs(w, c)
    ensures Occurs(w, c + y)
  {
    var p :| 0 <= p <= |c| && w <= c[p..];
    assert (c + y)[p..] == c[p..] + y;
  }

  /** A stripped string is left alone by `strip()`. */
  lemma StripStripped(s: string)
    requires IsStripped(s)
    ensures Strip(s) == s
  {
  }

  /** `strip()` never removes a final non-whitespace character. */
  lemma {:induction false} StripKeepsLast(s: string)
    requires s != [] && !IsSpace(s[|s| - 1])
    ensures Strip(s) != [] && Strip(s)[|Strip(s)| - 1] == s[|s| - 1]
    decreases |s|
  {
    if IsSpace(s[0]) {
      assert s[1..][|s| - 2] == s[|s| - 1];
      StripKeepsLast(s[1..]);
    }
  }

  /** `strip()` returns a contiguous piece of its argument. */
  lemma {:induction false} StripIsSlice(s: string) returns (a: nat)
    ensures a + |Strip(s)| <= |s| && Strip(s) == s[a..a + |Strip(s)|]
    decreases |s|
  {
    if s != [] && IsSpace(s[0]) {
      var b := StripIsSlice(s[1..]);
      a := b + 1;
      assert s[1..][b..b + |Strip(s)|] == s[a..a + |Strip(s)|];
    } else if s != [] && IsSpace(s[|s| - 1]) {
      a := StripIsSlice(s[..|s| - 1]);
      assert s[..|s| - 1][a..a + |Strip(s)|] == s[a..a + |Strip(s)|];
    } else {
      a := 0;
    }
  }

  // ---------------------------------------------------------------- split() and join()

  /** The number of leading non-whitespace characters. */
  function WordLength(s: string): (n: nat)
    ensures n <= |s| && (n == |s| || IsSpace(s[n]))
    ensures forall i :: 0 <= i < n ==> !IsSpace(s[i])
  {
    if s == [] || IsSpace(s[0]) then 0 else 1 + WordLength(s[1..])
  }

  /** `str.split()` with no separator: the maximal runs of non-whitespace, in order. */
  function SplitWords(s: string): (ws: seq<string>)
    ensures forall k :: 0 <= k < |ws| ==> IsWord(ws[k])
    decreases |s|
  {
    if s == [] then []
    else if IsSpace(s[0]) then SplitWords(s[1..])
    else
      var n := WordLength(s);
      [s[..n]] + SplitWords(s[n..])
  }

  /** `" ".join(ws)`. */
  function JoinWords(ws: seq<string>): (r: string)
    ensures ws != [] ==> ws[0] <= r
  {
    if ws == [] then "" else if |ws| == 1 then ws[0]
    else
      var rest := JoinWords(ws[1..]);
      assert (ws[0] + " " + rest)[..|ws[0]|] == ws[0];
      ws[0] + " " + rest
  }

  /** Splitting drops exactly the whitespace: the words hold every other character, in order. */
  lemma {:induction false} SplitWordsKeepsText(s: string)
    ensures Concat(SplitWords(s)) == NonSpace(s)
    decreases |s|
  {
    if s == [] {
    } else if IsSpace(s[0]) {
      SplitWordsKeepsText(s[1..]);
    } else {
      var n := WordLength(s);
      SplitWordsKeepsText(s[n..]);
      assert s == s[..n] + s[n..];
      NonSpaceAppend(s[..n], s[n..]);
      NonSpaceWord(s[..n]);
    }
  }

  lemma {:induction false} NonSpaceWord(w: string)
    requires forall i :: 0 <= i < |w| ==> !IsSpace(w[i])
    ensures NonSpace(w) == w
  {
    if w != [] {
      NonSpaceWord(w[1..]);
    }
  }

  /** `text.split()` is empty exactly for empty or whitespace-only text. */
  lemma SplitWordsEmpty(s: string)
    ensures SplitWords(s) == [] <==> AllSpace(s)
  {
    var ws := SplitWords(s);
    SplitWordsKeepsText(s);
    NonSpaceEmpty(s);
    if ws != [] {
      assert Concat(ws) == ws[0] + Concat(ws[1..]);
      assert Concat(ws)[0] == ws[0][0];
    }
  }

  /** Joining with single spaces appends one word at a time. */
  lemma {:induction false} JoinWordsSnoc(xs: seq<string>, x: string)
    requires xs != []
    ensures JoinWords(xs + [x]) == JoinWords(xs) + " " + x
  {
    if |xs| == 1 {
      assert (xs + [x])[1..] == [x];
    } else {
      assert (xs + [x])[1..] == xs[1..] + [x];
      JoinWordsSnoc(xs[1..], x);
    }
  }

  /** The single-space join of non-empty strings is empty only for no strings. */
  lemma JoinWordsEmpty(ws: seq<string>)
    requires forall k :: 0 <= k < |ws| ==> ws[k] != ""
    ensures JoinWords(ws) == "" <==> ws == []
  {
  }

  /** Round trip: splitting the single-space join of words gives the words back. */
  lemma {:induction false} SplitJoinWords(ws: seq<string>)
    requires forall k :: 0 <= k < |ws| ==> IsWord(ws[k])
    ensures SplitWords(JoinWords(ws)) == ws
  {
    if ws == [] {
    } else if |ws| == 1 {
      var w := ws[0];
      assert w[..|w|] == w;
    } else {
      var w := ws[0];
      var rest := JoinWords(ws[1..]);
      var s := w + " " + rest;
      assert s[|w|] == ' ';
      assert forall i :: 0 <= i < |w| ==> s[i] == w[i];
      assert WordLength(s) == |w|;
      assert s[..|w|] == w;
      assert s[|w|..] == " " + rest;
      assert (" " + rest)[1..] == rest;
      SplitJoinWords(ws[1..]);
    }
  }
}
