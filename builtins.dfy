/** The three Python built-ins the chunker and the context assembler rely on:
    `str.split()` with no argument, `str.join` and list/str slicing `s[lo:hi]`. */
module Builtins {

  /** The characters for which Python's `str.isspace()` holds; `str.split()`
      with no argument splits on runs of these. */
  predicate IsSpace(c: char) {
    || c == ' ' || ('\t' <= c <= '\r')
    || ('\U{001C}' <= c <= '\U{001F}')
    || c == '\U{0085}' || c == '\U{00A0}' || c == '\U{1680}'
    || ('\U{2000}' <= c <= '\U{200A}')
    || c == '\U{2028}' || c == '\U{2029}' || c == '\U{202F}'
    || c == '\U{205F}' || c == '\U{3000}'
  }

  predicate NoSpace(w: string) {
    forall j :: 0 <= j < |w| ==> !IsSpace(w[j])
  }

  /** A word as `str.split()` produces it: non-empty, no whitespace. */
  predicate IsWord(w: string) {
    |w| > 0 && NoSpace(w)
  }

  predicate AllWords(ws: seq<string>) {
    forall k :: 0 <= k < |ws| ==> IsWord(ws[k])
  }

  /** `s` with its leading whitespace removed. */
  function SkipSpaces(s: string): (t: string)
    ensures |t| <= |s|
    ensures t == [] || !IsSpace(t[0])
  {
    if s != [] && IsSpace(s[0]) then SkipSpaces(s[1..]) else s
  }

  /** The longest prefix of `s` that holds no whitespace. */
  function WordPrefix(s: string): (w: string)
    ensures |w| <= |s|
    ensures s != [] && !IsSpace(s[0]) ==> |w| >= 1
  {
    if s != [] && !IsSpace(s[0]) then [s[0]] + WordPrefix(s[1..]) else []
  }

  /** Python's `s.split()`: the maximal whitespace-free runs of `s`, in order. */
  function Split(s: string): seq<string>
    decreases |s|
  {
    var t := SkipSpaces(s);
    if t == [] then []
    else
      var w := WordPrefix(t);
      [w] + Split(t[|w|..])
  }

  /** Python's `sep.join(pieces)`. */
  function Join(sep: string, pieces: seq<string>): string {
    if |pieces| == 0 then ""
    else if |pieces| == 1 then pieces[0]
    else pieces[0] + sep + Join(sep, pieces[1..])
  }

  /** The sum of the lengths of `pieces`. */
  function TotalLength(pieces: seq<string>): nat {
    if pieces == [] then 0 else |pieces[0]| + TotalLength(pieces[1..])
  }

  /** How Python turns a slice bound `x` into a position in a sequence of
      length `n`: negative bounds count from the end, and both ends clamp. */
  function PyIndex(n: nat, x: int): (j: nat)
    ensures j <= n
  {
    if x < 0 then (if n + x < 0 then 0 else n + x)
    else if x > n then n
    else x
  }

  /** Python's `s[lo:hi]` (step 1). */
  function Slice<T>(s: seq<T>, lo: int, hi: int): seq<T> {
    var a, b := PyIndex(|s|, lo), PyIndex(|s|, hi);
    if a < b then s[a..b] else []
  }

  function Min(a: int, b: int): int {
    if a < b then a else b
  }

  function Max(a: int, b: int): int {
    if a < b then b else a
  }

  // ---------------------------------------------------------------------
  // Lemmas about str.split()

  /** SkipSpaces removes exactly a whitespace prefix. */
  lemma {:induction false} SkipSpacesDrops(s: string)
    ensures s[|s| - |SkipSpaces(s)|..] == SkipSpaces(s)
    ensures forall j :: 0 <= j < |s| - |SkipSpaces(s)| ==> IsSpace(s[j])
  {
    if s != [] && IsSpace(s[0]) {
      SkipSpacesDrops(s[1..]);
    }
  }

  /** WordPrefix is a whitespace-free prefix, ended by whitespace or by the
      end of the text. */
  lemma {:induction false} WordPrefixIsWord(s: string)
    ensures WordPrefix(s) <= s
    ensures NoSpace(WordPrefix(s))
    ensures |WordPrefix(s)| == |s| || IsSpace(s[|WordPrefix(s)|])
  {
    if s != [] && !IsSpace(s[0]) {
      WordPrefixIsWord(s[1..]);
    }
  }

  lemma AllWordsCons(w: string, rest: seq<string>)
    requires IsWord(w) && AllWords(rest)
    ensures AllWords([w] + rest)
  {
    forall k | 0 <= k < |rest| + 1
      ensures IsWord(([w] + rest)[k])
    {
      if k > 0 { assert ([w] + rest)[k] == rest[k - 1]; }
    }
  }

  /** Every piece of `s.split()` is a non-empty, whitespace-free word. */
  lemma {:induction false} SplitWords(s: string)
    ensures AllWords(Split(s))
    decreases |s|
  {
    var t := SkipSpaces(s);
    if t != [] {
      var w := WordPrefix(t);
      WordPrefixIsWord(t);
      SplitWords(t[|w|..]);
      AllWordsCons(w, Split(t[|w|..]));
    }
  }

  /** `str.split()` yields nothing exactly for empty or all-whitespace text. */
  lemma SplitEmptyIff(s: string)
    ensures Split(s) == [] <==> forall j :: 0 <= j < |s| ==> IsSpace(s[j])
  {
    var t := SkipSpaces(s);
    SkipSpacesDrops(s);
    if t != [] {
      assert !IsSpace(s[|s| - |t|]);
    }
  }

  lemma SkipSpacesOfWordStart(s: string)
    requires s != [] && !IsSpace(s[0])
    ensures SkipSpaces(s) == s
  {
  }

  lemma {:induction false} WordPrefixOf(w: string, tail: string)
    requires NoSpace(w)
    requires tail == [] || IsSpace(tail[0])
    ensures WordPrefix(w + tail) == w
    decreases |w|
  {
    if w != [] {
      assert (w + tail)[0] == w[0];
      assert (w + tail)[1..] == w[1..] + tail;
      WordPrefixOf(w[1..], tail);
    }
  }

  /** A leading whitespace character does not change the split. */
  lemma SplitSkipsSpace(c: char, s: string)
    requires IsSpace(c)
    ensures Split([c] + s) == Split(s)
  {
    assert ([c] + s)[1..] == s;
  }

  /** A word followed by nothing or by whitespace is split off first. */
  lemma SplitWordThen(w: string, rest: string)
    requires IsWord(w)
    requires rest == [] || IsSpace(rest[0])
    ensures Split(w + rest) == [w] + Split(rest)
  {
    var s := w + rest;
    assert s[0] == w[0];
    SkipSpacesOfWordStart(s);
    WordPrefixOf(w, rest);
    assert s[|w|..] == rest;
  }

  /** Joining words with single spaces and splitting again gives the words
      back: `" ".join(ws).split() == ws`. */
  lemma {:induction false} SplitJoin(ws: seq<string>)
    requires AllWords(ws)
    ensures Split(Join(" ", ws)) == ws
  {
    if |ws| == 1 {
      SplitWordThen(ws[0], []);
      assert ws[0] + [] == ws[0];
    } else if |ws| > 1 {
      AllWordsTail(ws);
      SplitJoin(ws[1..]);
      SplitJoinCons(ws[0], ws[1..]);
      assert ws == [ws[0]] + ws[1..];
    }
  }

  lemma AllWordsTail(ws: seq<string>)
    requires AllWords(ws) && ws != []
    ensures IsWord(ws[0]) && AllWords(ws[1..])
  {
  }

  lemma SplitJoinCons(w: string, ws: seq<string>)
    requires IsWord(w) && ws != []
    requires Split(Join(" ", ws)) == ws
    ensures Split(Join(" ", [w] + ws)) == [w] + ws
  {
    var rest := Join(" ", ws);
    assert ([w] + ws)[1..] == ws;
    assert Join(" ", [w] + ws) == w + ([' '] + rest);
    SplitWordThen(w, [' '] + rest);
    SplitSkipsSpace(' ', rest);
  }

  // ---------------------------------------------------------------------
  // Lemmas about str.join and slicing

  /** The joined string starts with the first piece. */
  lemma JoinStartsWithFirst(sep: string, pieces: seq<string>)
    requires |pieces| > 0
    ensures pieces[0] <= Join(sep, pieces)
  {
  }

  /** The joined length is the pieces' lengths plus one separator between
      each neighbouring pair. */
  lemma {:induction false} JoinLength(sep: string, pieces: seq<string>)
    requires |pieces| > 0
    ensures |Join(sep, pieces)| == TotalLength(pieces) + (|pieces| - 1) * |sep|
  {
    if |pieces| > 1 {
      JoinLength(sep, pieces[1..]);
    }
  }

  /** For a start inside the sequence, `s[lo:hi]` is `s[lo..min(hi, |s|)]`;
      a stop at or before the start gives the empty slice. */
  lemma SliceFrom<T>(s: seq<T>, lo: int, hi: int)
    requires 0 <= lo <= |s|
    ensures lo <= hi ==> Slice(s, lo, hi) == s[lo..Min(hi, |s|)]
    ensures 0 <= hi <= lo ==> Slice(s, lo, hi) == []
  {
  }

  /** A prefix slice `s[:m]` keeps `min(m, |s|)` elements for `m >= 0` and
      drops the last `-m` elements for `m < 0`. */
  lemma SlicePrefix<T>(s: seq<T>, m: int)
    ensures Slice(s, 0, m) <= s
    ensures m >= 0 ==> |Slice(s, 0, m)| == Min(m, |s|)
    ensures m < 0 ==> |Slice(s, 0, m)| == Max(0, |s| + m)
  {
  }

  /** Every slice of a word sequence is again a word sequence. */
  lemma SliceOfWords(ws: seq<string>, lo: int, hi: int)
    requires AllWords(ws)
    ensures AllWords(Slice(ws, lo, hi))
  {
  }
}
