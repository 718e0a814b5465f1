/**
 * The reassembly step of `MyApp::uwuify`: two peekable cursors, one over the
 * mangled plain pieces and one over the URL matches, each round emitting the
 * next piece (if any) and then the next URL (if any), until both are used up.
 */
module Merge {

  /** The element a peekable cursor yields next, or nothing once it is exhausted. */
  function Head(s: seq<string>): (h: string) {
    if s == [] then [] else s[0]
  }

  /** The cursor after `next()`: an exhausted cursor stays exhausted. */
  function Rest(s: seq<string>): (rest: seq<string>) {
    if s == [] then [] else s[1..]
  }

  /** What the merge loop emits, one round per step of the recursion. */
  function Interleave(texts: seq<string>, urls: seq<string>): (merged: string)
    decreases |texts| + |urls|
  {
    if texts == [] && urls == [] then []
    else Head(texts) + Head(urls) + Interleave(Rest(texts), Rest(urls))
  }

  /**
   * One round of the merge loop, with cursors at `i` and `j`: emit the next
   * piece if any, then the next URL if any, and advance each cursor that
   * was not yet exhausted.
   */
  lemma InterleaveStep(texts: seq<string>, urls: seq<string>, i: nat, j: nat)
    requires i <= |texts| && j <= |urls|
    requires i < |texts| || j < |urls|
    ensures Interleave(texts[i..], urls[j..])
            == (if i < |texts| then texts[i] else []) + (if j < |urls| then urls[j] else [])
               + Interleave(texts[if i < |texts| then i + 1 else i..], urls[if j < |urls| then j + 1 else j..])
  {
    if i < |texts| {
      assert Rest(texts[i..]) == texts[i + 1..];
    }
    if j < |urls| {
      assert Rest(urls[j..]) == urls[j + 1..];
    }
  }

  /** Concatenation of a list of strings. */
  function Flatten(ss: seq<string>): (joined: string) {
    if ss == [] then [] else ss[0] + Flatten(ss[1..])
  }

  /**
   * Reference layout for N + 1 pieces and N URLs:
   * piece 0, URL 0, piece 1, URL 1, ..., piece N.
   */
  function Segments(texts: seq<string>, urls: seq<string>): (segs: seq<string>)
    requires |texts| == |urls| + 1
    ensures |segs| == 2 * |urls| + 1
  {
    seq(2 * |urls| + 1, m requires 0 <= m < 2 * |urls| + 1 =>
      if m % 2 == 0 then texts[m / 2] else urls[m / 2])
  }

  /**
   * With one piece more than URLs, the merge loop's output is exactly the
   * alternation piece 0, URL 0, ..., URL N-1, piece N: the shorter side runs
   * out one round early and nothing is lost or repeated.
   */
  lemma {:induction false} InterleaveAlternates(texts: seq<string>, urls: seq<string>)
    requires |texts| == |urls| + 1
    ensures Interleave(texts, urls) == Flatten(Segments(texts, urls))
    decreases |urls|
  {
    var segs := Segments(texts, urls);
    if urls == [] {
      assert segs == [texts[0]];
      assert Rest(texts) == [];
      calc {
        Interleave(texts, urls);
        texts[0] + [] + Interleave([], []);
        Flatten(segs);
      }
    } else {
      InterleaveAlternates(texts[1..], urls[1..]);
      SegmentsTail(texts, urls);
      assert segs[1..][1..] == segs[2..];
    }
  }

  /** Dropping the first round drops the first piece and the first URL. */
  lemma SegmentsTail(texts: seq<string>, urls: seq<string>)
    requires |texts| == |urls| + 1 && urls != []
    ensures Segments(texts, urls) == [texts[0], urls[0]] + Segments(texts[1..], urls[1..])
  {
    var segs := Segments(texts, urls);
    var tail := Segments(texts[1..], urls[1..]);
    forall m | 0 <= m < |tail|
      ensures segs[m + 2] == tail[m]
    {
      assert (m + 2) % 2 == m % 2 && (m + 2) / 2 == m / 2 + 1;
    }
    assert segs == [texts[0], urls[0]] + tail;
  }

  /**
   * Cutting both sides after the same number of rounds cuts the output at the
   * corresponding point.
   */
  lemma {:induction false} InterleaveSplit(texts: seq<string>, urls: seq<string>, m: nat)
    requires m <= |texts| && m <= |urls|
    ensures Interleave(texts, urls) == Interleave(texts[..m], urls[..m]) + Interleave(texts[m..], urls[m..])
    decreases m
  {
    if m == 0 {
      assert texts[..0] == [] && urls[..0] == [];
      assert texts[0..] == texts && urls[0..] == urls;
    } else {
      var t, u := texts[1..], urls[1..];
      InterleaveSplit(t, u, m - 1);
      InterleaveCons(texts, urls);
      InterleaveCons(texts[..m], urls[..m]);
      ShiftSlices(texts, m);
      ShiftSlices(urls, m);
      AppendAssoc(texts[0], urls[0], Interleave(t[..m - 1], u[..m - 1]), Interleave(t[m - 1..], u[m - 1..]));
    }
  }

  /** A round in which both cursors still have an element. */
  lemma InterleaveCons(texts: seq<string>, urls: seq<string>)
    requires texts != [] && urls != []
    ensures Interleave(texts, urls) == texts[0] + urls[0] + Interleave(texts[1..], urls[1..])
  {
  }

  lemma ShiftSlices<T>(s: seq<T>, m: nat)
    requires 0 < m <= |s|
    ensures s[..m][0] == s[0]
    ensures s[..m][1..] == s[1..][..m - 1]
    ensures s[1..][m - 1..] == s[m..]
  {
  }

  /**
   * Round `k` sits between the first `k` rounds and the remaining ones: its
   * text element, then its URL.
   */
  lemma InterleaveAround(texts: seq<string>, urls: seq<string>, k: nat)
    requires k < |texts| && k < |urls|
    ensures Interleave(texts, urls)
            == Interleave(texts[..k], urls[..k]) + texts[k] + urls[k] + Interleave(texts[k + 1..], urls[k + 1..])
  {
    InterleaveSplit(texts, urls, k);
    InterleaveStep(texts, urls, k, k);
    AppendAssoc(Interleave(texts[..k], urls[..k]), texts[k], urls[k], Interleave(texts[k + 1..], urls[k + 1..]));
  }

  lemma AppendAssoc(a: string, b: string, c: string, d: string)
    ensures a + b + c + d == a + (b + c + d)
    ensures a + b + (c + d) == a + b + c + d
  {
  }

  /**
   * One iteration of the merge loop keeps "emitted so far, followed by the
   * merge of what is left" equal to the merge of everything.
   */
  lemma RoundStep(texts: seq<string>, urls: seq<string>, i: nat, j: nat, i': nat, j': nat,
                  emitted: string, afterPiece: string, result: string)
    requires i <= |texts| && j <= |urls|
    requires i < |texts| || j < |urls|
    requires i' == if i < |texts| then i + 1 else i
    requires j' == if j < |urls| then j + 1 else j
    requires afterPiece == if i < |texts| then emitted + texts[i] else emitted
    requires result == if j < |urls| then afterPiece + urls[j] else afterPiece
    ensures result + Interleave(texts[i'..], urls[j'..]) == emitted + Interleave(texts[i..], urls[j..])
    ensures Rounds(texts[i..], urls[j..]) == 1 + Rounds(texts[i'..], urls[j'..])
  {
    InterleaveStep(texts, urls, i, j);
    var piece: string := if i < |texts| then texts[i] else [];
    var url: string := if j < |urls| then urls[j] else [];
    assert afterPiece == emitted + piece;
    assert result == emitted + piece + url;
    AppendAssoc(emitted, piece, url, Interleave(texts[i'..], urls[j'..]));
  }

  function Max(a: nat, b: nat): (m: nat) {
    if a <= b then b else a
  }

  /** How many rounds the merge takes: one per step of `Interleave`. */
  function Rounds(texts: seq<string>, urls: seq<string>): (n: nat)
    decreases |texts| + |urls|
  {
    if texts == [] && urls == [] then 0 else 1 + Rounds(Rest(texts), Rest(urls))
  }

  /**
   * The merge takes as many rounds as the longer side has elements: each
   * round consumes an element of at least one side, and of both while both
   * last.
   */
  lemma {:induction false} RoundsCount(texts: seq<string>, urls: seq<string>)
    ensures Rounds(texts, urls) == Max(|texts|, |urls|)
    decreases |texts| + |urls|
  {
    if texts != [] || urls != [] {
      RoundsCount(Rest(texts), Rest(urls));
    }
  }

  /**
   * The merge loop itself: `result` accumulates what `push_str` appends.
   * Every iteration advances at least one cursor (the `decreases` clause),
   * the loop stops exactly when both are exhausted, and `rounds` counts its
   * iterations.
   */
  method Reassemble(texts: seq<string>, urls: seq<string>) returns (result: string, ghost rounds: nat)
    ensures result == Interleave(texts, urls)
    ensures rounds == Rounds(texts, urls)
  {
    result := [];
    var i, j := 0, 0;
    rounds := 0;
    assert texts[0..] == texts && urls[0..] == urls;
    while i < |texts| || j < |urls|
      invariant i <= |texts| && j <= |urls|
      invariant result + Interleave(texts[i..], urls[j..]) == Interleave(texts, urls)
      invariant rounds + Rounds(texts[i..], urls[j..]) == Rounds(texts, urls)
      decreases |texts| - i + |urls| - j
    {
      ghost var emitted, i0, j0 := result, i, j;
      if i < |texts| {
        result := result + texts[i];
        i := i + 1;
      }
      ghost var afterPiece := result;
      if j < |urls| {
        result := result + urls[j];
        j := j + 1;
      }
      rounds := rounds + 1;
      RoundStep(texts, urls, i0, j0, i, j, emitted, afterPiece, result);
    }
    assert texts[i..] == [] && urls[j..] == [];
  }
}
