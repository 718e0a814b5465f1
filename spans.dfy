/**
 * The URL regex of `MyApp::uwuify`, seen only through what it reports: an
 * ordered list of match spans over the text. `Regex::split` yields the text
 * between (and around) the matches, `Regex::captures_iter` the matched text.
 */
module Spans {

  /** A half-open range [start, stop) of character offsets: one URL match. */
  datatype Span = Span(start: nat, stop: nat)

  /**
   * What the regex engine guarantees of its matches: each lies inside the
   * text, and they come in increasing order without overlapping.
   */
  ghost predicate ValidSpans(spans: seq<Span>, n: nat) {
    && (forall k :: 0 <= k < |spans| ==> spans[k].start <= spans[k].stop <= n)
    && (forall k, l :: 0 <= k < l < |spans| ==> spans[k].stop <= spans[l].start)
  }

  /** Where plain piece `i` begins: at 0, or where match `i - 1` ends. */
  function PieceStart(spans: seq<Span>, i: nat): (start: nat)
    requires i <= |spans|
  {
    if i == 0 then 0 else spans[i - 1].stop
  }

  /** Where plain piece `i` ends: where match `i` begins, or at the end of the text. */
  function PieceStop(spans: seq<Span>, n: nat, i: nat): (stop: nat)
    requires i <= |spans|
  {
    if i == |spans| then n else spans[i].start
  }

  /**
   * `Regex::split`: the text between consecutive matches. N matches always
   * give N + 1 pieces, any of which may be empty (a match at either end of the
   * text, two adjacent matches, or the empty text).
   */
  function Pieces(text: string, spans: seq<Span>): (ps: seq<string>)
    requires ValidSpans(spans, |text|)
    ensures |ps| == |spans| + 1
    ensures forall i :: 0 <= i <= |spans| ==>
              PieceStart(spans, i) <= PieceStop(spans, |text|, i) <= |text| &&
              ps[i] == text[PieceStart(spans, i)..PieceStop(spans, |text|, i)]
  {
    seq(|spans| + 1, i requires 0 <= i <= |spans| =>
      text[PieceStart(spans, i)..PieceStop(spans, |text|, i)])
  }

  /** `Regex::captures_iter`, whole-match group: the text of every match, in order. */
  function Urls(text: string, spans: seq<Span>): (us: seq<string>)
    requires ValidSpans(spans, |text|)
    ensures |us| == |spans|
    ensures forall k :: 0 <= k < |spans| ==> us[k] == text[spans[k].start..spans[k].stop]
  {
    seq(|spans|, k requires 0 <= k < |spans| => text[spans[k].start..spans[k].stop])
  }

  /**
   * No plain piece shares a character with any match: URL text is never part
   * of what is handed to the mangler.
   */
  lemma PiecesAvoidUrls(text: string, spans: seq<Span>, i: nat, k: nat)
    requires ValidSpans(spans, |text|)
    requires i <= |spans| && k < |spans|
    ensures PieceStop(spans, |text|, i) <= spans[k].start || spans[k].stop <= PieceStart(spans, i)
  {
  }
}
