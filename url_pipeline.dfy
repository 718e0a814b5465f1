/**
 * `MyApp::uwuify`: split the buffer around URL matches, mangle every plain
 * piece, and merge mangled pieces and verbatim URLs back in order.
 *
 * The mangler (`uwuify_sse` with its scratch buffers) is a parameter: any
 * total function from strings to strings.
 */
module UrlPipeline {
  import opened Spans
  import opened Merge

  /** The plain pieces after mangling, one call of the mangler per piece. */
  function Mangled(pieces: seq<string>, mangle: string -> string): (ms: seq<string>)
    ensures |ms| == |pieces|
    ensures forall i :: 0 <= i < |pieces| ==> ms[i] == mangle(pieces[i])
  {
    seq(|pieces|, i requires 0 <= i < |pieces| => mangle(pieces[i]))
  }

  /** The text `uwuify` leaves in the buffer. */
  function Uwuified(text: string, spans: seq<Span>, mangle: string -> string): (out: string)
    requires ValidSpans(spans, |text|)
  {
    Interleave(Mangled(Pieces(text, spans), mangle), Urls(text, spans))
  }

  /**
   * The split, map and merge steps. `rounds` counts the iterations of the
   * merge loop: one more than the number of URLs, since the pieces outnumber
   * the URLs by one and the loop runs until both cursors are exhausted.
   */
  method Transform(text: string, spans: seq<Span>, mangle: string -> string)
    returns (result: string, ghost rounds: nat)
    requires ValidSpans(spans, |text|)
    ensures result == Uwuified(text, spans, mangle)
    ensures rounds == |spans| + 1
  {
    var nonUrlText := Pieces(text, spans);
    var matches := Urls(text, spans);
    var pieces := Mangled(nonUrlText, mangle);
    result, rounds := Reassemble(pieces, matches);
    RoundsCount(pieces, matches);
  }

  /** Without URL matches the whole text is mangled as one piece. */
  lemma NoUrls(text: string, mangle: string -> string)
    ensures Uwuified(text, [], mangle) == mangle(text)
  {
    var pieces := Mangled(Pieces(text, []), mangle);
    assert text[0..|text|] == text;
    assert pieces == [mangle(text)];
    InterleaveStep(pieces, [], 0, 0);
    assert pieces[1..] == [];
  }

  /**
   * The empty buffer is still split into one (empty) piece, so it comes back
   * as whatever the mangler makes of the empty string: empty exactly when
   * the mangler maps empty to empty.
   */
  lemma EmptyInput(mangle: string -> string)
    ensures Uwuified([], [], mangle) == mangle([])
    ensures Uwuified([], [], mangle) == [] <==> mangle([]) == []
  {
    NoUrls([], mangle);
  }

  /**
   * A buffer that is one URL from end to end keeps that URL, between the
   * mangler's images of the two empty pieces around it; with a mangler that
   * maps empty to empty it is unchanged.
   */
  lemma WholeUrl(text: string, mangle: string -> string)
    ensures ValidSpans([Span(0, |text|)], |text|)
    ensures Uwuified(text, [Span(0, |text|)], mangle) == mangle([]) + text + mangle([])
    ensures mangle([]) == [] ==> Uwuified(text, [Span(0, |text|)], mangle) == text
  {
    var spans := [Span(0, |text|)];
    var pieces := Mangled(Pieces(text, spans), mangle);
    var urls := Urls(text, spans);
    assert text[0..|text|] == text;
    assert pieces == [mangle([]), mangle([])];
    assert urls == [text];
    InterleaveAlternates(pieces, urls);
    var segs := Segments(pieces, urls);
    assert segs == [mangle([]), text, mangle([])];
    calc {
      Flatten(segs);
      mangle([]) + Flatten([text, mangle([])]);
      mangle([]) + (text + Flatten([mangle([])]));
      { assert Flatten([mangle([])]) == mangle([]) + Flatten([]); }
      mangle([]) + text + mangle([]);
    }
  }

  lemma SlicesJoin(text: string, a: nat, b: nat, c: nat)
    requires a <= b <= c <= |text|
    ensures text[a..b] + text[b..c] + text[c..] == text[a..]
  {
  }

  /**
   * The pieces and the matches, taken alternately from piece `k` on, cover
   * the text from where piece `k` starts to its end, without gaps or overlaps.
   */
  lemma {:induction false} ReassemblyFrom(text: string, spans: seq<Span>, k: nat)
    requires ValidSpans(spans, |text|)
    requires k <= |spans|
    ensures Interleave(Pieces(text, spans)[k..], Urls(text, spans)[k..]) == text[PieceStart(spans, k)..]
    decreases |spans| - k
  {
    var pieces, urls := Pieces(text, spans), Urls(text, spans);
    var a := PieceStart(spans, k);
    if k == |spans| {
      assert Interleave(pieces[k..], urls[k..]) == pieces[k] by {
        InterleaveStep(pieces, urls, k, k);
        assert pieces[k + 1..] == [] && urls[k..] == [];
      }
      assert pieces[k] == text[a..];
    } else {
      var b, c := spans[k].start, spans[k].stop;
      assert Interleave(pieces[k..], urls[k..]) == pieces[k] + urls[k] + Interleave(pieces[k + 1..], urls[k + 1..]) by {
        InterleaveStep(pieces, urls, k, k);
      }
      assert Interleave(pieces[k + 1..], urls[k + 1..]) == text[c..] by {
        ReassemblyFrom(text, spans, k + 1);
      }
      assert pieces[k] == text[a..b] && urls[k] == text[b..c];
      SlicesJoin(text, a, b, c);
    }
  }

  /**
   * The plain pieces and the URL matches, interleaved in order, give back the
   * original text exactly.
   */
  lemma Reassembly(text: string, spans: seq<Span>)
    requires ValidSpans(spans, |text|)
    ensures Interleave(Pieces(text, spans), Urls(text, spans)) == text
  {
    ReassemblyFrom(text, spans, 0);
    assert Pieces(text, spans)[0..] == Pieces(text, spans);
    assert Urls(text, spans)[0..] == Urls(text, spans);
  }

  /** With a mangler that changes nothing, `uwuify` changes nothing. */
  lemma IdentityMangle(text: string, spans: seq<Span>, mangle: string -> string)
    requires ValidSpans(spans, |text|)
    requires forall s :: mangle(s) == s
    ensures Uwuified(text, spans, mangle) == text
  {
    assert Mangled(Pieces(text, spans), mangle) == Pieces(text, spans);
    Reassembly(text, spans);
  }

  /**
   * With N matches the output is mangle(piece 0), URL 0, mangle(piece 1),
   * URL 1, ..., mangle(piece N), concatenated.
   */
  lemma Alternation(text: string, spans: seq<Span>, mangle: string -> string)
    requires ValidSpans(spans, |text|)
    ensures Uwuified(text, spans, mangle)
            == Flatten(Segments(Mangled(Pieces(text, spans), mangle), Urls(text, spans)))
  {
    InterleaveAlternates(Mangled(Pieces(text, spans), mangle), Urls(text, spans));
  }

  /**
   * Match `k` reappears verbatim, right after the mangled piece before it:
   * everything from earlier pieces and matches comes before it, everything
   * from later ones after it.
   */
  lemma UrlVerbatim(text: string, spans: seq<Span>, mangle: string -> string, k: nat)
    requires ValidSpans(spans, |text|)
    requires k < |spans|
    ensures var pieces, urls := Mangled(Pieces(text, spans), mangle), Urls(text, spans);
            Uwuified(text, spans, mangle)
            == Interleave(pieces[..k], urls[..k])
               + mangle(text[PieceStart(spans, k)..spans[k].start])
               + text[spans[k].start..spans[k].stop]
               + Interleave(pieces[k + 1..], urls[k + 1..])
  {
    var pieces, urls := Mangled(Pieces(text, spans), mangle), Urls(text, spans);
    InterleaveAround(pieces, urls, k);
  }

  /**
   * Two URLs separated only by a run `gap` (whitespace, say): the empty
   * pieces at both ends and the gap are mangled on their own, and both URLs
   * come back unchanged and in order.
   */
  lemma AdjacentUrls(first: string, gap: string, second: string, mangle: string -> string)
    ensures ValidSpans([Span(0, |first|), Span(|first| + |gap|, |first + gap + second|)], |first + gap + second|)
    ensures Uwuified(first + gap + second, [Span(0, |first|), Span(|first| + |gap|, |first + gap + second|)], mangle)
            == mangle([]) + first + mangle(gap) + second + mangle([])
  {
    var text := first + gap + second;
    var spans := [Span(0, |first|), Span(|first| + |gap|, |text|)];
    var m0, m1 := mangle([]), mangle(gap);
    assert Mangled(Pieces(text, spans), mangle) == [m0, m1, m0] by {
      assert text[0..0] == [] && text[|first|..|first| + |gap|] == gap && text[|text|..|text|] == [];
    }
    assert Urls(text, spans) == [first, second] by {
      assert text[0..|first|] == first && text[|first| + |gap|..|text|] == second;
    }
    assert Interleave([m0, m1, m0], [first, second]) == m0 + first + m1 + second + m0 by {
      assert Rest([m0, m1, m0]) == [m1, m0] && Rest([first, second]) == [second];
      assert Rest([m1, m0]) == [m0] && Rest([second]) == [];
      assert Interleave([m0], []) == m0 + [] + Interleave([], []);
    }
  }
}
