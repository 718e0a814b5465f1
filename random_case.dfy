/**
 * `MyApp::sarcasm`: every character independently either keeps its case or
 * has it inverted, decided by one random bit per character. The random bits
 * are an input here, one per character, in text order.
 */
module RandomCase {

  predicate IsUpper(c: char) {
    'A' <= c <= 'Z'
  }

  predicate IsLower(c: char) {
    'a' <= c <= 'z'
  }

  predicate IsLetter(c: char) {
    IsUpper(c) || IsLower(c)
  }

  /** The lower-case letter for an upper-case one; anything else unchanged. */
  function ToLower(c: char): (lower: char) {
    if IsUpper(c) then (c as int + 32) as char else c
  }

  /** The upper-case letter for a lower-case one; anything else unchanged. */
  function ToUpper(c: char): (upper: char) {
    if IsLower(c) then (c as int - 32) as char else c
  }

  /**
   * The `invert_case` closure: an upper-case character becomes the first
   * character of its lower-case mapping, anything else the first character
   * of its upper-case mapping. Taking only the first character keeps it one
   * character for one.
   */
  function InvertCase(c: char): (r: char)
    ensures IsUpper(c) ==> IsLower(r) && ToUpper(r) == c
    ensures IsLower(c) ==> IsUpper(r) && ToLower(r) == c
    ensures !IsLetter(c) ==> r == c
  {
    if IsUpper(c) then ToLower(c) else ToUpper(c)
  }

  /** Inverting twice gives the character back. */
  lemma InvertCaseInvolutive(c: char)
    ensures InvertCase(InvertCase(c)) == c
  {
  }

  /** Inverting keeps the letter: both agree once folded to lower case. */
  lemma InvertCaseSameLetter(c: char)
    ensures ToLower(InvertCase(c)) == ToLower(c)
  {
  }

  /** The `chars().map(...).collect()` pipeline, with `bits[i]` the coin for character `i`. */
  function Sarcasm(text: string, bits: seq<bool>): (r: string)
    requires |bits| == |text|
    ensures |r| == |text|
    ensures forall i :: 0 <= i < |text| && !bits[i] ==> r[i] == text[i]
    ensures forall i :: 0 <= i < |text| && bits[i] ==> r[i] == InvertCase(text[i])
  {
    seq(|text|, i requires 0 <= i < |text| => if bits[i] then InvertCase(text[i]) else text[i])
  }

  /**
   * The shape of the text survives: same length, every non-letter where it
   * was, every letter the same letter up to case.
   */
  lemma SarcasmKeepsShape(text: string, bits: seq<bool>)
    requires |bits| == |text|
    ensures |Sarcasm(text, bits)| == |text|
    ensures forall i :: 0 <= i < |text| && !IsLetter(text[i]) ==> Sarcasm(text, bits)[i] == text[i]
    ensures forall i :: 0 <= i < |text| ==> ToLower(Sarcasm(text, bits)[i]) == ToLower(text[i])
  {
  }

  /** Replaying the same coins undoes the transform. */
  lemma SarcasmUndo(text: string, bits: seq<bool>)
    requires |bits| == |text|
    ensures Sarcasm(Sarcasm(text, bits), bits) == text
  {
  }

  /** With no coin landing true the text is unchanged. */
  lemma SarcasmNoFlips(text: string, bits: seq<bool>)
    requires |bits| == |text|
    requires forall i :: 0 <= i < |bits| ==> !bits[i]
    ensures Sarcasm(text, bits) == text
  {
  }

  /**
   * Two runs with independent coins: the result has the input's length and
   * its non-letters in the same positions, whatever the coins were.
   */
  lemma SarcasmTwiceKeepsShape(text: string, first: seq<bool>, second: seq<bool>)
    requires |first| == |text| && |second| == |text|
    ensures |Sarcasm(Sarcasm(text, first), second)| == |text|
    ensures forall i :: 0 <= i < |text| ==>
              (IsLetter(Sarcasm(Sarcasm(text, first), second)[i]) <==> IsLetter(text[i]))
    ensures forall i :: 0 <= i < |text| && !IsLetter(text[i]) ==>
              Sarcasm(Sarcasm(text, first), second)[i] == text[i]
  {
  }
}
