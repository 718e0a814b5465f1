/**
 * `MyApp`: the single text buffer and the actions that replace or read it.
 * The clipboard and the file system are seen only through the values they
 * return: `Some(text)` for a successful read, `None` for a failed one.
 */
module Session {
  import opened Spans
  import UrlPipeline
  import RandomCase

  datatype Option<T> = None | Some(value: T)

  /** One entry of the frame's dropped-file list; only its path is used. */
  datatype DroppedFile = DroppedFile(path: Option<string>)

  /**
   * The buffer a drop leaves behind: the contents of the first dropped file
   * when it has a path that reads successfully, otherwise the old buffer.
   */
  function AfterDrop(text: string, dropped: seq<DroppedFile>, read: string -> Option<string>): (r: string)
    ensures dropped == [] ==> r == text
    ensures dropped != [] && dropped[0].path.None? ==> r == text
    ensures dropped != [] && dropped[0].path.Some? ==>
              r == (match read(dropped[0].path.value)
                    case Some(contents) => contents
                    case None => text)
  {
    if dropped != [] && dropped[0].path.Some? && read(dropped[0].path.value).Some?
    then read(dropped[0].path.value).value
    else text
  }

  class App {
    var text: string

    /** The buffer starts out empty. */
    constructor ()
      ensures text == []
    {
      text := [];
    }

    /** Copy hands the whole buffer to the clipboard and leaves it as it is. */
    method Copy() returns (written: string)
      ensures written == text
    {
      written := text;
    }

    /** Paste replaces the buffer with a successful clipboard read, and does nothing otherwise. */
    method Paste(clipboard: Option<string>)
      modifies this
      ensures clipboard.Some? ==> text == clipboard.value
      ensures clipboard.None? ==> text == old(text)
    {
      if clipboard.Some? {
        text := clipboard.value;
      }
    }

    /** The drop handler of `update`: only the first dropped file counts. */
    method DropFiles(dropped: seq<DroppedFile>, read: string -> Option<string>)
      modifies this
      ensures text == AfterDrop(old(text), dropped, read)
    {
      if dropped != [] {
        var path := dropped[0].path;
        if path.Some? {
          var contents := read(path.value);
          if contents.Some? {
            text := contents.value;
          }
        }
      }
    }

    /** Inverts the case of the characters whose coin is true. */
    method Sarcasm(bits: seq<bool>)
      requires |bits| == |text|
      modifies this
      ensures text == RandomCase.Sarcasm(old(text), bits)
    {
      text := RandomCase.Sarcasm(text, bits);
    }

    /**
     * Mangles the buffer outside the URL matches `spans` (what the URL regex
     * finds in the current buffer) and keeps the matches verbatim.
     */
    method Uwuify(spans: seq<Span>, mangle: string -> string)
      requires ValidSpans(spans, |text|)
      modifies this
      ensures text == UrlPipeline.Uwuified(old(text), spans, mangle)
    {
      var result, rounds := UrlPipeline.Transform(text, spans, mangle);
      text := result;
    }
  }
}
