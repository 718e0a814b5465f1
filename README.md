# gui_uwuifier: the text transforms and the text buffer, in Dafny

gui_uwuifier is a small desktop tool that holds one editable text buffer
(`MyApp.text`). You can paste into it, drop a file into it, copy it out, and
transform it in two ways: "uwuify" and "sarcasm". This project models the
parts of `src/main.rs` that decide what ends up in the buffer.

- **The URL-preserving uwuify pipeline** (`MyApp::uwuify`). A URL regex splits
  the buffer into N + 1 plain pieces around its N matches. Every plain piece
  goes through the mangler (`uwuify_sse`). A loop over two peekable cursors
  then rebuilds the text: piece, URL, piece, URL, ..., until both cursors are
  exhausted.
  - The regex becomes an input: its matches as a list of spans
    (`Spans.Span`), ordered and non-overlapping (`Spans.ValidSpans`).
  - The mangler becomes a parameter `mangle: string -> string`, so every
    result holds for any mangler.
  - `Merge.Interleave` states what the merge loop emits. `Merge.Reassemble`
    is the loop itself, proved equal to it. `UrlPipeline.Uwuified` is the whole
    transform.
- **The sarcasm transform** (`MyApp::sarcasm`). Each character keeps its case
  or has it inverted by `invert_case`, depending on a random bit. The bits are
  an input, one per character (`RandomCase.Sarcasm`).
- **The buffer updates** (`Session.App`). `paste` and the file-drop handler
  replace the buffer only when their read succeeds. `copy` reads the buffer
  without changing it. The clipboard and file-system reads are inputs of type
  `Option<string>`.

Modules: `Spans` (regex spans, split pieces, URL texts), `Merge` (the merge
loop and its specification), `UrlPipeline` (uwuify as a whole), `RandomCase`
(sarcasm), `Session` (the application object and its buffer).

For the empty buffer `Regex::split` still yields one empty piece, and that
piece goes through the mangler. So the output is the mangler's image of the
empty string: empty exactly when the mangler maps empty to empty
(`UrlPipeline.EmptyInput`). A buffer that is one URL from end to end comes back
as the mangler's image of the empty string, then the URL, then that image again
(`UrlPipeline.WholeUrl`).

## Model

| member | source | states |
|---|---|---|
| Spans.Pieces | src/main.rs:86 | `Regex::split` gives exactly one more piece than there are matches, for every text, including the empty one |
| Spans.Urls | src/main.rs:87 | `captures_iter` gives one whole-match text per match, in match order |
| Spans.PiecesAvoidUrls | src/main.rs:86-97 | no plain piece overlaps any match, so URL text is never handed to the mangler |
| Merge.InterleaveStep | src/main.rs:100-107 | one loop round emits the next piece if there is one, then the next URL if there is one, and advances only the cursors that were not exhausted |
| Merge.Reassemble | src/main.rs:99-107 | the merge loop terminates, because every round advances at least one cursor; its output equals `Interleave` of the pieces and URLs; its ghost round counter equals `Rounds` |
| Merge.RoundsCount | src/main.rs:100-107 | the loop runs as many rounds as the longer side has elements, which is N + 1 for N + 1 pieces and N URLs |
| Merge.InterleaveAlternates | src/main.rs:100-107 | with one more piece than URLs, the merge output is exactly piece 0, URL 0, piece 1, ..., URL N-1, piece N, concatenated; nothing is dropped or repeated when the URL side runs out one round early |
| Merge.InterleaveSplit | src/main.rs:100-107 | cutting both inputs after the same number of rounds cuts the output at the matching point |
| Merge.InterleaveAround | src/main.rs:100-107 | the output of round `k` (piece `k`, then URL `k`) sits between the output of the earlier rounds and that of the later ones |
| UrlPipeline.Mangled | src/main.rs:91-97 | one mangler call per plain piece, in piece order, with as many mangled pieces as plain ones |
| UrlPipeline.Transform | src/main.rs:83-107 | split, mangle and merge produce `Uwuified` of the text, in exactly one more merge round than there are URL matches |
| UrlPipeline.NoUrls | src/main.rs:86-103 | with no URL matches, the output is the mangler applied once to the whole text |
| UrlPipeline.EmptyInput | src/main.rs:86-107 | the empty buffer becomes the mangler's image of the empty string; it stays empty exactly when the mangler maps empty to empty |
| UrlPipeline.WholeUrl | src/main.rs:86-107 | a buffer that is one URL keeps that URL between the images of two empty pieces; with a mangler that maps empty to empty it is unchanged |
| UrlPipeline.ReassemblyFrom | src/main.rs:86-107 | from piece `k` on, pieces and matches taken alternately cover the text from the start of piece `k` to its end, with no gaps or overlaps |
| UrlPipeline.Reassembly | src/main.rs:86-107 | the pieces and matches, interleaved in order, give back the original text exactly |
| UrlPipeline.IdentityMangle | src/main.rs:86-107 | with a mangler that changes nothing, uwuify changes nothing |
| UrlPipeline.Alternation | src/main.rs:86-107 | with N matches, the output is mangle(piece 0), URL 0, mangle(piece 1), ..., URL N-1, mangle(piece N), concatenated |
| UrlPipeline.UrlVerbatim | src/main.rs:91-106 | URL `k` appears in the output verbatim, right after the mangled piece before it; the output of earlier pieces and URLs comes before it, and that of later ones after it |
| UrlPipeline.AdjacentUrls | src/main.rs:86-107 | two URLs separated only by a gap come back unchanged and in order; the gap and the empty pieces at both ends are each mangled on their own |
| RandomCase.InvertCase | src/main.rs:61-67 | an upper-case letter becomes its lower-case letter, a lower-case letter its upper-case letter, and any other character stays as it is; the result is always one character |
| RandomCase.InvertCaseInvolutive | src/main.rs:61-67 | inverting the case twice gives the character back |
| RandomCase.InvertCaseSameLetter | src/main.rs:61-67 | inverting the case keeps the letter: the two agree once folded to lower case |
| RandomCase.Sarcasm | src/main.rs:68-78 | one character out per character in; a character whose bit is false is unchanged, and one whose bit is true is case-inverted |
| RandomCase.SarcasmKeepsShape | src/main.rs:60-80 | sarcasm keeps the length, keeps every non-letter in place, and keeps every letter up to case |
| RandomCase.SarcasmUndo | src/main.rs:68-78 | running sarcasm again with the same bits restores the original text |
| RandomCase.SarcasmNoFlips | src/main.rs:71-77 | when no bit is true, the text is unchanged |
| RandomCase.SarcasmTwiceKeepsShape | src/main.rs:60-80 | two runs with any two bit sequences keep the length, the letter positions and every non-letter |
| Session.AfterDrop | src/main.rs:154-168 | a drop takes the contents of the first dropped file when it has a path and the read succeeds; with no file, no path or a failed read the buffer is kept |
| Session.App.constructor | src/main.rs:42-45 | the buffer starts empty |
| Session.App.Copy | src/main.rs:48-52 | copy writes the whole buffer to the clipboard and does not change it |
| Session.App.Paste | src/main.rs:54-57 | a successful clipboard read replaces the whole buffer; a failed one leaves it unchanged |
| Session.App.DropFiles | src/main.rs:154-168 | the buffer afterwards is `AfterDrop` of the old buffer |
| Session.App.Sarcasm | src/main.rs:68-79 | the buffer becomes `Sarcasm` of the old buffer under the given bits |
| Session.App.Uwuify | src/main.rs:82-108 | the buffer becomes `Uwuified` of the old buffer, for the matches of the URL regex in it |

## Left out

- The GUI is not modelled: `main`, the styling in `MyApp::new` and `eframe::App::update` with its panels and buttons. Only the drop handler inside `update` is modelled (`Session.App.DropFiles`).
- Clipboard access (`arboard`) and `std::fs::read_to_string` are operating-system I/O. Only their outcome is modelled, as an `Option<string>` input or a `read` function parameter.
- Session.App.Copy: the `expect` on a failed clipboard write aborts the process. The model does not capture this; it only returns the text that is written.
- The abort when no clipboard provider is available at startup is not modelled.
- The URL regex and its pattern are not modelled. Its matches are an input, constrained by `ValidSpans`: inside the text, ordered, non-overlapping. `split` and `captures_iter` each run the regex separately; the model assumes both see the same matches.
- `uwuify_sse`, `round_up16`, the scratch buffers `temp1`/`temp2` and `String::from_utf8_lossy` are not modelled. Together they form the mangler, which is a parameter of any total string function.
- The source mangles each piece lazily, when the merge loop pulls it. The model maps all pieces first. The mangler is pure, so the results are the same.
- Spans are character offsets, not UTF-8 byte offsets. The model works on characters, so byte boundaries are not modelled.
- RandomCase.InvertCase: models the case mapping for ASCII letters only. Non-ASCII characters are left unchanged, whereas the source uses the first character of the full Unicode mapping (for example `ß` becomes `S`). Three consequences follow.
  - `RandomCase.InvertCaseInvolutive`, `RandomCase.InvertCaseSameLetter` and `RandomCase.SarcasmUndo` hold for this ASCII model only. The source's `invert_case` is not an involution: `ß` becomes `S`, which becomes `s`.
  - "Letter" in `RandomCase.SarcasmKeepsShape` and `RandomCase.SarcasmTwiceKeepsShape` means an ASCII letter.
  - A non-ASCII character whose case the source would change is counted as a non-letter, and the model keeps it unchanged.
- `rand::random::<bool>()` is replaced by an input bit sequence with one bit per character, in text order. This is why `RandomCase.Sarcasm` and `Session.App.Sarcasm` require as many bits as characters.
