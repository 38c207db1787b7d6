# SmartNotes core, modelled in Dafny

SmartNotes turns an uploaded meeting recording into a transcript and a
bullet-point summary. Everything hard (speech recognition, decoding, text
generation, the web UI) is done by external libraries; the repository's own
logic is the sequencing and formatting code in `app.py`. This project models
that code and proves what it does:

- **Chunked transcription** (`transcribe_large_audio`). The recording is cut
  into windows of `chunk_length_sec * sr` samples (module `Chunking`). Each
  window is written to `chunk_<offset>.wav`, transcribed, and deleted. The
  stripped texts are joined in window order (module `Transcriber`).
- **Input dispatch** (module `Dispatch`). The extension is the text after the
  last dot of the uploaded name. Only `mp4` goes through ffmpeg extraction.
- **Summary rendering** (module `Bullets`). Each non-blank line of the summary
  becomes one `- ` bullet.
- **One pass of the main workflow** (module `Session`). It composes the above
  over an abstract file system and does the final clean-up.

Python's `str.strip`, `str.split` and decimal formatting are modelled in
`Text`. `Text.Join` (Python's `sep.join`, which app.py never calls) is the
reference shape the transcript is stated against. Python exceptions raised by the modelled code are values of
`Results.Result`. Files are a map from name to an abstract `Files.Blob`.

The external capabilities are function parameters of the model:

- `torchaudio.load` is `load: Blob -> Option<AudioShape>`: the sample count and
  sample rate of the decoded file, or `None` when it cannot be decoded.
- Whisper's `model.transcribe` is `whisper: Blob -> string`.
- Cohere's `co.generate` (with its prompt) is `generate: string -> Option<string>`,
  where `None` means the call raised. The strip that `summarize_with_cohere`
  applies to its output is modelled.
- How the ffmpeg process went is `ffmpeg: Session.FfmpegRun`: either
  `subprocess.run` raised before ffmpeg ran (it is not installed, say), or
  ffmpeg ran and did or did not write its output file.

Where app.py behaves in a way a reader might not expect, the model follows the
code:

- A window whose text is blank still adds its space, so its neighbours are
  separated by two spaces, not one (`Transcriber.BlankWindowLeavesDoubleSpace`).
  The single-space shape holds only when no window text is blank
  (`Transcriber.AssembleSingleSpaced`).
- Clean-up runs only when the pass gets to the end. When starting ffmpeg, the
  transcription or the generation call raises, the upload copy
  `temp_input.<ext>` stays on disk, and so does `temp_audio.wav` when it
  exists (`Session.RunSession`).
- ffmpeg's exit status is ignored. If extraction writes nothing, the pass reads
  whatever `temp_audio.wav` an earlier pass left behind, or fails to load
  (`Session.StagedAudio`).
- A zero `chunk_size` makes `range` raise `ValueError`. A negative one gives an
  empty range and an empty transcript (`Chunking.Plan`).

Which definition models which lines (the table below lists the members whose
contracts state what they do):

- `Chunking.SliceLen`, `Chunking.WindowsFrom`, `Chunking.Windows`,
  `Chunking.Plan`: the `range` loop and the slices `audio[:, i:i + chunk_size]`
  (app.py:49-51).
- `Chunking.ChunkPath`: the window file name `f"chunk_{i}.wav"` (app.py:52).
- `Transcriber.Piece`, `Transcriber.Pieces`, `Transcriber.Assemble`: the
  running transcript (app.py:46, 55) and the final strip (app.py:57).
- `Dispatch.TempInputName`, `Dispatch.Extension`, `Dispatch.RouteFor`: the
  upload copy's name and the choice of audio file (app.py:85-95).
- `Session.Staged`: the files once the upload is copied and ffmpeg has run
  (app.py:88-93).
- `Session.Summarize`: `summarize_with_cohere` after the generation call
  (app.py:81).
- `Bullets.Bullet`, `Bullets.LineBullets`, `Bullets.BulletsOf`,
  `Bullets.Render`: the bullet loop (app.py:110-112).
- `Session.AfterCleanup`: the clean-up (app.py:115-117).

## Model

| member | source | states |
|---|---|---|
| `Text.Strip` | app.py:55 | `str.strip()` leaves no whitespace at either end and never lengthens the string |
| `Text.LStripSpec` | app.py:55 | the left strip drops exactly a whitespace prefix, and what remains does not start with whitespace |
| `Text.RStripSpec` | app.py:55 | the right strip drops exactly a whitespace suffix, and what remains does not end with whitespace |
| `Text.StripIsInfix` | app.py:55 | the strip is an infix of the input with only whitespace around it |
| `Text.StripTrailingSpace` | app.py:57 | trailing whitespace does not change the strip of a string |
| `Text.StripLeadingSpace` | app.py:111 | leading whitespace does not change the strip of a string |
| `Text.StripFixpoint` | app.py:57 | strip fixes strings without edge whitespace, is idempotent, and is empty exactly for all-whitespace input |
| `Text.Split` | app.py:110 | `split(sep)` never gives an empty list |
| `Text.SplitSpec` | app.py:110 | no piece of `split(sep)` holds `sep`; without a `sep` the result is `[s]`, and with one there are at least two pieces |
| `Text.JoinSplit` | app.py:110 | joining the pieces of a split with the separator gives back the input |
| `Text.SplitJoin` | app.py:110 | splitting a join of separator-free pieces gives back the pieces |
| `Text.SplitConcat` | app.py:85 | a separator splits a string into the pieces before it followed by the pieces after it |
| `Text.AfterLast` | app.py:85 | `split(sep)[-1]` holds no `sep`; it is the whole string when there is no `sep`, else the suffix right after the last `sep` |
| `Text.Decimal` | app.py:52 | an f-string of a non-negative int is a non-empty string of digits with no leading zero |
| `Text.ParseDecimalOfDecimal` | app.py:52 | reading the decimal form back gives the number |
| `Text.DecimalInjective` | app.py:52 | two numbers have the same decimal form exactly when they are equal |
| `Chunking.Plan` | app.py:49-51 | `range(0, total, chunk_size)` raises `ValueError` exactly for a zero step; otherwise window `k` starts at `k * chunk_size`, below `total`, and holds `min(chunk_size, total - k * chunk_size)` samples; there are `ceil(total / chunk_size)` windows for a positive step, and their lengths add up to the whole recording (to nothing for a negative step) |
| `Chunking.WindowsFromElement` | app.py:50-51 | window `k` from offset `i` starts below `total` and has the Python slice length `min(chunk_size, total - start)`; the next window starts `chunk_size` later, and the last one ends at `total` |
| `Chunking.WindowsFromShape` | app.py:50-51 | windows from offset `i` step by `chunk_size`, each is non-empty and at most `chunk_size` long, consecutive windows touch, and the last one ends at `total` |
| `Chunking.WindowsFromStart` | app.py:50 | window `k` from offset `i` starts at `i + k * chunk_size` |
| `Chunking.WindowsShape` | app.py:50-51 | window `k` is the slice `audio[:, k*chunk_size : k*chunk_size + chunk_size]` and starts below `total`; there are none exactly when `total == 0`, and the last one ends at `total` |
| `Chunking.WindowAt` | app.py:50-51 | window `k` starts at `k * chunk_size`, below `total`, and holds `min(chunk_size, total - k * chunk_size)` samples |
| `Chunking.WindowCount` | app.py:50 | there are `ceil(total / chunk_size)` windows |
| `Chunking.WindowsReach` | app.py:50 | the windows reach `total`, and one fewer would not |
| `Chunking.WindowsTotalLength` | app.py:51 | the window lengths add up to the sample count (no padding) |
| `Chunking.WindowsFromTotalLength` | app.py:51 | the windows from offset `i` have lengths adding up to `total - i` |
| `Chunking.WindowOfSample` | app.py:50-51 | sample `s` lies in window `s / chunk_size` |
| `Chunking.WindowsCover` | app.py:50-51 | a sample lies in some window exactly when it is one of the recording's samples |
| `Chunking.WindowsDisjoint` | app.py:50-51 | an earlier window ends no later than a later one starts, so no sample lies in two windows |
| `Chunking.SixtyFiveSecondsInThirtySecondWindows` | app.py:45-51 | 65 s of audio cut every 30 s gives windows of 30 s, 30 s and 5 s at offsets 0, 30 s and 60 s |
| `Chunking.ChunkPathInjective` | app.py:52 | `chunk_{i}.wav` names are equal exactly when the offsets are |
| `Chunking.ChunkPathsDistinct` | app.py:52 | the window files of one call have pairwise distinct names |
| `Transcriber.TranscribeLargeAudio` | app.py:45-57 | fails on an unloadable file or a zero step and leaves the files as they were; otherwise visits exactly the windows in order and returns the stripped single-space join of the stripped window texts, with no edge whitespace; only the window files are removed and no file is altered |
| `Transcriber.TranscribeWindows` | app.py:50-56 | the loop visits exactly `Windows(total, chunk_size)` in order; the running transcript holds one stripped text and space per window; each window file exists when the model reads it; afterwards only the window files are gone |
| `Transcriber.LoopStep` | app.py:50-56 | one iteration builds the first window still to visit, adds its stripped text and a space to the transcript, and leaves the files as if only that window's file had been deleted |
| `Transcriber.PiecesAsJoin` | app.py:46-55 | the running transcript is the stripped texts joined by single spaces, plus one trailing space |
| `Transcriber.AssembleIsStrippedJoin` | app.py:55-57 | the returned transcript is the strip of the single-space join of the stripped texts, and has no edge whitespace |
| `Transcriber.AssembleSingleSpaced` | app.py:55-57 | when no window text is blank, the transcript is exactly `strip(t1) + " " + ... + " " + strip(tn)` |
| `Transcriber.BlankWindowLeavesDoubleSpace` | app.py:55-57 | texts `x`, blank, `y` give `strip(x) + "  " + strip(y)`, with two spaces |
| `Dispatch.Extension` | app.py:85 | the extension holds no dot; it is the whole name when there is no dot, else the name ends with a dot and the extension |
| `Dispatch.ExtensionOfDotted` | app.py:85 | whatever precedes the last dot does not change the extension |
| `Dispatch.Mp4Extension` | app.py:85-92 | the extension is `mp4` exactly when the name is `mp4` or ends with `.mp4` (case-sensitive) |
| `Dispatch.RouteFor` | app.py:86-95 | extraction happens exactly for names that are `mp4` or end with `.mp4`; it reads `temp_input.mp4` and writes `temp_audio.wav`; any other upload is transcribed from `temp_input.<ext>`, which is never `temp_audio.wav` |
| `Bullets.NonBlankFrom` | app.py:110-111 | the listed line positions are valid positions at or after the start |
| `Bullets.NonBlankFromSound` | app.py:111 | every listed position holds a non-blank line |
| `Bullets.NonBlankFromIncreasing` | app.py:110-111 | the positions come in line order, each once |
| `Bullets.NonBlankFromComplete` | app.py:111 | every non-blank line is listed |
| `Bullets.BulletsOfSelectsNonBlank` | app.py:110-112 | bullet `k` is `- ` and the stripped `k`-th non-blank line; there is one bullet per non-blank line and none for a blank line |
| `Bullets.RenderSelectsNonBlank` | app.py:110-112 | the same for the `\n`-separated lines of a summary |
| `Bullets.BulletsWellFormed` | app.py:110-112 | each bullet is `- ` and then a non-empty text with no edge whitespace and no line break |
| `Bullets.RenderWellFormed` | app.py:110-112 | the same for the bullets of a summary |
| `Bullets.BulletsOfConcat` | app.py:110-112 | the bullets of two line lists are those of the first followed by those of the second |
| `Bullets.RenderConcat` | app.py:110-112 | the bullets of `x + "\n" + y` are those of `x` followed by those of `y` |
| `Bullets.RenderEmptyIffBlank` | app.py:110-112 | a summary gives no bullet exactly when it is all whitespace |
| `Bullets.RenderAppendSpace` | app.py:110-112 | whitespace after a summary, line breaks included, adds no bullet and changes none |
| `Bullets.RenderPrependSpace` | app.py:110-112 | whitespace before a summary, line breaks included, adds no bullet and changes none |
| `Bullets.RenderIgnoresEdgeSpace` | app.py:110-112 | rendering the strip of a summary gives the same bullets as rendering the summary |
| `Session.ChunkPathsAreChunkFiles` | app.py:52 | window files have the `chunk_<i>.wav` form, so none is the upload copy or `temp_audio.wav` |
| `Session.Summarize` | app.py:75-81 | the summary raises exactly when the generation call does; otherwise it has no whitespace at either end |
| `Session.SummaryStripKeepsBullets` | app.py:81 | the strip of the generated text changes no bullet: the bullets are those of the text as generated |
| `Session.StagedAudio` | app.py:88-95 | once ffmpeg has run, the transcriber reads the upload for non-`mp4` input and ffmpeg's output when ffmpeg wrote one; otherwise it reads an earlier `temp_audio.wav` if one exists |
| `Session.RunSession` | app.py:84-117 | a failed ffmpeg start, a failed transcription or a failed generation call ends the pass with no bullets and the upload copy on disk; otherwise the transcript is the transcriber's result for the route's file, the bullets render the stripped summary, and the files are exactly those from before the pass less `temp_input.<ext>`, `temp_audio.wav` and the window files |

## Left out

- Whisper model loading and inference (app.py:10, 54): a foreign ML library. It is the parameter `whisper`.
- torchaudio decoding and encoding (app.py:11, 47, 53): file I/O and numeric data. Only the sample count and rate matter, through the parameter `load`. Channels and sample values are not modelled.
- The ffmpeg process and its argument list (app.py:31-42): external process I/O. Only whether it started and whether it wrote its output file are modelled, as `ffmpeg`.
- The Cohere prompt and `co.generate` (app.py:59-80): a network service behind a fixed prompt template. It is the parameter `generate`, which either returns a text or raises.
- `st.cache_data` memoisation (app.py:44): framework caching, not code of this repository. Each pass transcribes afresh in the model.
- The Streamlit UI (app.py:14-28, 99-108, 119), including the uploader's type filter and size cap: any name and content are accepted.
- Real file writes and deletes (app.py:88-89, 115-117): modelled as updates of a name-to-content map.
- Exceptions raised inside the window loop (by `torchaudio.save`, the model or `os.remove`): `whisper` is total. A failing window would leave its `chunk_<i>.wav` behind, and the model does not cover that.
- Exceptions from writing the upload copy (app.py:88-89), from Streamlit calls or from `os.remove` in the clean-up (app.py:115-117): local I/O and UI failures. The model lets those steps always succeed.
- Concurrent sessions sharing the fixed temporary names: one pass is modelled at a time.
- `Transcriber.TranscribeLargeAudio`: the per-window texts are taken from `whisper` applied to the window file. The audio the window came from is not part of that file, because sample values are not modelled.
