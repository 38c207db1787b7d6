/** `transcribe_large_audio` (app.py:45-57): load the recording, cut it into
    windows of `chunk_length_sec * sr` samples, and for each window in order
    write it to `chunk_{i}.wav`, run the speech model on that file, append the
    stripped text and a space to the transcript, and delete the file; finally
    strip the whole transcript.

    The decoder (`torchaudio.load`) and the speech model (`model.transcribe`)
    are parameters: `load` maps a file to the shape of the audio it decodes to,
    or to `None` when it cannot be decoded, and `whisper` maps a file to the
    text the model produces for it. */
module Transcriber {
  import opened Text
  import opened Results
  import opened Chunking
  import opened Files

  /** What one window adds to the running transcript: its stripped text and one
      space (app.py:55). */
  function Piece(text: string): string {
    Strip(text) + " "
  }

  /** The running transcript after the pieces of `texts` were appended in
      order, starting from `""` (app.py:46, 55). */
  function Pieces(texts: seq<string>): string
    decreases |texts|
  {
    if |texts| == 0 then "" else Pieces(texts[..|texts| - 1]) + Piece(Last(texts))
  }

  /** The returned transcript for the window texts `texts` (app.py:57). */
  function Assemble(texts: seq<string>): string {
    Strip(Pieces(texts))
  }

  function StripAll(texts: seq<string>): (r: seq<string>)
    ensures |r| == |texts|
    ensures forall k :: 0 <= k < |r| ==> r[k] == Strip(texts[k])
  {
    seq(|texts|, k requires 0 <= k < |texts| => Strip(texts[k]))
  }

  /** The text the model produces for each window, in window order. */
  function ChunkTexts(ws: seq<Window>, rate: nat, whisper: Blob -> string): (r: seq<string>)
    ensures |r| == |ws|
    ensures forall k :: 0 <= k < |ws| ==> r[k] == whisper(ChunkWav(ws[k], rate))
  {
    seq(|ws|, k requires 0 <= k < |ws| => whisper(ChunkWav(ws[k], rate)))
  }

  /** The temporary file names of the windows `ws`. */
  function ChunkPaths(ws: seq<Window>): set<string> {
    set k | 0 <= k < |ws| :: ChunkPath(ws[k].start)
  }

  /** The transcript a successful call returns, stated on its own: the texts of
      all windows, in start-offset order, stripped, joined by single spaces,
      and stripped once more. */
  function Expected(shape: AudioShape, chunkLengthSec: int, whisper: Blob -> string): Result<string> {
    var plan := Plan(shape.samples, ChunkSize(chunkLengthSec, shape.rate));
    if plan.Failure? then Failure(plan.error)
    else Success(Strip(Join(StripAll(ChunkTexts(plan.value, shape.rate, whisper)), " ")))
  }

  /** The model of `transcribe_large_audio`. It fails when the file cannot be
      loaded or when `chunk_length_sec * sr` is zero; otherwise it hands the
      model exactly the windows of the recording, in order, returns their
      texts assembled as `Expected` says, and leaves every file as it found it
      except that the window files it used no longer exist. */
  method TranscribeLargeAudio(fs: FileSystem, audioPath: string, chunkLengthSec: int,
                              load: Blob -> Option<AudioShape>, whisper: Blob -> string)
    returns (result: Result<string>, fs': FileSystem, visited: seq<Window>)
    ensures audioPath !in fs || load(fs[audioPath]).None? ==>
      result == Failure(AudioLoadFailure(audioPath)) && fs' == fs && visited == []
    ensures audioPath in fs && load(fs[audioPath]).Some? ==>
      var shape := load(fs[audioPath]).value;
      var plan := Plan(shape.samples, ChunkSize(chunkLengthSec, shape.rate));
      && result == Expected(shape, chunkLengthSec, whisper)
      && (plan.Failure? ==> fs' == fs && visited == [])
      && (plan.Success? ==> visited == plan.value)
    ensures result.Success? ==> Stripped(result.value)
    ensures result.Success? ==> fs' == fs - ChunkPaths(visited)
  {
    fs' := fs;
    visited := [];
    if audioPath !in fs {
      return Failure(AudioLoadFailure(audioPath)), fs', visited;
    }
    var loaded := load(fs[audioPath]);
    if loaded.None? {
      return Failure(AudioLoadFailure(audioPath)), fs', visited;
    }
    var total := loaded.value.samples;
    var sr := loaded.value.rate;
    var chunkSize := ChunkSize(chunkLengthSec, sr);
    if chunkSize == 0 {
      return Failure(ZeroRangeStep), fs', visited;
    }
    var transcript := "";
    if chunkSize > 0 {
      transcript, fs', visited := TranscribeWindows(fs, total, sr, chunkSize, whisper);
      AssembleIsStrippedJoin(ChunkTexts(visited, sr, whisper));
    }
    result := Success(Strip(transcript));
  }

  /** The loop of `transcribe_large_audio` (app.py:50-56) for a positive
      `chunk_size`: it visits exactly the windows of the recording, in order;
      the running transcript it builds holds one piece per window; each window
      file exists when the model reads it, and afterwards the only change to
      the files is that the window files are gone. */
  method TranscribeWindows(fs: FileSystem, total: nat, sr: nat, chunkSize: nat, whisper: Blob -> string)
    returns (transcript: string, fs': FileSystem, visited: seq<Window>)
    requires chunkSize > 0
    ensures visited == Windows(total, chunkSize)
    ensures transcript == Pieces(ChunkTexts(visited, sr, whisper))
    ensures fs' == fs - ChunkPaths(visited)
  {
    fs' := fs;
    visited := [];
    transcript := "";
    var i: nat := 0;
    assert visited + WindowsFrom(i, total, chunkSize) == Windows(total, chunkSize);
    while i < total
      invariant visited + WindowsFrom(i, total, chunkSize) == Windows(total, chunkSize)
      invariant transcript == Pieces(ChunkTexts(visited, sr, whisper))
      invariant fs' == fs - ChunkPaths(visited)
      decreases total - i
    {
      var chunk := Window(i, SliceLen(total, i, i + chunkSize));
      var path := ChunkPath(i);
      fs' := fs'[path := ChunkWav(chunk, sr)];
      var text := whisper(fs'[path]);
      transcript := transcript + Strip(text) + " ";
      fs' := fs' - {path};
      LoopStep(fs, visited, i, total, sr, chunkSize, whisper);
      visited := visited + [chunk];
      i := i + chunkSize;
    }
    assert WindowsFrom(i, total, chunkSize) == [];
    assert visited + [] == visited;
  }

  /** What one iteration of the loop does at offset `i`: the window it builds
      is the first of those still to visit; appending it to the visited
      windows keeps their concatenation with the rest equal to all windows;
      and the running transcript and the files move on by that one window. */
  lemma LoopStep(fs: FileSystem, visited: seq<Window>, i: nat, total: nat, sr: nat, size: nat,
                 whisper: Blob -> string)
    requires size > 0 && i < total
    ensures var chunk := Window(i, SliceLen(total, i, i + size));
      && (visited + WindowsFrom(i, total, size) == Windows(total, size) ==>
            (visited + [chunk]) + WindowsFrom(i + size, total, size) == Windows(total, size))
      && Pieces(ChunkTexts(visited, sr, whisper)) + Strip(whisper(ChunkWav(chunk, sr))) + " "
         == Pieces(ChunkTexts(visited + [chunk], sr, whisper))
      && (fs - ChunkPaths(visited))[ChunkPath(i) := ChunkWav(chunk, sr)] - {ChunkPath(i)}
         == fs - ChunkPaths(visited + [chunk])
  {
    var chunk := Window(i, SliceLen(total, i, i + size));
    assert WindowsFrom(i, total, size) == [chunk] + WindowsFrom(i + size, total, size);
    ConcatAssoc(visited, [chunk], WindowsFrom(i + size, total, size));
    var texts := ChunkTexts(visited + [chunk], sr, whisper);
    assert texts[..|visited|] == ChunkTexts(visited, sr, whisper);
    PiecesSnoc(texts, |visited|);
    assert texts[..|visited| + 1] == texts;
    ChunkPathsSnoc(visited + [chunk], |visited|);
    assert (visited + [chunk])[..|visited|] == visited;
    assert (visited + [chunk])[..|visited| + 1] == visited + [chunk];
    WriteThenRemove(fs, ChunkPaths(visited), ChunkPath(i), ChunkWav(chunk, sr));
  }

  /** Writing a file and then deleting it leaves the files as if it had only
      been deleted. */
  lemma WriteThenRemove(fs: FileSystem, gone: set<string>, path: string, b: Blob)
    ensures (fs - gone)[path := b] - {path} == fs - (gone + {path})
  {
  }

  lemma PiecesSnoc(texts: seq<string>, k: nat)
    requires k < |texts|
    ensures Pieces(texts[..k + 1]) == Pieces(texts[..k]) + Strip(texts[k]) + " "
  {
    assert texts[..k + 1][..k] == texts[..k];
  }

  lemma ChunkPathsSnoc(ws: seq<Window>, k: nat)
    requires k < |ws|
    ensures ChunkPaths(ws[..k + 1]) == ChunkPaths(ws[..k]) + {ChunkPath(ws[k].start)}
  {
    var a, b := ws[..k + 1], ws[..k];
    forall j | 0 <= j < k ensures a[j] == b[j] { }
    assert a[k] == ws[k];
  }

  /** The running transcript of a non-empty list of texts is their stripped forms
      joined by single spaces, plus one trailing space. */
  lemma {:induction false} PiecesAsJoin(texts: seq<string>)
    requires |texts| > 0
    ensures Pieces(texts) == Join(StripAll(texts), " ") + " "
    decreases |texts|
  {
    var n := |texts|;
    var init := texts[..n - 1];
    var last := Strip(texts[n - 1]);
    var parts := StripAll(texts);
    assert Pieces(texts) == Pieces(init) + (last + " ");
    if n == 1 {
      assert Pieces(init) == "";
      assert Join(parts, " ") == last;
    } else {
      PiecesAsJoin(init);
      var front := Join(StripAll(init), " ");
      JoinLast(parts, " ");
      assert parts[..n - 1] == StripAll(init);
      assert Join(parts, " ") == front + " " + last;
      assert Pieces(init) == front + " ";
      assert (front + " ") + (last + " ") == (front + " " + last) + " ";
    }
  }

  /** The returned transcript is the stripped single-space join of the stripped
      window texts. */
  lemma AssembleIsStrippedJoin(texts: seq<string>)
    ensures Assemble(texts) == Strip(Join(StripAll(texts), " "))
    ensures Stripped(Assemble(texts))
  {
    if |texts| > 0 {
      PiecesAsJoin(texts);
      StripTrailingSpace(Join(StripAll(texts), " "), " ");
    }
  }

  /** When no window's text is blank, the transcript is exactly the stripped
      texts separated by one space each: `strip(t1) + " " + strip(t2) + ...`. */
  lemma AssembleSingleSpaced(texts: seq<string>)
    requires forall k :: 0 <= k < |texts| ==> NonBlank(texts[k])
    ensures Assemble(texts) == Join(StripAll(texts), " ")
  {
    AssembleIsStrippedJoin(texts);
    var parts := StripAll(texts);
    JoinStripped(parts);
    StripFixpoint(Join(parts, " "));
  }

  /** A single-space join of non-empty stripped pieces has no whitespace at
      either end. */
  lemma {:induction false} JoinStripped(parts: seq<string>)
    requires forall k :: 0 <= k < |parts| ==> parts[k] != "" && Stripped(parts[k])
    ensures Stripped(Join(parts, " "))
    ensures |parts| > 0 ==> Join(parts, " ")[0] == parts[0][0]
    decreases |parts|
  {
    if |parts| > 1 {
      JoinStripped(parts[1..]);
      var rest := Join(parts[1..], " ");
      assert Join(parts, " ") == parts[0] + " " + rest;
      JoinLast(parts, " ");
    }
  }

  /** A window whose text is blank still contributes its space, so two spaces
      separate its neighbours: texts `x`, blank, `y` give
      `strip(x) + "  " + strip(y)`. */
  lemma BlankWindowLeavesDoubleSpace(texts: seq<string>)
    requires |texts| == 3
    requires NonBlank(texts[0]) && AllSpace(texts[1]) && NonBlank(texts[2])
    ensures Assemble(texts) == Strip(texts[0]) + "  " + Strip(texts[2])
  {
    var sx, sy := Strip(texts[0]), Strip(texts[2]);
    BlankWindowPieces(texts);
    var s := sx + "  " + sy;
    StripTrailingSpace(s, " ");
    assert s[0] == sx[0] && s[|s| - 1] == sy[|sy| - 1];
    StripFixpoint(s);
  }

  lemma BlankWindowPieces(texts: seq<string>)
    requires |texts| == 3 && AllSpace(texts[1])
    ensures Pieces(texts) == Strip(texts[0]) + "  " + Strip(texts[2]) + " "
  {
    var sx, sy := Strip(texts[0]), Strip(texts[2]);
    StripFixpoint(texts[1]);
    assert Piece(texts[1]) == " ";
    PiecesPrefixes(texts);
    ConcatAssoc(sx, " ", " ");
    assert " " + " " == "  ";
    ConcatAssoc(sx + "  ", sy, " ");
  }

  lemma PiecesPrefixes(texts: seq<string>)
    requires |texts| == 3
    ensures Pieces(texts) == (Piece(texts[0]) + Piece(texts[1])) + Piece(texts[2])
  {
    var p0, p1, p2 := Piece(texts[0]), Piece(texts[1]), Piece(texts[2]);
    assert Pieces(texts[..1]) == p0 by {
      assert texts[..1][..0] == [];
      assert "" + p0 == p0;
    }
    assert Pieces(texts[..2]) == p0 + p1 by {
      assert texts[..2][..1] == texts[..1];
    }
    assert texts[..3][..2] == texts[..2];
    assert texts[..3] == texts;
  }
}
