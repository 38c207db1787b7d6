/** One pass of the main workflow (app.py:84-117) on an upload named `name`
    with contents `content`: copy the upload to `temp_input.<ext>`, extract the
    audio of an `mp4` upload with ffmpeg, transcribe with the default window of
    30 seconds, show the transcript, summarise, render the bullets, and delete
    `temp_input.<ext>` and `temp_audio.wav`.

    The external capabilities are parameters: `ffmpeg` says how the ffmpeg
    process went (it may fail to start; once started its exit status is never
    inspected), `load` and `whisper` are the decoder and the speech model as in
    `Transcriber`, and `generate` is the text-generation call, which may raise,
    and whose output `summarize_with_cohere` strips. An exception ends the pass
    at once: the steps after it, the clean-up included, do not run. */
module Session {
  import opened Text
  import opened Results
  import opened Chunking
  import opened Files
  import opened Transcriber
  import opened Dispatch
  import opened Bullets

  /** The default `chunk_length_sec` of `transcribe_large_audio` (app.py:45),
      which the workflow uses (app.py:97). */
  const DefaultChunkLengthSec: int := 30

  /** How the ffmpeg process of `extract_audio_with_ffmpeg` went (app.py:41). */
  datatype FfmpegRun =
    /** `subprocess.run` raised before ffmpeg ran. */
    | LaunchFailed
    /** ffmpeg ran; `wrote` says whether its output file exists afterwards. */
    | Ran(wrote: bool)

  /** What one pass leaves behind: the transcript shown in the first tab, if
      transcription finished (app.py:104); the bullets shown in the second
      (app.py:110-112); the exception that ended the pass early, if one did;
      and the files. */
  datatype Outcome = Outcome(
    route: Route,
    transcript: Option<string>,
    bullets: seq<string>,
    raised: Option<Error>,
    files: FileSystem)

  /** File names of the `chunk_<i>.wav` form. */
  predicate IsChunkPath(p: string) {
    |p| >= 10 && p[..6] == "chunk_" && p[|p| - 4..] == ".wav"
  }

  lemma ChunkPathForm(start: nat)
    ensures IsChunkPath(ChunkPath(start))
  {
    var p := ChunkPath(start);
    assert p[..6] == "chunk_";
    assert p[|p| - 4..] == ".wav";
  }

  /** The window files of one call are all of the `chunk_<i>.wav` form, so none
      of them is the upload copy or the extracted audio. */
  lemma ChunkPathsAreChunkFiles(ws: seq<Window>)
    ensures forall p :: p in ChunkPaths(ws) ==> IsChunkPath(p)
    ensures forall ext :: TempInputName(ext) !in ChunkPaths(ws)
    ensures ExtractedAudioPath !in ChunkPaths(ws)
  {
    forall k | 0 <= k < |ws| ensures IsChunkPath(ChunkPath(ws[k].start)) {
      ChunkPathForm(ws[k].start);
    }
    forall ext ensures TempInputName(ext) !in ChunkPaths(ws) {
      var t := TempInputName(ext);
      assert t[0] == 't';
    }
    assert ExtractedAudioPath[0] == 't';
  }

  /** The files just before transcription: the upload copy written
      (app.py:88-89) and, for an `mp4` upload whose extraction produced a file,
      the extracted audio (app.py:92-93). */
  function Staged(fs: FileSystem, name: string, content: seq<bv8>, ffmpeg: FfmpegRun): FileSystem {
    var files := fs[TempInputName(Extension(name)) := Upload(content)];
    if RouteFor(name).Extract? && ffmpeg == Ran(true) then files[ExtractedAudioPath := ExtractedAudio(content)]
    else files
  }

  /** What the transcriber reads once ffmpeg has run (if it had to): the upload
      itself when it is not `mp4`; the audio ffmpeg extracted from it when
      extraction produced a file; and when it did not, whatever
      `temp_audio.wav` an earlier pass left behind, since the exit status of
      ffmpeg is never checked. */
  lemma StagedAudio(fs: FileSystem, name: string, content: seq<bv8>, ffmpeg: FfmpegRun)
    ensures var staged := Staged(fs, name, content, ffmpeg);
      var path := RouteFor(name).AudioPath();
      && (RouteFor(name).Direct? ==> path in staged && staged[path] == Upload(content))
      && (RouteFor(name).Extract? && ffmpeg == Ran(true) ==>
            path in staged && staged[path] == ExtractedAudio(content))
      && (RouteFor(name).Extract? && ffmpeg == Ran(false) ==>
            (path in staged <==> ExtractedAudioPath in fs)
            && (path in staged ==> staged[path] == fs[ExtractedAudioPath]))
  {
    var t := TempInputName(Extension(name));
    assert t[5] != ExtractedAudioPath[5];
  }

  /** `summarize_with_cohere` (app.py:59-81): the text generated for the
      transcript, stripped; it raises when the generation call does. */
  function Summarize(generate: string -> Option<string>, transcript: string): (summary: Result<string>)
    ensures summary.Failure? <==> generate(transcript).None?
    ensures summary.Failure? ==> summary.error == GenerationFailure
    ensures summary.Success? ==> Stripped(summary.value)
  {
    match generate(transcript)
    case None => Failure(GenerationFailure)
    case Some(text) => Success(Strip(text))
  }

  /** The strip in `summarize_with_cohere` changes no bullet: a pass shows the
      bullets of the generated text exactly as it came back. */
  lemma SummaryStripKeepsBullets(generate: string -> Option<string>, transcript: string)
    requires generate(transcript).Some?
    ensures Render(Summarize(generate, transcript).value) == Render(generate(transcript).value)
  {
    RenderIgnoresEdgeSpace(generate(transcript).value);
  }

  /** The clean-up at the end of a successful pass (app.py:115-117): the upload
      copy and, when present, the extracted audio are deleted. */
  function AfterCleanup(files: FileSystem, tempInput: string): FileSystem {
    files - {tempInput, ExtractedAudioPath}
  }

  /** After the window files `gone` are deleted and the clean-up runs, the
      files are those from before the pass less the two temporary names and
      `gone`. */
  lemma CleanupLeavesOriginals(fs: FileSystem, name: string, content: seq<bv8>, ffmpeg: FfmpegRun, gone: set<string>)
    ensures var t := TempInputName(Extension(name));
      AfterCleanup(Staged(fs, name, content, ffmpeg) - gone, t) == (fs - {t, ExtractedAudioPath}) - gone
  {
  }

  /** Removing `a` and then `b` when it is still present removes both. */
  lemma RemoveBoth(m: FileSystem, a: string, b: string)
    ensures (if b in m - {a} then (m - {a}) - {b} else m - {a}) == m - {a, b}
  {
  }

  /** The windows a pass cuts a recording of shape `shape` into. */
  function SessionWindows(shape: AudioShape): seq<Window> {
    var plan := Plan(shape.samples, ChunkSize(DefaultChunkLengthSec, shape.rate));
    if plan.Success? then plan.value else []
  }

  /** One pass of the main workflow, step by step:
      - when ffmpeg cannot be started, the pass ends with only the upload copy
        written;
      - when the transcriber raises, the pass ends with no transcript, and the
        files are as staged;
      - otherwise the transcript is the transcriber's result for the route's
        audio file and the window files are gone; when the generation call
        raises, the pass ends there with no bullets and the temporary files
        still on disk; when it does not, the bullets render the summary and the
        clean-up leaves exactly the files from before the pass, less the two
        temporary names and the window files. */
  method RunSession(fs: FileSystem, name: string, content: seq<bv8>, ffmpeg: FfmpegRun,
                    load: Blob -> Option<AudioShape>, whisper: Blob -> string,
                    generate: string -> Option<string>)
    returns (out: Outcome)
    ensures out.route == RouteFor(name)
    ensures out.route.Extract? && ffmpeg.LaunchFailed? ==>
      out == Outcome(out.route, None, [], Some(FfmpegLaunchFailure), Staged(fs, name, content, ffmpeg))
    ensures !(out.route.Extract? && ffmpeg.LaunchFailed?) ==>
      var staged := Staged(fs, name, content, ffmpeg);
      var path := out.route.AudioPath();
      (path !in staged || load(staged[path]).None?) ==>
        out == Outcome(out.route, None, [], Some(AudioLoadFailure(path)), staged)
    ensures !(out.route.Extract? && ffmpeg.LaunchFailed?) ==>
      var staged := Staged(fs, name, content, ffmpeg);
      var path := out.route.AudioPath();
      (path in staged && load(staged[path]).Some?) ==>
        var shape := load(staged[path]).value;
        var transcript := Expected(shape, DefaultChunkLengthSec, whisper);
        var gone := ChunkPaths(SessionWindows(shape));
        && (transcript.Failure? ==> out == Outcome(out.route, None, [], Some(transcript.error), staged))
        && (transcript.Success? ==>
              var summary := Summarize(generate, transcript.value);
              && out.transcript == Some(transcript.value)
              && (summary.Failure? ==>
                    out.bullets == [] && out.raised == Some(GenerationFailure) && out.files == staged - gone)
              && (summary.Success? ==>
                    && out.bullets == Render(summary.value) && out.raised == None
                    && out.files == (fs - {TempInputName(Extension(name)), ExtractedAudioPath}) - gone))
    ensures out.raised.Some? ==>
      && out.bullets == []
      && TempInputName(Extension(name)) in out.files
      && out.files[TempInputName(Extension(name))] == Upload(content)
    ensures out.raised.None? ==>
      && out.transcript.Some?
      && TempInputName(Extension(name)) !in out.files
      && ExtractedAudioPath !in out.files
      && (forall p :: p in out.files ==> p in fs && out.files[p] == fs[p])
  {
    var ext := Extension(name);
    var tempInput := TempInputName(ext);
    var route := RouteFor(name);
    var files := Staged(fs, name, content, ffmpeg);
    assert tempInput in files && files[tempInput] == Upload(content) by {
      assert tempInput[5] != ExtractedAudioPath[5];
    }
    if route.Extract? && ffmpeg.LaunchFailed? {
      return Outcome(route, None, [], Some(FfmpegLaunchFailure), files);
    }
    var transcript, files', visited := TranscribeLargeAudio(files, route.AudioPath(), DefaultChunkLengthSec, load, whisper);
    ChunkPathsAreChunkFiles(visited);
    if transcript.Failure? {
      return Outcome(route, None, [], Some(transcript.error), files');
    }
    var summary := Summarize(generate, transcript.value);
    if summary.Failure? {
      return Outcome(route, Some(transcript.value), [], Some(summary.error), files');
    }
    var bullets := Render(summary.value);
    assert tempInput in files';
    var cleaned := files' - {tempInput};
    if ExtractedAudioPath in cleaned {
      cleaned := cleaned - {ExtractedAudioPath};
    }
    CleanupLeavesOriginals(fs, name, content, ffmpeg, ChunkPaths(visited));
    RemoveBoth(files', tempInput, ExtractedAudioPath);
    out := Outcome(route, Some(transcript.value), bullets, None, cleaned);
  }
}
