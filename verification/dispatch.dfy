/** How the main workflow decides what to transcribe (app.py:85-95): the upload
    is copied to `temp_input.<ext>`, where `<ext>` is the text after the last
    dot of the uploaded file's name; an `mp4` upload has its audio track
    extracted by ffmpeg into `temp_audio.wav`, and every other upload is
    handed to the transcriber as it is. */
module Dispatch {
  import opened Text

  /** `uploaded_file.name.split('.')[-1]` (app.py:85). */
  function Extension(name: string): (ext: string)
    ensures '.' !in ext
    ensures '.' !in name ==> ext == name
    ensures '.' in name ==> EndsWith(name, "." + ext)
  {
    var ext := AfterLast(name, '.');
    assert '.' in name ==> name[|name| - |ext| - 1..] == ['.'] + name[|name| - |ext|..];
    ext
  }

  /** `f"temp_input.{ext}"`: where the upload is copied (app.py:86). */
  function TempInputName(ext: string): string {
    "temp_input." + ext
  }

  /** The default output path of `extract_audio_with_ffmpeg` (app.py:31). */
  const ExtractedAudioPath: string := "temp_audio.wav"

  /** What the transcriber is run on. */
  datatype Route =
    /** ffmpeg reads `input` and writes `output`, which is transcribed. */
    | Extract(input: string, output: string)
    /** The upload copy at `path` is transcribed as it is. */
    | Direct(path: string)
  {
    function AudioPath(): string {
      match this
      case Extract(_, output) => output
      case Direct(path) => path
    }
  }

  predicate EndsWith(s: string, suffix: string) {
    |suffix| <= |s| && s[|s| - |suffix|..] == suffix
  }

  /** The route for an upload named `name` (app.py:92-95). Extraction happens
      exactly for a name that ends in `.mp4` or is `mp4` itself (a name without
      a dot is its own extension); its input is the upload copy and its output
      the fixed file `temp_audio.wav`. */
  function RouteFor(name: string): (r: Route)
    ensures r.Extract? <==> name == "mp4" || EndsWith(name, ".mp4")
    ensures r.Extract? ==> r.input == TempInputName("mp4") && r.output == ExtractedAudioPath
    ensures r.Direct? ==> r.path == TempInputName(Extension(name)) && r.path != ExtractedAudioPath
  {
    var ext := Extension(name);
    Mp4Extension(name);
    var tempInput := TempInputName(ext);
    assert tempInput[5] != ExtractedAudioPath[5];
    if ext == "mp4" then Extract(tempInput, ExtractedAudioPath) else Direct(tempInput)
  }

  /** The extension is `mp4` exactly when the name is `mp4` or ends in `.mp4`;
      the comparison is case-sensitive, so `talk.MP4` is not extracted. */
  lemma Mp4Extension(name: string)
    ensures Extension(name) == "mp4" <==> name == "mp4" || EndsWith(name, ".mp4")
  {
    var ext := Extension(name);
    if EndsWith(name, ".mp4") {
      var x := name[..|name| - 4];
      assert name == x + ['.'] + "mp4";
      SplitConcat(x, "mp4", '.');
      assert Split("mp4", '.') == ["mp4"];
    }
    if ext == "mp4" && '.' in name {
      assert name[|name| - 4..] == ['.'] + name[|name| - 3..];
    }
  }

  /** Whatever precedes the last dot does not change the extension. */
  lemma ExtensionOfDotted(stem: string, ext: string)
    requires '.' !in ext
    ensures Extension(stem + "." + ext) == ext
  {
    SplitConcat(stem, ext, '.');
    SplitSpec(ext, '.');
    assert stem + "." + ext == stem + ['.'] + ext;
  }
}
