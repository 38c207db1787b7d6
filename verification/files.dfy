/** The local files the application writes and deletes, as a map from file name
    to an abstract description of what the file holds. Reading, writing and
    deleting real files is not modelled; only which names exist and what was
    last written to each. */
module Files {
  import opened Chunking

  /** What a file holds, as far as the model needs. */
  datatype Blob =
    /** The bytes of the uploaded recording (app.py:88-89). */
    | Upload(content: seq<bv8>)
    /** What ffmpeg wrote when extracting the audio track of `content`
        (app.py:31-42). */
    | ExtractedAudio(content: seq<bv8>)
    /** One window of the recording, written by `torchaudio.save` at `rate`
        samples per second (app.py:53). */
    | ChunkWav(window: Window, rate: nat)

  type FileSystem = map<string, Blob>

  /** What `torchaudio.load` reports for a decodable file: the number of samples
      per channel (`audio.shape[1]`) and the sample rate. */
  datatype AudioShape = AudioShape(samples: nat, rate: nat)
}
