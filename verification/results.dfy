/** Outcomes of the operations whose Python counterparts can raise. */
module Results {

  /** The exceptions that can end a pass of the modelled code early. */
  datatype Error =
    /** `range(0, total_samples, 0)`: Python rejects a zero step with `ValueError`. */
    | ZeroRangeStep
    /** `torchaudio.load` found no file, or nothing it could decode, at this path. */
    | AudioLoadFailure(path: string)
    /** `subprocess.run` could not start ffmpeg (it is not installed, say) and
        raised. */
    | FfmpegLaunchFailure
    /** The text-generation call raised (a network or service error). */
    | GenerationFailure

  datatype Result<+T> = Success(value: T) | Failure(error: Error)

  datatype Option<+T> = None | Some(value: T)
}
