/** The fallbacks of `transcribe_from_video`: every failure and every quiet
    recording becomes the empty transcription. pydub decoding and Google's
    recogniser are abstracted into their outcomes. */
module Transcription {

  /** The loudness pydub reports; a silent track has -infinity dBFS. */
  datatype Loudness = Silence | DBFS(value: real)

  /** What `recognize_google` did with the recording. */
  datatype Recognition =
    | Recognized(text: string)  // returned a transcription
    | UnknownValue              // `sr.UnknownValueError`: no speech recognised
    | RequestFailed             // `sr.RequestError`: the service call failed
    | OtherError                // anything else raised, caught by the outer handler

  /** The audio track: decoding or exporting raised, or it has a loudness and
      a recognition outcome. */
  datatype Audio = Undecodable | Decoded(loudness: Loudness, recognition: Recognition)

  /** Below -60 dBFS the recording counts as silent. */
  const SilenceThreshold: real := -60.0

  predicate TooQuiet(loudness: Loudness) {
    match loudness
    case Silence => true
    case DBFS(v) => v < SilenceThreshold
  }

  /** `transcribe_from_video`: it never raises; a non-empty result is exactly
      the recogniser's text for a decodable recording at -60 dBFS or louder. */
  function Transcribe(audio: Audio): (t: string)
    ensures t != [] ==> audio.Decoded? && !TooQuiet(audio.loudness) && audio.recognition == Recognized(t)
    ensures audio.Decoded? && !TooQuiet(audio.loudness) && audio.recognition.Recognized? ==>
              t == audio.recognition.text
    ensures audio.Undecodable? || TooQuiet(audio.loudness) || !audio.recognition.Recognized? ==> t == []
  {
    match audio
    case Undecodable => ""
    case Decoded(loudness, recognition) =>
      if TooQuiet(loudness) then ""
      else match recognition
        case Recognized(text) => text
        case UnknownValue => ""
        case RequestFailed => ""
        case OtherError => ""
  }
}
