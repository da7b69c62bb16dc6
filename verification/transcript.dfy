/** The transcript produced by the speech-to-text stage: an ordered list of
    time-stamped text segments plus a language code.  Times are seconds. */
module Transcripts {

  datatype Segment = Segment(id: int, start: real, end: real, text: string, speaker: string)

  datatype Transcript = Transcript(language: string, segments: seq<Segment>)
}
