/** A line that starts with '$' but has no checksum trailer. */
module InvalidExample {
  import opened Sentences
  import opened Decoder
  import opened ExampleSupport

  const INVALID_RAW: string := "$not a valid sentence"

  lemma InvalidRaw() ensures IsRaw(INVALID_RAW) {}
  lemma InvalidBytes() ensures IsByteText(INVALID_RAW) {}
  lemma InvalidNoCr() ensures '\r' !in INVALID_RAW {}
  lemma InvalidNoTrailer() ensures '*' !in INVALID_RAW {}

  /** InvalidSentenceTest: the line is reported once, as invalid, with its text, and
      there is no typed event. */
  lemma InvalidSentenceReported()
    ensures DecodeSentence(INVALID_RAW) == InvalidSentence(INVALID_RAW)
    ensures IsByteText(INVALID_RAW + "\r\n") && Events(Bytes(INVALID_RAW + "\r\n")) == [InvalidSentence(INVALID_RAW)]
  {
    InvalidRaw();
    InvalidBytes();
    InvalidNoCr();
    InvalidNoTrailer();
    DecodeNoTrailer(INVALID_RAW);
    SentAlone(INVALID_RAW);
  }

  method InvalidSentenceTest() returns (events: seq<Event>)
    ensures events == [InvalidSentence(INVALID_RAW)]
  {
    InvalidSentenceReported();
    ConcatOne(Bytes(INVALID_RAW + "\r\n"));
    events := FeedInPieces([Bytes(INVALID_RAW + "\r\n")]);
  }
}
