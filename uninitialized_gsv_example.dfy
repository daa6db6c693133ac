/** The GSV sentence a receiver sends while still initializing: one message, one satellite, prn 8, with zero elevation, azimuth and snr reported as values. */
module UninitializedGsvExample {
  import opened Wrappers
  import opened TextConversions
  import opened Framing
  import opened Sentences
  import opened Decoder
  import opened ExampleSupport

  const GSV1_FIELDS: seq<string> := ["1", "1", "1", "8", "0", "0", "0"]
  const GSV1_RAW: string := Sentence("GPGSV", GSV1_FIELDS, "40")

  lemma Gsv1Join0() ensures Join(["GPGSV", "1"], ',') == "GPGSV,1" {}
  lemma Gsv1Wire0() ensures WireFields(["GPGSV", "1"]) {}
  lemma Gsv1Sum0() ensures Checksum("GPGSV,1") == 0x48 { CodeOfComma(); CodeOfDigit1(); CodeOfG(); CodeOfP(); CodeOfS(); CodeOfV(); }
  lemma Gsv1Part0() ensures Checksum(Join(["GPGSV", "1"], ',')) == 0x48 && WireFields(["GPGSV", "1"]) && |Join(["GPGSV", "1"], ',')| == 7
  {
    Gsv1Join0();
    Gsv1Wire0();
    Gsv1Sum0();
  }
  lemma Gsv1Join1() ensures Join(["1", "1", "8"], ',') == "1,1,8" {}
  lemma Gsv1Wire1() ensures WireFields(["1", "1", "8"]) {}
  lemma Gsv1Sum1() ensures Checksum("1,1,8") == 0x38 { CodeOfComma(); CodeOfDigit1(); CodeOfDigit8(); }
  lemma Gsv1Part1() ensures Checksum(Join(["1", "1", "8"], ',')) == 0x38 && WireFields(["1", "1", "8"]) && |Join(["1", "1", "8"], ',')| == 5
  {
    Gsv1Join1();
    Gsv1Wire1();
    Gsv1Sum1();
  }
  lemma Gsv1Join2() ensures Join(["0", "0", "0"], ',') == "0,0,0" {}
  lemma Gsv1Wire2() ensures WireFields(["0", "0", "0"]) {}
  lemma Gsv1Sum2() ensures Checksum("0,0,0") == 0x30 { CodeOfComma(); CodeOfDigit0(); }
  lemma Gsv1Part2() ensures Checksum(Join(["0", "0", "0"], ',')) == 0x30 && WireFields(["0", "0", "0"]) && |Join(["0", "0", "0"], ',')| == 5
  {
    Gsv1Join2();
    Gsv1Wire2();
    Gsv1Sum2();
  }
  lemma Gsv1Groups()
    ensures ["GPGSV"] + GSV1_FIELDS == ["GPGSV", "1"] + ["1", "1", "8"] + ["0", "0", "0"]
  {
  }
  lemma Gsv1Checksum()
    ensures Checksum(Join(["GPGSV"] + GSV1_FIELDS, ',')) == 0x40
    ensures WireFields(["GPGSV"] + GSV1_FIELDS)
    ensures |Join(["GPGSV"] + GSV1_FIELDS, ',')| == 19
  {
    Gsv1Groups();
    Gsv1Part0();
    Gsv1Part1();
    ChecksumJoinAppend(["GPGSV", "1"], ["1", "1", "8"], 0x48, 0x38);
    WireFieldsAppend(["GPGSV", "1"], ["1", "1", "8"]);
    Gsv1Part2();
    ChecksumJoinAppend(["GPGSV", "1"] + ["1", "1", "8"], ["0", "0", "0"], 0x5c, 0x30);
    WireFieldsAppend(["GPGSV", "1"] + ["1", "1", "8"], ["0", "0", "0"]);
  }
  lemma Gsv1Trailer() ensures ByteFromHex("40") == Some(0x40) && WireField("40") {}
  lemma Gsv1Header() ensures |"GPGSV"| == 5 && WireField("GPGSV") && "GPGSV"[2..5] == "GSV" { HeaderCode("GPGSV", "GSV"); }
  /** The header, fields and trailer are well framed: the trailer is the checksum. */
  lemma Gsv1Framed()
    ensures WellFramed("GPGSV", GSV1_FIELDS, "40") && "GPGSV"[2..5] == "GSV"
    ensures Checksum(Join(["GPGSV"] + GSV1_FIELDS, ',')) == 0x40
  {
    Gsv1Checksum();
    Gsv1Trailer();
    Gsv1Header();
    WireFieldsTail("GPGSV", GSV1_FIELDS);
  }
  lemma Gsv1Indexes() ensures |GSV1_FIELDS| == 7 && GSV1_FIELDS[0] == "1" && GSV1_FIELDS[1] == "1" && GSV1_FIELDS[2] == "1" && GSV1_FIELDS[3] == "8" && GSV1_FIELDS[4] == "0" && GSV1_FIELDS[5] == "0" && GSV1_FIELDS[6] == "0" {}

  /** What the test expects: one tuple, prn 8, zeros kept as values. */
  const GSV1_EVENT: Event := GSV(1, 1, 1, [SatelliteInfo(8, 0, 0, 0)])

  lemma Gsv1Values() ensures ParseInt("1") == Some(1) && ParseInt("8") == Some(8) && LexicalCastDefault("0", 0) == 0 {}

  lemma Gsv1Tuples() ensures GSV1_FIELDS[3..] == ["8", "0", "0", "0"] {}

  lemma Gsv1Satellites() ensures DecodeSatellites(GSV1_FIELDS[3..]) == Some([SatelliteInfo(8, 0, 0, 0)])
  {
    Gsv1Values();
    Gsv1Tuples();
    DecodeSatellitesTuple(["8", "0", "0", "0"], [], SatelliteInfo(8, 0, 0, 0), []);
    assert DecodeSatellites(["8", "0", "0", "0"]) == Some([SatelliteInfo(8, 0, 0, 0)]);
  }

  lemma Gsv1Fields()
    ensures DecodeGSV(GSV1_FIELDS) == Some(GSV1_EVENT)
  {
    Gsv1Indexes();
    Gsv1Values();
    Gsv1Satellites();
    DecodeGSVOf(GSV1_FIELDS, 1, 1, 1, [SatelliteInfo(8, 0, 0, 0)]);
  }

  /** The initializing GSV sentence is reported as one GSV event. */
  lemma Gsv1Sentence()
    ensures DecodeSentence(GSV1_RAW) == GSV1_EVENT
    ensures IsByteText(GSV1_RAW + "\r\n") && Events(Bytes(GSV1_RAW + "\r\n")) == [GSV1_EVENT]
  {
    Gsv1Framed();
    Gsv1Fields();
    FramedGSV("GPGSV", GSV1_FIELDS, "40", GSV1_EVENT);
  }

  method UninitializedGsvTest() returns (events: seq<Event>)
    ensures events == [GSV1_EVENT]
  {
    Gsv1Sentence();
    ConcatOne(Bytes(GSV1_RAW + "\r\n"));
    events := FeedInPieces([Bytes(GSV1_RAW + "\r\n")]);
  }
}
