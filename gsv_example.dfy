/** The first of three GSV sentences, ten satellites in view: it reports its own four tuples, in field order, and nothing of the other two sentences. */
module GsvExample {
  import opened Wrappers
  import opened TextConversions
  import opened Framing
  import opened Sentences
  import opened Decoder
  import opened ExampleSupport

  const GSV_FIELDS: seq<string> := ["3", "1", "10", "18", "62", "311", "37", "15", "47", "49", "40", "14", "16", "218", "30", "29", "11", "186", "28"]
  const GSV_RAW: string := Sentence("GPGSV", GSV_FIELDS, "4A")

  lemma GsvJoin0() ensures Join(["GPGSV", "3"], ',') == "GPGSV,3" {}
  lemma GsvWire0() ensures WireFields(["GPGSV", "3"]) {}
  lemma GsvSum0() ensures Checksum("GPGSV,3") == 0x4a { CodeOfComma(); CodeOfDigit3(); CodeOfG(); CodeOfP(); CodeOfS(); CodeOfV(); }
  lemma GsvPart0() ensures Checksum(Join(["GPGSV", "3"], ',')) == 0x4a && WireFields(["GPGSV", "3"]) && |Join(["GPGSV", "3"], ',')| == 7
  {
    GsvJoin0();
    GsvWire0();
    GsvSum0();
  }
  lemma GsvJoin1() ensures Join(["1", "10", "18"], ',') == "1,10,18" {}
  lemma GsvWire1() ensures WireFields(["1", "10", "18"]) {}
  lemma GsvSum1() ensures Checksum("1,10,18") == 0x39 { CodeOfComma(); CodeOfDigit0(); CodeOfDigit1(); CodeOfDigit8(); }
  lemma GsvPart1() ensures Checksum(Join(["1", "10", "18"], ',')) == 0x39 && WireFields(["1", "10", "18"]) && |Join(["1", "10", "18"], ',')| == 7
  {
    GsvJoin1();
    GsvWire1();
    GsvSum1();
  }
  lemma GsvJoin2() ensures Join(["62", "311"], ',') == "62,311" {}
  lemma GsvWire2() ensures WireFields(["62", "311"]) {}
  lemma GsvSum2() ensures Checksum("62,311") == 0x1b { CodeOfComma(); CodeOfDigit1(); CodeOfDigit2(); CodeOfDigit3(); CodeOfDigit6(); }
  lemma GsvPart2() ensures Checksum(Join(["62", "311"], ',')) == 0x1b && WireFields(["62", "311"]) && |Join(["62", "311"], ',')| == 6
  {
    GsvJoin2();
    GsvWire2();
    GsvSum2();
  }
  lemma GsvJoin3() ensures Join(["37", "15", "47"], ',') == "37,15,47" {}
  lemma GsvWire3() ensures WireFields(["37", "15", "47"]) {}
  lemma GsvSum3() ensures Checksum("37,15,47") == 0x03 { CodeOfComma(); CodeOfDigit1(); CodeOfDigit3(); CodeOfDigit4(); CodeOfDigit5(); CodeOfDigit7(); }
  lemma GsvPart3() ensures Checksum(Join(["37", "15", "47"], ',')) == 0x03 && WireFields(["37", "15", "47"]) && |Join(["37", "15", "47"], ',')| == 8
  {
    GsvJoin3();
    GsvWire3();
    GsvSum3();
  }
  lemma GsvJoin4() ensures Join(["49", "40", "14"], ',') == "49,40,14" {}
  lemma GsvWire4() ensures WireFields(["49", "40", "14"]) {}
  lemma GsvSum4() ensures Checksum("49,40,14") == 0x0c { CodeOfComma(); CodeOfDigit0(); CodeOfDigit1(); CodeOfDigit4(); CodeOfDigit9(); }
  lemma GsvPart4() ensures Checksum(Join(["49", "40", "14"], ',')) == 0x0c && WireFields(["49", "40", "14"]) && |Join(["49", "40", "14"], ',')| == 8
  {
    GsvJoin4();
    GsvWire4();
    GsvSum4();
  }
  lemma GsvJoin5() ensures Join(["16", "218"], ',') == "16,218" {}
  lemma GsvWire5() ensures WireFields(["16", "218"]) {}
  lemma GsvSum5() ensures Checksum("16,218") == 0x10 { CodeOfComma(); CodeOfDigit1(); CodeOfDigit2(); CodeOfDigit6(); CodeOfDigit8(); }
  lemma GsvPart5() ensures Checksum(Join(["16", "218"], ',')) == 0x10 && WireFields(["16", "218"]) && |Join(["16", "218"], ',')| == 6
  {
    GsvJoin5();
    GsvWire5();
    GsvSum5();
  }
  lemma GsvJoin6() ensures Join(["30", "29", "11"], ',') == "30,29,11" {}
  lemma GsvWire6() ensures WireFields(["30", "29", "11"]) {}
  lemma GsvSum6() ensures Checksum("30,29,11") == 0x08 { CodeOfComma(); CodeOfDigit0(); CodeOfDigit1(); CodeOfDigit2(); CodeOfDigit3(); CodeOfDigit9(); }
  lemma GsvPart6() ensures Checksum(Join(["30", "29", "11"], ',')) == 0x08 && WireFields(["30", "29", "11"]) && |Join(["30", "29", "11"], ',')| == 8
  {
    GsvJoin6();
    GsvWire6();
    GsvSum6();
  }
  lemma GsvJoin7() ensures Join(["186", "28"], ',') == "186,28" {}
  lemma GsvWire7() ensures WireFields(["186", "28"]) {}
  lemma GsvSum7() ensures Checksum("186,28") == 0x19 { CodeOfComma(); CodeOfDigit1(); CodeOfDigit2(); CodeOfDigit6(); CodeOfDigit8(); }
  lemma GsvPart7() ensures Checksum(Join(["186", "28"], ',')) == 0x19 && WireFields(["186", "28"]) && |Join(["186", "28"], ',')| == 6
  {
    GsvJoin7();
    GsvWire7();
    GsvSum7();
  }
  lemma GsvGroups()
    ensures ["GPGSV"] + GSV_FIELDS == ["GPGSV", "3"] + ["1", "10", "18"] + ["62", "311"] + ["37", "15", "47"] + ["49", "40", "14"] + ["16", "218"] + ["30", "29", "11"] + ["186", "28"]
  {
  }
  lemma GsvChecksum()
    ensures Checksum(Join(["GPGSV"] + GSV_FIELDS, ',')) == 0x4a
    ensures WireFields(["GPGSV"] + GSV_FIELDS)
    ensures |Join(["GPGSV"] + GSV_FIELDS, ',')| == 63
  {
    GsvGroups();
    GsvPart0();
    GsvPart1();
    ChecksumJoinAppend(["GPGSV", "3"], ["1", "10", "18"], 0x4a, 0x39);
    WireFieldsAppend(["GPGSV", "3"], ["1", "10", "18"]);
    GsvPart2();
    ChecksumJoinAppend(["GPGSV", "3"] + ["1", "10", "18"], ["62", "311"], 0x5f, 0x1b);
    WireFieldsAppend(["GPGSV", "3"] + ["1", "10", "18"], ["62", "311"]);
    GsvPart3();
    ChecksumJoinAppend(["GPGSV", "3"] + ["1", "10", "18"] + ["62", "311"], ["37", "15", "47"], 0x68, 0x03);
    WireFieldsAppend(["GPGSV", "3"] + ["1", "10", "18"] + ["62", "311"], ["37", "15", "47"]);
    GsvPart4();
    ChecksumJoinAppend(["GPGSV", "3"] + ["1", "10", "18"] + ["62", "311"] + ["37", "15", "47"], ["49", "40", "14"], 0x47, 0x0c);
    WireFieldsAppend(["GPGSV", "3"] + ["1", "10", "18"] + ["62", "311"] + ["37", "15", "47"], ["49", "40", "14"]);
    GsvPart5();
    ChecksumJoinAppend(["GPGSV", "3"] + ["1", "10", "18"] + ["62", "311"] + ["37", "15", "47"] + ["49", "40", "14"], ["16", "218"], 0x67, 0x10);
    WireFieldsAppend(["GPGSV", "3"] + ["1", "10", "18"] + ["62", "311"] + ["37", "15", "47"] + ["49", "40", "14"], ["16", "218"]);
    GsvPart6();
    ChecksumJoinAppend(["GPGSV", "3"] + ["1", "10", "18"] + ["62", "311"] + ["37", "15", "47"] + ["49", "40", "14"] + ["16", "218"], ["30", "29", "11"], 0x5b, 0x08);
    WireFieldsAppend(["GPGSV", "3"] + ["1", "10", "18"] + ["62", "311"] + ["37", "15", "47"] + ["49", "40", "14"] + ["16", "218"], ["30", "29", "11"]);
    GsvPart7();
    ChecksumJoinAppend(["GPGSV", "3"] + ["1", "10", "18"] + ["62", "311"] + ["37", "15", "47"] + ["49", "40", "14"] + ["16", "218"] + ["30", "29", "11"], ["186", "28"], 0x7f, 0x19);
    WireFieldsAppend(["GPGSV", "3"] + ["1", "10", "18"] + ["62", "311"] + ["37", "15", "47"] + ["49", "40", "14"] + ["16", "218"] + ["30", "29", "11"], ["186", "28"]);
  }
  lemma GsvTrailer() ensures ByteFromHex("4A") == Some(0x4a) && WireField("4A") {}
  lemma GsvHeader() ensures |"GPGSV"| == 5 && WireField("GPGSV") && "GPGSV"[2..5] == "GSV" { HeaderCode("GPGSV", "GSV"); }
  /** The header, fields and trailer are well framed: the trailer is the checksum. */
  lemma GsvFramed()
    ensures WellFramed("GPGSV", GSV_FIELDS, "4A") && "GPGSV"[2..5] == "GSV"
    ensures Checksum(Join(["GPGSV"] + GSV_FIELDS, ',')) == 0x4a
  {
    GsvChecksum();
    GsvTrailer();
    GsvHeader();
    WireFieldsTail("GPGSV", GSV_FIELDS);
  }
  lemma GsvIndexes() ensures |GSV_FIELDS| == 19 && GSV_FIELDS[0] == "3" && GSV_FIELDS[1] == "1" && GSV_FIELDS[2] == "10" && GSV_FIELDS[3] == "18" && GSV_FIELDS[4] == "62" && GSV_FIELDS[5] == "311" && GSV_FIELDS[6] == "37" && GSV_FIELDS[7] == "15" && GSV_FIELDS[8] == "47" && GSV_FIELDS[9] == "49" && GSV_FIELDS[10] == "40" && GSV_FIELDS[11] == "14" && GSV_FIELDS[12] == "16" && GSV_FIELDS[13] == "218" && GSV_FIELDS[14] == "30" && GSV_FIELDS[15] == "29" && GSV_FIELDS[16] == "11" && GSV_FIELDS[17] == "186" && GSV_FIELDS[18] == "28" {}

  const GSV_SATELLITES: seq<SatelliteInfo> :=
    [SatelliteInfo(18, 62, 311, 37), SatelliteInfo(15, 47, 49, 40),
     SatelliteInfo(14, 16, 218, 30), SatelliteInfo(29, 11, 186, 28)]

  /** What the test expects: this sentence's totals and its four tuples, in order. */
  const GSV_EVENT: Event := GSV(3, 1, 10, GSV_SATELLITES)

  lemma GsvTotals() ensures ParseInt("3") == Some(3) && ParseInt("1") == Some(1) && ParseInt("10") == Some(10) {}

  lemma GsvTuple0() ensures ParseInt("18") == Some(18) && LexicalCastDefault("62", 0) == 62 && LexicalCastDefault("311", 0) == 311 && LexicalCastDefault("37", 0) == 37 {}
  lemma GsvTuple1() ensures ParseInt("15") == Some(15) && LexicalCastDefault("47", 0) == 47 && LexicalCastDefault("49", 0) == 49 && LexicalCastDefault("40", 0) == 40 {}
  lemma GsvTuple2() ensures ParseInt("14") == Some(14) && LexicalCastDefault("16", 0) == 16 && LexicalCastDefault("218", 0) == 218 && LexicalCastDefault("30", 0) == 30 {}
  lemma GsvTuple3() ensures ParseInt("29") == Some(29) && LexicalCastDefault("11", 0) == 11 && LexicalCastDefault("186", 0) == 186 && LexicalCastDefault("28", 0) == 28 {}

  const GSV_TUPLE0: seq<string> := ["18", "62", "311", "37"]
  const GSV_TUPLE1: seq<string> := ["15", "47", "49", "40"]
  const GSV_TUPLE2: seq<string> := ["14", "16", "218", "30"]
  const GSV_TUPLE3: seq<string> := ["29", "11", "186", "28"]

  lemma GsvTuples()
    ensures GSV_FIELDS[3..] == GSV_TUPLE0 + (GSV_TUPLE1 + (GSV_TUPLE2 + GSV_TUPLE3))
  {
  }

  lemma GsvSatellites3() ensures DecodeSatellites(GSV_TUPLE3) == Some(GSV_SATELLITES[3..])
  {
    GsvTuple3();
    DecodeSatellitesTuple(GSV_TUPLE3, [], GSV_SATELLITES[3], []);
  }

  lemma GsvSatellites2() ensures DecodeSatellites(GSV_TUPLE2 + GSV_TUPLE3) == Some(GSV_SATELLITES[2..])
  {
    GsvTuple2();
    GsvSatellites3();
    DecodeSatellitesTuple(GSV_TUPLE2, GSV_TUPLE3, GSV_SATELLITES[2], GSV_SATELLITES[3..]);
    assert [GSV_SATELLITES[2]] + GSV_SATELLITES[3..] == GSV_SATELLITES[2..];
  }

  lemma GsvSatellites1() ensures DecodeSatellites(GSV_TUPLE1 + (GSV_TUPLE2 + GSV_TUPLE3)) == Some(GSV_SATELLITES[1..])
  {
    GsvTuple1();
    GsvSatellites2();
    DecodeSatellitesTuple(GSV_TUPLE1, GSV_TUPLE2 + GSV_TUPLE3, GSV_SATELLITES[1], GSV_SATELLITES[2..]);
    assert [GSV_SATELLITES[1]] + GSV_SATELLITES[2..] == GSV_SATELLITES[1..];
  }

  lemma GsvSatellites() ensures DecodeSatellites(GSV_FIELDS[3..]) == Some(GSV_SATELLITES)
  {
    GsvTuples();
    GsvTuple0();
    GsvSatellites1();
    DecodeSatellitesTuple(GSV_TUPLE0, GSV_TUPLE1 + (GSV_TUPLE2 + GSV_TUPLE3), GSV_SATELLITES[0], GSV_SATELLITES[1..]);
    assert [GSV_SATELLITES[0]] + GSV_SATELLITES[1..] == GSV_SATELLITES;
  }

  lemma GsvFields()
    ensures DecodeGSV(GSV_FIELDS) == Some(GSV_EVENT)
  {
    GsvIndexes();
    GsvTotals();
    GsvSatellites();
    DecodeGSVOf(GSV_FIELDS, 3, 1, 10, GSV_SATELLITES);
  }

  /** The GSV sentence is reported as one GSV event with four tuples. */
  lemma GsvSentence()
    ensures DecodeSentence(GSV_RAW) == GSV_EVENT
    ensures IsByteText(GSV_RAW + "\r\n") && Events(Bytes(GSV_RAW + "\r\n")) == [GSV_EVENT]
  {
    GsvFramed();
    GsvFields();
    FramedGSV("GPGSV", GSV_FIELDS, "4A", GSV_EVENT);
  }

  method GsvTest() returns (events: seq<Event>)
    ensures events == [GSV_EVENT]
  {
    GsvSentence();
    ConcatOne(Bytes(GSV_RAW + "\r\n"));
    events := FeedInPieces([Bytes(GSV_RAW + "\r\n")]);
  }
}
