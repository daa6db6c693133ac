/** The RMC sentence a receiver sends while still initializing: time 00:00:03, date 2002-11-10, status V, and an empty course field, which does not invalidate the sentence. */
module RmcExample {
  import opened Wrappers
  import opened TextConversions
  import opened Framing
  import opened Sentences
  import opened Decoder
  import opened ExampleSupport
  import opened Calendar

  const RMC_FIELDS: seq<string> := ["000003.000", "V", "36000.0000", "N", "72000.0000", "E", "0.000000", "", "101102", "", ""]
  const RMC_RAW: string := Sentence("GPRMC", RMC_FIELDS, "3A")

  lemma RmcJoin0() ensures Join(["GPRMC"], ',') == "GPRMC" {}
  lemma RmcWire0() ensures WireFields(["GPRMC"]) {}
  lemma RmcSum0() ensures Checksum("GPRMC") == 0x4b { CodeOfC(); CodeOfG(); CodeOfM(); CodeOfP(); CodeOfR(); }
  lemma RmcPart0() ensures Checksum(Join(["GPRMC"], ',')) == 0x4b && WireFields(["GPRMC"]) && |Join(["GPRMC"], ',')| == 5
  {
    RmcJoin0();
    RmcWire0();
    RmcSum0();
  }
  lemma RmcJoin1() ensures Join(["000003.000"], ',') == "000003.000" {}
  lemma RmcWire1() ensures WireFields(["000003.000"]) {}
  lemma RmcSum1a() ensures Checksum("00000") == 0x30 { CodeOfDigit0(); }
  lemma RmcSum1b() ensures Checksum("3.000") == 0x2d { CodeOfDot(); CodeOfDigit0(); CodeOfDigit3(); }
  lemma RmcSum1Spelling() ensures "000003.000" == "00000" + "3.000" {}
  lemma RmcSum1() ensures Checksum("000003.000") == 0x1d
  {
    RmcSum1Spelling();
    RmcSum1a();
    RmcSum1b();
    ChecksumAppend("00000", "3.000");
  }
  lemma RmcPart1() ensures Checksum(Join(["000003.000"], ',')) == 0x1d && WireFields(["000003.000"]) && |Join(["000003.000"], ',')| == 10
  {
    RmcJoin1();
    RmcWire1();
    RmcSum1();
  }
  lemma RmcJoin2() ensures Join(["V"], ',') == "V" {}
  lemma RmcWire2() ensures WireFields(["V"]) {}
  lemma RmcSum2() ensures Checksum("V") == 0x56 { CodeOfV(); }
  lemma RmcPart2() ensures Checksum(Join(["V"], ',')) == 0x56 && WireFields(["V"]) && |Join(["V"], ',')| == 1
  {
    RmcJoin2();
    RmcWire2();
    RmcSum2();
  }
  lemma RmcJoin3() ensures Join(["36000.0000"], ',') == "36000.0000" {}
  lemma RmcWire3() ensures WireFields(["36000.0000"]) {}
  lemma RmcSum3a() ensures Checksum("36000") == 0x35 { CodeOfDigit0(); CodeOfDigit3(); CodeOfDigit6(); }
  lemma RmcSum3b() ensures Checksum(".0000") == 0x2e { CodeOfDot(); CodeOfDigit0(); }
  lemma RmcSum3Spelling() ensures "36000.0000" == "36000" + ".0000" {}
  lemma RmcSum3() ensures Checksum("36000.0000") == 0x1b
  {
    RmcSum3Spelling();
    RmcSum3a();
    RmcSum3b();
    ChecksumAppend("36000", ".0000");
  }
  lemma RmcPart3() ensures Checksum(Join(["36000.0000"], ',')) == 0x1b && WireFields(["36000.0000"]) && |Join(["36000.0000"], ',')| == 10
  {
    RmcJoin3();
    RmcWire3();
    RmcSum3();
  }
  lemma RmcJoin4() ensures Join(["N"], ',') == "N" {}
  lemma RmcWire4() ensures WireFields(["N"]) {}
  lemma RmcSum4() ensures Checksum("N") == 0x4e { CodeOfN(); }
  lemma RmcPart4() ensures Checksum(Join(["N"], ',')) == 0x4e && WireFields(["N"]) && |Join(["N"], ',')| == 1
  {
    RmcJoin4();
    RmcWire4();
    RmcSum4();
  }
  lemma RmcJoin5() ensures Join(["72000.0000"], ',') == "72000.0000" {}
  lemma RmcWire5() ensures WireFields(["72000.0000"]) {}
  lemma RmcSum5a() ensures Checksum("72000") == 0x35 { CodeOfDigit0(); CodeOfDigit2(); CodeOfDigit7(); }
  lemma RmcSum5b() ensures Checksum(".0000") == 0x2e { CodeOfDot(); CodeOfDigit0(); }
  lemma RmcSum5Spelling() ensures "72000.0000" == "72000" + ".0000" {}
  lemma RmcSum5() ensures Checksum("72000.0000") == 0x1b
  {
    RmcSum5Spelling();
    RmcSum5a();
    RmcSum5b();
    ChecksumAppend("72000", ".0000");
  }
  lemma RmcPart5() ensures Checksum(Join(["72000.0000"], ',')) == 0x1b && WireFields(["72000.0000"]) && |Join(["72000.0000"], ',')| == 10
  {
    RmcJoin5();
    RmcWire5();
    RmcSum5();
  }
  lemma RmcJoin6() ensures Join(["E"], ',') == "E" {}
  lemma RmcWire6() ensures WireFields(["E"]) {}
  lemma RmcSum6() ensures Checksum("E") == 0x45 { CodeOfE(); }
  lemma RmcPart6() ensures Checksum(Join(["E"], ',')) == 0x45 && WireFields(["E"]) && |Join(["E"], ',')| == 1
  {
    RmcJoin6();
    RmcWire6();
    RmcSum6();
  }
  lemma RmcJoin7() ensures Join(["0.000000"], ',') == "0.000000" {}
  lemma RmcWire7() ensures WireFields(["0.000000"]) {}
  lemma RmcSum7() ensures Checksum("0.000000") == 0x1e { CodeOfDot(); CodeOfDigit0(); }
  lemma RmcPart7() ensures Checksum(Join(["0.000000"], ',')) == 0x1e && WireFields(["0.000000"]) && |Join(["0.000000"], ',')| == 8
  {
    RmcJoin7();
    RmcWire7();
    RmcSum7();
  }
  lemma RmcJoin8() ensures Join(["", "101102", ""], ',') == ",101102," {}
  lemma RmcWire8() ensures WireFields(["", "101102", ""]) {}
  lemma RmcSum8() ensures Checksum(",101102,") == 0x03 { CodeOfComma(); CodeOfDigit0(); CodeOfDigit1(); CodeOfDigit2(); }
  lemma RmcPart8() ensures Checksum(Join(["", "101102", ""], ',')) == 0x03 && WireFields(["", "101102", ""]) && |Join(["", "101102", ""], ',')| == 8
  {
    RmcJoin8();
    RmcWire8();
    RmcSum8();
  }
  lemma RmcJoin9() ensures Join([""], ',') == "" {}
  lemma RmcWire9() ensures WireFields([""]) {}
  lemma RmcSum9() ensures Checksum("") == 0x00 {  }
  lemma RmcPart9() ensures Checksum(Join([""], ',')) == 0x00 && WireFields([""]) && |Join([""], ',')| == 0
  {
    RmcJoin9();
    RmcWire9();
    RmcSum9();
  }
  lemma RmcGroups()
    ensures ["GPRMC"] + RMC_FIELDS == ["GPRMC"] + ["000003.000"] + ["V"] + ["36000.0000"] + ["N"] + ["72000.0000"] + ["E"] + ["0.000000"] + ["", "101102", ""] + [""]
  {
  }
  lemma RmcChecksum()
    ensures Checksum(Join(["GPRMC"] + RMC_FIELDS, ',')) == 0x3a
    ensures WireFields(["GPRMC"] + RMC_FIELDS)
    ensures |Join(["GPRMC"] + RMC_FIELDS, ',')| == 63
  {
    RmcGroups();
    RmcPart0();
    RmcPart1();
    ChecksumJoinAppend(["GPRMC"], ["000003.000"], 0x4b, 0x1d);
    WireFieldsAppend(["GPRMC"], ["000003.000"]);
    RmcPart2();
    ChecksumJoinAppend(["GPRMC"] + ["000003.000"], ["V"], 0x7a, 0x56);
    WireFieldsAppend(["GPRMC"] + ["000003.000"], ["V"]);
    RmcPart3();
    ChecksumJoinAppend(["GPRMC"] + ["000003.000"] + ["V"], ["36000.0000"], 0x00, 0x1b);
    WireFieldsAppend(["GPRMC"] + ["000003.000"] + ["V"], ["36000.0000"]);
    RmcPart4();
    ChecksumJoinAppend(["GPRMC"] + ["000003.000"] + ["V"] + ["36000.0000"], ["N"], 0x37, 0x4e);
    WireFieldsAppend(["GPRMC"] + ["000003.000"] + ["V"] + ["36000.0000"], ["N"]);
    RmcPart5();
    ChecksumJoinAppend(["GPRMC"] + ["000003.000"] + ["V"] + ["36000.0000"] + ["N"], ["72000.0000"], 0x55, 0x1b);
    WireFieldsAppend(["GPRMC"] + ["000003.000"] + ["V"] + ["36000.0000"] + ["N"], ["72000.0000"]);
    RmcPart6();
    ChecksumJoinAppend(["GPRMC"] + ["000003.000"] + ["V"] + ["36000.0000"] + ["N"] + ["72000.0000"], ["E"], 0x62, 0x45);
    WireFieldsAppend(["GPRMC"] + ["000003.000"] + ["V"] + ["36000.0000"] + ["N"] + ["72000.0000"], ["E"]);
    RmcPart7();
    ChecksumJoinAppend(["GPRMC"] + ["000003.000"] + ["V"] + ["36000.0000"] + ["N"] + ["72000.0000"] + ["E"], ["0.000000"], 0x0b, 0x1e);
    WireFieldsAppend(["GPRMC"] + ["000003.000"] + ["V"] + ["36000.0000"] + ["N"] + ["72000.0000"] + ["E"], ["0.000000"]);
    RmcPart8();
    ChecksumJoinAppend(["GPRMC"] + ["000003.000"] + ["V"] + ["36000.0000"] + ["N"] + ["72000.0000"] + ["E"] + ["0.000000"], ["", "101102", ""], 0x39, 0x03);
    WireFieldsAppend(["GPRMC"] + ["000003.000"] + ["V"] + ["36000.0000"] + ["N"] + ["72000.0000"] + ["E"] + ["0.000000"], ["", "101102", ""]);
    RmcPart9();
    ChecksumJoinAppend(["GPRMC"] + ["000003.000"] + ["V"] + ["36000.0000"] + ["N"] + ["72000.0000"] + ["E"] + ["0.000000"] + ["", "101102", ""], [""], 0x16, 0x00);
    WireFieldsAppend(["GPRMC"] + ["000003.000"] + ["V"] + ["36000.0000"] + ["N"] + ["72000.0000"] + ["E"] + ["0.000000"] + ["", "101102", ""], [""]);
  }
  lemma RmcTrailer() ensures ByteFromHex("3A") == Some(0x3a) && WireField("3A") {}
  lemma RmcHeader() ensures |"GPRMC"| == 5 && WireField("GPRMC") && "GPRMC"[2..5] == "RMC" { HeaderCode("GPRMC", "RMC"); }
  /** The header, fields and trailer are well framed: the trailer is the checksum. */
  lemma RmcFramed()
    ensures WellFramed("GPRMC", RMC_FIELDS, "3A") && "GPRMC"[2..5] == "RMC"
    ensures Checksum(Join(["GPRMC"] + RMC_FIELDS, ',')) == 0x3a
  {
    RmcChecksum();
    RmcTrailer();
    RmcHeader();
    WireFieldsTail("GPRMC", RMC_FIELDS);
  }
  lemma RmcIndexes() ensures |RMC_FIELDS| == 11 && RMC_FIELDS[0] == "000003.000" && RMC_FIELDS[1] == "V" && RMC_FIELDS[2] == "36000.0000" && RMC_FIELDS[3] == "N" && RMC_FIELDS[4] == "72000.0000" && RMC_FIELDS[5] == "E" && RMC_FIELDS[6] == "0.000000" && RMC_FIELDS[7] == "" && RMC_FIELDS[8] == "101102" && RMC_FIELDS[9] == "" && RMC_FIELDS[10] == "" {}
  lemma RmcLatitudeSpelling() ensures "36000.0000" == "36000" + "." + "0000" {}
  lemma RmcLatitudeWhole() ensures AllDigits("36000") && DigitsValue("36000") == 36000 {}
  lemma RmcLatitudeFraction() ensures AllDigits("0000") && DigitsValue("0000") == 0 && Pow10(4) == 10000 {}
  lemma RmcLatitudeParts() ensures ParseDecimal("36000" + "." + "0000") == Some(36000.0)
  {
    RmcLatitudeWhole();
    RmcLatitudeFraction();
    DecimalField("36000" + "." + "0000", "36000", "0000", 36000, 0, 10000);
  }
  lemma RmcLatitude() ensures ParseDecimal("36000.0000") == Some(36000.0)
  {
    RmcLatitudeParts();
    RmcLatitudeSpelling();
  }
  lemma RmcLongitudeSpelling() ensures "72000.0000" == "72000" + "." + "0000" {}
  lemma RmcLongitudeWhole() ensures AllDigits("72000") && DigitsValue("72000") == 72000 {}
  lemma RmcLongitudeFraction() ensures AllDigits("0000") && DigitsValue("0000") == 0 && Pow10(4) == 10000 {}
  lemma RmcLongitudeParts() ensures ParseDecimal("72000" + "." + "0000") == Some(72000.0)
  {
    RmcLongitudeWhole();
    RmcLongitudeFraction();
    DecimalField("72000" + "." + "0000", "72000", "0000", 72000, 0, 10000);
  }
  lemma RmcLongitude() ensures ParseDecimal("72000.0000") == Some(72000.0)
  {
    RmcLongitudeParts();
    RmcLongitudeSpelling();
  }
  lemma RmcSpeedSpelling() ensures "0.000000" == "0" + "." + "000000" {}
  lemma RmcSpeedWhole() ensures AllDigits("0") && DigitsValue("0") == 0 {}
  lemma RmcSpeedFraction() ensures AllDigits("000000") && DigitsValue("000000") == 0 && Pow10(6) == 1000000 {}
  lemma RmcSpeedParts() ensures ParseDecimal("0" + "." + "000000") == Some(0.0)
  {
    RmcSpeedWhole();
    RmcSpeedFraction();
    DecimalField("0" + "." + "000000", "0", "000000", 0, 0, 1000000);
  }
  lemma RmcSpeed() ensures ParseDecimal("0.000000") == Some(0.0)
  {
    RmcSpeedParts();
    RmcSpeedSpelling();
  }
  lemma RmcTimeCaptureSpelling() ensures ".000" == "" + "." + "000" {}
  lemma RmcTimeCaptureWhole() ensures AllDigits("") && DigitsValue("") == 0 {}
  lemma RmcTimeCaptureFraction() ensures AllDigits("000") && DigitsValue("000") == 0 && Pow10(3) == 1000 {}
  lemma RmcTimeCaptureParts() ensures ParseDecimal("" + "." + "000") == Some(0.0)
  {
    RmcTimeCaptureWhole();
    RmcTimeCaptureFraction();
    DecimalField("" + "." + "000", "", "000", 0, 0, 1000);
  }
  lemma RmcTimeCapture() ensures ParseDecimal(".000") == Some(0.0)
  {
    RmcTimeCaptureParts();
    RmcTimeCaptureSpelling();
  }
  lemma RmcTimeSpelling() ensures "000003.000" == "00" + "00" + "03" + ".000" && ".000"[1..] == "000" {}
  lemma RmcTimeDigits() ensures AllDigits("00") && AllDigits("00") && AllDigits("03") && AllDigits("000") {}
  lemma RmcTimeValues() ensures DigitsValue("00") == 0 && DigitsValue("00") == 0 && DigitsValue("03") == 3 {}
  lemma RmcTimeMillis() ensures 0.0 * 1000.0 == 0 as real && InInt32(0) {}
  lemma RmcTimeParts() ensures FieldTime("00" + "00" + "03" + ".000") == Some(3000)
  {
    RmcTimeCapture();
    RmcTimeSpelling();
    RmcTimeDigits();
    RmcTimeValues();
    RmcTimeMillis();
    TimeField("00" + "00" + "03" + ".000", "00", "00", "03", ".000", 0, 0, 3, 0.0, 0);
  }
  lemma RmcTime() ensures FieldTime("000003.000") == Some(3000)
  {
    RmcTimeParts();
    RmcTimeSpelling();
  }

  const RMC_DATE: CalendarDate := Date(2002, 11, 10)

  /** What the test expects: the date 2002-11-10, an empty course read as 0, status V. */
  const RMC_EVENT: Event := RMC(3000, 360.0, 720.0, 0.0, 0.0, RMC_DATE, "V")

  lemma RmcLatitudeDegrees() ensures CoordinateValue(36000.0, "N") == 360.0
  {
    CoordinateValueParts(360, 0.0, "N");
  }

  lemma RmcLatitudeField() ensures DecodeLatitude("36000.0000", "N") == Some(360.0)
  {
    RmcLatitude();
    RmcLatitudeDegrees();
  }

  lemma RmcLongitudeDegrees() ensures CoordinateValue(72000.0, "E") == 720.0
  {
    CoordinateValueParts(720, 0.0, "E");
  }

  lemma RmcLongitudeField() ensures DecodeLongitude("72000.0000", "E") == Some(720.0)
  {
    RmcLongitude();
    RmcLongitudeDegrees();
  }

  /** 101102 is the tenth of November 2002. */
  lemma RmcDateField()
    ensures DecodeDate("101102") == Some(RMC_DATE)
  {
    assert PadDigits(10, 2) == "10" && PadDigits(11, 2) == "11" && PadDigits(2, 2) == "02";
    assert PadDigits(RMC_DATE.day, 2) + PadDigits(RMC_DATE.month, 2) + PadDigits(RMC_DATE.year - 2000, 2) == "101102";
    DecodeDateRoundTrip(RMC_DATE);
  }

  lemma RmcCourse() ensures LexicalCastDefaultReal("", 0.0) == 0.0 {}

  lemma RmcFields()
    ensures DecodeRMC(RMC_FIELDS) == Some(RMC_EVENT)
  {
    RmcIndexes();
    RmcTime();
    RmcLatitudeField();
    RmcLongitudeField();
    RmcSpeed();
    RmcCourse();
    RmcDateField();
    DecodeRMCOf(RMC_FIELDS, 3000, 360.0, 720.0, 0.0, 0.0, RMC_DATE);
  }

  /** The initializing RMC sentence is reported as one RMC event. */
  lemma RmcSentence()
    ensures DecodeSentence(RMC_RAW) == RMC_EVENT
    ensures IsByteText(RMC_RAW + "\r\n") && Events(Bytes(RMC_RAW + "\r\n")) == [RMC_EVENT]
  {
    RmcFramed();
    RmcFields();
    FramedRMC("GPRMC", RMC_FIELDS, "3A", RMC_EVENT);
  }

  method UninitializedRmcTest() returns (events: seq<Event>)
    ensures events == [RMC_EVENT]
  {
    RmcSentence();
    ConcatOne(Bytes(RMC_RAW + "\r\n"));
    events := FeedInPieces([Bytes(RMC_RAW + "\r\n")]);
  }
}
