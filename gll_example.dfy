/** The GLL sentence a receiver sends while still initializing: 360 degrees north, 720 degrees east, status V. Values are not range-checked and the status is passed on. */
module GllExample {
  import opened Wrappers
  import opened TextConversions
  import opened Framing
  import opened Sentences
  import opened Decoder
  import opened ExampleSupport

  const GLL_FIELDS: seq<string> := ["36000.0000", "N", "72000.0000", "E", "000004.000", "V"]
  const GLL_RAW: string := Sentence("GPGLL", GLL_FIELDS, "17")

  lemma GllJoin0() ensures Join(["GPGLL"], ',') == "GPGLL" {}
  lemma GllWire0() ensures WireFields(["GPGLL"]) {}
  lemma GllSum0() ensures Checksum("GPGLL") == 0x50 { CodeOfG(); CodeOfL(); CodeOfP(); }
  lemma GllPart0() ensures Checksum(Join(["GPGLL"], ',')) == 0x50 && WireFields(["GPGLL"]) && |Join(["GPGLL"], ',')| == 5
  {
    GllJoin0();
    GllWire0();
    GllSum0();
  }
  lemma GllJoin1() ensures Join(["36000.0000"], ',') == "36000.0000" {}
  lemma GllWire1() ensures WireFields(["36000.0000"]) {}
  lemma GllSum1a() ensures Checksum("36000") == 0x35 { CodeOfDigit0(); CodeOfDigit3(); CodeOfDigit6(); }
  lemma GllSum1b() ensures Checksum(".0000") == 0x2e { CodeOfDot(); CodeOfDigit0(); }
  lemma GllSum1Spelling() ensures "36000.0000" == "36000" + ".0000" {}
  lemma GllSum1() ensures Checksum("36000.0000") == 0x1b
  {
    GllSum1Spelling();
    GllSum1a();
    GllSum1b();
    ChecksumAppend("36000", ".0000");
  }
  lemma GllPart1() ensures Checksum(Join(["36000.0000"], ',')) == 0x1b && WireFields(["36000.0000"]) && |Join(["36000.0000"], ',')| == 10
  {
    GllJoin1();
    GllWire1();
    GllSum1();
  }
  lemma GllJoin2() ensures Join(["N"], ',') == "N" {}
  lemma GllWire2() ensures WireFields(["N"]) {}
  lemma GllSum2() ensures Checksum("N") == 0x4e { CodeOfN(); }
  lemma GllPart2() ensures Checksum(Join(["N"], ',')) == 0x4e && WireFields(["N"]) && |Join(["N"], ',')| == 1
  {
    GllJoin2();
    GllWire2();
    GllSum2();
  }
  lemma GllJoin3() ensures Join(["72000.0000"], ',') == "72000.0000" {}
  lemma GllWire3() ensures WireFields(["72000.0000"]) {}
  lemma GllSum3a() ensures Checksum("72000") == 0x35 { CodeOfDigit0(); CodeOfDigit2(); CodeOfDigit7(); }
  lemma GllSum3b() ensures Checksum(".0000") == 0x2e { CodeOfDot(); CodeOfDigit0(); }
  lemma GllSum3Spelling() ensures "72000.0000" == "72000" + ".0000" {}
  lemma GllSum3() ensures Checksum("72000.0000") == 0x1b
  {
    GllSum3Spelling();
    GllSum3a();
    GllSum3b();
    ChecksumAppend("72000", ".0000");
  }
  lemma GllPart3() ensures Checksum(Join(["72000.0000"], ',')) == 0x1b && WireFields(["72000.0000"]) && |Join(["72000.0000"], ',')| == 10
  {
    GllJoin3();
    GllWire3();
    GllSum3();
  }
  lemma GllJoin4() ensures Join(["E"], ',') == "E" {}
  lemma GllWire4() ensures WireFields(["E"]) {}
  lemma GllSum4() ensures Checksum("E") == 0x45 { CodeOfE(); }
  lemma GllPart4() ensures Checksum(Join(["E"], ',')) == 0x45 && WireFields(["E"]) && |Join(["E"], ',')| == 1
  {
    GllJoin4();
    GllWire4();
    GllSum4();
  }
  lemma GllJoin5() ensures Join(["000004.000"], ',') == "000004.000" {}
  lemma GllWire5() ensures WireFields(["000004.000"]) {}
  lemma GllSum5a() ensures Checksum("00000") == 0x30 { CodeOfDigit0(); }
  lemma GllSum5b() ensures Checksum("4.000") == 0x2a { CodeOfDot(); CodeOfDigit0(); CodeOfDigit4(); }
  lemma GllSum5Spelling() ensures "000004.000" == "00000" + "4.000" {}
  lemma GllSum5() ensures Checksum("000004.000") == 0x1a
  {
    GllSum5Spelling();
    GllSum5a();
    GllSum5b();
    ChecksumAppend("00000", "4.000");
  }
  lemma GllPart5() ensures Checksum(Join(["000004.000"], ',')) == 0x1a && WireFields(["000004.000"]) && |Join(["000004.000"], ',')| == 10
  {
    GllJoin5();
    GllWire5();
    GllSum5();
  }
  lemma GllJoin6() ensures Join(["V"], ',') == "V" {}
  lemma GllWire6() ensures WireFields(["V"]) {}
  lemma GllSum6() ensures Checksum("V") == 0x56 { CodeOfV(); }
  lemma GllPart6() ensures Checksum(Join(["V"], ',')) == 0x56 && WireFields(["V"]) && |Join(["V"], ',')| == 1
  {
    GllJoin6();
    GllWire6();
    GllSum6();
  }
  lemma GllGroups()
    ensures ["GPGLL"] + GLL_FIELDS == ["GPGLL"] + ["36000.0000"] + ["N"] + ["72000.0000"] + ["E"] + ["000004.000"] + ["V"]
  {
  }
  lemma GllChecksum()
    ensures Checksum(Join(["GPGLL"] + GLL_FIELDS, ',')) == 0x17
    ensures WireFields(["GPGLL"] + GLL_FIELDS)
    ensures |Join(["GPGLL"] + GLL_FIELDS, ',')| == 44
  {
    GllGroups();
    GllPart0();
    GllPart1();
    ChecksumJoinAppend(["GPGLL"], ["36000.0000"], 0x50, 0x1b);
    WireFieldsAppend(["GPGLL"], ["36000.0000"]);
    GllPart2();
    ChecksumJoinAppend(["GPGLL"] + ["36000.0000"], ["N"], 0x67, 0x4e);
    WireFieldsAppend(["GPGLL"] + ["36000.0000"], ["N"]);
    GllPart3();
    ChecksumJoinAppend(["GPGLL"] + ["36000.0000"] + ["N"], ["72000.0000"], 0x05, 0x1b);
    WireFieldsAppend(["GPGLL"] + ["36000.0000"] + ["N"], ["72000.0000"]);
    GllPart4();
    ChecksumJoinAppend(["GPGLL"] + ["36000.0000"] + ["N"] + ["72000.0000"], ["E"], 0x32, 0x45);
    WireFieldsAppend(["GPGLL"] + ["36000.0000"] + ["N"] + ["72000.0000"], ["E"]);
    GllPart5();
    ChecksumJoinAppend(["GPGLL"] + ["36000.0000"] + ["N"] + ["72000.0000"] + ["E"], ["000004.000"], 0x5b, 0x1a);
    WireFieldsAppend(["GPGLL"] + ["36000.0000"] + ["N"] + ["72000.0000"] + ["E"], ["000004.000"]);
    GllPart6();
    ChecksumJoinAppend(["GPGLL"] + ["36000.0000"] + ["N"] + ["72000.0000"] + ["E"] + ["000004.000"], ["V"], 0x6d, 0x56);
    WireFieldsAppend(["GPGLL"] + ["36000.0000"] + ["N"] + ["72000.0000"] + ["E"] + ["000004.000"], ["V"]);
  }
  lemma GllTrailer() ensures ByteFromHex("17") == Some(0x17) && WireField("17") {}
  lemma GllHeader() ensures |"GPGLL"| == 5 && WireField("GPGLL") && "GPGLL"[2..5] == "GLL" { HeaderCode("GPGLL", "GLL"); }
  /** The header, fields and trailer are well framed: the trailer is the checksum. */
  lemma GllFramed()
    ensures WellFramed("GPGLL", GLL_FIELDS, "17") && "GPGLL"[2..5] == "GLL"
    ensures Checksum(Join(["GPGLL"] + GLL_FIELDS, ',')) == 0x17
  {
    GllChecksum();
    GllTrailer();
    GllHeader();
    WireFieldsTail("GPGLL", GLL_FIELDS);
  }
  lemma GllIndexes() ensures |GLL_FIELDS| == 6 && GLL_FIELDS[0] == "36000.0000" && GLL_FIELDS[1] == "N" && GLL_FIELDS[2] == "72000.0000" && GLL_FIELDS[3] == "E" && GLL_FIELDS[4] == "000004.000" && GLL_FIELDS[5] == "V" {}
  lemma GllLatitudeSpelling() ensures "36000.0000" == "36000" + "." + "0000" {}
  lemma GllLatitudeWhole() ensures AllDigits("36000") && DigitsValue("36000") == 36000 {}
  lemma GllLatitudeFraction() ensures AllDigits("0000") && DigitsValue("0000") == 0 && Pow10(4) == 10000 {}
  lemma GllLatitudeParts() ensures ParseDecimal("36000" + "." + "0000") == Some(36000.0)
  {
    GllLatitudeWhole();
    GllLatitudeFraction();
    DecimalField("36000" + "." + "0000", "36000", "0000", 36000, 0, 10000);
  }
  lemma GllLatitude() ensures ParseDecimal("36000.0000") == Some(36000.0)
  {
    GllLatitudeParts();
    GllLatitudeSpelling();
  }
  lemma GllLongitudeSpelling() ensures "72000.0000" == "72000" + "." + "0000" {}
  lemma GllLongitudeWhole() ensures AllDigits("72000") && DigitsValue("72000") == 72000 {}
  lemma GllLongitudeFraction() ensures AllDigits("0000") && DigitsValue("0000") == 0 && Pow10(4) == 10000 {}
  lemma GllLongitudeParts() ensures ParseDecimal("72000" + "." + "0000") == Some(72000.0)
  {
    GllLongitudeWhole();
    GllLongitudeFraction();
    DecimalField("72000" + "." + "0000", "72000", "0000", 72000, 0, 10000);
  }
  lemma GllLongitude() ensures ParseDecimal("72000.0000") == Some(72000.0)
  {
    GllLongitudeParts();
    GllLongitudeSpelling();
  }
  lemma GllTimeCaptureSpelling() ensures ".000" == "" + "." + "000" {}
  lemma GllTimeCaptureWhole() ensures AllDigits("") && DigitsValue("") == 0 {}
  lemma GllTimeCaptureFraction() ensures AllDigits("000") && DigitsValue("000") == 0 && Pow10(3) == 1000 {}
  lemma GllTimeCaptureParts() ensures ParseDecimal("" + "." + "000") == Some(0.0)
  {
    GllTimeCaptureWhole();
    GllTimeCaptureFraction();
    DecimalField("" + "." + "000", "", "000", 0, 0, 1000);
  }
  lemma GllTimeCapture() ensures ParseDecimal(".000") == Some(0.0)
  {
    GllTimeCaptureParts();
    GllTimeCaptureSpelling();
  }
  lemma GllTimeSpelling() ensures "000004.000" == "00" + "00" + "04" + ".000" && ".000"[1..] == "000" {}
  lemma GllTimeDigits() ensures AllDigits("00") && AllDigits("00") && AllDigits("04") && AllDigits("000") {}
  lemma GllTimeValues() ensures DigitsValue("00") == 0 && DigitsValue("00") == 0 && DigitsValue("04") == 4 {}
  lemma GllTimeMillis() ensures 0.0 * 1000.0 == 0 as real && InInt32(0) {}
  lemma GllTimeParts() ensures FieldTime("00" + "00" + "04" + ".000") == Some(4000)
  {
    GllTimeCapture();
    GllTimeSpelling();
    GllTimeDigits();
    GllTimeValues();
    GllTimeMillis();
    TimeField("00" + "00" + "04" + ".000", "00", "00", "04", ".000", 0, 0, 4, 0.0, 0);
  }
  lemma GllTime() ensures FieldTime("000004.000") == Some(4000)
  {
    GllTimeParts();
    GllTimeSpelling();
  }

  /** What the test expects: 360 and 720 degrees, status V passed on. */
  const GLL_EVENT: Event := GLL(4000, 360.0, 720.0, "V")

  lemma GllLatitudeDegrees() ensures CoordinateValue(36000.0, "N") == 360.0
  {
    CoordinateValueParts(360, 0.0, "N");
  }

  lemma GllLatitudeField() ensures DecodeLatitude("36000.0000", "N") == Some(360.0)
  {
    GllLatitude();
    GllLatitudeDegrees();
  }

  lemma GllLongitudeDegrees() ensures CoordinateValue(72000.0, "E") == 720.0
  {
    CoordinateValueParts(720, 0.0, "E");
  }

  lemma GllLongitudeField() ensures DecodeLongitude("72000.0000", "E") == Some(720.0)
  {
    GllLongitude();
    GllLongitudeDegrees();
  }

  lemma GllFields()
    ensures DecodeGLL(GLL_FIELDS) == Some(GLL_EVENT)
  {
    GllIndexes();
    GllLatitudeField();
    GllLongitudeField();
    GllTime();
    DecodeGLLOf(GLL_FIELDS, 360.0, 720.0, 4000);
  }

  /** The initializing GLL sentence is reported as one GLL event with status V. */
  lemma GllSentence()
    ensures DecodeSentence(GLL_RAW) == GLL_EVENT
    ensures IsByteText(GLL_RAW + "\r\n") && Events(Bytes(GLL_RAW + "\r\n")) == [GLL_EVENT]
  {
    GllFramed();
    GllFields();
    FramedGLL("GPGLL", GLL_FIELDS, "17", GLL_EVENT);
  }

  method UninitializedGllTest() returns (events: seq<Event>)
    ensures events == [GLL_EVENT]
  {
    GllSentence();
    ConcatOne(Bytes(GLL_RAW + "\r\n"));
    events := FeedInPieces([Bytes(GLL_RAW + "\r\n")]);
  }
}
