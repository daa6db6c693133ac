/** A GGA fix at 19:16:30.609, 38 degrees 48.2905 minutes north, 90 degrees 18.4239 minutes west, quality 1 with six satellites, sent alone and behind noise. */
module GgaExample {
  import opened Wrappers
  import opened TextConversions
  import opened Framing
  import opened Sentences
  import opened Decoder
  import opened ExampleSupport

  const GGA_FIELDS: seq<string> := ["191630.609", "3848.2905", "N", "09018.4239", "W", "1", "06", "1.3", "132.0", "M", "-33.7", "M", "0.0", "0000"]
  const GGA_RAW: string := Sentence("GPGGA", GGA_FIELDS, "48")

  lemma GgaJoin0() ensures Join(["GPGGA"], ',') == "GPGGA" {}
  lemma GgaWire0() ensures WireFields(["GPGGA"]) {}
  lemma GgaSum0() ensures Checksum("GPGGA") == 0x56 { CodeOfA(); CodeOfG(); CodeOfP(); }
  lemma GgaPart0() ensures Checksum(Join(["GPGGA"], ',')) == 0x56 && WireFields(["GPGGA"]) && |Join(["GPGGA"], ',')| == 5
  {
    GgaJoin0();
    GgaWire0();
    GgaSum0();
  }
  lemma GgaJoin1() ensures Join(["191630.609"], ',') == "191630.609" {}
  lemma GgaWire1() ensures WireFields(["191630.609"]) {}
  lemma GgaSum1a() ensures Checksum("19163") == 0x3c { CodeOfDigit1(); CodeOfDigit3(); CodeOfDigit6(); CodeOfDigit9(); }
  lemma GgaSum1b() ensures Checksum("0.609") == 0x21 { CodeOfDot(); CodeOfDigit0(); CodeOfDigit6(); CodeOfDigit9(); }
  lemma GgaSum1Spelling() ensures "191630.609" == "19163" + "0.609" {}
  lemma GgaSum1() ensures Checksum("191630.609") == 0x1d
  {
    GgaSum1Spelling();
    GgaSum1a();
    GgaSum1b();
    ChecksumAppend("19163", "0.609");
  }
  lemma GgaPart1() ensures Checksum(Join(["191630.609"], ',')) == 0x1d && WireFields(["191630.609"]) && |Join(["191630.609"], ',')| == 10
  {
    GgaJoin1();
    GgaWire1();
    GgaSum1();
  }
  lemma GgaJoin2() ensures Join(["3848.2905"], ',') == "3848.2905" {}
  lemma GgaWire2() ensures WireFields(["3848.2905"]) {}
  lemma GgaSum2a() ensures Checksum("3848") == 0x07 { CodeOfDigit3(); CodeOfDigit4(); CodeOfDigit8(); }
  lemma GgaSum2b() ensures Checksum(".2905") == 0x20 { CodeOfDot(); CodeOfDigit0(); CodeOfDigit2(); CodeOfDigit5(); CodeOfDigit9(); }
  lemma GgaSum2Spelling() ensures "3848.2905" == "3848" + ".2905" {}
  lemma GgaSum2() ensures Checksum("3848.2905") == 0x27
  {
    GgaSum2Spelling();
    GgaSum2a();
    GgaSum2b();
    ChecksumAppend("3848", ".2905");
  }
  lemma GgaPart2() ensures Checksum(Join(["3848.2905"], ',')) == 0x27 && WireFields(["3848.2905"]) && |Join(["3848.2905"], ',')| == 9
  {
    GgaJoin2();
    GgaWire2();
    GgaSum2();
  }
  lemma GgaJoin3() ensures Join(["N"], ',') == "N" {}
  lemma GgaWire3() ensures WireFields(["N"]) {}
  lemma GgaSum3() ensures Checksum("N") == 0x4e { CodeOfN(); }
  lemma GgaPart3() ensures Checksum(Join(["N"], ',')) == 0x4e && WireFields(["N"]) && |Join(["N"], ',')| == 1
  {
    GgaJoin3();
    GgaWire3();
    GgaSum3();
  }
  lemma GgaJoin4() ensures Join(["09018.4239"], ',') == "09018.4239" {}
  lemma GgaWire4() ensures WireFields(["09018.4239"]) {}
  lemma GgaSum4a() ensures Checksum("09018") == 0x30 { CodeOfDigit0(); CodeOfDigit1(); CodeOfDigit8(); CodeOfDigit9(); }
  lemma GgaSum4b() ensures Checksum(".4239") == 0x22 { CodeOfDot(); CodeOfDigit2(); CodeOfDigit3(); CodeOfDigit4(); CodeOfDigit9(); }
  lemma GgaSum4Spelling() ensures "09018.4239" == "09018" + ".4239" {}
  lemma GgaSum4() ensures Checksum("09018.4239") == 0x12
  {
    GgaSum4Spelling();
    GgaSum4a();
    GgaSum4b();
    ChecksumAppend("09018", ".4239");
  }
  lemma GgaPart4() ensures Checksum(Join(["09018.4239"], ',')) == 0x12 && WireFields(["09018.4239"]) && |Join(["09018.4239"], ',')| == 10
  {
    GgaJoin4();
    GgaWire4();
    GgaSum4();
  }
  lemma GgaJoin5() ensures Join(["W", "1", "06"], ',') == "W,1,06" {}
  lemma GgaWire5() ensures WireFields(["W", "1", "06"]) {}
  lemma GgaSum5() ensures Checksum("W,1,06") == 0x60 { CodeOfComma(); CodeOfDigit0(); CodeOfDigit1(); CodeOfDigit6(); CodeOfW(); }
  lemma GgaPart5() ensures Checksum(Join(["W", "1", "06"], ',')) == 0x60 && WireFields(["W", "1", "06"]) && |Join(["W", "1", "06"], ',')| == 6
  {
    GgaJoin5();
    GgaWire5();
    GgaSum5();
  }
  lemma GgaJoin6() ensures Join(["1.3"], ',') == "1.3" {}
  lemma GgaWire6() ensures WireFields(["1.3"]) {}
  lemma GgaSum6() ensures Checksum("1.3") == 0x2c { CodeOfDot(); CodeOfDigit1(); CodeOfDigit3(); }
  lemma GgaPart6() ensures Checksum(Join(["1.3"], ',')) == 0x2c && WireFields(["1.3"]) && |Join(["1.3"], ',')| == 3
  {
    GgaJoin6();
    GgaWire6();
    GgaSum6();
  }
  lemma GgaJoin7() ensures Join(["132.0", "M"], ',') == "132.0,M" {}
  lemma GgaWire7() ensures WireFields(["132.0", "M"]) {}
  lemma GgaSum7() ensures Checksum("132.0,M") == 0x4f { CodeOfComma(); CodeOfDot(); CodeOfDigit0(); CodeOfDigit1(); CodeOfDigit2(); CodeOfDigit3(); CodeOfM(); }
  lemma GgaPart7() ensures Checksum(Join(["132.0", "M"], ',')) == 0x4f && WireFields(["132.0", "M"]) && |Join(["132.0", "M"], ',')| == 7
  {
    GgaJoin7();
    GgaWire7();
    GgaSum7();
  }
  lemma GgaJoin8() ensures Join(["-33.7", "M"], ',') == "-33.7,M" {}
  lemma GgaWire8() ensures WireFields(["-33.7", "M"]) {}
  lemma GgaSum8() ensures Checksum("-33.7,M") == 0x55 { CodeOfComma(); CodeOfMinus(); CodeOfDot(); CodeOfDigit3(); CodeOfDigit7(); CodeOfM(); }
  lemma GgaPart8() ensures Checksum(Join(["-33.7", "M"], ',')) == 0x55 && WireFields(["-33.7", "M"]) && |Join(["-33.7", "M"], ',')| == 7
  {
    GgaJoin8();
    GgaWire8();
    GgaSum8();
  }
  lemma GgaJoin9() ensures Join(["0.0", "0000"], ',') == "0.0,0000" {}
  lemma GgaWire9() ensures WireFields(["0.0", "0000"]) {}
  lemma GgaSum9() ensures Checksum("0.0,0000") == 0x02 { CodeOfComma(); CodeOfDot(); CodeOfDigit0(); }
  lemma GgaPart9() ensures Checksum(Join(["0.0", "0000"], ',')) == 0x02 && WireFields(["0.0", "0000"]) && |Join(["0.0", "0000"], ',')| == 8
  {
    GgaJoin9();
    GgaWire9();
    GgaSum9();
  }
  lemma GgaGroups()
    ensures ["GPGGA"] + GGA_FIELDS == ["GPGGA"] + ["191630.609"] + ["3848.2905"] + ["N"] + ["09018.4239"] + ["W", "1", "06"] + ["1.3"] + ["132.0", "M"] + ["-33.7", "M"] + ["0.0", "0000"]
  {
  }
  lemma GgaChecksum()
    ensures Checksum(Join(["GPGGA"] + GGA_FIELDS, ',')) == 0x48
    ensures WireFields(["GPGGA"] + GGA_FIELDS)
    ensures |Join(["GPGGA"] + GGA_FIELDS, ',')| == 75
  {
    GgaGroups();
    GgaPart0();
    GgaPart1();
    ChecksumJoinAppend(["GPGGA"], ["191630.609"], 0x56, 0x1d);
    WireFieldsAppend(["GPGGA"], ["191630.609"]);
    GgaPart2();
    ChecksumJoinAppend(["GPGGA"] + ["191630.609"], ["3848.2905"], 0x67, 0x27);
    WireFieldsAppend(["GPGGA"] + ["191630.609"], ["3848.2905"]);
    GgaPart3();
    ChecksumJoinAppend(["GPGGA"] + ["191630.609"] + ["3848.2905"], ["N"], 0x6c, 0x4e);
    WireFieldsAppend(["GPGGA"] + ["191630.609"] + ["3848.2905"], ["N"]);
    GgaPart4();
    ChecksumJoinAppend(["GPGGA"] + ["191630.609"] + ["3848.2905"] + ["N"], ["09018.4239"], 0x0e, 0x12);
    WireFieldsAppend(["GPGGA"] + ["191630.609"] + ["3848.2905"] + ["N"], ["09018.4239"]);
    GgaPart5();
    ChecksumJoinAppend(["GPGGA"] + ["191630.609"] + ["3848.2905"] + ["N"] + ["09018.4239"], ["W", "1", "06"], 0x30, 0x60);
    WireFieldsAppend(["GPGGA"] + ["191630.609"] + ["3848.2905"] + ["N"] + ["09018.4239"], ["W", "1", "06"]);
    GgaPart6();
    ChecksumJoinAppend(["GPGGA"] + ["191630.609"] + ["3848.2905"] + ["N"] + ["09018.4239"] + ["W", "1", "06"], ["1.3"], 0x7c, 0x2c);
    WireFieldsAppend(["GPGGA"] + ["191630.609"] + ["3848.2905"] + ["N"] + ["09018.4239"] + ["W", "1", "06"], ["1.3"]);
    GgaPart7();
    ChecksumJoinAppend(["GPGGA"] + ["191630.609"] + ["3848.2905"] + ["N"] + ["09018.4239"] + ["W", "1", "06"] + ["1.3"], ["132.0", "M"], 0x7c, 0x4f);
    WireFieldsAppend(["GPGGA"] + ["191630.609"] + ["3848.2905"] + ["N"] + ["09018.4239"] + ["W", "1", "06"] + ["1.3"], ["132.0", "M"]);
    GgaPart8();
    ChecksumJoinAppend(["GPGGA"] + ["191630.609"] + ["3848.2905"] + ["N"] + ["09018.4239"] + ["W", "1", "06"] + ["1.3"] + ["132.0", "M"], ["-33.7", "M"], 0x1f, 0x55);
    WireFieldsAppend(["GPGGA"] + ["191630.609"] + ["3848.2905"] + ["N"] + ["09018.4239"] + ["W", "1", "06"] + ["1.3"] + ["132.0", "M"], ["-33.7", "M"]);
    GgaPart9();
    ChecksumJoinAppend(["GPGGA"] + ["191630.609"] + ["3848.2905"] + ["N"] + ["09018.4239"] + ["W", "1", "06"] + ["1.3"] + ["132.0", "M"] + ["-33.7", "M"], ["0.0", "0000"], 0x66, 0x02);
    WireFieldsAppend(["GPGGA"] + ["191630.609"] + ["3848.2905"] + ["N"] + ["09018.4239"] + ["W", "1", "06"] + ["1.3"] + ["132.0", "M"] + ["-33.7", "M"], ["0.0", "0000"]);
  }
  lemma GgaTrailer() ensures ByteFromHex("48") == Some(0x48) && WireField("48") {}
  lemma GgaHeader() ensures |"GPGGA"| == 5 && WireField("GPGGA") && "GPGGA"[2..5] == "GGA" { HeaderCode("GPGGA", "GGA"); }
  /** The header, fields and trailer are well framed: the trailer is the checksum. */
  lemma GgaFramed()
    ensures WellFramed("GPGGA", GGA_FIELDS, "48") && "GPGGA"[2..5] == "GGA"
    ensures Checksum(Join(["GPGGA"] + GGA_FIELDS, ',')) == 0x48
  {
    GgaChecksum();
    GgaTrailer();
    GgaHeader();
    WireFieldsTail("GPGGA", GGA_FIELDS);
  }
  lemma GgaIndexes() ensures |GGA_FIELDS| == 14 && GGA_FIELDS[0] == "191630.609" && GGA_FIELDS[1] == "3848.2905" && GGA_FIELDS[2] == "N" && GGA_FIELDS[3] == "09018.4239" && GGA_FIELDS[4] == "W" && GGA_FIELDS[5] == "1" && GGA_FIELDS[6] == "06" && GGA_FIELDS[7] == "1.3" && GGA_FIELDS[8] == "132.0" && GGA_FIELDS[9] == "M" && GGA_FIELDS[10] == "-33.7" && GGA_FIELDS[11] == "M" && GGA_FIELDS[12] == "0.0" && GGA_FIELDS[13] == "0000" {}
  lemma GgaLatitudeSpelling() ensures "3848.2905" == "3848" + "." + "2905" {}
  lemma GgaLatitudeWhole() ensures AllDigits("3848") && DigitsValue("3848") == 3848 {}
  lemma GgaLatitudeFraction() ensures AllDigits("2905") && DigitsValue("2905") == 2905 && Pow10(4) == 10000 {}
  lemma GgaLatitudeParts() ensures ParseDecimal("3848" + "." + "2905") == Some(3848.2905)
  {
    GgaLatitudeWhole();
    GgaLatitudeFraction();
    DecimalField("3848" + "." + "2905", "3848", "2905", 3848, 2905, 10000);
  }
  lemma GgaLatitude() ensures ParseDecimal("3848.2905") == Some(3848.2905)
  {
    GgaLatitudeParts();
    GgaLatitudeSpelling();
  }
  lemma GgaLongitudeSpelling() ensures "09018.4239" == "09018" + "." + "4239" {}
  lemma GgaLongitudeWhole() ensures AllDigits("09018") && DigitsValue("09018") == 9018 {}
  lemma GgaLongitudeFraction() ensures AllDigits("4239") && DigitsValue("4239") == 4239 && Pow10(4) == 10000 {}
  lemma GgaLongitudeParts() ensures ParseDecimal("09018" + "." + "4239") == Some(9018.4239)
  {
    GgaLongitudeWhole();
    GgaLongitudeFraction();
    DecimalField("09018" + "." + "4239", "09018", "4239", 9018, 4239, 10000);
  }
  lemma GgaLongitude() ensures ParseDecimal("09018.4239") == Some(9018.4239)
  {
    GgaLongitudeParts();
    GgaLongitudeSpelling();
  }
  lemma GgaDilutionSpelling() ensures "1.3" == "1" + "." + "3" {}
  lemma GgaDilutionWhole() ensures AllDigits("1") && DigitsValue("1") == 1 {}
  lemma GgaDilutionFraction() ensures AllDigits("3") && DigitsValue("3") == 3 && Pow10(1) == 10 {}
  lemma GgaDilutionParts() ensures ParseDecimal("1" + "." + "3") == Some(1.3)
  {
    GgaDilutionWhole();
    GgaDilutionFraction();
    DecimalField("1" + "." + "3", "1", "3", 1, 3, 10);
  }
  lemma GgaDilution() ensures ParseDecimal("1.3") == Some(1.3)
  {
    GgaDilutionParts();
    GgaDilutionSpelling();
  }
  lemma GgaAltitudeSpelling() ensures "132.0" == "132" + "." + "0" {}
  lemma GgaAltitudeWhole() ensures AllDigits("132") && DigitsValue("132") == 132 {}
  lemma GgaAltitudeFraction() ensures AllDigits("0") && DigitsValue("0") == 0 && Pow10(1) == 10 {}
  lemma GgaAltitudeParts() ensures ParseDecimal("132" + "." + "0") == Some(132.0)
  {
    GgaAltitudeWhole();
    GgaAltitudeFraction();
    DecimalField("132" + "." + "0", "132", "0", 132, 0, 10);
  }
  lemma GgaAltitude() ensures ParseDecimal("132.0") == Some(132.0)
  {
    GgaAltitudeParts();
    GgaAltitudeSpelling();
  }
  lemma GgaTimeCaptureSpelling() ensures ".609" == "" + "." + "609" {}
  lemma GgaTimeCaptureWhole() ensures AllDigits("") && DigitsValue("") == 0 {}
  lemma GgaTimeCaptureFraction() ensures AllDigits("609") && DigitsValue("609") == 609 && Pow10(3) == 1000 {}
  lemma GgaTimeCaptureParts() ensures ParseDecimal("" + "." + "609") == Some(0.609)
  {
    GgaTimeCaptureWhole();
    GgaTimeCaptureFraction();
    DecimalField("" + "." + "609", "", "609", 0, 609, 1000);
  }
  lemma GgaTimeCapture() ensures ParseDecimal(".609") == Some(0.609)
  {
    GgaTimeCaptureParts();
    GgaTimeCaptureSpelling();
  }
  lemma GgaTimeSpelling() ensures "191630.609" == "19" + "16" + "30" + ".609" && ".609"[1..] == "609" {}
  lemma GgaTimeDigits() ensures AllDigits("19") && AllDigits("16") && AllDigits("30") && AllDigits("609") {}
  lemma GgaTimeValues() ensures DigitsValue("19") == 19 && DigitsValue("16") == 16 && DigitsValue("30") == 30 {}
  lemma GgaTimeMillis() ensures 0.609 * 1000.0 == 609 as real && InInt32(609) {}
  lemma GgaTimeParts() ensures FieldTime("19" + "16" + "30" + ".609") == Some(69390609)
  {
    GgaTimeCapture();
    GgaTimeSpelling();
    GgaTimeDigits();
    GgaTimeValues();
    GgaTimeMillis();
    TimeField("19" + "16" + "30" + ".609", "19", "16", "30", ".609", 19, 16, 30, 0.609, 609);
  }
  lemma GgaTime() ensures FieldTime("191630.609") == Some(69390609)
  {
    GgaTimeParts();
    GgaTimeSpelling();
  }

  /** What the test expects: one OnGGA with these arguments. */
  const GGA_EVENT: Event := GGA(69390609, 38.0 + 48.2905 / 60.0, -(90.0 + 18.4239 / 60.0), 1, 6, 1.3, 132.0)

  lemma GgaLatitudeDegrees() ensures CoordinateValue(3848.2905, "N") == 38.0 + 48.2905 / 60.0
  {
    CoordinateValueParts(38, 48.2905, "N");
  }

  lemma GgaLatitudeField() ensures DecodeLatitude("3848.2905", "N") == Some(38.0 + 48.2905 / 60.0)
  {
    GgaLatitude();
    GgaLatitudeDegrees();
  }

  lemma GgaLongitudeDegrees() ensures CoordinateValue(9018.4239, "W") == -(90.0 + 18.4239 / 60.0)
  {
    CoordinateValueParts(90, 18.4239, "W");
  }

  lemma GgaLongitudeField() ensures DecodeLongitude("09018.4239", "W") == Some(-(90.0 + 18.4239 / 60.0))
  {
    GgaLongitude();
    GgaLongitudeDegrees();
  }

  lemma GgaCounts() ensures ParseInt("1") == Some(1) && ParseInt("06") == Some(6) {}

  lemma GgaFields()
    ensures DecodeGGA(GGA_FIELDS) == Some(GGA_EVENT)
  {
    GgaIndexes();
    GgaTime();
    GgaLatitudeField();
    GgaLongitudeField();
    GgaCounts();
    GgaDilution();
    GgaAltitude();
    DecodeGGAOf(GGA_FIELDS, 69390609, 38.0 + 48.2905 / 60.0, -(90.0 + 18.4239 / 60.0), 1, 6, 1.3, 132.0);
  }

  /** The GGA sentence is reported as exactly one GGA event, quality 1. */
  lemma GgaSentence()
    ensures DecodeSentence(GGA_RAW) == GGA_EVENT
    ensures IsByteText(GGA_RAW + "\r\n") && Events(Bytes(GGA_RAW + "\r\n")) == [GGA_EVENT]
  {
    GgaFramed();
    GgaFields();
    FramedGGA("GPGGA", GGA_FIELDS, "48", GGA_EVENT);
  }

  method GgaTest() returns (events: seq<Event>)
    ensures events == [GGA_EVENT]
  {
    GgaSentence();
    ConcatOne(Bytes(GGA_RAW + "\r\n"));
    events := FeedInPieces([Bytes(GGA_RAW + "\r\n")]);
  }

  /** The characters PartialPlusGGATest puts in front of the sentence. */
  const NOISE: string := "extracharactershere"

  lemma NoiseFacts() ensures IsByteText(NOISE) && '$' !in NOISE && '\r' !in NOISE {}

  /** The same sentence behind noise: the noise vanishes without an invalid report. */
  lemma PartialPlusGga()
    ensures IsByteText(NOISE + GGA_RAW + "\r\n") && Events(Bytes(NOISE + GGA_RAW + "\r\n")) == [GGA_EVENT]
  {
    GgaFramed();
    GgaSentence();
    NoiseFacts();
    SentenceOnWire("GPGGA", GGA_FIELDS, "48");
    EventsAfterNoise(NOISE, GGA_RAW);
  }

  method PartialPlusGgaTest() returns (events: seq<Event>)
    ensures events == [GGA_EVENT]
  {
    PartialPlusGga();
    ConcatOne(Bytes(NOISE + GGA_RAW + "\r\n"));
    events := FeedInPieces([Bytes(NOISE + GGA_RAW + "\r\n")]);
  }
}
