/** The GGA sentence a receiver sends while still initializing: time 00:00:04, position 0/0, quality 0. It is decoded and reported, not filtered, whether it arrives whole or in two pieces. */
module UninitializedGgaExample {
  import opened Wrappers
  import opened TextConversions
  import opened Framing
  import opened Sentences
  import opened Decoder
  import opened ExampleSupport

  const GGA0_FIELDS: seq<string> := ["000004.000", "0000.0000", "N", "00000.0000", "E", "0", "00", "50.0", "0.0", "M", "0.0", "M", "0.0", "0000"]
  const GGA0_RAW: string := Sentence("GPGGA", GGA0_FIELDS, "72")

  lemma Gga0Join0() ensures Join(["GPGGA"], ',') == "GPGGA" {}
  lemma Gga0Wire0() ensures WireFields(["GPGGA"]) {}
  lemma Gga0Sum0() ensures Checksum("GPGGA") == 0x56 { CodeOfA(); CodeOfG(); CodeOfP(); }
  lemma Gga0Part0() ensures Checksum(Join(["GPGGA"], ',')) == 0x56 && WireFields(["GPGGA"]) && |Join(["GPGGA"], ',')| == 5
  {
    Gga0Join0();
    Gga0Wire0();
    Gga0Sum0();
  }
  lemma Gga0Join1() ensures Join(["000004.000"], ',') == "000004.000" {}
  lemma Gga0Wire1() ensures WireFields(["000004.000"]) {}
  lemma Gga0Sum1a() ensures Checksum("00000") == 0x30 { CodeOfDigit0(); }
  lemma Gga0Sum1b() ensures Checksum("4.000") == 0x2a { CodeOfDot(); CodeOfDigit0(); CodeOfDigit4(); }
  lemma Gga0Sum1Spelling() ensures "000004.000" == "00000" + "4.000" {}
  lemma Gga0Sum1() ensures Checksum("000004.000") == 0x1a
  {
    Gga0Sum1Spelling();
    Gga0Sum1a();
    Gga0Sum1b();
    ChecksumAppend("00000", "4.000");
  }
  lemma Gga0Part1() ensures Checksum(Join(["000004.000"], ',')) == 0x1a && WireFields(["000004.000"]) && |Join(["000004.000"], ',')| == 10
  {
    Gga0Join1();
    Gga0Wire1();
    Gga0Sum1();
  }
  lemma Gga0Join2() ensures Join(["0000.0000"], ',') == "0000.0000" {}
  lemma Gga0Wire2() ensures WireFields(["0000.0000"]) {}
  lemma Gga0Sum2a() ensures Checksum("0000") == 0x00 { CodeOfDigit0(); }
  lemma Gga0Sum2b() ensures Checksum(".0000") == 0x2e { CodeOfDot(); CodeOfDigit0(); }
  lemma Gga0Sum2Spelling() ensures "0000.0000" == "0000" + ".0000" {}
  lemma Gga0Sum2() ensures Checksum("0000.0000") == 0x2e
  {
    Gga0Sum2Spelling();
    Gga0Sum2a();
    Gga0Sum2b();
    ChecksumAppend("0000", ".0000");
  }
  lemma Gga0Part2() ensures Checksum(Join(["0000.0000"], ',')) == 0x2e && WireFields(["0000.0000"]) && |Join(["0000.0000"], ',')| == 9
  {
    Gga0Join2();
    Gga0Wire2();
    Gga0Sum2();
  }
  lemma Gga0Join3() ensures Join(["N"], ',') == "N" {}
  lemma Gga0Wire3() ensures WireFields(["N"]) {}
  lemma Gga0Sum3() ensures Checksum("N") == 0x4e { CodeOfN(); }
  lemma Gga0Part3() ensures Checksum(Join(["N"], ',')) == 0x4e && WireFields(["N"]) && |Join(["N"], ',')| == 1
  {
    Gga0Join3();
    Gga0Wire3();
    Gga0Sum3();
  }
  lemma Gga0Join4() ensures Join(["00000.0000"], ',') == "00000.0000" {}
  lemma Gga0Wire4() ensures WireFields(["00000.0000"]) {}
  lemma Gga0Sum4a() ensures Checksum("00000") == 0x30 { CodeOfDigit0(); }
  lemma Gga0Sum4b() ensures Checksum(".0000") == 0x2e { CodeOfDot(); CodeOfDigit0(); }
  lemma Gga0Sum4Spelling() ensures "00000.0000" == "00000" + ".0000" {}
  lemma Gga0Sum4() ensures Checksum("00000.0000") == 0x1e
  {
    Gga0Sum4Spelling();
    Gga0Sum4a();
    Gga0Sum4b();
    ChecksumAppend("00000", ".0000");
  }
  lemma Gga0Part4() ensures Checksum(Join(["00000.0000"], ',')) == 0x1e && WireFields(["00000.0000"]) && |Join(["00000.0000"], ',')| == 10
  {
    Gga0Join4();
    Gga0Wire4();
    Gga0Sum4();
  }
  lemma Gga0Join5() ensures Join(["E", "0", "00"], ',') == "E,0,00" {}
  lemma Gga0Wire5() ensures WireFields(["E", "0", "00"]) {}
  lemma Gga0Sum5() ensures Checksum("E,0,00") == 0x75 { CodeOfComma(); CodeOfDigit0(); CodeOfE(); }
  lemma Gga0Part5() ensures Checksum(Join(["E", "0", "00"], ',')) == 0x75 && WireFields(["E", "0", "00"]) && |Join(["E", "0", "00"], ',')| == 6
  {
    Gga0Join5();
    Gga0Wire5();
    Gga0Sum5();
  }
  lemma Gga0Join6() ensures Join(["50.0", "0.0"], ',') == "50.0,0.0" {}
  lemma Gga0Wire6() ensures WireFields(["50.0", "0.0"]) {}
  lemma Gga0Sum6() ensures Checksum("50.0,0.0") == 0x19 { CodeOfComma(); CodeOfDot(); CodeOfDigit0(); CodeOfDigit5(); }
  lemma Gga0Part6() ensures Checksum(Join(["50.0", "0.0"], ',')) == 0x19 && WireFields(["50.0", "0.0"]) && |Join(["50.0", "0.0"], ',')| == 8
  {
    Gga0Join6();
    Gga0Wire6();
    Gga0Sum6();
  }
  lemma Gga0Join7() ensures Join(["M", "0.0", "M"], ',') == "M,0.0,M" {}
  lemma Gga0Wire7() ensures WireFields(["M", "0.0", "M"]) {}
  lemma Gga0Sum7() ensures Checksum("M,0.0,M") == 0x2e { CodeOfComma(); CodeOfDot(); CodeOfDigit0(); CodeOfM(); }
  lemma Gga0Part7() ensures Checksum(Join(["M", "0.0", "M"], ',')) == 0x2e && WireFields(["M", "0.0", "M"]) && |Join(["M", "0.0", "M"], ',')| == 7
  {
    Gga0Join7();
    Gga0Wire7();
    Gga0Sum7();
  }
  lemma Gga0Join8() ensures Join(["0.0", "0000"], ',') == "0.0,0000" {}
  lemma Gga0Wire8() ensures WireFields(["0.0", "0000"]) {}
  lemma Gga0Sum8() ensures Checksum("0.0,0000") == 0x02 { CodeOfComma(); CodeOfDot(); CodeOfDigit0(); }
  lemma Gga0Part8() ensures Checksum(Join(["0.0", "0000"], ',')) == 0x02 && WireFields(["0.0", "0000"]) && |Join(["0.0", "0000"], ',')| == 8
  {
    Gga0Join8();
    Gga0Wire8();
    Gga0Sum8();
  }
  lemma Gga0Groups()
    ensures ["GPGGA"] + GGA0_FIELDS == ["GPGGA"] + ["000004.000"] + ["0000.0000"] + ["N"] + ["00000.0000"] + ["E", "0", "00"] + ["50.0", "0.0"] + ["M", "0.0", "M"] + ["0.0", "0000"]
  {
  }
  lemma Gga0Checksum()
    ensures Checksum(Join(["GPGGA"] + GGA0_FIELDS, ',')) == 0x72
    ensures WireFields(["GPGGA"] + GGA0_FIELDS)
    ensures |Join(["GPGGA"] + GGA0_FIELDS, ',')| == 72
  {
    Gga0Groups();
    Gga0Part0();
    Gga0Part1();
    ChecksumJoinAppend(["GPGGA"], ["000004.000"], 0x56, 0x1a);
    WireFieldsAppend(["GPGGA"], ["000004.000"]);
    Gga0Part2();
    ChecksumJoinAppend(["GPGGA"] + ["000004.000"], ["0000.0000"], 0x60, 0x2e);
    WireFieldsAppend(["GPGGA"] + ["000004.000"], ["0000.0000"]);
    Gga0Part3();
    ChecksumJoinAppend(["GPGGA"] + ["000004.000"] + ["0000.0000"], ["N"], 0x62, 0x4e);
    WireFieldsAppend(["GPGGA"] + ["000004.000"] + ["0000.0000"], ["N"]);
    Gga0Part4();
    ChecksumJoinAppend(["GPGGA"] + ["000004.000"] + ["0000.0000"] + ["N"], ["00000.0000"], 0x00, 0x1e);
    WireFieldsAppend(["GPGGA"] + ["000004.000"] + ["0000.0000"] + ["N"], ["00000.0000"]);
    Gga0Part5();
    ChecksumJoinAppend(["GPGGA"] + ["000004.000"] + ["0000.0000"] + ["N"] + ["00000.0000"], ["E", "0", "00"], 0x32, 0x75);
    WireFieldsAppend(["GPGGA"] + ["000004.000"] + ["0000.0000"] + ["N"] + ["00000.0000"], ["E", "0", "00"]);
    Gga0Part6();
    ChecksumJoinAppend(["GPGGA"] + ["000004.000"] + ["0000.0000"] + ["N"] + ["00000.0000"] + ["E", "0", "00"], ["50.0", "0.0"], 0x6b, 0x19);
    WireFieldsAppend(["GPGGA"] + ["000004.000"] + ["0000.0000"] + ["N"] + ["00000.0000"] + ["E", "0", "00"], ["50.0", "0.0"]);
    Gga0Part7();
    ChecksumJoinAppend(["GPGGA"] + ["000004.000"] + ["0000.0000"] + ["N"] + ["00000.0000"] + ["E", "0", "00"] + ["50.0", "0.0"], ["M", "0.0", "M"], 0x5e, 0x2e);
    WireFieldsAppend(["GPGGA"] + ["000004.000"] + ["0000.0000"] + ["N"] + ["00000.0000"] + ["E", "0", "00"] + ["50.0", "0.0"], ["M", "0.0", "M"]);
    Gga0Part8();
    ChecksumJoinAppend(["GPGGA"] + ["000004.000"] + ["0000.0000"] + ["N"] + ["00000.0000"] + ["E", "0", "00"] + ["50.0", "0.0"] + ["M", "0.0", "M"], ["0.0", "0000"], 0x5c, 0x02);
    WireFieldsAppend(["GPGGA"] + ["000004.000"] + ["0000.0000"] + ["N"] + ["00000.0000"] + ["E", "0", "00"] + ["50.0", "0.0"] + ["M", "0.0", "M"], ["0.0", "0000"]);
  }
  lemma Gga0Trailer() ensures ByteFromHex("72") == Some(0x72) && WireField("72") {}
  lemma Gga0Header() ensures |"GPGGA"| == 5 && WireField("GPGGA") && "GPGGA"[2..5] == "GGA" { HeaderCode("GPGGA", "GGA"); }
  /** The header, fields and trailer are well framed: the trailer is the checksum. */
  lemma Gga0Framed()
    ensures WellFramed("GPGGA", GGA0_FIELDS, "72") && "GPGGA"[2..5] == "GGA"
    ensures Checksum(Join(["GPGGA"] + GGA0_FIELDS, ',')) == 0x72
  {
    Gga0Checksum();
    Gga0Trailer();
    Gga0Header();
    WireFieldsTail("GPGGA", GGA0_FIELDS);
  }
  lemma Gga0Length() ensures |GGA0_RAW| == 76
  {
    Gga0Checksum();
  }
  lemma Gga0Indexes() ensures |GGA0_FIELDS| == 14 && GGA0_FIELDS[0] == "000004.000" && GGA0_FIELDS[1] == "0000.0000" && GGA0_FIELDS[2] == "N" && GGA0_FIELDS[3] == "00000.0000" && GGA0_FIELDS[4] == "E" && GGA0_FIELDS[5] == "0" && GGA0_FIELDS[6] == "00" && GGA0_FIELDS[7] == "50.0" && GGA0_FIELDS[8] == "0.0" && GGA0_FIELDS[9] == "M" && GGA0_FIELDS[10] == "0.0" && GGA0_FIELDS[11] == "M" && GGA0_FIELDS[12] == "0.0" && GGA0_FIELDS[13] == "0000" {}
  lemma Gga0ZeroSpelling() ensures "0.0" == "0" + "." + "0" {}
  lemma Gga0ZeroWhole() ensures AllDigits("0") && DigitsValue("0") == 0 {}
  lemma Gga0ZeroFraction() ensures AllDigits("0") && DigitsValue("0") == 0 && Pow10(1) == 10 {}
  lemma Gga0ZeroParts() ensures ParseDecimal("0" + "." + "0") == Some(0.0)
  {
    Gga0ZeroWhole();
    Gga0ZeroFraction();
    DecimalField("0" + "." + "0", "0", "0", 0, 0, 10);
  }
  lemma Gga0Zero() ensures ParseDecimal("0.0") == Some(0.0)
  {
    Gga0ZeroParts();
    Gga0ZeroSpelling();
  }
  lemma Gga0DilutionSpelling() ensures "50.0" == "50" + "." + "0" {}
  lemma Gga0DilutionWhole() ensures AllDigits("50") && DigitsValue("50") == 50 {}
  lemma Gga0DilutionFraction() ensures AllDigits("0") && DigitsValue("0") == 0 && Pow10(1) == 10 {}
  lemma Gga0DilutionParts() ensures ParseDecimal("50" + "." + "0") == Some(50.0)
  {
    Gga0DilutionWhole();
    Gga0DilutionFraction();
    DecimalField("50" + "." + "0", "50", "0", 50, 0, 10);
  }
  lemma Gga0Dilution() ensures ParseDecimal("50.0") == Some(50.0)
  {
    Gga0DilutionParts();
    Gga0DilutionSpelling();
  }
  lemma Gga0LatitudeSpelling() ensures "0000.0000" == "0000" + "." + "0000" {}
  lemma Gga0LatitudeWhole() ensures AllDigits("0000") && DigitsValue("0000") == 0 {}
  lemma Gga0LatitudeFraction() ensures AllDigits("0000") && DigitsValue("0000") == 0 && Pow10(4) == 10000 {}
  lemma Gga0LatitudeParts() ensures ParseDecimal("0000" + "." + "0000") == Some(0.0)
  {
    Gga0LatitudeWhole();
    Gga0LatitudeFraction();
    DecimalField("0000" + "." + "0000", "0000", "0000", 0, 0, 10000);
  }
  lemma Gga0Latitude() ensures ParseDecimal("0000.0000") == Some(0.0)
  {
    Gga0LatitudeParts();
    Gga0LatitudeSpelling();
  }
  lemma Gga0LongitudeSpelling() ensures "00000.0000" == "00000" + "." + "0000" {}
  lemma Gga0LongitudeWhole() ensures AllDigits("00000") && DigitsValue("00000") == 0 {}
  lemma Gga0LongitudeFraction() ensures AllDigits("0000") && DigitsValue("0000") == 0 && Pow10(4) == 10000 {}
  lemma Gga0LongitudeParts() ensures ParseDecimal("00000" + "." + "0000") == Some(0.0)
  {
    Gga0LongitudeWhole();
    Gga0LongitudeFraction();
    DecimalField("00000" + "." + "0000", "00000", "0000", 0, 0, 10000);
  }
  lemma Gga0Longitude() ensures ParseDecimal("00000.0000") == Some(0.0)
  {
    Gga0LongitudeParts();
    Gga0LongitudeSpelling();
  }
  lemma Gga0TimeCaptureSpelling() ensures ".000" == "" + "." + "000" {}
  lemma Gga0TimeCaptureWhole() ensures AllDigits("") && DigitsValue("") == 0 {}
  lemma Gga0TimeCaptureFraction() ensures AllDigits("000") && DigitsValue("000") == 0 && Pow10(3) == 1000 {}
  lemma Gga0TimeCaptureParts() ensures ParseDecimal("" + "." + "000") == Some(0.0)
  {
    Gga0TimeCaptureWhole();
    Gga0TimeCaptureFraction();
    DecimalField("" + "." + "000", "", "000", 0, 0, 1000);
  }
  lemma Gga0TimeCapture() ensures ParseDecimal(".000") == Some(0.0)
  {
    Gga0TimeCaptureParts();
    Gga0TimeCaptureSpelling();
  }
  lemma Gga0TimeSpelling() ensures "000004.000" == "00" + "00" + "04" + ".000" && ".000"[1..] == "000" {}
  lemma Gga0TimeDigits() ensures AllDigits("00") && AllDigits("00") && AllDigits("04") && AllDigits("000") {}
  lemma Gga0TimeValues() ensures DigitsValue("00") == 0 && DigitsValue("00") == 0 && DigitsValue("04") == 4 {}
  lemma Gga0TimeMillis() ensures 0.0 * 1000.0 == 0 as real && InInt32(0) {}
  lemma Gga0TimeParts() ensures FieldTime("00" + "00" + "04" + ".000") == Some(4000)
  {
    Gga0TimeCapture();
    Gga0TimeSpelling();
    Gga0TimeDigits();
    Gga0TimeValues();
    Gga0TimeMillis();
    TimeField("00" + "00" + "04" + ".000", "00", "00", "04", ".000", 0, 0, 4, 0.0, 0);
  }
  lemma Gga0Time() ensures FieldTime("000004.000") == Some(4000)
  {
    Gga0TimeParts();
    Gga0TimeSpelling();
  }

  /** What the test expects: the GGA is reported with quality 0, not dropped. */
  const GGA0_EVENT: Event := GGA(4000, 0.0, 0.0, 0, 0, 50.0, 0.0)

  lemma Gga0LatitudeDegrees() ensures CoordinateValue(0.0, "N") == 0.0
  {
    CoordinateValueParts(0, 0.0, "N");
  }

  lemma Gga0LatitudeField() ensures DecodeLatitude("0000.0000", "N") == Some(0.0)
  {
    Gga0Latitude();
    Gga0LatitudeDegrees();
  }

  lemma Gga0LongitudeDegrees() ensures CoordinateValue(0.0, "E") == 0.0
  {
    CoordinateValueParts(0, 0.0, "E");
  }

  lemma Gga0LongitudeField() ensures DecodeLongitude("00000.0000", "E") == Some(0.0)
  {
    Gga0Longitude();
    Gga0LongitudeDegrees();
  }

  lemma Gga0Counts() ensures ParseInt("0") == Some(0) && ParseInt("00") == Some(0) {}

  lemma Gga0Fields()
    ensures DecodeGGA(GGA0_FIELDS) == Some(GGA0_EVENT)
  {
    Gga0Indexes();
    Gga0Time();
    Gga0LatitudeField();
    Gga0LongitudeField();
    Gga0Counts();
    Gga0Dilution();
    Gga0Zero();
    DecodeGGAOf(GGA0_FIELDS, 4000, 0.0, 0.0, 0, 0, 50.0, 0.0);
  }

  /** The initializing GGA sentence is reported as one GGA event with quality 0. */
  lemma Gga0Sentence()
    ensures DecodeSentence(GGA0_RAW) == GGA0_EVENT
    ensures IsByteText(GGA0_RAW + "\r\n") && Events(Bytes(GGA0_RAW + "\r\n")) == [GGA0_EVENT]
  {
    Gga0Framed();
    Gga0Fields();
    FramedGGA("GPGGA", GGA0_FIELDS, "72", GGA0_EVENT);
  }

  method UninitializedGgaTest() returns (events: seq<Event>)
    ensures events == [GGA0_EVENT]
  {
    Gga0Sentence();
    ConcatOne(Bytes(GGA0_RAW + "\r\n"));
    events := FeedInPieces([Bytes(GGA0_RAW + "\r\n")]);
  }

  /** Cut anywhere, the two pieces give the same single event: what the first call
      reports and what the second reports after the kept bytes. */
  lemma SeparatedGga0(n: nat)
    requires n <= |GGA0_RAW| + 2
    ensures IsByteText(GGA0_RAW + "\r\n")
    ensures var line := Bytes(GGA0_RAW + "\r\n");
      Events(line[..n]) + Events(Scan(line[..n]).rest + line[n..]) == [GGA0_EVENT]
  {
    Gga0Sentence();
    EventsSplitAt(Bytes(GGA0_RAW + "\r\n"), n);
  }

  /** SeparatedUninitializedGGATest: the first call carries 32 bytes, up to the second
      digit of the longitude field, the second call the rest. */
  method SeparatedUninitializedGgaTest() returns (events: seq<Event>)
    ensures events == [GGA0_EVENT]
  {
    Gga0Sentence();
    Gga0Length();
    var line := Bytes(GGA0_RAW + "\r\n");
    EventsSplitAt(line, 32);
    events := FeedInPieces([line[..32], line[32..]]);
  }
}
