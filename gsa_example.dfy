/** The GSA sentence a receiver sends while still initializing (mode A, fix 1, no satellites, every dilution 50.0), and the same sentence with a wrong checksum. */
module GsaExample {
  import opened Wrappers
  import opened TextConversions
  import opened Framing
  import opened Sentences
  import opened Decoder
  import opened ExampleSupport

  const GSA_FIELDS: seq<string> := ["A", "1", "", "", "", "", "", "", "", "", "", "", "", "", "50.0", "50.0", "50.0"]
  const GSA_RAW: string := Sentence("GPGSA", GSA_FIELDS, "05")
  /** The same sentence with trailer FF, which is not its checksum. */
  const GSA_BAD_RAW: string := Sentence("GPGSA", GSA_FIELDS, "FF")

  lemma GsaJoin0() ensures Join(["GPGSA", "A"], ',') == "GPGSA,A" {}
  lemma GsaWire0() ensures WireFields(["GPGSA", "A"]) {}
  lemma GsaSum0() ensures Checksum("GPGSA,A") == 0x2f { CodeOfComma(); CodeOfA(); CodeOfG(); CodeOfP(); CodeOfS(); }
  lemma GsaPart0() ensures Checksum(Join(["GPGSA", "A"], ',')) == 0x2f && WireFields(["GPGSA", "A"]) && |Join(["GPGSA", "A"], ',')| == 7
  {
    GsaJoin0();
    GsaWire0();
    GsaSum0();
  }
  lemma GsaJoin1() ensures Join(["1", "", ""], ',') == "1,," {}
  lemma GsaWire1() ensures WireFields(["1", "", ""]) {}
  lemma GsaSum1() ensures Checksum("1,,") == 0x31 { CodeOfComma(); CodeOfDigit1(); }
  lemma GsaPart1() ensures Checksum(Join(["1", "", ""], ',')) == 0x31 && WireFields(["1", "", ""]) && |Join(["1", "", ""], ',')| == 3
  {
    GsaJoin1();
    GsaWire1();
    GsaSum1();
  }
  lemma GsaJoin2() ensures Join(["", "", ""], ',') == ",," {}
  lemma GsaWire2() ensures WireFields(["", "", ""]) {}
  lemma GsaSum2() ensures Checksum(",,") == 0x00 { CodeOfComma(); }
  lemma GsaPart2() ensures Checksum(Join(["", "", ""], ',')) == 0x00 && WireFields(["", "", ""]) && |Join(["", "", ""], ',')| == 2
  {
    GsaJoin2();
    GsaWire2();
    GsaSum2();
  }
  lemma GsaJoin3() ensures Join(["", "", ""], ',') == ",," {}
  lemma GsaWire3() ensures WireFields(["", "", ""]) {}
  lemma GsaSum3() ensures Checksum(",,") == 0x00 { CodeOfComma(); }
  lemma GsaPart3() ensures Checksum(Join(["", "", ""], ',')) == 0x00 && WireFields(["", "", ""]) && |Join(["", "", ""], ',')| == 2
  {
    GsaJoin3();
    GsaWire3();
    GsaSum3();
  }
  lemma GsaJoin4() ensures Join(["", "", ""], ',') == ",," {}
  lemma GsaWire4() ensures WireFields(["", "", ""]) {}
  lemma GsaSum4() ensures Checksum(",,") == 0x00 { CodeOfComma(); }
  lemma GsaPart4() ensures Checksum(Join(["", "", ""], ',')) == 0x00 && WireFields(["", "", ""]) && |Join(["", "", ""], ',')| == 2
  {
    GsaJoin4();
    GsaWire4();
    GsaSum4();
  }
  lemma GsaJoin5() ensures Join(["", "50.0"], ',') == ",50.0" {}
  lemma GsaWire5() ensures WireFields(["", "50.0"]) {}
  lemma GsaSum5() ensures Checksum(",50.0") == 0x37 { CodeOfComma(); CodeOfDot(); CodeOfDigit0(); CodeOfDigit5(); }
  lemma GsaPart5() ensures Checksum(Join(["", "50.0"], ',')) == 0x37 && WireFields(["", "50.0"]) && |Join(["", "50.0"], ',')| == 5
  {
    GsaJoin5();
    GsaWire5();
    GsaSum5();
  }
  lemma GsaJoin6() ensures Join(["50.0"], ',') == "50.0" {}
  lemma GsaWire6() ensures WireFields(["50.0"]) {}
  lemma GsaSum6() ensures Checksum("50.0") == 0x1b { CodeOfDot(); CodeOfDigit0(); CodeOfDigit5(); }
  lemma GsaPart6() ensures Checksum(Join(["50.0"], ',')) == 0x1b && WireFields(["50.0"]) && |Join(["50.0"], ',')| == 4
  {
    GsaJoin6();
    GsaWire6();
    GsaSum6();
  }
  lemma GsaJoin7() ensures Join(["50.0"], ',') == "50.0" {}
  lemma GsaWire7() ensures WireFields(["50.0"]) {}
  lemma GsaSum7() ensures Checksum("50.0") == 0x1b { CodeOfDot(); CodeOfDigit0(); CodeOfDigit5(); }
  lemma GsaPart7() ensures Checksum(Join(["50.0"], ',')) == 0x1b && WireFields(["50.0"]) && |Join(["50.0"], ',')| == 4
  {
    GsaJoin7();
    GsaWire7();
    GsaSum7();
  }
  lemma GsaGroups()
    ensures ["GPGSA"] + GSA_FIELDS == ["GPGSA", "A"] + ["1", "", ""] + ["", "", ""] + ["", "", ""] + ["", "", ""] + ["", "50.0"] + ["50.0"] + ["50.0"]
  {
  }
  lemma GsaChecksum()
    ensures Checksum(Join(["GPGSA"] + GSA_FIELDS, ',')) == 0x05
    ensures WireFields(["GPGSA"] + GSA_FIELDS)
    ensures |Join(["GPGSA"] + GSA_FIELDS, ',')| == 36
  {
    GsaGroups();
    GsaPart0();
    GsaPart1();
    ChecksumJoinAppend(["GPGSA", "A"], ["1", "", ""], 0x2f, 0x31);
    WireFieldsAppend(["GPGSA", "A"], ["1", "", ""]);
    GsaPart2();
    ChecksumJoinAppend(["GPGSA", "A"] + ["1", "", ""], ["", "", ""], 0x32, 0x00);
    WireFieldsAppend(["GPGSA", "A"] + ["1", "", ""], ["", "", ""]);
    GsaPart3();
    ChecksumJoinAppend(["GPGSA", "A"] + ["1", "", ""] + ["", "", ""], ["", "", ""], 0x1e, 0x00);
    WireFieldsAppend(["GPGSA", "A"] + ["1", "", ""] + ["", "", ""], ["", "", ""]);
    GsaPart4();
    ChecksumJoinAppend(["GPGSA", "A"] + ["1", "", ""] + ["", "", ""] + ["", "", ""], ["", "", ""], 0x32, 0x00);
    WireFieldsAppend(["GPGSA", "A"] + ["1", "", ""] + ["", "", ""] + ["", "", ""], ["", "", ""]);
    GsaPart5();
    ChecksumJoinAppend(["GPGSA", "A"] + ["1", "", ""] + ["", "", ""] + ["", "", ""] + ["", "", ""], ["", "50.0"], 0x1e, 0x37);
    WireFieldsAppend(["GPGSA", "A"] + ["1", "", ""] + ["", "", ""] + ["", "", ""] + ["", "", ""], ["", "50.0"]);
    GsaPart6();
    ChecksumJoinAppend(["GPGSA", "A"] + ["1", "", ""] + ["", "", ""] + ["", "", ""] + ["", "", ""] + ["", "50.0"], ["50.0"], 0x05, 0x1b);
    WireFieldsAppend(["GPGSA", "A"] + ["1", "", ""] + ["", "", ""] + ["", "", ""] + ["", "", ""] + ["", "50.0"], ["50.0"]);
    GsaPart7();
    ChecksumJoinAppend(["GPGSA", "A"] + ["1", "", ""] + ["", "", ""] + ["", "", ""] + ["", "", ""] + ["", "50.0"] + ["50.0"], ["50.0"], 0x32, 0x1b);
    WireFieldsAppend(["GPGSA", "A"] + ["1", "", ""] + ["", "", ""] + ["", "", ""] + ["", "", ""] + ["", "50.0"] + ["50.0"], ["50.0"]);
  }
  lemma GsaTrailer() ensures ByteFromHex("05") == Some(0x05) && WireField("05") {}
  lemma GsaHeader() ensures |"GPGSA"| == 5 && WireField("GPGSA") && "GPGSA"[2..5] == "GSA" { HeaderCode("GPGSA", "GSA"); }
  /** The header, fields and trailer are well framed: the trailer is the checksum. */
  lemma GsaFramed()
    ensures WellFramed("GPGSA", GSA_FIELDS, "05") && "GPGSA"[2..5] == "GSA"
    ensures Checksum(Join(["GPGSA"] + GSA_FIELDS, ',')) == 0x05
  {
    GsaChecksum();
    GsaTrailer();
    GsaHeader();
    WireFieldsTail("GPGSA", GSA_FIELDS);
  }
  lemma GsaBadTrailer() ensures ByteFromHex("FF") == Some(0xFF) && WireField("FF") {}
  lemma GsaIndexes() ensures |GSA_FIELDS| == 17 && GSA_FIELDS[0] == "A" && GSA_FIELDS[1] == "1" && GSA_FIELDS[2] == "" && GSA_FIELDS[3] == "" && GSA_FIELDS[4] == "" && GSA_FIELDS[5] == "" && GSA_FIELDS[6] == "" && GSA_FIELDS[7] == "" && GSA_FIELDS[8] == "" && GSA_FIELDS[9] == "" && GSA_FIELDS[10] == "" && GSA_FIELDS[11] == "" && GSA_FIELDS[12] == "" && GSA_FIELDS[13] == "" && GSA_FIELDS[14] == "50.0" && GSA_FIELDS[15] == "50.0" && GSA_FIELDS[16] == "50.0" {}
  lemma GsaDilutionSpelling() ensures "50.0" == "50" + "." + "0" {}
  lemma GsaDilutionWhole() ensures AllDigits("50") && DigitsValue("50") == 50 {}
  lemma GsaDilutionFraction() ensures AllDigits("0") && DigitsValue("0") == 0 && Pow10(1) == 10 {}
  lemma GsaDilutionParts() ensures ParseDecimal("50" + "." + "0") == Some(50.0)
  {
    GsaDilutionWhole();
    GsaDilutionFraction();
    DecimalField("50" + "." + "0", "50", "0", 50, 0, 10);
  }
  lemma GsaDilution() ensures ParseDecimal("50.0") == Some(50.0)
  {
    GsaDilutionParts();
    GsaDilutionSpelling();
  }

  /** What the test expects of the initializing sentence. */
  const GSA_EVENT: Event := GSA("A", 1, [], 50.0, 50.0, 50.0)

  lemma GsaFix() ensures ParseInt("1") == Some(1) {}

  lemma GsaSlots() ensures DecodeIds(GSA_FIELDS[2..14]) == Some([])
  {
    DecodeIdsEmpty(GSA_FIELDS[2..14]);
  }

  /** The fields of the initializing GSA: twelve empty slots give an empty id list. */
  lemma GsaFields()
    ensures DecodeGSA(GSA_FIELDS) == Some(GSA_EVENT)
  {
    GsaIndexes();
    GsaFix();
    GsaDilution();
    GsaSlots();
    DecodeGSAOf(GSA_FIELDS, 1, [], 50.0, 50.0, 50.0);
  }

  /** The initializing GSA sentence, sent with its CR LF, is reported as one GSA event
      and nothing else. */
  lemma GsaSentence()
    ensures DecodeSentence(GSA_RAW) == GSA_EVENT
    ensures IsByteText(GSA_RAW + "\r\n") && Events(Bytes(GSA_RAW + "\r\n")) == [GSA_EVENT]
  {
    GsaFramed();
    GsaFields();
    FramedGSA("GPGSA", GSA_FIELDS, "05", GSA_EVENT);
  }

  /** A fresh decoder given the bytes of the sentence reports exactly the GSA event. */
  method UninitializedGsaTest() returns (events: seq<Event>)
    ensures events == [GSA_EVENT]
  {
    GsaSentence();
    ConcatOne(Bytes(GSA_RAW + "\r\n"));
    events := FeedInPieces([Bytes(GSA_RAW + "\r\n")]);
  }

  /** With trailer FF where 05 is the checksum, the sentence is reported once, as
      invalid, with its text, and there is no typed event. */
  lemma GsaBadChecksum()
    ensures DecodeSentence(GSA_BAD_RAW) == InvalidSentence(GSA_BAD_RAW)
    ensures IsByteText(GSA_BAD_RAW + "\r\n") && Events(Bytes(GSA_BAD_RAW + "\r\n")) == [InvalidSentence(GSA_BAD_RAW)]
  {
    GsaFramed();
    GsaBadTrailer();
    BadlyFramed("GPGSA", GSA_FIELDS, "FF", 0x05);
  }

  method ChecksumFailedTest() returns (events: seq<Event>)
    ensures events == [InvalidSentence(GSA_BAD_RAW)]
  {
    GsaBadChecksum();
    ConcatOne(Bytes(GSA_BAD_RAW + "\r\n"));
    events := FeedInPieces([Bytes(GSA_BAD_RAW + "\r\n")]);
  }
}
