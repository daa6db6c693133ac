/** A sentence as a receiver transmits it: '$', the header and fields joined by commas,
    '*', the two-digit hex checksum and CR LF. Every such line of a fix rendered by
    SentenceEncoding reaches the streaming decoder as exactly that fix, and the
    publisher turns it into the samples of that fix. */
module SentenceWire {
  import opened Wrappers
  import opened TextConversions
  import opened Calendar
  import opened Framing
  import opened Sentences
  import opened Decoder
  import opened ExampleSupport
  import opened SentenceEncoding
  import opened Publisher

  /** The line a receiver writes for a header and fields. */
  function Written(header: string, fields: seq<string>): string
  {
    Sentence(header, fields, HexByte(Checksum(Join([header] + fields, ',')) as int)) + "\r\n"
  }

  // ---------------------------------------------------------------------------
  // Rendered fields travel on the wire unchanged

  /** Digits, points and minus signs: what every numeric rendering is made of. */
  predicate NumericText(s: string)
  {
    forall k :: 0 <= k < |s| ==> IsDigit(s[k]) || s[k] == '.' || s[k] == '-'
  }

  lemma NumericWire(s: string)
    requires NumericText(s)
    ensures WireField(s)
  {
    assert ',' !in s && '*' !in s && '$' !in s && '\r' !in s by {
      forall k | 0 <= k < |s| ensures s[k] != ',' && s[k] != '*' && s[k] != '$' && s[k] != '\r' {
        assert IsDigit(s[k]) || s[k] == '.' || s[k] == '-';
      }
    }
  }

  lemma NumericAppend(a: string, b: string)
    requires NumericText(a) && NumericText(b)
    ensures NumericText(a + b)
  {
    forall k | 0 <= k < |a + b| ensures IsDigit((a + b)[k]) || (a + b)[k] == '.' || (a + b)[k] == '-' {
      if k < |a| { assert (a + b)[k] == a[k]; } else { assert (a + b)[k] == b[k - |a|]; }
    }
  }

  lemma DigitsNumeric(s: string)
    requires AllDigits(s)
    ensures NumericText(s)
  {
  }

  lemma UnsignedNumeric(d: Decimal)
    ensures NumericText(UnsignedText(d))
  {
    DigitsNumeric(NatToDigits(d.whole));
    DigitsNumeric(PadDigits(d.fraction, d.places));
    NumericAppend(NatToDigits(d.whole), ".");
    NumericAppend(NatToDigits(d.whole) + ".", PadDigits(d.fraction, d.places));
  }

  /** A written decimal is a wire field. */
  lemma DecimalWire(d: Decimal)
    ensures WireField(DecimalText(d))
  {
    UnsignedNumeric(d);
    if d.negative {
      NumericAppend("-", UnsignedText(d));
    }
    NumericWire(DecimalText(d));
  }

  /** A written integer is a wire field. */
  lemma IntWire(n: int)
    ensures WireField(IntToString(n))
  {
    DigitsNumeric(if n < 0 then NatToDigits(-n) else NatToDigits(n));
    if n < 0 {
      NumericAppend("-", NatToDigits(-n));
    }
    NumericWire(IntToString(n));
  }

  /** A written time of day is a wire field. */
  lemma TimeWire(t: TimeOfDay)
    requires ValidTime(t)
    ensures WireField(TimeText(t))
  {
    var hms := TwoDigits(t.hours) + TwoDigits(t.minutes) + TwoDigits(t.seconds);
    AllDigitsAppend(TwoDigits(t.hours), TwoDigits(t.minutes));
    AllDigitsAppend(TwoDigits(t.hours) + TwoDigits(t.minutes), TwoDigits(t.seconds));
    DigitsNumeric(hms);
    DigitsNumeric(PadDigits(t.fraction, t.places));
    NumericAppend(hms, ".");
    NumericAppend(hms + ".", PadDigits(t.fraction, t.places));
    NumericWire(TimeText(t));
  }

  /** A written position is a wire field, and so is its hemisphere letter. */
  lemma PositionWire(p: Position, positive: string, negative: string)
    requires ValidPosition(p, positive, negative) && WireField(positive) && WireField(negative)
    ensures WireField(PositionText(p)) && WireField(p.hemisphere)
  {
    UnsignedNumeric(Decimal(false, 100 * p.degrees + p.minutes.whole, p.minutes.fraction, p.minutes.places));
    NumericWire(PositionText(p));
  }

  /** A written date is a wire field. */
  lemma DateWire(d: CalendarDate)
    requires 2000 <= d.year <= 2099
    ensures WireField(DateText(d))
  {
    AllDigitsAppend(PadDigits(d.day, 2), PadDigits(d.month, 2));
    AllDigitsAppend(PadDigits(d.day, 2) + PadDigits(d.month, 2), PadDigits(d.year - 2000, 2));
    DigitsNumeric(DateText(d));
    NumericWire(DateText(d));
  }

  /** The checksum trailer is a wire field. */
  lemma TrailerWire(b: uint8)
    ensures WireField(HexByte(b))
  {
    var s := HexByte(b);
    assert IsHexDigit(s[0]) && IsHexDigit(s[1]);
  }

  lemma SatelliteFieldsWire(satellites: seq<SatelliteInfo>)
    ensures WireFields(SatelliteFields(satellites))
    decreases |satellites|
  {
    if satellites != [] {
      var s := satellites[0];
      IntWire(s.prn);
      IntWire(s.elevation);
      IntWire(s.azimuth);
      IntWire(s.snr);
      var tuple := [IntToString(s.prn), IntToString(s.elevation), IntToString(s.azimuth), IntToString(s.snr)];
      SatelliteFieldsWire(satellites[1..]);
      WireFieldsAppend(tuple, SatelliteFields(satellites[1..]));
    }
  }

  lemma IdSlotsWire(ids: seq<int>, blanks: nat)
    ensures WireFields(IdSlots(ids, blanks))
    decreases |ids|
  {
    if ids == [] {
      var empty: seq<string> := seq(blanks, _ => "");
      assert forall k :: 0 <= k < |empty| ==> empty[k] == "";
    } else {
      IntWire(ids[0]);
      IdSlotsWire(ids[1..], blanks);
      WireFieldsAppend([IntToString(ids[0])], IdSlots(ids[1..], blanks));
    }
  }

  lemma WireNine(a0: string, a1: string, a2: string, a3: string, a4: string, a5: string, a6: string,
                 a7: string, a8: string, rest: seq<string>)
    requires WireField(a0) && WireField(a1) && WireField(a2) && WireField(a3) && WireField(a4)
    requires WireField(a5) && WireField(a6) && WireField(a7) && WireField(a8) && WireFields(rest)
    ensures WireFields([a0, a1, a2, a3, a4, a5, a6, a7, a8] + rest)
  {
    WireFieldsAppend([a0, a1, a2, a3, a4, a5, a6, a7, a8], rest);
  }

  // ---------------------------------------------------------------------------
  // One written line, one event

  /** A header of a two-character talker and a three-letter type code. */
  lemma HeaderOf(talker: string, code: string)
    requires |talker| == 2 && WireField(talker) && |code| == 3 && WireField(code)
    ensures |talker + code| == 5 && WireField(talker + code) && (talker + code)[2..5] == code
  {
    var h := talker + code;
    assert h[2..5] == code;
    assert ',' !in h && '*' !in h && '$' !in h && '\r' !in h && IsByteText(h) by {
      forall i | 0 <= i < |h| ensures h[i] != ',' && h[i] != '*' && h[i] != '$' && h[i] != '\r' && h[i] as int < 256 {
        if i < 2 { assert h[i] == talker[i]; } else { assert h[i] == code[i - 2]; }
      }
    }
  }

  /** The line a receiver writes for fields that decode under the header's type code is
      reported as exactly their event. */
  lemma WrittenSentence(header: string, fields: seq<string>, e: Event)
    requires |header| == 5 && WireField(header) && WireFields(fields)
    requires DecodeFields(header[2..5], fields) == Some(e)
    ensures IsByteText(Written(header, fields)) && Events(Bytes(Written(header, fields))) == [e]
  {
    var payload := Join([header] + fields, ',');
    var trailer := HexByte(Checksum(payload) as int);
    ChecksumMatchesIff(payload, trailer);
    TrailerWire(Checksum(payload) as int);
    FramedSentence(header, fields, trailer, e);
  }

  /** A line reported as one event publishes the samples of that event. */
  lemma LinePublished(line: string, e: Event, sensorId: string)
    requires IsByteText(line) && Events(Bytes(line)) == [e]
    ensures AllSamples(Events(Bytes(line)), sensorId) == SamplesOf(e, sensorId)
  {
    assert AllSamples([e], sensorId) == SamplesOf(e, sensorId) + [];
  }

  // ---------------------------------------------------------------------------
  // The rendered fields of each sentence type are wire fields

  lemma GgaFieldsWire(time: TimeOfDay, latitude: Position, longitude: Position, quality: int,
                      numSatellites: int, horizontalDilution: Decimal, altitude: Decimal, unreported: seq<string>)
    requires ValidGga(time, latitude, longitude, quality, numSatellites, horizontalDilution, altitude, unreported)
    requires WireFields(unreported)
    ensures WireFields(GgaFields(time, latitude, longitude, quality, numSatellites, horizontalDilution, altitude, unreported))
  {
    TimeWire(time);
    PositionWire(latitude, "N", "S");
    PositionWire(longitude, "E", "W");
    IntWire(quality);
    IntWire(numSatellites);
    DecimalWire(horizontalDilution);
    DecimalWire(altitude);
    WireNine(TimeText(time), PositionText(latitude), latitude.hemisphere, PositionText(longitude),
             longitude.hemisphere, IntToString(quality), IntToString(numSatellites),
             DecimalText(horizontalDilution), DecimalText(altitude), unreported);
  }

  lemma GllFieldsWire(latitude: Position, longitude: Position, time: TimeOfDay, validity: string)
    requires ValidTime(time) && ValidPosition(latitude, "N", "S") && ValidPosition(longitude, "E", "W")
    requires WireField(validity)
    ensures WireFields(GllFields(latitude, longitude, time, validity))
  {
    PositionWire(latitude, "N", "S");
    PositionWire(longitude, "E", "W");
    TimeWire(time);
    WireSix(PositionText(latitude), latitude.hemisphere, PositionText(longitude), longitude.hemisphere,
            TimeText(time), validity);
  }

  lemma WireSix(a0: string, a1: string, a2: string, a3: string, a4: string, a5: string)
    requires WireField(a0) && WireField(a1) && WireField(a2) && WireField(a3) && WireField(a4) && WireField(a5)
    ensures WireFields([a0, a1, a2, a3, a4, a5])
  {
    SixFields(a0, a1, a2, a3, a4, a5);
  }

  lemma RmcFieldsWire(time: TimeOfDay, validity: string, latitude: Position, longitude: Position,
                      speed: Decimal, course: Decimal, date: CalendarDate, unreported: seq<string>)
    requires ValidRmc(time, latitude, longitude, speed, course, date, unreported)
    requires WireField(validity) && WireFields(unreported)
    ensures WireFields(RmcFields(time, validity, latitude, longitude, speed, course, date, unreported))
  {
    TimeWire(time);
    PositionWire(latitude, "N", "S");
    PositionWire(longitude, "E", "W");
    DecimalWire(speed);
    DecimalWire(course);
    DateWire(date);
    WireNine(TimeText(time), validity, PositionText(latitude), latitude.hemisphere, PositionText(longitude),
             longitude.hemisphere, DecimalText(speed), DecimalText(course), DateText(date), unreported);
  }

  lemma GsvFieldsWire(totalMessages: int, messageNumber: int, totalSatellitesInView: int,
                      satellites: seq<SatelliteInfo>)
    ensures WireFields(GsvFields(totalMessages, messageNumber, totalSatellitesInView, satellites))
  {
    var counts := [IntToString(totalMessages), IntToString(messageNumber), IntToString(totalSatellitesInView)];
    IntWire(totalMessages);
    IntWire(messageNumber);
    IntWire(totalSatellitesInView);
    SatelliteFieldsWire(satellites);
    WireFieldsAppend(counts, SatelliteFields(satellites));
  }

  lemma GsaFieldsWire(mode: string, fix: int, satellitesInView: seq<int>, pdop: Decimal, hdop: Decimal,
                      vdop: Decimal)
    requires |satellitesInView| <= 12 && WireField(mode)
    ensures WireFields(GsaFields(mode, fix, satellitesInView, pdop, hdop, vdop))
  {
    var head := [mode, IntToString(fix)];
    var dilutions := [DecimalText(pdop), DecimalText(hdop), DecimalText(vdop)];
    IntWire(fix);
    IdSlotsWire(satellitesInView, 12 - |satellitesInView|);
    DecimalWire(pdop);
    DecimalWire(hdop);
    DecimalWire(vdop);
    WireFieldsAppend(head, GsaSlots(satellitesInView));
    WireFieldsAppend(head + GsaSlots(satellitesInView), dilutions);
  }

  // ---------------------------------------------------------------------------
  // Each sentence type on the wire

  /** Every GGA fix a receiver transmits is reported as that fix. */
  lemma GgaWritten(talker: string, time: TimeOfDay, latitude: Position, longitude: Position, quality: int,
                   numSatellites: int, horizontalDilution: Decimal, altitude: Decimal, unreported: seq<string>)
    requires |talker| == 2 && WireField(talker) && WireFields(unreported)
    requires ValidGga(time, latitude, longitude, quality, numSatellites, horizontalDilution, altitude, unreported)
    ensures var line := Written(talker + "GGA", GgaFields(time, latitude, longitude, quality, numSatellites,
                                                          horizontalDilution, altitude, unreported));
      IsByteText(line)
      && Events(Bytes(line)) == [GGA(Millis(time), PositionValue(latitude), PositionValue(longitude), quality,
                                     numSatellites, DecimalValue(horizontalDilution), DecimalValue(altitude))]
  {
    var f := GgaFields(time, latitude, longitude, quality, numSatellites, horizontalDilution, altitude, unreported);
    var e := GGA(Millis(time), PositionValue(latitude), PositionValue(longitude), quality,
                 numSatellites, DecimalValue(horizontalDilution), DecimalValue(altitude));
    GgaFieldsWire(time, latitude, longitude, quality, numSatellites, horizontalDilution, altitude, unreported);
    HeaderOf(talker, "GGA");
    GgaRoundTrip(time, latitude, longitude, quality, numSatellites, horizontalDilution, altitude, unreported);
    WrittenSentence(talker + "GGA", f, e);
  }

  /** Every GLL fix a receiver transmits is reported as that fix. */
  lemma GllWritten(talker: string, latitude: Position, longitude: Position, time: TimeOfDay, validity: string)
    requires |talker| == 2 && WireField(talker) && WireField(validity)
    requires ValidTime(time) && ValidPosition(latitude, "N", "S") && ValidPosition(longitude, "E", "W")
    ensures var line := Written(talker + "GLL", GllFields(latitude, longitude, time, validity));
      IsByteText(line)
      && Events(Bytes(line)) == [GLL(Millis(time), PositionValue(latitude), PositionValue(longitude), validity)]
  {
    var f := GllFields(latitude, longitude, time, validity);
    var e := GLL(Millis(time), PositionValue(latitude), PositionValue(longitude), validity);
    GllFieldsWire(latitude, longitude, time, validity);
    HeaderOf(talker, "GLL");
    DispatchGLL(f);
    GllRoundTrip(latitude, longitude, time, validity);
    WrittenSentence(talker + "GLL", f, e);
  }

  /** Every RMC fix a receiver transmits is reported as that fix. */
  lemma RmcWritten(talker: string, time: TimeOfDay, validity: string, latitude: Position, longitude: Position,
                   speed: Decimal, course: Decimal, date: CalendarDate, unreported: seq<string>)
    requires |talker| == 2 && WireField(talker) && WireField(validity) && WireFields(unreported)
    requires ValidRmc(time, latitude, longitude, speed, course, date, unreported)
    ensures var line := Written(talker + "RMC", RmcFields(time, validity, latitude, longitude, speed, course, date, unreported));
      IsByteText(line)
      && Events(Bytes(line)) == [RMC(Millis(time), PositionValue(latitude), PositionValue(longitude),
                                     DecimalValue(speed), DecimalValue(course), date, validity)]
  {
    var f := RmcFields(time, validity, latitude, longitude, speed, course, date, unreported);
    var e := RMC(Millis(time), PositionValue(latitude), PositionValue(longitude),
                 DecimalValue(speed), DecimalValue(course), date, validity);
    RmcFieldsWire(time, validity, latitude, longitude, speed, course, date, unreported);
    HeaderOf(talker, "RMC");
    DispatchRMC(f);
    RmcRoundTrip(time, validity, latitude, longitude, speed, course, date, unreported);
    WrittenSentence(talker + "RMC", f, e);
  }

  /** Every GSV sentence a receiver transmits with up to four satellites is reported
      with its counts and satellites. */
  lemma GsvWritten(talker: string, totalMessages: int, messageNumber: int, totalSatellitesInView: int,
                   satellites: seq<SatelliteInfo>)
    requires |talker| == 2 && WireField(talker)
    requires ValidGsv(totalMessages, messageNumber, totalSatellitesInView, satellites)
    ensures var line := Written(talker + "GSV", GsvFields(totalMessages, messageNumber, totalSatellitesInView, satellites));
      IsByteText(line)
      && Events(Bytes(line)) == [GSV(totalMessages, messageNumber, totalSatellitesInView, satellites)]
  {
    var f := GsvFields(totalMessages, messageNumber, totalSatellitesInView, satellites);
    GsvFieldsWire(totalMessages, messageNumber, totalSatellitesInView, satellites);
    HeaderOf(talker, "GSV");
    DispatchGSV(f);
    GsvRoundTrip(totalMessages, messageNumber, totalSatellitesInView, satellites);
    WrittenSentence(talker + "GSV", f, GSV(totalMessages, messageNumber, totalSatellitesInView, satellites));
  }

  /** Every GSA sentence a receiver transmits is reported with its mode, fix, ids and
      dilutions. */
  lemma GsaWritten(talker: string, mode: string, fix: int, satellitesInView: seq<int>, pdop: Decimal,
                   hdop: Decimal, vdop: Decimal)
    requires |talker| == 2 && WireField(talker) && WireField(mode)
    requires ValidGsa(fix, satellitesInView, pdop, hdop, vdop)
    ensures var line := Written(talker + "GSA", GsaFields(mode, fix, satellitesInView, pdop, hdop, vdop));
      IsByteText(line)
      && Events(Bytes(line)) == [GSA(mode, fix, satellitesInView, DecimalValue(pdop), DecimalValue(hdop),
                                     DecimalValue(vdop))]
  {
    var f := GsaFields(mode, fix, satellitesInView, pdop, hdop, vdop);
    var e := GSA(mode, fix, satellitesInView, DecimalValue(pdop), DecimalValue(hdop), DecimalValue(vdop));
    GsaFieldsWire(mode, fix, satellitesInView, pdop, hdop, vdop);
    HeaderOf(talker, "GSA");
    DispatchGSA(f);
    GsaRoundTrip(mode, fix, satellitesInView, pdop, hdop, vdop);
    WrittenSentence(talker + "GSA", f, e);
  }

  // ---------------------------------------------------------------------------
  // What the publisher makes of a transmitted fix

  /** A transmitted GGA fix of nonzero quality publishes its position and altitude,
      dated by its time of day on the epoch day; one of quality 0 publishes nothing. */
  lemma GgaWrittenPublished(talker: string, time: TimeOfDay, latitude: Position, longitude: Position,
                            quality: int, numSatellites: int, horizontalDilution: Decimal, altitude: Decimal,
                            unreported: seq<string>, sensorId: string)
    requires |talker| == 2 && WireField(talker) && WireFields(unreported)
    requires ValidGga(time, latitude, longitude, quality, numSatellites, horizontalDilution, altitude, unreported)
    ensures var line := Written(talker + "GGA", GgaFields(time, latitude, longitude, quality, numSatellites,
                                                          horizontalDilution, altitude, unreported));
      IsByteText(line)
      && AllSamples(Events(Bytes(line)), sensorId)
         == if quality == 0 then []
            else [PositionData(sensorId, Millis(time), PositionValue(latitude), PositionValue(longitude)),
                  AltitudeData(sensorId, Millis(time), DecimalValue(altitude))]
  {
    var e := GGA(Millis(time), PositionValue(latitude), PositionValue(longitude), quality, numSatellites,
                 DecimalValue(horizontalDilution), DecimalValue(altitude));
    GgaWritten(talker, time, latitude, longitude, quality, numSatellites, horizontalDilution, altitude, unreported);
    LinePublished(Written(talker + "GGA", GgaFields(time, latitude, longitude, quality, numSatellites,
                                                    horizontalDilution, altitude, unreported)), e, sensorId);
    GgaSamples(Millis(time), PositionValue(latitude), PositionValue(longitude), quality, numSatellites,
               DecimalValue(horizontalDilution), DecimalValue(altitude), sensorId);
  }

  /** A line reported as an RMC fix of validity "A" publishes its position and course,
      dated by its date and time of day; any other validity publishes nothing. With
      RmcWritten this covers every RMC fix a receiver transmits. */
  lemma RmcLinePublished(line: string, time: int, latitude: real, longitude: real, speed: real, course: real,
                         date: CalendarDate, validity: string, sensorId: string)
    requires IsByteText(line) && Events(Bytes(line)) == [RMC(time, latitude, longitude, speed, course, date, validity)]
    ensures var stamp := DaysSinceEpoch(date) * 86_400_000 + time;
      AllSamples(Events(Bytes(line)), sensorId)
      == if validity != "A" then []
         else [PositionData(sensorId, stamp, latitude, longitude), CourseData(sensorId, stamp, speed, course)]
  {
    LinePublished(line, RMC(time, latitude, longitude, speed, course, date, validity), sensorId);
    RmcSamples(time, latitude, longitude, speed, course, date, validity, sensorId);
  }
}
