/** What a receiver writes: every reported field of the five sentence types rendered
    from a value, and the laws that the decoder reads each rendering back as that
    value, for all values, one field, one sentence and one line on the wire at a time. */
module SentenceEncoding {
  import opened Wrappers
  import opened TextConversions
  import opened Coordinates
  import opened Calendar
  import opened Framing
  import opened Sentences
  import opened Decoder
  import opened ExampleSupport

  // ---------------------------------------------------------------------------
  // Numbers

  /** A decimal as a receiver writes it: an optional '-', the whole part, '.', then
      exactly `places` fraction digits (leading zeros included). */
  datatype Decimal = Decimal(negative: bool, whole: nat, fraction: nat, places: nat)

  predicate ValidDecimal(d: Decimal)
  {
    d.fraction < Pow10(d.places)
  }

  function Magnitude(d: Decimal): real
  {
    d.whole as real + d.fraction as real / Pow10(d.places) as real
  }

  function DecimalValue(d: Decimal): real
  {
    if d.negative then -Magnitude(d) else Magnitude(d)
  }

  function UnsignedText(d: Decimal): string
  {
    NatToDigits(d.whole) + "." + PadDigits(d.fraction, d.places)
  }

  function DecimalText(d: Decimal): string
  {
    if d.negative then "-" + UnsignedText(d) else UnsignedText(d)
  }

  /** Both double conversions read a written decimal back as its value. */
  lemma DecimalRoundTrip(d: Decimal)
    requires ValidDecimal(d)
    ensures ParseDecimal(DecimalText(d)) == Some(DecimalValue(d))
    ensures LexicalCastDefaultReal(DecimalText(d), 0.0) == DecimalValue(d)
  {
    var u := UnsignedText(d);
    ParseDecimalOfRendering(d.whole, d.fraction, d.places);
    assert u[0] == NatToDigits(d.whole)[0];
    ParseDecimalUnsigned(u);
    if d.negative {
      ParseDecimalSign(u);
    }
  }

  /** lexical_cast<int> and lexical_cast_default read a 32-bit integer's rendering back. */
  lemma IntRoundTrip(n: int)
    requires InInt32(n)
    ensures ParseInt(IntToString(n)) == Some(n) && LexicalCastDefault(IntToString(n), 0) == n
  {
    ParseIntRoundTrip(n);
  }

  // ---------------------------------------------------------------------------
  // Time, position and date fields

  /** A time of day hhmmss.f...f with `places` fraction digits. */
  datatype TimeOfDay = TimeOfDay(hours: nat, minutes: nat, seconds: nat, fraction: nat, places: nat)

  /** A time a receiver can write: each part in range and the fraction in its digits. */
  predicate WellFormedTime(t: TimeOfDay)
  {
    t.hours < 24 && t.minutes < 60 && t.seconds < 60 && 0 < t.places && t.fraction < Pow10(t.places)
  }

  /** A written time the decoder accepts: its fraction is whole milliseconds or below
      one, so "609", "6090" and "0005" are, and "6095" is not. */
  predicate ValidTime(t: TimeOfDay)
  {
    WellFormedTime(t) && CastMillis(t.fraction, t.places)
  }

  function TimeText(t: TimeOfDay): string
    requires WellFormedTime(t)
  {
    TwoDigits(t.hours) + TwoDigits(t.minutes) + TwoDigits(t.seconds) + "." + PadDigits(t.fraction, t.places)
  }

  /** The milliseconds since midnight the time stands for. */
  function Millis(t: TimeOfDay): int
    requires ValidTime(t)
  {
    t.hours * 3_600_000 + t.minutes * 60_000 + t.seconds * 1000 + FractionMillis(t.fraction, t.places)
  }

  /** Every written time of day the decoder accepts is read back as its milliseconds. */
  lemma TimeRoundTrip(t: TimeOfDay)
    requires ValidTime(t)
    ensures FieldTime(TimeText(t)) == Some(Millis(t))
  {
    var s, ms := TimeText(t), Millis(t);
    TimeOfFieldRoundTrip(t.hours, t.minutes, t.seconds, t.fraction, t.places);
    assert TimeOfField(s) == Time(ms);
    FieldTimeOfTime(s, ms);
  }

  /** A written time whose fraction is at least 1 ms and not a whole number of
      milliseconds is bad_lexical_cast, so the time field, and with it the sentence,
      fails. */
  lemma TimeRejected(t: TimeOfDay)
    requires WellFormedTime(t) && !CastMillis(t.fraction, t.places)
    ensures TimeOfField(TimeText(t)) == BadLexicalCast && FieldTime(TimeText(t)) == None
  {
    TimeOfFieldRoundTrip(t.hours, t.minutes, t.seconds, t.fraction, t.places);
  }

  /** A written time of day falls within one day. */
  lemma MillisWithinDay(t: TimeOfDay)
    requires ValidTime(t)
    ensures 0 <= Millis(t) < 86_400_000
  {
    CaptureMillis(t.fraction, t.places);
  }

  /** A position: whole degrees, minutes below 60 written as a decimal, and the
      hemisphere letter. The field is the degrees times 100 plus the minutes. */
  datatype Position = Position(degrees: nat, minutes: Decimal, hemisphere: string)

  predicate ValidPosition(p: Position, positive: string, negative: string)
  {
    ValidDecimal(p.minutes) && !p.minutes.negative && p.minutes.whole < 60
    && (p.hemisphere == positive || p.hemisphere == negative)
  }

  function PositionText(p: Position): string
  {
    UnsignedText(Decimal(false, 100 * p.degrees + p.minutes.whole, p.minutes.fraction, p.minutes.places))
  }

  /** The signed decimal degrees of a position. */
  function PositionValue(p: Position): real
    requires IsHemisphere(p.hemisphere)
  {
    ToDecimalDegree(p.degrees, DecimalValue(p.minutes), p.hemisphere)
  }

  /** A written position and its hemisphere are read back as its decimal degrees. */
  lemma PositionRoundTrip(p: Position, positive: string, negative: string)
    requires (positive, negative) == ("N", "S") || (positive, negative) == ("E", "W")
    requires ValidPosition(p, positive, negative)
    ensures DecodeCoordinate(PositionText(p), p.hemisphere, positive, negative) == Some(PositionValue(p))
  {
    PositionTextValue(p.degrees, p.minutes);
    CoordinateOfText(PositionText(p), p.hemisphere, positive, negative, p.degrees, DecimalValue(p.minutes));
  }

  /** The position field reads as the decimal 100 * degrees + minutes. */
  lemma PositionTextValue(degrees: nat, minutes: Decimal)
    requires ValidDecimal(minutes) && !minutes.negative && minutes.whole < 60
    ensures 0.0 <= DecimalValue(minutes) < 100.0
    ensures ParseDecimal(UnsignedText(Decimal(false, 100 * degrees + minutes.whole, minutes.fraction, minutes.places)))
         == Some(100.0 * degrees as real + DecimalValue(minutes))
  {
    var d := Decimal(false, 100 * degrees + minutes.whole, minutes.fraction, minutes.places);
    ShiftedMinutes(degrees, minutes);
    DecimalRoundTrip(d);
  }

  lemma CoordinateOfText(text: string, hemisphere: string, positive: string, negative: string,
                         degrees: nat, minutes: real)
    requires (positive, negative) == ("N", "S") || (positive, negative) == ("E", "W")
    requires hemisphere == positive || hemisphere == negative
    requires ParseDecimal(text) == Some(100.0 * degrees as real + minutes) && 0.0 <= minutes < 100.0
    ensures DecodeCoordinate(text, hemisphere, positive, negative) == Some(ToDecimalDegree(degrees, minutes, hemisphere))
  {
    CoordinateValueParts(degrees, minutes, hemisphere);
  }

  /** The minutes of a position, written after its degrees, read as 100 * degrees + minutes. */
  lemma ShiftedMinutes(degrees: nat, m: Decimal)
    requires ValidDecimal(m) && !m.negative && m.whole < 60
    ensures 0.0 <= DecimalValue(m) < 100.0
    ensures DecimalValue(Decimal(false, 100 * degrees + m.whole, m.fraction, m.places))
         == 100.0 * degrees as real + DecimalValue(m)
  {
    var q := m.fraction as real / Pow10(m.places) as real;
    FractionBelowOne(m.fraction as real, Pow10(m.places) as real);
    assert DecimalValue(m) == m.whole as real + q;
    assert DecimalValue(Decimal(false, 100 * degrees + m.whole, m.fraction, m.places))
        == (100 * degrees + m.whole) as real + q;
  }

  /** An RMC date ddmmyy of this century. */
  function DateText(d: CalendarDate): string
    requires 2000 <= d.year <= 2099
  {
    PadDigits(d.day, 2) + PadDigits(d.month, 2) + PadDigits(d.year - 2000, 2)
  }

  /** Every date of this century reads back from its DDMMYY rendering. */
  lemma DateRoundTrip(d: CalendarDate)
    requires 2000 <= d.year <= 2099
    ensures DecodeDate(DateText(d)) == Some(d)
  {
    DecodeDateRoundTrip(d);
  }

  // ---------------------------------------------------------------------------
  // The fields of each sentence type

  /** GGA: the nine reported fields, then five more that are not reported. */
  function GgaFields(time: TimeOfDay, latitude: Position, longitude: Position, quality: int,
                     numSatellites: int, horizontalDilution: Decimal, altitude: Decimal,
                     unreported: seq<string>): seq<string>
    requires ValidTime(time)
  {
    [TimeText(time), PositionText(latitude), latitude.hemisphere, PositionText(longitude), longitude.hemisphere,
     IntToString(quality), IntToString(numSatellites), DecimalText(horizontalDilution), DecimalText(altitude)]
    + unreported
  }

  predicate ValidGga(time: TimeOfDay, latitude: Position, longitude: Position, quality: int,
                     numSatellites: int, horizontalDilution: Decimal, altitude: Decimal,
                     unreported: seq<string>)
  {
    ValidTime(time) && ValidPosition(latitude, "N", "S") && ValidPosition(longitude, "E", "W")
    && InInt32(quality) && InInt32(numSatellites) && ValidDecimal(horizontalDilution) && ValidDecimal(altitude)
    && |unreported| == 5
  }

  /** Every GGA fix a receiver writes is decoded as that fix, whatever the unreported
      fields hold. */
  lemma GgaRoundTrip(time: TimeOfDay, latitude: Position, longitude: Position, quality: int,
                     numSatellites: int, horizontalDilution: Decimal, altitude: Decimal,
                     unreported: seq<string>)
    requires ValidGga(time, latitude, longitude, quality, numSatellites, horizontalDilution, altitude, unreported)
    ensures DecodeGGA(GgaFields(time, latitude, longitude, quality, numSatellites, horizontalDilution, altitude, unreported))
         == Some(GGA(Millis(time), PositionValue(latitude), PositionValue(longitude), quality, numSatellites,
                     DecimalValue(horizontalDilution), DecimalValue(altitude)))
  {
    TimeRoundTrip(time);
    PositionRoundTrip(latitude, "N", "S");
    PositionRoundTrip(longitude, "E", "W");
    IntRoundTrip(quality);
    IntRoundTrip(numSatellites);
    DecimalRoundTrip(horizontalDilution);
    DecimalRoundTrip(altitude);
    GgaOfTexts(TimeText(time), PositionText(latitude), latitude.hemisphere, PositionText(longitude),
               longitude.hemisphere, IntToString(quality), IntToString(numSatellites),
               DecimalText(horizontalDilution), DecimalText(altitude), unreported,
               Millis(time), PositionValue(latitude), PositionValue(longitude), quality, numSatellites,
               DecimalValue(horizontalDilution), DecimalValue(altitude));
  }

  lemma GgaOfTexts(a0: string, a1: string, a2: string, a3: string, a4: string, a5: string, a6: string,
                   a7: string, a8: string, unreported: seq<string>,
                   time: int, lat: real, lon: real, quality: int, sats: int, hdop: real, alt: real)
    requires |unreported| == 5 && FieldTime(a0) == Some(time)
    requires DecodeLatitude(a1, a2) == Some(lat) && DecodeLongitude(a3, a4) == Some(lon)
    requires ParseInt(a5) == Some(quality) && ParseInt(a6) == Some(sats)
    requires ParseDecimal(a7) == Some(hdop) && ParseDecimal(a8) == Some(alt)
    ensures DecodeGGA([a0, a1, a2, a3, a4, a5, a6, a7, a8] + unreported) == Some(GGA(time, lat, lon, quality, sats, hdop, alt))
  {
    var f := [a0, a1, a2, a3, a4, a5, a6, a7, a8] + unreported;
    NineFields(a0, a1, a2, a3, a4, a5, a6, a7, a8, unreported);
    DecodeGGAOf(f, time, lat, lon, quality, sats, hdop, alt);
  }

  lemma NineFields(a0: string, a1: string, a2: string, a3: string, a4: string, a5: string, a6: string,
                   a7: string, a8: string, rest: seq<string>)
    ensures var f := [a0, a1, a2, a3, a4, a5, a6, a7, a8] + rest;
      |f| == 9 + |rest| && f[0] == a0 && f[1] == a1 && f[2] == a2 && f[3] == a3 && f[4] == a4
      && f[5] == a5 && f[6] == a6 && f[7] == a7 && f[8] == a8
  {
  }

  /** GLL: latitude, longitude, time and validity. */
  function GllFields(latitude: Position, longitude: Position, time: TimeOfDay, validity: string): seq<string>
    requires ValidTime(time)
  {
    [PositionText(latitude), latitude.hemisphere, PositionText(longitude), longitude.hemisphere,
     TimeText(time), validity]
  }

  /** Every GLL fix a receiver writes is decoded as that fix, its validity passed on. */
  lemma GllRoundTrip(latitude: Position, longitude: Position, time: TimeOfDay, validity: string)
    requires ValidTime(time) && ValidPosition(latitude, "N", "S") && ValidPosition(longitude, "E", "W")
    ensures DecodeGLL(GllFields(latitude, longitude, time, validity))
         == Some(GLL(Millis(time), PositionValue(latitude), PositionValue(longitude), validity))
  {
    TimeRoundTrip(time);
    PositionRoundTrip(latitude, "N", "S");
    PositionRoundTrip(longitude, "E", "W");
    GllOfTexts(PositionText(latitude), latitude.hemisphere, PositionText(longitude), longitude.hemisphere,
               TimeText(time), validity, PositionValue(latitude), PositionValue(longitude), Millis(time));
  }

  lemma GllOfTexts(a0: string, a1: string, a2: string, a3: string, a4: string, a5: string,
                   lat: real, lon: real, time: int)
    requires DecodeLatitude(a0, a1) == Some(lat) && DecodeLongitude(a2, a3) == Some(lon)
    requires FieldTime(a4) == Some(time)
    ensures DecodeGLL([a0, a1, a2, a3, a4, a5]) == Some(GLL(time, lat, lon, a5))
  {
    var f := [a0, a1, a2, a3, a4, a5];
    SixFields(a0, a1, a2, a3, a4, a5);
    DecodeGLLOf(f, lat, lon, time);
  }

  lemma SixFields(a0: string, a1: string, a2: string, a3: string, a4: string, a5: string)
    ensures var f := [a0, a1, a2, a3, a4, a5];
      |f| == 6 && f[0] == a0 && f[1] == a1 && f[2] == a2 && f[3] == a3 && f[4] == a4 && f[5] == a5
  {
  }

  /** RMC: the nine reported fields, then the magnetic variation and its direction. */
  function RmcFields(time: TimeOfDay, validity: string, latitude: Position, longitude: Position,
                     speed: Decimal, course: Decimal, date: CalendarDate, unreported: seq<string>): seq<string>
    requires ValidTime(time) && 2000 <= date.year <= 2099
  {
    [TimeText(time), validity, PositionText(latitude), latitude.hemisphere, PositionText(longitude),
     longitude.hemisphere, DecimalText(speed), DecimalText(course), DateText(date)] + unreported
  }

  predicate ValidRmc(time: TimeOfDay, latitude: Position, longitude: Position, speed: Decimal,
                     course: Decimal, date: CalendarDate, unreported: seq<string>)
  {
    ValidTime(time) && ValidPosition(latitude, "N", "S") && ValidPosition(longitude, "E", "W")
    && ValidDecimal(speed) && ValidDecimal(course) && 2000 <= date.year <= 2099 && |unreported| == 2
  }

  /** Every RMC fix a receiver writes is decoded as that fix, with its date and validity. */
  lemma RmcRoundTrip(time: TimeOfDay, validity: string, latitude: Position, longitude: Position,
                     speed: Decimal, course: Decimal, date: CalendarDate, unreported: seq<string>)
    requires ValidRmc(time, latitude, longitude, speed, course, date, unreported)
    ensures DecodeRMC(RmcFields(time, validity, latitude, longitude, speed, course, date, unreported))
         == Some(RMC(Millis(time), PositionValue(latitude), PositionValue(longitude), DecimalValue(speed),
                     DecimalValue(course), date, validity))
  {
    TimeRoundTrip(time);
    PositionRoundTrip(latitude, "N", "S");
    PositionRoundTrip(longitude, "E", "W");
    DecimalRoundTrip(speed);
    DecimalRoundTrip(course);
    DateRoundTrip(date);
    RmcOfTexts(TimeText(time), validity, PositionText(latitude), latitude.hemisphere, PositionText(longitude),
               longitude.hemisphere, DecimalText(speed), DecimalText(course), DateText(date), unreported,
               Millis(time), PositionValue(latitude), PositionValue(longitude), DecimalValue(speed),
               DecimalValue(course), date);
  }

  lemma RmcOfTexts(a0: string, a1: string, a2: string, a3: string, a4: string, a5: string, a6: string,
                   a7: string, a8: string, unreported: seq<string>,
                   time: int, lat: real, lon: real, speed: real, course: real, date: CalendarDate)
    requires |unreported| == 2 && FieldTime(a0) == Some(time)
    requires DecodeLatitude(a2, a3) == Some(lat) && DecodeLongitude(a4, a5) == Some(lon)
    requires ParseDecimal(a6) == Some(speed) && LexicalCastDefaultReal(a7, 0.0) == course
    requires DecodeDate(a8) == Some(date)
    ensures DecodeRMC([a0, a1, a2, a3, a4, a5, a6, a7, a8] + unreported)
         == Some(RMC(time, lat, lon, speed, course, date, a1))
  {
    var f := [a0, a1, a2, a3, a4, a5, a6, a7, a8] + unreported;
    NineFields(a0, a1, a2, a3, a4, a5, a6, a7, a8, unreported);
    DecodeRMCOf(f, time, lat, lon, speed, course, date);
  }

  /** The satellite tuples of a GSV sentence: prn, elevation, azimuth, snr. */
  function SatelliteFields(satellites: seq<SatelliteInfo>): (f: seq<string>)
    ensures |f| == 4 * |satellites|
  {
    if satellites == [] then []
    else
      var s := satellites[0];
      [IntToString(s.prn), IntToString(s.elevation), IntToString(s.azimuth), IntToString(s.snr)]
      + SatelliteFields(satellites[1..])
  }

  predicate ValidSatellite(s: SatelliteInfo)
  {
    InInt32(s.prn) && InInt32(s.elevation) && InInt32(s.azimuth) && InInt32(s.snr)
  }

  predicate ValidSatellites(satellites: seq<SatelliteInfo>)
  {
    forall i :: 0 <= i < |satellites| ==> ValidSatellite(satellites[i])
  }

  /** Written satellite tuples are read back as those satellites, in order. */
  lemma {:induction false} SatellitesRoundTrip(satellites: seq<SatelliteInfo>)
    requires ValidSatellites(satellites)
    ensures DecodeSatellites(SatelliteFields(satellites)) == Some(satellites)
  {
    if satellites != [] {
      var s, rest := satellites[0], satellites[1..];
      assert ValidSatellite(s);
      assert ValidSatellites(rest) by {
        forall i | 0 <= i < |rest| ensures ValidSatellite(rest[i]) {
          assert rest[i] == satellites[i + 1];
        }
      }
      SatellitesRoundTrip(rest);
      IntRoundTrip(s.prn);
      IntRoundTrip(s.elevation);
      IntRoundTrip(s.azimuth);
      IntRoundTrip(s.snr);
      SatelliteOfTexts(IntToString(s.prn), IntToString(s.elevation), IntToString(s.azimuth), IntToString(s.snr),
                       SatelliteFields(rest), s, rest);
      assert satellites == [s] + rest;
    }
  }

  lemma SatelliteOfTexts(a0: string, a1: string, a2: string, a3: string, more: seq<string>,
                         s: SatelliteInfo, decoded: seq<SatelliteInfo>)
    requires |more| % 4 == 0 && DecodeSatellites(more) == Some(decoded)
    requires a0 != "" && ParseInt(a0) == Some(s.prn)
    requires LexicalCastDefault(a1, 0) == s.elevation && LexicalCastDefault(a2, 0) == s.azimuth
    requires LexicalCastDefault(a3, 0) == s.snr
    ensures DecodeSatellites([a0, a1, a2, a3] + more) == Some([s] + decoded)
  {
    var f := [a0, a1, a2, a3] + more;
    assert f[4..] == more && f[0] == a0 && f[1] == a1 && f[2] == a2 && f[3] == a3;
  }

  /** GSV: the message counts and the satellites in view, then up to four tuples. */
  function GsvFields(totalMessages: int, messageNumber: int, totalSatellitesInView: int,
                     satellites: seq<SatelliteInfo>): seq<string>
  {
    [IntToString(totalMessages), IntToString(messageNumber), IntToString(totalSatellitesInView)]
    + SatelliteFields(satellites)
  }

  predicate ValidGsv(totalMessages: int, messageNumber: int, totalSatellitesInView: int,
                     satellites: seq<SatelliteInfo>)
  {
    InInt32(totalMessages) && InInt32(messageNumber) && InInt32(totalSatellitesInView)
    && |satellites| <= 4 && ValidSatellites(satellites)
  }

  /** Every GSV sentence a receiver writes with up to four satellites is decoded with
      its counts and all of its satellites, in order. */
  lemma GsvRoundTrip(totalMessages: int, messageNumber: int, totalSatellitesInView: int,
                     satellites: seq<SatelliteInfo>)
    requires ValidGsv(totalMessages, messageNumber, totalSatellitesInView, satellites)
    ensures DecodeGSV(GsvFields(totalMessages, messageNumber, totalSatellitesInView, satellites))
         == Some(GSV(totalMessages, messageNumber, totalSatellitesInView, satellites))
  {
    IntRoundTrip(totalMessages);
    IntRoundTrip(messageNumber);
    IntRoundTrip(totalSatellitesInView);
    SatellitesRoundTrip(satellites);
    GsvOfTexts(IntToString(totalMessages), IntToString(messageNumber), IntToString(totalSatellitesInView),
               SatelliteFields(satellites), totalMessages, messageNumber, totalSatellitesInView, satellites);
  }

  lemma GsvOfTexts(a0: string, a1: string, a2: string, tuples: seq<string>,
                   total: int, number: int, inView: int, satellites: seq<SatelliteInfo>)
    requires |tuples| <= 16 && |tuples| % 4 == 0
    requires ParseInt(a0) == Some(total) && ParseInt(a1) == Some(number) && ParseInt(a2) == Some(inView)
    requires DecodeSatellites(tuples) == Some(satellites)
    ensures DecodeGSV([a0, a1, a2] + tuples) == Some(GSV(total, number, inView, satellites))
  {
    var f := [a0, a1, a2] + tuples;
    ThreeFields(a0, a1, a2, tuples);
    DecodeGSVOf(f, total, number, inView, satellites);
  }

  lemma ThreeFields(a0: string, a1: string, a2: string, rest: seq<string>)
    ensures var f := [a0, a1, a2] + rest;
      |f| == 3 + |rest| && f[0] == a0 && f[1] == a1 && f[2] == a2 && f[3..] == rest
  {
  }

  /** The GSA satellite slots: the ids, then empty slots up to twelve. */
  function IdSlots(ids: seq<int>, blanks: nat): (slots: seq<string>)
    ensures |slots| == |ids| + blanks
  {
    if ids == [] then seq(blanks, _ => "") else [IntToString(ids[0])] + IdSlots(ids[1..], blanks)
  }

  predicate ValidIds(ids: seq<int>)
  {
    forall i :: 0 <= i < |ids| ==> InInt32(ids[i])
  }

  /** Written ids followed by empty slots are read back as the ids. */
  lemma {:induction false} IdsRoundTrip(ids: seq<int>, blanks: nat)
    requires ValidIds(ids)
    ensures DecodeIds(IdSlots(ids, blanks)) == Some(ids)
  {
    if ids == [] {
      DecodeIdsEmpty(seq(blanks, _ => ""));
    } else {
      var slots := IdSlots(ids, blanks);
      assert ValidIds(ids[1..]) by {
        forall i | 0 <= i < |ids[1..]| ensures InInt32(ids[1..][i]) {
          assert ids[1..][i] == ids[i + 1];
        }
      }
      IdsRoundTrip(ids[1..], blanks);
      IntRoundTrip(ids[0]);
      assert slots[1..] == IdSlots(ids[1..], blanks);
      assert slots[0] != "";
      assert ids == [ids[0]] + ids[1..];
    }
  }

  /** The twelve GSA slots of up to twelve ids. */
  function GsaSlots(ids: seq<int>): (slots: seq<string>)
    requires |ids| <= 12
    ensures |slots| == 12
  {
    IdSlots(ids, 12 - |ids|)
  }

  lemma GsaSlotsRoundTrip(ids: seq<int>)
    requires |ids| <= 12 && ValidIds(ids)
    ensures DecodeIds(GsaSlots(ids)) == Some(ids)
  {
    IdsRoundTrip(ids, 12 - |ids|);
  }

  /** GSA: mode, fix, twelve satellite slots, and the three dilutions. */
  function GsaFields(mode: string, fix: int, satellitesInView: seq<int>, pdop: Decimal, hdop: Decimal,
                     vdop: Decimal): seq<string>
    requires |satellitesInView| <= 12
  {
    [mode, IntToString(fix)] + GsaSlots(satellitesInView)
    + [DecimalText(pdop), DecimalText(hdop), DecimalText(vdop)]
  }

  predicate ValidGsa(fix: int, satellitesInView: seq<int>, pdop: Decimal, hdop: Decimal, vdop: Decimal)
  {
    InInt32(fix) && |satellitesInView| <= 12 && ValidIds(satellitesInView)
    && ValidDecimal(pdop) && ValidDecimal(hdop) && ValidDecimal(vdop)
  }

  /** Every GSA sentence a receiver writes is decoded with its mode, fix, ids in slot
      order and dilutions. */
  lemma GsaRoundTrip(mode: string, fix: int, satellitesInView: seq<int>, pdop: Decimal, hdop: Decimal, vdop: Decimal)
    requires ValidGsa(fix, satellitesInView, pdop, hdop, vdop)
    ensures DecodeGSA(GsaFields(mode, fix, satellitesInView, pdop, hdop, vdop))
         == Some(GSA(mode, fix, satellitesInView, DecimalValue(pdop), DecimalValue(hdop), DecimalValue(vdop)))
  {
    IntRoundTrip(fix);
    GsaSlotsRoundTrip(satellitesInView);
    DecimalRoundTrip(pdop);
    DecimalRoundTrip(hdop);
    DecimalRoundTrip(vdop);
    GsaOfTexts(mode, IntToString(fix), GsaSlots(satellitesInView), DecimalText(pdop),
               DecimalText(hdop), DecimalText(vdop), fix, satellitesInView, DecimalValue(pdop),
               DecimalValue(hdop), DecimalValue(vdop));
  }

  lemma GsaOfTexts(mode: string, fixText: string, slots: seq<string>, p: string, h: string, v: string,
                   fix: int, ids: seq<int>, pdop: real, hdop: real, vdop: real)
    requires |slots| == 12 && ParseInt(fixText) == Some(fix) && DecodeIds(slots) == Some(ids)
    requires ParseDecimal(p) == Some(pdop) && ParseDecimal(h) == Some(hdop) && ParseDecimal(v) == Some(vdop)
    ensures DecodeGSA([mode, fixText] + slots + [p, h, v]) == Some(GSA(mode, fix, ids, pdop, hdop, vdop))
  {
    var f := [mode, fixText] + slots + [p, h, v];
    GsaLayout(mode, fixText, slots, p, h, v);
    DecodeGSAOf(f, fix, ids, pdop, hdop, vdop);
  }

  lemma GsaLayout(mode: string, fixText: string, slots: seq<string>, p: string, h: string, v: string)
    requires |slots| == 12
    ensures var f := [mode, fixText] + slots + [p, h, v];
      |f| == 17 && f[0] == mode && f[1] == fixText && f[2..14] == slots && f[14] == p && f[15] == h && f[16] == v
  {
    var f := [mode, fixText] + slots + [p, h, v];
    assert f[2..14] == slots;
  }
}
