/** One NMEA 0183 sentence, from '$' to the checksum trailer, decoded into the event
    that GPSSentenceDecoder reports: one of its five typed callbacks (OnGGA, OnGLL,
    OnRMC, OnGSV, OnGSA) or OnInvalidSentence with the raw text. */
module Sentences {
  import opened Wrappers
  import opened TextConversions
  import opened Coordinates
  import opened Calendar
  import opened Framing

  /** GPSLib::SatelliteInfo, as one 4-field tuple of a GSV sentence. */
  datatype SatelliteInfo = SatelliteInfo(prn: int, elevation: int, azimuth: int, snr: int)

  /** The arguments of each decoder callback. Times of day are in milliseconds;
      latitude and longitude in signed decimal degrees. */
  datatype Event =
    | InvalidSentence(raw: string)
    | GGA(time: int, latitude: real, longitude: real, quality: int, numSatellites: int,
          horizontalDilution: real, altitude: real)
    | GLL(time: int, latitude: real, longitude: real, validity: string)
    | RMC(time: int, latitude: real, longitude: real, speed: real, course: real,
          date: CalendarDate, validity: string)
    | GSV(totalMessages: int, messageNumber: int, totalSatellitesInView: int,
          satelliteInfo: seq<SatelliteInfo>)
    | GSA(mode: string, fix: int, satellitesInView: seq<int>, pdop: real, hdop: real, vdop: real)

  /** The three-letter type code of a typed event. */
  function TypeCode(e: Event): string
  {
    match e
    case InvalidSentence(_) => ""
    case GGA(_, _, _, _, _, _, _) => "GGA"
    case GLL(_, _, _, _) => "GLL"
    case RMC(_, _, _, _, _, _, _) => "RMC"
    case GSV(_, _, _, _) => "GSV"
    case GSA(_, _, _, _, _, _) => "GSA"
  }

  // ---------------------------------------------------------------------------
  // Field decoders

  /** A position field v with its hemisphere: the whole hundreds of v are degrees and
      the remainder minutes, so 3848.2905 is 38 degrees 48.2905 minutes. The number of
      degree digits is not fixed and nothing is range-checked: 36000.0000 is 360. */
  function CoordinateValue(v: real, hemisphere: string): (r: real)
    requires IsHemisphere(hemisphere)
    ensures v >= 0.0 && IsNegativeHemisphere(hemisphere) ==> r <= 0.0
    ensures v >= 0.0 && !IsNegativeHemisphere(hemisphere) ==> r >= 0.0
  {
    var degrees := (v / 100.0).Floor;
    ToDecimalDegree(degrees, v - 100.0 * degrees as real, hemisphere)
  }

  /** The split into degrees and minutes is the one with minutes in [0, 100). */
  lemma CoordinateValueParts(degrees: int, minutes: real, hemisphere: string)
    requires IsHemisphere(hemisphere) && 0.0 <= minutes < 100.0
    ensures CoordinateValue(100.0 * degrees as real + minutes, hemisphere) == ToDecimalDegree(degrees, minutes, hemisphere)
  {
    var v := 100.0 * degrees as real + minutes;
    assert v / 100.0 == degrees as real + minutes / 100.0;
    assert (v / 100.0).Floor == degrees;
  }

  /** A position field and its hemisphere field. The hemisphere must be one of the two
      letters of the axis; the value must be a decimal. */
  function DecodeCoordinate(value: string, hemisphere: string, positive: string, negative: string): (r: Option<real>)
    requires (positive, negative) == ("N", "S") || (positive, negative) == ("E", "W")
    ensures hemisphere != positive && hemisphere != negative ==> r == None
    ensures ParseDecimal(value).None? ==> r == None
    ensures r.Some? ==> |value| > 0
    ensures r.Some? && value[0] != '-' && hemisphere == positive ==> r.value >= 0.0
    ensures r.Some? && value[0] != '-' && hemisphere == negative ==> r.value <= 0.0
  {
    if hemisphere != positive && hemisphere != negative then None
    else
      match ParseDecimal(value)
      case None => None
      case Some(v) => Some(CoordinateValue(v, hemisphere))
  }

  /** The same position field read in the opposite hemisphere of its axis is the
      mirror image: decoding fails for both or gives values of opposite sign. */
  lemma HemisphereNegates(value: string, positive: string, negative: string)
    requires (positive, negative) == ("N", "S") || (positive, negative) == ("E", "W")
    ensures DecodeCoordinate(value, negative, positive, negative).Some?
            <==> DecodeCoordinate(value, positive, positive, negative).Some?
    ensures DecodeCoordinate(value, negative, positive, negative).Some? ==>
            DecodeCoordinate(value, negative, positive, negative).value
            == -DecodeCoordinate(value, positive, positive, negative).value
  {
  }

  /** A latitude: only "N" and "S" are accepted, "S" counting negative. */
  function DecodeLatitude(value: string, hemisphere: string): (r: Option<real>)
    ensures r.Some? ==> hemisphere == "N" || hemisphere == "S"
    ensures r.Some? && |value| > 0 && value[0] != '-' ==> (r.value < 0.0 ==> hemisphere == "S")
  {
    DecodeCoordinate(value, hemisphere, "N", "S")
  }

  /** A longitude: only "E" and "W" are accepted, "W" counting negative. */
  function DecodeLongitude(value: string, hemisphere: string): (r: Option<real>)
    ensures r.Some? ==> hemisphere == "E" || hemisphere == "W"
    ensures r.Some? && |value| > 0 && value[0] != '-' ==> (r.value < 0.0 ==> hemisphere == "W")
  {
    DecodeCoordinate(value, hemisphere, "E", "W")
  }

  /** A time-of-day field as DecodeTime reads it; either exception fails the sentence. */
  function FieldTime(field: string): (r: Option<int>)
    ensures !IsHms(field) ==> r == None
    ensures r.Some? ==> ParseDecimal(field[6..]).Some? && CastsToInt(ParseDecimal(field[6..]).value * 1000.0)
  {
    match TimeOfField(field)
    case Time(ms) => Some(ms)
    case _ => None
  }

  lemma AllDigitsSlice(s: string, i: nat, j: nat)
    requires AllDigits(s) && i <= j <= |s|
    ensures AllDigits(s[i..j])
  {
    assert forall k :: 0 <= k < j - i ==> s[i..j][k] == s[i + k];
  }

  /** An RMC date field DDMMYY. Two-digit years are always 20YY; a day that does not
      exist makes boost::gregorian::date throw, failing the sentence. */
  function DecodeDate(field: string): (r: Option<CalendarDate>)
    ensures r.Some? ==> 2000 <= r.value.year <= 2099
  {
    if |field| == 6 && AllDigits(field) then
      AllDigitsSlice(field, 0, 2);
      AllDigitsSlice(field, 2, 4);
      AllDigitsSlice(field, 4, 6);
      DigitsValueBound(field[4..6]);
      var d := Date(2000 + DigitsValue(field[4..6]), DigitsValue(field[2..4]), DigitsValue(field[0..2]));
      if ValidDate(d) then Some(d) else None
    else
      None
  }

  /** The DDMMYY rendering of any date of this century reads back as that date. */
  lemma {:induction false} DecodeDateRoundTrip(d: CalendarDate)
    requires 2000 <= d.year <= 2099
    ensures DecodeDate(PadDigits(d.day, 2) + PadDigits(d.month, 2) + PadDigits(d.year - 2000, 2)) == Some(d)
  {
    HmsDigits(d.day, d.month, d.year - 2000);
    var s := TwoDigits(d.day) + TwoDigits(d.month) + TwoDigits(d.year - 2000);
    assert Date(2000 + DigitsValue(s[4..6]), DigitsValue(s[2..4]), DigitsValue(s[0..2])) == d;
  }

  // ---------------------------------------------------------------------------
  // Per-type decoders, over the fields after the header

  /** GGA: time, latitude, N/S, longitude, E/W, quality, satellites, horizontal
      dilution, altitude, then altitude units, geoid separation and units, DGPS age and
      station, which are not reported. The quality is passed on, not filtered. */
  function DecodeGGA(f: seq<string>): (r: Option<Event>)
    ensures r.Some? ==> r.value.GGA? && |f| == 14
    ensures r.Some? ==> TypeCode(r.value) == "GGA"
  {
    if |f| != 14 then None
    else
      match (FieldTime(f[0]), DecodeLatitude(f[1], f[2]), DecodeLongitude(f[3], f[4]),
             ParseInt(f[5]), ParseInt(f[6]), ParseDecimal(f[7]), ParseDecimal(f[8]))
      case (Some(time), Some(lat), Some(lon), Some(quality), Some(sats), Some(hdop), Some(alt)) =>
        Some(GGA(time, lat, lon, quality, sats, hdop, alt))
      case _ => None
  }

  /** GLL: latitude, N/S, longitude, E/W, time, validity. The validity letter is passed
      on as text, not filtered. */
  function DecodeGLL(f: seq<string>): (r: Option<Event>)
    ensures r.Some? ==> r.value.GLL? && |f| == 6 && r.value.validity == f[5]
    ensures r.Some? ==> TypeCode(r.value) == "GLL"
  {
    if |f| != 6 then None
    else
      match (DecodeLatitude(f[0], f[1]), DecodeLongitude(f[2], f[3]), FieldTime(f[4]))
      case (Some(lat), Some(lon), Some(time)) => Some(GLL(time, lat, lon, f[5]))
      case _ => None
  }

  /** RMC: time, validity, latitude, N/S, longitude, E/W, speed, course, date, then the
      magnetic variation and its direction, which are not reported. An unparsable or
      empty course is 0 (lexical_cast_default); the other numeric fields are required. */
  function DecodeRMC(f: seq<string>): (r: Option<Event>)
    ensures r.Some? ==> r.value.RMC? && |f| == 11 && r.value.validity == f[1]
    ensures r.Some? ==> TypeCode(r.value) == "RMC"
    ensures r.Some? ==> r.value.course == LexicalCastDefaultReal(f[7], 0.0)
  {
    if |f| != 11 then None
    else
      match (FieldTime(f[0]), DecodeLatitude(f[2], f[3]), DecodeLongitude(f[4], f[5]),
             ParseDecimal(f[6]), DecodeDate(f[8]))
      case (Some(time), Some(lat), Some(lon), Some(speed), Some(date)) =>
        Some(RMC(time, lat, lon, speed, LexicalCastDefaultReal(f[7], 0.0), date, f[1]))
      case _ => None
  }

  /** The satellite tuples of one GSV sentence, in field order prn, elevation, azimuth,
      snr. A tuple whose prn field is empty is absent; a present prn must be an integer,
      and an empty or unparsable elevation, azimuth or snr is 0. */
  function DecodeSatellites(f: seq<string>): (r: Option<seq<SatelliteInfo>>)
    requires |f| % 4 == 0
    ensures r.Some? ==> |r.value| <= |f| / 4
    decreases |f|
  {
    if f == [] then Some([])
    else
      match DecodeSatellites(f[4..])
      case None => None
      case Some(rest) =>
        if f[0] == "" then Some(rest)
        else
          match ParseInt(f[0])
          case None => None
          case Some(prn) =>
            Some([SatelliteInfo(prn, LexicalCastDefault(f[1], 0), LexicalCastDefault(f[2], 0),
                                LexicalCastDefault(f[3], 0))] + rest)
  }

  /** The `t`-th satellite tuple of a GSV sentence's fields, when its prn is an integer. */
  function TupleAt(f: seq<string>, t: nat): SatelliteInfo
    requires 4 * t + 3 < |f| && ParseInt(f[4 * t]).Some?
  {
    SatelliteInfo(ParseInt(f[4 * t]).value, LexicalCastDefault(f[4 * t + 1], 0),
                  LexicalCastDefault(f[4 * t + 2], 0), LexicalCastDefault(f[4 * t + 3], 0))
  }

  predicate AllPrnsPresent(f: seq<string>)
    requires |f| % 4 == 0
  {
    forall t :: 0 <= t < |f| / 4 ==> ParseInt(f[4 * t]).Some?
  }

  lemma TupleAtShift(f: seq<string>, t: nat)
    requires |f| % 4 == 0 && |f| >= 4 && 4 * t + 3 < |f| - 4 && ParseInt(f[4 * (t + 1)]).Some?
    ensures ParseInt(f[4..][4 * t]).Some? && TupleAt(f[4..], t) == TupleAt(f, t + 1)
  {
    assert f[4..][4 * t] == f[4 * (t + 1)];
    assert f[4..][4 * t + 1] == f[4 * (t + 1) + 1];
    assert f[4..][4 * t + 2] == f[4 * (t + 1) + 2];
    assert f[4..][4 * t + 3] == f[4 * (t + 1) + 3];
  }

  lemma DecodeSatellitesCons(f: seq<string>)
    requires |f| >= 4 && |f| % 4 == 0 && ParseInt(f[0]).Some? && DecodeSatellites(f[4..]).Some?
    ensures DecodeSatellites(f) == Some([TupleAt(f, 0)] + DecodeSatellites(f[4..]).value)
  {
    assert f[0] != "";
  }

  /** A GSV sentence whose tuples all carry a prn reports every one of them, in field
      order, zeros included. */
  lemma {:induction false} DecodeSatellitesComplete(f: seq<string>)
    requires |f| % 4 == 0 && AllPrnsPresent(f)
    ensures DecodeSatellites(f).Some? && |DecodeSatellites(f).value| == |f| / 4
    ensures forall t :: 0 <= t < |f| / 4 ==> DecodeSatellites(f).value[t] == TupleAt(f, t)
    decreases |f|
  {
    if f != [] {
      var tail := f[4..];
      AllPrnsPresentTail(f);
      DecodeSatellitesComplete(tail);
      assert ParseInt(f[4 * 0]).Some?;
      DecodeSatellitesCons(f);
      var rest := DecodeSatellites(tail).value;
      var r := DecodeSatellites(f).value;
      assert r == [TupleAt(f, 0)] + rest;
      forall t | 0 <= t < |f| / 4 ensures r[t] == TupleAt(f, t) {
        if t > 0 {
          assert r[t] == rest[t - 1] == TupleAt(tail, t - 1);
          TupleAtShift(f, t - 1);
        }
      }
    }
  }

  lemma AllPrnsPresentTail(f: seq<string>)
    requires |f| % 4 == 0 && |f| >= 4 && AllPrnsPresent(f)
    ensures AllPrnsPresent(f[4..])
  {
    var tail := f[4..];
    forall t | 0 <= t < |tail| / 4 ensures ParseInt(tail[4 * t]).Some? {
      assert tail[4 * t] == f[4 * (t + 1)];
    }
  }

  /** GSV: total messages, message number, satellites in view, then zero to four
      satellite tuples. Each sentence is reported on its own: the tuples of a group of
      sentences are not collected. */
  function DecodeGSV(f: seq<string>): (r: Option<Event>)
    ensures r.Some? ==> r.value.GSV? && |f| >= 3 && (|f| - 3) % 4 == 0 && |f| <= 19
    ensures r.Some? ==> TypeCode(r.value) == "GSV"
    ensures r.Some? ==> |r.value.satelliteInfo| <= (|f| - 3) / 4
  {
    if |f| < 3 || (|f| - 3) % 4 != 0 || |f| > 19 then None
    else
      match (ParseInt(f[0]), ParseInt(f[1]), ParseInt(f[2]), DecodeSatellites(f[3..]))
      case (Some(total), Some(number), Some(inView), Some(satellites)) =>
        Some(GSV(total, number, inView, satellites))
      case _ => None
  }

  /** The ids in the satellite slots of a GSA sentence, in slot order; an empty slot is
      absent and a non-empty one must be an integer. */
  function DecodeIds(slots: seq<string>): (r: Option<seq<int>>)
    ensures r.Some? ==> |r.value| == |Present(slots)|
    ensures r.Some? ==> forall k :: 0 <= k < |r.value| ==> ParseInt(Present(slots)[k]) == Some(r.value[k])
  {
    if slots == [] then Some([])
    else
      match DecodeIds(slots[1..])
      case None => None
      case Some(rest) =>
        if slots[0] == "" then Some(rest)
        else
          match ParseInt(slots[0])
          case None => None
          case Some(id) => Some([id] + rest)
  }

  /** The non-empty slots, in order. */
  function Present(slots: seq<string>): (r: seq<string>)
    ensures |r| <= |slots|
    ensures forall k :: 0 <= k < |r| ==> r[k] != ""
  {
    if slots == [] then []
    else if slots[0] == "" then Present(slots[1..])
    else [slots[0]] + Present(slots[1..])
  }

  /** GSA: mode, fix, twelve satellite slots, then position, horizontal and vertical
      dilution. */
  function DecodeGSA(f: seq<string>): (r: Option<Event>)
    ensures r.Some? ==> r.value.GSA? && |f| == 17 && r.value.mode == f[0]
    ensures r.Some? ==> TypeCode(r.value) == "GSA"
    ensures r.Some? ==> DecodeIds(f[2..14]) == Some(r.value.satellitesInView)
  {
    if |f| != 17 then None
    else
      match (ParseInt(f[1]), DecodeIds(f[2..14]), ParseDecimal(f[14]), ParseDecimal(f[15]), ParseDecimal(f[16]))
      case (Some(fix), Some(ids), Some(pdop), Some(hdop), Some(vdop)) => Some(GSA(f[0], fix, ids, pdop, hdop, vdop))
      case _ => None
  }

  /** Dispatch on the three-letter type code; the talker id before it is ignored. */
  function DecodeFields(typeCode: string, f: seq<string>): (r: Option<Event>)
    ensures r.Some? ==> !r.value.InvalidSentence? && TypeCode(r.value) == typeCode
  {
    if typeCode == "GGA" then DecodeGGA(f)
    else if typeCode == "GLL" then DecodeGLL(f)
    else if typeCode == "RMC" then DecodeRMC(f)
    else if typeCode == "GSV" then DecodeGSV(f)
    else if typeCode == "GSA" then DecodeGSA(f)
    else None
  }

  // ---------------------------------------------------------------------------
  // A whole sentence

  /** A sentence has a checksum trailer when it starts with '$' and contains '*'. */
  predicate HasTrailer(raw: string)
  {
    |raw| > 0 && raw[0] == '$' && IndexOf(raw, '*') < |raw|
  }

  /** The characters strictly between '$' and the first '*'. */
  function Payload(raw: string): string
    requires HasTrailer(raw)
  {
    raw[1..IndexOf(raw, '*')]
  }

  /** Everything after the first '*'. */
  function Trailer(raw: string): string
    requires HasTrailer(raw)
  {
    raw[IndexOf(raw, '*') + 1..]
  }

  /** A sentence with a trailer is '$', its payload, '*' and its trailer, and the
      payload holds no '*'. */
  lemma PayloadTrailerSplit(raw: string)
    requires HasTrailer(raw)
    ensures raw == "$" + Payload(raw) + "*" + Trailer(raw)
    ensures '*' !in Payload(raw)
  {
    var k := IndexOf(raw, '*');
    assert raw == raw[..1] + raw[1..k] + raw[k..k + 1] + raw[k + 1..];
  }

  /** A sentence from '$' up to (not including) its CR LF, decoded. It is reported as
      invalid, with its raw text, when it lacks the '*' trailer, when the trailer is not
      the checksum, when its header is not five characters, when its type is not one of
      the five, or when its fields do not decode. */
  function DecodeSentence(raw: string): (e: Event)
    ensures e.InvalidSentence? ==> e.raw == raw
    ensures !e.InvalidSentence? ==> HasTrailer(raw) && ChecksumMatches(Payload(raw), Trailer(raw))
    ensures !e.InvalidSentence? ==>
      var header := Split(Payload(raw), ',')[0];
      |header| == 5 && TypeCode(e) == header[2..5]
  {
    if !HasTrailer(raw) then InvalidSentence(raw)
    else
      var payload := Payload(raw);
      if !ChecksumMatches(payload, Trailer(raw)) then InvalidSentence(raw)
      else
        var fields := Split(payload, ',');
        if |fields[0]| != 5 then InvalidSentence(raw)
        else
          match DecodeFields(fields[0][2..5], fields[1..])
          case Some(e) => e
          case None => InvalidSentence(raw)
  }

  // ---------------------------------------------------------------------------
  // Laws of the sentence decoder

  /** A field of a well-formed sentence: no separator, no trailer mark, no start mark. */
  predicate PlainField(f: string)
  {
    ',' !in f && '*' !in f && '$' !in f
  }

  predicate PlainFields(fields: seq<string>)
  {
    forall k :: 0 <= k < |fields| ==> PlainField(fields[k])
  }

  lemma PlainFieldsAppend(a: seq<string>, b: seq<string>)
    requires PlainFields(a) && PlainFields(b)
    ensures PlainFields(a + b)
  {
    forall k | 0 <= k < |a + b| ensures PlainField((a + b)[k]) {
      if k < |a| { assert (a + b)[k] == a[k]; } else { assert (a + b)[k] == b[k - |a|]; }
    }
  }

  /** The sentence a receiver sends for a header and fields, with the given trailer. */
  function Sentence(header: string, fields: seq<string>, trailer: string): string
  {
    "$" + Join([header] + fields, ',') + "*" + trailer
  }

  lemma {:induction false} JoinPlain(fields: seq<string>)
    requires PlainFields(fields)
    ensures '*' !in Join(fields, ',') && '$' !in Join(fields, ',')
  {
    if |fields| > 1 {
      JoinPlain(fields[1..]);
      assert Join(fields, ',') == fields[0] + [','] + Join(fields[1..], ',');
    }
  }

  /** How a sentence built from a header and plain fields comes apart again. */
  lemma SentenceParts(header: string, fields: seq<string>, trailer: string)
    requires PlainField(header) && PlainFields(fields)
    ensures var raw := Sentence(header, fields, trailer);
      HasTrailer(raw) && Payload(raw) == Join([header] + fields, ',') && Trailer(raw) == trailer
      && Split(Payload(raw), ',') == [header] + fields
  {
    var all := [header] + fields;
    PlainFieldsCons(header, fields);
    JoinPlain(all);
    RawParts(Join(all, ','), trailer);
    assert NoSeparator(all, ',');
    SplitJoin(all, ',');
  }

  lemma PlainFieldsCons(header: string, fields: seq<string>)
    requires PlainField(header) && PlainFields(fields)
    ensures PlainFields([header] + fields)
  {
    var all := [header] + fields;
    forall k | 0 <= k < |all| ensures PlainField(all[k]) {
      if k > 0 { assert all[k] == fields[k - 1]; }
    }
  }

  /** The '*' after a payload that holds none marks where the trailer starts. */
  lemma RawParts(payload: string, trailer: string)
    requires '*' !in payload
    ensures var raw := "$" + payload + "*" + trailer;
      HasTrailer(raw) && Payload(raw) == payload && Trailer(raw) == trailer
  {
    var raw := "$" + payload + "*" + trailer;
    assert raw == ("$" + payload) + ['*'] + trailer;
    IndexOfJoined("$" + payload, '*', trailer);
    assert raw[1..|payload| + 1] == payload;
    assert raw[|payload| + 2..] == trailer;
  }

  /** A sentence with plain fields and a matching checksum is decoded by its type's
      decoder, and is invalid exactly when that decoder fails. */
  lemma DecodeWellFramed(header: string, fields: seq<string>, trailer: string)
    requires |header| == 5 && PlainField(header) && PlainFields(fields)
    requires ChecksumMatches(Join([header] + fields, ','), trailer)
    ensures DecodeSentence(Sentence(header, fields, trailer)) ==
      match DecodeFields(header[2..5], fields)
      case Some(e) => e
      case None => InvalidSentence(Sentence(header, fields, trailer))
  {
    SentenceParts(header, fields, trailer);
    assert ([header] + fields)[1..] == fields;
  }

  /** A sentence whose trailer is not its checksum, whatever its fields, is reported as
      invalid with its raw text and nothing else. */
  lemma DecodeBadChecksum(header: string, fields: seq<string>, trailer: string)
    requires PlainField(header) && PlainFields(fields)
    requires !ChecksumMatches(Join([header] + fields, ','), trailer)
    ensures DecodeSentence(Sentence(header, fields, trailer)) == InvalidSentence(Sentence(header, fields, trailer))
  {
    SentenceParts(header, fields, trailer);
  }

  /** Changing either hex digit of a correct trailer to a digit of another value makes
      the sentence invalid. */
  lemma DecodeFlippedDigit(header: string, fields: seq<string>, trailer: string, position: nat, digit: char)
    requires PlainField(header) && PlainFields(fields)
    requires ChecksumMatches(Join([header] + fields, ','), trailer)
    requires position < 2 && IsHexDigit(digit) && HexDigitValue(digit) != HexDigitValue(trailer[position])
    ensures var flipped := trailer[position := digit];
      DecodeSentence(Sentence(header, fields, flipped)) == InvalidSentence(Sentence(header, fields, flipped))
  {
    var payload := Join([header] + fields, ',');
    var flipped := trailer[position := digit];
    assert ByteFromHex(flipped) != ByteFromHex(trailer) by {
      if ByteFromHex(flipped).Some? {
        var v, w := ByteFromHex(flipped).value, ByteFromHex(trailer).value;
        DivModUnique(v, 16, HexDigitValue(flipped[0]), HexDigitValue(flipped[1]));
        DivModUnique(w, 16, HexDigitValue(trailer[0]), HexDigitValue(trailer[1]));
      }
    }
    DecodeBadChecksum(header, fields, flipped);
  }

  /** A '$' line without a '*' trailer is invalid. */
  lemma DecodeNoTrailer(raw: string)
    requires '*' !in raw
    ensures DecodeSentence(raw) == InvalidSentence(raw)
  {
    IndexOfNotIn(raw, '*');
  }
}
