/** Building blocks for the decoder's test sentences: the byte value of each character
    they use, and the field-level conversions spelled out for literal fields. */
module ExampleSupport {
  import opened Wrappers
  import opened TextConversions
  import opened Framing
  import opened Sentences
  import opened Decoder
  import Calendar

  lemma CodeOfComma() ensures Code(',') == 0x2c {}
  lemma CodeOfMinus() ensures Code('-') == 0x2d {}
  lemma CodeOfDot() ensures Code('.') == 0x2e {}
  lemma CodeOfDigit0() ensures Code('0') == 0x30 {}
  lemma CodeOfDigit1() ensures Code('1') == 0x31 {}
  lemma CodeOfDigit2() ensures Code('2') == 0x32 {}
  lemma CodeOfDigit3() ensures Code('3') == 0x33 {}
  lemma CodeOfDigit4() ensures Code('4') == 0x34 {}
  lemma CodeOfDigit5() ensures Code('5') == 0x35 {}
  lemma CodeOfDigit6() ensures Code('6') == 0x36 {}
  lemma CodeOfDigit7() ensures Code('7') == 0x37 {}
  lemma CodeOfDigit8() ensures Code('8') == 0x38 {}
  lemma CodeOfDigit9() ensures Code('9') == 0x39 {}
  lemma CodeOfA() ensures Code('A') == 0x41 {}
  lemma CodeOfC() ensures Code('C') == 0x43 {}
  lemma CodeOfE() ensures Code('E') == 0x45 {}
  lemma CodeOfG() ensures Code('G') == 0x47 {}
  lemma CodeOfL() ensures Code('L') == 0x4c {}
  lemma CodeOfM() ensures Code('M') == 0x4d {}
  lemma CodeOfN() ensures Code('N') == 0x4e {}
  lemma CodeOfP() ensures Code('P') == 0x50 {}
  lemma CodeOfR() ensures Code('R') == 0x52 {}
  lemma CodeOfS() ensures Code('S') == 0x53 {}
  lemma CodeOfV() ensures Code('V') == 0x56 {}
  lemma CodeOfW() ensures Code('W') == 0x57 {}

  lemma WireFieldsTail(header: string, fields: seq<string>)
    requires WireFields([header] + fields)
    ensures WireField(header) && WireFields(fields)
  {
    assert ([header] + fields)[0] == header;
    forall k | 0 <= k < |fields| ensures WireField(fields[k]) {
      assert ([header] + fields)[k + 1] == fields[k];
    }
  }

  lemma WireFieldsPlain(fields: seq<string>)
    requires WireFields(fields)
    ensures PlainFields(fields)
  {
    forall k | 0 <= k < |fields| ensures PlainField(fields[k]) {
      assert WireField(fields[k]);
    }
  }

  /** A literal decimal field whole.fraction. */
  lemma DecimalField(s: string, whole: string, fraction: string, w: nat, f: nat, p: nat)
    requires s == whole + "." + fraction && AllDigits(whole) && AllDigits(fraction) && |whole| + |fraction| > 0
    requires DigitsValue(whole) == w && DigitsValue(fraction) == f && Pow10(|fraction|) == p
    ensures ParseDecimal(s) == Some(w as real + f as real / p as real)
  {
    ParseUnsignedDecimalParts(whole, fraction);
    DecimalFirst(whole, fraction);
    ParseDecimalUnsigned(s);
  }

  lemma DecimalFirst(whole: string, fraction: string)
    requires AllDigits(whole)
    ensures |whole + "." + fraction| > 0
    ensures IsDigit((whole + "." + fraction)[0]) || (whole + "." + fraction)[0] == '.'
  {
    if whole == "" {
      assert (whole + "." + fraction)[0] == '.';
    } else {
      assert (whole + "." + fraction)[0] == whole[0];
    }
  }

  lemma FieldTimeOfTime(s: string, t: int)
    requires TimeOfField(s) == Time(t)
    ensures FieldTime(s) == Some(t)
  {
  }

  /** A literal time field: two digits each of hours, minutes and seconds, then a
      capture that converts. */
  lemma TimeField(s: string, hh: string, mm: string, ss: string, capture: string,
                  h: nat, m: nat, sec: nat, fraction: real, ms: int)
    requires s == hh + mm + ss + capture && |hh| == 2 && |mm| == 2 && |ss| == 2
    requires AllDigits(hh) && AllDigits(mm) && AllDigits(ss)
    requires DigitsValue(hh) == h && DigitsValue(mm) == m && DigitsValue(ss) == sec
    requires |capture| <= 1 || AllDigits(capture[1..])
    requires ParseDecimal(capture) == Some(fraction) && fraction * 1000.0 == ms as real && InInt32(ms)
    ensures FieldTime(s) == Some(h * 3_600_000 + m * 60_000 + sec * 1000 + ms)
  {
    TimeFieldDecoded(s, hh, mm, ss, capture, h, m, sec, fraction, ms);
    FieldTimeOfTime(s, h * 3_600_000 + m * 60_000 + sec * 1000 + ms);
  }

  lemma TimeFieldDecoded(s: string, hh: string, mm: string, ss: string, capture: string,
                         h: nat, m: nat, sec: nat, fraction: real, ms: int)
    requires s == hh + mm + ss + capture && |hh| == 2 && |mm| == 2 && |ss| == 2
    requires AllDigits(hh) && AllDigits(mm) && AllDigits(ss)
    requires DigitsValue(hh) == h && DigitsValue(mm) == m && DigitsValue(ss) == sec
    requires |capture| <= 1 || AllDigits(capture[1..])
    requires ParseDecimal(capture) == Some(fraction) && fraction * 1000.0 == ms as real && InInt32(ms)
    ensures TimeOfField(s) == Time(h * 3_600_000 + m * 60_000 + sec * 1000 + ms)
  {
    var hms := hh + mm + ss;
    HmsOfPairs(hh, mm, ss);
    assert s == hms + capture;
    TimeOfFieldAccepted(hms, capture, h, m, sec, fraction, ms);
  }

  /** The type code of a header, from its three last characters. */
  lemma HeaderCode(header: string, code: string)
    requires |header| == 5 && |code| == 3
    requires header[2] == code[0] && header[3] == code[1] && header[4] == code[2]
    ensures header[2..5] == code
  {
  }

  /** The checksum of joined fields from the checksums of two runs of them: the
      separator between the runs adds its own code. */
  lemma ChecksumJoinAppend(a: seq<string>, b: seq<string>, x: bv8, y: bv8)
    requires |a| >= 1 && |b| >= 1 && Checksum(Join(a, ',')) == x && Checksum(Join(b, ',')) == y
    ensures Checksum(Join(a + b, ',')) == x ^ 0x2c ^ y
    ensures |Join(a + b, ',')| == |Join(a, ',')| + 1 + |Join(b, ',')|
  {
    JoinAppend(a, b, ',');
    ChecksumAppend(Join(a, ',') + [','], Join(b, ','));
    ChecksumAppend(Join(a, ','), [',']);
    CodeOfComma();
  }

  /** Twelve empty GSA satellite slots give no ids. */
  lemma {:induction false} DecodeIdsEmpty(slots: seq<string>)
    requires forall k :: 0 <= k < |slots| ==> slots[k] == ""
    ensures DecodeIds(slots) == Some([])
  {
    if slots != [] {
      DecodeIdsEmpty(slots[1..]);
    }
  }

  /** A test sentence's header, fields and trailer: a five-character header, fields
      that can travel on the wire, and a trailer that is the checksum. */
  predicate WellFramed(header: string, fields: seq<string>, trailer: string)
  {
    |header| == 5 && WireField(header) && WireFields(fields) && WireField(trailer)
    && ChecksumMatches(Join([header] + fields, ','), trailer)
  }

  /** A framed sentence whose fields decode, sent with its CR LF, is reported as its one event. */
  lemma FramedSentence(header: string, fields: seq<string>, trailer: string, e: Event)
    requires WellFramed(header, fields, trailer)
    requires DecodeFields(header[2..5], fields) == Some(e)
    ensures var raw := Sentence(header, fields, trailer);
      DecodeSentence(raw) == e && IsByteText(raw + "\r\n") && Events(Bytes(raw + "\r\n")) == [e]
  {
    WireFieldsPlain(fields);
    DecodeWellFramed(header, fields, trailer);
    SentenceEvents(header, fields, trailer);
  }

  /** A sentence with wire fields and a trailer that is not its checksum is reported,
      once, as invalid. */
  lemma BadlyFramed(header: string, fields: seq<string>, trailer: string, sum: bv8)
    requires WireField(header) && WireFields(fields) && WireField(trailer)
    requires Checksum(Join([header] + fields, ',')) == sum && ByteFromHex(trailer) != Some(sum as int)
    ensures var raw := Sentence(header, fields, trailer);
      DecodeSentence(raw) == InvalidSentence(raw) && IsByteText(raw + "\r\n")
      && Events(Bytes(raw + "\r\n")) == [InvalidSentence(raw)]
  {
    WireFieldsPlain(fields);
    DecodeBadChecksum(header, fields, trailer);
    SentenceEvents(header, fields, trailer);
  }

  // The dispatch on each type code: a code differs from every code tested before it
  // in one character.

  lemma DispatchGLL(f: seq<string>)
    ensures DecodeFields("GLL", f) == DecodeGLL(f)
  {
    assert "GLL"[1] != "GGA"[1];
  }

  lemma DispatchRMC(f: seq<string>)
    ensures DecodeFields("RMC", f) == DecodeRMC(f)
  {
    assert "RMC"[0] != "GGA"[0] && "RMC"[0] != "GLL"[0];
  }

  lemma DispatchGSV(f: seq<string>)
    ensures DecodeFields("GSV", f) == DecodeGSV(f)
  {
    assert "GSV"[1] != "GGA"[1] && "GSV"[1] != "GLL"[1] && "GSV"[0] != "RMC"[0];
  }

  lemma DispatchGSA(f: seq<string>)
    ensures DecodeFields("GSA", f) == DecodeGSA(f)
  {
    assert "GSA"[1] != "GGA"[1] && "GSA"[1] != "GLL"[1] && "GSA"[0] != "RMC"[0] && "GSA"[2] != "GSV"[2];
  }

  // One lemma per sentence type: the framed sentence, given that its fields decode.

  lemma FramedGGA(header: string, fields: seq<string>, trailer: string, e: Event)
    requires WellFramed(header, fields, trailer) && header[2..5] == "GGA" && DecodeGGA(fields) == Some(e)
    ensures var raw := Sentence(header, fields, trailer);
      DecodeSentence(raw) == e && IsByteText(raw + "\r\n") && Events(Bytes(raw + "\r\n")) == [e]
  {
    FramedSentence(header, fields, trailer, e);
  }

  lemma FramedGLL(header: string, fields: seq<string>, trailer: string, e: Event)
    requires WellFramed(header, fields, trailer) && header[2..5] == "GLL" && DecodeGLL(fields) == Some(e)
    ensures var raw := Sentence(header, fields, trailer);
      DecodeSentence(raw) == e && IsByteText(raw + "\r\n") && Events(Bytes(raw + "\r\n")) == [e]
  {
    DispatchGLL(fields);
    FramedSentence(header, fields, trailer, e);
  }

  lemma FramedRMC(header: string, fields: seq<string>, trailer: string, e: Event)
    requires WellFramed(header, fields, trailer) && header[2..5] == "RMC" && DecodeRMC(fields) == Some(e)
    ensures var raw := Sentence(header, fields, trailer);
      DecodeSentence(raw) == e && IsByteText(raw + "\r\n") && Events(Bytes(raw + "\r\n")) == [e]
  {
    DispatchRMC(fields);
    FramedSentence(header, fields, trailer, e);
  }

  lemma FramedGSV(header: string, fields: seq<string>, trailer: string, e: Event)
    requires WellFramed(header, fields, trailer) && header[2..5] == "GSV" && DecodeGSV(fields) == Some(e)
    ensures var raw := Sentence(header, fields, trailer);
      DecodeSentence(raw) == e && IsByteText(raw + "\r\n") && Events(Bytes(raw + "\r\n")) == [e]
  {
    DispatchGSV(fields);
    FramedSentence(header, fields, trailer, e);
  }

  lemma FramedGSA(header: string, fields: seq<string>, trailer: string, e: Event)
    requires WellFramed(header, fields, trailer) && header[2..5] == "GSA" && DecodeGSA(fields) == Some(e)
    ensures var raw := Sentence(header, fields, trailer);
      DecodeSentence(raw) == e && IsByteText(raw + "\r\n") && Events(Bytes(raw + "\r\n")) == [e]
  {
    DispatchGSA(fields);
    FramedSentence(header, fields, trailer, e);
  }

  // One lemma per decoder: the event, given what each field converts to.

  lemma DecodeGGAOf(f: seq<string>, time: int, lat: real, lon: real, quality: int, sats: int, hdop: real, alt: real)
    requires |f| == 14 && FieldTime(f[0]) == Some(time)
    requires DecodeLatitude(f[1], f[2]) == Some(lat) && DecodeLongitude(f[3], f[4]) == Some(lon)
    requires ParseInt(f[5]) == Some(quality) && ParseInt(f[6]) == Some(sats)
    requires ParseDecimal(f[7]) == Some(hdop) && ParseDecimal(f[8]) == Some(alt)
    ensures DecodeGGA(f) == Some(GGA(time, lat, lon, quality, sats, hdop, alt))
  {
  }

  lemma DecodeGLLOf(f: seq<string>, lat: real, lon: real, time: int)
    requires |f| == 6 && DecodeLatitude(f[0], f[1]) == Some(lat) && DecodeLongitude(f[2], f[3]) == Some(lon)
    requires FieldTime(f[4]) == Some(time)
    ensures DecodeGLL(f) == Some(GLL(time, lat, lon, f[5]))
  {
  }

  lemma DecodeRMCOf(f: seq<string>, time: int, lat: real, lon: real, speed: real, course: real, date: Calendar.CalendarDate)
    requires |f| == 11 && FieldTime(f[0]) == Some(time)
    requires DecodeLatitude(f[2], f[3]) == Some(lat) && DecodeLongitude(f[4], f[5]) == Some(lon)
    requires ParseDecimal(f[6]) == Some(speed) && LexicalCastDefaultReal(f[7], 0.0) == course
    requires DecodeDate(f[8]) == Some(date)
    ensures DecodeRMC(f) == Some(RMC(time, lat, lon, speed, course, date, f[1]))
  {
  }

  lemma DecodeGSVOf(f: seq<string>, total: int, number: int, inView: int, satellites: seq<SatelliteInfo>)
    requires 3 <= |f| <= 19 && (|f| - 3) % 4 == 0
    requires ParseInt(f[0]) == Some(total) && ParseInt(f[1]) == Some(number) && ParseInt(f[2]) == Some(inView)
    requires DecodeSatellites(f[3..]) == Some(satellites)
    ensures DecodeGSV(f) == Some(GSV(total, number, inView, satellites))
  {
  }

  lemma DecodeGSAOf(f: seq<string>, fix: int, ids: seq<int>, pdop: real, hdop: real, vdop: real)
    requires |f| == 17 && ParseInt(f[1]) == Some(fix) && DecodeIds(f[2..14]) == Some(ids)
    requires ParseDecimal(f[14]) == Some(pdop) && ParseDecimal(f[15]) == Some(hdop) && ParseDecimal(f[16]) == Some(vdop)
    ensures DecodeGSA(f) == Some(GSA(f[0], fix, ids, pdop, hdop, vdop))
  {
  }

  lemma ConcatOne(bytes: seq<byte>)
    ensures Concat([bytes]) == bytes
  {
    assert [bytes][..0] == [];
  }

  lemma ConcatTwo(first: seq<byte>, second: seq<byte>)
    ensures Concat([first, second]) == first + second
  {
    assert [first, second][..1] == [first];
    ConcatOne(first);
  }

  /** One satellite tuple in front of further tuples. */
  lemma DecodeSatellitesTuple(tuple: seq<string>, rest: seq<string>, s: SatelliteInfo, r: seq<SatelliteInfo>)
    requires |tuple| == 4 && |rest| % 4 == 0 && ParseInt(tuple[0]) == Some(s.prn)
    requires LexicalCastDefault(tuple[1], 0) == s.elevation && LexicalCastDefault(tuple[2], 0) == s.azimuth
    requires LexicalCastDefault(tuple[3], 0) == s.snr && DecodeSatellites(rest) == Some(r)
    ensures DecodeSatellites(tuple + rest) == Some([s] + r)
    ensures rest == [] ==> DecodeSatellites(tuple) == Some([s])
  {
    var f := tuple + rest;
    assert f[4..] == rest;
    assert f[0] == tuple[0] && f[1] == tuple[1] && f[2] == tuple[2] && f[3] == tuple[3];
    assert f[0] != "";
    if rest == [] {
      assert tuple + rest == tuple && [s] + r == [s];
    }
  }

  /** Input cut at any point: what the first call reports, then what the second call
      reports after the bytes the first one kept, is what the whole input gives. */
  lemma EventsSplitAt(bs: seq<byte>, n: nat)
    requires n <= |bs|
    ensures Events(bs[..n]) + Events(Scan(bs[..n]).rest + bs[n..]) == Events(bs)
    ensures Concat([bs[..n], bs[n..]]) == bs
  {
    assert bs[..n] + bs[n..] == bs;
    EventsAppend(bs[..n], bs[n..]);
    ConcatTwo(bs[..n], bs[n..]);
  }

  /** A text sent alone with its CR LF is reported as its decoding. */
  lemma SentAlone(s: string)
    requires IsRaw(s) && IsByteText(s) && '\r' !in s
    ensures IsByteText(s + "\r\n") && Events(Bytes(s + "\r\n")) == [DecodeSentence(s)]
  {
    BytesAppend(s, "\r\n");
    assert Bytes("\r\n") == [CR, LF];
    OneSentence(s);
  }
}
