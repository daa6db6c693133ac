# NMEA 0183 GPS decoding and publishing, modelled in Dafny

OCI-asio-serial reads NMEA 0183 sentences from a serial GPS receiver.
`GPSLib::GPSSentenceDecoder` collects received bytes, cuts out every line ended by CR LF, and checks each sentence's XOR checksum.
It reports each sentence through one of five typed callbacks (GGA, GLL, RMC, GSV, GSA) or through `OnInvalidSentence`.
`GPSPublisher` turns those callbacks into DDS samples: positions, altitudes, courses, satellites in view and active satellites.
Each sample is stamped with milliseconds since 1970-01-01 and tagged with the sensor id `host:port`.

The project models four parts of that behaviour:

- **Text conversions** (`text_conversions.dfy`):
  - `lexical_cast<int>`, `lexical_cast<double>` on decimal text, and `lexical_cast_default`;
  - `byte_from_hex`;
  - the test file's `DecodeTime`, a regular-expression match of `hhmmss[.fff]`.
    `DecodeTime` throws `invalid_argument` before it moves the iterator, and `bad_lexical_cast` after.
    A field without the optional capture hands `lexical_cast<double>` an empty string, so it throws `bad_lexical_cast`.
- **Coordinates** (`coordinates.dfy`): `ToDecimalDegree` in its two forms, and `Lat`/`LonToDegreesMinutesSeconds` with their round trip.
- **Sentences and the decoder**:
  - `framing.dfy`: field splitting and the checksum;
  - `sentences.dfy`: the field decoders and the decoding of one sentence into an `Event`;
  - `calendar.dfy`: day counts from the epoch;
  - `decoder.dfy`: `SentenceDecoder`, a class whose `pending` byte buffer survives from one `AddBytes` call to the next.
  - The decoder works on bytes. Each byte is one character of the sentence text.
  - `sentence_encoding.dfy`: what a receiver writes, for all values. It renders each reported field from a value: a decimal, an integer, a time of day, a position, a date. Each sentence type's field list is built from those renderings. The module then proves that each is decoded back as that value.
    A position is rendered in one form only: the position field without leading zeros, as in `3848.2905`. Forms such as `09018.4239` and `0005.0000` are not rendered.
  - `sentence_wire.dfy`: the same fixes as whole lines, `$`, header, fields, `*`, checksum, CR LF. Every such line reaches the streaming decoder as exactly its fix, and the publisher publishes that fix's samples.
- **The publisher** (`publisher.dfy`): the class `GpsPublisher`.
  - Its `published` sequence stands for the samples handed to the DDS writers, in order.
  - `SamplesOf` is the filtering policy:
    - GGA is published only when quality is non-zero;
    - GLL and RMC only when validity is `"A"`;
    - GSV and GSA always.
  - GGA and GLL times are dated on the epoch day. RMC times are dated on the sentence's own date.

Every test of `Tests/GPSSentences.cpp` except the file-reading one is a method or lemma in one of the `*_example.dfy` modules.
Its test sentence is built with `Sentences.Sentence(header, fields, trailer)`, so the raw text is `$` + header and fields joined by `,` + `*` + trailer.
`text_conversion_examples.dfy` and `publisher_examples.dfy` hold the remaining test values.
`example_support.dfy` holds the character-code and checksum facts that those examples need.

## Model

| member | source | states |
|---|---|---|
| TextConversions.ParseInt | Tests/TextConversions.cpp:4-17 | lexical_cast<int> yields only 32-bit values and rejects the empty string |
| TextConversions.ParseIntRoundTrip | Tests/TextConversions.cpp:14-17 | every 32-bit integer's decimal rendering, sign included, is read back as that integer |
| TextConversions.LexicalCastDefaultCases | Tests/TextConversions.cpp:4-17 | "" and "Fred" give the default 3 and "9" gives 9; in general the default comes back exactly when lexical_cast<int> would throw, and the parsed value otherwise |
| TextConversions.LexicalCastDefaultOfRendering | Tests/TextConversions.cpp:14-17 | a well-formed integer is returned whatever the default |
| TextConversions.LexicalCastDefault | Tests/TextConversions.cpp:4-17 | lexical_cast_default<int> gives the default for an empty text, and any other result is the integer the text spells |
| TextConversions.ParseDecimal | Tests/TextConversions.cpp:36 | lexical_cast<double> reads no double from empty text; a double read from text starting with '-' is not positive, and from any other text is not negative |
| TextConversions.ParseDecimalOfRendering | Tests/TextConversions.cpp:36 | the rendering w.fff of w + f/10^k reads back as exactly that value |
| TextConversions.ParseDecimalSign | Tests/TextConversions.cpp:36 | a leading '-' negates the unsigned value and a leading '+' keeps it; no value means no value |
| TextConversions.LexicalCastDefaultReal | Tests/GPSSentences.cpp:258-305 | the double conversion with a default gives the default for an empty field, and any other result is the double the field spells |
| TextConversions.ByteFromHex | Tests/TextConversions.cpp:19-22 | a value comes back iff the text is exactly two hex digits, in either case |
| TextConversions.ByteFromHexRoundTrip | Tests/TextConversions.cpp:19-22 | the two-digit rendering of every byte reads back as that byte, and text read as a byte is that byte's rendering up to letter case |
| TextConversions.ByteFromHexF0 | Tests/TextConversions.cpp:19-22 | "F0" is 240 |
| TextConversions.Trunc | Tests/TextConversions.cpp:36 | the double-to-int conversion drops the fraction toward zero, for both signs |
| TextConversions.TimeOfField | Tests/TextConversions.cpp:28-41 | a field fails with "<field> is not hms" iff it does not match the pattern; a time comes only from a capture that parses and whose product with 1000 truncates to 0 or is whole, because lexical_cast<int> otherwise refuses to lose precision; the time is then hh*3600000 + mm*60000 + ss*1000 + trunc(capture*1000) |
| TextConversions.TimeOfFieldLosesPrecision | Tests/TextConversions.cpp:36 | a field of the pattern whose capture times 1000 is not below 1 and has a fractional part is bad_lexical_cast |
| TextConversions.CaptureMillis | Tests/TextConversions.cpp:36 | the capture f/10^k times 1000 truncates to (1000 f)/10^k, below 1000; it is whole exactly when 10^k divides 1000 f, and lexical_cast<int> converts it exactly when it is whole or truncates to 0 |
| TextConversions.DecodeTime | Tests/TextConversions.cpp:29-41 | the result is the field's time, and the iterator advances exactly when the field matches the pattern |
| TextConversions.TimeOfFieldRoundTrip | Tests/TextConversions.cpp:28-41 | a field written hhmmss.fraction with two-digit parts and any number of fraction digits is decoded as its milliseconds when the fraction is whole milliseconds or below one, and is bad_lexical_cast when it is at least 1 ms and not a whole number of milliseconds |
| TextConversionExamples.TimeOfFieldExample | Tests/TextConversions.cpp:43-49 | "010203.4" decodes to 1:02:03.4, that is 3 723 400 ms |
| TextConversionExamples.TimeOfFieldUnchecked | Tests/TextConversions.cpp:28-41 | hours, minutes and seconds are not range-checked: "996099.0" decodes as 99 h 60 min 99 s |
| TextConversionExamples.TimeOfFieldFailures | Tests/TextConversions.cpp:36-40 | "996099" has no capture and fails as bad_lexical_cast; "12:30:00" fails as not hms |
| TextConversionExamples.TimeOfFieldFinerThanMillisecond | Tests/TextConversions.cpp:36 | "000000.0015" (1.5 ms) is bad_lexical_cast, "000000.0010" is 1 ms, and "000000.0005" (below 1 ms, where Boost makes no precision check) is 0 ms |
| Coordinates.ToDecimalDegreeDms | Tests/CoordinateConversions.cpp:9-12 | the degrees/minutes/seconds form equals the degrees/minutes form with seconds/60 added to the minutes, which is the sign times total seconds / 3600 |
| Coordinates.ToDecimalDegree | Tests/CoordinateConversions.cpp:4-7 | the magnitude is that of degrees + minutes/60, and a positive angle comes out negative exactly in S or W |
| Coordinates.ToDecimalDegreeExamples | Tests/CoordinateConversions.cpp:4-12 | (79, 56.93172, W) is -79.948862, and (87, 43, 41, W) is within 0.01 % of -87.728056 |
| Coordinates.RoundHalfUp | Tests/CoordinateConversions.cpp:14-42 | the result is within half a unit of the argument |
| Coordinates.ToDegreesMinutesSeconds | Tests/CoordinateConversions.cpp:14-42 | the magnitude rounded to whole seconds is split into degrees, minutes below 60 and seconds below 60, and the hemisphere follows the sign |
| Coordinates.LatToDegreesMinutesSeconds | Tests/CoordinateConversions.cpp:29-42 | likewise, with N for non-negative and S for negative latitudes |
| Coordinates.LonToDegreesMinutesSeconds | Tests/CoordinateConversions.cpp:14-27 | likewise, with E for non-negative and W for negative longitudes |
| Coordinates.ForwardOfInverse | Tests/CoordinateConversions.cpp:14-42 | converting an inverse result forward again lands within half a second of arc of the start |
| Coordinates.InverseOfForward | Tests/CoordinateConversions.cpp:14-42 | the inverse of the forward conversion recovers every well-formed triple and its hemisphere, apart from a zero angle in S or W |
| Coordinates.RoundTripExamples | Tests/CoordinateConversions.cpp:14-42 | 87 43' 41" W as a longitude and 87 43' 41" S as a latitude come back unchanged |
| Calendar.DaysSinceEpochNextDay | GPSPublisher/GPSPublisher.cpp:117-123 | the next calendar day is one day later in the day count |
| Calendar.DaysSinceEpochEpoch | GPSPublisher/GPSPublisher.cpp:138 | 1970-01-01 is day 0 |
| Calendar.DaysSinceEpochExample | Tests/GPSSentences.cpp:258-305 | 2002-11-10, the RMC test date, is day 12001 |
| Framing.Split | Tests/GPSSentences.cpp:358-403 | there is always at least one field, and no field holds the separator |
| Framing.JoinSplit | Tests/GPSSentences.cpp:358-403 | joining the split fields gives back the text |
| Framing.SplitJoin | Tests/GPSSentences.cpp:358-403 | splitting joined fields that hold no separator, empty ones included, gives back the fields |
| Framing.ChecksumAppend | Tests/GPSSentences.cpp:64-103 | the checksum of a concatenation is the XOR of the two checksums |
| Framing.ChecksumMatchesIff | Tests/GPSSentences.cpp:64-103 | the trailer a sender writes always matches; a trailer matches exactly when it spells the checksum in two hex digits, either case |
| Sentences.PayloadTrailerSplit | Tests/GPSSentences.cpp:64-103 | a sentence with a trailer is '$', the payload, '*' and the trailer, and the payload holds no '*', so the checksum covers exactly the text between '$' and the first '*' |
| Sentences.CoordinateValueParts | Tests/GPSSentences.cpp:421-467 | a field ddmm.mmmm with its hemisphere is ToDecimalDegree(dd, mm.mmmm, hemisphere) |
| Sentences.CoordinateValue | Tests/GPSSentences.cpp:421-467 | a non-negative position value gives a non-negative angle in N or E and a non-positive one in S or W |
| Sentences.DecodeCoordinate | Tests/GPSSentences.cpp:421-467 | a hemisphere other than the axis's two letters, or a value that is not a double, fails the sentence; an unsigned value gives a non-negative angle in the positive hemisphere and a non-positive one in the negative hemisphere |
| Sentences.HemisphereNegates | Tests/GPSSentences.cpp:421-467 | the same value read in S instead of N, or W instead of E, decodes exactly when it decodes in N or E, to the negated angle |
| Sentences.DecodeLatitude | Tests/GPSSentences.cpp:421-467 | a latitude is decoded only with hemisphere N or S, and an unsigned value is negative only in S |
| Sentences.DecodeLongitude | Tests/GPSSentences.cpp:421-467 | a longitude is decoded only with hemisphere E or W, and an unsigned value is negative only in W |
| Sentences.FieldTime | Tests/GPSSentences.cpp:107-153 | a sentence time fails for a field off the hhmmss pattern, and is decoded only when the capture times 1000 truncates to 0 or is whole |
| Sentences.DecodeDate | Tests/GPSSentences.cpp:258-305 | a decoded ddmmyy date lies in 2000-2099 |
| Sentences.DecodeDateRoundTrip | Tests/GPSSentences.cpp:258-305 | the ddmmyy rendering of a date in 2000-2099 is decoded as that date |
| Sentences.DecodeGGA | Tests/GPSSentences.cpp:421-467 | a GGA event comes only from exactly 14 fields |
| Sentences.DecodeGLL | Tests/GPSSentences.cpp:210-253 | a GLL event comes only from exactly 6 fields, and its validity is the last field |
| Sentences.DecodeRMC | Tests/GPSSentences.cpp:258-305 | an RMC event comes only from exactly 11 fields; its validity is the second field and an empty course is 0.0 |
| Sentences.DecodeSatellitesComplete | Tests/GPSSentences.cpp:520-579 | when every tuple's prn is present, each 4-field tuple becomes one satellite, in order |
| Sentences.DecodeSatellites | Tests/GPSSentences.cpp:520-579 | the tuples of four fields give at most one satellite each |
| Sentences.DecodeGSV | Tests/GPSSentences.cpp:520-579 | a GSV event comes from 3 fields plus at most four complete tuples, with no more satellites than tuples |
| Sentences.DecodeIds | Tests/GPSSentences.cpp:358-403 | every non-empty slot parses, and the ids are those values in slot order |
| Sentences.DecodeGSA | Tests/GPSSentences.cpp:358-403 | a GSA event comes only from exactly 17 fields, and its ids decode from the 12 slots |
| Sentences.DecodeFields | Tests/GPSSentences.cpp:22-103 | a typed event is only decoded under its own type code |
| Sentences.DecodeSentence | Tests/GPSSentences.cpp:22-103 | an invalid report carries the raw text; a typed event implies a trailer whose checksum matches and a five-character header whose last three letters are its type |
| Sentences.SentenceParts | Tests/GPSSentences.cpp:22-103 | a sentence built from plain fields splits back into its header, its fields and its trailer |
| Sentences.DecodeWellFramed | Tests/GPSSentences.cpp:421-467 | a sentence with plain fields and a matching checksum is its type's decoding, or invalid when that decoding fails |
| Sentences.DecodeBadChecksum | Tests/GPSSentences.cpp:64-103 | a sentence whose trailer is not its checksum is reported invalid with its raw text |
| Sentences.DecodeFlippedDigit | Tests/GPSSentences.cpp:64-103 | changing either digit of a correct trailer to a digit of another value makes the sentence invalid |
| Sentences.DecodeNoTrailer | Tests/GPSSentences.cpp:22-61 | a line without '*' is invalid |
| Decoder.TextBytes | Tests/GPSSentences.cpp:51 | the bytes a sender writes for a text are read back as that text |
| Decoder.FindCrLfFrom | Tests/GPSSentences.cpp:157-206 | the first CR LF at or after a position, or the end of the buffer when there is none |
| Decoder.LastDollar | Tests/GPSSentences.cpp:471-517 | the position of the last '$' of a line |
| Decoder.LineSentence | Tests/GPSSentences.cpp:471-517 | a terminated line yields one sentence iff it holds a '$' |
| Decoder.ScanRest | Tests/GPSSentences.cpp:157-206 | what stays buffered is a suffix of the input and holds no CR LF |
| Decoder.FindTerminator | Tests/GPSSentences.cpp:157-206 | the forward search finds the first CR LF |
| Decoder.Extract | Tests/GPSSentences.cpp:157-206 | the extraction loop reports the events of the complete lines and keeps the reference remainder |
| Decoder.SentenceDecoder.AddBytes | Tests/GPSSentences.cpp:194-195 | appends the bytes, reports the events of every line that is now complete, and keeps the unterminated tail pending |
| Decoder.ScanAppend | Tests/GPSSentences.cpp:157-206 | cutting the input anywhere changes neither the sentences cut out nor the remainder |
| Decoder.EventsAppend | Tests/GPSSentences.cpp:157-206 | the events of two calls in a row are those of the whole input |
| Decoder.FeedInPieces | Tests/GPSSentences.cpp:157-206 | a fresh decoder fed chunk after chunk reports the events of their concatenation |
| Decoder.EventsAfterNoise | Tests/GPSSentences.cpp:471-517 | characters before the '$' that hold no '$' and no CR are dropped without a report |
| Decoder.ScanSentencesRaw | Tests/GPSSentences.cpp:22-61 | every sentence cut out starts with its only '$' |
| Decoder.EventsInvalidRaw | Tests/GPSSentences.cpp:22-61 | an invalid report carries the text from '$' up to the CR LF |
| Decoder.OneSentence | Tests/GPSSentences.cpp:107-153 | one sentence sent with its CR LF yields exactly its own decoding and leaves nothing pending |
| Decoder.SentenceEvents | Tests/GPSSentences.cpp:107-153 | a sentence built from wire fields and sent on its own yields exactly its decoding |
| InvalidExample.InvalidSentenceTest | Tests/GPSSentences.cpp:22-61 | "$not a valid sentence" is reported once, as invalid, with its text |
| GsaExample.ChecksumFailedTest | Tests/GPSSentences.cpp:64-103 | the GSA test sentence with trailer FF is reported as invalid |
| UninitializedGgaExample.UninitializedGgaTest | Tests/GPSSentences.cpp:107-153 | the initializing GGA sentence yields GGA at 00:00:04, position 0/0, quality 0, dilution 50 |
| UninitializedGgaExample.SeparatedGga0 | Tests/GPSSentences.cpp:157-206 | the same line cut at any point gives the same single event over two calls |
| UninitializedGgaExample.SeparatedUninitializedGgaTest | Tests/GPSSentences.cpp:157-206 | the test's 32-byte cut gives that single event |
| GllExample.UninitializedGllTest | Tests/GPSSentences.cpp:210-253 | the uninitialized GLL sentence yields 360/720 degrees at 00:00:04 with validity V |
| RmcExample.UninitializedRmcTest | Tests/GPSSentences.cpp:258-305 | the uninitialized RMC sentence yields 00:00:03, 360/720 degrees, speed 0, course 0, 2002-11-10, validity V |
| UninitializedGsvExample.UninitializedGsvTest | Tests/GPSSentences.cpp:308-354 | the uninitialized GSV sentence yields one message with satellite 8 at 0/0/0 |
| GsaExample.UninitializedGsaTest | Tests/GPSSentences.cpp:358-403 | the uninitialized GSA sentence yields mode A, fix 1, no ids, dilutions 50 |
| GgaExample.GgaTest | Tests/GPSSentences.cpp:421-467 | the GGA test sentence yields 19:16:30.609, 38 48.2905' N, 90 18.4239' W, quality 1, 6 satellites, 1.3, 132 m |
| GgaExample.PartialPlusGgaTest | Tests/GPSSentences.cpp:471-517 | the same sentence after leading noise yields the same single event |
| GsvExample.GsvTest | Tests/GPSSentences.cpp:520-579 | the GSV test sentence yields message 1 of 3 with 10 in view and its four satellites in order |
| SentenceEncoding.DecimalRoundTrip | Tests/TextConversions.cpp:36 | a decimal written with an optional '-', its whole part, '.' and its fraction digits reads back as its value under lexical_cast<double>, and under lexical_cast_default whatever the default |
| SentenceEncoding.IntRoundTrip | Tests/TextConversions.cpp:4-17 | every 32-bit integer's rendering reads back as itself under lexical_cast<int>, and under lexical_cast_default whatever the default |
| SentenceEncoding.TimeRoundTrip | Tests/TextConversions.cpp:28-41 | a time of day written hhmmss.fraction whose fraction is whole milliseconds or below one, with any number of digits, is decoded as its milliseconds since midnight |
| SentenceEncoding.TimeRejected | Tests/TextConversions.cpp:36 | a written time whose fraction is at least 1 ms and not a whole number of milliseconds is bad_lexical_cast, and the time field fails |
| SentenceEncoding.MillisWithinDay | Tests/TextConversions.cpp:28-41 | the milliseconds of a valid time of day lie in one day |
| SentenceEncoding.PositionRoundTrip | Tests/GPSSentences.cpp:421-467 | a position written as degrees followed by minutes below 60, with its hemisphere letter, is decoded as its signed decimal degrees |
| SentenceEncoding.DateRoundTrip | Tests/GPSSentences.cpp:258-305 | a date of 2000-2099 written ddmmyy is decoded as that date |
| SentenceEncoding.GgaRoundTrip | Tests/GPSSentences.cpp:421-467 | the fourteen fields of any GGA fix decode as that fix, whatever the five unreported fields hold |
| SentenceEncoding.GllRoundTrip | Tests/GPSSentences.cpp:210-253 | the six fields of any GLL fix decode as that fix, its validity passed on |
| SentenceEncoding.RmcRoundTrip | Tests/GPSSentences.cpp:258-305 | the eleven fields of any RMC fix decode as that fix with its date and validity, whatever the magnetic variation fields hold |
| SentenceEncoding.SatellitesRoundTrip | Tests/GPSSentences.cpp:520-579 | the tuples written for any satellites decode as those satellites, in order |
| SentenceEncoding.GsvRoundTrip | Tests/GPSSentences.cpp:520-579 | the fields of any GSV sentence with up to four satellites decode as its counts and its satellites |
| SentenceEncoding.IdsRoundTrip | Tests/GPSSentences.cpp:358-403 | written ids followed by any number of empty slots decode as the ids |
| SentenceEncoding.GsaSlotsRoundTrip | Tests/GPSSentences.cpp:358-403 | up to twelve ids padded to twelve slots decode as the ids |
| SentenceEncoding.GsaRoundTrip | Tests/GPSSentences.cpp:358-403 | the seventeen fields of any GSA sentence decode as its mode, fix, ids in slot order and dilutions |
| SentenceWire.TrailerWire | Tests/GPSSentences.cpp:64-103 | the two hex digits of a checksum travel as the trailer |
| SentenceWire.WrittenSentence | Tests/GPSSentences.cpp:107-153 | the line a receiver writes for fields that decode under its header's type code, checksum included, is reported as exactly that event |
| SentenceWire.LinePublished | GPSPublisher/GPSPublisher.cpp:104-133 | a line reported as one event publishes exactly that event's samples |
| SentenceWire.GgaWritten | Tests/GPSSentences.cpp:421-467 | every GGA fix a receiver transmits, under any talker id, is reported as that fix |
| SentenceWire.GllWritten | Tests/GPSSentences.cpp:210-253 | every GLL fix a receiver transmits is reported as that fix |
| SentenceWire.RmcWritten | Tests/GPSSentences.cpp:258-305 | every RMC fix a receiver transmits is reported as that fix |
| SentenceWire.GsvWritten | Tests/GPSSentences.cpp:520-579 | every GSV sentence a receiver transmits with up to four satellites is reported with its counts and satellites |
| SentenceWire.GsaWritten | Tests/GPSSentences.cpp:358-403 | every GSA sentence a receiver transmits is reported with its mode, fix, ids and dilutions |
| SentenceWire.GgaWrittenPublished | GPSPublisher/GPSPublisher.cpp:106-112 | a transmitted GGA fix publishes nothing at quality 0, and otherwise its position and altitude stamped with its time of day on the epoch day |
| SentenceWire.RmcLinePublished | GPSPublisher/GPSPublisher.cpp:117-123 | a line reported as an RMC fix publishes its position and course, stamped days since epoch * 86400000 + time, iff its validity is "A" |
| Publisher.SensorId | GPSPublisher/GPSPublisher.cpp:33-40 | the sensor id is the host name, or "<UNKNOWN>" when the lookup fails, then ':', then the port name |
| Publisher.SensorIdSplit | GPSPublisher/GPSPublisher.cpp:33-40 | an id built from parts without ':' splits back into host and port |
| Publisher.MillisSinceEpochOfEpoch | GPSPublisher/GPSPublisher.cpp:106-116 | a time on the epoch day is stamped with its own milliseconds |
| Publisher.MillisSinceEpochNextDay | GPSPublisher/GPSPublisher.cpp:117-123 | a time on the next day is stamped one day of milliseconds later |
| Publisher.MillisSinceEpochSameDay | GPSPublisher/GPSPublisher.cpp:42-72 | on one day, stamps differ by the difference of the times |
| Publisher.SatelliteSamples | GPSPublisher/GPSPublisher.cpp:74-87 | one sample per satellite, in order, with prn, azimuth, elevation and snr copied field by field |
| Publisher.CopySatelliteInfo | GPSPublisher/GPSPublisher.cpp:77-83 | the copy loop produces exactly those samples |
| Publisher.CopySatelliteIds | GPSPublisher/GPSPublisher.cpp:92-94 | the copy loop produces the ids unchanged |
| Publisher.AllSamplesAppend | GPSPublisher/GPSPublisher.cpp:104-133 | the samples of two runs of events are those of each run in turn |
| Publisher.GgaSamples | GPSPublisher/GPSPublisher.cpp:106-112 | a GGA publishes nothing iff quality is 0; otherwise a position, then an altitude, both stamped with its time on the epoch day |
| Publisher.GllSamples | GPSPublisher/GPSPublisher.cpp:113-116 | a GLL publishes a position, stamped on the epoch day, iff validity is "A", and nothing otherwise |
| Publisher.RmcSamples | GPSPublisher/GPSPublisher.cpp:117-123 | an RMC publishes a position and a course stamped days since epoch * 86400000 + time iff validity is "A", and nothing otherwise |
| Publisher.GsvSamples | GPSPublisher/GPSPublisher.cpp:124-126 | a GSV always publishes its satellites, and the message counts do not matter |
| Publisher.GsaSamples | GPSPublisher/GPSPublisher.cpp:127-129 | a GSA always publishes its ids and dilutions, and mode and fix do not matter |
| Publisher.SamplesSensorId | GPSPublisher/GPSPublisher.cpp:33-51 | every sample carries the publisher's sensor id, and an invalid sentence publishes nothing |
| Publisher.GpsPublisher.constructor | GPSPublisher/GPSPublisher.cpp:136-141 | a new publisher has a fresh decoder with nothing pending and has published nothing |
| Publisher.GpsPublisher.PublishPosition | GPSPublisher/GPSPublisher.cpp:42-51 | appends one position sample with the sensor id and the stamp in milliseconds since the epoch |
| Publisher.GpsPublisher.PublishAltitude | GPSPublisher/GPSPublisher.cpp:53-61 | appends one altitude sample |
| Publisher.GpsPublisher.PublishCourse | GPSPublisher/GPSPublisher.cpp:63-72 | appends one course sample |
| Publisher.GpsPublisher.PublishSatelliteInfo | GPSPublisher/GPSPublisher.cpp:74-87 | appends one sample holding every satellite, in order |
| Publisher.GpsPublisher.PublishActiveSatellites | GPSPublisher/GPSPublisher.cpp:89-101 | appends one sample with the ids and the three dilutions |
| Publisher.GpsPublisher.OnEvent | GPSPublisher/GPSPublisher.cpp:106-129 | one callback appends exactly the policy's samples for its event |
| Publisher.GpsPublisher.OnEvents | GPSPublisher/GPSPublisher.cpp:106-132 | a run of callbacks appends the samples of each event, in order |
| Publisher.GpsPublisher.OnRead | GPSPublisher/GPSPublisher.cpp:104-133 | the first bytesRead bytes go to the decoder, and the publisher appends the samples of every sentence they complete |
| Publisher.PublishRead | GPSPublisher/GPSPublisher.cpp:104-141 | a new publisher that reads some bytes publishes the samples of their events |
| Publisher.AllSamplesSplit | GPSPublisher/GPSPublisher.cpp:104-133 | two reads in a row publish what one read of all the bytes would |
| PublisherExamples.GgaPublished | GPSPublisher/GPSPublisher.cpp:106-112 | the GGA test line publishes a position and an altitude stamped 69 390 609 ms, 19:16:30.609 on the epoch day |
| PublisherExamples.UninitializedPublishNothing | GPSPublisher/GPSPublisher.cpp:106-123 | GGA of quality 0, and GLL and RMC of validity V, publish nothing |
| PublisherExamples.RmcValidPublished | GPSPublisher/GPSPublisher.cpp:117-123 | the RMC test fix with validity A is stamped 1 036 886 403 000 ms, 2002-11-10 00:00:03 |
| PublisherExamples.GsvPublished | GPSPublisher/GPSPublisher.cpp:74-87 | the GSV test sentence publishes its four satellites with azimuth and elevation in their own fields |
| PublisherExamples.GsaPublished | GPSPublisher/GPSPublisher.cpp:89-101 | the GSA test sentence publishes no ids and dilutions 50/50/50 |
| PublisherExamples.SensorIdExample | GPSPublisher/GPSPublisher.cpp:33-40 | host "gps" and port "COM1" give "gps:COM1" |
| PublisherExamples.PublishGgaTest | GPSPublisher/GPSPublisher.cpp:104-141 | a publisher on gps:COM1 reading the GGA test line publishes exactly those two samples |

## Left out

- Serial transport: the asio serial port, the `Executor` threads and the posting of callbacks to an `io_service` are not modelled. Bytes arrive as method arguments, and a callback is a change of `published`.
- DDS: the data writers, `write()` and its failure, and the `DDSException` thrown on a failed write are not modelled. `published` records what would be written.
- The host-name lookup (`boost::asio::ip::host_name`) is an `Option<string>` parameter of the publisher. `None` stands for a failed lookup.
- The callbacks `OnRead` reassigns before each call are modelled as one fixed dispatch, `GpsPublisher.OnEvent`, because they are the same every time.
- The command-line options, `main`, the baud rate, GPSSubscriber, SerialReader and SerialWriter are not part of this model. Neither is record and replay.
- AllSentencesTest (Tests/GPSSentences.cpp:583-623) reads a capture file from disk. File I/O is not modelled; the equivalent law for any bytes is `Decoder.FeedInPieces`.
- GPSLib/GPSSentenceDecoder.h and GPSLib/Util.h are not part of this model, so their behaviour comes from the tests that exercise them. One choice follows the tests: the whole hundreds of a position value are its degrees (`3848.2905` is 38 48.2905'; `36000.0000` is 360 degrees), with no fixed number of degree digits.
- Other choices in the decoders are the model's own. No test fixes them, and GPSSentenceDecoder.h is not part of this model:
  - a GSV tuple is left out exactly when its prn is empty (`Sentences.DecodeSatellites`); the tests have every prn present, and show only that a tuple of zeros is kept;
  - each sentence type needs exactly its number of fields, and a GSV sentence 3 plus four per tuple, up to four tuples (`Sentences.DecodeGGA` and the other field decoders); the tests feed only sentences with the right count;
  - the header before the first ',' must be exactly five characters, and its last three are the type (`Sentences.DecodeSentence`);
  - the checksum is all of the text after the first '*', and it must be exactly two hex digits (`Sentences.Trailer`);
  - a two-digit year YY is 2000 + YY (`Sentences.DecodeDate`);
  - some numeric fields are required, and an empty one makes the sentence invalid: the GGA quality, satellite count, horizontal dilution and altitude; the RMC speed; the GSA fix and its three dilutions;
  - other numeric fields default to 0 when empty or unparsable (lexical_cast_default): the RMC course, and the GSV elevation, azimuth and snr;
  - so a no-fix sentence whose required fields are empty is reported as `InvalidSentence`;
  - the other fields that must decode, or the sentence is invalid: the GSV total, message number and satellites in view (`Sentences.DecodeGSV`); every non-empty GSV prn and GSA id (`Sentences.DecodeSatellites`, `Sentences.DecodeIds`); every position value and its hemisphere letter (`Sentences.DecodeCoordinate`); the time field (`Sentences.FieldTime`); and the RMC date, where a day that does not exist, such as "310202", makes the sentence invalid (`Sentences.DecodeDate`);
  - an exception from DecodeTime or from the date constructor turns the sentence into `InvalidSentence`; it does not escape `AddBytes`;
  - a terminated line is cut at its last '$' (`Decoder.LastDollar`), so "$GPGGA,…$GPGLL,…*hh" followed by CR LF reports only the GLL sentence;
  - a negative position value is split at the floor of v / 100, not toward zero (`Sentences.CoordinateValue`);
  - `Lat`/`LonToDegreesMinutesSeconds` round all of `|dd|*3600` to the nearest second, halves up. The tests fix only that 87°43'41" comes back unchanged.
- Doubles are modelled as exact reals. IEEE-754 rounding does not appear; the coordinate tests allow a 0.01 % tolerance for it. Exponents, `inf` and `nan` in numeric fields are not accepted.
- TextConversions.TimeOfField: the model follows Boost's `detect_precision_loss` for lexical_cast<int>(double) with one simplification. A product `capture * 1000` that truncates to 0 is converted without a check, so ".0005" is 0 ms. Any other product must be whole. Boost instead accepts a product whose truncation t satisfies |p / t − 1| ≤ the double epsilon (2^-52). That check is also made on the IEEE-754 double product, while the model uses the exact product. The two differ only where the fraction part is below 2^-52 of the whole milliseconds, which needs more digits than a double holds. For example, ".60900000000000000001" rounds to the double 0.609, so the source accepts it as 609 ms, while the model rejects it.
- Decoder.SentenceDecoder.AddBytes: it rescans the whole pending buffer. It does not model a saved scan position that would skip bytes already searched, which changes what is reported by nothing.
- The decoder treats each byte as one character. There is no character encoding beyond that.
