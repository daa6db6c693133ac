/** The GPS publisher's policy: which decoded events become samples on which topic, how
    each sample is stamped with milliseconds since 1970-01-01, and how the satellite lists
    are copied into the samples. The samples a publisher writes are collected, in order,
    in its `published` field instead of being handed to the distribution bus. */
module Publisher {
  import opened Wrappers
  import opened Calendar
  import opened Framing
  import opened Sentences
  import opened Decoder

  // ---------------------------------------------------------------------------
  // Sensor id

  /** The host name GetSensorID falls back to when the machine name cannot be read. */
  const UNKNOWN_HOST: string := "<UNKNOWN>"

  /** The host part of a sensor id: the looked-up name, or UNKNOWN_HOST when the lookup
      reported an error (None). */
  function HostPart(hostName: Option<string>): string
  {
    if hostName.Some? then hostName.value else UNKNOWN_HOST
  }

  /** GetSensorID: machine name, ':', port name. */
  function SensorId(hostName: Option<string>, portName: string): (id: string)
    ensures |id| == |HostPart(hostName)| + 1 + |portName|
    ensures id[..|HostPart(hostName)|] == HostPart(hostName)
    ensures id[|HostPart(hostName)|] == ':'
    ensures id[|HostPart(hostName)| + 1..] == portName
  {
    HostPart(hostName) + ":" + portName
  }

  /** When neither the host name nor the port name holds a ':', the id splits back into
      the two at its one ':'. A failed lookup gives the host "<UNKNOWN>". */
  lemma SensorIdSplit(hostName: Option<string>, portName: string)
    requires ':' !in HostPart(hostName) && ':' !in portName
    ensures Split(SensorId(hostName, portName), ':') == [HostPart(hostName), portName]
    ensures hostName.None? ==> Split(SensorId(hostName, portName), ':')[0] == "<UNKNOWN>"
  {
    var parts := [HostPart(hostName), portName];
    assert Join(parts[1..], ':') == portName;
    assert Join(parts, ':') == SensorId(hostName, portName);
    SplitJoin(parts, ':');
  }

  // ---------------------------------------------------------------------------
  // Timestamps

  /** The publisher's epoch, 1970-01-01 at midnight. */
  const EPOCH: CalendarDate := Date(1970, 1, 1)

  const MS_PER_DAY: int := 86_400_000

  /** boost::posix_time::ptime(date, time): a day and an offset from its midnight in
      milliseconds (the offset may run past one day; ptime carries it over). */
  datatype Timestamp = Timestamp(date: CalendarDate, timeOfDay: int)

  /** (timestamp - epoch).total_milliseconds(). */
  function MillisSinceEpoch(t: Timestamp): int
  {
    DaysSinceEpoch(t.date) * MS_PER_DAY + t.timeOfDay
  }

  /** A timestamp on the epoch day is its time of day: `_epoch + time` minus `_epoch`. */
  lemma MillisSinceEpochOfEpoch(timeOfDay: int)
    ensures MillisSinceEpoch(Timestamp(EPOCH, timeOfDay)) == timeOfDay
  {
    DaysSinceEpochEpoch();
  }

  /** Midnight of the next day is one day of milliseconds later, so a time of day that
      runs past midnight lands on the same instant as the next day's early time. */
  lemma MillisSinceEpochNextDay(d: CalendarDate, timeOfDay: int)
    requires d.year < 9999 || d.month < 12 || d.day < 31
    ensures MillisSinceEpoch(Timestamp(NextDay(d), timeOfDay)) == MillisSinceEpoch(Timestamp(d, timeOfDay + MS_PER_DAY))
  {
    DaysSinceEpochNextDay(d);
  }

  /** Two times of the same day are as far apart as their offsets. */
  lemma MillisSinceEpochSameDay(d: CalendarDate, t1: int, t2: int)
    ensures MillisSinceEpoch(Timestamp(d, t2)) - MillisSinceEpoch(Timestamp(d, t1)) == t2 - t1
  {
  }

  // ---------------------------------------------------------------------------
  // Samples

  /** GPS::SatelliteInfo, one entry of a SatelliteInfoData sample. */
  datatype SatelliteSample = SatelliteSample(prn: int, azimuth: int, elevation: int, snr: int)

  /** The five topics' sample types. */
  datatype Sample =
    | PositionData(sensorId: string, date: int, latitude: real, longitude: real)
    | AltitudeData(sensorId: string, date: int, altitude: real)
    | CourseData(sensorId: string, date: int, speed: real, course: real)
    | SatelliteInfoData(sensorId: string, satelliteInfo: seq<SatelliteSample>)
    | ActiveSatellitesData(sensorId: string, activeSatellites: seq<int>, pdop: real, hdop: real, vdop: real)

  /** One decoded satellite as its sample entry: the same four numbers. */
  function SatelliteSampleOf(info: SatelliteInfo): SatelliteSample
  {
    SatelliteSample(info.prn, info.azimuth, info.elevation, info.snr)
  }

  /** The satellites of a GSV sentence as sample entries, one per satellite in order. */
  function SatelliteSamples(satellites: seq<SatelliteInfo>): (r: seq<SatelliteSample>)
    ensures |r| == |satellites|
    ensures forall i :: 0 <= i < |r| ==>
      r[i].prn == satellites[i].prn && r[i].azimuth == satellites[i].azimuth
      && r[i].elevation == satellites[i].elevation && r[i].snr == satellites[i].snr
  {
    if satellites == [] then [] else [SatelliteSampleOf(satellites[0])] + SatelliteSamples(satellites[1..])
  }

  /** The entry loop of PublishSatelliteInfo: size the list, then fill it index by index. */
  method CopySatelliteInfo(satelliteInfo: seq<SatelliteInfo>) returns (copy: seq<SatelliteSample>)
    ensures copy == SatelliteSamples(satelliteInfo)
  {
    var entries := new SatelliteSample[|satelliteInfo|];
    for i := 0 to |satelliteInfo|
      invariant forall k :: 0 <= k < i ==> entries[k] == SatelliteSampleOf(satelliteInfo[k])
    {
      entries[i] := SatelliteSample(satelliteInfo[i].prn, satelliteInfo[i].azimuth,
                                    satelliteInfo[i].elevation, satelliteInfo[i].snr);
    }
    copy := entries[..];
  }

  /** The id loop of PublishActiveSatellites: every id in its place. */
  method CopySatelliteIds(satellitesInView: seq<int>) returns (copy: seq<int>)
    ensures copy == satellitesInView
  {
    var ids := new int[|satellitesInView|];
    for i := 0 to |satellitesInView|
      invariant ids[..i] == satellitesInView[..i]
    {
      ids[i] := satellitesInView[i];
    }
    copy := ids[..];
  }

  // ---------------------------------------------------------------------------
  // The callbacks, as a function of the event

  /** What the publisher's callback for an event writes, in order:
      GGA with a non-zero quality, and GLL and RMC with validity "A", give a position
      and an altitude or course sample; GSV and GSA always give one sample; an invalid
      sentence has no handler. GGA and GLL carry only a time of day and are stamped on
      the epoch day; RMC is stamped on its own date. */
  function SamplesOf(e: Event, sensorId: string): seq<Sample>
  {
    match e
    case InvalidSentence(_) => []
    case GGA(time, latitude, longitude, quality, _, _, altitude) =>
      if quality != 0 then
        var date := MillisSinceEpoch(Timestamp(EPOCH, time));
        [PositionData(sensorId, date, latitude, longitude), AltitudeData(sensorId, date, altitude)]
      else []
    case GLL(time, latitude, longitude, validity) =>
      if validity == "A" then [PositionData(sensorId, MillisSinceEpoch(Timestamp(EPOCH, time)), latitude, longitude)]
      else []
    case RMC(time, latitude, longitude, speed, course, date, validity) =>
      if validity == "A" then
        var stamp := MillisSinceEpoch(Timestamp(date, time));
        [PositionData(sensorId, stamp, latitude, longitude), CourseData(sensorId, stamp, speed, course)]
      else []
    case GSV(_, _, _, satelliteInfo) => [SatelliteInfoData(sensorId, SatelliteSamples(satelliteInfo))]
    case GSA(_, _, satellitesInView, pdop, hdop, vdop) =>
      [ActiveSatellitesData(sensorId, satellitesInView, pdop, hdop, vdop)]
  }

  /** The samples of a run of events, event by event. */
  function AllSamples(events: seq<Event>, sensorId: string): seq<Sample>
  {
    if events == [] then [] else SamplesOf(events[0], sensorId) + AllSamples(events[1..], sensorId)
  }

  lemma {:induction false} AllSamplesAppend(a: seq<Event>, b: seq<Event>, sensorId: string)
    ensures AllSamples(a + b, sensorId) == AllSamples(a, sensorId) + AllSamples(b, sensorId)
  {
    if a == [] {
      assert a + b == b;
    } else {
      assert (a + b)[0] == a[0];
      assert (a + b)[1..] == a[1..] + b;
      AllSamplesAppend(a[1..], b, sensorId);
    }
  }

  // ---------------------------------------------------------------------------
  // The filter, case by case

  /** A GGA fix publishes a position and an altitude exactly when its quality is not 0,
      both dated with the time of day in milliseconds and nothing else; an invalid fix
      publishes nothing. */
  lemma GgaSamples(time: int, latitude: real, longitude: real, quality: int, numSatellites: int,
                   horizontalDilution: real, altitude: real, sensorId: string)
    ensures var samples := SamplesOf(GGA(time, latitude, longitude, quality, numSatellites, horizontalDilution, altitude), sensorId);
      (samples != [] <==> quality != 0)
      && (quality != 0 ==> samples == [PositionData(sensorId, time, latitude, longitude), AltitudeData(sensorId, time, altitude)])
  {
    MillisSinceEpochOfEpoch(time);
  }

  /** A GLL fix publishes one position, dated with its time of day, exactly when its
      validity is "A". */
  lemma GllSamples(time: int, latitude: real, longitude: real, validity: string, sensorId: string)
    ensures var samples := SamplesOf(GLL(time, latitude, longitude, validity), sensorId);
      (samples != [] <==> validity == "A")
      && (validity == "A" ==> samples == [PositionData(sensorId, time, latitude, longitude)])
  {
    MillisSinceEpochOfEpoch(time);
  }

  /** An RMC fix publishes a position and a course exactly when its validity is "A",
      both dated with the whole days since 1970-01-01 of its date plus its time of day. */
  lemma RmcSamples(time: int, latitude: real, longitude: real, speed: real, course: real,
                   date: CalendarDate, validity: string, sensorId: string)
    ensures var samples := SamplesOf(RMC(time, latitude, longitude, speed, course, date, validity), sensorId);
      var stamp := DaysSinceEpoch(date) * 86_400_000 + time;
      (samples != [] <==> validity == "A")
      && (validity == "A" ==> samples == [PositionData(sensorId, stamp, latitude, longitude), CourseData(sensorId, stamp, speed, course)])
  {
  }

  /** A GSV sentence publishes one list as long as its satellites, entry by entry the
      same numbers; the message counts and the satellites-in-view total are not
      published, so two sentences that differ only in those publish the same. */
  lemma GsvSamples(totalMessages: int, messageNumber: int, totalSatellitesInView: int,
                   satelliteInfo: seq<SatelliteInfo>, sensorId: string)
    ensures var samples := SamplesOf(GSV(totalMessages, messageNumber, totalSatellitesInView, satelliteInfo), sensorId);
      |samples| == 1 && samples[0].SatelliteInfoData? && samples[0].sensorId == sensorId
      && |samples[0].satelliteInfo| == |satelliteInfo|
      && (forall i :: 0 <= i < |satelliteInfo| ==> samples[0].satelliteInfo[i] == SatelliteSampleOf(satelliteInfo[i]))
    ensures forall m, n, t :: SamplesOf(GSV(m, n, t, satelliteInfo), sensorId)
                              == SamplesOf(GSV(totalMessages, messageNumber, totalSatellitesInView, satelliteInfo), sensorId)
  {
  }

  /** A GSA sentence publishes its satellite ids in order with the three dilutions; the
      mode and the fix type are not published. */
  lemma GsaSamples(mode: string, fix: int, satellitesInView: seq<int>, pdop: real, hdop: real, vdop: real, sensorId: string)
    ensures SamplesOf(GSA(mode, fix, satellitesInView, pdop, hdop, vdop), sensorId)
            == [ActiveSatellitesData(sensorId, satellitesInView, pdop, hdop, vdop)]
    ensures forall m, f :: SamplesOf(GSA(m, f, satellitesInView, pdop, hdop, vdop), sensorId)
                           == SamplesOf(GSA(mode, fix, satellitesInView, pdop, hdop, vdop), sensorId)
  {
  }

  /** Every sample carries the publisher's sensor id, and an invalid sentence publishes
      nothing. */
  lemma SamplesSensorId(e: Event, sensorId: string)
    ensures forall s :: s in SamplesOf(e, sensorId) ==> s.sensorId == sensorId
    ensures e.InvalidSentence? ==> SamplesOf(e, sensorId) == []
  {
  }

  // ---------------------------------------------------------------------------
  // The publisher

  class GpsPublisher {
    const portName: string
    /** The result of the machine-name lookup: None when it reports an error. */
    const hostName: Option<string>
    const decoder: SentenceDecoder
    /** Every sample written so far, in order of writing. */
    var published: seq<Sample>

    ghost predicate Valid()
      reads this, decoder
    {
      decoder.Valid()
    }

    constructor(portName: string, hostName: Option<string>)
      ensures Valid() && fresh(decoder) && decoder.pending == []
      ensures this.portName == portName && this.hostName == hostName && published == []
    {
      this.portName := portName;
      this.hostName := hostName;
      decoder := new SentenceDecoder();
      published := [];
    }

    method PublishPosition(stamp: Timestamp, latitude: real, longitude: real)
      modifies this
      ensures published == old(published) + [PositionData(SensorId(hostName, portName), MillisSinceEpoch(stamp), latitude, longitude)]
    {
      published := published + [PositionData(SensorId(hostName, portName), MillisSinceEpoch(stamp), latitude, longitude)];
    }

    method PublishAltitude(stamp: Timestamp, altitude: real)
      modifies this
      ensures published == old(published) + [AltitudeData(SensorId(hostName, portName), MillisSinceEpoch(stamp), altitude)]
    {
      published := published + [AltitudeData(SensorId(hostName, portName), MillisSinceEpoch(stamp), altitude)];
    }

    method PublishCourse(stamp: Timestamp, speed: real, course: real)
      modifies this
      ensures published == old(published) + [CourseData(SensorId(hostName, portName), MillisSinceEpoch(stamp), speed, course)]
    {
      published := published + [CourseData(SensorId(hostName, portName), MillisSinceEpoch(stamp), speed, course)];
    }

    method PublishSatelliteInfo(satelliteInfo: seq<SatelliteInfo>)
      modifies this
      ensures published == old(published) + [SatelliteInfoData(SensorId(hostName, portName), SatelliteSamples(satelliteInfo))]
    {
      var entries := CopySatelliteInfo(satelliteInfo);
      published := published + [SatelliteInfoData(SensorId(hostName, portName), entries)];
    }

    method PublishActiveSatellites(satellitesInView: seq<int>, pdop: real, hdop: real, vdop: real)
      modifies this
      ensures published == old(published) + [ActiveSatellitesData(SensorId(hostName, portName), satellitesInView, pdop, hdop, vdop)]
    {
      var ids := CopySatelliteIds(satellitesInView);
      published := published + [ActiveSatellitesData(SensorId(hostName, portName), ids, pdop, hdop, vdop)];
    }

    /** The callback the publisher installs for the event's kind. */
    method OnEvent(e: Event)
      modifies this
      ensures published == old(published) + SamplesOf(e, SensorId(hostName, portName))
    {
      match e {
        case InvalidSentence(_) =>
        case GGA(time, latitude, longitude, quality, _, _, altitude) =>
          if quality != 0 {
            PublishPosition(Timestamp(EPOCH, time), latitude, longitude);
            PublishAltitude(Timestamp(EPOCH, time), altitude);
          }
        case GLL(time, latitude, longitude, validity) =>
          if validity == "A" {
            PublishPosition(Timestamp(EPOCH, time), latitude, longitude);
          }
        case RMC(time, latitude, longitude, speed, course, date, validity) =>
          if validity == "A" {
            PublishPosition(Timestamp(date, time), latitude, longitude);
            PublishCourse(Timestamp(date, time), speed, course);
          }
        case GSV(_, _, _, satelliteInfo) =>
          PublishSatelliteInfo(satelliteInfo);
        case GSA(_, _, satellitesInView, pdop, hdop, vdop) =>
          PublishActiveSatellites(satellitesInView, pdop, hdop, vdop);
      }
    }

    /** The callbacks for a run of events, one after the other. */
    method OnEvents(events: seq<Event>)
      modifies this
      ensures published == old(published) + AllSamples(events, SensorId(hostName, portName))
    {
      ghost var id := SensorId(hostName, portName);
      for i := 0 to |events|
        invariant published == old(published) + AllSamples(events[..i], id)
      {
        assert events[..i + 1] == events[..i] + [events[i]];
        AllSamplesAppend(events[..i], [events[i]], id);
        assert AllSamples([events[i]], id) == SamplesOf(events[i], id);
        OnEvent(events[i]);
      }
      assert events[..|events|] == events;
    }

    /** OnRead: hand the first `bytesRead` bytes of the read buffer to the decoder and
        publish what each completed sentence calls for, in order. */
    method OnRead(buffer: seq<byte>, bytesRead: nat)
      requires bytesRead <= |buffer| && Valid()
      modifies this, decoder
      ensures Valid()
      ensures decoder.pending == Scan(old(decoder.pending) + buffer[..bytesRead]).rest
      ensures published == old(published)
                           + AllSamples(Events(old(decoder.pending) + buffer[..bytesRead]), SensorId(hostName, portName))
    {
      var events := decoder.AddBytes(buffer[..bytesRead]);
      OnEvents(events);
    }
  }

  /** A new publisher that reads `bytes` in one piece. */
  method PublishRead(portName: string, hostName: Option<string>, bytes: seq<byte>) returns (samples: seq<Sample>)
    ensures samples == AllSamples(Events(bytes), SensorId(hostName, portName))
  {
    var publisher := new GpsPublisher(portName, hostName);
    assert [] + bytes == bytes && bytes[..|bytes|] == bytes;
    publisher.OnRead(bytes, |bytes|);
    samples := publisher.published;
  }

  /** Reading the stream in two pieces publishes what reading it in one piece would. */
  lemma AllSamplesSplit(a: seq<byte>, b: seq<byte>, sensorId: string)
    ensures AllSamples(Events(a), sensorId) + AllSamples(Events(Scan(a).rest + b), sensorId)
            == AllSamples(Events(a + b), sensorId)
  {
    EventsAppend(a, b);
    AllSamplesAppend(Events(a), Events(Scan(a).rest + b), sensorId);
  }
}
