/** What the publisher writes for the decoder's test sentences. */
module PublisherExamples {
  import opened Wrappers
  import opened Calendar
  import opened Sentences
  import opened Decoder
  import opened Publisher
  import opened GgaExample
  import opened UninitializedGgaExample
  import opened GllExample
  import opened RmcExample
  import opened GsvExample
  import opened GsaExample

  /** The GGA test line, a fix of quality 1, publishes a position and an altitude dated
      19:16:30.609 on the epoch day. */
  lemma GgaPublished(sensorId: string)
    ensures IsByteText(GGA_RAW + "\r\n")
    ensures AllSamples(Events(Bytes(GGA_RAW + "\r\n")), sensorId)
            == [PositionData(sensorId, 69390609, 38.0 + 48.2905 / 60.0, -(90.0 + 18.4239 / 60.0)),
                AltitudeData(sensorId, 69390609, 132.0)]
  {
    GgaSentence();
    GgaSamples(69390609, 38.0 + 48.2905 / 60.0, -(90.0 + 18.4239 / 60.0), 1, 6, 1.3, 132.0, sensorId);
    assert AllSamples([GGA_EVENT], sensorId) == SamplesOf(GGA_EVENT, sensorId) + [];
  }

  /** The sentences of a receiver without a fix publish nothing: GGA of quality 0, and
      GLL and RMC of validity "V". */
  lemma UninitializedPublishNothing(sensorId: string)
    ensures SamplesOf(GGA0_EVENT, sensorId) == []
    ensures SamplesOf(GLL_EVENT, sensorId) == []
    ensures SamplesOf(RMC_EVENT, sensorId) == []
  {
    GgaSamples(4000, 0.0, 0.0, 0, 0, 50.0, 0.0, sensorId);
    GllSamples(4000, 360.0, 720.0, "V", sensorId);
    RmcSamples(3000, 360.0, 720.0, 0.0, 0.0, RMC_DATE, "V", sensorId);
  }

  /** The RMC test fix with validity "A" would be dated 2002-11-10 00:00:03 UTC, that is
      12001 days and 3 seconds after the epoch. */
  lemma RmcValidPublished(sensorId: string)
    ensures SamplesOf(RMC(3000, 360.0, 720.0, 0.0, 0.0, RMC_DATE, "A"), sensorId)
            == [PositionData(sensorId, 1_036_886_403_000, 360.0, 720.0), CourseData(sensorId, 1_036_886_403_000, 0.0, 0.0)]
  {
    DaysSinceEpochExample();
    RmcSamples(3000, 360.0, 720.0, 0.0, 0.0, RMC_DATE, "A", sensorId);
  }

  /** The GSV test sentence publishes its four satellites, azimuth before elevation. */
  lemma GsvPublished(sensorId: string)
    ensures SamplesOf(GSV_EVENT, sensorId)
            == [SatelliteInfoData(sensorId, [SatelliteSample(18, 311, 62, 37), SatelliteSample(15, 49, 47, 40),
                                            SatelliteSample(14, 218, 16, 30), SatelliteSample(29, 186, 11, 28)])]
  {
    GsvSamples(3, 1, 10, GSV_SATELLITES, sensorId);
    var entries := SatelliteSamples(GSV_SATELLITES);
    assert entries[0] == SatelliteSample(18, 311, 62, 37);
    assert entries[1] == SatelliteSample(15, 49, 47, 40);
    assert entries[2] == SatelliteSample(14, 218, 16, 30);
    assert entries[3] == SatelliteSample(29, 186, 11, 28);
    assert entries == [SatelliteSample(18, 311, 62, 37), SatelliteSample(15, 49, 47, 40),
                       SatelliteSample(14, 218, 16, 30), SatelliteSample(29, 186, 11, 28)];
  }

  /** The GSA test sentence publishes an empty id list and its three dilutions. */
  lemma GsaPublished(sensorId: string)
    ensures SamplesOf(GSA_EVENT, sensorId) == [ActiveSatellitesData(sensorId, [], 50.0, 50.0, 50.0)]
  {
    GsaSamples("A", 1, [], 50.0, 50.0, 50.0, sensorId);
  }

  lemma SensorIdExample()
    ensures SensorId(Some("gps"), "COM1") == "gps:COM1"
  {
  }

  /** A publisher on port "COM1" of host "gps" that reads the GGA test line. */
  method PublishGgaTest() returns (samples: seq<Sample>)
    ensures samples == [PositionData("gps:COM1", 69390609, 38.0 + 48.2905 / 60.0, -(90.0 + 18.4239 / 60.0)),
                        AltitudeData("gps:COM1", 69390609, 132.0)]
  {
    SensorIdExample();
    GgaPublished(SensorId(Some("gps"), "COM1"));
    samples := PublishRead("COM1", Some("gps"), Bytes(GGA_RAW + "\r\n"));
  }
}
