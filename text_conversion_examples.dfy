/** The library's own test cases for the text conversions, as lemmas about the model. */
module TextConversionExamples {
  import opened Wrappers
  import opened TextConversions

  lemma ExampleSpelling()
    ensures TwoDigits(1) + TwoDigits(2) + TwoDigits(3) + "." + PadDigits(4, 1) == "010203.4"
  {
  }

  lemma UncheckedSpelling()
    ensures TwoDigits(99) + TwoDigits(60) + TwoDigits(99) + "." + PadDigits(0, 1) == "996099.0"
  {
  }

  lemma TimeOfFieldExampleRendered()
    ensures TimeOfField(TwoDigits(1) + TwoDigits(2) + TwoDigits(3) + "." + PadDigits(4, 1)) == Time(3_723_400)
  {
    assert WholeMillis(4, 1) && FractionMillis(4, 1) == 400;
    TimeOfFieldRoundTrip(1, 2, 3, 4, 1);
  }

  /** The library's test: "010203.4" is 01:02:03.400. */
  lemma TimeOfFieldExample()
    ensures TimeOfField("010203.4") == Time(3_723_400)
  {
    TimeOfFieldExampleRendered();
    ExampleSpelling();
  }

  lemma TimeOfFieldUncheckedRendered()
    ensures TimeOfField(TwoDigits(99) + TwoDigits(60) + TwoDigits(99) + "." + PadDigits(0, 1))
         == Time(99 * 3_600_000 + 60 * 60_000 + 99_000)
  {
    assert WholeMillis(0, 1) && FractionMillis(0, 1) == 0;
    TimeOfFieldRoundTrip(99, 60, 99, 0, 1);
  }

  /** Hours, minutes and seconds are not range-checked: "996099.0" is 99 h 60 min 99 s. */
  lemma TimeOfFieldUnchecked()
    ensures TimeOfField("996099.0") == Time(99 * 3_600_000 + 60 * 60_000 + 99_000)
  {
    TimeOfFieldUncheckedRendered();
    UncheckedSpelling();
  }

  lemma Finer15Spelling()
    ensures TwoDigits(0) + TwoDigits(0) + TwoDigits(0) + "." + PadDigits(15, 4) == "000000.0015"
  {
    assert PadDigits(15, 4) == "0015";
  }

  lemma Whole10Spelling()
    ensures TwoDigits(0) + TwoDigits(0) + TwoDigits(0) + "." + PadDigits(10, 4) == "000000.0010"
  {
    assert PadDigits(10, 4) == "0010";
  }

  lemma Finer15Rendered()
    ensures TimeOfField(TwoDigits(0) + TwoDigits(0) + TwoDigits(0) + "." + PadDigits(15, 4)) == BadLexicalCast
  {
    assert !WholeMillis(15, 4) && FractionMillis(15, 4) == 1;
    TimeOfFieldRoundTrip(0, 0, 0, 15, 4);
  }

  lemma Below5Spelling()
    ensures TwoDigits(0) + TwoDigits(0) + TwoDigits(0) + "." + PadDigits(5, 4) == "000000.0005"
  {
    assert PadDigits(5, 4) == "0005";
  }

  lemma Below5Rendered()
    ensures TimeOfField(TwoDigits(0) + TwoDigits(0) + TwoDigits(0) + "." + PadDigits(5, 4)) == Time(0)
  {
    assert FractionMillis(5, 4) == 0;
    TimeOfFieldRoundTrip(0, 0, 0, 5, 4);
  }

  lemma Whole10Rendered()
    ensures TimeOfField(TwoDigits(0) + TwoDigits(0) + TwoDigits(0) + "." + PadDigits(10, 4)) == Time(1)
  {
    assert WholeMillis(10, 4);
    assert FractionMillis(10, 4) == 1;
    TimeOfFieldRoundTrip(0, 0, 0, 10, 4);
  }

  /** A fraction finer than a millisecond makes lexical_cast<int> lose precision, so
      "000000.0015" (1.5 ms) is bad_lexical_cast, while "000000.0010", four digits of
      whole milliseconds, is 1 ms. Below one millisecond Boost makes no precision check:
      "000000.0005" (0.5 ms) is 0 ms. */
  lemma TimeOfFieldFinerThanMillisecond()
    ensures TimeOfField("000000.0015") == BadLexicalCast
    ensures TimeOfField("000000.0010") == Time(1)
    ensures TimeOfField("000000.0005") == Time(0)
  {
    Finer15Rendered();
    Whole10Rendered();
    Below5Rendered();
    Finer15Spelling();
    Whole10Spelling();
    Below5Spelling();
  }

  /** A field without the fraction matches the pattern, but its empty capture does not
      convert; a field that is not six digits does not match. */
  lemma TimeOfFieldFailures()
    ensures TimeOfField("996099") == BadLexicalCast
    ensures TimeOfField("12:30:00") == NotHms("12:30:00 is not hms")
  {
    assert "996099"[6..] == "";
    assert "996099"[..6] == "996099";
    assert !IsDigit(':');
    assert "12:30:00"[..6][2] == ':';
  }
}
