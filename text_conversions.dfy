/** Text-to-number conversions used when decoding sentence fields:
    boost::lexical_cast<int> and lexical_cast<double> over field text, the library's
    lexical_cast_default and byte_from_hex helpers, and the HHMMSS[.f] time decoder. */
module TextConversions {
  import opened Wrappers

  // ---------------------------------------------------------------------------
  // Decimal digits

  /** The range of the C++ `int` that lexical_cast<int> produces. */
  const INT_MIN: int := -0x8000_0000
  const INT_MAX: int := 0x7FFF_FFFF

  predicate InInt32(n: int) { INT_MIN <= n <= INT_MAX }

  predicate IsDigit(c: char) { '0' <= c <= '9' }

  predicate AllDigits(s: string) { forall k :: 0 <= k < |s| ==> IsDigit(s[k]) }

  function DigitValue(c: char): (d: nat)
    requires IsDigit(c)
    ensures d < 10
  {
    c as int - '0' as int
  }

  function DigitChar(d: nat): (c: char)
    requires d < 10
    ensures IsDigit(c) && DigitValue(c) == d
  {
    ('0' as int + d) as char
  }

  function Pow10(n: nat): (r: nat)
    ensures r >= 1
  {
    if n == 0 then 1 else 10 * Pow10(n - 1)
  }

  /** The value of a string of decimal digits, most significant digit first. */
  function DigitsValue(s: string): (v: nat)
    requires AllDigits(s)
  {
    if s == [] then 0 else DigitValue(s[0]) * Pow10(|s| - 1) + DigitsValue(s[1..])
  }

  /** k digits have a value below 10^k. */
  lemma {:induction false} DigitsValueBound(s: string)
    requires AllDigits(s)
    ensures DigitsValue(s) < Pow10(|s|)
  {
    if s != [] {
      DigitsValueBound(s[1..]);
      var d, p, rest := DigitValue(s[0]), Pow10(|s| - 1), DigitsValue(s[1..]);
      assert DigitsValue(s) == d * p + rest;
      BoundArith(d, p, rest);
    }
  }

  lemma BoundArith(d: int, p: int, rest: int)
    requires 0 <= d < 10 && 0 <= rest < p
    ensures d * p + rest < 10 * p
  {
    assert d * p <= 9 * p;
  }

  /** The shortest decimal rendering of `n`. */
  function NatToDigits(n: nat): (s: string)
    ensures |s| > 0 && AllDigits(s)
  {
    if n < 10 then [DigitChar(n)] else NatToDigits(n / 10) + [DigitChar(n % 10)]
  }

  /** The last `width` decimal digits of `n`, with leading zeros. */
  function PadDigits(n: nat, width: nat): (s: string)
    ensures |s| == width && AllDigits(s)
  {
    if width == 0 then "" else PadDigits(n / 10, width - 1) + [DigitChar(n % 10)]
  }

  lemma AllDigitsAppend(a: string, b: string)
    requires AllDigits(a) && AllDigits(b)
    ensures AllDigits(a + b)
  {
    forall k | 0 <= k < |a + b| ensures IsDigit((a + b)[k]) {
      if k < |a| { assert (a + b)[k] == a[k]; } else { assert (a + b)[k] == b[k - |a|]; }
    }
  }

  lemma SnocArith(d: int, p: int, rest: int, c: int)
    ensures d * (10 * p) + (10 * rest + c) == 10 * (d * p + rest) + c
  {
  }

  lemma {:induction false} DigitsValueSnoc(s: string, c: char)
    requires AllDigits(s) && IsDigit(c)
    ensures AllDigits(s + [c])
    ensures DigitsValue(s + [c]) == 10 * DigitsValue(s) + DigitValue(c)
  {
    AllDigitsAppend(s, [c]);
    if s != [] {
      var t := s + [c];
      assert t[0] == s[0];
      assert t[1..] == s[1..] + [c];
      DigitsValueSnoc(s[1..], c);
      var d, p, rest := DigitValue(s[0]), Pow10(|s| - 1), DigitsValue(s[1..]);
      assert DigitsValue(s) == d * p + rest;
      assert DigitsValue(t) == d * (10 * p) + (10 * rest + DigitValue(c));
      SnocArith(d, p, rest, DigitValue(c));
    }
  }

  /** Reading back the decimal rendering of a number gives the number. */
  lemma {:induction false} NatToDigitsValue(n: nat)
    ensures DigitsValue(NatToDigits(n)) == n
  {
    if n >= 10 {
      NatToDigitsValue(n / 10);
      DigitsValueSnoc(NatToDigits(n / 10), DigitChar(n % 10));
    }
  }

  /** Reading back a zero-padded rendering gives the number modulo the width. */
  lemma {:induction false} PadDigitsValue(n: nat, width: nat)
    ensures DigitsValue(PadDigits(n, width)) == n % Pow10(width)
  {
    if width > 0 {
      PadDigitsValue(n / 10, width - 1);
      DigitsValueSnoc(PadDigits(n / 10, width - 1), DigitChar(n % 10));
      ModSplit(n, Pow10(width - 1));
    }
  }

  /** Euclidean division has one quotient and remainder. */
  lemma DivModUnique(n: int, d: int, q: int, r: int)
    requires d > 0 && 0 <= r < d && n == q * d + r
    ensures n / d == q && n % d == r
  {
    var q', r' := n / d, n % d;
    assert n == q' * d + r';
    if q > q' {
      MulAtLeast(q - q', d);
    } else if q < q' {
      MulAtLeast(q' - q, d);
    }
  }

  lemma MulAtLeast(a: int, d: int)
    requires a >= 1 && d > 0
    ensures a * d >= d
  {
    assert (a - 1) * d >= 0;
  }

  /** The last digit and the digits before it of a number below 10 * p. */
  lemma ModSplit(n: nat, p: nat)
    requires p >= 1
    ensures n % (10 * p) == 10 * ((n / 10) % p) + n % 10
  {
    var a, b := n / 10, n % 10;
    var c, e := a / p, a % p;
    assert n == 10 * a + b;
    assert a == c * p + e;
    assert 10 * (c * p) == c * (10 * p);
    assert n == c * (10 * p) + (10 * e + b);
    DivModUnique(n, 10 * p, c, 10 * e + b);
  }

  // ---------------------------------------------------------------------------
  // lexical_cast<int>

  /** boost::lexical_cast<int>: an optional sign followed by one or more decimal
      digits whose value fits in 32 bits. Anything else (the empty string, letters,
      a lone sign, spaces, an out-of-range value) throws bad_lexical_cast: None. */
  function ParseInt(s: string): (r: Option<int>)
    ensures r.Some? ==> InInt32(r.value)
    ensures |s| == 0 ==> r.None?
  {
    var signed := |s| > 0 && (s[0] == '-' || s[0] == '+');
    var digits := if signed then s[1..] else s;
    if |digits| == 0 || !AllDigits(digits) then None
    else
      var v: int := if signed && s[0] == '-' then 0 - DigitsValue(digits) else DigitsValue(digits);
      if InInt32(v) then Some(v) else None
  }

  /** The decimal rendering of an integer, with a leading '-' when negative. */
  function IntToString(n: int): (s: string)
    ensures |s| > 0
  {
    if n < 0 then "-" + NatToDigits(-n) else NatToDigits(n)
  }

  /** lexical_cast<int> reads back every 32-bit integer's rendering. */
  lemma ParseIntRoundTrip(n: int)
    requires InInt32(n)
    ensures ParseInt(IntToString(n)) == Some(n)
  {
    if n < 0 {
      ParseIntNegative(n);
    } else {
      ParseIntNatural(n);
    }
  }

  lemma ParseIntNegative(n: int)
    requires INT_MIN <= n < 0
    ensures ParseInt("-" + NatToDigits(-n)) == Some(n)
  {
    var s := "-" + NatToDigits(-n);
    assert s[1..] == NatToDigits(-n);
    NatToDigitsValue(-n);
  }

  lemma ParseIntNatural(n: int)
    requires 0 <= n <= INT_MAX
    ensures ParseInt(NatToDigits(n)) == Some(n)
  {
    var s := NatToDigits(n);
    assert s[0] != '-' && s[0] != '+' by { assert IsDigit(s[0]); }
    NatToDigitsValue(n);
  }

  /** GPSLib::lexical_cast_default<int>: the parsed value, or the caller's default
      when the text does not parse. */
  function LexicalCastDefault(s: string, default: int): (r: int)
    ensures s == "" ==> r == default
    ensures r == default || ParseInt(s) == Some(r)
  {
    match ParseInt(s)
    case Some(v) => v
    case None => default
  }

  /** The three cases the library's tests assert, and the general law behind them:
      the default is returned exactly when lexical_cast<int> would throw. */
  lemma LexicalCastDefaultCases(s: string, default: int)
    ensures LexicalCastDefault("", 3) == 3
    ensures LexicalCastDefault("Fred", 3) == 3
    ensures LexicalCastDefault("9", 3) == 9
    ensures ParseInt(s).None? ==> LexicalCastDefault(s, default) == default
    ensures ParseInt(s).Some? ==> LexicalCastDefault(s, default) == ParseInt(s).value
  {
    assert !IsDigit('F');
    assert "9"[0] == '9';
  }

  /** A well-formed integer is returned whatever the default. */
  lemma LexicalCastDefaultOfRendering(n: int, default: int)
    requires InInt32(n)
    ensures LexicalCastDefault(IntToString(n), default) == n
  {
    ParseIntRoundTrip(n);
  }

  // ---------------------------------------------------------------------------
  // lexical_cast<double>, over exact decimals

  /** The index of the first `c` in `s`, or |s| when there is none. */
  function IndexOf(s: string, c: char): (k: nat)
    ensures k <= |s|
    ensures forall j :: 0 <= j < k ==> s[j] != c
    ensures k < |s| ==> s[k] == c
  {
    if s == [] || s[0] == c then 0 else 1 + IndexOf(s[1..], c)
  }

  /** An unsigned decimal: digits, optionally a '.' and more digits, with at least
      one digit in all ("5", "5.", ".5", "3848.2905"). */
  function ParseUnsignedDecimal(s: string): (r: Option<real>)
    ensures r.Some? ==> r.value >= 0.0
  {
    var k := IndexOf(s, '.');
    var whole := s[..k];
    var fraction := if k < |s| then s[k + 1..] else "";
    if AllDigits(whole) && AllDigits(fraction) && |whole| + |fraction| > 0 then
      Some(DigitsValue(whole) as real + DigitsValue(fraction) as real / Pow10(|fraction|) as real)
    else
      None
  }

  /** boost::lexical_cast<double> on the decimal forms that NMEA fields use:
      an optional sign and an unsigned decimal. */
  function ParseDecimal(s: string): (r: Option<real>)
    ensures r.Some? ==> |s| > 0
    ensures r.Some? && s[0] == '-' ==> r.value <= 0.0
    ensures r.Some? && s[0] != '-' ==> r.value >= 0.0
  {
    if |s| > 0 && (s[0] == '-' || s[0] == '+') then
      match ParseUnsignedDecimal(s[1..])
      case Some(v) => Some(if s[0] == '-' then -v else v)
      case None => None
    else
      ParseUnsignedDecimal(s)
  }

  lemma IndexOfDigits(s: string)
    requires AllDigits(s)
    ensures IndexOf(s, '.') == |s|
  {
  }

  lemma {:induction false} IndexOfAfterDigits(whole: string, rest: string)
    requires AllDigits(whole) && |rest| > 0 && rest[0] == '.'
    ensures IndexOf(whole + rest, '.') == |whole|
  {
    if whole == [] {
      assert whole + rest == rest;
    } else {
      assert (whole + rest)[0] == whole[0];
      assert (whole + rest)[1..] == whole[1..] + rest;
      IndexOfAfterDigits(whole[1..], rest);
    }
  }

  /** A text that starts with a digit or '.' has no sign to strip. */
  lemma ParseDecimalUnsigned(s: string)
    requires |s| > 0 && (IsDigit(s[0]) || s[0] == '.')
    ensures ParseDecimal(s) == ParseUnsignedDecimal(s)
  {
  }

  /** A decimal written as digits, '.', digits reads back as its value. */
  lemma {:induction false} ParseUnsignedDecimalParts(whole: string, fraction: string)
    requires AllDigits(whole) && AllDigits(fraction) && |whole| + |fraction| > 0
    ensures ParseUnsignedDecimal(whole + "." + fraction)
         == Some(DigitsValue(whole) as real + DigitsValue(fraction) as real / Pow10(|fraction|) as real)
  {
    var s := whole + "." + fraction;
    assert s == whole + ("." + fraction);
    IndexOfAfterDigits(whole, "." + fraction);
    assert s[..|whole|] == whole;
    assert s[|whole| + 1..] == fraction;
  }

  /** The rendering `w.fff` (k fraction digits) of w + f / 10^k reads back exactly. */
  lemma ParseDecimalOfRendering(w: nat, f: nat, k: nat)
    requires f < Pow10(k)
    ensures ParseDecimal(NatToDigits(w) + "." + PadDigits(f, k)) == Some(w as real + f as real / Pow10(k) as real)
  {
    var whole, fraction := NatToDigits(w), PadDigits(f, k);
    var s := whole + "." + fraction;
    assert s[0] == whole[0];
    ParseDecimalUnsigned(s);
    ParseUnsignedDecimalParts(whole, fraction);
    NatToDigitsValue(w);
    PadDigitsValue(f, k);
    DivModUnique(f, Pow10(k), 0, f);
  }

  /** A leading '-' negates the value; a leading '+' does not change it. */
  lemma ParseDecimalSign(s: string)
    ensures ParseDecimal("-" + s) == (if ParseUnsignedDecimal(s).Some? then Some(-ParseUnsignedDecimal(s).value) else None)
    ensures ParseDecimal("+" + s) == ParseUnsignedDecimal(s)
  {
    assert ("-" + s)[1..] == s;
    assert ("+" + s)[1..] == s;
  }

  /** GPSLib::lexical_cast_default<double>. */
  function LexicalCastDefaultReal(s: string, default: real): (r: real)
    ensures s == "" ==> r == default
    ensures r == default || ParseDecimal(s) == Some(r)
  {
    match ParseDecimal(s)
    case Some(v) => v
    case None => default
  }

  // ---------------------------------------------------------------------------
  // byte_from_hex

  type uint8 = x: int | 0 <= x < 256

  predicate IsHexDigit(c: char) { '0' <= c <= '9' || 'A' <= c <= 'F' || 'a' <= c <= 'f' }

  function HexDigitValue(c: char): (v: nat)
    requires IsHexDigit(c)
    ensures v < 16
  {
    if '0' <= c <= '9' then c as int - '0' as int
    else if 'A' <= c <= 'F' then c as int - 'A' as int + 10
    else c as int - 'a' as int + 10
  }

  /** The upper-case hex digit of a value below 16. */
  function HexDigitChar(v: nat): (c: char)
    requires v < 16
    ensures IsHexDigit(c) && HexDigitValue(c) == v && !('a' <= c <= 'f')
  {
    if v < 10 then ('0' as int + v) as char else ('A' as int + v - 10) as char
  }

  /** GPSLib::byte_from_hex: exactly two hex digits, either case, to a byte value.
      Any other text does not convert. */
  function ByteFromHex(s: string): (r: Option<uint8>)
    ensures r.Some? <==> |s| == 2 && IsHexDigit(s[0]) && IsHexDigit(s[1])
  {
    if |s| == 2 && IsHexDigit(s[0]) && IsHexDigit(s[1]) then
      Some(16 * HexDigitValue(s[0]) + HexDigitValue(s[1]))
    else
      None
  }

  /** A byte as the two upper-case hex digits a sentence trailer carries. */
  function HexByte(b: uint8): (s: string)
    ensures |s| == 2
  {
    [HexDigitChar(b / 16), HexDigitChar(b % 16)]
  }

  function UpperHex(c: char): char
  {
    if 'a' <= c <= 'f' then (c as int - 'a' as int + 'A' as int) as char else c
  }

  /** byte_from_hex reads back a byte's rendering, and it accepts exactly the
      renderings of the value it returns, in either case. */
  lemma ByteFromHexRoundTrip(b: uint8, s: string)
    ensures ByteFromHex(HexByte(b)) == Some(b)
    ensures ByteFromHex(s) == Some(b) ==> [UpperHex(s[0]), UpperHex(s[1])] == HexByte(b)
  {
    if ByteFromHex(s) == Some(b) {
      var hi, lo := HexDigitValue(s[0]), HexDigitValue(s[1]);
      DivModUnique(b, 16, hi, lo);
    }
  }

  /** The library's test: "F0" is 240. */
  lemma ByteFromHexF0()
    ensures ByteFromHex("F0") == Some(240)
  {
  }

  // ---------------------------------------------------------------------------
  // DecodeTime

  /** The outcome of decoding a time field: a time of day in milliseconds, or one of
      the two exceptions DecodeTime lets escape. */
  datatype TimeOutcome =
    | Time(ms: int)
    | NotHms(message: string)     // std::invalid_argument, thrown before the iterator moves
    | BadLexicalCast              // boost::bad_lexical_cast, thrown after the iterator moved

  /** The regular expression (\d{2})(\d{2})(\d{2})(?:(.\d*))? matched against the
      whole field: six digits, then optionally any one character and any digits. */
  predicate IsHms(s: string)
  {
    |s| >= 6 && AllDigits(s[..6]) && (|s| == 6 || AllDigits(s[7..]))
  }

  /** C++'s conversion of a double to int drops the fraction toward zero. */
  function Trunc(x: real): (r: int)
    ensures x >= 0.0 ==> r as real <= x < r as real + 1.0
    ensures x < 0.0 ==> r as real - 1.0 < x <= r as real
  {
    if x >= 0.0 then x.Floor else -((-x).Floor)
  }

  /** A double with no fractional part, the only kind lexical_cast<int> converts:
      boost::lexical_cast refuses a conversion that would lose precision. */
  predicate IsWhole(x: real)
  {
    x.Floor as real == x
  }

  /** Whether lexical_cast<int> converts the double x: Boost's precision-loss test is
      skipped when x truncates to 0, and otherwise refuses a fractional part. */
  predicate CastsToInt(x: real)
  {
    Trunc(x) == 0 || IsWhole(x)
  }

  /** What DecodeTime computes from one field. Hours, minutes and seconds are any two
      digits (no range check). The milliseconds are lexical_cast<int> of
      lexical_cast<double>(capture) * 1000, where the capture is the optional group,
      including its leading character, and is the empty string when absent. A product
      of 1 or more with a fractional part (such as ".0015", 1.5 ms) or outside the
      32-bit range is bad_lexical_cast; a product below 1 (".0005") truncates to 0. */
  function TimeOfField(s: string): (t: TimeOutcome)
    ensures t.NotHms? <==> !IsHms(s)
    ensures t.NotHms? ==> t.message == s + " is not hms"
    ensures t.Time? ==> ParseDecimal(s[6..]).Some? && CastsToInt(ParseDecimal(s[6..]).value * 1000.0)
    ensures t.Time? ==> t.ms == DigitsValue(s[0..2]) * 3_600_000 + DigitsValue(s[2..4]) * 60_000
                               + DigitsValue(s[4..6]) * 1000 + Trunc(ParseDecimal(s[6..]).value * 1000.0)
  {
    if !IsHms(s) then NotHms(s + " is not hms")
    else
      assert AllDigits(s[0..2]) && AllDigits(s[2..4]) && AllDigits(s[4..6]) by {
        assert forall k :: 0 <= k < 2 ==> s[0..2][k] == s[..6][k] && s[2..4][k] == s[..6][k + 2] && s[4..6][k] == s[..6][k + 4];
      }
      match ParseDecimal(s[6..])
      case None => BadLexicalCast
      case Some(fraction) =>
        var ms := Trunc(fraction * 1000.0);
        if CastsToInt(fraction * 1000.0) && InInt32(ms) then
          Time(DigitsValue(s[0..2]) * 3_600_000 + DigitsValue(s[2..4]) * 60_000 + DigitsValue(s[4..6]) * 1000 + ms)
        else
          BadLexicalCast
  }

  /** A field that matches the pattern but whose capture, times 1000, is not below 1 and
      has a fractional part is bad_lexical_cast: lexical_cast<int> would lose precision. */
  lemma TimeOfFieldLosesPrecision(s: string)
    requires IsHms(s) && ParseDecimal(s[6..]).Some? && !CastsToInt(ParseDecimal(s[6..]).value * 1000.0)
    ensures TimeOfField(s) == BadLexicalCast
  {
  }

  /** DecodeTime(i): decodes the field `*i` of `fields` and advances the caller's
      iterator past it exactly when the field matches the pattern. A field that does
      not match throws invalid_argument with the iterator unmoved; a match whose
      capture does not convert throws bad_lexical_cast after the iterator moved. */
  method DecodeTime(fields: seq<string>, i: nat) returns (t: TimeOutcome, next: nat)
    requires i < |fields|
    ensures t == TimeOfField(fields[i])
    ensures next == if IsHms(fields[i]) then i + 1 else i
  {
    var s := fields[i];
    if !IsHms(s) {
      t, next := NotHms(s + " is not hms"), i;
      return;
    }
    next := i + 1;
    t := TimeOfField(s);
  }

  function TwoDigits(n: nat): (s: string)
    requires n < 100
  {
    PadDigits(n, 2)
  }

  /** A field made of six digits and a capture that converts to a double decodes to
      the time those digits and that capture spell, when lexical_cast<int> converts the
      capture's milliseconds, and is bad_lexical_cast when it reports precision loss. */
  lemma TimeOfFieldParts(hms: string, capture: string, fraction: real)
    requires |hms| == 6 && AllDigits(hms) && (|capture| <= 1 || AllDigits(capture[1..]))
    requires ParseDecimal(capture) == Some(fraction)
    ensures AllDigits(hms[0..2]) && AllDigits(hms[2..4]) && AllDigits(hms[4..6])
    ensures CastsToInt(fraction * 1000.0) && InInt32(Trunc(fraction * 1000.0)) ==>
              TimeOfField(hms + capture)
              == Time(DigitsValue(hms[0..2]) * 3_600_000 + DigitsValue(hms[2..4]) * 60_000
                      + DigitsValue(hms[4..6]) * 1000 + Trunc(fraction * 1000.0))
    ensures !CastsToInt(fraction * 1000.0) ==> TimeOfField(hms + capture) == BadLexicalCast
  {
    var s := hms + capture;
    assert s[..6] == hms && s[6..] == capture;
    assert s[0..2] == hms[0..2] && s[2..4] == hms[2..4] && s[4..6] == hms[4..6];
    if |capture| > 1 {
      assert s[7..] == capture[1..];
    }
    assert IsHms(s);
  }

  /** TimeOfFieldParts for a capture of whole milliseconds `ms`. */
  lemma TimeOfFieldAccepted(hms: string, capture: string, h: int, m: int, sec: int, fraction: real, ms: int)
    requires |hms| == 6 && AllDigits(hms) && (|capture| <= 1 || AllDigits(capture[1..]))
    requires DigitsValue(hms[0..2]) == h && DigitsValue(hms[2..4]) == m && DigitsValue(hms[4..6]) == sec
    requires ParseDecimal(capture) == Some(fraction) && fraction * 1000.0 == ms as real && InInt32(ms)
    ensures TimeOfField(hms + capture) == Time(h * 3_600_000 + m * 60_000 + sec * 1000 + ms)
  {
    var p := fraction * 1000.0;
    assert p.Floor == ms;
    assert Trunc(p) == ms;
    assert CastsToInt(p) by {
      assert IsWhole(p);
    }
    TimeOfFieldParts(hms, capture, fraction);
  }

  /** TimeOfFieldParts for a capture below one millisecond, which truncates to 0. */
  lemma TimeOfFieldTruncated(hms: string, capture: string, h: int, m: int, sec: int, fraction: real)
    requires |hms| == 6 && AllDigits(hms) && (|capture| <= 1 || AllDigits(capture[1..]))
    requires DigitsValue(hms[0..2]) == h && DigitsValue(hms[2..4]) == m && DigitsValue(hms[4..6]) == sec
    requires ParseDecimal(capture) == Some(fraction) && Trunc(fraction * 1000.0) == 0
    ensures TimeOfField(hms + capture) == Time(h * 3_600_000 + m * 60_000 + sec * 1000)
  {
    TimeOfFieldParts(hms, capture, fraction);
  }

  /** TimeOfFieldParts for a capture whose milliseconds lexical_cast<int> refuses. */
  lemma TimeOfFieldRejected(hms: string, capture: string, fraction: real)
    requires |hms| == 6 && AllDigits(hms) && (|capture| <= 1 || AllDigits(capture[1..]))
    requires ParseDecimal(capture) == Some(fraction) && !CastsToInt(fraction * 1000.0)
    ensures TimeOfField(hms + capture) == BadLexicalCast
  {
    TimeOfFieldParts(hms, capture, fraction);
  }

  /** Three two-digit runs side by side are six digits, each pair in its place. */
  lemma HmsOfPairs(hh: string, mm: string, ss: string)
    requires |hh| == 2 && |mm| == 2 && |ss| == 2 && AllDigits(hh) && AllDigits(mm) && AllDigits(ss)
    ensures var hms := hh + mm + ss;
      |hms| == 6 && AllDigits(hms) && hms[0..2] == hh && hms[2..4] == mm && hms[4..6] == ss
  {
    var hms := hh + mm + ss;
    assert hms[0..2] == hh && hms[2..4] == mm && hms[4..6] == ss;
    AllDigitsAppend(hh, mm);
    AllDigitsAppend(hh + mm, ss);
  }

  /** Six digits rendering hours, minutes and seconds. */
  lemma HmsDigits(h: nat, m: nat, sec: nat)
    requires h < 100 && m < 100 && sec < 100
    ensures var hms := TwoDigits(h) + TwoDigits(m) + TwoDigits(sec);
      |hms| == 6 && AllDigits(hms)
      && DigitsValue(hms[0..2]) == h && DigitsValue(hms[2..4]) == m && DigitsValue(hms[4..6]) == sec
  {
    var hh, mm, ss := TwoDigits(h), TwoDigits(m), TwoDigits(sec);
    HmsOfPairs(hh, mm, ss);
    PadDigitsValue(h, 2);
    PadDigitsValue(m, 2);
    PadDigitsValue(sec, 2);
    DivModUnique(h, 100, 0, h);
    DivModUnique(m, 100, 0, m);
    DivModUnique(sec, 100, 0, sec);
  }

  lemma AppendAssoc(a: string, b: string, c: string)
    ensures a + (b + c) == a + b + c
  {
  }

  /** The capture ".fff" (k digits) converts to the fraction f / 10^k. */
  lemma FractionCapture(f: nat, k: nat)
    requires 0 < k && f < Pow10(k)
    ensures var capture := "." + PadDigits(f, k);
      capture[1..] == PadDigits(f, k) && ParseDecimal(capture) == Some(f as real / Pow10(k) as real)
  {
    var digits := PadDigits(f, k);
    var capture := "." + digits;
    assert capture[1..] == digits;
    PadDigitsValue(f, k);
    DivModUnique(f, Pow10(k), 0, f);
    ParseUnsignedDecimalParts("", digits);
    assert "" + "." + digits == capture;
    ParseDecimalUnsigned(capture);
  }

  /** The capture f / 10^k is whole milliseconds exactly when 10^k divides f * 1000. */
  predicate WholeMillis(f: nat, k: nat)
  {
    (f * 1000) % Pow10(k) == 0
  }

  /** The milliseconds of the capture f / 10^k, truncated. */
  function FractionMillis(f: nat, k: nat): int
  {
    (f * 1000) / Pow10(k)
  }

  /** The capture f / 10^k is one lexical_cast<int> converts: below one millisecond, or
      whole milliseconds. */
  predicate CastMillis(f: nat, k: nat)
  {
    FractionMillis(f, k) == 0 || WholeMillis(f, k)
  }

  lemma FractionBelowOne(a: real, b: real)
    requires 0.0 <= a < b
    ensures 0.0 <= a / b < 1.0 && 0.0 <= a / b * 1000.0 < 1000.0
  {
    assert a / b * b == a;
  }

  /** n / b on reals is whole exactly when b divides n, and its floor is n / b. */
  lemma WholeQuotient(n: nat, b: nat)
    requires b > 0
    ensures IsWhole(n as real / b as real) <==> n % b == 0
    ensures (n as real / b as real).Floor == n / b
  {
    var q, r := n / b, n % b;
    var x := n as real / b as real;
    var y := r as real / b as real;
    assert n as real == q as real * b as real + r as real;
    assert x * b as real == n as real;
    assert y * b as real == r as real;
    assert (q as real + y) * b as real == n as real;
    assert x == q as real + y;
    FractionBelowOne(r as real, b as real);
    assert x.Floor == q;
    assert r == 0 <==> y == 0.0;
  }

  lemma ScaleQuotient(f: nat, b: nat)
    requires b > 0
    ensures f as real / b as real * 1000.0 == (f * 1000) as real / b as real
  {
  }

  /** The product lexical_cast<int> is given for the capture f / 10^k truncates to
      FractionMillis, below 1000; it is whole exactly when WholeMillis holds, and it
      converts exactly when CastMillis holds. */
  lemma CaptureMillis(f: nat, k: nat)
    requires f < Pow10(k)
    ensures IsWhole(f as real / Pow10(k) as real * 1000.0) <==> WholeMillis(f, k)
    ensures WholeMillis(f, k) ==> f as real / Pow10(k) as real * 1000.0 == FractionMillis(f, k) as real
    ensures Trunc(f as real / Pow10(k) as real * 1000.0) == FractionMillis(f, k)
    ensures CastsToInt(f as real / Pow10(k) as real * 1000.0) <==> CastMillis(f, k)
    ensures 0 <= FractionMillis(f, k) < 1000
  {
    var b := Pow10(k);
    ScaleQuotient(f, b);
    WholeQuotient(f * 1000, b);
    FractionBelowOne(f as real, b as real);
    assert (f * 1000) / b < 1000 by {
      assert f * 1000 < 1000 * b;
    }
  }

  /** Six digits followed by the capture ".fff" (k digits) of whole milliseconds. */
  lemma CaptureWhole(hms: string, h: int, m: int, sec: int, f: nat, k: nat)
    requires |hms| == 6 && AllDigits(hms)
    requires DigitsValue(hms[0..2]) == h && DigitsValue(hms[2..4]) == m && DigitsValue(hms[4..6]) == sec
    requires 0 < k && f < Pow10(k) && WholeMillis(f, k)
    ensures TimeOfField(hms + "." + PadDigits(f, k)) == Time(h * 3_600_000 + m * 60_000 + sec * 1000 + FractionMillis(f, k))
  {
    FractionCapture(f, k);
    CaptureMillis(f, k);
    AppendAssoc(hms, ".", PadDigits(f, k));
    TimeOfFieldAccepted(hms, "." + PadDigits(f, k), h, m, sec, f as real / Pow10(k) as real, FractionMillis(f, k));
  }

  /** Six digits followed by a capture ".fff" below one millisecond. */
  lemma CaptureBelowMilli(hms: string, h: int, m: int, sec: int, f: nat, k: nat)
    requires |hms| == 6 && AllDigits(hms)
    requires DigitsValue(hms[0..2]) == h && DigitsValue(hms[2..4]) == m && DigitsValue(hms[4..6]) == sec
    requires 0 < k && f < Pow10(k) && FractionMillis(f, k) == 0
    ensures TimeOfField(hms + "." + PadDigits(f, k)) == Time(h * 3_600_000 + m * 60_000 + sec * 1000)
  {
    FractionCapture(f, k);
    CaptureMillis(f, k);
    AppendAssoc(hms, ".", PadDigits(f, k));
    TimeOfFieldTruncated(hms, "." + PadDigits(f, k), h, m, sec, f as real / Pow10(k) as real);
  }

  /** Six digits followed by a capture ".fff" of at least 1 ms that is not a whole number
      of milliseconds. */
  lemma CaptureFiner(hms: string, f: nat, k: nat)
    requires |hms| == 6 && AllDigits(hms)
    requires 0 < k && f < Pow10(k) && !CastMillis(f, k)
    ensures TimeOfField(hms + "." + PadDigits(f, k)) == BadLexicalCast
  {
    FractionCapture(f, k);
    CaptureMillis(f, k);
    AppendAssoc(hms, ".", PadDigits(f, k));
    TimeOfFieldRejected(hms, "." + PadDigits(f, k), f as real / Pow10(k) as real);
  }

  /** Six digits followed by the capture ".fff" (k digits): the time those digits spell
      plus the fraction's milliseconds, when lexical_cast<int> converts them. */
  lemma TimeOfFieldCapture(hms: string, h: int, m: int, sec: int, f: nat, k: nat)
    requires |hms| == 6 && AllDigits(hms)
    requires DigitsValue(hms[0..2]) == h && DigitsValue(hms[2..4]) == m && DigitsValue(hms[4..6]) == sec
    requires 0 < k && f < Pow10(k)
    ensures TimeOfField(hms + "." + PadDigits(f, k))
         == if CastMillis(f, k) then Time(h * 3_600_000 + m * 60_000 + sec * 1000 + FractionMillis(f, k))
            else BadLexicalCast
  {
    if WholeMillis(f, k) {
      CaptureWhole(hms, h, m, sec, f, k);
    } else if FractionMillis(f, k) == 0 {
      CaptureBelowMilli(hms, h, m, sec, f, k);
    } else {
      CaptureFiner(hms, f, k);
    }
  }

  /** The field HHMMSS.fff that a receiver sends (any number k of fraction digits)
      decodes to that time of day, milliseconds truncated, when lexical_cast<int>
      converts the fraction's milliseconds (below 1, or whole), and is bad_lexical_cast
      otherwise. */
  lemma TimeOfFieldRoundTrip(h: nat, m: nat, sec: nat, f: nat, k: nat)
    requires h < 100 && m < 100 && sec < 100 && 0 < k && f < Pow10(k)
    ensures TimeOfField(TwoDigits(h) + TwoDigits(m) + TwoDigits(sec) + "." + PadDigits(f, k))
         == if CastMillis(f, k) then Time(h * 3_600_000 + m * 60_000 + sec * 1000 + FractionMillis(f, k))
            else BadLexicalCast
  {
    HmsDigits(h, m, sec);
    TimeOfFieldCapture(TwoDigits(h) + TwoDigits(m) + TwoDigits(sec), h, m, sec, f, k);
  }
}
