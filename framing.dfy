/** The text-level structure of an NMEA 0183 sentence: comma-separated fields and the
    XOR checksum of every character between '$' and '*'. */
module Framing {
  import opened Wrappers
  import opened TextConversions

  // ---------------------------------------------------------------------------
  // Fields

  /** Splitting at every separator, keeping empty fields: "a,,b" is ["a", "", "b"]
      and "" is [""]. */
  function Split(s: string, sep: char): (r: seq<string>)
    ensures |r| >= 1
    ensures forall k :: 0 <= k < |r| ==> sep !in r[k]
    decreases |s|
  {
    var k := IndexOf(s, sep);
    if k == |s| then [s] else [s[..k]] + Split(s[k + 1..], sep)
  }

  /** The fields written out with the separator between neighbours. */
  function Join(fields: seq<string>, sep: char): (s: string)
  {
    if |fields| == 0 then ""
    else if |fields| == 1 then fields[0]
    else fields[0] + [sep] + Join(fields[1..], sep)
  }

  /** Joining two non-empty runs of fields puts one separator between them. */
  lemma {:induction false} JoinAppend(a: seq<string>, b: seq<string>, sep: char)
    requires |a| >= 1 && |b| >= 1
    ensures Join(a + b, sep) == Join(a, sep) + [sep] + Join(b, sep)
  {
    assert (a + b)[0] == a[0];
    if |a| == 1 {
      assert (a + b)[1..] == b;
    } else {
      assert (a + b)[1..] == a[1..] + b;
      JoinAppend(a[1..], b, sep);
      assert a[0] + [sep] + (Join(a[1..], sep) + [sep] + Join(b, sep))
          == (a[0] + [sep] + Join(a[1..], sep)) + [sep] + Join(b, sep);
    }
  }

  predicate NoSeparator(fields: seq<string>, sep: char)
  {
    forall k :: 0 <= k < |fields| ==> sep !in fields[k]
  }

  /** Splitting then joining gives back the text. */
  lemma {:induction false} JoinSplit(s: string, sep: char)
    ensures Join(Split(s, sep), sep) == s
    decreases |s|
  {
    var k := IndexOf(s, sep);
    if k < |s| {
      var rest := s[k + 1..];
      JoinSplit(rest, sep);
      SplitUnfold(s, sep);
      JoinCons(s[..k], Split(rest, sep), sep);
      Around(s, k);
    }
  }

  lemma SplitUnfold(s: string, sep: char)
    requires IndexOf(s, sep) < |s|
    ensures var k := IndexOf(s, sep); Split(s, sep) == [s[..k]] + Split(s[k + 1..], sep)
  {
  }

  lemma Joined(a: string, c: char, b: string)
    ensures (a + [c] + b)[..|a|] == a && (a + [c] + b)[|a| + 1..] == b
  {
  }

  lemma Around(s: string, k: nat)
    requires k < |s|
    ensures s == s[..k] + [s[k]] + s[k + 1..]
  {
  }

  lemma JoinCons(first: string, rest: seq<string>, sep: char)
    requires |rest| >= 1
    ensures Join([first] + rest, sep) == first + [sep] + Join(rest, sep)
  {
    assert ([first] + rest)[1..] == rest;
  }

  lemma IndexOfNotIn(s: string, c: char)
    requires c !in s
    ensures IndexOf(s, c) == |s|
  {
  }

  lemma {:induction false} IndexOfJoined(a: string, c: char, b: string)
    requires c !in a
    ensures IndexOf(a + [c] + b, c) == |a|
  {
    if a != [] {
      assert (a + [c] + b)[0] == a[0];
      assert (a + [c] + b)[1..] == a[1..] + [c] + b;
      IndexOfJoined(a[1..], c, b);
    }
  }

  /** Joining then splitting gives back the fields, when none contains the separator. */
  lemma {:induction false} SplitJoin(fields: seq<string>, sep: char)
    requires |fields| >= 1 && NoSeparator(fields, sep)
    ensures Split(Join(fields, sep), sep) == fields
  {
    if |fields| == 1 {
      IndexOfNotIn(fields[0], sep);
    } else {
      var rest := Join(fields[1..], sep);
      assert Join(fields, sep) == fields[0] + [sep] + rest;
      IndexOfJoined(fields[0], sep, rest);
      Joined(fields[0], sep, rest);
      SplitUnfold(fields[0] + [sep] + rest, sep);
      SplitJoin(fields[1..], sep);
      assert fields == [fields[0]] + fields[1..];
    }
  }

  // ---------------------------------------------------------------------------
  // Checksum

  /** The byte a character stands for. The text comes from bytes, so the code is
      always below 256. */
  function Code(c: char): bv8
  {
    if c as int < 256 then (c as int) as bv8 else 0
  }

  /** The NMEA 0183 checksum: XOR of the characters. */
  function Checksum(s: string): bv8
  {
    if s == [] then 0 else Code(s[0]) ^ Checksum(s[1..])
  }

  /** XOR distributes over concatenation. */
  lemma {:induction false} ChecksumAppend(a: string, b: string)
    ensures Checksum(a + b) == Checksum(a) ^ Checksum(b)
  {
    if a == [] {
      assert a + b == b;
    } else {
      assert (a + b)[0] == a[0];
      assert (a + b)[1..] == a[1..] + b;
      ChecksumAppend(a[1..], b);
    }
  }

  /** A two-character trailer matches the checksum of a payload when it is the checksum
      in hex, either case. */
  predicate ChecksumMatches(payload: string, trailer: string)
  {
    ByteFromHex(trailer) == Some(Checksum(payload) as int)
  }

  /** The trailer a sender writes always matches, and a trailer matches only when it
      spells the checksum (up to letter case). */
  lemma ChecksumMatchesIff(payload: string, trailer: string)
    ensures ChecksumMatches(payload, HexByte(Checksum(payload) as int))
    ensures ChecksumMatches(payload, trailer) <==>
      |trailer| == 2 && IsHexDigit(trailer[0]) && IsHexDigit(trailer[1])
      && [UpperHex(trailer[0]), UpperHex(trailer[1])] == HexByte(Checksum(payload) as int)
  {
    var b: uint8 := Checksum(payload) as int;
    ByteFromHexRoundTrip(b, trailer);
    if |trailer| == 2 && IsHexDigit(trailer[0]) && IsHexDigit(trailer[1])
       && [UpperHex(trailer[0]), UpperHex(trailer[1])] == HexByte(b) {
      UpperHexValue(trailer[0]);
      UpperHexValue(trailer[1]);
      var up := [UpperHex(trailer[0]), UpperHex(trailer[1])];
      assert ByteFromHex(up) == Some(b);
    }
  }

  lemma UpperHexValue(c: char)
    requires IsHexDigit(c)
    ensures IsHexDigit(UpperHex(c)) && HexDigitValue(UpperHex(c)) == HexDigitValue(c)
  {
  }
}
