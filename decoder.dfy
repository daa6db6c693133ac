/** GPSSentenceDecoder's byte side: bytes accumulate in a pending buffer; every CR LF
    ends a line, the line is cut back to its last '$', and that text is decoded into
    one event. Bytes before the '$' are noise and vanish without a report. */
module Decoder {
  import opened Framing
  import opened Sentences

  newtype byte = b: int | 0 <= b < 256

  const CR: byte := 13
  const LF: byte := 10
  const DOLLAR: byte := 36

  /** The characters of received bytes (the decoder treats each byte as one char). */
  function Text(bs: seq<byte>): (s: string)
    ensures |s| == |bs|
  {
    if bs == [] then "" else [(bs[0] as int) as char] + Text(bs[1..])
  }

  predicate IsByteText(s: string)
  {
    forall i :: 0 <= i < |s| ==> s[i] as int < 256
  }

  /** The bytes a sender writes for a text of byte-sized characters. */
  function Bytes(s: string): (bs: seq<byte>)
    requires IsByteText(s)
    ensures |bs| == |s|
  {
    if s == [] then [] else [s[0] as int as byte] + Bytes(s[1..])
  }

  /** Text and Bytes are inverse to each other. */
  lemma {:induction false} TextBytes(s: string)
    requires IsByteText(s)
    ensures Text(Bytes(s)) == s
  {
    if s != [] {
      TextBytes(s[1..]);
      assert Bytes(s)[1..] == Bytes(s[1..]);
    }
  }

  lemma {:induction false} BytesAppend(s: string, t: string)
    requires IsByteText(s) && IsByteText(t)
    ensures IsByteText(s + t) && Bytes(s + t) == Bytes(s) + Bytes(t)
  {
    assert IsByteText(s + t) by {
      forall i | 0 <= i < |s + t| ensures (s + t)[i] as int < 256 {
        if i < |s| { assert (s + t)[i] == s[i]; } else { assert (s + t)[i] == t[i - |s|]; }
      }
    }
    if s != [] {
      assert (s + t)[1..] == s[1..] + t;
      assert (s + t)[0] == s[0];
      BytesAppend(s[1..], t);
    } else {
      assert s + t == t;
    }
  }

  lemma {:induction false} TextIndex(bs: seq<byte>, i: nat)
    requires i < |bs|
    ensures Text(bs)[i] as int == bs[i] as int
  {
    if i > 0 {
      TextIndex(bs[1..], i - 1);
    }
  }

  lemma {:induction false} BytesIndex(s: string, i: nat)
    requires IsByteText(s) && i < |s|
    ensures Bytes(s)[i] as int == s[i] as int
  {
    if i > 0 {
      BytesIndex(s[1..], i - 1);
    }
  }

  // ---------------------------------------------------------------------------
  // Lines

  predicate IsCrLfAt(bs: seq<byte>, j: int)
  {
    0 <= j && j + 1 < |bs| && bs[j] == CR && bs[j + 1] == LF
  }

  /** The position of the first CR LF at or after `from`, or |bs| when there is none. */
  function FindCrLfFrom(bs: seq<byte>, from: nat): (k: nat)
    requires from <= |bs|
    ensures from <= k <= |bs|
    ensures k < |bs| ==> IsCrLfAt(bs, k)
    ensures forall j :: from <= j < k ==> !IsCrLfAt(bs, j)
    ensures k == |bs| ==> forall j :: from <= j < |bs| ==> !IsCrLfAt(bs, j)
    decreases |bs| - from
  {
    if from + 1 >= |bs| then |bs|
    else if IsCrLfAt(bs, from) then from
    else FindCrLfFrom(bs, from + 1)
  }

  function FindCrLf(bs: seq<byte>): (k: nat)
    ensures k <= |bs|
    ensures k < |bs| ==> IsCrLfAt(bs, k)
    ensures forall j :: 0 <= j < k ==> !IsCrLfAt(bs, j)
  {
    FindCrLfFrom(bs, 0)
  }

  /** The first CR LF is the only position with a CR LF and none before it. */
  lemma FindCrLfUnique(bs: seq<byte>, k: nat)
    requires k <= |bs| && (k < |bs| ==> IsCrLfAt(bs, k))
    requires forall j :: 0 <= j < k ==> !IsCrLfAt(bs, j)
    requires k == |bs| ==> forall j :: 0 <= j < |bs| ==> !IsCrLfAt(bs, j)
    ensures k == FindCrLf(bs)
  {
  }

  /** The position of the last '$' of a line that has one. */
  function LastDollar(line: seq<byte>): (k: nat)
    requires DOLLAR in line
    ensures k < |line| && line[k] == DOLLAR
    ensures forall j :: k < j < |line| ==> line[j] != DOLLAR
  {
    if line[|line| - 1] == DOLLAR then |line| - 1
    else
      assert DOLLAR in line[..|line| - 1] by {
        var i :| 0 <= i < |line| && line[i] == DOLLAR;
        assert line[..|line| - 1][i] == DOLLAR;
      }
      LastDollar(line[..|line| - 1])
  }

  /** The sentence one terminated line holds: its text from the last '$', or nothing
      for a line without '$'. */
  function LineSentence(line: seq<byte>): (r: seq<string>)
    ensures |r| <= 1
    ensures |r| == 1 <==> DOLLAR in line
  {
    if DOLLAR in line then [Text(line[LastDollar(line)..])] else []
  }

  /** What a buffer yields: the sentences of its terminated lines, in order, and the
      unterminated remainder. */
  datatype Extraction = Extraction(sentences: seq<string>, rest: seq<byte>)

  /** The reference definition of the extractor: every line up to a CR LF is
      consumed; what follows the last CR LF is kept. */
  function Scan(bs: seq<byte>): (r: Extraction)
    decreases |bs|
  {
    var k := FindCrLf(bs);
    if k == |bs| then Extraction([], bs)
    else
      var r := Scan(bs[k + 2..]);
      Extraction(LineSentence(bs[..k]) + r.sentences, r.rest)
  }

  /** One line cut off the front of a buffer. */
  lemma ScanStep(bs: seq<byte>, done: seq<string>)
    requires FindCrLf(bs) < |bs|
    ensures var k := FindCrLf(bs);
      && done + Scan(bs).sentences == (done + LineSentence(bs[..k])) + Scan(bs[k + 2..]).sentences
      && Scan(bs).rest == Scan(bs[k + 2..]).rest
  {
    var k := FindCrLf(bs);
    ScanUnfold(bs);
    SentencesAssoc(done, LineSentence(bs[..k]), Scan(bs[k + 2..]).sentences);
  }

  lemma ScanUnfold(bs: seq<byte>)
    requires FindCrLf(bs) < |bs|
    ensures var k := FindCrLf(bs);
      Scan(bs) == Extraction(LineSentence(bs[..k]) + Scan(bs[k + 2..]).sentences, Scan(bs[k + 2..]).rest)
  {
  }

  lemma SentencesAssoc(a: seq<string>, b: seq<string>, c: seq<string>)
    ensures a + (b + c) == (a + b) + c
  {
  }

  /** What stays buffered is a suffix of the input and holds no CR LF. */
  lemma {:induction false} ScanRest(bs: seq<byte>)
    ensures |Scan(bs).rest| <= |bs| && Scan(bs).rest == bs[|bs| - |Scan(bs).rest|..]
    ensures FindCrLf(Scan(bs).rest) == |Scan(bs).rest|
    decreases |bs|
  {
    var k := FindCrLf(bs);
    if k < |bs| {
      var tail := bs[k + 2..];
      ScanRest(tail);
      assert tail[|tail| - |Scan(tail).rest|..] == bs[|bs| - |Scan(tail).rest|..];
    }
  }

  /** Each sentence decoded on its own, in order. */
  function DecodeAll(sentences: seq<string>): (r: seq<Event>)
    ensures |r| == |sentences|
  {
    if sentences == [] then [] else [DecodeSentence(sentences[0])] + DecodeAll(sentences[1..])
  }

  lemma {:induction false} DecodeAllAppend(a: seq<string>, b: seq<string>)
    ensures DecodeAll(a + b) == DecodeAll(a) + DecodeAll(b)
  {
    if a != [] {
      assert (a + b)[0] == a[0];
      assert (a + b)[1..] == a[1..] + b;
      DecodeAllAppend(a[1..], b);
    } else {
      assert a + b == b;
    }
  }

  /** The events a buffer's complete lines report. */
  function Events(bs: seq<byte>): seq<Event>
  {
    DecodeAll(Scan(bs).sentences)
  }

  // ---------------------------------------------------------------------------
  // The decoder object

  /** The first CR LF of the buffer, found by a forward search. */
  method FindTerminator(buffer: seq<byte>) returns (k: nat)
    ensures k == FindCrLf(buffer)
  {
    k := 0;
    while k + 1 < |buffer| && !(buffer[k] == CR && buffer[k + 1] == LF)
      invariant k <= |buffer|
      invariant forall j :: 0 <= j < k ==> !IsCrLfAt(buffer, j)
    {
      k := k + 1;
    }
    if k + 1 >= |buffer| {
      k := |buffer|;
    }
    FindCrLfUnique(buffer, k);
  }

  /** The extraction loop: consume line after line, decoding each sentence as it is
      cut out, until no CR LF is left. */
  method Extract(buffer: seq<byte>) returns (events: seq<Event>, rest: seq<byte>)
    ensures events == Events(buffer) && rest == Scan(buffer).rest
  {
    events := [];
    rest := buffer;
    ghost var done: seq<string> := [];
    var k := FindTerminator(rest);
    while k < |rest|
      invariant k == FindCrLf(rest)
      invariant done + Scan(rest).sentences == Scan(buffer).sentences
      invariant Scan(rest).rest == Scan(buffer).rest
      invariant events == DecodeAll(done)
      decreases |rest|
    {
      var line := rest[..k];
      var tail := rest[k + 2..];
      var found := LineSentence(line);
      ScanStep(rest, done);
      DecodeAllAppend(done, found);
      events := events + DecodeAll(found);
      done := done + found;
      rest := tail;
      k := FindTerminator(rest);
    }
    assert done == Scan(buffer).sentences;
  }

  /** GPSSentenceDecoder: the pending bytes between calls hold no CR LF. */
  class SentenceDecoder {
    var pending: seq<byte>

    ghost predicate Valid()
      reads this
    {
      FindCrLf(pending) == |pending|
    }

    constructor()
      ensures Valid() && pending == []
    {
      pending := [];
    }

    /** AddBytes: append the bytes, report the events of every line they complete, in
        order, and keep the unterminated remainder for the next call. */
    method AddBytes(bytes: seq<byte>) returns (events: seq<Event>)
      requires Valid()
      modifies this
      ensures Valid()
      ensures events == Events(old(pending) + bytes) && pending == Scan(old(pending) + bytes).rest
    {
      var rest;
      events, rest := Extract(pending + bytes);
      ScanRest(pending + bytes);
      pending := rest;
    }
  }

  // ---------------------------------------------------------------------------
  // Laws of the extractor

  lemma {:induction false} FindCrLfFromPrefix(a: seq<byte>, b: seq<byte>, from: nat)
    requires from <= |a| && FindCrLfFrom(a, from) < |a|
    ensures FindCrLfFrom(a + b, from) == FindCrLfFrom(a, from)
    decreases |a| - from
  {
    if !IsCrLfAt(a, from) {
      assert !IsCrLfAt(a + b, from);
      FindCrLfFromPrefix(a, b, from + 1);
    } else {
      assert IsCrLfAt(a + b, from);
    }
  }

  /** Splitting the input anywhere does not change what is cut out: extracting `a`,
      then extracting its remainder followed by `b`, gives the sentences of `a + b`. */
  lemma {:induction false} ScanAppend(a: seq<byte>, b: seq<byte>)
    ensures Scan(a).sentences + Scan(Scan(a).rest + b).sentences == Scan(a + b).sentences
    ensures Scan(Scan(a).rest + b).rest == Scan(a + b).rest
    decreases |a|
  {
    var k := FindCrLf(a);
    if k < |a| {
      FindCrLfFromPrefix(a, b, 0);
      assert FindCrLf(a + b) == k;
      assert (a + b)[..k] == a[..k];
      assert (a + b)[k + 2..] == a[k + 2..] + b;
      ScanUnfold(a);
      ScanUnfold(a + b);
      ScanAppend(a[k + 2..], b);
      SentencesAssoc(LineSentence(a[..k]), Scan(a[k + 2..]).sentences, Scan(Scan(a[k + 2..]).rest + b).sentences);
    } else {
      assert Scan(a) == Extraction([], a);
    }
  }

  /** The split-input law for events: the events of `a`, then those of its remainder
      followed by `b`, are the events of `a + b`. */
  lemma EventsAppend(a: seq<byte>, b: seq<byte>)
    ensures Events(a) + Events(Scan(a).rest + b) == Events(a + b)
  {
    ScanAppend(a, b);
    DecodeAllAppend(Scan(a).sentences, Scan(Scan(a).rest + b).sentences);
  }

  /** A concatenation of chunks, as they arrive one AddBytes call after another. */
  function Concat(chunks: seq<seq<byte>>): seq<byte>
  {
    if chunks == [] then [] else Concat(chunks[..|chunks| - 1]) + chunks[|chunks| - 1]
  }

  /** A fresh decoder fed the chunks one call at a time reports, over all calls, the
      events of the whole input at once. */
  method FeedInPieces(chunks: seq<seq<byte>>) returns (events: seq<Event>)
    ensures events == Events(Concat(chunks))
  {
    var d := new SentenceDecoder();
    events := [];
    var i := 0;
    while i < |chunks|
      invariant 0 <= i <= |chunks| && d.Valid()
      invariant events == Events(Concat(chunks[..i]))
      invariant d.pending == Scan(Concat(chunks[..i])).rest
    {
      var more := d.AddBytes(chunks[i]);
      assert chunks[..i + 1][..i] == chunks[..i];
      EventsAppend(Concat(chunks[..i]), chunks[i]);
      ScanAppend(Concat(chunks[..i]), chunks[i]);
      events := events + more;
      i := i + 1;
    }
    assert chunks[..|chunks|] == chunks;
  }

  // ---------------------------------------------------------------------------
  // Lines, noise and single sentences

  lemma FindCrLfNoCr(line: seq<byte>, rest: seq<byte>)
    requires CR !in line
    ensures FindCrLf(line + [CR, LF] + rest) == |line|
  {
    var bs := line + [CR, LF] + rest;
    assert IsCrLfAt(bs, |line|);
    forall j | 0 <= j < |line| ensures !IsCrLfAt(bs, j) {
      assert bs[j] == line[j];
    }
    FindCrLfUnique(bs, |line|);
  }

  /** A terminated line without CR contributes its own sentence (or nothing), and
      the lines after it are extracted as if it had not been there: a bad line never
      disturbs the next one. */
  lemma ScanLine(line: seq<byte>, rest: seq<byte>)
    requires CR !in line
    ensures Scan(line + [CR, LF] + rest).sentences == LineSentence(line) + Scan(rest).sentences
    ensures Scan(line + [CR, LF] + rest).rest == Scan(rest).rest
  {
    var bs := line + [CR, LF] + rest;
    FindCrLfNoCr(line, rest);
    assert bs[..|line|] == line;
    assert bs[|line| + 2..] == rest;
  }

  lemma EventsLine(line: seq<byte>, rest: seq<byte>)
    requires CR !in line
    ensures Events(line + [CR, LF] + rest) == DecodeAll(LineSentence(line)) + Events(rest)
  {
    ScanLine(line, rest);
    DecodeAllAppend(LineSentence(line), Scan(rest).sentences);
  }

  lemma LastDollarAfterNoise(noise: seq<byte>, line: seq<byte>)
    requires DOLLAR !in noise && DOLLAR in line
    ensures DOLLAR in noise + line && LastDollar(noise + line) == |noise| + LastDollar(line)
  {
    var all := noise + line;
    var k := LastDollar(line);
    assert all[|noise| + k] == DOLLAR;
    forall j | |noise| + k < j < |all| ensures all[j] != DOLLAR {
      assert all[j] == line[j - |noise|];
    }
  }

  /** Noise without '$' or CR in front of a line that holds a sentence is dropped
      silently: the extraction is the same as without the noise. */
  lemma ScanNoise(noise: seq<byte>, line: seq<byte>, rest: seq<byte>)
    requires CR !in noise && DOLLAR !in noise
    requires CR !in line && DOLLAR in line
    ensures Scan(noise + line + [CR, LF] + rest) == Scan(line + [CR, LF] + rest)
  {
    assert CR !in noise + line;
    ScanLine(noise + line, rest);
    ScanLine(line, rest);
    LineSentenceNoise(noise, line);
  }

  lemma LineSentenceNoise(noise: seq<byte>, line: seq<byte>)
    requires DOLLAR !in noise && DOLLAR in line
    ensures LineSentence(noise + line) == LineSentence(line)
  {
    LastDollarAfterNoise(noise, line);
    assert (noise + line)[|noise| + LastDollar(line)..] == line[LastDollar(line)..];
  }

  /** The shape of every sentence cut out: it starts with its only '$'. */
  predicate IsRaw(s: string)
  {
    |s| > 0 && s[0] == '$' && '$' !in s[1..]
  }

  lemma {:induction false} TextSlice(bs: seq<byte>, i: nat)
    requires i <= |bs|
    ensures Text(bs[i..]) == Text(bs)[i..]
    decreases i
  {
    if i > 0 {
      assert bs[i..] == bs[1..][i - 1..];
      TextSlice(bs[1..], i - 1);
    }
  }

  lemma LineSentenceRaw(line: seq<byte>)
    requires DOLLAR in line
    ensures IsRaw(LineSentence(line)[0])
  {
    var k := LastDollar(line);
    var tail := line[k..];
    var s := Text(tail);
    TextIndex(tail, 0);
    forall j | 1 <= j < |s| ensures s[j] != '$' {
      TextIndex(tail, j);
      assert tail[j] == line[k + j];
    }
  }

  /** Every sentence the extractor cuts out starts with its only '$'. */
  lemma {:induction false} ScanSentencesRaw(bs: seq<byte>)
    ensures forall i :: 0 <= i < |Scan(bs).sentences| ==> IsRaw(Scan(bs).sentences[i])
    decreases |bs|
  {
    var k := FindCrLf(bs);
    if k < |bs| {
      var line := bs[..k];
      ScanSentencesRaw(bs[k + 2..]);
      if DOLLAR in line {
        LineSentenceRaw(line);
      }
    }
  }

  lemma {:induction false} DecodeAllIndex(sentences: seq<string>, i: nat)
    requires i < |sentences|
    ensures DecodeAll(sentences)[i] == DecodeSentence(sentences[i])
  {
    if i > 0 {
      DecodeAllIndex(sentences[1..], i - 1);
    }
  }

  /** An invalid-sentence report carries the text from the '$' up to the CR LF. */
  lemma EventsInvalidRaw(bs: seq<byte>, i: nat)
    requires i < |Events(bs)| && Events(bs)[i].InvalidSentence?
    ensures Events(bs)[i].raw == Scan(bs).sentences[i] && IsRaw(Events(bs)[i].raw)
  {
    DecodeAllIndex(Scan(bs).sentences, i);
    ScanSentencesRaw(bs);
  }

  /** One sentence sent on its own, CR LF terminated, yields exactly its decoding
      and leaves nothing buffered. */
  lemma OneSentence(s: string)
    requires IsRaw(s) && IsByteText(s) && '\r' !in s
    ensures Scan(Bytes(s) + [CR, LF]) == Extraction([s], [])
    ensures Events(Bytes(s) + [CR, LF]) == [DecodeSentence(s)]
  {
    var line := Bytes(s);
    assert CR !in line by {
      forall j | 0 <= j < |line| ensures line[j] != CR {
        BytesIndex(s, j);
      }
    }
    BytesIndex(s, 0);
    forall j | 0 < j < |line| ensures line[j] != DOLLAR {
      BytesIndex(s, j);
      assert s[1..][j - 1] == s[j];
    }
    assert LastDollar(line) == 0;
    assert line[0..] == line;
    TextBytes(s);
    ScanLine(line, []);
    assert line + [CR, LF] + [] == line + [CR, LF];
  }

  lemma BytesNotIn(s: string, c: char, b: byte)
    requires IsByteText(s) && c !in s && c as int == b as int
    ensures b !in Bytes(s)
  {
    forall j | 0 <= j < |s| ensures Bytes(s)[j] != b {
      BytesIndex(s, j);
    }
  }

  /** Characters before a sentence that hold no '$' and no CR are discarded without a
      report: the sentence decodes as if they were not there. */
  lemma EventsAfterNoise(noise: string, s: string)
    requires IsByteText(noise) && '$' !in noise && '\r' !in noise
    requires IsRaw(s) && IsByteText(s) && '\r' !in s
    ensures IsByteText(noise + s + "\r\n") && Events(Bytes(noise + s + "\r\n")) == [DecodeSentence(s)]
  {
    BytesAppend(noise, s);
    BytesAppend(noise + s, "\r\n");
    assert Bytes("\r\n") == [CR, LF];
    BytesNotIn(noise, '$', DOLLAR);
    BytesNotIn(noise, '\r', CR);
    BytesNotIn(s, '\r', CR);
    BytesIndex(s, 0);
    assert DOLLAR in Bytes(s);
    ScanNoise(Bytes(noise), Bytes(s), []);
    assert Bytes(noise) + Bytes(s) + [CR, LF] + [] == Bytes(noise + s + "\r\n");
    assert Bytes(s) + [CR, LF] + [] == Bytes(s) + [CR, LF];
    OneSentence(s);
  }

  // ---------------------------------------------------------------------------
  // Sentences on the wire

  /** A field as a receiver sends it: plain, one byte per character, no CR. */
  predicate WireField(f: string)
  {
    PlainField(f) && IsByteText(f) && '\r' !in f
  }

  predicate WireFields(fields: seq<string>)
  {
    forall k :: 0 <= k < |fields| ==> WireField(fields[k])
  }

  lemma WireFieldsAppend(a: seq<string>, b: seq<string>)
    requires WireFields(a) && WireFields(b)
    ensures WireFields(a + b)
  {
    forall k | 0 <= k < |a + b| ensures WireField((a + b)[k]) {
      if k < |a| { assert (a + b)[k] == a[k]; } else { assert (a + b)[k] == b[k - |a|]; }
    }
  }

  lemma IsByteTextAppend(a: string, b: string)
    requires IsByteText(a) && IsByteText(b)
    ensures IsByteText(a + b)
  {
    forall i | 0 <= i < |a + b| ensures (a + b)[i] as int < 256 {
      if i < |a| { assert (a + b)[i] == a[i]; } else { assert (a + b)[i] == b[i - |a|]; }
    }
  }

  lemma {:induction false} JoinWire(fields: seq<string>)
    requires WireFields(fields)
    ensures var s := Join(fields, ',');
      WireFields(fields) && '$' !in s && '\r' !in s && IsByteText(s)
  {
    if |fields| > 1 {
      JoinWire(fields[1..]);
      var s := Join(fields, ',');
      assert s == fields[0] + [','] + Join(fields[1..], ',');
      assert WireField(fields[0]);
      IsByteTextAppend(fields[0], [',']);
      IsByteTextAppend(fields[0] + [','], Join(fields[1..], ','));
    } else if |fields| == 1 {
      assert WireField(fields[0]);
    }
  }

  /** A sentence built from wire fields sent with its CR LF: one line, its only '$' in
      front. */
  lemma SentenceOnWire(header: string, fields: seq<string>, trailer: string)
    requires WireField(header) && WireFields(fields) && WireField(trailer)
    ensures var raw := Sentence(header, fields, trailer);
      IsRaw(raw) && IsByteText(raw) && '\r' !in raw
      && IsByteText(raw + "\r\n") && Bytes(raw + "\r\n") == Bytes(raw) + [CR, LF]
  {
    var all := [header] + fields;
    assert WireFields(all) by {
      forall k | 0 <= k < |all| ensures WireField(all[k]) {
        if k > 0 { assert all[k] == fields[k - 1]; }
      }
    }
    JoinWire(all);
    var body := Join(all, ',');
    var raw := Sentence(header, fields, trailer);
    assert raw == "$" + (body + "*" + trailer);
    assert raw[1..] == body + "*" + trailer;
    IsByteTextAppend("$", body);
    IsByteTextAppend("$" + body, "*");
    IsByteTextAppend("$" + body + "*", trailer);
    IsByteTextAppend(raw, "\r\n");
    BytesAppend(raw, "\r\n");
    assert Bytes("\r\n") == [CR, LF];
  }

  /** A sentence built from wire fields, sent on its own, is reported as exactly one
      event: its decoding. */
  lemma SentenceEvents(header: string, fields: seq<string>, trailer: string)
    requires WireField(header) && WireFields(fields) && WireField(trailer)
    ensures var raw := Sentence(header, fields, trailer);
      IsByteText(raw + "\r\n") && Events(Bytes(raw + "\r\n")) == [DecodeSentence(raw)]
  {
    SentenceOnWire(header, fields, trailer);
    OneSentence(Sentence(header, fields, trailer));
  }
}
