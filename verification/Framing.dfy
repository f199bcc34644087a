/** Cutting replies out of a byte stream that arrives in pieces
    (client.py, `_read_text`, `_read_binary`). */
module Framing {
  import opened Bytes
  import opened Options

  /** What one `reader.read(limit)` meets: some bytes, silence, or the end of the stream. */
  datatype Arrival = Chunk(size: nat) | Silence | Eof

  datatype Read = Frame(buffer: Bytes, rest: Bytes) | Failed

  /** The bytes one read takes from the unread `wire`: at least one, at most `limit`. */
  function Taken(size: nat, limit: nat, wire: Bytes): (n: nat)
    requires limit > 0 && wire != []
    ensures 1 <= n <= |wire| && n <= limit
  {
    var n := if size < 1 then 1 else size;
    var m := if n < limit then n else limit;
    if m < |wire| then m else |wire|
  }

  /** Read until `stop` accepts the buffer. Silence when nothing is left to arrive. */
  function ReadUntil(stop: Bytes -> bool, limit: nat, buffer: Bytes, wire: Bytes, arrivals: seq<Arrival>): (r: Read)
    requires limit > 0
    ensures r.Frame? ==> stop(r.buffer)
    decreases |arrivals|
  {
    if stop(buffer) then Frame(buffer, wire)
    else if arrivals == [] || !arrivals[0].Chunk? || wire == [] then Failed
    else
      var n := Taken(arrivals[0].size, limit, wire);
      ReadUntil(stop, limit, buffer + wire[..n], wire[n..], arrivals[1..])
  }

  /** Reading neither loses nor invents a byte. */
  lemma {:induction false} ReadConserves(stop: Bytes -> bool, limit: nat, buffer: Bytes, wire: Bytes,
          arrivals: seq<Arrival>)
    requires limit > 0
    ensures var r := ReadUntil(stop, limit, buffer, wire, arrivals); r.Frame? ==> r.buffer + r.rest == buffer + wire
    decreases |arrivals|
  {
    if !stop(buffer) && arrivals != [] && arrivals[0].Chunk? && wire != [] {
      var n := Taken(arrivals[0].size, limit, wire);
      assert buffer + wire == buffer + wire[..n] + wire[n..];
      ReadConserves(stop, limit, buffer + wire[..n], wire[n..], arrivals[1..]);
    }
  }

  // ----- The two stop rules -----

  predicate TextStops(buffer: Bytes) {
    EndsWith(Strip(buffer), DONE) || StartsWith(Strip(buffer), ERROR)
  }

  predicate IsErrorFrame(payload: Bytes) {
    StartsWith(StripLeft(payload), ERROR)
  }

  predicate BinaryStops(expected: Option<nat>, buffer: Bytes) {
    EndsWith(buffer, DONE) &&
    (expected.None? || |buffer| >= expected.value + |DONE| || IsErrorFrame(buffer[..|buffer| - |DONE|]))
  }

  function BinaryStop(expected: Option<nat>): Bytes -> bool {
    (buffer: Bytes) => BinaryStops(expected, buffer)
  }

  const TEXT_LIMIT: nat := 8192
  const BINARY_LIMIT: nat := 65536

  function TextRead(wire: Bytes, arrivals: seq<Arrival>): Read {
    ReadUntil(TextStops, TEXT_LIMIT, [], wire, arrivals)
  }

  function BinaryRead(expected: Option<nat>, wire: Bytes, arrivals: seq<Arrival>): Read {
    ReadUntil(BinaryStop(expected), BINARY_LIMIT, [], wire, arrivals)
  }

  method ReadText(wire: Bytes, arrivals: seq<Arrival>) returns (r: Read)
    ensures r == TextRead(wire, arrivals)
  {
    var buffer, rest, k := [], wire, 0;
    while true
      invariant k <= |arrivals| && !TextStops(buffer)
      invariant ReadUntil(TextStops, TEXT_LIMIT, [], wire, arrivals)
        == ReadUntil(TextStops, TEXT_LIMIT, buffer, rest, arrivals[k..])
      decreases |arrivals| - k
    {
      if k == |arrivals| || !arrivals[k].Chunk? || rest == [] {
        return Failed;
      }
      var n := Taken(arrivals[k].size, TEXT_LIMIT, rest);
      buffer, rest, k := buffer + rest[..n], rest[n..], k + 1;
      if TextStops(buffer) {
        break;
      }
    }
    return Frame(buffer, rest);
  }

  method ReadBinary(expected: Option<nat>, wire: Bytes, arrivals: seq<Arrival>) returns (r: Read)
    ensures r == BinaryRead(expected, wire, arrivals)
  {
    var stop := BinaryStop(expected);
    var buffer, rest, k := [], wire, 0;
    while !stop(buffer)
      invariant k <= |arrivals|
      invariant ReadUntil(stop, BINARY_LIMIT, [], wire, arrivals)
        == ReadUntil(stop, BINARY_LIMIT, buffer, rest, arrivals[k..])
      decreases |arrivals| - k
    {
      if k == |arrivals| || !arrivals[k].Chunk? || rest == [] {
        return Failed;
      }
      var n := Taken(arrivals[k].size, BINARY_LIMIT, rest);
      buffer, rest, k := buffer + rest[..n], rest[n..], k + 1;
    }
    return Frame(buffer, rest);
  }

  // ----- Framing does not depend on the pieces -----

  /** `answer` is accepted whole, and no shorter prefix of it is. */
  ghost predicate SelfDelimiting(stop: Bytes -> bool, answer: Bytes) {
    stop(answer) && forall n :: 0 <= n < |answer| ==> !stop(answer[..n])
  }

  predicate Flowing(arrivals: seq<Arrival>) {
    forall a :: a in arrivals ==> a.Chunk?
  }

  /** However a self-delimiting answer is cut up, a reader that gets a frame gets all of it and
      leaves nothing unread; it gets one whenever the bytes keep coming. */
  lemma {:induction false} AnyChunking(stop: Bytes -> bool, limit: nat, answer: Bytes, k: nat, arrivals: seq<Arrival>)
    requires limit > 0 && SelfDelimiting(stop, answer) && k <= |answer|
    ensures var r := ReadUntil(stop, limit, answer[..k], answer[k..], arrivals);
      && (r.Frame? ==> r == Frame(answer, []))
      && (Flowing(arrivals) && |arrivals| >= |answer| - k ==> r.Frame?)
    decreases |arrivals|
  {
    if k == |answer| {
      assert answer[..k] == answer;
    } else if arrivals != [] && arrivals[0].Chunk? {
      var n := Taken(arrivals[0].size, limit, answer[k..]);
      assert answer[..k] + answer[k..][..n] == answer[..k + n] && answer[k..][n..] == answer[k + n..];
      AnyChunking(stop, limit, answer, k + n, arrivals[1..]);
    }
  }

  /** A reader whose bytes keep coming gets a frame of every answer that is accepted whole. */
  lemma {:induction false} FlowEndsInFrame(stop: Bytes -> bool, limit: nat, answer: Bytes, k: nat,
          arrivals: seq<Arrival>)
    requires limit > 0 && stop(answer) && k <= |answer| && Flowing(arrivals) && |arrivals| >= |answer| - k
    ensures ReadUntil(stop, limit, answer[..k], answer[k..], arrivals).Frame?
    decreases |arrivals|
  {
    if k == |answer| {
      assert answer[..k] == answer;
    } else {
      var n := Taken(arrivals[0].size, limit, answer[k..]);
      assert answer[..k] + answer[k..][..n] == answer[..k + n] && answer[k..][n..] == answer[k + n..];
      FlowEndsInFrame(stop, limit, answer, k + n, arrivals[1..]);
    }
  }

  /** An answer that arrives in one piece is read in one piece. */
  lemma OnePiece(stop: Bytes -> bool, limit: nat, answer: Bytes, arrivals: seq<Arrival>)
    requires 0 < |answer| <= limit && !stop([]) && stop(answer)
    requires arrivals != [] && arrivals[0].Chunk? ==> arrivals[0].size >= |answer|
    ensures var r := ReadUntil(stop, limit, [], answer, arrivals); r.Frame? ==> r == Frame(answer, [])
  {
    assert [] + answer[..|answer|] == answer && answer[|answer|..] == [];
  }

  lemma StopsAtOnce(stop: Bytes -> bool, limit: nat, wire: Bytes, first: Bytes, rest: Bytes)
    requires wire == first + rest && 0 < |first| <= limit && !stop([]) && stop(first)
    ensures ReadUntil(stop, limit, [], wire, [Chunk(|first|)]) == Frame(first, rest)
  {
    assert Taken(|first|, limit, wire) == |first|;
    assert wire[..|first|] == first && wire[|first|..] == rest && [] + first == first;
    assert ReadUntil(stop, limit, first, rest, [Chunk(|first|)][1..]) == Frame(first, rest);
  }

  lemma NothingStops()
    ensures !TextStops([])
  {
  }

  lemma TextStopsAtOnce(wire: Bytes, first: Bytes, rest: Bytes)
    requires wire == first + rest && 0 < |first| <= TEXT_LIMIT && TextStops(first)
    ensures TextRead(wire, [Chunk(|first|)]) == Frame(first, rest)
  {
    NothingStops();
    StopsAtOnce(TextStops, TEXT_LIMIT, wire, first, rest);
  }

  function Drip(n: nat): seq<Arrival> {
    seq(n, i => Chunk(1))
  }

  /** Fed one byte at a time, a reader stops no later than at the first accepted prefix. */
  lemma {:induction false} DripStopsFirst(stop: Bytes -> bool, limit: nat, answer: Bytes, k: nat, n: nat)
    requires limit > 0 && k <= n < |answer| && stop(answer[..n])
    ensures var r := ReadUntil(stop, limit, answer[..k], answer[k..], Drip(|answer| - k)); r.Frame? && r.rest != []
    decreases n - k
  {
    if !stop(answer[..k]) {
      assert answer[..k] + answer[k..][..1] == answer[..k + 1] && answer[k..][1..] == answer[k + 1..];
      assert Drip(|answer| - k)[1..] == Drip(|answer| - k - 1);
      DripStopsFirst(stop, limit, answer, k + 1, n);
    }
  }

  ghost predicate ReadWholeEveryTime(stop: Bytes -> bool, limit: nat, answer: Bytes)
    requires limit > 0
  {
    forall arrivals :: Flowing(arrivals) && |arrivals| >= |answer| ==>
      ReadUntil(stop, limit, [], answer, arrivals) == Frame(answer, [])
  }

  /** Self-delimiting is exactly what makes framing independent of how the stream is cut. */
  lemma FramingExact(stop: Bytes -> bool, limit: nat, answer: Bytes)
    requires limit > 0
    ensures ReadWholeEveryTime(stop, limit, answer) <==> SelfDelimiting(stop, answer)
  {
    assert answer[..0] == [] && answer[0..] == answer;
    if SelfDelimiting(stop, answer) {
      forall arrivals | Flowing(arrivals) && |arrivals| >= |answer|
        ensures ReadUntil(stop, limit, [], answer, arrivals) == Frame(answer, [])
      {
        AnyChunking(stop, limit, answer, 0, arrivals);
      }
    }
    if ReadWholeEveryTime(stop, limit, answer) {
      assert ReadUntil(stop, limit, [], answer, Drip(|answer|)) == Frame(answer, []);
      forall n | 0 <= n < |answer|
        ensures !stop(answer[..n])
      {
        if stop(answer[..n]) {
          DripStopsFirst(stop, limit, answer, 0, n);
        }
      }
    }
  }

  // ----- The replies a well-behaved vendor sends -----

  /** A sentinel starts at position `i`. */
  predicate SentinelAt(s: Bytes, i: int) {
    0 <= i && i + |DONE| <= |s| && s[i..i + |DONE|] == DONE
  }

  /** No sentinel starts inside the body. */
  ghost predicate SentinelOnlyLast(body: Bytes) {
    forall i :: 0 <= i < |body| ==> !SentinelAt(body + DONE, i)
  }

  ghost predicate TextBody(body: Bytes) {
    SentinelOnlyLast(body) && !IsErrorFrame(body + DONE)
  }

  /** Data has the expected length; an error message, or data of no expected length, contains no
      sentinel but its last. */
  ghost predicate BinaryBody(body: Bytes, expected: Option<nat>) {
    if IsErrorFrame(body) || expected.None? then SentinelOnlyLast(body) else |body| == expected.value
  }

  lemma LeadingOfPrefix(s: Bytes, n: nat)
    requires n <= |s|
    ensures Leading(s[..n]) < n ==> Leading(s) == Leading(s[..n])
  {
    var m := Leading(s[..n]);
    if m < n {
      assert s[..n][m] == s[m] && forall i :: 0 <= i < m ==> s[..n][i] == s[i];
      LeadingIs(s, m);
    }
  }

  lemma {:induction false} LeadingIs(s: Bytes, m: nat)
    requires m < |s| && !IsSpace(s[m]) && forall i :: 0 <= i < m ==> IsSpace(s[i])
    ensures Leading(s) == m
  {
    if m > 0 {
      LeadingIs(s[1..], m - 1);
    }
  }

  /** An error mark at the front of a prefix is at the front of the whole. */
  lemma ErrorOfPrefix(s: Bytes, n: nat)
    requires n <= |s| && IsErrorFrame(s[..n])
    ensures IsErrorFrame(s)
  {
    LeadingOfPrefix(s, n);
    var m := Leading(s[..n]);
    assert s[..n][m..][..|ERROR|] == s[m..][..|ERROR|];
  }

  lemma SentinelInStripped(s: Bytes)
    requires EndsWith(Strip(s), DONE)
    ensures exists i :: SentinelAt(s, i)
  {
    var left, t := Leading(s), Strip(s);
    var i := left + |t| - |DONE|;
    assert s[left..][..|t|] == t;
    assert s[i..i + |DONE|] == t[|t| - |DONE|..];
    assert SentinelAt(s, i);
  }

  lemma SentinelOfStrippedPrefix(answer: Bytes, n: nat)
    requires n <= |answer| && EndsWith(Strip(answer[..n]), DONE)
    ensures exists i :: i + |DONE| <= n && SentinelAt(answer, i)
  {
    SentinelInStripped(answer[..n]);
    var i :| SentinelAt(answer[..n], i);
    assert answer[..n][i..i + |DONE|] == answer[i..i + |DONE|];
    assert SentinelAt(answer, i);
  }

  lemma NoSentinelInPrefix(body: Bytes, n: nat)
    requires SentinelOnlyLast(body) && n < |body + DONE|
    ensures !EndsWith(Strip((body + DONE)[..n]), DONE)
  {
    if EndsWith(Strip((body + DONE)[..n]), DONE) {
      SentinelOfStrippedPrefix(body + DONE, n);
    }
  }

  lemma NoErrorInPrefix(answer: Bytes, n: nat)
    requires !IsErrorFrame(answer) && n <= |answer|
    ensures !StartsWith(Strip(answer[..n]), ERROR)
  {
    var q := answer[..n];
    if StartsWith(Strip(q), ERROR) {
      assert Strip(q) <= StripLeft(q);
      assert IsErrorFrame(q);
      ErrorOfPrefix(answer, n);
    }
  }

  lemma EndOfTail(s: Bytes, p: Bytes, m: nat)
    requires EndsWith(s, p) && m + |p| <= |s|
    ensures EndsWith(s[m..], p)
  {
    assert s[m..][|s| - m - |p|..] == s[|s| - |p|..];
  }

  lemma SentinelStaysLast(answer: Bytes)
    requires EndsWith(answer, DONE)
    ensures EndsWith(Strip(answer), DONE)
  {
    var k := |answer| - |DONE|;
    assert answer[k] == answer[k..][0] == DONE[0] && answer[k + 3] == answer[k..][3] == DONE[3];
    assert Leading(answer) <= k;
    EndOfTail(answer, DONE, Leading(answer));
  }

  lemma TextWholeStops(body: Bytes)
    ensures TextStops(body + DONE)
  {
    assert (body + DONE)[|body|..] == DONE;
    SentinelStaysLast(body + DONE);
  }

  /** A text body with no sentinel inside and no error mark, followed by the sentinel, is
      self-delimiting. */
  lemma TextSelfDelimiting(body: Bytes)
    requires TextBody(body)
    ensures SelfDelimiting(TextStops, body + DONE)
  {
    TextWholeStops(body);
    forall n | 0 <= n < |body + DONE|
      ensures !TextStops((body + DONE)[..n])
    {
      NoSentinelInPrefix(body, n);
      NoErrorInPrefix(body + DONE, n);
    }
  }

  lemma {:induction false} StripKeepsFirst(s: Bytes, n: nat)
    requires 0 < n <= |s| && !IsSpace(s[n - 1])
    ensures n <= |StripRight(s)|
  {
    if n < |s| && IsSpace(s[|s| - 1]) {
      StripKeepsFirst(s[..|s| - 1], n);
    }
  }

  /** An error message needs no sentinel to be accepted. */
  lemma MarkStops(answer: Bytes)
    requires IsErrorFrame(answer)
    ensures TextStops(answer)
  {
    var t := StripLeft(answer);
    assert t[|ERROR| - 1] == t[..|ERROR|][|ERROR| - 1];
    StripKeepsFirst(t, |ERROR|);
    assert StripRight(t)[..|ERROR|] == t[..|ERROR|];
  }

  /** However an error message is cut up, a text reader stops only behind the error mark. */
  lemma ErrorStopsBehindMark(answer: Bytes, n: nat)
    requires IsErrorFrame(answer) && n <= |answer| && TextStops(answer[..n])
    ensures IsErrorFrame(answer[..n])
  {
    var m, q := Leading(answer), answer[..n];
    StopsBehindMark(answer, n);
    LeadingIs(q, m);
    assert q[m..][..|ERROR|] == answer[m..][..|ERROR|];
  }

  lemma SentinelFirstByte(s: Bytes, i: nat)
    requires SentinelAt(s, i)
    ensures s[i] == DONE[0] && Leading(s) <= i
  {
    assert s[i..i + |DONE|][0] == s[i];
  }

  lemma MarkFirstByte(answer: Bytes)
    requires IsErrorFrame(answer)
    ensures Leading(answer) < |answer| && answer[Leading(answer)] == ERROR[0]
  {
    assert StripLeft(answer)[..|ERROR|][0] == StripLeft(answer)[0];
  }

  lemma SentinelBehindMark(answer: Bytes, i: nat)
    requires IsErrorFrame(answer) && SentinelAt(answer, i)
    ensures Leading(answer) + |ERROR| <= i + |DONE|
  {
    SentinelFirstByte(answer, i);
    MarkFirstByte(answer);
  }

  lemma StopsBehindMark(answer: Bytes, n: nat)
    requires IsErrorFrame(answer) && n <= |answer| && TextStops(answer[..n])
    ensures Leading(answer) + |ERROR| <= n
  {
    if StartsWith(Strip(answer[..n]), ERROR) {
      MarkInPrefix(answer, n);
    } else {
      SentinelOfStrippedPrefix(answer, n);
      var i :| i + |DONE| <= n && SentinelAt(answer, i);
      SentinelBehindMark(answer, i);
    }
  }

  lemma MarkInPrefix(answer: Bytes, n: nat)
    requires n <= |answer| && StartsWith(Strip(answer[..n]), ERROR)
    ensures Leading(answer) + |ERROR| <= n
  {
    var q := answer[..n];
    assert |StripLeft(q)| >= |ERROR|;
    LeadingOfPrefix(answer, n);
  }

  lemma SentinelOfPrefix(answer: Bytes, n: nat)
    requires n <= |answer| && EndsWith(answer[..n], DONE)
    ensures SentinelAt(answer, n - |DONE|)
  {
    assert answer[..n][n - |DONE|..] == answer[n - |DONE|..n];
  }

  /** Data of the expected length may contain or end in the sentinel's bytes. */
  lemma BinarySelfDelimiting(body: Bytes, expected: Option<nat>)
    requires BinaryBody(body, expected)
    ensures SelfDelimiting(BinaryStop(expected), body + DONE)
  {
    var answer := body + DONE;
    assert answer[|body|..] == DONE && answer[..|body|] == body;
    forall n | 0 <= n < |answer|
      ensures !BinaryStops(expected, answer[..n])
    {
      var q := answer[..n];
      if EndsWith(q, DONE) {
        SentinelOfPrefix(answer, n);
        if IsErrorFrame(q[..n - |DONE|]) {
          assert q[..n - |DONE|] == body[..n - |DONE|];
          ErrorOfPrefix(body, n - |DONE|);
        }
      }
    }
  }
}
