/** From a validated request to decoded frames: the printed command, the mock's reply cut up in any
    way, the client's reader and the bridge's decoder together. */
module EndToEnd {
  import opened Bytes
  import opened Client
  import opened Codec
  import opened Commands
  import opened Framing
  import Guard
  import opened MockVendor
  import opened Options

  /** What the client gets of a payload of the expected length. It is the payload or nothing; and
      when the bytes keep coming, it is the payload exactly unless that looks like an error frame. */
  lemma PayloadOrNothing(c: Conn, data: Bytes, arrivals: seq<Arrival>)
    requires c.connected && Clean(c)
    ensures var r := SendAcquire(c, Some(|data|), data + DONE, arrivals).1;
      && (r.Ok? ==> r.body == data && !IsErrorFrame(data))
      && (Flowing(arrivals) && |arrivals| >= |data + DONE| ==> (r.Ok? <==> !IsErrorFrame(data)))
  {
    var (after, r) := SendAcquire(c, Some(|data|), data + DONE, arrivals);
    AcquireOutcomes(c, Some(|data|), data + DONE, arrivals);
    if r.Ok? {
      assert r.body + DONE + after.wire == c.wire + (data + DONE) == data + DONE;
      assert r.body == (r.body + DONE + after.wire)[..|data|] == (data + DONE)[..|data|] == data;
      OkIsNoError(c, Some(|data|), BinaryRead(Some(|data|), c.wire + (data + DONE), arrivals));
    }
    if !IsErrorFrame(data) {
      HonestAcquire(c, Some(|data|), data, arrivals);
    }
  }

  lemma OkIsNoError(c: Conn, expected: Option<nat>, read: Read)
    requires read.Frame? ==> |read.buffer| >= |DONE|
    ensures var r := AfterBinary(c, expected, read).1; r.Ok? ==> !IsErrorFrame(r.body)
  {
  }

  /** Whatever the chunking, the client returns bytes that decode to `stack`, or nothing; and it
      returns them, when the bytes keep coming, exactly if they do not look like an error frame. */
  ghost predicate Arrives(c: Conn, data: Bytes, arrivals: seq<Arrival>, fmt: Guard.Format, expected: nat,
          stack: seq<Frame>)
  {
    var r := SendAcquire(c, Some(expected), data + DONE, arrivals).1;
    && (r.Ok? ==> DecodeAll(r.body, fmt.bitDepth, fmt.rows, fmt.width, |stack|, fmt.pileup) == stack)
    && (Flowing(arrivals) && |arrivals| >= |data + DONE| ==> (r.Ok? <==> !IsErrorFrame(data)))
  }

  lemma DecodedOrNothing(c: Conn, data: Bytes, arrivals: seq<Arrival>, fmt: Guard.Format, expected: nat,
          stack: seq<Frame>)
    requires c.connected && Clean(c) && |data| == expected
    requires DecodeAll(data, fmt.bitDepth, fmt.rows, fmt.width, |stack|, fmt.pileup) == stack
    ensures Arrives(c, data, arrivals, fmt, expected, stack)
  {
    PayloadOrNothing(c, data, arrivals);
  }

  /** What the mock answers to a request after the pileup command. */
  function Answer(m: Mock, s: Supply, pileup: bool, line: string): MockVendor.Reply {
    Handled(line, Handled(Pileup(pileup), m, s).0, s).1
  }

  /** The reply holds the whole of `stack`, and arrives. */
  ghost predicate Serves(answer: MockVendor.Reply, c: Conn, arrivals: seq<Arrival>, fmt: Guard.Format, n: nat,
          stack: seq<Frame>)
  {
    answer.Wire? && Arrives(c, answer.data, arrivals, fmt, fmt.Size(n, fmt.pileup), stack)
  }

  lemma WireServes(answer: MockVendor.Reply, c: Conn, arrivals: seq<Arrival>, fmt: Guard.Format, n: nat,
          stack: seq<Frame>)
    requires c.connected && Clean(c) && |stack| == n
    requires answer.Wire? && |answer.data| == n * BytesPerFrame(fmt.bitDepth, fmt.rows, fmt.width, fmt.pileup)
    requires DecodeAll(answer.data, fmt.bitDepth, fmt.rows, fmt.width, n, fmt.pileup) == stack
    ensures Serves(answer, c, arrivals, fmt, n, stack)
  {
    DecodedOrNothing(c, answer.data, arrivals, fmt, fmt.Size(n, fmt.pileup), stack);
  }

  lemma IntensityServed(c: Conn, ready: Mock, s: Supply, depth: nat, time: string, iterations: nat, overlap: bool,
          width: nat, pileup: bool, arrivals: seq<Arrival>)
    requires c.connected && Clean(c) && Ready(ready, pileup)
    requires s.Fits() && Plain(time) && depth in DEPTHS && 1 <= iterations <= EXACT && width in WIDTHS
    ensures Serves(Handled(Intensity(depth, time, iterations, overlap, width), ready, s).1, c, arrivals,
                   Guard.Format(depth, SENSOR_ROWS, width, pileup), iterations,
                   Copies(Seen(s.image(width, depth), depth, pileup, SENSOR_ROWS), iterations))
  {
    var answer := Handled(Intensity(depth, time, iterations, overlap, width), ready, s).1;
    WidthsFit(width);
    IntensityLengthExactly(ready, s, depth, time, iterations, overlap, width, pileup);
    IntensityDecodes(ready, s, depth, time, iterations, overlap, width, pileup);
    WireServes(answer, c, arrivals, Guard.Format(depth, SENSOR_ROWS, width, pileup), iterations,
               Copies(Seen(s.image(width, depth), depth, pileup, SENSOR_ROWS), iterations));
  }

  /** A valid intensity request, sent with the byte count the bridge computes, arrives as the drawn
      image, once per iteration. */
  lemma IntensityEndToEnd(c: Conn, m: Mock, s: Supply, depth: nat, time: string, iterations: nat, overlap: bool,
          width: nat, pileup: bool, arrivals: seq<Arrival>)
    requires c.connected && Clean(c) && m.failAfter != Some(0)
    requires s.Fits() && Plain(time) && depth in DEPTHS && 1 <= iterations <= EXACT && width in WIDTHS
    ensures Serves(Answer(m, s, pileup, Intensity(depth, time, iterations, overlap, width)), c, arrivals,
                   Guard.Format(depth, SENSOR_ROWS, width, pileup), iterations,
                   Copies(Seen(s.image(width, depth), depth, pileup, SENSOR_ROWS), iterations))
  {
    PileupSets(m, pileup, s);
    IntensityServed(c, Handled(Pileup(pileup), m, s).0, s, depth, time, iterations, overlap, width, pileup, arrivals);
  }

  lemma GatedServed(c: Conn, ready: Mock, s: Supply, depth: nat, iterations: int, steps: int, asked: nat, g: Gate,
          pileup: bool, arrivals: seq<Arrival>)
    requires c.connected && Clean(c) && Ready(ready, pileup)
    requires s.Fits() && Plain(g.time) && Plain(g.stepSize)
    requires depth in GATED_DEPTHS && Exact(iterations) && Exact(steps) && asked == iterations * steps >= 1
    ensures Serves(Handled(Gated(depth, iterations, steps, g), ready, s).1, c, arrivals,
                   Guard.Format(depth, SENSOR_ROWS, SENSOR_ROWS, pileup), asked,
                   SeenAll(GateFrames(depth, asked, s), depth, pileup, SENSOR_ROWS))
  {
    var answer := Handled(Gated(depth, iterations, steps, g), ready, s).1;
    GatedLengthExactly(ready, s, depth, iterations, steps, asked, g, pileup);
    GatedDecodes(ready, s, depth, iterations, steps, asked, g, pileup);
    WireServes(answer, c, arrivals, Guard.Format(depth, SENSOR_ROWS, SENSOR_ROWS, pileup), asked,
               SeenAll(GateFrames(depth, asked, s), depth, pileup, SENSOR_ROWS));
  }

  /** The same for a valid gated request: the drawn frames, in order. */
  lemma GatedEndToEnd(c: Conn, m: Mock, s: Supply, depth: nat, iterations: int, steps: int, asked: nat, g: Gate,
          pileup: bool, arrivals: seq<Arrival>)
    requires c.connected && Clean(c) && m.failAfter != Some(0)
    requires s.Fits() && Plain(g.time) && Plain(g.stepSize)
    requires depth in GATED_DEPTHS && Exact(iterations) && Exact(steps) && asked == iterations * steps >= 1
    ensures Serves(Answer(m, s, pileup, Gated(depth, iterations, steps, g)), c, arrivals,
                   Guard.Format(depth, SENSOR_ROWS, SENSOR_ROWS, pileup), asked,
                   SeenAll(GateFrames(depth, asked, s), depth, pileup, SENSOR_ROWS))
  {
    PileupSets(m, pileup, s);
    GatedServed(c, Handled(Pileup(pileup), m, s).0, s, depth, iterations, steps, asked, g, pileup, arrivals);
  }

  // ----- An image that reads as an error -----

  /** A frame whose first pixels are the letters of the error mark. */
  function ErrorLookalike(): (f: Frame)
    ensures Sized(f, SENSOR_ROWS) && |f.px| == 512 * 512
    ensures f.px[..5] == [69, 82, 82, 79, 82] && forall i :: 0 <= i < |f.px| ==> f.px[i] < 256
  {
    var mark: seq<nat> := [69, 82, 82, 79, 82];
    Codec.Frame.Frame(SENSOR_ROWS, SENSOR_ROWS, mark + seq(512 * 512 - 5, i => 0))
  }

  function Blank(width: nat): (f: Frame)
    ensures Sized(f, width)
  {
    Codec.Frame.Frame(SENSOR_ROWS, width, seq(SENSOR_ROWS * width, i => 0))
  }

  function LookalikeSupply(): (s: Supply)
    ensures s.Fits() && s.image(SENSOR_ROWS, 8) == ErrorLookalike()
  {
    Supply((w: nat, d: nat) => if w == SENSOR_ROWS then ErrorLookalike() else Blank(w),
           (d: nat, n: nat, k: nat) => Blank(SENSOR_ROWS), (value: string) => None)
  }

  lemma LookalikeBytes(f: Frame)
    requires |f.px| >= 5 && f.px[..5] == [69, 82, 82, 79, 82]
    ensures IsErrorFrame(LowBytes(f.px))
  {
    var data := LowBytes(f.px);
    forall i | 0 <= i < 5
      ensures data[i] == ERROR[i]
    {
      assert f.px[i] == f.px[..5][i];
    }
    assert Leading(data) == 0;
    assert data[..5] == ERROR;
  }

  /** Such a frame is a valid eight-bit image, and its payload reads as an error frame. */
  lemma ImageReadsAsError()
    ensures var data := EncodeAll([ErrorLookalike()], 8, false, SENSOR_ROWS);
      |data| == BytesPerFrame(8, SENSOR_ROWS, SENSOR_ROWS, false) && IsErrorFrame(data)
  {
    var f := ErrorLookalike();
    SingleFrame(f, 8, false);
    LookalikeBytes(f);
  }

  /** The valid request for it is refused, however its bytes arrive. */
  lemma LookalikeRefused(c: Conn, m: Mock, time: string, arrivals: seq<Arrival>)
    requires c.connected && Clean(c) && m.failAfter != Some(0) && Plain(time)
    ensures var answer := Answer(m, LookalikeSupply(), false, Intensity(8, time, 1, false, SENSOR_ROWS));
      && answer.Wire?
      && !SendAcquire(c, Some(|answer.data|), answer.data + DONE, arrivals).1.Ok?
  {
    var s := LookalikeSupply();
    PileupSets(m, false, s);
    var ready := Handled(Pileup(false), m, s).0;
    LookalikeAnswer(ready, time);
    ImageReadsAsError();
    PayloadOrNothing(c, EncodeAll([ErrorLookalike()], 8, false, SENSOR_ROWS), arrivals);
  }

  lemma LookalikeAnswer(ready: Mock, time: string)
    requires Ready(ready, false) && Plain(time)
    ensures Handled(Intensity(8, time, 1, false, SENSOR_ROWS), ready, LookalikeSupply()).1
         == MockVendor.Wire(EncodeAll([ErrorLookalike()], 8, false, SENSOR_ROWS))
  {
    var f := ErrorLookalike();
    IntensityAnswer(ready, LookalikeSupply(), 8, time, 1, false, SENSOR_ROWS, false);
    assert Copies(f, 1) == [f];
  }
}
