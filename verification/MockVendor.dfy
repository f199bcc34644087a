/** The mock vendor's command dispatch (mock_server/protocol.py) and its agreement with the byte
    counts the bridge computes. The generated images are parameters. */
module MockVendor {
  import opened Bytes
  import opened Codec
  import opened Commands
  import opened Decimals
  import opened Options

  const DEPTHS: set<int> := {1, 4, 6, 7, 8, 9, 10, 11, 12}
  const GATED_DEPTHS: set<int> := {6, 7, 8, 9, 10, 11, 12}
  const WIDTHS: set<int> := {4, 8, 16, 32, 64, 128, 256, 512}

  const EXACT: int := 0x20_0000_0000_0000

  /** Up to this size every integer is exact as a float. */
  predicate Exact(z: int) {
    -EXACT <= z <= EXACT
  }

  /** What the vendor draws: an intensity image of a width and depth; frame `k` of a gated stack;
      the integer a string other than a numeral is read as. */
  datatype Supply = Supply(image: (nat, nat) -> Frame, gate: (nat, nat, nat) -> Frame, odd: string -> Option<int>) {
    ghost predicate Fits() {
      && (forall w: nat, d: nat :: Sized(image(w, d), w))
      && (forall d: nat, n: nat, k: nat :: Sized(gate(d, n, k), SENSOR_ROWS))
    }
  }

  ghost predicate Sized(f: Frame, width: nat) {
    f.Valid() && f.rows == SENSOR_ROWS && f.cols == width
  }

  /** `int(float(value))`, with the default where that raises. */
  function CoerceInt(value: string, dflt: int, odd: string -> Option<int>): int {
    if value != [] && AllDigits(value) && Parse(value) <= EXACT then Parse(value)
    else if |value| > 1 && value[0] == '-' && AllDigits(value[1..]) && Parse(value[1..]) <= EXACT
    then 0 - Parse(value[1..])
    else
      match odd(value)
      case None => dflt
      case Some(z) => z
  }

  function ArgInt(args: seq<string>, k: nat, dflt: int, odd: string -> Option<int>): int {
    if k < |args| then CoerceInt(args[k], dflt, odd) else dflt
  }

  function ResolveWidth(value: int): (w: nat)
    ensures w in WIDTHS && (value in WIDTHS ==> w == value)
  {
    if value in WIDTHS then value else SENSOR_ROWS
  }

  function ResolveBitDepth(value: int): (d: nat)
    ensures d in DEPTHS && (value in DEPTHS ==> d == value)
  {
    if value in DEPTHS then value else 8
  }

  /** One-bit and four-bit gating do not exist. */
  function ResolveGatedBitDepth(value: int): (d: nat)
    ensures d in GATED_DEPTHS && (value in GATED_DEPTHS ==> d == value)
  {
    if value in GATED_DEPTHS then value else 8
  }

  /** Acquisitions answer with bytes; `Other` is a text reply of a handler that is not modelled. */
  datatype Reply = Error | Text | Wire(data: Bytes) | Other

  /** `failAfter` is the armed fault: that many acquisitions succeed, the next one fails. */
  datatype Mock = Mock(pileup: bool, failAfter: Option<nat>)

  /** Python's repetition of a byte string. */
  function Repeat(one: Bytes, n: int): Bytes {
    if n <= 0 then [] else Repeat(one, n - 1) + one
  }

  function GateFrames(depth: nat, n: nat, s: Supply): (frames: seq<Frame>)
    ensures |frames| == n && forall k :: 0 <= k < n ==> frames[k] == s.gate(depth, n, k)
  {
    seq(n, k requires 0 <= k => s.gate(depth, n, k))
  }

  function IntensityReply(args: seq<string>, pileup: bool, s: Supply): Reply {
    var depth := ResolveBitDepth(ArgInt(args, 0, 8, s.odd));
    var iterations := ArgInt(args, 2, 1, s.odd);
    var width := ResolveWidth(ArgInt(args, 7, SENSOR_ROWS, s.odd));
    Wire(Repeat(EncodeAll([s.image(width, depth)], depth, pileup, SENSOR_ROWS), iterations))
  }

  function GatedReply(args: seq<string>, pileup: bool, s: Supply): Reply {
    var depth := ResolveGatedBitDepth(ArgInt(args, 0, 8, s.odd));
    var product := ArgInt(args, 2, 1, s.odd) * ArgInt(args, 3, 10, s.odd);
    var n := if product < 1 then 1 else product;
    Wire(EncodeAll(GateFrames(depth, n, s), depth, pileup, SENSOR_ROWS))
  }

  const ACQUIRE_COMMANDS := {"I", "G", "F"}
  const OTHER_COMMANDS := {"D", "V", "R", "AE", "S", "CALIB", "Ga", "Gf", "F"}

  /** One command line: the new state and the reply. */
  function Handled(line: string, m: Mock, s: Supply): (Mock, Reply) {
    var raw := Commands.Strip(line);
    if raw == [] then (m, Error)
    else
      var (head, args) := HeadAndArgs(raw);
      if head in ACQUIRE_COMMANDS && m.failAfter == Some(0) then (m.(failAfter := None), Error)
      else
        var armed := if head in ACQUIRE_COMMANDS && m.failAfter.Some?
          then m.(failAfter := Some(m.failAfter.value - 1)) else m;
        Dispatched(head, args, armed, s)
  }

  function Dispatched(head: string, args: seq<string>, m: Mock, s: Supply): (Mock, Reply) {
    if head == "PU" then (if args == [] then m else m.(pileup := args[0] == "1"), Text)
    else if head == "I" then (m, IntensityReply(args, m.pileup, s))
    else if head == "G" then (m, GatedReply(args, m.pileup, s))
    else if head in OTHER_COMMANDS then (m, Other)
    else (m, Error)
  }

  class MockState {
    const supply: Supply
    var commandCount: nat
    var pileupCorrection: bool
    var failAfter: Option<nat>

    constructor (supply: Supply)
      ensures this.supply == supply && commandCount == 0 && State() == Mock(false, None)
    {
      this.supply := supply;
      commandCount, pileupCorrection, failAfter := 0, false, None;
    }

    function State(): Mock
      reads this
    {
      Mock(pileupCorrection, failAfter)
    }

    method FailAfterNCommands(n: nat)
      modifies this
      ensures State() == old(State()).(failAfter := Some(n)) && commandCount == old(commandCount)
    {
      failAfter := Some(n);
    }

    method TakeAcquireFailure() returns (fails: bool)
      modifies this`failAfter
      ensures fails <==> old(failAfter) == Some(0)
      ensures failAfter == match old(failAfter) case None => None case Some(n) => if n == 0 then None else Some(n - 1)
    {
      if failAfter.None? {
        return false;
      }
      if failAfter.value > 0 {
        failAfter := Some(failAfter.value - 1);
        return false;
      }
      failAfter := None;
      return true;
    }

    method HandlePileup(args: seq<string>) returns (r: Reply)
      modifies this`pileupCorrection
      ensures r == Text && pileupCorrection == if args == [] then old(pileupCorrection) else args[0] == "1"
    {
      if args != [] {
        pileupCorrection := args[0] == "1";
      }
      r := Text;
    }

    method HandleIntensity(args: seq<string>) returns (r: Reply)
      requires supply.Fits()
      ensures r == IntensityReply(args, pileupCorrection, supply)
    {
      var depth := ResolveBitDepth(ArgInt(args, 0, 8, supply.odd));
      var width := ResolveWidth(ArgInt(args, 7, SENSOR_ROWS, supply.odd));
      var frame := supply.image(width, depth);
      assert Sized(frame, width);
      var one := EncodeIntensityFrames([frame], depth, pileupCorrection);
      r := Wire(Repeat(one.value, ArgInt(args, 2, 1, supply.odd)));
    }

    method HandleGated(args: seq<string>) returns (r: Reply)
      requires supply.Fits()
      ensures r == GatedReply(args, pileupCorrection, supply)
    {
      var depth := ResolveGatedBitDepth(ArgInt(args, 0, 8, supply.odd));
      var product := ArgInt(args, 2, 1, supply.odd) * ArgInt(args, 3, 10, supply.odd);
      var n := if product < 1 then 1 else product;
      var frames := GateFrames(depth, n, supply);
      forall f | f in frames
        ensures f.Valid() && f.rows == SENSOR_ROWS
      {
        var k :| 0 <= k < n && frames[k] == f;
        assert Sized(supply.gate(depth, n, k), SENSOR_ROWS);
      }
      var wire := EncodeIntensityFrames(frames, depth, pileupCorrection);
      r := Wire(wire.value);
    }

    method Handle(line: string) returns (r: Reply)
      requires supply.Fits()
      modifies this
      ensures commandCount == old(commandCount) + 1
      ensures (State(), r) == Handled(line, old(State()), supply)
    {
      commandCount := commandCount + 1;
      var raw := Commands.Strip(line);
      if raw == [] {
        return Error;
      }
      var (head, args) := HeadAndArgs(raw);
      if head in ACQUIRE_COMMANDS {
        var fails := TakeAcquireFailure();
        if fails {
          return Error;
        }
      }
      r := Dispatch(head, args);
    }

    method Dispatch(head: string, args: seq<string>) returns (r: Reply)
      requires supply.Fits()
      modifies this`pileupCorrection
      ensures (State(), r) == Dispatched(head, args, old(State()), supply)
    {
      if head == "PU" {
        r := HandlePileup(args);
      } else if head == "I" {
        r := HandleIntensity(args);
      } else if head == "G" {
        r := HandleGated(args);
      } else if head in OTHER_COMMANDS {
        r := Other;
      } else {
        r := Error;
      }
    }
  }

  /** Without arguments both requests have defaults: one full eight-bit frame, and ten. */
  lemma BareRequests(m: Mock, s: Supply)
    requires m.failAfter != Some(0)
    ensures Handled("I", m, s).1 == Wire(EncodeAll([s.image(512, 8)], 8, m.pileup, SENSOR_ROWS))
    ensures Handled("G", m, s).1 == Wire(EncodeAll(GateFrames(8, 10, s), 8, m.pileup, SENSOR_ROWS))
  {
    CommaAfter("I", []);
    CommaAfter("G", []);
    assert "I"[..1] == "I" && "G"[..1] == "G";
    assert HeadAndArgs("I") == ("I", []) && HeadAndArgs("G") == ("G", []);
    var one := EncodeAll([s.image(512, 8)], 8, m.pileup, SENSOR_ROWS);
    assert Repeat(one, 1) == Repeat(one, 0) + one == one;
  }

  // ----- The armed fault -----

  /** The line asks for an acquisition. */
  predicate Acquires(line: string) {
    Commands.Strip(line) != [] && HeadAndArgs(Commands.Strip(line)).0 in {"I", "G", "F"}
  }

  function Acquisitions(lines: seq<string>, n: nat): nat
    requires n <= |lines|
  {
    if n == 0 then 0 else Acquisitions(lines, n - 1) + if Acquires(lines[n - 1]) then 1 else 0
  }

  function After(m: Mock, lines: seq<string>, s: Supply, n: nat): Mock
    requires n <= |lines|
  {
    if n == 0 then m else Handled(lines[n - 1], After(m, lines, s, n - 1), s).0
  }

  lemma DispatchedKeeps(head: string, args: seq<string>, m: Mock, s: Supply)
    ensures Dispatched(head, args, m, s).0.failAfter == m.failAfter
    ensures head in {"I", "G", "F"} ==> Dispatched(head, args, m, s).1 != Error
  {
  }

  lemma FaultStep(line: string, m: Mock, s: Supply)
    ensures Handled(line, m, s).0.failAfter
      == if m.failAfter.None? || !Acquires(line) then m.failAfter
         else if m.failAfter == Some(0) then None else Some(m.failAfter.value - 1)
    ensures Acquires(line) ==> (Handled(line, m, s).1 == Error <==> m.failAfter == Some(0))
  {
    var raw := Commands.Strip(line);
    if raw != [] {
      var (head, args) := HeadAndArgs(raw);
      DispatchedKeeps(head, args, m, s);
      if m.failAfter.Some? && m.failAfter.value > 0 {
        DispatchedKeeps(head, args, m.(failAfter := Some(m.failAfter.value - 1)), s);
      }
    }
  }

  /** What is left of an armed fault after so many acquisitions. */
  function Left(failAfter: Option<nat>, count: nat): Option<nat> {
    match failAfter
    case None => None
    case Some(n) => if count <= n then Some(n - count) else None
  }

  lemma {:induction false} FaultCounts(m: Mock, lines: seq<string>, s: Supply, n: nat)
    requires n <= |lines|
    ensures After(m, lines, s, n).failAfter == Left(m.failAfter, Acquisitions(lines, n))
  {
    if n > 0 {
      FaultCounts(m, lines, s, n - 1);
      FaultStep(lines[n - 1], After(m, lines, s, n - 1), s);
    }
  }

  lemma FaultNow(line: string, m: Mock, s: Supply, failAfter: Option<nat>, count: nat)
    requires Acquires(line) && m.failAfter == Left(failAfter, count)
    ensures Handled(line, m, s).1 == Error <==> failAfter == Some(count)
  {
    FaultStep(line, m, s);
  }

  /** Among all commands, exactly the acquisition that follows the armed number of them fails. */
  lemma FaultExactly(m: Mock, lines: seq<string>, s: Supply, k: nat)
    requires k < |lines| && Acquires(lines[k])
    ensures Handled(lines[k], After(m, lines, s, k), s).1 == Error <==> m.failAfter == Some(Acquisitions(lines, k))
  {
    FaultCounts(m, lines, s, k);
    FaultNow(lines[k], After(m, lines, s, k), s, m.failAfter, Acquisitions(lines, k));
  }

  /** A blank line and one with an unknown head change nothing and are answered with an error. */
  lemma UnknownRefused(line: string, m: Mock, s: Supply)
    requires var raw := Commands.Strip(line);
      raw == [] || HeadAndArgs(raw).0 !in {"D", "V", "R", "AE", "S", "PU", "CALIB", "I", "G", "Ga", "Gf", "F"}
    ensures Handled(line, m, s) == (m, Error)
  {
  }

  // ----- The replies have the length the bridge expects -----

  lemma SingleFrame(f: Frame, depth: nat, pileup: bool)
    ensures EncodeAll([f], depth, pileup, SENSOR_ROWS) == EncodeOne(f, depth, pileup, SENSOR_ROWS)
  {
    var encode := Encoder(depth, pileup, SENSOR_ROWS);
    assert [f][..|[f]| - 1] == [];
    assert ConcatMap(encode, []) == [];
    assert ConcatMap(encode, [f]) == ConcatMap(encode, []) + encode(f);
  }

  lemma {:induction false} RepeatIsStack(f: Frame, n: nat, depth: nat, pileup: bool)
    ensures Repeat(EncodeAll([f], depth, pileup, SENSOR_ROWS), n)
         == EncodeAll(seq(n, i requires 0 <= i => f), depth, pileup, SENSOR_ROWS)
  {
    var stack := seq(n, i requires 0 <= i => f);
    SingleFrame(f, depth, pileup);
    if n > 0 {
      RepeatIsStack(f, n - 1, depth, pileup);
      assert stack[..n - 1] == seq(n - 1, i requires 0 <= i => f);
    }
  }

  lemma CoercePrinted(z: int, dflt: int, odd: string -> Option<int>)
    requires Exact(z)
    ensures CoerceInt(PrintInt(z), dflt, odd) == z
  {
    ParsePrint(if z < 0 then -z else z);
    if z < 0 {
      assert PrintInt(z)[0] == '-' && PrintInt(z)[1..] == Print(-z);
      assert PrintInt(z)[0] in PrintInt(z);
    }
  }

  /** The vendor, not about to fail, after the pileup command that precedes every acquisition. */
  ghost predicate Ready(m: Mock, pileup: bool) {
    m.pileup == pileup && m.failAfter != Some(0)
  }

  lemma PileupSets(m: Mock, pileup: bool, s: Supply)
    requires m.failAfter != Some(0)
    ensures Ready(Handled(Pileup(pileup), m, s).0, pileup)
  {
    PileupReads(pileup);
  }

  function Copies(f: Frame, n: nat): (stack: seq<Frame>)
    ensures |stack| == n && forall i :: 0 <= i < n ==> stack[i] == f
  {
    seq(n, i requires 0 <= i => f)
  }

  lemma IntensityHandled(m: Mock, s: Supply, depth: nat, time: string, iterations: nat, overlap: bool, width: nat,
          pileup: bool)
    requires Ready(m, pileup) && Plain(time)
    ensures var args := IntensityFields(depth, time, iterations, overlap, width)[1..];
      && Handled(Intensity(depth, time, iterations, overlap, width), m, s).1 == IntensityReply(args, pileup, s)
      && |args| == 8 && args[0] == Print(depth) && args[2] == Print(iterations) && args[7] == Print(width)
  {
    IntensityReads(depth, time, iterations, overlap, width);
  }

  lemma IntensityReplyOf(args: seq<string>, pileup: bool, s: Supply, depth: nat, iterations: nat, width: nat)
    requires |args| > 7 && depth in DEPTHS && ArgInt(args, 0, 8, s.odd) == depth
    requires ArgInt(args, 2, 1, s.odd) == iterations && ArgInt(args, 7, SENSOR_ROWS, s.odd) == width
    ensures IntensityReply(args, pileup, s)
      == Wire(Repeat(EncodeAll([s.image(ResolveWidth(width), depth)], depth, pileup, SENSOR_ROWS), iterations))
  {
  }

  /** The reply to a printed intensity request: the resolved image, once per iteration. */
  lemma IntensityAnswer(m: Mock, s: Supply, depth: nat, time: string, iterations: nat, overlap: bool, width: nat,
          pileup: bool)
    requires s.Fits() && Ready(m, pileup) && Plain(time)
    requires depth in DEPTHS && iterations <= EXACT && width <= EXACT
    ensures Handled(Intensity(depth, time, iterations, overlap, width), m, s).1
         == Wire(EncodeAll(Copies(s.image(ResolveWidth(width), depth), iterations), depth, pileup, SENSOR_ROWS))
  {
    IntensityHandled(m, s, depth, time, iterations, overlap, width, pileup);
    CoercePrinted(depth, 8, s.odd);
    CoercePrinted(iterations, 1, s.odd);
    CoercePrinted(width, SENSOR_ROWS, s.odd);
    IntensityReplyOf(IntensityFields(depth, time, iterations, overlap, width)[1..], pileup, s, depth, iterations,
      width);
    RepeatIsStack(s.image(ResolveWidth(width), depth), iterations, depth, pileup);
  }

  lemma WidthsFit(w: nat)
    requires w in WIDTHS
    ensures 4 <= w <= EXACT
  {
  }

  lemma SizeCancels(n: nat, a: nat, b: nat)
    requires n > 0
    ensures n * a == n * b <==> a == b
  {
    if n * a == n * b {
      assert n * (a - b) == 0;
    }
  }

  lemma FrameSizeTellsWidth(depth: nat, w: nat, width: nat, pileup: bool)
    ensures BytesPerFrame(depth, SENSOR_ROWS, w, pileup) == BytesPerFrame(depth, SENSOR_ROWS, width, pileup)
      <==> depth == 1 || w == width
  {
  }

  lemma IntensityWireLength(r: Reply, depth: nat, iterations: nat, width: nat, pileup: bool, f: Frame)
    requires iterations >= 1 && Sized(f, ResolveWidth(width))
    requires r == Wire(EncodeAll(Copies(f, iterations), depth, pileup, SENSOR_ROWS))
    ensures |r.data| == iterations * BytesPerFrame(depth, SENSOR_ROWS, if width in WIDTHS then width else 512, pileup)
    ensures |r.data| == iterations * BytesPerFrame(depth, SENSOR_ROWS, width, pileup)
      <==> depth == 1 || width in WIDTHS
  {
    var w := ResolveWidth(width);
    EncodedLength(Copies(f, iterations), depth, pileup, SENSOR_ROWS, w);
    SizeCancels(iterations, BytesPerFrame(depth, SENSOR_ROWS, w, pileup),
      BytesPerFrame(depth, SENSOR_ROWS, width, pileup));
    FrameSizeTellsWidth(depth, w, width, pileup);
  }

  /** Printed, split, parsed and encoded, an intensity request of a valid depth is answered with
      exactly the bytes the bridge expects when the width is a valid one or the depth is one bit,
      and with another number otherwise. */
  lemma IntensityLengthExactly(m: Mock, s: Supply, depth: nat, time: string, iterations: nat, overlap: bool,
          width: nat, pileup: bool)
    requires s.Fits() && Ready(m, pileup) && Plain(time)
    requires depth in DEPTHS && 1 <= iterations <= EXACT && width <= EXACT
    ensures var r := Handled(Intensity(depth, time, iterations, overlap, width), m, s).1;
      && r.Wire?
      && |r.data|
        == iterations * BytesPerFrame(depth, SENSOR_ROWS, if width in WIDTHS then width else 512, pileup)
      && (|r.data| == iterations * BytesPerFrame(depth, SENSOR_ROWS, width, pileup) <==> depth == 1 || width in WIDTHS)
  {
    IntensityAnswer(m, s, depth, time, iterations, overlap, width, pileup);
    IntensityWireLength(Handled(Intensity(depth, time, iterations, overlap, width), m, s).1, depth, iterations, width,
      pileup, s.image(ResolveWidth(width), depth));
  }

  lemma CopiesDecode(f: Frame, n: nat, depth: nat, width: nat, pileup: bool)
    requires Sized(f, width)
    ensures DecodeAll(EncodeAll(Copies(f, n), depth, pileup, SENSOR_ROWS), depth, SENSOR_ROWS, width, n, pileup)
         == Copies(Seen(f, depth, pileup, SENSOR_ROWS), n)
  {
    StackRoundTrip(Copies(f, n), depth, pileup, SENSOR_ROWS, width);
    assert SeenAll(Copies(f, n), depth, pileup, SENSOR_ROWS) == Copies(Seen(f, depth, pileup, SENSOR_ROWS), n);
  }

  /** And a valid request decodes to the drawn image, as the bridge sees it, once per iteration. */
  lemma IntensityDecodes(m: Mock, s: Supply, depth: nat, time: string, iterations: nat, overlap: bool, width: nat,
          pileup: bool)
    requires s.Fits() && Ready(m, pileup) && Plain(time)
    requires depth in DEPTHS && 1 <= iterations <= EXACT && width in WIDTHS
    ensures var r := Handled(Intensity(depth, time, iterations, overlap, width), m, s).1;
      r.Wire? && DecodeAll(r.data, depth, SENSOR_ROWS, width, iterations, pileup)
              == Copies(Seen(s.image(width, depth), depth, pileup, SENSOR_ROWS), iterations)
  {
    WidthsFit(width);
    assert Sized(s.image(width, depth), width);
    CopiesDecode(s.image(width, depth), iterations, depth, width, pileup);
    IntensityAnswer(m, s, depth, time, iterations, overlap, width, pileup);
  }

  /** How many frames a gated request for `asked` frames yields: never none. */
  function GatedFrameCount(asked: int): (n: nat)
    ensures n > 0
  {
    if asked < 1 then 1 else asked
  }

  lemma GatesSized(depth: nat, n: nat, s: Supply)
    requires s.Fits()
    ensures SameShape(GateFrames(depth, n, s), SENSOR_ROWS, SENSOR_ROWS)
  {
    var frames := GateFrames(depth, n, s);
    forall f | f in frames
      ensures f.Valid() && f.rows == SENSOR_ROWS && f.cols == SENSOR_ROWS
    {
      var k :| 0 <= k < n && frames[k] == f;
      assert Sized(s.gate(depth, n, k), SENSOR_ROWS);
    }
  }

  lemma GatedHandled(m: Mock, s: Supply, depth: nat, iterations: int, steps: int, g: Gate, pileup: bool)
    requires Ready(m, pileup) && Plain(g.time) && Plain(g.stepSize)
    ensures var args := GatedFields(depth, iterations, steps, g)[1..];
      && Handled(Gated(depth, iterations, steps, g), m, s).1 == GatedReply(args, pileup, s)
      && |args| == 12 && args[0] == Print(depth) && args[2] == PrintInt(iterations) && args[3] == PrintInt(steps)
  {
    GatedLineReads(depth, iterations, steps, g);
  }

  lemma GatedReplyOf(args: seq<string>, pileup: bool, s: Supply, depth: nat, iterations: int, steps: int, asked: int)
    requires |args| > 3 && asked == iterations * steps && ArgInt(args, 0, 8, s.odd) == depth
    requires ArgInt(args, 2, 1, s.odd) == iterations && ArgInt(args, 3, 10, s.odd) == steps
    ensures GatedReply(args, pileup, s)
      == Wire(EncodeAll(GateFrames(ResolveGatedBitDepth(depth), GatedFrameCount(asked), s),
                        ResolveGatedBitDepth(depth), pileup, SENSOR_ROWS))
  {
  }

  lemma GatedArgs(args: seq<string>, depth: nat, iterations: int, steps: int, odd: string -> Option<int>)
    requires |args| > 3 && args[0] == Print(depth) && args[2] == PrintInt(iterations) && args[3] == PrintInt(steps)
    requires Exact(depth) && Exact(iterations) && Exact(steps)
    ensures ArgInt(args, 0, 8, odd) == depth
    ensures ArgInt(args, 2, 1, odd) == iterations && ArgInt(args, 3, 10, odd) == steps
  {
    CoercePrinted(depth, 8, odd);
    CoercePrinted(iterations, 1, odd);
    CoercePrinted(steps, 10, odd);
  }

  lemma GatedAnswer(m: Mock, s: Supply, depth: nat, iterations: int, steps: int, asked: int, g: Gate, pileup: bool)
    requires s.Fits() && Ready(m, pileup) && Plain(g.time) && Plain(g.stepSize)
    requires depth in DEPTHS && Exact(iterations) && Exact(steps) && asked == iterations * steps
    ensures var frames := GateFrames(ResolveGatedBitDepth(depth), GatedFrameCount(asked), s);
      && SameShape(frames, SENSOR_ROWS, SENSOR_ROWS)
      && Handled(Gated(depth, iterations, steps, g), m, s).1
         == Wire(EncodeAll(frames, ResolveGatedBitDepth(depth), pileup, SENSOR_ROWS))
  {
    var args := GatedFields(depth, iterations, steps, g)[1..];
    GatedHandled(m, s, depth, iterations, steps, g, pileup);
    GatedArgs(args, depth, iterations, steps, s.odd);
    GatedReplyOf(args, pileup, s, depth, iterations, steps, asked);
    GatesSized(ResolveGatedBitDepth(depth), GatedFrameCount(asked), s);
  }

  lemma GatedSizes(depth: nat, pileup: bool, asked: int, sent: nat)
    requires depth in DEPTHS && sent == GatedFrameCount(asked)
    ensures (sent * BytesPerFrame(ResolveGatedBitDepth(depth), SENSOR_ROWS, SENSOR_ROWS, pileup)
             == asked * BytesPerFrame(depth, SENSOR_ROWS, SENSOR_ROWS, pileup)) <==> depth != 1 && asked >= 1
  {
    var a := BytesPerFrame(ResolveGatedBitDepth(depth), SENSOR_ROWS, SENSOR_ROWS, pileup);
    var b := BytesPerFrame(depth, SENSOR_ROWS, SENSOR_ROWS, pileup);
    assert a == (if ResolveGatedBitDepth(depth) < 9 && !pileup then 262144 else 524288);
    assert b == (if depth == 1 then 32768 else if depth < 9 && !pileup then 262144 else 524288);
    assert depth != 1 ==> a == b;
    if asked >= 1 {
      SizeCancels(asked, a, b);
    }
  }

  lemma GatedWireLength(r: Reply, depth: nat, pileup: bool, asked: int, frames: seq<Frame>)
    requires depth in DEPTHS && |frames| == GatedFrameCount(asked) && SameShape(frames, SENSOR_ROWS, SENSOR_ROWS)
    requires r == Wire(EncodeAll(frames, ResolveGatedBitDepth(depth), pileup, SENSOR_ROWS))
    ensures |r.data| == (if asked >= 1 then asked else 1)
                        * BytesPerFrame(if depth in GATED_DEPTHS then depth else 8, SENSOR_ROWS, SENSOR_ROWS, pileup)
    ensures |r.data| == asked * BytesPerFrame(depth, SENSOR_ROWS, SENSOR_ROWS, pileup) <==> depth != 1 && asked >= 1
  {
    EncodedLength(frames, ResolveGatedBitDepth(depth), pileup, SENSOR_ROWS, SENSOR_ROWS);
    GatedSizes(depth, pileup, asked, |frames|);
  }

  /** A gated request is answered with exactly the bytes the bridge expects when its depth is more
      than one bit and it asks for at least one frame; one step at a time as in a paced sweep, or
      all steps at once. */
  lemma GatedLengthExactly(m: Mock, s: Supply, depth: nat, iterations: int, steps: int, asked: int, g: Gate,
          pileup: bool)
    requires s.Fits() && Ready(m, pileup) && Plain(g.time) && Plain(g.stepSize)
    requires depth in DEPTHS && Exact(iterations) && Exact(steps) && asked == iterations * steps
    ensures var r := Handled(Gated(depth, iterations, steps, g), m, s).1;
      && r.Wire?
      && |r.data| == (if asked >= 1 then asked else 1)
                     * BytesPerFrame(if depth in GATED_DEPTHS then depth else 8, SENSOR_ROWS, SENSOR_ROWS, pileup)
      && (|r.data| == asked * BytesPerFrame(depth, SENSOR_ROWS, SENSOR_ROWS, pileup) <==> depth != 1 && asked >= 1)
  {
    GatedAnswer(m, s, depth, iterations, steps, asked, g, pileup);
    GatedWireLength(Handled(Gated(depth, iterations, steps, g), m, s).1, depth, pileup, asked,
      GateFrames(ResolveGatedBitDepth(depth), GatedFrameCount(asked), s));
  }

  lemma GatedDecodes(m: Mock, s: Supply, depth: nat, iterations: int, steps: int, asked: int, g: Gate, pileup: bool)
    requires s.Fits() && Ready(m, pileup) && Plain(g.time) && Plain(g.stepSize)
    requires depth in GATED_DEPTHS && Exact(iterations) && Exact(steps) && asked == iterations * steps >= 1
    ensures var r := Handled(Gated(depth, iterations, steps, g), m, s).1;
      r.Wire? && DecodeAll(r.data, depth, SENSOR_ROWS, SENSOR_ROWS, asked, pileup)
              == SeenAll(GateFrames(depth, asked, s), depth, pileup, SENSOR_ROWS)
  {
    GatedAnswer(m, s, depth, iterations, steps, asked, g, pileup);
    StackRoundTrip(GateFrames(depth, asked, s), depth, pileup, SENSOR_ROWS, SENSOR_ROWS);
  }
}
