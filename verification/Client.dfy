/** The lockstep connection to the vendor (client.py). Requests are serialised by the client's
    lock, so each one is a single step; bytes still unread travel with the connection. */
module Client {
  import opened Bytes
  import opened Framing
  import opened Options

  /** `wire` holds what the current connection has delivered or will deliver of the answers to
      the requests sent on it, and has not been read. `sent` numbers requests across connections. */
  datatype Conn = Conn(connected: bool, generation: nat, wire: Bytes, watching: bool, sent: nat)

  datatype Reply = Ok(body: Bytes) | NotConnected | ProtocolError

  /** `_handle_disconnect`: the socket and whatever was unread on it are gone. */
  function Drop(c: Conn): Conn {
    if c.connected then c.(connected := false, wire := [], watching := false) else c
  }

  function SendCommand(c: Conn, answer: Bytes, arrivals: seq<Arrival>): (Conn, Reply) {
    if c.connected then AfterText(c, TextRead(c.wire + answer, arrivals)) else (c, NotConnected)
  }

  function AfterText(c: Conn, read: Read): (Conn, Reply) {
    var asked := c.(sent := c.sent + 1, watching := false);
    match read
    case Failed => (Drop(asked), NotConnected)
    case Frame(text, rest) =>
      var after := asked.(wire := rest, watching := true);
      if IsErrorFrame(text) then (after, ProtocolError) else (after, Ok(text))
  }

  function SendAcquire(c: Conn, expected: Option<nat>, answer: Bytes, arrivals: seq<Arrival>): (Conn, Reply) {
    if c.connected then AfterBinary(c, expected, BinaryRead(expected, c.wire + answer, arrivals)) else (c, NotConnected)
  }

  /** A frame of the wrong length drops the connection; an error frame does not, but leaves the
      idle watcher off. */
  function AfterBinary(c: Conn, expected: Option<nat>, read: Read): (Conn, Reply)
    requires read.Frame? ==> |read.buffer| >= |DONE|
  {
    var asked := c.(sent := c.sent + 1, watching := false);
    match read
    case Failed => (Drop(asked), NotConnected)
    case Frame(buffer, rest) =>
      var payload := buffer[..|buffer| - |DONE|];
      if IsErrorFrame(payload) then (asked.(wire := rest), ProtocolError)
      else if expected.Some? && |payload| != expected.value then (Drop(asked), ProtocolError)
      else (asked.(wire := rest, watching := true), Ok(payload))
  }

  /** What the idle watcher does when `stray` bytes arrive, or the peer closes, between requests. */
  function Idle(c: Conn, stray: Bytes, eof: bool): Conn {
    if !c.connected then c
    else if c.watching && (eof || c.wire + stray != []) then Drop(c)
    else c.(wire := c.wire + stray)
  }

  /** `_connect` after the banner: ask for the system information twice and keep the connection
      when both replies arrive and the second one parses. */
  function Connect(c: Conn, first: Bytes, second: Bytes, a: seq<Arrival>, b: seq<Arrival>, parses: bool): Conn {
    if c.connected then c
    else
      var opening := c.(generation := c.generation + 1, wire := [], watching := false);
      match TextRead(first, a)
      case Failed => opening.(sent := c.sent + 1)
      case Frame(_, rest) => AfterSecondInfo(opening.(sent := c.sent + 1), TextRead(rest + second, b), parses)
  }

  function AfterSecondInfo(c: Conn, read: Read, parses: bool): Conn {
    var asked := c.(sent := c.sent + 1);
    if read.Frame? && parses then asked.(connected := true, wire := read.rest, watching := true) else asked
  }

  class ProtocolClient {
    var connected: bool
    var generation: nat
    var wire: Bytes
    var watching: bool
    var sent: nat

    ghost function Value(): Conn
      reads this
    {
      Conn(connected, generation, wire, watching, sent)
    }

    constructor ()
      ensures Value() == Conn(false, 0, [], false, 0)
    {
      connected, generation, wire, watching, sent := false, 0, [], false, 0;
    }

    method HandleDisconnect()
      modifies this
      ensures Value() == Drop(old(Value()))
    {
      if !connected {
        return;
      }
      connected := false;
      wire, watching := [], false;
    }

    method Send(answer: Bytes, arrivals: seq<Arrival>) returns (r: Reply)
      modifies this
      ensures (Value(), r) == SendCommand(old(Value()), answer, arrivals)
    {
      if !connected {
        return NotConnected;
      }
      var read := ReadText(wire + answer, arrivals);
      r := FinishText(read);
    }

    method FinishText(read: Read) returns (r: Reply)
      modifies this
      ensures (Value(), r) == AfterText(old(Value()), read)
    {
      watching := false;
      sent := sent + 1;
      if read.Failed? {
        HandleDisconnect();
        return NotConnected;
      }
      wire := read.rest;
      watching := true;
      if IsErrorFrame(read.buffer) {
        return ProtocolError;
      }
      return Ok(read.buffer);
    }

    method Acquire(expected: Option<nat>, answer: Bytes, arrivals: seq<Arrival>) returns (r: Reply)
      modifies this
      ensures (Value(), r) == SendAcquire(old(Value()), expected, answer, arrivals)
    {
      if !connected {
        return NotConnected;
      }
      var read := ReadBinary(expected, wire + answer, arrivals);
      r := FinishBinary(expected, read);
    }

    method FinishBinary(expected: Option<nat>, read: Read) returns (r: Reply)
      requires read.Frame? ==> |read.buffer| >= |DONE|
      modifies this
      ensures (Value(), r) == AfterBinary(old(Value()), expected, read)
    {
      watching := false;
      sent := sent + 1;
      if read.Failed? {
        HandleDisconnect();
        return NotConnected;
      }
      var payload := read.buffer[..|read.buffer| - |DONE|];
      if IsErrorFrame(payload) {
        wire := read.rest;
        return ProtocolError;
      }
      if expected.Some? && |payload| != expected.value {
        HandleDisconnect();
        return ProtocolError;
      }
      wire := read.rest;
      watching := true;
      return Ok(payload);
    }

    method IdleWatch(stray: Bytes, eof: bool)
      modifies this
      ensures Value() == Idle(old(Value()), stray, eof)
    {
      if connected {
        wire := wire + stray;
        if watching && (eof || wire != []) {
          HandleDisconnect();
        }
      }
    }

    method OpenConnection(first: Bytes, second: Bytes, a: seq<Arrival>, b: seq<Arrival>, parses: bool)
      modifies this
      ensures Value() == Connect(old(Value()), first, second, a, b, parses)
    {
      if connected {
        return;
      }
      generation, wire, watching, sent := generation + 1, [], false, sent + 1;
      var read := ReadText(first, a);
      if read.Frame? {
        SecondInfo(read.rest + second, b, parses);
      }
    }

    /** Ask for the system information again; the reply must parse. */
    method SecondInfo(stream: Bytes, b: seq<Arrival>, parses: bool)
      modifies this
      ensures Value() == AfterSecondInfo(old(Value()), TextRead(stream, b), parses)
    {
      sent := sent + 1;
      var read := ReadText(stream, b);
      if read.Frame? && parses {
        connected, wire, watching := true, read.rest, true;
      }
    }
  }

  // ----- Any vendor -----

  /** A well-formed success: the expected length, and every byte accounted for. */
  ghost predicate Delivered(c: Conn, after: Conn, expected: Option<nat>, answer: Bytes, payload: Bytes) {
    && after.connected && after.watching && after.generation == c.generation
    && (expected.Some? ==> |payload| == expected.value)
    && payload + DONE + after.wire == c.wire + answer
  }

  /** The one failure that keeps the connection: an error frame. */
  ghost predicate Refused(c: Conn, after: Conn, answer: Bytes) {
    && after.connected && !after.watching && after.generation == c.generation
    && exists payload :: IsErrorFrame(payload) && payload + DONE + after.wire == c.wire + answer
  }

  /** The outcomes by what was read. */
  lemma ReadOutcomes(c: Conn, expected: Option<nat>, answer: Bytes, read: Read)
    requires c.connected
    requires read.Frame? ==> EndsWith(read.buffer, DONE) && read.buffer + read.rest == c.wire + answer
    ensures var (after, r) := AfterBinary(c, expected, read);
      if r.Ok? then Delivered(c, after, expected, answer, r.body)
      else !after.connected || (r == ProtocolError && Refused(c, after, answer))
  {
    if read.Frame? {
      var payload := read.buffer[..|read.buffer| - |DONE|];
      assert payload + DONE == read.buffer;
    }
  }

  /** An acquisition returns only a payload of the expected length, and accounts for every byte;
      every other outcome but an error frame leaves the client disconnected. */
  lemma AcquireOutcomes(c: Conn, expected: Option<nat>, answer: Bytes, arrivals: seq<Arrival>)
    ensures var (after, r) := SendAcquire(c, expected, answer, arrivals);
      if r.Ok? then Delivered(c, after, expected, answer, r.body)
      else !after.connected || (r == ProtocolError && Refused(c, after, answer))
  {
    var read := BinaryRead(expected, c.wire + answer, arrivals);
    ReadConserves(BinaryStop(expected), BINARY_LIMIT, [], c.wire + answer, arrivals);
    assert [] + (c.wire + answer) == c.wire + answer;
    if c.connected {
      ReadOutcomes(c, expected, answer, read);
    }
  }

  /** The outcomes of a command by what was read: a reply or an error reply, every byte accounted for
      and the watcher on, or a lost connection. */
  ghost predicate Told(c: Conn, after: Conn, answer: Bytes, r: Reply) {
    if r == NotConnected then !after.connected
    else
      && after.connected && after.watching && after.generation == c.generation
      && exists text ::
           text + after.wire == c.wire + answer && r == if IsErrorFrame(text) then ProtocolError else Ok(text)
  }

  lemma TextOutcomes(c: Conn, answer: Bytes, read: Read)
    requires c.connected && (read.Frame? ==> read.buffer + read.rest == c.wire + answer)
    ensures var (after, r) := AfterText(c, read); Told(c, after, answer, r)
  {
  }

  lemma CommandOutcomes(c: Conn, answer: Bytes, arrivals: seq<Arrival>)
    ensures var (after, r) := SendCommand(c, answer, arrivals); Told(c, after, answer, r)
  {
    ReadConserves(TextStops, TEXT_LIMIT, [], c.wire + answer, arrivals);
    assert [] + (c.wire + answer) == c.wire + answer;
    if c.connected {
      TextOutcomes(c, answer, TextRead(c.wire + answer, arrivals));
    }
  }

  /** Whatever arrives while the watcher is on, one byte or the end of the stream, drops the connection;
      nothing else that happens between two requests does. */
  lemma IdleExactly(c: Conn, stray: Bytes, eof: bool)
    requires c.connected
    ensures Idle(c, stray, eof).connected <==> !c.watching || (!eof && c.wire == [] && stray == [])
    ensures Idle(c, stray, eof).connected ==> Idle(c, stray, eof) == c.(wire := c.wire + stray)
  {
    assert c.wire + stray == [] <==> c.wire == [] && stray == [];
  }

  // ----- Runs -----

  datatype Action =
    | Command(arrivals: seq<Arrival>)
    | Acquisition(expected: Option<nat>, arrivals: seq<Arrival>)
    | CommandTimeout
    | Between(stray: Bytes, eof: bool)
    | Reconnect(a: seq<Arrival>, b: seq<Arrival>, parses: bool)

  /** `answers(k)` is everything the vendor sends in answer to request `k`. A command that the
      caller times out leaves its answer on the wire and is followed by `reset`, in one step. */
  function Step(c: Conn, action: Action, answers: nat -> Bytes): (Conn, Option<Reply>) {
    match action
    case Command(arrivals) => var (d, r) := SendCommand(c, answers(c.sent), arrivals); (d, Some(r))
    case Acquisition(expected, arrivals) =>
      var (d, r) := SendAcquire(c, expected, answers(c.sent), arrivals); (d, Some(r))
    case CommandTimeout =>
      (Drop(if c.connected then c.(sent := c.sent + 1, wire := c.wire + answers(c.sent)) else c), None)
    case Between(stray, eof) => (Idle(c, stray, eof), None)
    case Reconnect(a, b, parses) => (Connect(c, answers(c.sent), answers(c.sent + 1), a, b, parses), None)
  }

  /** The state after the first `n` actions. */
  function After(c: Conn, actions: seq<Action>, answers: nat -> Bytes, n: nat): Conn
    requires n <= |actions|
  {
    if n == 0 then c else Step(After(c, actions, answers, n - 1), actions[n - 1], answers).0
  }

  /** The action puts a request on the wire. */
  predicate Sends(c: Conn, action: Action) {
    match action
    case Between(_, _) => false
    case Reconnect(_, _, _) => !c.connected
    case _ => c.connected
  }

  /** No two requests have the same number. */
  lemma RequestsNumbered(c: Conn, action: Action, answers: nat -> Bytes)
    ensures var d := Step(c, action, answers).0; if Sends(c, action) then d.sent > c.sent else d.sent == c.sent
  {
  }

  function WithSentinel(bodies: nat -> Bytes): nat -> Bytes {
    (k: nat) => bodies(k) + DONE
  }

  /** The whole of an answer of `n` bytes arrives in one piece, or nothing does. */
  predicate AtOnce(arrivals: seq<Arrival>, n: nat) {
    n <= TEXT_LIMIT && (arrivals != [] && arrivals[0].Chunk? ==> arrivals[0].size >= n)
  }

  /** The vendor answers the requests that this action sends as the protocol asks, with an error
      message if it likes; one in answer to a command arrives in one piece. Something else may arrive
      only while the watcher is on. Nothing is asked of the vendor when a request meets a lost
      connection or a reconnection a live one. */
  ghost predicate Honest(c: Conn, action: Action, bodies: nat -> Bytes) {
    match action
    case Command(arrivals) => c.connected ==>
      TextBody(bodies(c.sent)) || (IsErrorFrame(bodies(c.sent)) && AtOnce(arrivals, |bodies(c.sent) + DONE|))
    case Acquisition(expected, _) => c.connected ==> BinaryBody(bodies(c.sent), expected)
    case CommandTimeout => true
    case Between(stray, _) => c.connected && !c.watching ==> stray == []
    case Reconnect(_, _, _) => !c.connected ==> TextBody(bodies(c.sent)) && TextBody(bodies(c.sent + 1))
  }

  /** Nothing is unread. */
  ghost predicate Clean(c: Conn) {
    c.wire == []
  }

  /** The reply to a request with this answer, or a lost connection. */
  ghost predicate Matches(r: Reply, action: Action, body: Bytes) {
    || r == NotConnected
    || r == if IsErrorFrame(body) then ProtocolError else Ok(if action.Command? then body + DONE else body)
  }

  lemma TextReadWhole(body: Bytes, arrivals: seq<Arrival>)
    requires TextBody(body)
    ensures var read := TextRead(body + DONE, arrivals);
      && (read.Frame? ==> read == Frame(body + DONE, []))
      && (Flowing(arrivals) && |arrivals| >= |body + DONE| ==> read.Frame?)
  {
    TextSelfDelimiting(body);
    AnyChunking(TextStops, TEXT_LIMIT, body + DONE, 0, arrivals);
    assert (body + DONE)[..0] == [] && (body + DONE)[0..] == body + DONE;
  }

  lemma HonestCommand(c: Conn, body: Bytes, arrivals: seq<Arrival>)
    requires Clean(c) && TextBody(body)
    ensures var (d, r) := SendCommand(c, body + DONE, arrivals); Clean(d) && (r == NotConnected || r == Ok(body + DONE))
    ensures var r := SendCommand(c, body + DONE, arrivals).1;
      c.connected && Flowing(arrivals) && |arrivals| >= |body + DONE| ==> r == Ok(body + DONE)
  {
    TextReadWhole(body, arrivals);
    assert [] + (body + DONE) == body + DONE;
  }

  lemma ErrorOfBody(body: Bytes)
    requires IsErrorFrame(body)
    ensures IsErrorFrame(body + DONE)
  {
    assert (body + DONE)[..|body|] == body;
    ErrorOfPrefix(body + DONE, |body|);
  }

  lemma ReadOfError(answer: Bytes, arrivals: seq<Arrival>)
    requires IsErrorFrame(answer)
    ensures var read := TextRead(answer, arrivals);
      && (read.Frame? ==> IsErrorFrame(read.buffer) && read.buffer + read.rest == answer)
      && (Flowing(arrivals) && |arrivals| >= |answer| ==> read.Frame?)
  {
    var read := TextRead(answer, arrivals);
    assert answer[..0] == [] && answer[0..] == answer && [] + answer == answer;
    ReadConserves(TextStops, TEXT_LIMIT, [], answer, arrivals);
    if read.Frame? {
      assert answer[..|read.buffer|] == read.buffer;
      ErrorStopsBehindMark(answer, |read.buffer|);
    }
    if Flowing(arrivals) && |arrivals| >= |answer| {
      MarkStops(answer);
      FlowEndsInFrame(TextStops, TEXT_LIMIT, answer, 0, arrivals);
    }
  }

  /** An error message in answer to a command is never taken for a reply, however it is cut up and
      whether or not a sentinel ends it: it is reported and keeps the connection, the watcher on; and it
      is reported whenever the bytes keep coming. */
  lemma RefusedCommand(c: Conn, answer: Bytes, arrivals: seq<Arrival>)
    requires c.connected && Clean(c) && IsErrorFrame(answer)
    ensures var (d, r) := SendCommand(c, answer, arrivals);
      if d.connected then r == ProtocolError && d.watching else r == NotConnected
    ensures Flowing(arrivals) && |arrivals| >= |answer| ==> SendCommand(c, answer, arrivals).1 == ProtocolError
  {
    ReadOfError(answer, arrivals);
    assert c.wire + answer == answer;
  }

  /** One that arrives in one piece leaves nothing unread. */
  lemma RefusedAtOnce(c: Conn, body: Bytes, arrivals: seq<Arrival>)
    requires c.connected && Clean(c) && IsErrorFrame(body) && AtOnce(arrivals, |body + DONE|)
    ensures Clean(SendCommand(c, body + DONE, arrivals).0)
  {
    TextWholeStops(body);
    NothingStops();
    OnePiece(TextStops, TEXT_LIMIT, body + DONE, arrivals);
    assert c.wire + (body + DONE) == body + DONE;
  }

  lemma StoppedCommand(c: Conn, answer: Bytes, first: Bytes, rest: Bytes)
    requires c.connected && c.wire + answer == first + rest && 0 < |first| <= TEXT_LIMIT && TextStops(first)
    ensures SendCommand(c, answer, [Chunk(|first|)]) == AfterText(c, Frame(first, rest))
  {
    TextStopsAtOnce(c.wire + answer, first, rest);
  }

  /** Cut behind its mark it leaves its end unread. What is left may then be taken for the reply to the
      next command, unless the watcher comes first. */
  lemma CutRefusal(c: Conn, first: Bytes, rest: Bytes)
    requires c.connected && c.wire == [] && |first| <= TEXT_LIMIT && IsErrorFrame(first)
    requires rest != []
    ensures var (d, r) := SendCommand(c, first + rest, [Chunk(|first|)]);
      r == ProtocolError && d.connected && d.wire == rest && !Idle(d, [], false).connected
  {
    assert c.wire + (first + rest) == first + rest;
    MarkStops(first);
    StoppedCommand(c, first + rest, first, rest);
  }

  lemma LeftoverDesyncs(c: Conn, answer: Bytes)
    requires c.connected && 0 < |c.wire| <= TEXT_LIMIT && TextStops(c.wire) && !IsErrorFrame(c.wire)
    ensures SendCommand(c, answer, [Chunk(|c.wire|)]).1 == Ok(c.wire)
  {
    StoppedCommand(c, answer, c.wire, answer);
  }

  lemma HonestAcquire(c: Conn, expected: Option<nat>, body: Bytes, arrivals: seq<Arrival>)
    requires Clean(c) && BinaryBody(body, expected)
    ensures var (d, r) := SendAcquire(c, expected, body + DONE, arrivals);
      Clean(d) && (r == NotConnected || r == if IsErrorFrame(body) then ProtocolError else Ok(body))
    ensures var r := SendAcquire(c, expected, body + DONE, arrivals).1;
      c.connected && Flowing(arrivals) && |arrivals| >= |body + DONE| ==> r != NotConnected
  {
    BinarySelfDelimiting(body, expected);
    AnyChunking(BinaryStop(expected), BINARY_LIMIT, body + DONE, 0, arrivals);
    assert (body + DONE)[..0] == [] && (body + DONE)[0..] == body + DONE && [] + (body + DONE) == body + DONE;
    assert (body + DONE)[..|body + DONE| - |DONE|] == body;
  }

  lemma HonestConnect(c: Conn, first: Bytes, second: Bytes, a: seq<Arrival>, b: seq<Arrival>, parses: bool)
    requires Clean(c) && TextBody(first) && TextBody(second)
    ensures Clean(Connect(c, first + DONE, second + DONE, a, b, parses))
    ensures var d := Connect(c, first + DONE, second + DONE, a, b, parses);
      && (!c.connected && Flowing(a) && |a| >= |first + DONE| && Flowing(b) && |b| >= |second + DONE| ==>
            (d.connected <==> parses))
      && (!c.connected && d.connected ==>
            parses && d.watching && d.generation == c.generation + 1 && d.sent == c.sent + 2)
  {
    TextReadWhole(first, a);
    TextReadWhole(second, b);
    assert [] + (second + DONE) == second + DONE;
  }

  lemma ConnectClean(c: Conn, x: Bytes, y: Bytes, first: Bytes, second: Bytes, a: seq<Arrival>, b: seq<Arrival>,
          parses: bool)
    requires Clean(c) && TextBody(first) && TextBody(second) && x == first + DONE && y == second + DONE
    ensures Clean(Connect(c, x, y, a, b, parses))
  {
    HonestConnect(c, first, second, a, b, parses);
  }

  /** After this step nothing is unread, and a reply answers its own request. */
  ghost predicate Faithful(c: Conn, action: Action, bodies: nat -> Bytes) {
    var (d, r) := Step(c, action, WithSentinel(bodies));
    Clean(d) && (r.Some? ==> Matches(r.value, action, bodies(c.sent)))
  }

  lemma FaithfulCommand(c: Conn, arrivals: seq<Arrival>, bodies: nat -> Bytes)
    requires c.connected && Clean(c) && Honest(c, Command(arrivals), bodies)
    ensures Faithful(c, Command(arrivals), bodies)
  {
    var body := bodies(c.sent);
    if IsErrorFrame(body) {
      ErrorOfBody(body);
      RefusedCommand(c, body + DONE, arrivals);
      RefusedAtOnce(c, body, arrivals);
    } else {
      HonestCommand(c, body, arrivals);
    }
  }

  lemma FaithfulAcquire(c: Conn, expected: Option<nat>, arrivals: seq<Arrival>, bodies: nat -> Bytes)
    requires Clean(c) && BinaryBody(bodies(c.sent), expected)
    ensures Faithful(c, Acquisition(expected, arrivals), bodies)
  {
    HonestAcquire(c, expected, bodies(c.sent), arrivals);
  }

  lemma ReconnectFaithful(c: Conn, a: seq<Arrival>, b: seq<Arrival>, parses: bool, bodies: nat -> Bytes)
    requires Clean(Connect(c, WithSentinel(bodies)(c.sent), WithSentinel(bodies)(c.sent + 1), a, b, parses))
    ensures Faithful(c, Reconnect(a, b, parses), bodies)
  {
  }

  lemma FaithfulReconnect(c: Conn, a: seq<Arrival>, b: seq<Arrival>, parses: bool, bodies: nat -> Bytes)
    requires Clean(c) && TextBody(bodies(c.sent)) && TextBody(bodies(c.sent + 1))
    ensures Faithful(c, Reconnect(a, b, parses), bodies)
  {
    var x, y := WithSentinel(bodies)(c.sent), WithSentinel(bodies)(c.sent + 1);
    ConnectClean(c, x, y, bodies(c.sent), bodies(c.sent + 1), a, b, parses);
    ReconnectFaithful(c, a, b, parses, bodies);
  }

  lemma HonestStep(c: Conn, action: Action, bodies: nat -> Bytes)
    requires Clean(c) && Honest(c, action, bodies)
    ensures Faithful(c, action, bodies)
  {
    match action
    case Command(arrivals) =>
      if c.connected {
        FaithfulCommand(c, arrivals, bodies);
      }
    case Acquisition(expected, arrivals) =>
      if c.connected {
        FaithfulAcquire(c, expected, arrivals, bodies);
      }
    case CommandTimeout =>
    case Between(stray, eof) =>
      if c.connected {
        IdleExactly(c, stray, eof);
      }
    case Reconnect(a, b, parses) =>
      if !c.connected {
        FaithfulReconnect(c, a, b, parses, bodies);
      }
  }

  ghost predicate HonestAt(c: Conn, actions: seq<Action>, bodies: nat -> Bytes, i: nat)
    requires i < |actions|
  {
    Honest(After(c, actions, WithSentinel(bodies), i), actions[i], bodies)
  }

  ghost predicate HonestRun(c: Conn, actions: seq<Action>, bodies: nat -> Bytes) {
    forall i :: 0 <= i < |actions| ==> HonestAt(c, actions, bodies, i)
  }

  lemma HonestStepAt(c: Conn, actions: seq<Action>, bodies: nat -> Bytes, i: nat)
    requires i < |actions| && HonestAt(c, actions, bodies, i)
    requires Clean(After(c, actions, WithSentinel(bodies), i))
    ensures Clean(After(c, actions, WithSentinel(bodies), i + 1))
    ensures Faithful(After(c, actions, WithSentinel(bodies), i), actions[i], bodies)
  {
    HonestStep(After(c, actions, WithSentinel(bodies), i), actions[i], bodies);
  }

  lemma HonestRunStep(c: Conn, actions: seq<Action>, bodies: nat -> Bytes, i: nat)
    requires i < |actions| && HonestRun(c, actions, bodies)
    requires Clean(After(c, actions, WithSentinel(bodies), i))
    ensures Clean(After(c, actions, WithSentinel(bodies), i + 1))
    ensures Faithful(After(c, actions, WithSentinel(bodies), i), actions[i], bodies)
  {
    assert HonestAt(c, actions, bodies, i);
    HonestStepAt(c, actions, bodies, i);
  }

  /** Between the steps of an honest run nothing is left unread. */
  lemma {:induction false} HonestRunClean(c: Conn, actions: seq<Action>, bodies: nat -> Bytes, n: nat)
    requires Clean(c) && HonestRun(c, actions, bodies) && n <= |actions|
    ensures Clean(After(c, actions, WithSentinel(bodies), n))
  {
    if n > 0 {
      HonestRunClean(c, actions, bodies, n - 1);
      HonestRunStep(c, actions, bodies, n - 1);
    }
  }

  /** Through any run of requests, timeouts, closures and reconnections with an honest vendor,
      however its bytes are cut up, each reply answers the very request it was read for. */
  lemma RepliesMatchRequests(c: Conn, actions: seq<Action>, bodies: nat -> Bytes, n: nat)
    requires Clean(c) && HonestRun(c, actions, bodies) && n < |actions|
    ensures Faithful(After(c, actions, WithSentinel(bodies), n), actions[n], bodies)
  {
    HonestRunClean(c, actions, bodies, n);
    HonestRunStep(c, actions, bodies, n);
  }

  /** A request that meets a lost connection is not sent: it uses up no answer, whatever its kind. */
  lemma LostRequestsUseNoAnswer(c: Conn, action: Action, bodies: nat -> Bytes)
    requires !c.connected && (action.Command? || action.Acquisition?)
    ensures Honest(c, action, bodies) && Step(c, action, WithSentinel(bodies)) == (c, Some(NotConnected))
  {
  }

  /** `d` is `c` with its connection lost, or belongs to a later connection. */
  ghost predicate Later(c: Conn, d: Conn) {
    d.generation >= c.generation && (d.connected ==> d.generation > c.generation)
  }

  lemma StepLater(c: Conn, d: Conn, action: Action, answers: nat -> Bytes)
    requires Later(c, d)
    ensures Later(c, Step(d, action, answers).0)
  {
  }

  /** Whatever the vendor sends, a dropped connection never comes back: any later connected state
      belongs to a later connection. */
  lemma {:induction false} DroppedForGood(c: Conn, actions: seq<Action>, answers: nat -> Bytes, n: nat)
    requires !c.connected && n <= |actions|
    ensures Later(c, After(c, actions, answers, n))
  {
    if n > 0 {
      DroppedForGood(c, actions, answers, n - 1);
      StepLater(c, After(c, actions, answers, n - 1), actions[n - 1], answers);
    }
  }
}
