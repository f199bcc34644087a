/** Batched intensity runs and paced gated sweeps (acquisition.py). The vendor is a function
    giving the frame it captures; what it sends is that frame on the wire. */
module Acquisition {
  import opened Bytes
  import opened Codec
  import opened Guard
  import opened Seqs

  // ----- Batched intensity -----

  /** Frames `a` to `b` of the scene, numbered from the start of the run. */
  function Frames(scene: nat -> Frame, a: nat, b: nat): (s: seq<Frame>)
    requires a <= b
    ensures |s| == b - a && forall i :: 0 <= i < b - a ==> s[i] == scene(a + i)
  {
    seq(b - a, i requires 0 <= i < b - a => scene(a + i))
  }

  /** The boundaries at which a stop is seen first: `n` batches done when there is none. */
  function BatchesDone(stops: nat -> bool, k: nat, n: nat): (done: nat)
    requires k < n
    ensures k < done <= n
    ensures forall i :: k <= i < done - 1 ==> !stops(i)
    ensures done < n ==> stops(done - 1)
    decreases n - k
  {
    if stops(k) || k + 1 == n then k + 1 else BatchesDone(stops, k + 1, n)
  }

  lemma {:induction false} BatchesDoneIs(stops: nat -> bool, j: nat, k: nat, n: nat)
    requires j < k <= n && (stops(k - 1) || k == n)
    requires forall i :: j <= i < k - 1 ==> !stops(i)
    ensures BatchesDone(stops, j, n) == k
    decreases k - j
  {
    if j + 1 < k {
      BatchesDoneIs(stops, j + 1, k, n);
    }
  }

  function BatchCount(iterations: nat): nat {
    (iterations + BATCH_SIZE - 1) / BATCH_SIZE
  }

  /** How many frames a run completes, and whether it was stopped. */
  function Outcome(iterations: nat, stops: nat -> bool): (nat, bool) {
    if iterations <= BATCH_SIZE then (iterations, false)
    else
      var done := BatchesDone(stops, 0, BatchCount(iterations));
      (if done * BATCH_SIZE < iterations then done * BATCH_SIZE else iterations, stops(done - 1))
  }

  predicate SceneFits(scene: nat -> Frame, rows: nat, width: nat, n: nat) {
    forall i :: 0 <= i < n ==> scene(i).rows == rows && scene(i).cols == width && |scene(i).px| == rows * width
  }

  /** Frames `a` to `b` of the scene on the wire. */
  function SceneBytes(scene: nat -> Frame, encode: Frame -> Bytes, a: nat, b: nat): Bytes
    requires a <= b
  {
    ConcatMap(encode, Frames(scene, a, b))
  }

  lemma SceneGrows(scene: nat -> Frame, encode: Frame -> Bytes, a: nat, b: nat)
    requires a <= b
    ensures SceneBytes(scene, encode, 0, b) == SceneBytes(scene, encode, 0, a) + SceneBytes(scene, encode, a, b)
  {
    assert Frames(scene, 0, b) == Frames(scene, 0, a) + Frames(scene, a, b);
    ConcatAppend(encode, Frames(scene, 0, a), Frames(scene, a, b));
  }

  lemma OutcomeIs(iterations: nat, stops: nat -> bool, k: nat, aborted: bool)
    requires iterations > BATCH_SIZE && 0 < k && (k - 1) * BATCH_SIZE < iterations
    requires forall i :: 0 <= i < k - 1 ==> !stops(i)
    requires aborted == stops(k - 1) && (aborted || k * BATCH_SIZE >= iterations)
    ensures Outcome(iterations, stops) == (Min(k * BATCH_SIZE, iterations), aborted)
  {
    BatchesDoneIs(stops, 0, k, BatchCount(iterations));
  }

  /** The commands and polls of the first `k` batches. */
  ghost function BatchLog(iterations: nat, pileup: bool, k: nat): seq<Cmd> {
    if k == 0 || (k - 1) * BATCH_SIZE >= iterations then []
    else BatchLog(iterations, pileup, k - 1)
         + [SetPileup(pileup), Guard.Acquire(Min(BATCH_SIZE, iterations - (k - 1) * BATCH_SIZE)), Boundary]
  }

  /** They are a prefix of the script that the guard's safety is proved for. */
  lemma {:induction false} BatchLogIsPrefix(iterations: nat, pileup: bool, k: nat)
    requires k == 0 || (k - 1) * BATCH_SIZE < iterations
    ensures BatchLog(iterations, pileup, k) + Batches(iterations - Min(k * BATCH_SIZE, iterations), pileup)
         == Batches(iterations, pileup)
  {
    if k > 0 {
      BatchLogIsPrefix(iterations, pileup, k - 1);
    }
  }

  /** The batch loop. The vendor answers a request for `n` frames with the next `n` of the scene;
      `log` is what goes over the socket, and the health polls between. */
  method AcquireBatches(iterations: nat, pileup: bool, scene: nat -> Frame, encode: Frame -> Bytes, stops: nat -> bool)
    returns (data: Bytes, completed: nat, aborted: bool, ghost batches: nat, ghost log: seq<Cmd>)
    requires iterations > BATCH_SIZE
    ensures (completed, aborted) == Outcome(iterations, stops)
    ensures data == SceneBytes(scene, encode, 0, completed)
    ensures batches > 0 && (batches - 1) * BATCH_SIZE < iterations
      && completed == Min(batches * BATCH_SIZE, iterations)
    ensures log == BatchLog(iterations, pileup, batches)
  {
    data, completed, aborted, log := [], 0, false, [];
    var k := 0;
    while completed < iterations
      invariant !aborted && completed == Min(k * BATCH_SIZE, iterations)
        && (k > 0 ==> (k - 1) * BATCH_SIZE < iterations)
      invariant forall i :: 0 <= i < k ==> !stops(i)
      invariant data == SceneBytes(scene, encode, 0, completed)
      invariant log == BatchLog(iterations, pileup, k)
      decreases iterations - completed
    {
      var batch := Min(BATCH_SIZE, iterations - completed);
      var chunk := SceneBytes(scene, encode, completed, completed + batch);
      SceneGrows(scene, encode, completed, completed + batch);
      log := log + [SetPileup(pileup), Guard.Acquire(batch), Boundary];
      data, completed, k := data + chunk, completed + batch, k + 1;
      if stops(k - 1) {
        aborted := true;
        break;
      }
    }
    batches := k;
    OutcomeIs(iterations, stops, k, aborted);
  }

  /** `stops(k)` tells whether a stop is requested when boundary `k` is reached. */
  method AcquireIo(iterations: nat, pileup: bool, scene: nat -> Frame, encode: Frame -> Bytes, stops: nat -> bool)
    returns (data: Bytes, completed: nat, aborted: bool, ghost log: seq<Cmd>)
    ensures (completed, aborted) == Outcome(iterations, stops) && completed <= iterations
    ensures data == SceneBytes(scene, encode, 0, completed)
    ensures log <= IntensityScript(iterations, pileup)
    ensures completed == iterations ==> log == IntensityScript(iterations, pileup)
  {
    if iterations <= BATCH_SIZE {
      return SceneBytes(scene, encode, 0, iterations), iterations, false, IntensityScript(iterations, pileup);
    }
    ghost var k;
    data, completed, aborted, k, log := AcquireBatches(iterations, pileup, scene, encode, stops);
    BatchLogIsPrefix(iterations, pileup, k);
  }

  /** A stop takes effect only after whole batches, or after the last frame; without one every
      frame is there. */
  lemma OutcomeBoundaries(iterations: nat, stops: nat -> bool)
    ensures var (completed, aborted) := Outcome(iterations, stops);
      && (!aborted ==> completed == iterations)
      && (aborted ==> completed == iterations || completed % BATCH_SIZE == 0)
      && (aborted <==> iterations > BATCH_SIZE && exists k :: 0 <= k < BatchCount(iterations) && stops(k))
  {
  }

  /** More than ten frames come in batches of ten, and the run ends behind the first batch after which a
      stop is seen. */
  lemma OutcomeExactly(iterations: nat, stops: nat -> bool) returns (k: nat)
    requires iterations > 10
    ensures var (completed, aborted) := Outcome(iterations, stops);
      && 10 * k < iterations && completed == Min(10 * (k + 1), iterations)
      && (forall i :: 0 <= i < k ==> !stops(i)) && (aborted <==> stops(k)) && (aborted || completed == iterations)
  {
    k := BatchesDone(stops, 0, BatchCount(iterations)) - 1;
  }

  /** However it was cut into batches, the stack is the unbatched one up to the last completed
      frame, and the payload is that many frames long. */
  lemma BatchedDecodesAlike(iterations: nat, completed: nat, fmt: Format, scene: nat -> Frame)
    requires completed <= iterations && SceneFits(scene, fmt.rows, fmt.width, iterations)
    requires fmt.bitDepth == 1 ==> fmt.rows * fmt.rows % 8 == 0
    ensures var encode := Encoder(fmt.bitDepth, fmt.pileup, fmt.rows);
      var part, whole := SceneBytes(scene, encode, 0, completed), SceneBytes(scene, encode, 0, iterations);
      && |part| == fmt.Size(completed, fmt.pileup) && |whole| == fmt.Size(iterations, fmt.pileup)
      && DecodeAll(part, fmt.bitDepth, fmt.rows, fmt.width, completed, fmt.pileup)
         == DecodeAll(whole, fmt.bitDepth, fmt.rows, fmt.width, iterations, fmt.pileup)[..completed]
  {
    StackRoundTrip(Frames(scene, 0, completed), fmt.bitDepth, fmt.pileup, fmt.rows, fmt.width);
    StackRoundTrip(Frames(scene, 0, iterations), fmt.bitDepth, fmt.pileup, fmt.rows, fmt.width);
    assert SeenAll(Frames(scene, 0, completed), fmt.bitDepth, fmt.pileup, fmt.rows)
        == SeenAll(Frames(scene, 0, iterations), fmt.bitDepth, fmt.pileup, fmt.rows)[..completed];
  }
}
