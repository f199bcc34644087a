/** The three wire layouts of a frame: what the mock encodes (synthetic_data.py) and what the
    bridge decodes (decoder.py). */
module Codec {
  import opened Bytes
  import opened Options
  import opened Seqs

  /** A `rows` by `cols` image, row by row. */
  datatype Frame = Frame(rows: nat, cols: nat, px: seq<nat>) {
    ghost predicate Valid() {
      |px| == rows * cols
    }
  }

  const SENSOR_ROWS: nat := 512

  lemma MulMono(a: nat, b: nat, d: nat)
    requires a <= b
    ensures a * d <= b * d
  {
  }

  lemma DivModUnique(k: nat, d: nat, q: nat, m: nat)
    requires d > 0 && k == q * d + m && m < d
    ensures k / d == q && k % d == m
  {
    var a := k / d;
    if a < q {
      MulMono(a + 1, q, d);
    } else if a > q {
      MulMono(q + 1, a, d);
    }
  }

  lemma IndexInside(r: nat, c: nat, rows: nat, cols: nat)
    requires r < rows && c < cols
    ensures 0 <= r * cols + c < rows * cols
    ensures (r * cols + c) / cols == r && (r * cols + c) % cols == c
  {
    MulMono(r + 1, rows, cols);
    DivModUnique(r * cols + c, cols, r, c);
  }

  lemma RowColInside(k: nat, rows: nat, cols: nat)
    requires k < rows * cols
    ensures cols > 0 && k / cols < rows && k % cols < cols && k / cols * cols + k % cols == k
  {
    assert cols > 0;
    if rows <= k / cols {
      MulMono(rows, k / cols, cols);
    }
  }

  /** Pixel (`r`, `c`); zero outside the frame. */
  function At(f: Frame, r: nat, c: nat): nat {
    if r < f.rows && c < f.cols && r * f.cols + c < |f.px| then f.px[r * f.cols + c] else 0
  }

  // ----- Sizes -----

  /** Wire size of one frame. */
  function BytesPerFrame(bitDepth: nat, rows: nat, width: nat, pileup: bool): nat {
    if bitDepth == 1 then rows * rows / 8
    else if bitDepth < 9 && !pileup then rows * width
    else rows * width * 2
  }

  // ----- Packed bits -----

  function Bit(b: bool): nat {
    if b then 1 else 0
  }

  function Pow2(n: nat): nat {
    if n == 0 then 1 else 2 * Pow2(n - 1)
  }

  /** The number written by the bits, most significant first. */
  function Value(b: seq<bool>): (v: nat)
    ensures v < Pow2(|b|)
  {
    if b == [] then 0 else 2 * Value(b[..|b| - 1]) + Bit(b[|b| - 1])
  }

  /** The last `n` binary digits of `v`, most significant first. */
  function Digits(v: nat, n: nat): (b: seq<bool>)
    ensures |b| == n
  {
    if n == 0 then [] else Digits(v / 2, n - 1) + [v % 2 == 1]
  }

  lemma {:induction false} DigitsOfValue(b: seq<bool>)
    ensures Digits(Value(b), |b|) == b
  {
    if b != [] {
      DigitsOfValue(b[..|b| - 1]);
    }
  }

  function ByteOf(b: seq<bool>): byte
    requires |b| == 8
  {
    assert Pow2(4) == 16 && Pow2(8) == 256;
    Value(b) as byte
  }

  function BitsOf(x: byte): (b: seq<bool>)
    ensures |b| == 8
  {
    Digits(x as nat, 8)
  }

  lemma ByteRoundTrip(b: seq<bool>)
    requires |b| == 8
    ensures BitsOf(ByteOf(b)) == b
  {
    DigitsOfValue(b);
  }

  /** Most significant bit first; the last byte is filled up with zeros. */
  function Pack(bits: seq<bool>): Bytes {
    if |bits| == 0 then []
    else if |bits| < 8 then [ByteOf(bits + seq(8 - |bits|, i => false))]
    else [ByteOf(bits[..8])] + Pack(bits[8..])
  }

  function Unpack(data: Bytes): (bits: seq<bool>)
    ensures |bits| == 8 * |data|
  {
    if data == [] then [] else BitsOf(data[0]) + Unpack(data[1..])
  }

  lemma {:induction false} PackRoundTrip(bits: seq<bool>)
    requires |bits| % 8 == 0
    ensures |Pack(bits)| == |bits| / 8 && Unpack(Pack(bits)) == bits
  {
    if |bits| > 0 {
      PackRoundTrip(bits[8..]);
      ByteRoundTrip(bits[..8]);
      assert Pack(bits)[1..] == Pack(bits[8..]);
      assert bits == bits[..8] + bits[8..];
    }
  }

  // ----- One frame -----

  /** The frame binarised and padded with zeros to `s` columns, row by row. A single row is repeated
      down the image. */
  function PaddedBits(f: Frame, s: nat): (bits: seq<bool>)
    ensures |bits| == s * s
  {
    seq(s * s, k requires 0 <= k < s * s => s > 0 && At(f, if f.rows == 1 then 0 else k / s, k % s) > 0)
  }

  /** Low byte first; the cast to 16 bits drops what does not fit. */
  function Pairs(px: seq<nat>): (data: Bytes)
    ensures |data| == 2 * |px|
  {
    if px == [] then []
    else [(px[0] % 256) as byte, (px[0] / 256 % 256) as byte] + Pairs(px[1..])
  }

  function FromPairs(data: Bytes): (px: seq<nat>)
    ensures |px| == |data| / 2
  {
    if |data| < 2 then [] else [data[0] as nat + 256 * data[1] as nat] + FromPairs(data[2..])
  }

  function LowBytes(px: seq<nat>): Bytes {
    seq(|px|, i requires 0 <= i < |px| => (px[i] % 256) as byte)
  }

  function FromBytes(data: Bytes): seq<nat> {
    seq(|data|, i requires 0 <= i < |data| => data[i] as nat)
  }

  function EncodeOne(f: Frame, bitDepth: nat, pileup: bool, s: nat): Bytes {
    if bitDepth == 1 then Pack(PaddedBits(f, s))
    else if bitDepth < 9 && !pileup then LowBytes(f.px)
    else Pairs(f.px)
  }

  /** A quarter turn counter-clockwise of a square bit image. */
  function Turned(bits: seq<bool>, s: nat): Frame {
    Frame(s, s, seq(s * s, k requires 0 <= k < s * s => TurnedBit(bits, s, k)))
  }

  /** Position `k` of the turned image shows column `s - 1 - k / s` of row `k % s`. */
  function TurnedBit(bits: seq<bool>, s: nat, k: nat): nat
    requires k < s * s
  {
    RowColInside(k, s, s);
    var from := k % s * s + (s - 1 - k / s);
    if from < |bits| then Bit(bits[from]) else 0
  }

  function DecodeOne(chunk: Bytes, bitDepth: nat, rows: nat, width: nat, pileup: bool): Frame {
    if bitDepth == 1 then Turned(Unpack(chunk), rows)
    else if bitDepth < 9 && !pileup then Frame(rows, width, FromBytes(chunk))
    else Frame(rows, width, FromPairs(chunk))
  }

  /** What the bridge makes of a frame the vendor encodes. */
  function Seen(f: Frame, bitDepth: nat, pileup: bool, s: nat): Frame {
    if bitDepth == 1 then Turned(PaddedBits(f, s), s)
    else if bitDepth < 9 && !pileup then Frame(f.rows, f.cols, seq(|f.px|, i requires 0 <= i < |f.px| => f.px[i] % 256))
    else Frame(f.rows, f.cols, seq(|f.px|, i requires 0 <= i < |f.px| => f.px[i] % 65536))
  }

  lemma TwoBytes(n: nat)
    ensures n % 256 + 256 * (n / 256 % 256) == n % 65536
  {
    DivModUnique(n, 65536, n / 256 / 256, n % 256 + 256 * (n / 256 % 256));
  }

  lemma {:induction false} PairsRoundTrip(px: seq<nat>)
    ensures FromPairs(Pairs(px)) == seq(|px|, i requires 0 <= i < |px| => px[i] % 65536)
  {
    if px != [] {
      PairsRoundTrip(px[1..]);
      assert Pairs(px)[2..] == Pairs(px[1..]);
      TwoBytes(px[0]);
    }
  }

  lemma {:induction false} PairsAt(px: seq<nat>, i: nat)
    requires i < |px|
    ensures Pairs(px)[2 * i] as nat == px[i] % 256 && Pairs(px)[2 * i + 1] as nat == px[i] / 256 % 256
  {
    if i > 0 {
      PairsAt(px[1..], i - 1);
    }
  }

  /** On the wire a value is its low byte, or its low byte followed by the next. */
  lemma ValueOnWire(f: Frame, bitDepth: nat, pileup: bool, s: nat, i: nat)
    requires bitDepth != 1 && i < |f.px|
    ensures var data := EncodeOne(f, bitDepth, pileup, s);
      if bitDepth < 9 && !pileup then data[i] as nat == f.px[i] % 256
      else data[2 * i] as nat == f.px[i] % 256 && data[2 * i + 1] as nat == f.px[i] / 256 % 256
  {
    PairsAt(f.px, i);
  }

  /** The first bit weighs most. */
  lemma {:induction false} FirstBitWeighs(b: seq<bool>)
    requires b != []
    ensures Value(b) == (if b[0] then Pow2(|b| - 1) else 0) + Value(b[1..])
  {
    if |b| > 1 {
      var n := |b| - 1;
      FirstBitWeighs(b[..n]);
      assert b[1..][..n - 1] == b[..n][1..];
    }
  }

  /** Eight pixels to the byte, the first of them the most significant bit. */
  lemma {:induction false} BitsOnWire(bits: seq<bool>, k: nat)
    requires |bits| % 8 == 0 && 8 * k < |bits|
    ensures k < |Pack(bits)| && Pack(bits)[k] as nat == Value(bits[8 * k..8 * k + 8])
  {
    if k > 0 {
      BitsOnWire(bits[8..], k - 1);
      assert bits[8..][8 * (k - 1)..8 * (k - 1) + 8] == bits[8 * k..8 * k + 8];
    } else {
      assert bits[..8] == bits[0..8];
    }
  }

  /** A full frame takes 32 KiB, 256 KiB or 512 KiB. */
  lemma SensorSizes(bitDepth: nat, pileup: bool)
    ensures BytesPerFrame(bitDepth, SENSOR_ROWS, 512, pileup)
      == if bitDepth == 1 then 32768 else if bitDepth <= 8 && !pileup then 262144 else 524288
  {
  }

  lemma OneRoundTrip(f: Frame, bitDepth: nat, pileup: bool, s: nat)
    requires f.Valid() && f.rows == s && (bitDepth == 1 ==> s * s % 8 == 0)
    ensures |EncodeOne(f, bitDepth, pileup, s)| == BytesPerFrame(bitDepth, s, f.cols, pileup)
    ensures DecodeOne(EncodeOne(f, bitDepth, pileup, s), bitDepth, s, f.cols, pileup) == Seen(f, bitDepth, pileup, s)
  {
    if bitDepth == 1 {
      PackRoundTrip(PaddedBits(f, s));
    } else if bitDepth < 9 && !pileup {
      assert FromBytes(LowBytes(f.px)) == Seen(f, bitDepth, pileup, s).px;
    } else {
      PairsRoundTrip(f.px);
    }
  }

  /** A one-byte or two-byte frame comes back unchanged exactly when its values fit. */
  lemma SeenUnchanged(f: Frame, bitDepth: nat, pileup: bool, s: nat)
    requires f.Valid() && f.rows == s && bitDepth != 1
    ensures Seen(f, bitDepth, pileup, s) == f <==>
      forall i :: 0 <= i < |f.px| ==> f.px[i] < if bitDepth < 9 && !pileup then 256 else 65536
  {
    var g := Seen(f, bitDepth, pileup, s);
    if g == f {
      forall i | 0 <= i < |f.px|
        ensures f.px[i] < if bitDepth < 9 && !pileup then 256 else 65536
      {
        assert g.px[i] == f.px[i];
      }
    }
  }

  /** A one-bit frame comes back as the quarter turn of its binarised, zero-padded image:
      row `i`, column `j` shows column `s - 1 - i` of row `j`. */
  lemma SeenTurned(f: Frame, pileup: bool, s: nat, i: nat, j: nat)
    requires f.Valid() && f.rows == s && i < s && j < s
    ensures var g := Seen(f, 1, pileup, s);
      g.Valid() && g.rows == g.cols == s && At(g, i, j) == Bit(At(f, j, s - 1 - i) > 0)
  {
    IndexInside(i, j, s, s);
    IndexInside(j, s - 1 - i, s, s);
  }

  /** A single row is repeated down the image before the turn. */
  lemma SeenRowTurned(f: Frame, pileup: bool, s: nat, i: nat, j: nat)
    requires f.Valid() && f.rows == 1 && i < s && j < s
    ensures At(Seen(f, 1, pileup, s), i, j) == Bit(At(f, 0, s - 1 - i) > 0)
  {
    IndexInside(i, j, s, s);
    IndexInside(j, s - 1 - i, s, s);
  }

  // ----- Frames on the wire -----

  function ConcatMap<T>(one: T -> Bytes, xs: seq<T>): Bytes {
    if xs == [] then [] else ConcatMap(one, xs[..|xs| - 1]) + one(xs[|xs| - 1])
  }

  lemma {:induction false} ConcatAppend<T>(one: T -> Bytes, xs: seq<T>, ys: seq<T>)
    ensures ConcatMap(one, xs + ys) == ConcatMap(one, xs) + ConcatMap(one, ys)
    decreases |ys|
  {
    if ys == [] {
      assert xs + ys == xs;
    } else {
      var n := |ys| - 1;
      assert (xs + ys)[..|xs + ys| - 1] == xs + ys[..n];
      ConcatAppend(one, xs, ys[..n]);
    }
  }

  /** Item `i` of a payload whose items take `per` bytes each. */
  function Chunk(data: Bytes, per: nat, i: nat): Bytes {
    var a := i * per;
    if a + per <= |data| then data[a..a + per] else []
  }

  lemma MulStep(n: nat, per: nat)
    ensures (n + 1) * per == n * per + per
  {
  }

  lemma {:induction false} ConcatLength<T>(one: T -> Bytes, xs: seq<T>, per: nat)
    requires forall x :: x in xs ==> |one(x)| == per
    ensures |ConcatMap(one, xs)| == |xs| * per
  {
    if xs != [] {
      ConcatLength(one, xs[..|xs| - 1], per);
      MulStep(|xs| - 1, per);
    }
  }

  lemma ChunkOfPrefix(before: Bytes, tail: Bytes, per: nat, i: nat)
    requires i * per + per <= |before|
    ensures Chunk(before + tail, per, i) == Chunk(before, per, i)
  {
  }

  lemma ChunkAtEnd(before: Bytes, last: Bytes, per: nat, n: nat)
    requires |before| == n * per && |last| == per
    ensures Chunk(before + last, per, n) == last
  {
  }

  /** Items of equal size are found again at their places. */
  lemma {:induction false} ChunkOfConcat<T>(one: T -> Bytes, xs: seq<T>, per: nat, i: nat)
    requires i < |xs| && forall x :: x in xs ==> |one(x)| == per
    ensures Chunk(ConcatMap(one, xs), per, i) == one(xs[i])
  {
    var n := |xs| - 1;
    ConcatLength(one, xs[..n], per);
    if i < n {
      ChunkOfConcat(one, xs[..n], per, i);
      MulMono(i + 1, n, per);
      MulStep(i, per);
      ChunkOfPrefix(ConcatMap(one, xs[..n]), one(xs[n]), per, i);
    } else {
      ChunkAtEnd(ConcatMap(one, xs[..n]), one(xs[n]), per, n);
    }
  }

  function Encoder(bitDepth: nat, pileup: bool, s: nat): Frame -> Bytes {
    (f: Frame) => EncodeOne(f, bitDepth, pileup, s)
  }

  function EncodeAll(frames: seq<Frame>, bitDepth: nat, pileup: bool, s: nat): Bytes {
    ConcatMap(Encoder(bitDepth, pileup, s), frames)
  }

  /** One-bit frames have the sensor's height, or one row, or the padding raises. */
  predicate Paddable(f: Frame, bitDepth: nat) {
    bitDepth == 1 ==> f.rows == SENSOR_ROWS || f.rows == 1
  }

  /** The mock's encoder. None where the padding raises. */
  method EncodeIntensityFrames(frames: seq<Frame>, bitDepth: nat, pileup: bool) returns (data: Option<Bytes>)
    requires forall f :: f in frames ==> f.Valid()
    ensures data.Some? <==> forall f :: f in frames ==> Paddable(f, bitDepth)
    ensures data.Some? ==> data.value == EncodeAll(frames, bitDepth, pileup, SENSOR_ROWS)
  {
    var bytes: Bytes := [];
    for i := 0 to |frames|
      invariant bytes == EncodeAll(frames[..i], bitDepth, pileup, SENSOR_ROWS)
      invariant forall j :: 0 <= j < i ==> Paddable(frames[j], bitDepth)
    {
      if !Paddable(frames[i], bitDepth) {
        return None;
      }
      assert frames[..i + 1][..i] == frames[..i];
      bytes := bytes + EncodeOne(frames[i], bitDepth, pileup, SENSOR_ROWS);
    }
    TakeAll(frames);
    return Some(bytes);
  }

  function DecodeAll(data: Bytes, bitDepth: nat, rows: nat, width: nat, n: nat, pileup: bool): (stack: seq<Frame>)
    ensures |stack| == n
  {
    seq(n, i requires 0 <= i < n =>
      DecodeOne(Chunk(data, BytesPerFrame(bitDepth, rows, width, pileup), i), bitDepth, rows, width, pileup))
  }

  /** None where the reshape raises: a payload too short for the frames asked for. */
  method DecodeIntensity(data: Bytes, bitDepth: nat, rows: nat, width: nat, iterations: nat, pileup: bool)
    returns (stack: Option<seq<Frame>>)
    requires bitDepth == 1 ==> rows * rows % 8 == 0
    ensures stack.None? <==> |data| < iterations * BytesPerFrame(bitDepth, rows, width, pileup)
    ensures stack.Some? ==> stack.value == DecodeAll(data, bitDepth, rows, width, iterations, pileup)
  {
    var per := BytesPerFrame(bitDepth, rows, width, pileup);
    if |data| < iterations * per {
      return None;
    }
    var frames := [];
    for i := 0 to iterations
      invariant frames == DecodeAll(data, bitDepth, rows, width, i, pileup)
    {
      frames := frames + [DecodeOne(Chunk(data, per, i), bitDepth, rows, width, pileup)];
    }
    return Some(frames);
  }

  ghost predicate SameShape(frames: seq<Frame>, s: nat, width: nat) {
    forall f :: f in frames ==> f.Valid() && f.rows == s && f.cols == width
  }

  function SeenAll(frames: seq<Frame>, bitDepth: nat, pileup: bool, s: nat): (seen: seq<Frame>)
    ensures |seen| == |frames|
    ensures forall i :: 0 <= i < |frames| ==> seen[i] == Seen(frames[i], bitDepth, pileup, s)
  {
    seq(|frames|, i requires 0 <= i < |frames| => Seen(frames[i], bitDepth, pileup, s))
  }

  lemma EncodedLength(frames: seq<Frame>, bitDepth: nat, pileup: bool, s: nat, width: nat)
    requires SameShape(frames, s, width) && (bitDepth == 1 ==> s * s % 8 == 0)
    ensures forall f :: f in frames ==> |Encoder(bitDepth, pileup, s)(f)| == BytesPerFrame(bitDepth, s, width, pileup)
    ensures |EncodeAll(frames, bitDepth, pileup, s)| == |frames| * BytesPerFrame(bitDepth, s, width, pileup)
  {
    forall f | f in frames
      ensures |Encoder(bitDepth, pileup, s)(f)| == BytesPerFrame(bitDepth, s, width, pileup)
    {
      OneRoundTrip(f, bitDepth, pileup, s);
    }
    ConcatLength(Encoder(bitDepth, pileup, s), frames, BytesPerFrame(bitDepth, s, width, pileup));
  }

  /** Frame for frame, decoding an encoded stack gives what the bridge sees of each frame, and
      the payload is the number of frames times the frame size long. */
  lemma StackRoundTrip(frames: seq<Frame>, bitDepth: nat, pileup: bool, s: nat, width: nat)
    requires SameShape(frames, s, width) && (bitDepth == 1 ==> s * s % 8 == 0)
    ensures |EncodeAll(frames, bitDepth, pileup, s)| == |frames| * BytesPerFrame(bitDepth, s, width, pileup)
    ensures DecodeAll(EncodeAll(frames, bitDepth, pileup, s), bitDepth, s, width, |frames|, pileup)
         == SeenAll(frames, bitDepth, pileup, s)
  {
    var per, data := BytesPerFrame(bitDepth, s, width, pileup), EncodeAll(frames, bitDepth, pileup, s);
    EncodedLength(frames, bitDepth, pileup, s, width);
    forall i | 0 <= i < |frames|
      ensures DecodeOne(Chunk(data, per, i), bitDepth, s, width, pileup) == Seen(frames[i], bitDepth, pileup, s)
    {
      ChunkOfConcat(Encoder(bitDepth, pileup, s), frames, per, i);
      OneRoundTrip(frames[i], bitDepth, pileup, s);
    }
  }
}
