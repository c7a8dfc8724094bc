/**
 * MCAL: the alpha maps of a terrain chunk's texture layers. Layer 0 has no
 * map; each further layer carries one 64x64 map of 8-bit opacities, stored
 * either as 4096 raw bytes, as a run-length encoded stream ("highres"), or as
 * 2048 bytes of packed 4-bit values ("lowres"), optionally followed by a
 * fix-up of the last row and column.
 *
 * The input buffer is passed as its contents and its read cursor; the model
 * returns the cursor after the maps.
 */
module AlphaMaps {
  import opened Wrappers
  import opened ByteBuffers

  const ALPHAMAP_DIM: nat := 64
  const N_PIXELS: nat := 4096
  const N_BYTES_LOWRES: nat := 2048
  const CHUNK_MAX_TEXTURE_LAYERS: nat := 4
  /** Alpha maps a chunk can hold: one per texture layer but the first. */
  const MAX_ALPHA_LAYERS: nat := 3

  /** One alpha map, row-major: pixel (row, col) is at row * 64 + col. */
  type Alphamap = m: seq<Byte> | |m| == N_PIXELS witness Blank()

  datatype AlphaFormat = Lowres | Highres

  /** Why decoding stops; every one of these aborts the source program. */
  datatype McalError =
    | Truncated         // a read past the end of the buffer
    | RunOverrun        // a run that does not fit in the 4096 pixels
    | CompressedLowres  // a lowres layer flagged as compressed

  function Blank(): (m: seq<Byte>)
    ensures |m| == N_PIXELS && forall k | 0 <= k < |m| :: m[k] == 0
  {
    seq(N_PIXELS, _ => 0)
  }

  /** `n` copies of `b`. */
  function Repeat(b: Byte, n: nat): (r: seq<Byte>)
    ensures |r| == n && forall k | 0 <= k < n :: r[k] == b
  {
    if n == 0 then [] else [b] + Repeat(b, n - 1)
  }

  /** Puts a decoded prefix in front of a decoding result. */
  function Prepend<T>(p: seq<T>, r: Result<(seq<T>, nat), McalError>): Result<(seq<T>, nat), McalError>
  {
    match r
    case Ok((rest, end)) => Ok((p + rest, end))
    case Err(e) => Err(e)
  }

  lemma PrependAssoc<T>(p: seq<T>, q: seq<T>, r: Result<(seq<T>, nat), McalError>)
    ensures Prepend(p, Prepend(q, r)) == Prepend(p + q, r)
  {
    if r.Ok? {
      assert p + (q + r.value.0) == (p + q) + r.value.0;
    }
  }

  lemma PrependNothing<T>(r: Result<(seq<T>, nat), McalError>)
    ensures Prepend([], r) == r
  {
    if r.Ok? {
      assert [] + r.value.0 == r.value.0;
    }
  }

  // ---------------------------------------------------------------------
  // Run-length encoded highres maps
  // ---------------------------------------------------------------------

  /** The run length held in the low seven bits of a control byte. */
  function RunCount(control: Byte): (n: nat)
    ensures n < 128
  {
    (control & 0x7f) as nat
  }

  /** Bit 7 of a control byte selects FILL; clear, it selects COPY. */
  predicate IsFill(control: Byte)
  {
    control & 0x80 != 0
  }

  /**
   * The run whose control byte is at `at`, while `pixel` pixels are done:
   * its pixels and the position after it. A FILL run repeats the next byte
   * `count` times; a COPY run takes the next `count` bytes.
   */
  function RleRun(input: seq<Byte>, at: nat, pixel: nat): (r: Result<(seq<Byte>, nat), McalError>)
    ensures r.Ok? ==> at < r.value.1 <= |input|
    ensures r.Ok? ==> |r.value.0| == RunCount(input[at]) && pixel + |r.value.0| <= N_PIXELS
  {
    if at >= |input| then Err(Truncated)
    else
      var count := RunCount(input[at]);
      if pixel + count > N_PIXELS then Err(RunOverrun)
      else if IsFill(input[at]) then
        if at + 2 > |input| then Err(Truncated)
        else Ok((Repeat(input[at + 1], count), at + 2))
      else if at + 1 + count > |input| then Err(Truncated)
      else Ok((input[at + 1..at + 1 + count], at + 1 + count))
  }

  /** The pixels from `pixel` to the end of the map, decoded from `at`. */
  function Rle(input: seq<Byte>, at: nat, pixel: nat): (r: Result<(seq<Byte>, nat), McalError>)
    requires pixel <= N_PIXELS
    ensures r.Ok? ==> |r.value.0| == N_PIXELS - pixel && at <= r.value.1 <= |input| + (if pixel == N_PIXELS then at else 0)
    decreases |input| - at
  {
    if pixel == N_PIXELS then Ok(([], at))
    else
      var step := RleRun(input, at, pixel);
      if step.Err? then Err(step.error)
      else
        var rest := Rle(input, step.value.1, pixel + |step.value.0|);
        if rest.Err? then rest else Ok((step.value.0 + rest.value.0, rest.value.1))
  }

  /** One step of `Rle`: the first run, then the rest of the map. */
  lemma RleUnfold(input: seq<Byte>, at: nat, pixel: nat)
    requires pixel < N_PIXELS
    ensures RleRun(input, at, pixel).Err? ==> Rle(input, at, pixel) == Err(RleRun(input, at, pixel).error)
    ensures RleRun(input, at, pixel).Ok? ==>
      var (run, next) := RleRun(input, at, pixel).value;
      Rle(input, at, pixel) == Prepend(run, Rle(input, next, pixel + |run|))
  {
  }

  /** A whole compressed map and the position after its stream. */
  function RleMap(input: seq<Byte>, at: nat): (r: Result<(Alphamap, nat), McalError>)
    ensures r.Ok? ==> at < r.value.1 <= |input|
  {
    match Rle(input, at, 0)
    case Ok((m, end)) => Ok((m, end))
    case Err(e) => Err(e)
  }

  /**
   * Applies the run at `at` to `a`, as one pass of the decoding loop does:
   * reads the control byte, then COPY copies bytes into the map and FILL
   * fills a stretch of it.
   */
  method ApplyRun(a: array<Byte>, input: seq<Byte>, at: nat, pixel: nat) returns (r: Result<(nat, nat), McalError>)
    requires a.Length == N_PIXELS && pixel < N_PIXELS
    modifies a
    ensures r.Ok? == RleRun(input, at, pixel).Ok?
    ensures r.Err? ==> r.error == RleRun(input, at, pixel).error
    ensures r.Ok? ==> r.value.0 == RleRun(input, at, pixel).value.1
    ensures r.Ok? ==> r.value.1 == pixel + |RleRun(input, at, pixel).value.0|
    ensures r.Ok? ==> a[..r.value.1] == old(a[..pixel]) + RleRun(input, at, pixel).value.0
  {
    if at >= |input| {
      return Err(Truncated);
    }
    var control := input[at];
    if pixel + RunCount(control) > N_PIXELS {
      return Err(RunOverrun);
    }
    if IsFill(control) {
      r := ApplyFill(a, input, at, pixel);
    } else {
      r := ApplyCopy(a, input, at, pixel);
    }
  }

  /** A FILL run: the byte after the control byte, `count` times. */
  method ApplyFill(a: array<Byte>, input: seq<Byte>, at: nat, pixel: nat) returns (r: Result<(nat, nat), McalError>)
    requires a.Length == N_PIXELS && at < |input| && IsFill(input[at])
    requires pixel < N_PIXELS && pixel + RunCount(input[at]) <= N_PIXELS
    modifies a
    ensures r.Ok? == RleRun(input, at, pixel).Ok?
    ensures r.Err? ==> r.error == RleRun(input, at, pixel).error
    ensures r.Ok? ==> r.value.0 == RleRun(input, at, pixel).value.1
    ensures r.Ok? ==> r.value.1 == pixel + |RleRun(input, at, pixel).value.0|
    ensures r.Ok? ==> a[..r.value.1] == old(a[..pixel]) + RleRun(input, at, pixel).value.0
  {
    var count := RunCount(input[at]);
    if at + 2 > |input| {
      return Err(Truncated);
    }
    FillPixels(a, pixel, count, input[at + 1]);
    r := Ok((at + 2, pixel + count));
  }

  /** A COPY run: the `count` bytes after the control byte. */
  method ApplyCopy(a: array<Byte>, input: seq<Byte>, at: nat, pixel: nat) returns (r: Result<(nat, nat), McalError>)
    requires a.Length == N_PIXELS && at < |input| && !IsFill(input[at])
    requires pixel < N_PIXELS && pixel + RunCount(input[at]) <= N_PIXELS
    modifies a
    ensures r.Ok? == RleRun(input, at, pixel).Ok?
    ensures r.Err? ==> r.error == RleRun(input, at, pixel).error
    ensures r.Ok? ==> r.value.0 == RleRun(input, at, pixel).value.1
    ensures r.Ok? ==> r.value.1 == pixel + |RleRun(input, at, pixel).value.0|
    ensures r.Ok? ==> a[..r.value.1] == old(a[..pixel]) + RleRun(input, at, pixel).value.0
  {
    var count := RunCount(input[at]);
    if at + 1 + count > |input| {
      return Err(Truncated);
    }
    CopyPixels(a, pixel, input[at + 1..at + 1 + count]);
    r := Ok((at + 1 + count, pixel + count));
  }

  /** The FILL branch: `count` copies of `b` from `pixel` on. */
  method FillPixels(a: array<Byte>, pixel: nat, count: nat, b: Byte)
    requires pixel + count <= a.Length
    modifies a
    ensures a[..pixel + count] == old(a[..pixel]) + Repeat(b, count)
  {
    forall k | pixel <= k < pixel + count {
      a[k] := b;
    }
  }

  /** The COPY branch: `bytes` copied in from `pixel` on. */
  method CopyPixels(a: array<Byte>, pixel: nat, bytes: seq<Byte>)
    requires pixel + |bytes| <= a.Length
    modifies a
    ensures a[..pixel + |bytes|] == old(a[..pixel]) + bytes
  {
    forall k | pixel <= k < pixel + |bytes| {
      a[k] := bytes[k - pixel];
    }
  }

  /** Decodes one compressed map: runs until exactly 4096 pixels are done. */
  method DecodeRle(input: seq<Byte>, at: nat) returns (r: Result<(Alphamap, nat), McalError>)
    ensures r == RleMap(input, at)
  {
    var a := new Byte[N_PIXELS](_ => 0);
    var pixel: nat := 0;
    var cur: nat := at;
    assert a[..pixel] == [];
    PrependNothing(Rle(input, at, 0));
    while pixel != N_PIXELS
      invariant pixel <= N_PIXELS
      invariant Rle(input, at, 0) == Prepend(a[..pixel], Rle(input, cur, pixel))
      decreases |input| - cur
    {
      ghost var done := a[..pixel];
      RleUnfold(input, cur, pixel);
      var step := ApplyRun(a, input, cur, pixel);
      if step.Err? {
        return Err(step.error);
      }
      PrependAssoc(done, RleRun(input, cur, pixel).value.0, Rle(input, step.value.0, step.value.1));
      cur, pixel := step.value.0, step.value.1;
    }
    assert a[..] == a[..pixel] && a[..] + [] == a[..];
    return Ok((a[..], cur));
  }

  /** A stream of runs, as an encoder would produce it, each with its length. */
  datatype Run = Fill(count: Byte, value: Byte) | Copy(count: Byte, bytes: seq<Byte>)

  function RunLength(run: Run): nat
  {
    run.count as nat
  }

  /** The run is non-empty, its length fits in seven bits and matches its bytes. */
  predicate EncodableRun(run: Run)
  {
    0 < run.count < 128 && (run.Copy? ==> |run.bytes| == run.count as nat)
  }

  predicate Encodable(runs: seq<Run>)
  {
    runs == [] || (EncodableRun(runs[0]) && Encodable(runs[1..]))
  }

  function EncodeRun(run: Run): (bytes: seq<Byte>)
  {
    match run
    case Fill(count, value) => [count | 0x80, value]
    case Copy(count, literal) => [count] + literal
  }

  function Encode(runs: seq<Run>): seq<Byte>
  {
    if runs == [] then [] else EncodeRun(runs[0]) + Encode(runs[1..])
  }

  function ExpandRun(run: Run): (pixels: seq<Byte>)
    requires EncodableRun(run)
    ensures |pixels| == RunLength(run)
  {
    match run
    case Fill(count, value) => Repeat(value, count as nat)
    case Copy(_, bytes) => bytes
  }

  function Expand(runs: seq<Run>): seq<Byte>
    requires Encodable(runs)
  {
    if runs == [] then [] else ExpandRun(runs[0]) + Expand(runs[1..])
  }

  lemma ControlByte(count: Byte)
    requires count < 128
    ensures RunCount(count | 0x80) == count as nat && IsFill(count | 0x80)
    ensures RunCount(count) == count as nat && !IsFill(count)
  {
  }

  /** `bytes` appear in `input` from position `at` on. */
  predicate BytesAt(input: seq<Byte>, at: nat, bytes: seq<Byte>)
  {
    at + |bytes| <= |input| && forall k | 0 <= k < |bytes| :: input[at + k] == bytes[k]
  }

  lemma SliceBytesAt(input: seq<Byte>, at: nat, bytes: seq<Byte>)
    requires at + |bytes| <= |input| && input[at..at + |bytes|] == bytes
    ensures BytesAt(input, at, bytes)
  {
    forall k | 0 <= k < |bytes|
      ensures input[at + k] == bytes[k]
    {
      assert input[at..at + |bytes|][k] == input[at + k];
    }
  }

  lemma BytesAtSplit(input: seq<Byte>, at: nat, a: seq<Byte>, b: seq<Byte>)
    requires BytesAt(input, at, a + b)
    ensures BytesAt(input, at, a) && BytesAt(input, at + |a|, b)
  {
    forall k | 0 <= k < |a|
      ensures input[at + k] == a[k]
    {
      assert (a + b)[k] == a[k];
    }
    forall k | 0 <= k < |b|
      ensures input[at + |a| + k] == b[k]
    {
      assert (a + b)[|a| + k] == b[k];
    }
  }

  /** One encoded run decodes to its pixels. */
  lemma RunDecodes(run: Run, input: seq<Byte>, at: nat, pixel: nat)
    requires EncodableRun(run) && pixel + RunLength(run) <= N_PIXELS && BytesAt(input, at, EncodeRun(run))
    ensures RleRun(input, at, pixel) == Ok((ExpandRun(run), at + |EncodeRun(run)|))
  {
    match run
    case Fill(count, value) => FillDecodes(count, value, input, at, pixel);
    case Copy(count, bytes) => CopyDecodes(count, bytes, input, at, pixel);
  }

  lemma FillDecodes(count: Byte, value: Byte, input: seq<Byte>, at: nat, pixel: nat)
    requires 0 < count < 128 && pixel + count as nat <= N_PIXELS
    requires BytesAt(input, at, [count | 0x80, value])
    ensures RleRun(input, at, pixel) == Ok((Repeat(value, count as nat), at + 2))
  {
    var encoded := [count | 0x80, value];
    assert input[at + 0] == encoded[0] && input[at + 1] == encoded[1];
    ControlByte(count);
  }

  lemma CopyDecodes(count: Byte, bytes: seq<Byte>, input: seq<Byte>, at: nat, pixel: nat)
    requires 0 < count < 128 && |bytes| == count as nat && pixel + |bytes| <= N_PIXELS
    requires BytesAt(input, at, [count] + bytes)
    ensures RleRun(input, at, pixel) == Ok((bytes, at + 1 + |bytes|))
  {
    BytesAtSplit(input, at, [count], bytes);
    assert input[at + 0] == [count][0];
    assert input[at + 1..at + 1 + |bytes|] == bytes by {
      forall k | 0 <= k < |bytes|
        ensures input[at + 1..at + 1 + |bytes|][k] == bytes[k]
      {
        assert input[at + 1 + k] == bytes[k];
      }
    }
    ControlByte(count);
  }

  /**
   * Decoding inverts encoding: a stream of encodable runs that covers the
   * rest of the map decodes to exactly those pixels and ends after the
   * stream, whatever follows it.
   */
  lemma RleDecodesEncoding(runs: seq<Run>, input: seq<Byte>, at: nat, pixel: nat)
    requires Encodable(runs) && pixel + |Expand(runs)| == N_PIXELS
    requires at + |Encode(runs)| <= |input| && input[at..at + |Encode(runs)|] == Encode(runs)
    ensures Rle(input, at, pixel).Ok?
    ensures Rle(input, at, pixel).value.0 == Expand(runs)
    ensures Rle(input, at, pixel).value.1 == at + |Encode(runs)|
  {
    SliceBytesAt(input, at, Encode(runs));
    RunsDecode(runs, input, at, pixel);
  }

  lemma {:induction false} RunsDecode(runs: seq<Run>, input: seq<Byte>, at: nat, pixel: nat)
    requires Encodable(runs) && pixel + |Expand(runs)| == N_PIXELS && BytesAt(input, at, Encode(runs))
    ensures Rle(input, at, pixel).Ok?
    ensures Rle(input, at, pixel).value.0 == Expand(runs)
    ensures Rle(input, at, pixel).value.1 == at + |Encode(runs)|
    decreases |runs|
  {
    if runs == [] {
      assert pixel == N_PIXELS;
    } else {
      RunsCons(runs);
      EncodeCons(runs);
      var next, filled := FirstRunDecodes(runs[0], Encode(runs[1..]), input, at, pixel);
      RunsDecode(runs[1..], input, next, filled);
      RunsStep(runs[0], runs[1..], input, at, pixel, next, filled);
    }
  }

  /** The first run of a stream decodes; the others follow it in `input`. */
  lemma FirstRunDecodes(first: Run, others: seq<Byte>, input: seq<Byte>, at: nat, pixel: nat) returns (next: nat, filled: nat)
    requires EncodableRun(first) && pixel + RunLength(first) <= N_PIXELS
    requires BytesAt(input, at, EncodeRun(first) + others)
    ensures RleRun(input, at, pixel) == Ok((ExpandRun(first), next))
    ensures filled == pixel + RunLength(first) && next + |others| == at + |EncodeRun(first) + others|
    ensures BytesAt(input, next, others)
  {
    next, filled := at + |EncodeRun(first)|, pixel + RunLength(first);
    BytesAtSplit(input, at, EncodeRun(first), others);
    RunDecodes(first, input, at, pixel);
  }

  lemma EncodeCons(runs: seq<Run>)
    requires runs != []
    ensures Encode(runs) == EncodeRun(runs[0]) + Encode(runs[1..])
  {
  }

  lemma RunsCons(runs: seq<Run>)
    requires runs != [] && Encodable(runs)
    ensures Encodable(runs[1..]) && Expand(runs) == ExpandRun(runs[0]) + Expand(runs[1..])
  {
  }

  /** The inductive step: the first run, then the decoding of the others. */
  lemma RunsStep(first: Run, others: seq<Run>, input: seq<Byte>, at: nat, pixel: nat, next: nat, filled: nat)
    requires EncodableRun(first) && Encodable(others) && filled == pixel + RunLength(first) && filled + |Expand(others)| == N_PIXELS
    requires RleRun(input, at, pixel) == Ok((ExpandRun(first), next))
    requires Rle(input, next, filled).Ok? && Rle(input, next, filled).value.0 == Expand(others)
    ensures Rle(input, at, pixel).Ok?
    ensures Rle(input, at, pixel).value.0 == ExpandRun(first) + Expand(others)
    ensures Rle(input, at, pixel).value.1 == Rle(input, next, filled).value.1
  {
    var run := ExpandRun(first);
    RleStep(input, at, pixel, run, next, filled - pixel, Expand(others), Rle(input, next, filled).value.1);
  }

  /** Decoding from a run: the run's pixels, then the rest. */
  lemma RleStep(input: seq<Byte>, at: nat, pixel: nat, run: seq<Byte>, next: nat, count: nat, rest: seq<Byte>, end: nat)
    requires pixel < N_PIXELS && RleRun(input, at, pixel) == Ok((run, next)) && |run| == count
    requires pixel + count <= N_PIXELS && Rle(input, next, pixel + count).Ok?
    requires Rle(input, next, pixel + count).value.0 == rest && Rle(input, next, pixel + count).value.1 == end
    ensures Rle(input, at, pixel).Ok?
    ensures Rle(input, at, pixel).value.0 == run + rest && Rle(input, at, pixel).value.1 == end
  {
  }

  /**
   * The decoding loop of the source as written: it runs while the pixel
   * counter is not exactly 4096 and never checks that a run fits. `Steps`
   * gives the (position, pixel) state after `n` passes, or None once the
   * loop has stopped or the input has run out.
   */
  function StepAsWritten(input: seq<Byte>, at: nat, pixel: nat): Option<(nat, nat)>
  {
    if pixel == N_PIXELS || at >= |input| then None
    else
      var count := RunCount(input[at]);
      if IsFill(input[at]) then Some((at + 2, pixel + count))
      else Some((at + 1 + count, pixel + count))
  }

  function StepsAsWritten(input: seq<Byte>, n: nat): Option<(nat, nat)>
  {
    if n == 0 then Some((0, 0))
    else match StepsAsWritten(input, n - 1)
      case None => None
      case Some((at, pixel)) => StepAsWritten(input, at, pixel)
  }

  /** 33 FILL runs of the longest length, 127 pixels each. */
  function LongFills(): (s: seq<Byte>)
    ensures LongFillsAt(s)
  {
    seq(66, k => if k % 2 == 0 then 0xff else 0x01)
  }

  /** `input` holds 33 FILL runs of 127 pixels of the value 1. */
  predicate LongFillsAt(input: seq<Byte>)
  {
    |input| == 66 && forall j | 0 <= j < 33 :: input[2 * j] == 0xff && input[2 * j + 1] == 0x01
  }

  lemma {:induction false} LongFillsSteps(input: seq<Byte>, n: nat)
    requires LongFillsAt(input) && n <= 33
    ensures StepsAsWritten(input, n) == Some((2 * n, 127 * n))
  {
    if n > 0 {
      LongFillsSteps(input, n - 1);
      assert input[2 * (n - 1)] == 0xff;
      assert RunCount(0xff) == 127 && IsFill(0xff);
    }
  }

  /**
   * The unchecked loop overruns the map: on 33 full FILL runs the counter
   * goes 0, 127, ..., 4064 without meeting 4096, and the 33rd run fills
   * pixels 4064 to 4190 of a 4096-pixel map. The checked decoder rejects
   * the same stream.
   */
  lemma RleAsWrittenOverruns()
    ensures StepsAsWritten(LongFills(), 32) == Some((64, 4064))
    ensures StepsAsWritten(LongFills(), 33) == Some((66, 4191)) && 4191 > N_PIXELS
    ensures RleMap(LongFills(), 0) == Err(RunOverrun)
  {
    var input := LongFills();
    LongFillsSteps(input, 32);
    LongFillsSteps(input, 33);
    RleStopsOnLongFills(input, 0, 0, 0);
  }

  /** From any run boundary of the stream, the checked decoder ends in RunOverrun. */
  lemma {:induction false} RleStopsOnLongFills(input: seq<Byte>, j: nat, at: nat, pixel: nat)
    requires LongFillsAt(input) && j <= 32 && at == 2 * j && pixel == 127 * j
    ensures Rle(input, at, pixel) == Err(RunOverrun)
    decreases 32 - j
  {
    LongFillRun(input, j, at, pixel);
    RleUnfold(input, at, pixel);
    if j < 32 {
      RleStopsOnLongFills(input, j + 1, at + 2, pixel + 127);
    }
  }

  /** Each run of the stream is a FILL of 127 pixels. */
  lemma LongFillRun(input: seq<Byte>, j: nat, at: nat, pixel: nat)
    requires LongFillsAt(input) && j < 33 && at == 2 * j
    ensures pixel + 127 <= N_PIXELS ==> RleRun(input, at, pixel) == Ok((Repeat(0x01, 127), at + 2))
    ensures pixel + 127 > N_PIXELS ==> RleRun(input, at, pixel) == Err(RunOverrun)
  {
    assert input[2 * j] == 0xff && input[2 * j + 1] == 0x01;
    assert RunCount(0xff) == 127 && IsFill(0xff);
  }

  // ---------------------------------------------------------------------
  // Lowres maps: two 4-bit pixels per byte, low nibble first
  // ---------------------------------------------------------------------

  /** A 4-bit value widened to 8 bits by repeating it in both nibbles. */
  function LowresPixel(b: Byte, lowNibble: bool): (p: Byte)
    ensures p as int == (if lowNibble then (b & 0x0f) as int else ((b & 0xf0) >> 4) as int) * 17
  {
    if lowNibble then ((b & 0x0f) << 4) | (b & 0x0f)
    else ((b & 0xf0) >> 4) | (b & 0xf0)
  }

  /** The map packed in 2048 bytes: pixel k comes from byte k / 2. */
  function Nibbles(packed: seq<Byte>): (m: Alphamap)
    requires |packed| == N_BYTES_LOWRES
  {
    seq(N_PIXELS, k requires 0 <= k < N_PIXELS => LowresPixel(packed[k / 2], k % 2 == 0))
  }

  /** The packed bytes can be read back from the unpacked map. */
  lemma NibblesKeepBytes(packed: seq<Byte>, i: nat)
    requires |packed| == N_BYTES_LOWRES && i < N_BYTES_LOWRES
    ensures (Nibbles(packed)[2 * i] & 0x0f) | (Nibbles(packed)[2 * i + 1] & 0xf0) == packed[i]
  {
    var m := Nibbles(packed);
    assert m[2 * i] == LowresPixel(packed[i], true);
    assert m[2 * i + 1] == LowresPixel(packed[i], false);
  }

  /** The pixel in row `row` and column `col`. */
  function Pixel(m: Alphamap, row: nat, col: nat): Byte
    requires row < ALPHAMAP_DIM && col < ALPHAMAP_DIM
  {
    m[row * 64 + col]
  }

  lemma SplitIndex(row: nat, col: nat)
    requires col < ALPHAMAP_DIM
    ensures (row * 64 + col) / 64 == row && (row * 64 + col) % 64 == col
  {
  }

  /** Row 63 and column 63 take the value of row 62 and column 62. */
  function Clamp(x: nat): nat
  {
    if x == ALPHAMAP_DIM - 1 then ALPHAMAP_DIM - 2 else x
  }

  /** The map with its last row and column copied from the ones before. */
  function Fixed(m: Alphamap): (f: Alphamap)
  {
    seq(N_PIXELS, k requires 0 <= k < N_PIXELS => m[Clamp(k / 64) * 64 + Clamp(k % 64)])
  }

  lemma FixedPixel(m: Alphamap, row: nat, col: nat)
    requires row < ALPHAMAP_DIM && col < ALPHAMAP_DIM
    ensures Pixel(Fixed(m), row, col) == Pixel(m, Clamp(row), Clamp(col))
  {
    SplitIndex(row, col);
  }

  /**
   * After the fix-up the last column repeats column 62, the last row
   * repeats row 62, and every other pixel is the one decoded.
   */
  lemma FixedCopiesEdges(m: Alphamap)
    ensures forall r | 0 <= r < 64 :: Pixel(Fixed(m), r, 63) == Pixel(Fixed(m), r, 62)
    ensures forall c | 0 <= c < 64 :: Pixel(Fixed(m), 63, c) == Pixel(Fixed(m), 62, c)
    ensures forall r, c | 0 <= r < 63 && 0 <= c < 63 :: Pixel(Fixed(m), r, c) == Pixel(m, r, c)
  {
    forall r | 0 <= r < 64
      ensures Pixel(Fixed(m), r, 63) == Pixel(Fixed(m), r, 62)
    {
      FixedPixel(m, r, 63);
      FixedPixel(m, r, 62);
    }
    forall c | 0 <= c < 64
      ensures Pixel(Fixed(m), 63, c) == Pixel(Fixed(m), 62, c)
    {
      FixedPixel(m, 63, c);
      FixedPixel(m, 62, c);
    }
    forall r, c | 0 <= r < 63 && 0 <= c < 63
      ensures Pixel(Fixed(m), r, c) == Pixel(m, r, c)
    {
      FixedPixel(m, r, c);
    }
  }

  /** Which original pixel the fix-up loop has put at `k` after `i` passes. */
  function FixSource(k: nat, i: nat): (src: nat)
    requires k < N_PIXELS
    ensures src < N_PIXELS
  {
    var r, c := k / 64, k % 64;
    if c == 63 && r < i && r != 63 then r * 64 + 62
    else if r == 63 && c < i && c != 63 then 62 * 64 + c
    else if r == 63 && c == 63 && i == 64 then 62 * 64 + 62
    else k
  }

  /** Pass `i` changes only pixel (i, 63) and then pixel (63, i). */
  lemma FixSourceStep(k: nat, i: nat)
    requires k < N_PIXELS && i < ALPHAMAP_DIM
    ensures FixSource(k, i + 1) ==
      if k == 63 * 64 + i then FixSource(62 * 64 + i, i)
      else if k == i * 64 + 63 then FixSource(i * 64 + 62, i)
      else FixSource(k, i)
  {
    assert k == (k / 64) * 64 + k % 64;
    SplitIndex(63, i);
    SplitIndex(62, i);
    SplitIndex(i, 63);
    SplitIndex(i, 62);
  }

  lemma FixSourceDone(k: nat)
    requires k < N_PIXELS
    ensures FixSource(k, 64) == Clamp(k / 64) * 64 + Clamp(k % 64)
  {
    assert k == (k / 64) * 64 + k % 64;
  }

  /** The fix-up pass, in place, row and column together. */
  method FixAlpha(a: array<Byte>)
    requires a.Length == N_PIXELS
    modifies a
    ensures a[..] == Fixed(old(a[..]))
  {
    ghost var m := a[..];
    var i := 0;
    while i < ALPHAMAP_DIM
      invariant 0 <= i <= ALPHAMAP_DIM
      invariant forall k | 0 <= k < N_PIXELS :: a[k] == m[FixSource(k, i)]
    {
      FixEdgePixels(a, i, m);
      i := i + 1;
    }
    FixCorner(a, m);
  }

  /** Pass `i`: pixel (i, 63) from (i, 62), then pixel (63, i) from (62, i). */
  method FixEdgePixels(a: array<Byte>, i: nat, ghost m: Alphamap)
    requires a.Length == N_PIXELS && i < ALPHAMAP_DIM
    requires forall k | 0 <= k < N_PIXELS :: a[k] == m[FixSource(k, i)]
    modifies a
    ensures forall k | 0 <= k < N_PIXELS :: a[k] == m[FixSource(k, i + 1)]
  {
    a[i * 64 + 63] := a[i * 64 + 62];
    a[63 * 64 + i] := a[62 * 64 + i];
    forall k | 0 <= k < N_PIXELS
      ensures a[k] == m[FixSource(k, i + 1)]
    {
      FixSourceStep(k, i);
    }
  }

  /** The corner pixel (62, 63) is set once more from (62, 62), which it already holds. */
  method FixCorner(a: array<Byte>, ghost m: Alphamap)
    requires a.Length == N_PIXELS
    requires forall k | 0 <= k < N_PIXELS :: a[k] == m[FixSource(k, ALPHAMAP_DIM)]
    modifies a
    ensures a[..] == Fixed(m)
  {
    a[62 * 64 + 63] := a[62 * 64 + 62];
    forall k | 0 <= k < N_PIXELS
      ensures a[k] == Fixed(m)[k]
    {
      FixSourceDone(k);
    }
  }

  /** Unpacks 2048 bytes from `at`, two pixels per byte, row by row. */
  method DecodeLowres(input: seq<Byte>, at: nat, fix: bool) returns (r: Result<(Alphamap, nat), McalError>)
    ensures r == LowresMap(input, at, fix)
  {
    if at + N_BYTES_LOWRES > |input| {
      return Err(Truncated);
    }
    ghost var packed := input[at..at + N_BYTES_LOWRES];
    var a := new Byte[N_PIXELS](_ => 0);
    var i := 0;
    while i < ALPHAMAP_DIM
      invariant 0 <= i <= ALPHAMAP_DIM
      invariant forall k | 0 <= k < i * 64 :: a[k] == Nibbles(packed)[k]
    {
      DecodeLowresRow(a, input, at, i, packed);
      i := i + 1;
    }
    assert a[..] == Nibbles(packed);
    if fix {
      FixAlpha(a);
    }
    return Ok((a[..], at + N_BYTES_LOWRES));
  }

  /** Row `i`: 32 packed bytes from `at + 32 * i`, low nibble first. */
  method DecodeLowresRow(a: array<Byte>, input: seq<Byte>, at: nat, i: nat, ghost packed: seq<Byte>)
    requires a.Length == N_PIXELS && i < ALPHAMAP_DIM && at + N_BYTES_LOWRES <= |input|
    requires packed == input[at..at + N_BYTES_LOWRES]
    requires forall k | 0 <= k < i * 64 :: a[k] == Nibbles(packed)[k]
    modifies a
    ensures forall k | 0 <= k < (i + 1) * 64 :: a[k] == Nibbles(packed)[k]
  {
    var raw := at + i * 32;
    var j := 0;
    while j < ALPHAMAP_DIM
      invariant 0 <= j <= ALPHAMAP_DIM && j % 2 == 0 && raw == at + i * 32 + j / 2
      invariant forall k | 0 <= k < i * 64 + j :: a[k] == Nibbles(packed)[k]
    {
      a[i * 64 + j] := LowresPixel(input[raw], true);
      a[i * 64 + j + 1] := LowresPixel(input[raw], false);
      raw := raw + 1;
      j := j + 2;
    }
  }

  function LowresMap(input: seq<Byte>, at: nat, fix: bool): (r: Result<(Alphamap, nat), McalError>)
    ensures r.Ok? <==> at + N_BYTES_LOWRES <= |input|
    ensures r.Ok? ==> r.value.1 == at + N_BYTES_LOWRES
  {
    if at + N_BYTES_LOWRES > |input| then Err(Truncated)
    else
      var m := Nibbles(input[at..at + N_BYTES_LOWRES]);
      Ok((if fix then Fixed(m) else m, at + N_BYTES_LOWRES))
  }

  // ---------------------------------------------------------------------
  // Reading a whole chunk
  // ---------------------------------------------------------------------

  /** One layer's map, by format and by the layer's compression flag. */
  function DecodeLayer(input: seq<Byte>, at: nat, format: AlphaFormat, compressed: bool, fix: bool)
    : (r: Result<(Alphamap, nat), McalError>)
    ensures r.Ok? ==> at < r.value.1 <= |input|
    ensures format == Highres && !compressed ==>
      (r.Ok? <==> at + N_PIXELS <= |input|) && (r.Ok? ==> r.value.0 == input[at..at + N_PIXELS])
    ensures format == Lowres && compressed ==> r == Err(CompressedLowres)
  {
    match format
    case Highres =>
      if compressed then RleMap(input, at)
      else if at + N_PIXELS > |input| then Err(Truncated)
      else Ok((input[at..at + N_PIXELS], at + N_PIXELS))
    case Lowres =>
      if compressed then Err(CompressedLowres)
      else LowresMap(input, at, fix)
  }

  /** The maps of the layers whose compression flags are `flags`, in order. */
  function DecodeLayers(input: seq<Byte>, at: nat, format: AlphaFormat, flags: seq<bool>, fix: bool)
    : (r: Result<(seq<Alphamap>, nat), McalError>)
    ensures r.Ok? ==> |r.value.0| == |flags| && at <= r.value.1
    ensures r.Ok? ==> forall i | 0 <= i < |flags| :: format == Lowres ==> !flags[i]
    decreases |flags|
  {
    if flags == [] then Ok(([], at))
    else match DecodeLayer(input, at, format, flags[0], fix)
      case Err(e) => Err(e)
      case Ok((m, next)) => Prepend([m], DecodeLayers(input, next, format, flags[1..], fix))
  }

  /** One pass of the layer loop: decodes the map of one layer. */
  method ReadLayer(input: seq<Byte>, at: nat, format: AlphaFormat, compressed: bool, fix: bool)
    returns (r: Result<(Alphamap, nat), McalError>)
    ensures r == DecodeLayer(input, at, format, compressed, fix)
  {
    if format == Highres {
      if !compressed {
        if at + N_PIXELS > |input| {
          return Err(Truncated);
        }
        return Ok((input[at..at + N_PIXELS], at + N_PIXELS));
      }
      r := DecodeRle(input, at);
    } else {
      if compressed {
        return Err(CompressedLowres);
      }
      r := DecodeLowres(input, at, fix);
    }
  }

  /** The rounding of a lowres opacity: alpha / 255 to the nearest integer. */
  function NormalizeLowresAlpha(alpha: Byte): (r: Byte)
    ensures r == if alpha >= 128 then 1 else 0
  {
    (alpha as nat / 255 + (if alpha as nat % 255 <= 127 then 0 else 1)) as bv8
  }

  /** The rounding before the 8-bit truncation of the result. */
  function HighresQuotient(alpha: nat, div: nat): (q: nat)
    requires div > 0
  {
    alpha / div + (if alpha % div <= div / 2 then 0 else 1)
  }

  /**
   * alpha / div rounded to the nearest integer, halves down, truncated to
   * the 8 bits of the result type. The caller must not pass a zero divisor.
   */
  function NormalizeHighresAlpha(alpha: nat, div: nat): (r: nat)
    requires alpha < 0x1_0000_0000 && 0 < div < 0x1_0000_0000
    ensures r < 256
  {
    HighresQuotient(alpha, div) % 256
  }

  /** The quotient is the integer nearest to alpha / div. */
  lemma HighresQuotientNearest(alpha: nat, div: nat)
    requires div > 0
    ensures var q := HighresQuotient(alpha, div);
      2 * (alpha - q * div) <= div && 2 * (q * div - alpha) < div
  {
    var d, m := alpha / div, alpha % div;
    assert alpha == d * div + m;
    if m <= div / 2 {
      assert HighresQuotient(alpha, div) * div == d * div;
    } else {
      assert HighresQuotient(alpha, div) * div == (d + 1) * div == d * div + div;
    }
  }

  /** An exact multiple comes back as its factor (modulo 256). */
  lemma HighresExactMultiple(k: nat, div: nat)
    requires 0 < div < 0x1_0000_0000 && k * div < 0x1_0000_0000
    ensures NormalizeHighresAlpha(k * div, div) == k % 256
  {
    DivMultiple(k, div);
  }

  lemma MulAtLeast(x: int, d: int)
    requires x >= 1 && d >= 1
    ensures x * d >= d
  {
  }

  lemma DivMultiple(k: nat, div: nat)
    requires 0 < div
    ensures (k * div) / div == k && (k * div) % div == 0
  {
    var q, m := (k * div) / div, (k * div) % div;
    assert k * div == q * div + m;
    assert (k - q) * div == m;
    if k > q {
      MulAtLeast(k - q, div);
    } else if k < q {
      MulAtLeast(q - k, div);
    }
  }

  // ---------------------------------------------------------------------
  // The chunk object
  // ---------------------------------------------------------------------

  /** The alpha maps of one chunk, in layer order (layer 1 first). */
  class Mcal {
    var layers: seq<Alphamap>

    constructor ()
      ensures layers == []
    {
      layers := [];
    }

    /**
     * Appends the map of every layer but the first. The caller supplies
     * between one and three layers, and the fix-up only for lowres maps.
     * On an error nothing is appended (the source aborts).
     */
    method Read(input: seq<Byte>, at: nat, format: AlphaFormat, compressed: seq<bool>, fix: bool)
      returns (r: Result<nat, McalError>)
      requires 0 < |compressed| < CHUNK_MAX_TEXTURE_LAYERS
      requires fix ==> format == Lowres
      modifies this
      ensures var d := DecodeLayers(input, at, format, compressed[1..], fix);
        (d.Ok? ==> r == Ok(d.value.1) && layers == old(layers) + d.value.0)
        && (d.Err? ==> r == Err(d.error) && layers == old(layers))
    {
      var decoded: seq<Alphamap> := [];
      var cur := at;
      var idx := 1;
      PrependNothing(DecodeLayers(input, at, format, compressed[1..], fix));
      while idx < |compressed|
        invariant 1 <= idx <= |compressed| && layers == old(layers)
        invariant DecodeLayers(input, at, format, compressed[1..], fix)
          == Prepend(decoded, DecodeLayers(input, cur, format, compressed[idx..], fix))
      {
        var layer := ReadLayer(input, cur, format, compressed[idx], fix);
        assert compressed[idx..][0] == compressed[idx] && compressed[idx..][1..] == compressed[idx + 1..];
        if layer.Err? {
          assert DecodeLayers(input, cur, format, compressed[idx..], fix) == Err(layer.error);
          return Err(layer.error);
        }
        PrependAssoc(decoded, [layer.value.0], DecodeLayers(input, layer.value.1, format, compressed[idx + 1..], fix));
        decoded := decoded + [layer.value.0];
        cur := layer.value.1;
        idx := idx + 1;
      }
      assert compressed[idx..] == [] && decoded + [] == decoded;
      assert DecodeLayers(input, at, format, compressed[1..], fix) == Ok((decoded, cur));
      layers := layers + decoded;
      return Ok(cur);
    }

    /** Appends an all-zero map; at most three maps are allowed. */
    method Add() returns (index: nat)
      requires |layers| < MAX_ALPHA_LAYERS
      modifies this
      ensures layers == old(layers) + [Blank()] && index == |old(layers)|
    {
      layers := layers + [Blank()];
      index := |layers| - 1;
    }

    /** The map at `index` (both `At` and the subscript operator). */
    function At(index: nat): (m: Alphamap)
      requires index < |layers|
      reads this
      ensures m in layers
    {
      layers[index]
    }

    /**
     * A write through the `Alphamap&` that `Add`, `At` and the subscript
     * operator return: the map at `index` becomes `m`, the others are kept.
     */
    method Set(index: nat, m: Alphamap)
      requires index < |layers|
      modifies this
      ensures layers == old(layers)[index := m]
    {
      layers := layers[index := m];
    }

    /** Erases the map at `index`; the others keep their order. */
    method Remove(index: nat)
      requires index < |layers|
      modifies this
      ensures layers == old(layers[..index] + layers[index + 1..])
    {
      layers := layers[..index] + layers[index + 1..];
    }
  }

  /** A map just added reads back as all zeros; removing it restores the rest. */
  lemma AddThenRemove(layers: seq<Alphamap>)
    requires |layers| < MAX_ALPHA_LAYERS
    ensures var added := layers + [Blank()];
      added[|layers|] == Blank() && added[..|layers|] + added[|layers| + 1..] == layers
  {
    var added := layers + [Blank()];
    assert added[..|layers|] == layers;
  }

  /** Adding a map and then filling it through the returned reference appends the filled map. */
  lemma AddThenSet(layers: seq<Alphamap>, m: Alphamap)
    requires |layers| < MAX_ALPHA_LAYERS
    ensures (layers + [Blank()])[|layers| := m] == layers + [m]
  {
  }
}
