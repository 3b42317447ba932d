/** The temporal delta plus run-length codec: `rle_encode` and `rle_decode`.
    Frame 0 is stored as is; every later frame is stored as the run-length
    pairs of its byte-wise difference from the frame before it. */
module Codec {
  import opened Bytes
  import opened Outcomes
  import opened RunLength

  type Frame = seq<Byte>

  /** Per-byte wrap-around difference of `cur` against `prev`, over the
      length of `cur`. */
  function Delta(cur: Frame, prev: Frame): (r: Frame)
    requires |cur| <= |prev|
    ensures |r| == |cur|
    ensures forall j :: 0 <= j < |cur| ==> r[j] == (cur[j] as int - prev[j] as int) % 256
  {
    seq(|cur|, j requires 0 <= j < |cur| => PixelDiff(cur[j], prev[j]))
  }

  /** Per-byte wrap-around sum of `prev` and `delta`, over the length of
      `delta`. */
  function AddDelta(prev: Frame, delta: Frame): (r: Frame)
    requires |delta| <= |prev|
    ensures |r| == |delta|
    ensures forall j :: 0 <= j < |delta| ==> r[j] == (prev[j] as int + delta[j] as int) % 256
  {
    seq(|delta|, j requires 0 <= j < |delta| => PixelSum(prev[j], delta[j]))
  }

  /** Adding a delta back onto its reference frame restores the frame. */
  lemma AddDeltaUndoesDelta(cur: Frame, prev: Frame)
    requires |cur| <= |prev|
    ensures AddDelta(prev, Delta(cur, prev)) == cur
  {
    forall j | 0 <= j < |cur| ensures AddDelta(prev, Delta(cur, prev))[j] == cur[j] {
      SumUndoesDiff(cur[j], prev[j]);
    }
  }

  /** And the delta of a reconstructed frame is the delta it was built from. */
  lemma DeltaUndoesAddDelta(delta: Frame, prev: Frame)
    requires |delta| <= |prev|
    ensures Delta(AddDelta(prev, delta), prev) == delta
  {
    forall j | 0 <= j < |delta| ensures Delta(AddDelta(prev, delta), prev)[j] == delta[j] {
      DiffUndoesSum(prev[j], delta[j]);
    }
  }

  /** `rle_encode` reads `frames[i-1][j]` for every `j < frames[i].len()`,
      so it runs to the end exactly when no frame is longer than the one
      before it. */
  predicate Encodable(frames: seq<Frame>) {
    forall i :: 0 < i < |frames| ==> |frames[i]| <= |frames[i - 1]|
  }

  /** Entry `i` of the encoder's output: frame 0 as is, any later frame as
      the pairs of its delta against the previous ORIGINAL frame. */
  function EncodedFrame(frames: seq<Frame>, i: nat): Frame
    requires i < |frames|
    requires i > 0 ==> |frames[i]| <= |frames[i - 1]|
  {
    if i == 0 then frames[0] else Rle(Delta(frames[i], frames[i - 1]))
  }

  /** What `rle_encode` returns: one entry per frame with frame 0 copied,
      or an out-of-bounds panic exactly when some frame is longer than the
      frame before it. */
  function Encode(frames: seq<Frame>): (r: Result<seq<Frame>>)
    ensures r.Panic? <==> exists i :: 0 < i < |frames| && |frames[i]| > |frames[i - 1]|
    ensures r.Panic? ==> r.reason == IndexOutOfBounds
    ensures r.Ok? ==> |r.value| == |frames| && (|frames| > 0 ==> r.value[0] == frames[0])
  {
    if Encodable(frames) then
      Ok(seq(|frames|, i requires 0 <= i < |frames| && Encodable(frames) => EncodedFrame(frames, i)))
    else
      Panic(IndexOutOfBounds)
  }

  /** One step of `rle_decode` for a frame after the first: expand the
      pairs, check the expanded length against `size` (the `assert_eq!`),
      then add the delta onto the previous DECODED frame. */
  function DecodeFrame(prev: Frame, pairs: seq<Byte>, size: nat): Result<Frame> {
    match Expand(pairs)
    case None => Panic(IndexOutOfBounds)
    case Some(delta) =>
      if size != |delta| then Panic(AssertionFailed)
      else if |prev| < size then Panic(IndexOutOfBounds)
      else Ok(AddDelta(prev, delta))
  }

  /** What `rle_decode(frames, size)` returns: frames are decoded in order,
      each against the one decoded before it, and the first panic stops
      the run. */
  function Decode(frames: seq<Frame>, size: nat): (r: Result<seq<Frame>>)
    ensures r.Ok? ==> |r.value| == |frames|
    ensures r.Ok? && |frames| > 0 ==> r.value[0] == frames[0]
    ensures r.Ok? ==> forall i :: 0 < i < |frames| ==> |r.value[i]| == size
    decreases |frames|
  {
    if |frames| <= 1 then Ok(frames)
    else
      match Decode(frames[..|frames| - 1], size)
      case Panic(e) => Panic(e)
      case Ok(done) =>
        match DecodeFrame(done[|done| - 1], frames[|frames| - 1], size)
        case Panic(e) => Panic(e)
        case Ok(f) => Ok(done + [f])
  }

  /** The delta loop of `rle_encode`: one `pixel_diff` per byte of `cur`,
      panicking at the first index past the end of `prev`. */
  method DeltaOf(cur: Frame, prev: Frame) returns (r: Result<Frame>)
    ensures r.Ok? <==> |cur| <= |prev|
    ensures r.Ok? ==> r.value == Delta(cur, prev)
    ensures r.Panic? ==> r.reason == IndexOutOfBounds
  {
    var delta: Frame := [];
    var j := 0;
    while j < |cur|
      invariant j <= |cur| && j <= |prev|
      invariant |delta| == j
      invariant forall k :: 0 <= k < j ==> delta[k] == PixelDiff(cur[k], prev[k])
    {
      if j >= |prev| {
        return Panic(IndexOutOfBounds);
      }
      delta := delta + [PixelDiff(cur[j], prev[j])];
      j := j + 1;
    }
    r := Ok(delta);
  }

  /** The inner loop of `rle_encode`: count the bytes equal to `delta[j]`
      from position `j`, stopping at 255, at the end of the input or at the
      first byte that differs. */
  method CountRun(delta: seq<Byte>, j: nat) returns (count: nat)
    requires j < |delta|
    ensures count == RunAt(delta, j)
  {
    count := 0;
    while count < 255 && j + count < |delta| && delta[j + count] == delta[j]
      invariant count <= 255 && j + count <= |delta|
      invariant RunFrom(delta, j, count) == RunAt(delta, j)
    {
      count := count + 1;
    }
  }

  /** The run-length loop of `rle_encode`: from position `j`, count equal
      bytes up to 255, push `(count, value)`, skip past the run. */
  method EncodeRuns(delta: seq<Byte>) returns (rle: seq<Byte>)
    ensures rle == Rle(delta)
    ensures Expand(rle) == Some(delta)
  {
    rle := [];
    var j := 0;
    while j < |delta|
      invariant j <= |delta|
      invariant rle + RleFrom(delta, j) == Rle(delta)
      decreases |delta| - j
    {
      var count := CountRun(delta, j);
      rle := rle + [count, delta[j]];
      j := j + count;
    }
    RleInverse(delta);
  }

  /** One pass of the outer loop of `rle_encode` for a frame after the
      first: the delta against the previous original frame, then its pairs. */
  method EncodeFrameAt(frames: seq<Frame>, i: nat) returns (r: Result<Frame>)
    requires 0 < i < |frames|
    ensures r.Ok? <==> |frames[i]| <= |frames[i - 1]|
    ensures r.Ok? ==> r.value == EncodedFrame(frames, i)
    ensures r.Panic? ==> r.reason == IndexOutOfBounds
  {
    var delta := DeltaOf(frames[i], frames[i - 1]);
    if delta.Panic? {
      return Panic(IndexOutOfBounds);
    }
    var rle := EncodeRuns(delta.value);
    r := Ok(rle);
  }

  /** `rle_encode`: frame 0 is copied; each later frame is replaced by the
      run-length pairs of its delta against the previous original frame. */
  method RleEncode(frames: seq<Frame>) returns (r: Result<seq<Frame>>)
    ensures r == Encode(frames)
  {
    var rleFrames: seq<Frame> := [];
    for i := 0 to |frames|
      invariant |rleFrames| == i
      invariant forall k :: 0 < k < i ==> |frames[k]| <= |frames[k - 1]|
      invariant forall k :: 0 <= k < i ==> rleFrames[k] == EncodedFrame(frames, k)
    {
      if i == 0 {
        rleFrames := rleFrames + [frames[0]];
      } else {
        var rle := EncodeFrameAt(frames, i);
        if rle.Panic? {
          assert !Encodable(frames);
          return Panic(IndexOutOfBounds);
        }
        rleFrames := rleFrames + [rle.value];
      }
    }
    assert Encodable(frames);
    ghost var e := Encode(frames).value;
    forall k | 0 <= k < |e| ensures e[k] == rleFrames[k] {}
    assert e == rleFrames;
    r := Ok(rleFrames);
  }

  /** Decoding one more frame after a successful prefix. */
  lemma DecodeStep(frames: seq<Frame>, size: nat, i: nat)
    requires 0 < i < |frames|
    requires Decode(frames[..i], size).Ok?
    ensures var done := Decode(frames[..i], size).value;
      Decode(frames[..i + 1], size) ==
        match DecodeFrame(done[i - 1], frames[i], size)
        case Panic(e) => Panic(e)
        case Ok(f) => Ok(done + [f])
  {
    assert frames[..i + 1][..i] == frames[..i];
  }

  /** If a prefix of the frames already fails to decode, so do the frames. */
  lemma {:induction false} DecodePrefixPanic(frames: seq<Frame>, size: nat, n: nat)
    requires 0 < n <= |frames|
    requires Decode(frames[..n], size).Panic?
    ensures Decode(frames, size) == Decode(frames[..n], size)
    decreases |frames| - n
  {
    if n < |frames| {
      assert frames[..n + 1][..n] == frames[..n];
      DecodePrefixPanic(frames, size, n + 1);
    } else {
      assert frames[..n] == frames;
    }
  }

  /** A successful decode decodes every prefix to the same prefix. */
  lemma {:induction false} DecodePrefixOk(frames: seq<Frame>, size: nat, n: nat)
    requires 0 < n <= |frames|
    requires Decode(frames, size).Ok?
    ensures Decode(frames[..n], size) == Ok(Decode(frames, size).value[..n])
    decreases |frames| - n
  {
    if n == |frames| {
      assert frames[..n] == frames;
      var out := Decode(frames, size).value;
      assert out[..n] == out;
    } else {
      var last := |frames| - 1;
      assert frames[..last][..n] == frames[..n];
      var done := Decode(frames[..last], size);
      assert done.Ok?;
      assert Decode(frames, size).value[..n] == done.value[..n];
      DecodePrefixOk(frames[..last], size, n);
    }
  }

  /** The expansion loop of `rle_decode`: walk the vector two bytes at a
      time and push `count` copies of the value byte; a non-zero count with
      no value byte after it panics. */
  method ExpandOf(p: seq<Byte>) returns (r: Option<seq<Byte>>)
    ensures r == Expand(p)
    ensures r.Some? ==> |r.value| == CountSum(p)
  {
    var delta: seq<Byte> := [];
    var j := 0;
    assert p[0..] == p;
    PrependEmpty(Expand(p));
    while j < |p|
      invariant j <= |p| + 1
      invariant Expand(p) == Prepend(delta, Expand(p[if j <= |p| then j else |p|..]))
      decreases |p| - j
    {
      var count := p[j];
      ghost var before := delta;
      ExpandAt(p, j);
      assert Expand(p) == Prepend(before, Expand(p[j..]));
      for c := 0 to count
        invariant Expand(p) == Prepend(before, Expand(p[j..]))
        invariant j + 1 >= |p| ==> c == 0
        invariant delta == before + Repeat(if j + 1 < |p| then p[j + 1] else 0, c)
      {
        if j + 1 >= |p| {
          assert Expand(p[j..]) == None;
          assert Expand(p) == None;
          return None;
        }
        delta := delta + [p[j + 1]];
        assert Repeat(p[j + 1], c + 1) == Repeat(p[j + 1], c) + [p[j + 1]];
      }
      if j + 1 < |p| {
        PrependAppend(before, Repeat(p[j + 1], count), Expand(p[j + 2..]));
      } else {
        assert delta == before;
        assert p[|p|..] == [];
      }
      j := j + 2;
    }
    assert p[|p|..] == [];
    assert Expand(p) == Prepend(delta, Some([]));
    assert delta + [] == delta;
    ExpandLength(p);
    r := Some(delta);
  }

  /** The summing loop of `rle_decode`: one `pixel_sum` of the previous
      decoded byte and the delta byte per position of `delta`, panicking at
      the first index past the end of `prev`. */
  method AddDeltaOf(prev: Frame, delta: Frame) returns (r: Result<Frame>)
    ensures r.Ok? <==> |delta| <= |prev|
    ensures r.Ok? ==> r.value == AddDelta(prev, delta)
    ensures r.Panic? ==> r.reason == IndexOutOfBounds
  {
    var decoded: Frame := [];
    for k := 0 to |delta|
      invariant k <= |prev|
      invariant |decoded| == k
      invariant forall m :: 0 <= m < k ==> decoded[m] == PixelSum(prev[m], delta[m])
    {
      if k >= |prev| {
        return Panic(IndexOutOfBounds);
      }
      decoded := decoded + [PixelSum(prev[k], delta[k])];
    }
    r := Ok(decoded);
  }

  /** `rle_decode`: frame 0 is copied; for each later frame the pairs are
      expanded, the expanded length is checked against `size`, and the
      delta is added onto the previous decoded frame. */
  method RleDecode(frames: seq<Frame>, size: nat) returns (r: Result<seq<Frame>>)
    ensures r == Decode(frames, size)
  {
    var rleFrames: seq<Frame> := [];
    for i := 0 to |frames|
      invariant i > 0 ==> Decode(frames[..i], size) == Ok(rleFrames)
      invariant i == 0 ==> rleFrames == []
    {
      if i == 0 {
        assert frames[..1] == [frames[0]];
        rleFrames := [frames[0]];
      } else {
        DecodeStep(frames, size, i);
        var delta := ExpandOf(frames[i]);
        if delta.None? {
          DecodePrefixPanic(frames, size, i + 1);
          return Panic(IndexOutOfBounds);
        }
        if size != |delta.value| {
          DecodePrefixPanic(frames, size, i + 1);
          return Panic(AssertionFailed);
        }
        var decoded := AddDeltaOf(rleFrames[i - 1], delta.value);
        if decoded.Panic? {
          DecodePrefixPanic(frames, size, i + 1);
          return Panic(IndexOutOfBounds);
        }
        rleFrames := rleFrames + [decoded.value];
      }
    }
    if |frames| > 0 {
      assert frames[..|frames|] == frames;
    }
    r := Ok(rleFrames);
  }

  /** Every entry after the first of a successful encoding is the run-length
      code of the frame's delta: whole pairs, one per run, each count between
      1 and 255, the counts adding up to the frame's length, and expanding
      to the delta exactly. */
  lemma EncodedFrameIsPairs(frames: seq<Frame>, i: nat)
    requires Encode(frames).Ok? && 0 < i < |frames|
    ensures |frames[i]| <= |frames[i - 1]|
    ensures var e := Encode(frames).value[i]; var d := Delta(frames[i], frames[i - 1]);
      && Expand(e) == Some(d)
      && |e| == 2 * RunCount(d, 0)
      && CountSum(e) == |frames[i]|
      && forall k :: 0 <= k < RunCount(d, 0) ==> 1 <= CountByte(e, k) <= 255
  {
    var d := Delta(frames[i], frames[i - 1]);
    assert Encode(frames).value[i] == Rle(d);
    RleInverse(d);
    RleCountsInRange(d);
    RleCountSum(d);
  }

  /** Decoding stops at the first frame that fails: when the frames before
      `i` decode and frame `i` does not, the whole decode is that failure. */
  lemma DecodeStopsAt(frames: seq<Frame>, size: nat, i: nat)
    requires 0 < i < |frames|
    requires Decode(frames[..i], size).Ok?
    requires DecodeFrame(Decode(frames[..i], size).value[i - 1], frames[i], size).Panic?
    ensures Decode(frames, size) == Panic(DecodeFrame(Decode(frames[..i], size).value[i - 1], frames[i], size).reason)
  {
    DecodeStep(frames, size, i);
    DecodePrefixPanic(frames, size, i + 1);
  }

  /** The `assert_eq!` of `rle_decode`: a frame whose pairs expand to a
      length other than `size` makes the decode fail with an assertion
      failure, once the frames before it decoded. */
  lemma DecodeLengthMismatch(frames: seq<Frame>, size: nat, i: nat)
    requires 0 < i < |frames|
    requires Decode(frames[..i], size).Ok?
    requires Expand(frames[i]).Some? && |Expand(frames[i]).value| != size
    ensures Decode(frames, size) == Panic(AssertionFailed)
  {
    DecodeStopsAt(frames, size, i);
  }

  /** A successful decode sums position by position: byte `j` of decoded
      frame `i` is the `pixel_sum` of byte `j` of decoded frame `i - 1` and
      byte `j` of the expansion of pairs `i`, which is `size` long. */
  lemma DecodedByteAt(frames: seq<Frame>, size: nat, i: nat, j: nat)
    requires Decode(frames, size).Ok? && 0 < i < |frames| && j < size
    ensures Expand(frames[i]).Some? && |Expand(frames[i]).value| == size
    ensures var out := Decode(frames, size).value;
      |out[i - 1]| >= size && out[i][j] == PixelSum(out[i - 1][j], Expand(frames[i]).value[j])
  {
    var out := Decode(frames, size).value;
    DecodePrefixOk(frames, size, i);
    DecodePrefixOk(frames, size, i + 1);
    DecodeStep(frames, size, i);
    assert out[..i + 1] == out[..i] + [out[i]];
  }

  /** Decoding the first `n` encoded frames of equal-length frames gives the
      first `n` frames back. */
  lemma {:induction false} RoundTripPrefix(frames: seq<Frame>, size: nat, n: nat)
    requires forall k :: 0 <= k < |frames| ==> |frames[k]| == size
    requires 0 < n <= |frames|
    ensures Encode(frames).Ok?
    ensures Decode(Encode(frames).value[..n], size) == Ok(frames[..n])
  {
    assert Encodable(frames);
    var enc := Encode(frames).value;
    if n == 1 {
      assert enc[..1] == [frames[0]];
      assert frames[..1] == [frames[0]];
    } else {
      RoundTripPrefix(frames, size, n - 1);
      EncodedFrameDecodes(frames, size, n - 1);
      DecodeExtend(enc, frames, size, n - 1);
    }
  }

  /** When the first `i` entries of `frames` decode to the first `i`
      entries of `out`, and entry `i` decodes onto `out[i - 1]` to `out[i]`,
      the first `i + 1` entries decode to the first `i + 1` of `out`. */
  lemma DecodeExtend(frames: seq<Frame>, out: seq<Frame>, size: nat, i: nat)
    requires 0 < i < |frames| && i < |out|
    requires Decode(frames[..i], size) == Ok(out[..i])
    requires DecodeFrame(out[i - 1], frames[i], size) == Ok(out[i])
    ensures Decode(frames[..i + 1], size) == Ok(out[..i + 1])
  {
    DecodeStep(frames, size, i);
    assert out[..i + 1] == out[..i] + [out[i]];
  }

  /** Decoding entry `i` of the encoding onto the ORIGINAL frame `i - 1`
      gives frame `i` back, when all frames have length `size`. */
  lemma EncodedFrameDecodes(frames: seq<Frame>, size: nat, i: nat)
    requires forall k :: 0 <= k < |frames| ==> |frames[k]| == size
    requires 0 < i < |frames|
    ensures Encode(frames).Ok?
    ensures DecodeFrame(frames[i - 1], Encode(frames).value[i], size) == Ok(frames[i])
  {
    assert Encodable(frames);
    var d := Delta(frames[i], frames[i - 1]);
    assert Encode(frames).value[i] == Rle(d);
    RleInverse(d);
    AddDeltaUndoesDelta(frames[i], frames[i - 1]);
  }

  /** Round trip: frames of one common length `size` always encode, and
      decoding the encoding with that `size` gives the frames back. */
  lemma RoundTrip(frames: seq<Frame>, size: nat)
    requires forall k :: 0 <= k < |frames| ==> |frames[k]| == size
    ensures Encode(frames).Ok?
    ensures Decode(Encode(frames).value, size) == Ok(frames)
  {
    assert Encodable(frames);
    if |frames| > 0 {
      RoundTripPrefix(frames, size, |frames|);
      assert Encode(frames).value[..|frames|] == Encode(frames).value;
      assert frames[..|frames|] == frames;
    }
  }

  /** Once the entries before `i` decode, an entry `i` that is an encoded
      non-empty delta with its last byte dropped makes the decode panic out
      of bounds: the expansion reaches a count byte with no value byte. */
  lemma TruncatedEntryPanics(frames: seq<Frame>, size: nat, i: nat, d: seq<Byte>)
    requires 0 < i < |frames|
    requires Decode(frames[..i], size).Ok?
    requires |d| > 0 && |Rle(d)| > 0 && frames[i] == Rle(d)[..|Rle(d)| - 1]
    ensures Decode(frames, size) == Panic(IndexOutOfBounds)
  {
    TruncatedPairsFail(d);
    DecodeStopsAt(frames, size, i);
  }

  /** Entry `i` of a successful encoding is the pair encoding of frame
      `i`'s delta against the original frame `i - 1`. */
  lemma EncodedEntry(frames: seq<Frame>, i: nat)
    requires Encode(frames).Ok? && 0 < i < |frames|
    ensures |frames[i]| <= |frames[i - 1]|
    ensures Encode(frames).value[i] == Rle(Delta(frames[i], frames[i - 1]))
  {
  }

  /** Replacing entry `i` leaves the entries before it alone. */
  lemma ReplaceKeepsPrefix(s: seq<Frame>, i: nat, x: Frame)
    requires i < |s|
    ensures s[i := x][..i] == s[..i] && s[i := x][i] == x && |s[i := x]| == |s|
  {
  }

  /** Truncation is always detected: encode frames of one common non-zero
      length, drop the last byte of any entry after the first, and decoding
      panics instead of producing a short or garbled frame. */
  lemma TruncationDetected(frames: seq<Frame>, size: nat, i: nat)
    requires forall k :: 0 <= k < |frames| ==> |frames[k]| == size
    requires size > 0 && 0 < i < |frames|
    ensures Encode(frames).Ok? && |Encode(frames).value[i]| > 0
    ensures var enc := Encode(frames).value;
      Decode(enc[i := enc[i][..|enc[i]| - 1]], size) == Panic(IndexOutOfBounds)
  {
    RoundTripPrefix(frames, size, i);
    var enc := Encode(frames).value;
    var d := Delta(frames[i], frames[i - 1]);
    EncodedEntry(frames, i);
    TruncatedPairsFail(d);
    var cut := enc[i := enc[i][..|enc[i]| - 1]];
    ReplaceKeepsPrefix(enc, i, enc[i][..|enc[i]| - 1]);
    TruncatedEntryPanics(cut, size, i, d);
  }

  /** The pairs of the black-to-white delta below: 8 bytes of 255, 2 of
      242, 2 of 255. */
  lemma BlackToWhitePairs()
    ensures Rle(Repeat(255, 8) + [242, 242, 255, 255]) == [8, 255, 2, 242, 2, 255]
  {
    var d := Repeat(255, 8) + [242, 242, 255, 255];
    RunAtUnique(d, 0, 8);
    RunAtUnique(d, 8, 2);
    RunAtUnique(d, 10, 2);
    assert RleFrom(d, 12) == [];
    assert RleFrom(d, 10) == [2, 255];
    assert RleFrom(d, 8) == [2, 242] + [2, 255];
    assert Rle(d) == [8, 255] + [2, 242, 2, 255];
  }

  /** A 4 x 2 video of a black frame followed by a white one, as the program
      lays them out: 8 Y bytes, then 2 U and 2 V bytes. For black every
      chroma sum at lines 44-45 is exactly 128. For white the U sum is just
      under 115 and the V sum just under 128, and the `as u8` casts truncate
      them to 114 and 127. The delta is 255 at the 8 Y positions, 242 at the
      U positions and 255 at the V positions. The whole-frame encoding is
      three pairs; decoding restores the white frame; and dropping the last
      byte of the pairs makes decoding panic instead of producing a short
      frame. */
  lemma BlackToWhite()
    ensures var black := Repeat(0, 8) + Repeat(128, 4);
      var white := Repeat(255, 8) + [114, 114, 127, 127];
      && Encode([black, white]) == Ok([black, [8, 255, 2, 242, 2, 255]])
      && Decode([black, [8, 255, 2, 242, 2, 255]], 12) == Ok([black, white])
      && Decode([black, [8, 255, 2, 242, 2]], 12) == Panic(IndexOutOfBounds)
  {
    var black := Repeat(0, 8) + Repeat(128, 4);
    var white := Repeat(255, 8) + [114, 114, 127, 127];
    var frames := [black, white];
    assert Delta(white, black) == Repeat(255, 8) + [242, 242, 255, 255];
    BlackToWhitePairs();
    assert Encodable(frames);
    assert EncodedFrame(frames, 1) == [8, 255, 2, 242, 2, 255];
    assert Encode(frames).value == [black, [8, 255, 2, 242, 2, 255]];
    RoundTrip(frames, 12);
    ExpandFails([8, 255, 2, 242, 2], 2);
    assert [black, [8, 255, 2, 242, 2]][..1] == [black];
  }
}
