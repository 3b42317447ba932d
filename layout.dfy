/** The integer layout of the YUV 4:2:0 frames the codec is applied to: the
    chroma downsampling of `uv_downsample`, which averages each 2 x 2 block
    of a full-resolution chroma plane into one byte of a quarter-size plane,
    and the `[Y][U][V]` concatenation of `yuv_encode`. The averaging itself
    is floating point and is a parameter here. */
module Layout {
  import opened Bytes
  import opened Outcomes
  import Codec

  /** Number of values `0, 2, 4, ...` below `n`: the iterations of a
      `(0..n).step_by(2)` loop. */
  function Steps(n: nat): nat {
    (n + 1) / 2
  }

  /** Offset of row `r` of a row-major plane `width` samples wide, that is
      `r * width`, accumulated one row at a time. */
  function RowStart(r: nat, width: nat): nat {
    if r == 0 then 0 else RowStart(r - 1, width) + width
  }

  lemma {:induction false} RowStartIsProduct(r: nat, width: nat)
    ensures RowStart(r, width) == r * width
  {
    if r > 0 {
      RowStartIsProduct(r - 1, width);
    }
  }

  /** Where `uv_downsample` stores the block whose top-left sample is at row
      `x`, column `y` of a plane `width` samples wide; the expression is
      evaluated left to right with truncating division, as in the program. */
  function ChromaIndex(x: nat, y: nat, width: nat): nat {
    x / 2 * width / 2 + y / 2
  }

  /** The chroma index of block `br`, `bc`, the block whose top-left sample
      is at row `2 * br`, column `2 * bc`. */
  function BlockIndex(br: nat, bc: nat, width: nat): nat {
    RowStart(br, width) / 2 + bc
  }

  lemma BlockIndexIsChromaIndex(br: nat, bc: nat, width: nat)
    ensures ChromaIndex(2 * br, 2 * bc, width) == BlockIndex(br, bc, width)
  {
    RowStartIsProduct(br, width);
  }

  /** The largest of the four sample indices read for block `br`, `bc`,
      `(x+1)*width+y+1` with `x = 2*br` and `y = 2*bc`, is below `len`; the
      other three are smaller. */
  predicate ReadsInBounds(br: nat, bc: nat, width: nat, len: nat) {
    RowStart(2 * br + 1, width) + 2 * bc + 1 < len
  }

  /** The byte `uv_downsample` computes for block `br`, `bc`: the averaging
      function applied to the four samples in row-major order. */
  function BlockValue<T>(buf: seq<T>, br: nat, bc: nat, width: nat, average: (T, T, T, T) -> Byte): Byte
    requires ReadsInBounds(br, bc, width, |buf|)
  {
    var top := RowStart(2 * br, width) + 2 * bc;
    var bottom := RowStart(2 * br + 1, width) + 2 * bc;
    average(buf[top], buf[top + 1], buf[bottom], buf[bottom + 1])
  }

  /** Block `br`, `bc` can be processed without an out-of-bounds panic: its
      reads of both planes and its writes into both quarter planes are
      within the buffers. */
  predicate BlockInBounds(br: nat, bc: nat, width: nat, uLen: nat, vLen: nat, uDownLen: nat, vDownLen: nat) {
    && ReadsInBounds(br, bc, width, uLen)
    && ReadsInBounds(br, bc, width, vLen)
    && BlockIndex(br, bc, width) < uDownLen
    && BlockIndex(br, bc, width) < vDownLen
  }

  /** Every block the two loops visit can be processed. */
  ghost predicate AllBlocksInBounds(width: nat, height: nat, uLen: nat, vLen: nat, uDownLen: nat, vDownLen: nat) {
    forall br: nat, bc: nat :: br < Steps(height) && bc < Steps(width) ==>
      BlockInBounds(br, bc, width, uLen, vLen, uDownLen, vDownLen)
  }

  /** Entry `BlockIndex(br, bc, width)` of `down` holds the average of block
      `br`, `bc` of `buf`. */
  ghost predicate Stored<T>(down: seq<Byte>, buf: seq<T>, br: nat, bc: nat, width: nat, average: (T, T, T, T) -> Byte) {
    && ReadsInBounds(br, bc, width, |buf|)
    && BlockIndex(br, bc, width) < |down|
    && down[BlockIndex(br, bc, width)] == BlockValue(buf, br, bc, width, average)
  }

  /** `uv_downsample`. It panics exactly when some block reads or writes out
      of bounds. On success with an even width, each block's average is
      stored at its chroma index in both quarter planes, and the entries
      past the last block's are unchanged. */
  method UvDownsample<T>(uBuf: seq<T>, vBuf: seq<T>, uDown: array<Byte>, vDown: array<Byte>,
                         width: nat, height: nat, average: (T, T, T, T) -> Byte) returns (r: Result<()>)
    requires uDown != vDown
    modifies uDown, vDown
    ensures r.Ok? <==> AllBlocksInBounds(width, height, |uBuf|, |vBuf|, uDown.Length, vDown.Length)
    ensures r.Panic? ==> r.reason == IndexOutOfBounds
    ensures r.Ok? && width % 2 == 0 ==> forall br: nat, bc: nat :: br < Steps(height) && bc < Steps(width) ==>
      Stored(uDown[..], uBuf, br, bc, width, average) && Stored(vDown[..], vBuf, br, bc, width, average)
    ensures r.Ok? && width % 2 == 0 ==> forall k :: RowStart(Steps(height), width / 2) <= k < uDown.Length ==>
      uDown[k] == old(uDown[k])
    ensures r.Ok? && width % 2 == 0 ==> forall k :: RowStart(Steps(height), width / 2) <= k < vDown.Length ==>
      vDown[k] == old(vDown[k])
  {
    ghost var even := width % 2 == 0;
    var x: nat := 0;
    ghost var br: nat := 0;
    while x < height
      invariant x == 2 * br && br <= Steps(height)
      invariant forall br': nat, bc: nat :: br' < br && bc < Steps(width) ==>
        BlockInBounds(br', bc, width, |uBuf|, |vBuf|, uDown.Length, vDown.Length)
      invariant even ==> forall br': nat, bc: nat :: br' < br && bc < Steps(width) ==>
        Stored(uDown[..], uBuf, br', bc, width, average) && Stored(vDown[..], vBuf, br', bc, width, average)
      invariant even ==> forall k :: RowStart(br, width / 2) <= k < uDown.Length ==> uDown[k] == old(uDown[k])
      invariant even ==> forall k :: RowStart(br, width / 2) <= k < vDown.Length ==> vDown[k] == old(vDown[k])
      decreases height - x
    {
      r := DownsampleRow(uBuf, vBuf, uDown, vDown, width, average, x, br);
      if r.Panic? {
        return;
      }
      x, br := x + 2, br + 1;
    }
    r := Ok(());
  }

  /** One pass of the outer loop of `uv_downsample`: the blocks of sample
      row `x`, block row `br`, left to right. With an even width they fill
      the entries from `RowStart(br, width / 2)` on, one after the other. */
  method DownsampleRow<T>(uBuf: seq<T>, vBuf: seq<T>, uDown: array<Byte>, vDown: array<Byte>,
                          width: nat, average: (T, T, T, T) -> Byte, x: nat, ghost br: nat) returns (r: Result<()>)
    requires uDown != vDown
    requires x == 2 * br
    requires width % 2 == 0 ==> forall br': nat, bc: nat :: br' < br && bc < Steps(width) ==>
      Stored(uDown[..], uBuf, br', bc, width, average) && Stored(vDown[..], vBuf, br', bc, width, average)
    modifies uDown, vDown
    ensures r.Ok? <==> forall bc: nat :: bc < Steps(width) ==>
      BlockInBounds(br, bc, width, |uBuf|, |vBuf|, uDown.Length, vDown.Length)
    ensures r.Panic? ==> r.reason == IndexOutOfBounds
    ensures r.Ok? && width % 2 == 0 ==> forall br': nat, bc: nat :: br' <= br && bc < Steps(width) ==>
      Stored(uDown[..], uBuf, br', bc, width, average) && Stored(vDown[..], vBuf, br', bc, width, average)
    ensures r.Ok? && width % 2 == 0 ==> forall k :: RowStart(br + 1, width / 2) <= k < uDown.Length ==>
      uDown[k] == old(uDown[k])
    ensures r.Ok? && width % 2 == 0 ==> forall k :: RowStart(br + 1, width / 2) <= k < vDown.Length ==>
      vDown[k] == old(vDown[k])
  {
    ghost var even := width % 2 == 0;
    if even {
      EarlierRowsStoredBelow(br, width);
    }
    var y: nat := 0;
    ghost var bc: nat := 0;
    while y < width
      invariant y == 2 * bc && bc <= Steps(width)
      invariant forall bc': nat :: bc' < bc ==>
        BlockInBounds(br, bc', width, |uBuf|, |vBuf|, uDown.Length, vDown.Length)
      invariant even ==> forall br': nat, bc': nat :: br' < br && bc' < Steps(width) ==>
        Stored(uDown[..], uBuf, br', bc', width, average) && Stored(vDown[..], vBuf, br', bc', width, average)
      invariant even ==> forall bc': nat :: bc' < bc ==>
        Stored(uDown[..], uBuf, br, bc', width, average) && Stored(vDown[..], vBuf, br, bc', width, average)
      invariant even ==> forall k :: RowStart(br, width / 2) + bc <= k < uDown.Length ==> uDown[k] == old(uDown[k])
      invariant even ==> forall k :: RowStart(br, width / 2) + bc <= k < vDown.Length ==> vDown[k] == old(vDown[k])
      decreases width - y
    {
      if even {
        HalfRowStart(br, width);
      }
      ghost var uBefore, vBefore := uDown[..], vDown[..];
      r := DownsampleBlock(uBuf, vBuf, uDown, vDown, width, average, x, y, br, bc);
      if r.Panic? {
        return;
      }
      if even {
        StoreNextBlock(uBefore, uBuf, width, average, br, bc);
        StoreNextBlock(vBefore, vBuf, width, average, br, bc);
      }
      y, bc := y + 2, bc + 1;
    }
    r := Ok(());
  }

  /** One pass of the inner loop of `uv_downsample`: average block `br`,
      `bc` of both planes and store the two bytes at the block's chroma
      index; a read or write out of bounds panics. */
  method DownsampleBlock<T>(uBuf: seq<T>, vBuf: seq<T>, uDown: array<Byte>, vDown: array<Byte>,
                            width: nat, average: (T, T, T, T) -> Byte, x: nat, y: nat, ghost br: nat, ghost bc: nat)
    returns (r: Result<()>)
    requires uDown != vDown
    requires x == 2 * br && y == 2 * bc
    modifies uDown, vDown
    ensures r.Ok? <==> BlockInBounds(br, bc, width, |uBuf|, |vBuf|, uDown.Length, vDown.Length)
    ensures r.Panic? ==> r.reason == IndexOutOfBounds
    ensures r.Ok? ==> uDown[..] == old(uDown[..])[BlockIndex(br, bc, width) := BlockValue(uBuf, br, bc, width, average)]
    ensures r.Ok? ==> vDown[..] == old(vDown[..])[BlockIndex(br, bc, width) := BlockValue(vBuf, br, bc, width, average)]
  {
    RowStartIsProduct(x, width);
    RowStartIsProduct(x + 1, width);
    if (x + 1) * width + y + 1 >= |uBuf| {
      return Panic(IndexOutOfBounds);
    }
    var u := average(uBuf[x * width + y], uBuf[x * width + y + 1], uBuf[(x + 1) * width + y], uBuf[(x + 1) * width + y + 1]);
    if (x + 1) * width + y + 1 >= |vBuf| {
      return Panic(IndexOutOfBounds);
    }
    var v := average(vBuf[x * width + y], vBuf[x * width + y + 1], vBuf[(x + 1) * width + y], vBuf[(x + 1) * width + y + 1]);
    var k := ChromaIndex(x, y, width);
    BlockIndexIsChromaIndex(br, bc, width);
    if k >= uDown.Length {
      return Panic(IndexOutOfBounds);
    }
    uDown[k] := u;
    if k >= vDown.Length {
      return Panic(IndexOutOfBounds);
    }
    vDown[k] := v;
    r := Ok(());
  }

  /** For an even width, row offsets halve with the width. */
  lemma {:induction false} HalfRowStart(r: nat, width: nat)
    requires width % 2 == 0
    ensures RowStart(r, width) == 2 * RowStart(r, width / 2)
  {
    if r > 0 {
      HalfRowStart(r - 1, width);
    }
  }

  /** A later row starts past every entry of an earlier one. */
  lemma {:induction false} RowStartMonotone(r: nat, r': nat, w: nat)
    requires r < r'
    ensures RowStart(r, w) + w <= RowStart(r', w)
    decreases r' - r
  {
    if r + 1 < r' {
      RowStartMonotone(r + 1, r', w);
    }
  }

  /** For an even width, the blocks of rows before `br` are stored below
      `RowStart(br, width / 2)`, where row `br` begins. */
  lemma EarlierRowsStoredBelow(br: nat, width: nat)
    requires width % 2 == 0
    ensures forall br': nat, bc: nat :: br' < br && bc < Steps(width) ==>
      BlockIndex(br', bc, width) < RowStart(br, width / 2)
  {
    forall br': nat, bc: nat | br' < br && bc < Steps(width)
      ensures BlockIndex(br', bc, width) < RowStart(br, width / 2)
    {
      HalfRowStart(br', width);
      RowStartMonotone(br', br, width / 2);
    }
  }

  /** With an even width, storing block `br`, `bc` at its index keeps every
      block stored before it (all at smaller indices) and changes nothing
      from the next block's index on. */
  lemma StoreNextBlock<T>(down: seq<Byte>, buf: seq<T>, width: nat, average: (T, T, T, T) -> Byte, br: nat, bc: nat)
    requires width % 2 == 0
    requires ReadsInBounds(br, bc, width, |buf|) && BlockIndex(br, bc, width) < |down|
    requires forall br': nat, bc': nat :: br' < br && bc' < Steps(width) ==> Stored(down, buf, br', bc', width, average)
    requires forall bc': nat :: bc' < bc ==> Stored(down, buf, br, bc', width, average)
    ensures var after := down[BlockIndex(br, bc, width) := BlockValue(buf, br, bc, width, average)];
      && (forall br': nat, bc': nat :: br' < br && bc' < Steps(width) ==> Stored(after, buf, br', bc', width, average))
      && (forall bc': nat :: bc' <= bc ==> Stored(after, buf, br, bc', width, average))
      && (forall k :: RowStart(br, width / 2) + bc < k < |down| ==> after[k] == down[k])
      && BlockIndex(br, bc, width) == RowStart(br, width / 2) + bc
  {
    var k := BlockIndex(br, bc, width);
    var after := down[k := BlockValue(buf, br, bc, width, average)];
    HalfRowStart(br, width);
    EarlierRowsStoredBelow(br, width);
    forall br': nat, bc': nat | br' < br && bc' < Steps(width)
      ensures Stored(after, buf, br', bc', width, average)
    {
      assert Stored(down, buf, br', bc', width, average);
      assert BlockIndex(br', bc', width) < k;
    }
    forall bc': nat | bc' < bc
      ensures Stored(after, buf, br, bc', width, average)
    {
      assert Stored(down, buf, br, bc', width, average);
      assert BlockIndex(br, bc', width) < k;
    }
  }

  /** With even width and height the quarter planes have `(height / 2) *
      (width / 2)` entries, exactly the number of blocks, and the blocks
      fill them from the first entry to the last. */
  lemma QuarterPlaneFilled(width: nat, height: nat)
    requires width % 2 == 0 && height % 2 == 0
    ensures Steps(width) == width / 2 && Steps(height) == height / 2
    ensures RowStart(Steps(height), width / 2) == width * height / 4
  {
    var w2, h2 := width / 2, height / 2;
    RowStartIsProduct(h2, w2);
    assert width * height == 4 * (h2 * w2) by {
      assert width * height == (2 * w2) * (2 * h2);
    }
  }

  /** Block `br`, `bc` of even-sized planes lies within planes of
      `width * height` samples and quarter planes of `width * height / 4`
      entries. */
  lemma EvenBlockInBounds(width: nat, height: nat, br: nat, bc: nat)
    requires width % 2 == 0 && height % 2 == 0
    requires br < height / 2 && bc < width / 2
    ensures ReadsInBounds(br, bc, width, width * height)
    ensures BlockIndex(br, bc, width) < width * height / 4
  {
    var w2, h2 := width / 2, height / 2;
    RowStartMonotone(2 * br + 1, height, width);
    RowStartIsProduct(height, width);
    HalfRowStart(br, width);
    RowStartMonotone(br, h2, w2);
    QuarterPlaneFilled(width, height);
  }

  /** For the buffer sizes `yuv_encode` passes (`width * height` samples per
      chroma plane, `width * height / 4` entries per quarter plane),
      `uv_downsample` stays in bounds exactly when the picture is empty or
      both dimensions are even. An odd height overruns in the last sample
      row; an odd width overruns at the last block of the last row pair. */
  lemma DownsampleFitsIff(width: nat, height: nat)
    ensures var area := width * height;
      AllBlocksInBounds(width, height, area, area, area / 4, area / 4) <==>
        width == 0 || height == 0 || (width % 2 == 0 && height % 2 == 0)
  {
    if width == 0 || height == 0 {
    } else if width % 2 == 0 && height % 2 == 0 {
      EvenPlanesFit(width, height);
    } else if height % 2 == 1 {
      OddHeightOverruns(width, height);
    } else {
      OddWidthOverruns(width, height);
    }
  }

  lemma EvenPlanesFit(width: nat, height: nat)
    requires width % 2 == 0 && height % 2 == 0
    ensures var area := width * height;
      AllBlocksInBounds(width, height, area, area, area / 4, area / 4)
  {
    var area := width * height;
    forall br: nat, bc: nat | br < Steps(height) && bc < Steps(width)
      ensures BlockInBounds(br, bc, width, area, area, area / 4, area / 4)
    {
      EvenBlockInBounds(width, height, br, bc);
    }
  }

  /** With an odd height the last sample row has no row below it: the
      first block of that row reads one row past the plane. */
  lemma OddHeightOverruns(width: nat, height: nat)
    requires width > 0 && height % 2 == 1
    ensures var area := width * height;
      !AllBlocksInBounds(width, height, area, area, area / 4, area / 4)
  {
    var area := width * height;
    var br := height / 2;
    assert 2 * br + 1 == height && br < Steps(height) && 0 < Steps(width);
    RowStartIsProduct(height, width);
    assert !BlockInBounds(br, 0, width, area, area, area / 4, area / 4);
  }

  /** With an odd width (and an even, non-zero height) the last block of the
      last row pair reads one sample past the plane. */
  lemma OddWidthOverruns(width: nat, height: nat)
    requires width % 2 == 1 && height > 0 && height % 2 == 0
    ensures var area := width * height;
      !AllBlocksInBounds(width, height, area, area, area / 4, area / 4)
  {
    var area := width * height;
    var br, bc := height / 2 - 1, width / 2;
    assert 2 * br + 1 == height - 1 && 2 * bc + 1 == width;
    RowStartIsProduct(height - 1, width);
    assert (height - 1) * width + width == area;
    assert !BlockInBounds(br, bc, width, area, area, area / 4, area / 4);
  }

  /** The frame `yuv_encode` builds from the Y plane and the two quarter
      planes, laid end to end. */
  function YuvFrame(y: seq<Byte>, u: seq<Byte>, v: seq<Byte>): (f: Codec.Frame)
    ensures |f| == |y| + |u| + |v|
    ensures f[..|y|] == y && f[|y|..|y| + |u|] == u && f[|y| + |u|..] == v
  {
    y + u + v
  }

  /** Bytes per frame `yuv_encode` produces: a full Y plane and two quarter
      planes. */
  function YuvFrameSize(width: nat, height: nat): nat {
    width * height + 2 * (width * height / 4)
  }

  /** The codec as the program uses it, on the output of `yuv_encode`: all
      frames built from a `width * height` Y plane and two
      `width * height / 4` chroma planes have the same length, so they
      encode, and decoding with that length gives them back. */
  lemma YuvVideoRoundTrip(ys: seq<seq<Byte>>, us: seq<seq<Byte>>, vs: seq<seq<Byte>>, width: nat, height: nat)
    requires |ys| == |us| == |vs|
    requires forall i :: 0 <= i < |ys| ==> |ys[i]| == width * height
    requires forall i :: 0 <= i < |us| ==> |us[i]| == width * height / 4
    requires forall i :: 0 <= i < |vs| ==> |vs[i]| == width * height / 4
    ensures var frames := seq(|ys|, i requires 0 <= i < |ys| && |ys| == |us| == |vs| => YuvFrame(ys[i], us[i], vs[i]));
      && (forall i :: 0 <= i < |frames| ==> |frames[i]| == YuvFrameSize(width, height))
      && Codec.Encode(frames).Ok?
      && Codec.Decode(Codec.Encode(frames).value, YuvFrameSize(width, height)) == Ok(frames)
  {
    var frames := seq(|ys|, i requires 0 <= i < |ys| && |ys| == |us| == |vs| => YuvFrame(ys[i], us[i], vs[i]));
    Codec.RoundTrip(frames, YuvFrameSize(width, height));
  }
}
