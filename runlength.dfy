/** The byte-pair run-length code used for every delta frame: a frame is a
    sequence of `(count, value)` byte pairs, each standing for `count`
    copies of `value`. */
module RunLength {
  import opened Bytes
  import opened Outcomes

  /** `n` copies of `v`. */
  function Repeat(v: Byte, n: nat): (r: seq<Byte>)
    ensures |r| == n
    ensures forall k :: 0 <= k < n ==> r[k] == v
  {
    seq(n, _ => v)
  }

  /** The inner counting loop of `rle_encode`, as a tail recursion: from
      `count` bytes already counted at position `j`, keep counting while the
      count is under 255, the input has not ended and the next byte equals
      `d[j]`. The result is where the loop stops. */
  function RunFrom(d: seq<Byte>, j: nat, count: nat): (r: nat)
    requires j < |d| && count <= 255 && j + count <= |d|
    ensures count <= r <= 255 && j + r <= |d|
    decreases 255 - count
  {
    if count < 255 && j + count < |d| && d[j + count] == d[j] then RunFrom(d, j, count + 1)
    else count
  }

  /** The counting loop only passes bytes equal to `d[j]`, and stops where
      the next byte differs, the input ends or the count reaches 255. */
  lemma {:induction false} RunFromStops(d: seq<Byte>, j: nat, count: nat)
    requires j < |d| && count <= 255 && j + count <= |d|
    ensures forall k :: j + count <= k < j + RunFrom(d, j, count) ==> d[k] == d[j]
    ensures var r := RunFrom(d, j, count); r == 255 || j + r == |d| || d[j + r] != d[j]
    decreases 255 - count
  {
    if count < 255 && j + count < |d| && d[j + count] == d[j] {
      RunFromStops(d, j, count + 1);
    }
  }

  /** The count the encoder emits for the run starting at `j`. */
  function RunAt(d: seq<Byte>, j: nat): (n: nat)
    requires j < |d|
    ensures 1 <= n <= 255 && j + n <= |d|
  {
    RunFrom(d, j, 0)
  }

  /** The run starting at `j` is `RunAt(d, j)` equal bytes, closed where the
      next byte differs, the input ends or the count reaches 255. */
  lemma RunAtIsRun(d: seq<Byte>, j: nat)
    requires j < |d|
    ensures forall k :: j <= k < j + RunAt(d, j) ==> d[k] == d[j]
    ensures var n := RunAt(d, j); n == 255 || j + n == |d| || d[j + n] != d[j]
  {
    RunFromStops(d, j, 0);
  }

  /** The closing conditions determine the count: a length that stays
      within one run and ends where the next byte differs, the input ends or
      the count reaches 255 is `RunAt(d, j)`. */
  lemma RunAtUnique(d: seq<Byte>, j: nat, n: nat)
    requires j < |d| && n <= 255 && j + n <= |d|
    requires forall k :: j <= k < j + n ==> d[k] == d[j]
    requires n == 255 || j + n == |d| || d[j + n] != d[j]
    ensures n == RunAt(d, j)
  {
    RunAtIsRun(d, j);
  }

  /** The pairs `rle_encode` emits for the bytes of `d` from position `j`. */
  function RleFrom(d: seq<Byte>, j: nat): seq<Byte>
    requires j <= |d|
    decreases |d| - j
  {
    if j == |d| then []
    else
      var n := RunAt(d, j);
      [n, d[j]] + RleFrom(d, j + n)
  }

  /** The pair encoding of one delta frame. */
  function Rle(d: seq<Byte>): seq<Byte> {
    RleFrom(d, 0)
  }

  /** Number of runs the encoder finds in `d` from position `j`. */
  function RunCount(d: seq<Byte>, j: nat): nat
    requires j <= |d|
    decreases |d| - j
  {
    if j == |d| then 0 else 1 + RunCount(d, j + RunAt(d, j))
  }

  /** The count byte of pair `i` of a pair sequence. */
  function CountByte(p: seq<Byte>, i: nat): Byte
    requires 2 * i < |p|
  {
    p[2 * i]
  }

  /** An encoded frame is made of whole pairs, one per run. */
  lemma {:induction false} RleEven(d: seq<Byte>, j: nat)
    requires j <= |d|
    ensures |RleFrom(d, j)| == 2 * RunCount(d, j)
    decreases |d| - j
  {
    if j < |d| {
      RleEven(d, j + RunAt(d, j));
    }
  }

  /** An encoded frame has at most one pair per byte of input, and is empty
      exactly when the input is. */
  lemma {:induction false} RleLengthBound(d: seq<Byte>, j: nat)
    requires j <= |d|
    ensures |RleFrom(d, j)| <= 2 * (|d| - j)
    ensures |RleFrom(d, j)| == 0 <==> j == |d|
    decreases |d| - j
  {
    if j < |d| {
      RleLengthBound(d, j + RunAt(d, j));
    }
  }

  /** The count byte of pair `i` of the encoding from `j` is between 1 and
      255. */
  lemma {:induction false} RleCountAt(d: seq<Byte>, j: nat, i: nat)
    requires j <= |d| && i < RunCount(d, j)
    ensures 2 * i < |RleFrom(d, j)|
    ensures 1 <= CountByte(RleFrom(d, j), i) <= 255
    decreases i
  {
    var n := RunAt(d, j);
    var rest := RleFrom(d, j + n);
    RleEven(d, j + n);
    if i > 0 {
      RleCountAt(d, j + n, i - 1);
      assert ([n, d[j]] + rest)[2 * i] == rest[2 * (i - 1)];
    }
  }

  /** Every count byte of an encoded frame is between 1 and 255. */
  lemma RleCountsInRange(d: seq<Byte>)
    ensures |Rle(d)| == 2 * RunCount(d, 0)
    ensures forall i :: 0 <= i < RunCount(d, 0) ==> 1 <= CountByte(Rle(d), i) <= 255
  {
    RleEven(d, 0);
    forall i | 0 <= i < RunCount(d, 0) ensures 1 <= CountByte(Rle(d), i) <= 255 {
      RleCountAt(d, 0, i);
    }
  }

  /** Each run is maximal below the cap: a pair whose count is under 255 is
      never followed by a pair with the same value. */
  lemma {:induction false} RleRunsMaximal(d: seq<Byte>, j: nat, i: nat)
    requires j <= |d|
    requires 2 * i + 3 < |RleFrom(d, j)|
    requires RleFrom(d, j)[2 * i] < 255
    ensures RleFrom(d, j)[2 * i + 1] != RleFrom(d, j)[2 * i + 3]
    decreases i
  {
    var n := RunAt(d, j);
    var rest := RleFrom(d, j + n);
    assert RleFrom(d, j)[2..] == rest;
    if i == 0 {
      RunAtIsRun(d, j);
      assert rest[1] == d[j + n];
    } else {
      RleRunsMaximal(d, j + n, i - 1);
    }
  }

  /** A run of 256 equal bytes is split at the 255 cap: (255, v), (1, v). */
  lemma RleSplitsAtCap(v: Byte)
    ensures Rle(Repeat(v, 256)) == [255, v, 1, v]
  {
    var d := Repeat(v, 256);
    RunAtUnique(d, 0, 255);
    RunAtUnique(d, 255, 1);
    assert RleFrom(d, 256) == [];
    assert RleFrom(d, 255) == [1, v];
    assert RleFrom(d, 0) == [255, v] + [1, v];
  }

  /** The expansion loop of `rle_decode`, which walks the vector two bytes
      at a time and pushes `count` copies of `value` for each pair. On an odd
      length the last step reads only a count byte: a zero count pushes
      nothing, any other count reads the missing value byte and panics. */
  function Expand(p: seq<Byte>): Option<seq<Byte>>
    decreases |p|
  {
    if |p| == 0 then Some([])
    else if |p| == 1 then (if p[0] == 0 then Some([]) else None)
    else
      match Expand(p[2..])
      case None => None
      case Some(rest) => Some(Repeat(p[1], p[0]) + rest)
  }

  /** `prefix` in front of a successful expansion; a failure stays one. */
  function Prepend(prefix: seq<Byte>, r: Option<seq<Byte>>): Option<seq<Byte>> {
    match r
    case None => None
    case Some(s) => Some(prefix + s)
  }

  /** Nothing in front changes nothing. */
  lemma PrependEmpty(r: Option<seq<Byte>>)
    ensures Prepend([], r) == r
  {
    if r.Some? {
      assert [] + r.value == r.value;
    }
  }

  /** Two prefixes in front of an expansion are their concatenation. */
  lemma PrependAppend(a: seq<Byte>, b: seq<Byte>, r: Option<seq<Byte>>)
    ensures Prepend(a, Prepend(b, r)) == Prepend(a + b, r)
  {
    if r.Some? {
      assert a + (b + r.value) == (a + b) + r.value;
    }
  }

  /** One step of the expansion loop at position `j`: a whole pair adds
      its run in front of the expansion of what follows; a lone final count
      byte ends the expansion if it is zero and fails otherwise. */
  lemma ExpandAt(p: seq<Byte>, j: nat)
    requires j < |p|
    ensures j + 1 < |p| ==> Expand(p[j..]) == Prepend(Repeat(p[j + 1], p[j]), Expand(p[j + 2..]))
    ensures j + 1 == |p| ==> Expand(p[j..]) == if p[j] == 0 then Some([]) else None
  {
    if j + 1 < |p| {
      assert p[j..][2..] == p[j + 2..];
    }
  }

  /** Sum of the count bytes of the whole pairs in `p`. */
  function CountSum(p: seq<Byte>): nat
    decreases |p|
  {
    if |p| < 2 then 0 else p[0] + CountSum(p[2..])
  }

  /** The expansion fails exactly on an odd-length vector whose lone final
      count byte is not zero. */
  lemma {:induction false} ExpandFails(p: seq<Byte>, m: nat)
    requires |p| == 2 * m || |p| == 2 * m + 1
    ensures Expand(p).None? <==> |p| == 2 * m + 1 && p[|p| - 1] != 0
    decreases m
  {
    if m > 0 {
      ExpandFails(p[2..], m - 1);
    }
  }

  /** A successful expansion is as long as the sum of the counts. */
  lemma {:induction false} ExpandLength(p: seq<Byte>)
    requires Expand(p).Some?
    ensures |Expand(p).value| == CountSum(p)
    decreases |p|
  {
    if |p| >= 2 {
      ExpandLength(p[2..]);
    }
  }

  /** A suffix is its leading run followed by what comes after the run. */
  lemma RunSplit(d: seq<Byte>, j: nat)
    requires j < |d|
    ensures d[j..] == Repeat(d[j], RunAt(d, j)) + d[j + RunAt(d, j)..]
  {
    RunAtIsRun(d, j);
  }

  /** One pair in front of an expandable rest expands to its run in front
      of the rest's expansion. */
  lemma ExpandStep(p: seq<Byte>, c: Byte, v: Byte, rest: seq<Byte>, tail: seq<Byte>, whole: seq<Byte>)
    requires p == [c, v] + rest
    requires Expand(rest) == Some(tail)
    requires whole == Repeat(v, c) + tail
    ensures Expand(p) == Some(whole)
  {
    assert p[0] == c && p[1] == v && p[2..] == rest;
  }

  /** Round trip: expanding the encoder's pairs gives back the input. */
  lemma {:induction false} RleRoundTrip(d: seq<Byte>, j: nat)
    requires j <= |d|
    ensures Expand(RleFrom(d, j)) == Some(d[j..])
    decreases |d| - j
  {
    if j < |d| {
      var n := RunAt(d, j);
      RleRoundTrip(d, j + n);
      RunSplit(d, j);
      ExpandStep(RleFrom(d, j), n, d[j], RleFrom(d, j + n), d[j + n..], d[j..]);
    } else {
      assert d[j..] == [];
    }
  }

  /** Expanding the pairs of a whole frame gives the frame back. */
  lemma RleInverse(d: seq<Byte>)
    ensures Expand(Rle(d)) == Some(d)
  {
    RleRoundTrip(d, 0);
    assert d[0..] == d;
  }

  /** The counts of an encoded frame add up to the frame's length. */
  lemma RleCountSum(d: seq<Byte>)
    ensures CountSum(Rle(d)) == |d|
  {
    RleRoundTrip(d, 0);
    ExpandLength(Rle(d));
  }

  /** Dropping the last byte of a non-empty encoded delta always makes the
      expansion fail: what remains ends with a lone count byte, and every
      count the encoder emits is at least 1. */
  lemma TruncatedPairsFail(d: seq<Byte>)
    requires |d| > 0
    ensures |Rle(d)| > 0
    ensures Expand(Rle(d)[..|Rle(d)| - 1]).None?
  {
    RleCountsInRange(d);
    RleLengthBound(d, 0);
    var e := Rle(d);
    var m := RunCount(d, 0);
    var t := e[..|e| - 1];
    assert |t| == 2 * (m - 1) + 1;
    assert t[|t| - 1] == CountByte(e, m - 1);
    ExpandFails(t, m - 1);
  }
}
