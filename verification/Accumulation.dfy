/** Sums of frames: the saturating running sum, and what it conserves. */
module Accumulation {
  import opened Arith
  import opened Counting

  const WRAP: int := 0x1_0000_0000_0000_0000
  const MAX64: int := WRAP - 1
  const INT64_MAX: int := 0x7FFF_FFFF_FFFF_FFFF
  const MAX32: int := 0xFFFF_FFFF
  const MAX_FRAMES: int := 100000

  type U32 = x: int | 0 <= x <= MAX32
  type U64 = x: int | 0 <= x <= MAX64

  /** The bins, or pixels, of one frame. */
  type Frame = seq<U32>

  function Capped(x: nat): U64 {
    if x > MAX64 then MAX64 else x
  }

  /** A 64-bit counter keeps this much of x. */
  function Low64(x: nat): U64 {
    x % WRAP
  }

  lemma Low64Add(a: nat, b: nat)
    ensures (Low64(a) + Low64(b)) % WRAP == Low64(a + b)
    ensures a < WRAP ==> Low64(a) == a
  {
    var q, r := a / WRAP + b / WRAP, Low64(a) + Low64(b);
    assert a + b == q * WRAP + r;
    if r < WRAP {
      DivMod(WRAP, q, r);
      DivMod(WRAP, 0, r);
    } else {
      DivMod(WRAP, q + 1, r - WRAP);
      DivMod(WRAP, 1, r - WRAP);
    }
    if a < WRAP {
      DivMod(WRAP, 0, a);
    }
  }

  /** The code adds modulo 2^64 and looks for a sum that got smaller; that finds
      every overflow of a 32-bit addend. */
  lemma WrapDetected(a: U64, b: U32)
    ensures var n := (a + b) % WRAP; (if n < a then MAX64 else n) == Capped(a + b)
  {
    if a + b >= WRAP {
      assert (a + b) % WRAP == a + b - WRAP;
    }
  }

  // ----- sums over a sequence of frames

  function BinOf(f: Frame, b: nat): U32 {
    if b < |f| then f[b] else 0
  }

  /** Exact sum of bin b over the frames. */
  function BinSum(frames: seq<Frame>, b: nat): nat {
    if frames == [] then 0 else BinSum(frames[..|frames| - 1], b) + BinOf(frames[|frames| - 1], b)
  }

  /** Exact sum of the first n bins of a frame. */
  function FrameTotal(f: Frame, n: nat): nat
    requires n <= |f|
  {
    if n == 0 then 0 else FrameTotal(f, n - 1) + f[n - 1]
  }

  /** Exact sum of every bin of every frame. */
  function GrandTotal(frames: seq<Frame>): nat {
    if frames == [] then 0
    else GrandTotal(frames[..|frames| - 1]) + FrameTotal(frames[|frames| - 1], |frames[|frames| - 1]|)
  }

  /** The running sum as the code computes it, one capped addition a frame. */
  function SaturatingFold(frames: seq<Frame>, b: nat): U64 {
    if frames == [] then 0 else Capped(SaturatingFold(frames[..|frames| - 1], b) + BinOf(frames[|frames| - 1], b))
  }

  lemma {:induction false} FoldIsCappedSum(frames: seq<Frame>, b: nat)
    ensures SaturatingFold(frames, b) == Capped(BinSum(frames, b))
  {
    if frames == [] {
    } else {
      FoldIsCappedSum(frames[..|frames| - 1], b);
    }
  }

  lemma {:induction false} BinSumAppend(a: seq<Frame>, c: seq<Frame>, b: nat)
    ensures BinSum(a + c, b) == BinSum(a, b) + BinSum(c, b)
  {
    if c == [] {
      assert a + c == a;
    } else {
      assert (a + c)[..|a + c| - 1] == a + c[..|c| - 1];
      BinSumAppend(a, c[..|c| - 1], b);
    }
  }

  lemma BinSumSnoc(frames: seq<Frame>, f: Frame, b: nat)
    ensures BinSum(frames + [f], b) == BinSum(frames, b) + BinOf(f, b)
  {
    assert (frames + [f])[..|frames|] == frames;
  }

  lemma BinSumInsert(p: seq<Frame>, x: Frame, q: seq<Frame>, b: nat)
    ensures BinSum(p + [x] + q, b) == BinSum(p + q, b) + BinOf(x, b)
  {
    BinSumAppend(p + [x], q, b);
    BinSumAppend(p, q, b);
    assert (p + [x])[..|p|] == p;
  }

  lemma {:induction false} BinSumOrder(a: seq<Frame>, c: seq<Frame>, b: nat)
    requires multiset(a) == multiset(c)
    ensures BinSum(a, b) == BinSum(c, b)
  {
    if a == [] {
      assert |multiset(c)| == 0;
    } else {
      var front, last := a[..|a| - 1], a[|a| - 1];
      assert a == front + [last];
      assert last in multiset(c);
      var i :| 0 <= i < |c| && c[i] == last;
      var p, q := c[..i], c[i + 1..];
      assert c == p + [last] + q;
      DropSame(front, last, p, q);
      BinSumInsert(p, last, q, b);
      BinSumOrder(front, p + q, b);
    }
  }

  /** The order in which frames arrive does not matter. */
  lemma OrderIrrelevant(a: seq<Frame>, c: seq<Frame>, b: nat)
    requires multiset(a) == multiset(c)
    ensures SaturatingFold(a, b) == SaturatingFold(c, b)
  {
    BinSumOrder(a, c, b);
    FoldIsCappedSum(a, b);
    FoldIsCappedSum(c, b);
  }

  lemma {:induction false} BinSumBound(frames: seq<Frame>, b: nat)
    ensures BinSum(frames, b) <= |frames| * MAX32
  {
    if frames == [] {
    } else {
      BinSumBound(frames[..|frames| - 1], b);
    }
  }

  // ----- conservation of counts

  predicate Uniform(frames: seq<Frame>, n: nat) {
    forall f | f in frames :: |f| == n
  }

  // The bins as functions of their index.

  function Bins(f: Frame): int -> int {
    b => if b >= 0 then BinOf(f, b) else 0
  }

  function BinSums(frames: seq<Frame>): int -> int {
    b => if b >= 0 then BinSum(frames, b) else 0
  }

  function StoredBins(frames: seq<Frame>): int -> int {
    b => if b >= 0 then Capped(BinSum(frames, b)) else 0
  }

  lemma {:induction false} FrameTotalIsSum(f: Frame, n: nat)
    requires n <= |f|
    ensures FrameTotal(f, n) == Sum(n, Bins(f))
  {
    if n == 0 {
    } else {
      FrameTotalIsSum(f, n - 1);
    }
  }

  /** Summing by bins or by frames gives the same total. */
  lemma {:induction false} TotalByBins(frames: seq<Frame>, n: nat)
    requires Uniform(frames, n)
    ensures GrandTotal(frames) == Sum(n, BinSums(frames))
  {
    if frames == [] {
      SumZero(n, BinSums(frames));
    } else {
      var front, last := frames[..|frames| - 1], frames[|frames| - 1];
      TotalByBins(front, n);
      FrameTotalIsSum(last, n);
      var f, g := BinSums(front), Bins(last);
      SumAdd(n, f, g);
      SumSame(n, BinSums(frames), b => f(b) + g(b));
    }
  }

  /** Sum of the running sum's bins. */
  function StoredTotal(frames: seq<Frame>, n: nat): int {
    Sum(n, StoredBins(frames))
  }

  /** Counts above the cap of each bin. */
  function LostBins(frames: seq<Frame>): int -> int {
    b => if b >= 0 then BinSum(frames, b) - Capped(BinSum(frames, b)) else 0
  }

  lemma TotalWithLost(frames: seq<Frame>, n: nat)
    requires Uniform(frames, n)
    ensures GrandTotal(frames) == StoredTotal(frames, n) + Sum(n, LostBins(frames))
  {
    TotalByBins(frames, n);
    var stored, lost := StoredBins(frames), LostBins(frames);
    SumAdd(n, stored, lost);
    SumSame(n, BinSums(frames), b => stored(b) + lost(b));
  }

  predicate Unsaturated(frames: seq<Frame>, n: nat) {
    forall b | 0 <= b < n :: BinSum(frames, b) <= MAX64
  }

  /** The bins hold every count exactly when no bin has saturated. */
  lemma StoredTotalExact(frames: seq<Frame>, n: nat)
    requires Uniform(frames, n)
    ensures StoredTotal(frames, n) == GrandTotal(frames) <==> Unsaturated(frames, n)
  {
    TotalWithLost(frames, n);
    var lost := LostBins(frames);
    SumZero(n, lost);
    assert forall b | 0 <= b < n :: lost(b) == 0 <==> BinSum(frames, b) <= MAX64;
  }

  /** While fewer than 2^64 counts have arrived, the total-counts field, which is
      kept modulo 2^64, is the sum over the bins. */
  lemma CountsConserved(frames: seq<Frame>, n: nat)
    requires Uniform(frames, n) && GrandTotal(frames) < WRAP
    ensures StoredTotal(frames, n) == GrandTotal(frames) == Low64(GrandTotal(frames))
  {
    TotalByBins(frames, n);
    forall b | 0 <= b < n
      ensures BinSum(frames, b) <= MAX64
    {
      SumTerm(n, BinSums(frames), b);
    }
    StoredTotalExact(frames, n);
  }

  lemma {:induction false} SumTerm(n: nat, f: int -> int, i: nat)
    requires i < n && forall j | 0 <= j < n :: f(j) >= 0
    ensures f(i) <= Sum(n, f)
  {
    SumZero(n - 1, f);
    if i >= n - 1 {
    } else {
      SumTerm(n - 1, f, i);
    }
  }

  // ----- the objects

  /** A vector of 64-bit sums, one for each bin of a histogram. */
  class RunningSum {
    const values: array<U64>

    constructor (n: nat)
      ensures fresh(values) && values.Length == n
      ensures forall b | 0 <= b < n :: values[b] == 0
    {
      values := new U64[n](_ => 0);
    }

    /** Refuses a frame of another size; otherwise adds it bin by bin. */
    method Add(frame: Frame) returns (ok: bool)
      modifies values
      ensures ok == (|frame| == values.Length)
      ensures ok ==> forall b | 0 <= b < |frame| :: values[b] == Capped(old(values[b]) + frame[b])
      ensures !ok ==> values[..] == old(values[..])
    {
      if |frame| != values.Length {
        return false;
      }
      for i := 0 to |frame|
        invariant forall b | 0 <= b < i :: values[b] == Capped(old(values[b]) + frame[b])
        invariant forall b | i <= b < |frame| :: values[b] == old(values[b])
      {
        WrapDetected(values[i], frame[i]);
        var newValue := (values[i] + frame[i]) % WRAP;
        if newValue < values[i] {
          values[i] := MAX64;
        } else {
          values[i] := newValue;
        }
      }
      return true;
    }
  }

  /** Total of one frame, modulo 2^64. */
  method AddUp(frame: Frame) returns (total: U64)
    ensures total == Low64(FrameTotal(frame, |frame|))
  {
    total := 0;
    for i := 0 to |frame|
      invariant total == Low64(FrameTotal(frame, i))
    {
      total := (total + frame[i]) % WRAP;
    }
  }

  /** Read a 64-bit word as a signed number. */
  function ToInt64(x: U64): int {
    if x <= INT64_MAX then x else x - WRAP
  }

  /** Add one frame to the 64-bit work buffer. */
  method AddInto(work: array<U64>, frame: Frame, ghost before: seq<Frame>)
    requires |frame| == work.Length && |before| < MAX_FRAMES
    requires forall b | 0 <= b < work.Length :: work[b] == BinSum(before, b)
    modifies work
    ensures forall b | 0 <= b < work.Length :: work[b] == BinSum(before + [frame], b)
  {
    hide BinSum;
    for i := 0 to work.Length
      invariant forall b | 0 <= b < i :: work[b] == BinSum(before + [frame], b)
      invariant forall b | i <= b < work.Length :: work[b] == BinSum(before, b)
    {
      BinSumBound(before, i);
      BinSumSnoc(before, frame, i);
      work[i] := (work[i] + frame[i]) % WRAP;
    }
  }

  /** The sum of the buffered frames whose size is n. At most MAX_FRAMES frames
      never overflow the 64-bit work buffer or the signed result. */
  method SumFrames(frames: seq<Frame>, n: nat) returns (sums: seq<int>)
    requires |frames| <= MAX_FRAMES
    ensures |sums| == n
    ensures forall b | 0 <= b < n :: 0 <= sums[b] == BinSum(Matching(frames, n), b) <= INT64_MAX
  {
    var work := new U64[n](_ => 0);
    for k := 0 to |frames|
      invariant forall b | 0 <= b < n :: work[b] == BinSum(Matching(frames[..k], n), b)
    {
      assert frames[..k + 1][..k] == frames[..k];
      ghost var before := Matching(frames[..k], n);
      MatchingLength(frames[..k], n);
      if |frames[k]| == n {
        AddInto(work, frames[k], before);
      } else {
        assert before + [] == before;
      }
    }
    assert frames[..|frames|] == frames;
    MatchingLength(frames, n);
    forall b | 0 <= b < n
      ensures BinSum(Matching(frames, n), b) <= INT64_MAX
    {
      BinSumBound(Matching(frames, n), b);
    }
    sums := seq(n, (b: nat) requires b < n reads work => ToInt64(work[b]));
  }

  /** The frames of size n, in order. */
  function Matching(frames: seq<Frame>, n: nat): seq<Frame> {
    if frames == [] then []
    else Matching(frames[..|frames| - 1], n) + if |frames[|frames| - 1]| == n then [frames[|frames| - 1]] else []
  }

  lemma MatchingLength(frames: seq<Frame>, n: nat)
    ensures |Matching(frames, n)| <= |frames|
  {
  }

  lemma MatchingUniform(frames: seq<Frame>, n: nat)
    requires Uniform(frames, n)
    ensures Matching(frames, n) == frames
  {
  }
}
