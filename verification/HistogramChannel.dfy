/** Accumulation of the preview histogram channel: running sum, counters and the
    sliding window of recent frames. */
module HistogramChannel {
  import opened Wrappers
  import opened Accumulation
  import opened Arith

  const MAX_BINS: int := 1000000
  const MAX_INTERVAL: int := 10000

  function Clamp(x: int, high: int): int {
    if x < 1 then 1 else if x > high then high else x
  }

  /** The nearest value in range: one that is in range stays as it was written. */
  lemma ClampNearest(x: int, high: int)
    requires high >= 1
    ensures 1 <= Clamp(x, high) <= high
    ensures 1 <= x <= high ==> Clamp(x, high) == x
    ensures x < 1 ==> Clamp(x, high) == 1
    ensures x > high ==> Clamp(x, high) == high
  {
  }

  /** The last n elements, or all of them. */
  function Last<T>(s: seq<T>, n: nat): seq<T> {
    if |s| <= n then s else s[|s| - n..]
  }

  /** w is what remains of h after its first `dropped` elements. */
  predicate IsWindow<T(==)>(w: seq<T>, h: seq<T>, dropped: nat) {
    dropped <= |h| && w == h[dropped..]
  }

  /** How many of n elements are gone when a limit is met and `dropped` were gone before. */
  function DroppedBy(dropped: nat, n: nat, limit: nat): nat {
    if n > limit && n - limit > dropped then n - limit else dropped
  }

  /** A limit keeps as many of the newest elements as it allows: it drops no more than it must,
      and brings nothing back. */
  lemma LimitExact<T>(s: seq<T>, dropped: nat, limit: nat)
    ensures var r := Last(s, limit);
            |r| == (if |s| < limit then |s| else limit) && r == s[|s| - |r|..]
    ensures var gone := DroppedBy(dropped, |s|, limit);
            dropped <= gone && |s| - gone <= limit && (gone == dropped || |s| - gone == limit)
  {
  }

  lemma WindowTrim<T>(w: seq<T>, h: seq<T>, dropped: nat, limit: nat)
    requires IsWindow(w, h, dropped)
    ensures IsWindow(Last(w, limit), h, DroppedBy(dropped, |h|, limit)) && |Last(w, limit)| <= limit
    ensures limit > 0 && w != [] ==> Last(w, limit) != []
  {
  }

  lemma WindowNone<T>()
    ensures IsWindow<T>([], [], 0)
  {
  }

  lemma WindowSnoc<T>(w: seq<T>, h: seq<T>, dropped: nat, x: T)
    requires IsWindow(w, h, dropped)
    ensures IsWindow(w + [x], h + [x], dropped)
  {
  }

  lemma WindowIn<T>(w: seq<T>, h: seq<T>, dropped: nat)
    requires IsWindow(w, h, dropped)
    ensures forall x | x in w :: x in h
  {
  }

  /** A window within its limit holds the last elements of the history, as many as the
      limit allows, if and only if no earlier and smaller limit has dropped more. */
  lemma WindowIsLast<T>(w: seq<T>, h: seq<T>, dropped: nat, limit: nat)
    requires IsWindow(w, h, dropped) && |w| <= limit
    ensures w == Last(h, limit) <==> dropped == DroppedBy(0, |h|, limit)
  {
    assert |w| == |h| - dropped;
  }

  /** Every frame fits the vector, and each bin holds its capped sum. */
  ghost predicate SumsUp(history: seq<Frame>, values: seq<U64>) {
    && Uniform(history, |values|)
    && forall b | 0 <= b < |values| :: values[b] == Capped(BinSum(history, b))
  }

  lemma SumsUpNone(values: seq<U64>)
    requires forall b | 0 <= b < |values| :: values[b] == 0
    ensures SumsUp([], values)
  {
  }

  lemma SumsUpStep(history: seq<Frame>, was: seq<U64>, frame: Frame, now: seq<U64>)
    requires SumsUp(history, was) && |now| == |was| == |frame|
    requires forall b | 0 <= b < |now| :: now[b] == Capped(was[b] + frame[b])
    ensures SumsUp(history + [frame], now)
    ensures GrandTotal(history + [frame]) == GrandTotal(history) + FrameTotal(frame, |frame|)
  {
    assert (history + [frame])[..|history|] == history;
  }

  /** Until 2^64 counts have arrived nothing saturates or wraps: the frame counter is the
      number of frames and the total is the sum of the stored values. */
  lemma ExactCounters(history: seq<Frame>, frameCount: U64, totalCounts: U64, values: seq<U64>)
    requires SumsUp(history, values) && GrandTotal(history) < WRAP && |history| < WRAP
    requires frameCount == Low64(|history|) && totalCounts == Low64(GrandTotal(history))
    ensures frameCount == |history| && totalCounts == StoredTotal(history, |values|)
    ensures forall b | 0 <= b < |values| :: values[b] == StoredBins(history)(b)
  {
    CountsConserved(history, |values|);
    Low64Add(|history|, 0);
  }

  /** What is published: the exact sum of each bin, as a signed 64-bit number. */
  ghost predicate ExactSums(sums: seq<int>, window: seq<Frame>, n: nat) {
    |sums| == n && forall b | 0 <= b < n :: 0 <= sums[b] == BinSum(window, b) <= INT64_MAX
  }

  /** Drop frames from the front until the limit is met. */
  method Trim<T>(frames: seq<T>, limit: nat) returns (rest: seq<T>)
    ensures rest == Last(frames, limit)
  {
    rest := frames;
    ghost var gone := 0;
    while |rest| > limit
      invariant gone <= |frames| && rest == frames[gone..] && (gone == 0 || |rest| >= limit)
    {
      assert rest[1..] == frames[gone + 1..];
      rest := rest[1..];
      gone := gone + 1;
    }
  }

  class Channel {
    var enabled: bool
    var sum: RunningSum?
    var window: seq<Frame>
    var current: Frame
    var frameCount: U64
    var totalCounts: U64
    var framesToSum: int
    var interval: int
    var sinceUpdate: int

    /** The frames added since the last reset or change of bin size. */
    ghost var history: seq<Frame>
    /** How many of them have left the window. */
    ghost var dropped: nat

    /** The running sum and the counters account for the whole history. */
    ghost predicate Summed()
      reads this`sum, this`history, this`frameCount, this`totalCounts, if sum == null then {} else {sum.values}
    {
      && frameCount == Low64(|history|)
      && totalCounts == Low64(GrandTotal(history))
      && (sum == null ==> history == [])
      && (sum != null ==> SumsUp(history, sum.values[..]))
    }

    /** The window holds the frames of the history that have not been dropped. */
    ghost predicate Windowed()
      reads this`window, this`history, this`dropped, this`framesToSum
    {
      IsWindow(window, history, dropped) && |window| <= framesToSum
    }

    ghost predicate Configured()
      reads this`framesToSum, this`interval
    {
      1 <= framesToSum <= MAX_FRAMES && 1 <= interval <= MAX_INTERVAL
    }

    ghost predicate Valid()
      reads this, if sum == null then {} else {sum.values}
    {
      Summed() && Windowed() && Configured()
    }

    /** A frame of another bin size than the running sum. */
    predicate Mismatch(n: nat)
      reads this
    {
      sum != null && sum.values.Length != n
    }

    constructor ()
      ensures Valid() && history == [] && framesToSum == 10 && interval == 1 && !enabled
      ensures sum == null && window == [] && sinceUpdate == 0 && dropped == 0
    {
      enabled, sum, window, current := false, null, [], [];
      frameCount, totalCounts := 0, 0;
      framesToSum, interval, sinceUpdate := 10, 1, 0;
      history, dropped := [], 0;
    }

    /** Make room for frames of n bins; a change of bin size restarts everything. */
    method Prepare(n: nat)
      requires Valid()
      modifies this`sum, this`frameCount, this`totalCounts, this`window, this`sinceUpdate, this`history, this`dropped
      ensures Valid() && sum != null && sum.values.Length == n
      ensures sum != old(sum) ==> fresh(sum) && fresh(sum.values)
      ensures history == (if old(Mismatch(n)) then [] else old(history))
      ensures window == (if old(Mismatch(n)) then [] else old(window))
      ensures sinceUpdate == (if old(Mismatch(n)) then 0 else old(sinceUpdate))
      ensures dropped == (if old(Mismatch(n)) then 0 else old(dropped))
    {
      hide Low64, SumsUp, IsWindow;
      Low64Add(0, 0);
      if sum == null {
        sum := new RunningSum(n);
        SumsUpNone(sum.values[..]);
      }
      if sum.values.Length != n {
        sum := new RunningSum(n);
        SumsUpNone(sum.values[..]);
        WindowNone<Frame>();
        frameCount, totalCounts, window, sinceUpdate := 0, 0, [], 0;
        history, dropped := [], 0;
      }
    }

    method AddToSum(frame: Frame)
      requires Summed() && sum != null && sum.values.Length == |frame|
      modifies this`frameCount, this`totalCounts, this`current, this`history, sum.values
      ensures Summed() && history == old(history) + [frame] && current == frame
    {
      hide SumsUp, Low64;
      ghost var before, was := history, sum.values[..];
      Low64Add(|before|, 1);
      Low64Add(1, 0);
      Low64Add(GrandTotal(before), FrameTotal(frame, |frame|));
      var ok := sum.Add(frame);
      SumsUpStep(before, was, frame, sum.values[..]);
      history := before + [frame];
      frameCount := (frameCount + 1) % WRAP;
      current := frame;
      var total := AddUp(frame);
      totalCounts := (totalCounts + total) % WRAP;
    }

    method Push(frame: Frame)
      requires framesToSum >= 1 && IsWindow(window + [frame], history, dropped)
      modifies this`window, this`dropped
      ensures Windowed() && window != [] && window == Last(old(window) + [frame], framesToSum)
      ensures dropped == DroppedBy(old(dropped), |history|, framesToSum)
    {
      hide IsWindow, Last, DroppedBy;
      WindowTrim(window + [frame], history, dropped, framesToSum);
      window := Trim(window + [frame], framesToSum);
      dropped := DroppedBy(dropped, |history|, framesToSum);
    }

    /** The sum of the window; every frame in it has the current bin size, so none
        is filtered out. */
    method SumWindow() returns (sums: seq<int>)
      requires Valid() && window != [] && sum != null
      ensures ExactSums(sums, window, sum.values.Length)
    {
      WindowIn(window, history, dropped);
      assert window[0] in window;
      MatchingUniform(window, |window[0]|);
      sums := SumFrames(window, |window[0]|);
    }

    /** Count one frame and publish the sum of the window at the interval. */
    method Update() returns (published: Option<seq<int>>)
      requires Valid() && window != [] && sum != null
      modifies this`sinceUpdate
      ensures published.Some? <==> old(sinceUpdate) + 1 >= interval
      ensures published.Some? ==> ExactSums(published.value, window, sum.values.Length)
      ensures sinceUpdate == if published.Some? then 0 else old(sinceUpdate) + 1
    {
      hide Summed, IsWindow, ExactSums;
      published := None;
      sinceUpdate := sinceUpdate + 1;
      if sinceUpdate >= interval && window != [] {
        sinceUpdate := 0;
        var sums := SumWindow();
        published := Some(sums);
      }
    }

    /** One frame. The sum of the window is published when the update interval has
        been reached. */
    method ProcessFrame(frame: Frame) returns (published: Option<seq<int>>)
      requires Valid() && 0 < |frame| <= MAX_BINS
      modifies this, if sum == null then {} else {sum.values}
      ensures Valid() && (sum != old(sum) ==> fresh(sum) && fresh(sum.values))
      ensures framesToSum == old(framesToSum) && interval == old(interval) && enabled == old(enabled)
      ensures !enabled ==>
                && history == old(history) && window == old(window) && dropped == old(dropped)
                && sum == old(sum) && sinceUpdate == old(sinceUpdate) && published == None
      ensures enabled ==>
                && sum != null && sum.values.Length == |frame|
                && current == frame
                && history == (if old(Mismatch(|frame|)) then [] else old(history)) + [frame]
                && window == Last((if old(Mismatch(|frame|)) then [] else old(window)) + [frame], framesToSum)
                && dropped == DroppedBy(if old(Mismatch(|frame|)) then 0 else old(dropped), |history|, framesToSum)
                && sinceUpdate == if published.Some? then 0
                                  else (if old(Mismatch(|frame|)) then 0 else old(sinceUpdate)) + 1
      ensures published.Some? <==>
                enabled && (if old(Mismatch(|frame|)) then 0 else old(sinceUpdate)) + 1 >= interval
      ensures published.Some? ==> ExactSums(published.value, window, |frame|)
    {
      hide Summed, IsWindow, Last, DroppedBy, ExactSums;
      published := None;
      if !enabled {
        return;
      }
      Prepare(|frame|);
      WindowSnoc(window, history, dropped, frame);
      AddToSum(frame);
      Push(frame);
      published := Update();
    }

    method SetFramesToSum(value: int)
      requires Valid()
      modifies this`framesToSum, this`window, this`dropped
      ensures Valid() && framesToSum == Clamp(value, MAX_FRAMES) && window == Last(old(window), framesToSum)
      ensures dropped == DroppedBy(old(dropped), |history|, framesToSum)
    {
      hide Summed, IsWindow, Last, DroppedBy;
      framesToSum := value;
      if framesToSum < 1 { framesToSum := 1; }
      if framesToSum > MAX_FRAMES { framesToSum := MAX_FRAMES; }
      WindowTrim(window, history, dropped, framesToSum);
      window := Trim(window, framesToSum);
      dropped := DroppedBy(dropped, |history|, framesToSum);
    }

    method SetUpdateInterval(value: int)
      requires Valid()
      modifies this`interval, this`sinceUpdate
      ensures Valid() && interval == Clamp(value, MAX_INTERVAL) && sinceUpdate == 0
    {
      interval := value;
      if interval < 1 { interval := 1; }
      if interval > MAX_INTERVAL { interval := MAX_INTERVAL; }
      sinceUpdate := 0;
    }

    method Reset()
      requires Valid()
      modifies this`sum, this`window, this`frameCount, this`totalCounts, this`sinceUpdate, this`history, this`dropped
      ensures Valid() && sum == null && history == [] && window == [] && sinceUpdate == 0 && dropped == 0
    {
      sum, window := null, [];
      frameCount, totalCounts, sinceUpdate := 0, 0, 0;
      history, dropped := [], 0;
    }

    method Enable(value: int)
      requires Valid()
      modifies this`enabled
      ensures Valid() && enabled == (value != 0)
    {
      enabled := value != 0;
    }

    /** The published counters are the number of frames and the sum of the bins. */
    lemma CountersExact()
      requires Valid() && sum != null && GrandTotal(history) < WRAP && |history| < WRAP
      ensures frameCount == |history|
      ensures totalCounts == StoredTotal(history, sum.values.Length)
      ensures forall b | 0 <= b < sum.values.Length :: sum.values[b] == StoredBins(history)(b)
    {
      ExactCounters(history, frameCount, totalCounts, sum.values[..]);
    }
  }

  // ----- a run from the start

  /** The counter that is reset at the interval counts modulo the interval. */
  lemma CountStep(n: nat, interval: int)
    requires interval > 0
    ensures (n + 1) % interval == if n % interval + 1 >= interval then 0 else n % interval + 1
  {
    var q, r := n / interval, n % interval;
    assert n == q * interval + r;
    if r + 1 >= interval {
      assert n + 1 == (q + 1) * interval;
      DivMod(interval, q + 1, 0);
    } else {
      DivMod(interval, q, r + 1);
    }
  }

  lemma DroppedStep(n: nat, limit: nat)
    ensures DroppedBy(DroppedBy(0, n, limit), n + 1, limit) == DroppedBy(0, n + 1, limit)
    ensures limit > 0 ==> DroppedBy(0, 0, limit) == 0
  {
  }

  /** What a channel publishes after the frames so far: the sum of the last ones up to
      the limit at every interval-th frame, and nothing otherwise. */
  ghost predicate Publishes(p: Option<seq<int>>, frames: seq<Frame>, n: nat, limit: nat, interval: int)
    requires interval > 0
  {
    && (p.Some? <==> |frames| % interval == 0)
    && (p.Some? ==> ExactSums(p.value, Last(frames, limit), n))
  }

  /** Frames of one bin size through a new channel: a sum is published for every
      interval-th frame and for no other, and it is the exact sum of the last frames up
      to the limit. */
  method Run(frames: seq<Frame>, n: nat, limit: int, interval: int) returns (published: seq<Option<seq<int>>>)
    requires 0 < n <= MAX_BINS && Uniform(frames, n)
    ensures |published| == |frames|
    ensures forall k | 0 <= k < |frames| ::
              Publishes(published[k], frames[..k + 1], n, Clamp(limit, MAX_FRAMES), Clamp(interval, MAX_INTERVAL))
  {
    hide Last, ExactSums, IsWindow, DroppedBy, Clamp, Channel.Summed;
    var c := new Channel();
    c.SetFramesToSum(limit);
    c.SetUpdateInterval(interval);
    c.Enable(1);
    DroppedStep(0, c.framesToSum);
    published := [];
    for k := 0 to |frames|
      invariant fresh(c) && (c.sum != null ==> fresh(c.sum) && fresh(c.sum.values))
      invariant c.Valid() && c.enabled
      invariant c.framesToSum == Clamp(limit, MAX_FRAMES) && c.interval == Clamp(interval, MAX_INTERVAL)
      invariant c.history == frames[..k] && c.dropped == DroppedBy(0, k, c.framesToSum)
      invariant c.sinceUpdate == k % c.interval && (c.sum != null ==> c.sum.values.Length == n)
      invariant |published| == k
      invariant forall i | 0 <= i < k :: Publishes(published[i], frames[..i + 1], n, c.framesToSum, c.interval)
    {
      CountStep(k, c.interval);
      DroppedStep(k, c.framesToSum);
      assert frames[k] in frames && frames[..k + 1] == frames[..k] + [frames[k]];
      var sums := c.ProcessFrame(frames[k]);
      WindowIsLast(c.window, c.history, c.dropped, c.framesToSum);
      assert Publishes(sums, frames[..k + 1], n, c.framesToSum, c.interval);
      published := published + [sums];
    }
  }

  // ----- runs of frames, limits, intervals, resets and switches

  datatype Command = Add(frame: Frame) | Limit(frames: int) | Interval(updates: int) | Clear | Switch(on: int)

  /** What a channel holds, as far as publishing goes. */
  datatype View = View(enabled: bool, bins: Option<nat>, history: seq<Frame>, dropped: nat,
                       limit: int, interval: int, since: int)
  {
    function Window(): seq<Frame>
      requires dropped <= |history|
    {
      history[dropped..]
    }

    /** A frame of another bin size starts a new history. */
    function Prepared(n: nat): View {
      if bins.Some? && bins.value != n then this.(history := [], dropped := 0, since := 0) else this
    }

    predicate Publishes(frame: Frame) {
      enabled && Prepared(|frame|).since + 1 >= interval
    }

    function Added(frame: Frame): View
      requires limit >= 0
    {
      var v := Prepared(|frame|);
      v.(bins := Some(|frame|), history := v.history + [frame],
         dropped := DroppedBy(v.dropped, |v.history| + 1, limit),
         since := if Publishes(frame) then 0 else v.since + 1)
    }
  }

  const NEW_VIEW := View(false, None, [], 0, 10, 1, 0)

  function After(cmds: seq<Command>): (v: View)
    ensures v.dropped <= |v.history| && 1 <= v.limit && |v.Window()| <= v.limit
  {
    if cmds == [] then NEW_VIEW
    else
      var v := After(cmds[..|cmds| - 1]);
      match cmds[|cmds| - 1]
      case Add(frame) => if v.enabled then v.Added(frame) else v
      case Limit(n) =>
        v.(limit := Clamp(n, MAX_FRAMES), dropped := DroppedBy(v.dropped, |v.history|, Clamp(n, MAX_FRAMES)))
      case Interval(n) => v.(interval := Clamp(n, MAX_INTERVAL), since := 0)
      case Clear => v.(bins := None, history := [], dropped := 0, since := 0)
      case Switch(on) => v.(enabled := on != 0)
  }

  /** The frames that arrived while the channel was switched on. */
  function Accepted(cmds: seq<Command>): seq<Frame> {
    if cmds == [] then []
    else
      var front, last := cmds[..|cmds| - 1], cmds[|cmds| - 1];
      Accepted(front) + if last.Add? && After(front).enabled then [last.frame] else []
  }

  predicate EndOf<T(==)>(end: seq<T>, all: seq<T>) {
    |end| <= |all| && end == all[|all| - |end|..]
  }

  lemma EndSnoc<T>(end: seq<T>, all: seq<T>, x: T)
    ensures EndOf([], all)
    ensures EndOf(end, all) ==> EndOf(end + [x], all + [x])
  {
  }

  lemma EndTail<T>(end: seq<T>, all: seq<T>, n: nat)
    requires EndOf(end, all) && n <= |end|
    ensures EndOf(end[n..], all)
  {
  }

  /** The history is the end of the accepted frames, all of the current bin size. */
  ghost predicate HistoryOk(v: View, all: seq<Frame>) {
    EndOf(v.history, all) && forall f | f in v.history :: v.bins == Some(|f|)
  }

  lemma HistoryAdded(v: View, all: seq<Frame>, frame: Frame)
    requires HistoryOk(v, all) && v.limit >= 0
    ensures HistoryOk(v.Added(frame), all + [frame])
  {
    hide EndOf;
    EndSnoc(v.history, all, frame);
    EndSnoc([], all, frame);
  }

  lemma {:induction false} HistoryOfCommands(cmds: seq<Command>)
    ensures HistoryOk(After(cmds), Accepted(cmds))
  {
    hide HistoryOk, View.Added;
    if cmds == [] {
      HistoryNone(NEW_VIEW, []);
    } else {
      var front := cmds[..|cmds| - 1];
      HistoryOfCommands(front);
      match cmds[|cmds| - 1]
      case Add(frame) =>
        if After(front).enabled {
          HistoryAdded(After(front), Accepted(front), frame);
        } else {
          assert Accepted(cmds) == Accepted(front);
        }
      case Clear =>
        HistoryNone(After(cmds), Accepted(cmds));
      case _ =>
        assert Accepted(cmds) == Accepted(front);
        HistorySame(After(front), After(cmds), Accepted(front));
    }
  }

  lemma HistoryNone(v: View, all: seq<Frame>)
    requires v.history == []
    ensures HistoryOk(v, all)
  {
  }

  lemma HistorySame(v: View, w: View, all: seq<Frame>)
    requires HistoryOk(v, all) && v.history == w.history && v.bins == w.bins
    ensures HistoryOk(w, all)
  {
  }

  /** After any commands the window is the end of the accepted frames, within the limit,
      and all its frames have one bin size. */
  lemma WindowOfCommands(cmds: seq<Command>)
    ensures var v := After(cmds);
            && EndOf(v.history, Accepted(cmds)) && EndOf(v.Window(), Accepted(cmds)) && |v.Window()| <= v.limit
            && forall f | f in v.history :: v.bins == Some(|f|)
  {
    hide After, Accepted, EndOf;
    HistoryOfCommands(cmds);
    EndTail(After(cmds).history, Accepted(cmds), After(cmds).dropped);
  }

  /** What is published at the last command: the exact sum of the window, at a frame that
      reaches the interval, and nothing at any other command. */
  ghost predicate PublishedAt(p: Option<seq<int>>, cmds: seq<Command>)
    requires cmds != []
  {
    var last := cmds[|cmds| - 1];
    && (p.Some? <==> last.Add? && After(cmds[..|cmds| - 1]).Publishes(last.frame))
    && (p.Some? ==> ExactSums(p.value, After(cmds).Window(), |last.frame|))
  }

  ghost predicate Holds(c: Channel, v: View)
    reads c, if c.sum == null then {} else {c.sum.values}
  {
    && c.Valid() && c.enabled == v.enabled && c.history == v.history && c.dropped == v.dropped
    && c.framesToSum == v.limit && c.interval == v.interval && c.sinceUpdate == v.since
    && v.bins == if c.sum == null then None else Some(c.sum.values.Length)
  }

  method Execute(c: Channel, ghost before: seq<Command>, cmd: Command) returns (published: Option<seq<int>>)
    requires Holds(c, After(before)) && (cmd.Add? ==> 0 < |cmd.frame| <= MAX_BINS)
    modifies c, if c.sum == null then {} else {c.sum.values}
    ensures Holds(c, After(before + [cmd]))
    ensures c.sum != null && c.sum != old(c.sum) ==> fresh(c.sum) && fresh(c.sum.values)
    ensures PublishedAt(published, before + [cmd])
  {
    hide Channel.Summed, Last, ExactSums, DroppedBy, Clamp;
    assert (before + [cmd])[..|before|] == before;
    published := None;
    match cmd {
      case Add(frame) => published := c.ProcessFrame(frame);
      case Limit(n) => c.SetFramesToSum(n);
      case Interval(n) => c.SetUpdateInterval(n);
      case Clear => c.Reset();
      case Switch(on) => c.Enable(on);
    }
  }

  method NewChannel() returns (c: Channel)
    ensures fresh(c) && c.sum == null && Holds(c, After([]))
  {
    c := new Channel();
  }

  /** Any commands in any order on a new channel: what is published, and when, is a
      function of the commands so far. */
  method RunCommands(cmds: seq<Command>) returns (published: seq<Option<seq<int>>>)
    requires forall cmd | cmd in cmds :: cmd.Add? ==> 0 < |cmd.frame| <= MAX_BINS
    ensures |published| == |cmds|
    ensures forall k | 0 <= k < |cmds| :: PublishedAt(published[k], cmds[..k + 1])
  {
    hide Holds, PublishedAt, After, Channel.Valid;
    var c := NewChannel();
    published := [];
    for k := 0 to |cmds|
      invariant fresh(c) && (c.sum != null ==> fresh(c.sum) && fresh(c.sum.values))
      invariant |published| == k && Holds(c, After(cmds[..k]))
      invariant forall i | 0 <= i < k :: PublishedAt(published[i], cmds[..i + 1])
    {
      assert cmds[k] in cmds && cmds[..k + 1] == cmds[..k] + [cmds[k]];
      var p := Execute(c, cmds[..k], cmds[k]);
      published := published + [p];
    }
  }
}
