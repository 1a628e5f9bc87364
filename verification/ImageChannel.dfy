/** Accumulation of the full-rate image channel. Unlike the histogram channel it
    keeps its window when the image size changes. */
module ImageChannel {
  import opened Wrappers
  import opened Accumulation
  import opened HistogramChannel

  datatype Image = Image(width: nat, height: nat, pixels: Frame) {
    ghost predicate Valid() {
      |pixels| == width * height
    }
  }

  predicate SameSize(a: Image, b: Image) {
    a.width == b.width && a.height == b.height
  }

  /** The pixels of the images of one size, in order. */
  function PixelsLike(images: seq<Image>, model: Image): seq<Frame> {
    if images == [] then []
    else PixelsLike(images[..|images| - 1], model) +
         if SameSize(images[|images| - 1], model) then [images[|images| - 1].pixels] else []
  }

  function AllPixels(images: seq<Image>): seq<Frame> {
    if images == [] then [] else AllPixels(images[..|images| - 1]) + [images[|images| - 1].pixels]
  }

  /** An image counts exactly when both its width and its height are those of the model. */
  lemma PixelsLikeSnoc(images: seq<Image>, m: Image, model: Image)
    ensures PixelsLike([], model) == []
    ensures PixelsLike(images + [m], model) == PixelsLike(images, model) +
              if m.width == model.width && m.height == model.height then [m.pixels] else []
  {
    assert (images + [m])[..|images|] == images;
  }

  lemma PixelsLikeLength(images: seq<Image>, model: Image)
    ensures |PixelsLike(images, model)| <= |images|
  {
  }

  /** When every image has one size the size filter drops nothing. */
  lemma PixelsLikeAll(images: seq<Image>, model: Image)
    requires forall m | m in images :: SameSize(m, model)
    ensures PixelsLike(images, model) == AllPixels(images)
  {
  }

  /** What is published for a window: its oldest image fixes the size. */
  ghost predicate SumsWindow(sums: seq<int>, window: seq<Image>) {
    && window != []
    && |sums| == window[0].width * window[0].height
    && forall b | 0 <= b < |sums| ::
         0 <= sums[b] == BinSum(PixelsLike(window, window[0]), b) <= INT64_MAX
  }

  /** The recomputation on a new frame. */
  method SumImages(window: seq<Image>) returns (sums: seq<int>)
    requires 0 < |window| <= MAX_FRAMES && forall m | m in window :: m.Valid()
    ensures SumsWindow(sums, window)
  {
    var n := window[0].width * window[0].height;
    var work := new U64[n](_ => 0);
    for k := 0 to |window|
      invariant forall b | 0 <= b < n :: work[b] == BinSum(PixelsLike(window[..k], window[0]), b)
    {
      assert window[..k + 1][..k] == window[..k];
      assert window[k] in window && window[k].Valid();
      ghost var before := PixelsLike(window[..k], window[0]);
      PixelsLikeLength(window[..k], window[0]);
      if window[k].width == window[0].width && window[k].height == window[0].height {
        AddInto(work, window[k].pixels, before);
      } else {
        assert before + [] == before;
      }
    }
    assert window[..|window|] == window;
    PixelsLikeLength(window, window[0]);
    forall b | 0 <= b < n
      ensures BinSum(PixelsLike(window, window[0]), b) <= INT64_MAX
    {
      BinSumBound(PixelsLike(window, window[0]), b);
    }
    sums := seq(n, (b: nat) requires b < n reads work => ToInt64(work[b]));
  }

  /** The recomputation on a new limit, written out once more in the driver. */
  method ResumImages(window: seq<Image>) returns (sums: seq<int>)
    requires 0 < |window| <= MAX_FRAMES && forall m | m in window :: m.Valid()
    ensures SumsWindow(sums, window)
  {
    var width, height := window[0].width, window[0].height;
    var work := new U64[width * height](_ => 0);
    ghost var summed: seq<Frame> := [];
    var k := 0;
    while k < |window|
      invariant k <= |window| && |summed| <= k
      invariant summed == PixelsLike(window[..k], window[0])
      invariant forall b | 0 <= b < work.Length :: work[b] == BinSum(summed, b)
    {
      assert window[..k + 1][..k] == window[..k];
      assert window[k] in window && window[k].Valid();
      if window[k].width == width && window[k].height == height {
        AddInto(work, window[k].pixels, summed);
        summed := summed + [window[k].pixels];
      }
      k := k + 1;
    }
    assert window[..k] == window;
    forall b | 0 <= b < work.Length
      ensures BinSum(summed, b) <= INT64_MAX
    {
      BinSumBound(summed, b);
    }
    sums := seq(work.Length, (b: nat) requires b < work.Length reads work => ToInt64(work[b]));
  }

  /** The running sum of images of one size. */
  class ImageSum {
    const width: nat
    const height: nat
    const values: array<U64>

    constructor (width: nat, height: nat)
      ensures this.width == width && this.height == height && fresh(values) && values.Length == width * height
      ensures forall b | 0 <= b < values.Length :: values[b] == 0
    {
      this.width, this.height := width, height;
      values := new U64[width * height](_ => 0);
    }

    /** Refuses an image of another width or height, even one with as many pixels. */
    method AddImage(m: Image) returns (ok: bool)
      requires m.Valid() && values.Length == width * height
      modifies values
      ensures ok == (m.width == width && m.height == height)
      ensures ok ==> forall b | 0 <= b < |m.pixels| :: values[b] == Capped(old(values[b]) + m.pixels[b])
      ensures !ok ==> values[..] == old(values[..])
    {
      if m.width != width || m.height != height {
        return false;
      }
      for i := 0 to values.Length
        invariant forall b | 0 <= b < i :: values[b] == Capped(old(values[b]) + m.pixels[b])
        invariant forall b | i <= b < values.Length :: values[b] == old(values[b])
      {
        WrapDetected(values[i], m.pixels[i]);
        var newValue := (values[i] + m.pixels[i]) % WRAP;
        if newValue < values[i] {
          values[i] := MAX64;
        } else {
          values[i] := newValue;
        }
      }
      return true;
    }
  }

  class Channel {
    var sum: ImageSum?
    var window: seq<Image>
    var frameCount: U64
    var totalCounts: U64
    var framesToSum: int
    var interval: int
    var sinceUpdate: int

    /** Frames since the last reset, how many of them have left the window, and the
        frames since the last reset or size change. */
    ghost var arrived: seq<Image>
    ghost var dropped: nat
    ghost var history: seq<Frame>

    ghost predicate Summed()
      reads this`sum, this`history, this`frameCount, this`totalCounts
      reads if sum == null then {} else {sum.values}
    {
      && frameCount == Low64(|history|)
      && totalCounts == Low64(GrandTotal(history))
      && (sum == null ==> history == [])
      && (sum != null ==> sum.values.Length == sum.width * sum.height && SumsUp(history, sum.values[..]))
    }

    ghost predicate Windowed()
      reads this`window, this`arrived, this`dropped, this`framesToSum
    {
      && IsWindow(window, arrived, dropped)
      && |window| <= framesToSum
      && forall m | m in arrived :: m.Valid()
    }

    ghost predicate Configured()
      reads this`framesToSum, this`interval
    {
      1 <= framesToSum <= MAX_FRAMES && 1 <= interval <= MAX_INTERVAL
    }

    ghost predicate Valid()
      reads this, if sum == null then {} else {sum.values}
    {
      Summed() && Windowed() && Configured()
    }

    predicate Mismatch(m: Image)
      reads this
    {
      sum != null && (sum.width != m.width || sum.height != m.height)
    }

    constructor ()
      ensures Valid() && arrived == [] && history == [] && framesToSum == 10 && interval == 1
      ensures sum == null && window == [] && sinceUpdate == 0 && dropped == 0
    {
      sum, window := null, [];
      frameCount, totalCounts, framesToSum, interval, sinceUpdate := 0, 0, 10, 1, 0;
      arrived, dropped, history := [], 0, [];
    }

    /** A size change restarts the sum and its counters, but not the window. */
    method Prepare(m: Image)
      requires Summed() && m.Valid()
      modifies this`sum, this`frameCount, this`totalCounts, this`history
      ensures Summed() && sum != null && sum.width == m.width && sum.height == m.height
      ensures sum != old(sum) ==> fresh(sum) && fresh(sum.values)
      ensures history == (if old(Mismatch(m)) then [] else old(history))
    {
      hide Low64, SumsUp;
      Low64Add(0, 0);
      if sum == null {
        sum := new ImageSum(m.width, m.height);
        SumsUpNone(sum.values[..]);
      }
      if sum.width != m.width || sum.height != m.height {
        sum := new ImageSum(m.width, m.height);
        SumsUpNone(sum.values[..]);
        frameCount, totalCounts := 0, 0;
        history := [];
      }
    }

    method AddToSum(m: Image)
      requires Summed() && sum != null && m.Valid() && sum.width == m.width && sum.height == m.height
      modifies this`frameCount, this`totalCounts, this`history, sum.values
      ensures Summed() && history == old(history) + [m.pixels]
    {
      hide SumsUp, Low64;
      ghost var before, was := history, sum.values[..];
      Low64Add(|before|, 1);
      Low64Add(1, 0);
      Low64Add(GrandTotal(before), FrameTotal(m.pixels, |m.pixels|));
      var ok := sum.AddImage(m);
      SumsUpStep(before, was, m.pixels, sum.values[..]);
      var total := AddUp(m.pixels);
      totalCounts := (totalCounts + total) % WRAP;
      frameCount := (frameCount + 1) % WRAP;
      history := before + [m.pixels];
    }

    method Push(m: Image)
      requires Windowed() && Configured() && m.Valid()
      modifies this`window, this`arrived, this`dropped
      ensures Windowed() && arrived == old(arrived) + [m]
      ensures window != [] && window == Last(old(window) + [m], framesToSum)
      ensures dropped == DroppedBy(old(dropped), |arrived|, framesToSum)
      ensures forall x | x in window :: x.Valid()
    {
      hide IsWindow, Last, DroppedBy;
      WindowSnoc(window, arrived, dropped, m);
      WindowTrim(window + [m], arrived + [m], dropped, framesToSum);
      arrived := arrived + [m];
      window := Trim(window + [m], framesToSum);
      dropped := DroppedBy(dropped, |arrived|, framesToSum);
      WindowIn(window, arrived, dropped);
    }

    method ProcessFrame(m: Image) returns (published: Option<seq<int>>)
      requires Valid() && m.Valid()
      modifies this, if sum == null then {} else {sum.values}
      ensures Valid() && (sum != old(sum) ==> fresh(sum) && fresh(sum.values))
      ensures framesToSum == old(framesToSum) && interval == old(interval)
      ensures arrived == old(arrived) + [m]
      ensures history == (if old(Mismatch(m)) then [] else old(history)) + [m.pixels]
      ensures sum != null && sum.width == m.width && sum.height == m.height
      ensures window == Last(old(window) + [m], framesToSum)
      ensures dropped == DroppedBy(old(dropped), |arrived|, framesToSum)
      ensures published.Some? <==> old(sinceUpdate) + 1 >= interval
      ensures published.Some? ==> SumsWindow(published.value, window)
      ensures sinceUpdate == if published.Some? then 0 else old(sinceUpdate) + 1
    {
      hide Summed, Last, IsWindow, DroppedBy, SumsWindow, Image.Valid;
      published := None;
      Prepare(m);
      AddToSum(m);
      Push(m);
      sinceUpdate := sinceUpdate + 1;
      if sinceUpdate >= interval && window != [] {
        sinceUpdate := 0;
        var sums := SumImages(window);
        published := Some(sums);
      }
    }

    method Limit(value: int)
      requires Windowed()
      modifies this`framesToSum, this`window, this`dropped
      ensures Windowed() && framesToSum == Clamp(value, MAX_FRAMES) && window == Last(old(window), framesToSum)
      ensures dropped == DroppedBy(old(dropped), |arrived|, framesToSum)
      ensures old(window) != [] ==> window != []
      ensures forall x | x in window :: x.Valid()
    {
      hide IsWindow, Last, DroppedBy;
      framesToSum := value;
      if framesToSum < 1 { framesToSum := 1; }
      if framesToSum > MAX_FRAMES { framesToSum := MAX_FRAMES; }
      WindowTrim(window, arrived, dropped, framesToSum);
      window := Trim(window, framesToSum);
      dropped := DroppedBy(dropped, |arrived|, framesToSum);
      WindowIn(window, arrived, dropped);
    }

    /** A new limit trims the window and recomputes its sum at once, and makes the
        next frame publish too. */
    method SetFramesToSum(value: int) returns (published: Option<seq<int>>)
      requires Valid()
      modifies this`framesToSum, this`window, this`dropped, this`sinceUpdate
      ensures Valid() && framesToSum == Clamp(value, MAX_FRAMES) && window == Last(old(window), framesToSum)
      ensures dropped == DroppedBy(old(dropped), |arrived|, framesToSum)
      ensures published.Some? <==> old(window) != []
      ensures published.Some? <==> window != []
      ensures published.Some? ==> SumsWindow(published.value, window) && sinceUpdate == interval
      ensures published.None? ==> sinceUpdate == old(sinceUpdate)
    {
      hide Summed, Last, IsWindow, DroppedBy, SumsWindow, Image.Valid;
      published := None;
      LastNone(window, Clamp(value, MAX_FRAMES));
      Limit(value);
      if window != [] {
        var sums := ResumImages(window);
        published := Some(sums);
        sinceUpdate := interval;
      }
    }

    /** Unlike the histogram channel, counting goes on. */
    method SetUpdateInterval(value: int)
      requires Valid()
      modifies this`interval
      ensures Valid() && interval == Clamp(value, MAX_INTERVAL)
    {
      interval := value;
      if interval < 1 { interval := 1; }
      if interval > MAX_INTERVAL { interval := MAX_INTERVAL; }
    }

    method Reset()
      requires Valid()
      modifies this`sum, this`window, this`frameCount, this`totalCounts, this`sinceUpdate
      modifies this`arrived, this`dropped, this`history
      ensures Valid() && sum == null && window == [] && arrived == [] && history == []
      ensures sinceUpdate == 0 && dropped == 0
    {
      sum, window := null, [];
      frameCount, totalCounts, sinceUpdate := 0, 0, 0;
      arrived, dropped, history := [], 0, [];
    }

    /** The published counters are the number of images since the last reset or size
        change and the sum of the stored pixels. */
    lemma CountersExact()
      requires Valid() && sum != null && GrandTotal(history) < WRAP && |history| < WRAP
      ensures frameCount == |history|
      ensures totalCounts == StoredTotal(history, sum.width * sum.height)
      ensures forall p | 0 <= p < sum.width * sum.height :: sum.values[p] == StoredBins(history)(p)
    {
      ExactCounters(history, frameCount, totalCounts, sum.values[..]);
    }
  }

  lemma LastNone<T>(s: seq<T>, n: nat)
    requires n > 0
    ensures Last(s, n) == [] <==> s == []
  {
  }

  /** With one image size the published sum is the exact pixel-wise sum of the window. */
  lemma WindowSumExact(sums: seq<int>, window: seq<Image>)
    requires SumsWindow(sums, window) && forall m | m in window :: SameSize(m, window[0])
    ensures forall b | 0 <= b < |sums| :: sums[b] == BinSum(AllPixels(window), b)
  {
    PixelsLikeAll(window, window[0]);
  }

  lemma WindowSumUnique(a: seq<int>, c: seq<int>, window: seq<Image>)
    requires SumsWindow(a, window) && SumsWindow(c, window)
    ensures a == c
  {
  }

  /** The two recomputations publish the same sums for the same window. */
  method RecomputationsAgree(window: seq<Image>) returns (onFrame: seq<int>, onLimit: seq<int>)
    requires 0 < |window| <= MAX_FRAMES && forall m | m in window :: m.Valid()
    ensures onFrame == onLimit && SumsWindow(onFrame, window)
  {
    onFrame := SumImages(window);
    onLimit := ResumImages(window);
    WindowSumUnique(onFrame, onLimit, window);
  }

  /** What a channel publishes after the images so far: the sum of the last ones up to
      the limit at every interval-th image, and nothing otherwise. */
  ghost predicate Publishes(p: Option<seq<int>>, images: seq<Image>, limit: nat, interval: int)
    requires interval > 0
  {
    && (p.Some? <==> |images| % interval == 0)
    && (p.Some? ==> SumsWindow(p.value, Last(images, limit)))
  }

  /** The channel has seen only images, under one limit and one interval. */
  ghost predicate Fed(c: Channel)
    reads c, if c.sum == null then {} else {c.sum.values}
  {
    && c.Valid()
    && c.dropped == DroppedBy(0, |c.arrived|, c.framesToSum)
    && c.sinceUpdate == |c.arrived| % c.interval
  }

  method Feed(c: Channel, m: Image) returns (published: Option<seq<int>>)
    requires Fed(c) && m.Valid()
    modifies c, if c.sum == null then {} else {c.sum.values}
    ensures Fed(c) && c.arrived == old(c.arrived) + [m]
    ensures c.framesToSum == old(c.framesToSum) && c.interval == old(c.interval)
    ensures c.sum != old(c.sum) ==> fresh(c.sum) && fresh(c.sum.values)
    ensures c.sum != null
    ensures Publishes(published, c.arrived, c.framesToSum, c.interval)
  {
    hide Last, SumsWindow, IsWindow, DroppedBy, Channel.Summed, Image.Valid;
    CountStep(|c.arrived|, c.interval);
    DroppedStep(|c.arrived|, c.framesToSum);
    published := c.ProcessFrame(m);
    WindowIsLast(c.window, c.arrived, c.dropped, c.framesToSum);
  }

  /** Images of any sizes through a new channel: a sum is published for every
      interval-th image and for no other, and it is that of the last images up to the
      limit. */
  method Run(images: seq<Image>, limit: int, interval: int) returns (published: seq<Option<seq<int>>>)
    requires forall m | m in images :: m.Valid()
    ensures |published| == |images|
    ensures forall k | 0 <= k < |images| ::
              Publishes(published[k], images[..k + 1], Clamp(limit, MAX_FRAMES), Clamp(interval, MAX_INTERVAL))
  {
    hide SumsWindow, IsWindow, DroppedBy, Clamp, Channel.Summed, Image.Valid;
    var c := new Channel();
    var none := c.SetFramesToSum(limit);
    c.SetUpdateInterval(interval);
    DroppedStep(0, c.framesToSum);
    assert Fed(c);
    hide Last, Fed, Publishes;
    published := [];
    for k := 0 to |images|
      invariant fresh(c) && (c.sum != null ==> fresh(c.sum) && fresh(c.sum.values))
      invariant Fed(c) && c.framesToSum == Clamp(limit, MAX_FRAMES) && c.interval == Clamp(interval, MAX_INTERVAL)
      invariant c.arrived == images[..k]
      invariant |published| == k
      invariant forall i | 0 <= i < k :: Publishes(published[i], images[..i + 1], c.framesToSum, c.interval)
    {
      assert images[k] in images && images[..k + 1] == images[..k] + [images[k]];
      var sums := Feed(c, images[k]);
      published := published + [sums];
    }
  }

  // ----- runs of images, limits, intervals and resets

  datatype Command = Add(image: Image) | Limit(images: int) | Interval(updates: int) | Clear

  /** What a channel holds, as far as publishing goes. */
  datatype View = View(arrived: seq<Image>, dropped: nat, limit: int, interval: int, since: int) {
    predicate Ok() {
      dropped <= |arrived| && 1 <= limit && |arrived| - dropped <= limit
    }

    function Window(): seq<Image>
      requires dropped <= |arrived|
    {
      arrived[dropped..]
    }

    function Then(cmd: Command): (v: View)
      requires Ok()
      ensures v.Ok()
    {
      match cmd
      case Add(m) =>
        this.(arrived := arrived + [m], dropped := DroppedBy(dropped, |arrived| + 1, limit),
              since := if since + 1 >= interval then 0 else since + 1)
      case Limit(n) =>
        this.(limit := Clamp(n, MAX_FRAMES), dropped := DroppedBy(dropped, |arrived|, Clamp(n, MAX_FRAMES)),
              since := if Window() == [] then since else interval)
      case Interval(n) => this.(interval := Clamp(n, MAX_INTERVAL))
      case Clear => this.(arrived := [], dropped := 0, since := 0)
    }
  }

  const NEW_VIEW: View := View.View([], 0, 10, 1, 0)

  function After(cmds: seq<Command>): (v: View)
    ensures v.Ok()
  {
    if cmds == [] then NEW_VIEW else After(cmds[..|cmds| - 1]).Then(cmds[|cmds| - 1])
  }

  /** What is published at a command: the sum of the window, at an image that reaches the
      interval and at every new limit that finds images. */
  ghost predicate PublishedBy(p: Option<seq<int>>, before: View, cmd: Command)
    requires before.Ok()
  {
    && (p.Some? <==> match cmd
                     case Add(_) => before.since + 1 >= before.interval
                     case Limit(_) => before.Window() != []
                     case _ => false)
    && (p.Some? ==> SumsWindow(p.value, before.Then(cmd).Window()))
  }

  /** The same at the last command. */
  ghost predicate PublishedAt(p: Option<seq<int>>, cmds: seq<Command>)
    requires cmds != []
  {
    PublishedBy(p, After(cmds[..|cmds| - 1]), cmds[|cmds| - 1])
  }

  ghost predicate Holds(c: Channel, v: View)
    reads c, if c.sum == null then {} else {c.sum.values}
  {
    && c.Valid() && c.arrived == v.arrived && c.dropped == v.dropped
    && c.framesToSum == v.limit && c.interval == v.interval && c.sinceUpdate == v.since
  }

  method Execute(c: Channel, ghost v: View, cmd: Command) returns (published: Option<seq<int>>)
    requires v.Ok() && Holds(c, v) && (cmd.Add? ==> cmd.image.Valid())
    modifies c, if c.sum == null then {} else {c.sum.values}
    ensures Holds(c, v.Then(cmd)) && PublishedBy(published, v, cmd)
    ensures c.sum != null && c.sum != old(c.sum) ==> fresh(c.sum) && fresh(c.sum.values)
  {
    hide Channel.Summed, Last, SumsWindow, DroppedBy, Clamp, Image.Valid;
    published := None;
    match cmd {
      case Add(m) => published := c.ProcessFrame(m);
      case Limit(n) => published := c.SetFramesToSum(n);
      case Interval(n) => c.SetUpdateInterval(n);
      case Clear => c.Reset();
    }
  }

  lemma AfterSnoc(cmds: seq<Command>, cmd: Command)
    ensures After(cmds + [cmd]) == After(cmds).Then(cmd)
    ensures forall p :: PublishedBy(p, After(cmds), cmd) ==> PublishedAt(p, cmds + [cmd])
  {
    hide PublishedBy, View.Then;
    assert (cmds + [cmd])[..|cmds|] == cmds;
  }

  method NewChannel() returns (c: Channel)
    ensures fresh(c) && c.sum == null && Holds(c, After([]))
  {
    c := new Channel();
  }

  /** Any commands in any order on a new channel: what is published, and when, is a
      function of the commands so far. */
  method RunCommands(cmds: seq<Command>) returns (published: seq<Option<seq<int>>>)
    requires forall cmd | cmd in cmds :: cmd.Add? ==> cmd.image.Valid()
    ensures |published| == |cmds|
    ensures forall k | 0 <= k < |cmds| :: PublishedAt(published[k], cmds[..k + 1])
  {
    hide Holds, PublishedAt, PublishedBy, View.Then, After, Channel.Valid, Channel.Windowed, Image.Valid;
    var c := NewChannel();
    published := [];
    for k := 0 to |cmds|
      invariant fresh(c) && (c.sum != null ==> fresh(c.sum) && fresh(c.sum.values))
      invariant |published| == k && Holds(c, After(cmds[..k]))
      invariant forall i | 0 <= i < k :: PublishedAt(published[i], cmds[..i + 1])
    {
      assert cmds[k] in cmds && cmds[..k + 1] == cmds[..k] + [cmds[k]];
      AfterSnoc(cmds[..k], cmds[k]);
      var p := Execute(c, After(cmds[..k]), cmds[k]);
      published := published + [p];
    }
  }
}
