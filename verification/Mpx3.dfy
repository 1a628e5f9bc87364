/** The detector configuration that parameter writes send to Serval, and the MPX3
    exclusions between BothCounters, the trigger mode and the pixel depth. */
module Mpx3 {
  import opened Wrappers
  import opened Decimal

  datatype Family = Unknown | TPX3 | MPX3

  datatype Value = Bool(b: bool) | Int(n: int) | Real(x: real) | Text(s: string) | Other(id: int)

  const CONTINUOUS := 5
  const AUTOTRIGGER := 4
  const MIN_DEAD_TIME := 0.003

  const TRIGGER_MODES := 9

  function TriggerName(mode: int): string {
    match mode
    case 0 => "PEXSTART_NEXSTOP"
    case 1 => "NEXSTART_PEXSTOP"
    case 2 => "PEXSTART_TIMERSTOP"
    case 3 => "NEXSTART_TIMERSTOP"
    case 4 => "AUTOTRIGSTART_TIMERSTOP"
    case 5 => "CONTINUOUS"
    case 6 => "SOFTWARESTART_TIMERSTOP"
    case 7 => "SOFTWARESTART_SOFTWARESTOP"
    case 8 => "FOLLOWING"
    case _ => "PEXSTART_NEXSTOP"
  }

  /** The keys of the configuration that the driver knows, and all others. */
  datatype Key =
    | TriggerMode | ExposureTime | TriggerPeriod | NTriggers | BothCounters | PixelDepth | GainMode
    | BiasVoltage | BiasEnabled | ChainMode | Polarity | TriggerIn | TriggerOut | LogLevel
    | ChargeSumming | Colour | CounterSelectIn | CounterSelectOut | IDelayConfig
    | TriggerDelay | GlobalTimestampInterval | Tdc | ExternalReferenceClock | PeriphClk80
    | Foreign(name: string)

  type Config = map<Key, Value>

  /** Keys the driver computes, copies from its settings for every family, for MPX3 only
      or for the other families only, and does not know. */
  datatype Group = Driven | Common | Mpx3Only | Tpx3Only | Unlisted

  function GroupOf(k: Key): Group {
    match k
    case TriggerMode | ExposureTime | TriggerPeriod | NTriggers | BothCounters | PixelDepth | GainMode => Driven
    case BiasVoltage | BiasEnabled | ChainMode | Polarity | TriggerIn | TriggerOut | LogLevel => Common
    case ChargeSumming | Colour | CounterSelectIn | CounterSelectOut | IDelayConfig => Mpx3Only
    case TriggerDelay | GlobalTimestampInterval | Tdc | ExternalReferenceClock | PeriphClk80 => Tpx3Only
    case Foreign(_) => Unlisted
  }

  /** The part of the parameter store that goes into the configuration, and the threshold
      lists of the image channels. */
  datatype Store = Store(
    family: Family, bothCounters: int, triggerMode: int, pixelDepth: int, gainMode: int,
    imageMode: int, numImages: int, acquireTime: real, acquirePeriod: real,
    thresholds: seq<string>, settings: Config)

  const SINGLE := 0

  /** Both thresholds on each of the four image channels. */
  const BOTH_THRESHOLDS := ["0,1", "0,1", "0,1", "0,1"]

  datatype Put = Put(family: Family, config: Config)

  /** How Serval answers during one write: the configuration (if it can be read), what
      asking for an unknown detector leaves in the store, whether the new configuration
      is accepted and the pixel depth and gain mode read back if it is not. */
  datatype Answer = Answer(
    config: Option<Config>, detector: Store, accepted: bool, resync: Option<Value>, gain: Option<Value>)

  // ----- the exclusions

  predicate TriggerConflict(s: Store, mode: int) {
    s.family.MPX3? && s.bothCounters != 0 && mode == CONTINUOUS
  }

  predicate DepthConflict(s: Store, depth: int) {
    s.family.MPX3? && s.bothCounters != 0 && depth == 24
  }

  predicate Exclusive(s: Store) {
    !TriggerConflict(s, s.triggerMode) && !DepthConflict(s, s.pixelDepth)
  }

  predicate ValidDepth(depth: int) {
    depth == 1 || depth == 6 || depth == 12 || depth == 24
  }

  function NormalizeDepth(depth: int): int {
    if ValidDepth(depth) then depth else 12
  }

  function Truncate(x: real): int {
    if x < 0.0 then -((-x).Floor) else x.Floor
  }

  function DepthFromJson(v: Value): (depth: int)
    ensures ValidDepth(depth)
  {
    match v
    case Int(n) => NormalizeDepth(n)
    case Real(x) => NormalizeDepth(Truncate(x))
    case Text(s) => if ParseInt(s).Some? then NormalizeDepth(ParseInt(s).value) else 12
    case _ => 12
  }

  predicate WholePart(x: real, n: nat) {
    n as real <= x < n as real + 1.0
  }

  /** A depth on the menu is read from a number, whatever its fraction, or from its digits;
      everything else reads as 12. */
  lemma DepthRead(v: Value)
    ensures v.Int? ==> DepthFromJson(v) == if v.n in {1, 6, 12, 24} then v.n else 12
    ensures v.Real? ==> DepthFromJson(v) == if WholePart(v.x, 1) then 1 else if WholePart(v.x, 6) then 6
                                            else if WholePart(v.x, 24) then 24 else 12
    ensures forall n: nat | v == Text(Print(n)) :: DepthFromJson(v) == if n in {1, 6, 12, 24} then n else 12
    ensures v.Text? && ParseInt(v.s).None? ==> DepthFromJson(v) == 12
    ensures v.Bool? || v.Other? ==> DepthFromJson(v) == 12
  {
    hide ParseInt, Print;
    forall n: nat | v == Text(Print(n))
      ensures DepthFromJson(v) == if n in {1, 6, 12, 24} then n else 12
    {
      ParseIntOfPrint(n);
    }
  }

  function GainName(mode: int): string {
    if mode == 1 then "HGM" else if mode == 2 then "LGM" else if mode == 3 then "SLGM" else "SHGM"
  }

  function GainFromJson(v: Value): (mode: int)
    ensures 0 <= mode <= 3
  {
    if v == Text("HGM") then 1 else if v == Text("LGM") then 2 else if v == Text("SLGM") then 3 else 0
  }

  /** What is sent for a gain mode reads back as that mode, or as 0 off the menu. */
  lemma GainRoundTrip(mode: int)
    ensures GainFromJson(Text(GainName(mode))) == if 0 <= mode <= 3 then mode else 0
    ensures forall v :: GainFromJson(v) != 0 ==> v == Text(GainName(GainFromJson(v)))
  {
    assert |GainName(1)| == |GainName(2)| == 3 && |GainName(0)| == |GainName(3)| == 4;
    assert GainName(1)[0] != GainName(2)[0] && GainName(0)[1] != GainName(3)[1];
  }

  function FixTrigger(mode: int): int {
    if 0 <= mode < TRIGGER_MODES then mode else 0
  }

  // ----- the configuration that is sent

  function Pick(settings: Config, g: Group): Config {
    map k | k in settings && GroupOf(k) == g :: settings[k]
  }

  function StripTpx3(config: Config): Config {
    map k | k in config && !GroupOf(k).Tpx3Only? :: config[k]
  }

  function PeriodOf(s: Store): real {
    if s.triggerMode == CONTINUOUS then s.acquireTime
    else if s.acquirePeriod <= s.acquireTime + MIN_DEAD_TIME then s.acquireTime + MIN_DEAD_TIME
    else s.acquirePeriod
  }

  /** Serval's configuration with what is sent for every family written over it. */
  function Timed(s: Store, config: Config): Config {
    config[TriggerMode := Text(TriggerName(s.triggerMode))]
          [ExposureTime := Real(s.acquireTime)][TriggerPeriod := Real(PeriodOf(s))][NTriggers := Int(s.numImages)]
    + Pick(s.settings, Common)
  }

  /** Serval's configuration with the driver's settings written over it. */
  function Prepared(s: Store, config: Config): Config {
    if !s.family.MPX3? then Timed(s, config) + Pick(s.settings, Tpx3Only)
    else
      StripTpx3(Timed(s, config))[BothCounters := Bool(s.bothCounters != 0)]
        [GainMode := Text(GainName(s.gainMode))][PixelDepth := Int(s.pixelDepth)]
      + Pick(s.settings, Mpx3Only)
  }

  datatype Effect = Effect(store: Store, put: Option<Put>, ok: bool)

  /** The store from which the configuration is built. */
  function Settled(s: Store, a: Answer): Store {
    var d := if s.family.Unknown? then a.detector else s;
    d.(triggerMode := FixTrigger(d.triggerMode))
  }

  function SafeDepth(s: Store): Store {
    var depth := NormalizeDepth(s.pixelDepth);
    if !s.family.MPX3? then s else s.(pixelDepth := if DepthConflict(s, depth) then 12 else depth)
  }

  /** The setpoints read back after a refusal. */
  function Resynced(s: Store, a: Answer): Store {
    var t := if a.resync.Some? then s.(pixelDepth := DepthFromJson(a.resync.value)) else s;
    if a.gain.Some? then t.(gainMode := GainFromJson(a.gain.value)) else t
  }

  function InitEffect(s: Store, a: Answer): Effect {
    if a.config.None? then Effect(s, None, true)
    else
      var t := Settled(s, a);
      if TriggerConflict(t, t.triggerMode) then Effect(t, None, false)
      else
        var u := SafeDepth(t);
        var sent := Some(Put(u.family, Prepared(u, a.config.value)));
        if a.accepted || !u.family.MPX3? then Effect(u, sent, true)
        else Effect(Resynced(u, a), sent, false)
  }

  datatype Write =
    | WriteBothCounters(value: int)
    | WriteTriggerMode(mode: int)
    | WritePixelDepth(depth: int)
    | WriteGainMode(mode: int)
    | WriteImageMode(mode: int)
    | WriteNumImages(count: int)
    | WriteAcquireTime(time: real)
    | WriteAcquirePeriod(period: real)
    | WriteSetting(key: Key, setting: Value)

  /** What a write does before the configuration is sent: it goes on to that, or ends
      quietly, or is refused. */
  datatype Applied = Send(store: Store) | Quiet(store: Store) | Refuse(store: Store)

  datatype Outcome = Sends | Ends | Refuses

  /** BothCounters switches the thresholds on and the conflicting settings off. */
  function Enabled(s: Store, value: int): Store {
    var t := s.(bothCounters := value);
    var t1 := if TriggerConflict(t, t.triggerMode) then t.(triggerMode := AUTOTRIGGER) else t;
    var t2 := if DepthConflict(t1, t1.pixelDepth) then t1.(pixelDepth := 12) else t1;
    if value != 0 then t2.(thresholds := BOTH_THRESHOLDS) else t2
  }

  function Apply(s: Store, w: Write): Applied {
    match w
    case WriteBothCounters(value) => Send(Enabled(s, value))
    case WriteTriggerMode(mode) =>
      Send(s.(triggerMode := if TriggerConflict(s, FixTrigger(mode)) then AUTOTRIGGER else FixTrigger(mode)))
    case WritePixelDepth(depth) =>
      if DepthConflict(s, NormalizeDepth(depth)) then Refuse(s.(pixelDepth := 12))
      else Send(s.(pixelDepth := NormalizeDepth(depth)))
    case WriteGainMode(mode) => Send(s.(gainMode := if 0 <= mode <= 3 then mode else 0))
    case WriteImageMode(mode) =>
      if mode == SINGLE then Send(s.(imageMode := mode, numImages := 1)) else Quiet(s.(imageMode := mode))
    case WriteNumImages(count) => Send(s.(numImages := if s.imageMode == SINGLE then 1 else count))
    case WriteAcquireTime(time) => Send(s.(acquireTime := time))
    case WriteAcquirePeriod(period) => Send(s.(acquirePeriod := period))
    case WriteSetting(key, setting) => Send(s.(settings := s.settings[key := setting]))
  }

  function WriteEffect(s: Store, w: Write, a: Answer): Effect {
    match Apply(s, w)
    case Send(t) => InitEffect(t, a)
    case Quiet(t) => Effect(t, None, true)
    case Refuse(t) => Effect(t, None, false)
  }

  // ----- the driver

  class Driver {
    var family: Family
    var bothCounters: int
    var triggerMode: int
    var pixelDepth: int
    var gainMode: int
    var imageMode: int
    var numImages: int
    var acquireTime: real
    var acquirePeriod: real
    var thresholds: seq<string>
    var settings: Config
    /** The configurations sent so far. */
    var puts: seq<Put>

    function State(): Store
      reads this
    {
      Store(family, bothCounters, triggerMode, pixelDepth, gainMode, imageMode, numImages,
            acquireTime, acquirePeriod, thresholds, settings)
    }

    /** No unsafe configuration has ever been sent. */
    ghost predicate Valid()
      reads this`puts
    {
      forall p | p in puts :: Safe(p)
    }

    constructor (s: Store)
      ensures State() == s && puts == [] && Valid()
    {
      family, bothCounters, triggerMode, pixelDepth := s.family, s.bothCounters, s.triggerMode, s.pixelDepth;
      gainMode, imageMode, numImages, thresholds := s.gainMode, s.imageMode, s.numImages, s.thresholds;
      acquireTime, acquirePeriod, settings := s.acquireTime, s.acquirePeriod, s.settings;
      puts := [];
    }

    /** Read every parameter back from the detector. */
    method ReadBack(d: Store)
      modifies this
      ensures State() == d && puts == old(puts)
    {
      family, bothCounters, triggerMode, pixelDepth := d.family, d.bothCounters, d.triggerMode, d.pixelDepth;
      gainMode, imageMode, numImages, thresholds := d.gainMode, d.imageMode, d.numImages, d.thresholds;
      acquireTime, acquirePeriod, settings := d.acquireTime, d.acquirePeriod, d.settings;
    }

    /** Write the shared settings and the timing over Serval's configuration. */
    method FillTiming(config: Config) returns (filled: Config)
      ensures filled == config[TriggerMode := Text(TriggerName(triggerMode))]
                              [ExposureTime := Real(acquireTime)][TriggerPeriod := Real(PeriodOf(State()))]
                              [NTriggers := Int(numImages)]
    {
      filled := config[TriggerMode := Text(TriggerName(triggerMode))];
      if triggerMode == CONTINUOUS {
        filled := filled[ExposureTime := Real(acquireTime)][TriggerPeriod := Real(acquireTime)];
      } else {
        filled := filled[ExposureTime := Real(acquireTime)];
        if acquirePeriod <= acquireTime + MIN_DEAD_TIME {
          filled := filled[TriggerPeriod := Real(acquireTime + MIN_DEAD_TIME)];
        } else {
          filled := filled[TriggerPeriod := Real(acquirePeriod)];
        }
      }
      filled := filled[NTriggers := Int(numImages)];
    }

    /** Write the driver's settings over Serval's configuration; for MPX3 the pixel depth
        is corrected on the way. */
    method BuildConfig(config: Config) returns (filled: Config)
      modifies this`pixelDepth
      ensures State() == SafeDepth(old(State())) && filled == Prepared(State(), config)
    {
      hide GroupOf, TriggerName, GainName, Pick, StripTpx3;
      filled := FillTiming(config);
      filled := filled + Pick(settings, Common);
      if !family.MPX3? {
        filled := filled + Pick(settings, Tpx3Only);
      } else {
        filled := StripTpx3(filled);
        filled := filled[BothCounters := Bool(bothCounters != 0)];
        filled := filled[GainMode := Text(GainName(gainMode))];
        pixelDepth := NormalizeDepth(pixelDepth);
        if DepthConflict(State(), pixelDepth) {
          pixelDepth := 12;
        }
        filled := filled[PixelDepth := Int(pixelDepth)] + Pick(settings, Mpx3Only);
      }
    }

    method InitAcquisition(a: Answer) returns (ok: bool)
      requires Valid()
      modifies this
      ensures Valid()
      ensures var e := InitEffect(old(State()), a);
              && State() == e.store && ok == e.ok
              && puts == old(puts) + if e.put.Some? then [e.put.value] else []
    {
      hide Safe, Prepared, DepthFromJson, GainFromJson;
      if a.config.None? {
        return true;
      }
      InitIsSafe(State(), a);
      if family.Unknown? {
        ReadBack(a.detector);
      }
      if triggerMode < 0 || triggerMode >= TRIGGER_MODES {
        triggerMode := 0;
      }
      if TriggerConflict(State(), triggerMode) {
        return false;
      }
      var config := BuildConfig(a.config.value);
      puts := puts + [Put(family, config)];
      if a.accepted || !family.MPX3? {
        return true;
      }
      if a.resync.Some? {
        pixelDepth := DepthFromJson(a.resync.value);
      }
      if a.gain.Some? {
        gainMode := GainFromJson(a.gain.value);
      }
      return false;
    }

    /** Store the value that was written and correct what it conflicts with. */
    method Assign(w: Write) returns (outcome: Outcome)
      modifies this
      ensures puts == old(puts)
      ensures State() == Apply(old(State()), w).store
      ensures match outcome
              case Sends => Apply(old(State()), w).Send?
              case Ends => Apply(old(State()), w).Quiet?
              case Refuses => Apply(old(State()), w).Refuse?
    {
      outcome := Sends;
      match w {
        case WriteBothCounters(value) =>
          SetBothCounters(value);
        case WriteTriggerMode(mode) =>
          triggerMode := mode;
          if mode < 0 || mode >= TRIGGER_MODES {
            triggerMode := 0;
          }
          if TriggerConflict(State(), triggerMode) {
            triggerMode := AUTOTRIGGER;
          }
        case WritePixelDepth(depth) =>
          pixelDepth := depth;
          if !ValidDepth(depth) {
            pixelDepth := 12;
          }
          if DepthConflict(State(), pixelDepth) {
            pixelDepth := 12;
            outcome := Refuses;
          }
        case WriteGainMode(mode) =>
          gainMode := if mode < 0 || mode > 3 then 0 else mode;
        case WriteImageMode(mode) =>
          imageMode := mode;
          if mode == SINGLE {
            numImages := 1;
          } else {
            outcome := Ends;
          }
        case WriteNumImages(count) =>
          numImages := count;
          if imageMode == SINGLE && count != 1 {
            numImages := 1;
          }
        case WriteAcquireTime(time) => acquireTime := time;
        case WriteAcquirePeriod(period) => acquirePeriod := period;
        case WriteSetting(key, setting) => settings := settings[key := setting];
      }
    }

    method SetBothCounters(value: int)
      modifies this`bothCounters, this`triggerMode, this`pixelDepth, this`thresholds
      ensures State() == Enabled(old(State()), value)
    {
      bothCounters := value;
      if value != 0 {
        if TriggerConflict(State(), triggerMode) {
          triggerMode := AUTOTRIGGER;
        }
        thresholds := BOTH_THRESHOLDS;
        if DepthConflict(State(), pixelDepth) {
          pixelDepth := 12;
        }
      }
    }

    /** A write to one parameter. */
    method WriteParam(w: Write, a: Answer) returns (ok: bool)
      requires Valid()
      modifies this
      ensures Valid()
      ensures var e := WriteEffect(old(State()), w, a);
              && State() == e.store && ok == e.ok
              && puts == old(puts) + if e.put.Some? then [e.put.value] else []
    {
      hide Safe, InitEffect, Apply, State;
      var outcome := Assign(w);
      if outcome == Sends {
        ok := InitAcquisition(a);
      } else {
        ok := outcome == Ends;
      }
    }
  }

  // ----- what is sent

  /** What Serval accepts from an MPX3 driver. */
  predicate SafeConfig(c: Config) {
    && TriggerMode in c && BothCounters in c && PixelDepth in c && TriggerPeriod in c && ExposureTime in c
    && !(c[BothCounters] == Bool(true) && c[TriggerMode] == Text("CONTINUOUS"))
    && !(c[BothCounters] == Bool(true) && c[PixelDepth] == Int(24))
    && c[PixelDepth].Int? && ValidDepth(c[PixelDepth].n)
    && (forall k | k in c :: !GroupOf(k).Tpx3Only?)
    && c[TriggerPeriod].Real? && c[ExposureTime].Real?
    && (c[TriggerMode] != Text("CONTINUOUS") ==> c[TriggerPeriod].x >= c[ExposureTime].x + MIN_DEAD_TIME)
  }

  predicate Safe(p: Put) {
    p.family.MPX3? ==> SafeConfig(p.config)
  }

  lemma OnlyContinuous(mode: int)
    ensures TriggerName(mode) == "CONTINUOUS" <==> mode == CONTINUOUS
  {
    if mode != CONTINUOUS {
      assert TriggerName(mode)[0] != 'C';
    }
  }

  lemma PickAt(settings: Config, g: Group, k: Key)
    ensures var c := Pick(settings, g);
            (k in c <==> k in settings && GroupOf(k) == g) && (k in c ==> c[k] == settings[k])
  {
    hide GroupOf;
  }

  lemma StripAt(config: Config, k: Key)
    ensures var c := StripTpx3(config);
            (k in c <==> k in config && !GroupOf(k).Tpx3Only?) && (k in c ==> c[k] == config[k])
  {
    hide GroupOf;
  }

  /** The keys that the driver computes. */
  lemma DrivenAt(s: Store, config: Config)
    requires s.family.MPX3?
    ensures var c := Prepared(s, config);
            && TriggerMode in c && c[TriggerMode] == Text(TriggerName(s.triggerMode))
            && ExposureTime in c && c[ExposureTime] == Real(s.acquireTime)
            && TriggerPeriod in c && c[TriggerPeriod] == Real(PeriodOf(s))
            && NTriggers in c && c[NTriggers] == Int(s.numImages)
            && BothCounters in c && c[BothCounters] == Bool(s.bothCounters != 0)
            && PixelDepth in c && c[PixelDepth] == Int(s.pixelDepth)
            && GainMode in c && c[GainMode] == Text(GainName(s.gainMode))
  {
    hide Prepared, PeriodOf, TriggerName, GainName;
    TimedAt(s, config);
    DrivenKey(s, config, TriggerMode);
    DrivenKey(s, config, ExposureTime);
    DrivenKey(s, config, TriggerPeriod);
    DrivenKey(s, config, NTriggers);
    DrivenKey(s, config, BothCounters);
    DrivenKey(s, config, PixelDepth);
    DrivenKey(s, config, GainMode);
  }

  lemma TimedAt(s: Store, config: Config)
    ensures var c := Timed(s, config);
            && TriggerMode in c && c[TriggerMode] == Text(TriggerName(s.triggerMode))
            && ExposureTime in c && c[ExposureTime] == Real(s.acquireTime)
            && TriggerPeriod in c && c[TriggerPeriod] == Real(PeriodOf(s))
            && NTriggers in c && c[NTriggers] == Int(s.numImages)
  {
    hide Pick, PeriodOf, TriggerName;
    PickAt(s.settings, Common, TriggerMode);
    PickAt(s.settings, Common, ExposureTime);
    PickAt(s.settings, Common, TriggerPeriod);
    PickAt(s.settings, Common, NTriggers);
  }

  /** No setting is written over a computed key. */
  lemma DrivenKey(s: Store, config: Config, k: Key)
    requires s.family.MPX3? && GroupOf(k).Driven?
    ensures var c, t := Prepared(s, config), Timed(s, config);
            if k.BothCounters? then k in c && c[k] == Bool(s.bothCounters != 0)
            else if k.PixelDepth? then k in c && c[k] == Int(s.pixelDepth)
            else if k.GainMode? then k in c && c[k] == Text(GainName(s.gainMode))
            else Agree(k, c, t)
  {
    hide Timed, Pick, StripTpx3, GroupOf, GainName;
    PickAt(s.settings, Mpx3Only, k);
    StripAt(Timed(s, config), k);
  }

  /** All other keys of a prepared configuration and where their values come from; those
      the driver does not know are sent back as they were received. */
  lemma PreparedAt(s: Store, config: Config, k: Key)
    requires s.family.MPX3? && !GroupOf(k).Driven?
    ensures var c := Prepared(s, config);
            && (GroupOf(k).Tpx3Only? ==> k !in c)
            && (GroupOf(k).Common? || GroupOf(k).Mpx3Only? ==>
                  if k in s.settings then k in c && c[k] == s.settings[k] else Agree(k, c, config))
            && (GroupOf(k).Unlisted? ==> Agree(k, c, config))
  {
    DrivenGroup();
    hide Pick, StripTpx3, TriggerName, PeriodOf, GainName, GroupOf;
    PickAt(s.settings, Common, k);
    PickAt(s.settings, Mpx3Only, k);
    StripAt(Timed(s, config), k);
  }

  lemma DrivenGroup()
    ensures GroupOf(TriggerMode).Driven? && GroupOf(ExposureTime).Driven? && GroupOf(TriggerPeriod).Driven?
    ensures GroupOf(BothCounters).Driven? && GroupOf(PixelDepth).Driven? && GroupOf(GainMode).Driven?
    ensures GroupOf(NTriggers).Driven?
  {
  }

  predicate Agree(k: Key, c: Config, d: Config) {
    (k in c <==> k in d) && (k in c ==> c[k] == d[k])
  }

  lemma PreparedIsSafe(s: Store, config: Config)
    requires s.family.MPX3? && Exclusive(s) && ValidDepth(s.pixelDepth)
    ensures SafeConfig(Prepared(s, config))
  {
    hide Prepared, GroupOf, TriggerName, GainName;
    OnlyContinuous(s.triggerMode);
    DrivenAt(s, config);
    forall k | k in Prepared(s, config)
      ensures !GroupOf(k).Tpx3Only?
    {
      if !GroupOf(k).Driven? {
        PreparedAt(s, config, k);
      }
    }
  }

  /** Whatever the store holds and whatever Serval answers, what is sent is safe. */
  lemma InitIsSafe(s: Store, a: Answer)
    ensures InitEffect(s, a).put.Some? ==> Safe(InitEffect(s, a).put.value)
  {
    hide Prepared, SafeConfig, DepthFromJson;
    var e := InitEffect(s, a);
    if e.put.Some? && e.put.value.family.MPX3? {
      PreparedIsSafe(SafeDepth(Settled(s, a)), a.config.value);
    }
  }

  // ----- runs

  datatype Step = Written(w: Write, a: Answer) | ReadBackFrom(d: Store)

  function Next(s: Store, step: Step): Store {
    match step
    case Written(w, a) => WriteEffect(s, w, a).store
    case ReadBackFrom(d) => d
  }

  function Puts(s: Store, steps: seq<Step>): seq<Put>
    decreases |steps|
  {
    if steps == [] then []
    else
      var sent := if steps[0].Written? then WriteEffect(s, steps[0].w, steps[0].a).put else None;
      (if sent.Some? then [sent.value] else []) + Puts(Next(s, steps[0]), steps[1..])
  }

  function Final(s: Store, steps: seq<Step>): Store
    decreases |steps|
  {
    if steps == [] then s else Final(Next(s, steps[0]), steps[1..])
  }

  /** No run of writes and readbacks, from any store, ever sends an unsafe configuration. */
  lemma {:induction false} RunsAreSafe(s: Store, steps: seq<Step>)
    ensures forall p | p in Puts(s, steps) :: Safe(p)
    decreases |steps|
  {
    hide InitEffect, Safe, Apply;
    if steps == [] {
    } else {
      RunsAreSafe(Next(s, steps[0]), steps[1..]);
      if steps[0].Written? {
        InitIsSafe(Apply(s, steps[0].w).store, steps[0].a);
      }
    }
  }

  /** The pixel depth that Serval reports after refusing is 24. */
  predicate Reads24(a: Answer) {
    a.resync.Some? && DepthFromJson(a.resync.value) == 24
  }

  /** Serval's answer brings an exclusion back: it reveals an MPX3 detector already in
      conflict, or refuses the configuration and reports a depth of 24. */
  predicate Undone(t: Store, a: Answer) {
    var u := Settled(t, a);
    && a.config.Some? && u.family.MPX3? && u.bothCounters != 0
    && (u.triggerMode == CONTINUOUS || (!a.accepted && Reads24(a)))
  }

  /** A write keeps both exclusions if and only if it sends nothing by itself or Serval's
      answer does not bring one of them back. */
  lemma WriteKeepsExclusions(s: Store, w: Write, a: Answer)
    requires Exclusive(s)
    ensures Exclusive(WriteEffect(s, w, a).store) <==> !Apply(s, w).Send? || !Undone(Apply(s, w).store, a)
  {
    hide InitEffect, Undone;
    assert Exclusive(Apply(s, w).store);
    InitKeepsExclusions(Apply(s, w).store, a);
  }

  lemma InitKeepsExclusions(t: Store, a: Answer)
    requires Exclusive(t)
    ensures Exclusive(InitEffect(t, a).store) <==> !Undone(t, a)
  {
    hide Prepared, DepthFromJson;
  }

  /** Turning BothCounters on repairs any store of a known MPX3 detector, unless the
      configuration is refused and the depth read back is 24. */
  lemma EnablingRepairs(s: Store, value: int, a: Answer)
    requires s.family.MPX3? && value != 0
    ensures var e := WriteEffect(s, WriteBothCounters(value), a);
            && e.store.bothCounters == value && e.store.thresholds == BOTH_THRESHOLDS
            && (Exclusive(e.store) <==> !(a.config.Some? && !a.accepted && Reads24(a)))
            && (a.config.Some? ==> e.put.Some? && (e.ok <==> a.accepted))
  {
    hide Prepared, DepthFromJson;
  }

  /** While Serval accepts what it is sent, writes keep the exclusions for good. */
  lemma {:induction false} AcceptedRunsKeepExclusions(s: Store, steps: seq<Step>)
    requires s.family.MPX3? && Exclusive(s)
    requires forall step | step in steps :: step.Written? && step.a.accepted
    ensures Final(s, steps).family.MPX3? && Exclusive(Final(s, steps))
    decreases |steps|
  {
    hide Prepared, DepthFromJson;
    if steps == [] {
    } else {
      assert steps[0] in steps;
      var Written(w, a) := steps[0];
      WriteKeepsExclusions(s, w, a);
      AcceptedRunsKeepExclusions(Next(s, steps[0]), steps[1..]);
    }
  }

  /** Before a configuration is built the stored mode and depth are put on the menu, and a
      depth in conflict with BothCounters becomes 12; nothing else is touched. */
  lemma InitStores(s: Store, a: Answer)
    requires s.family.MPX3? && a.config.Some? && a.accepted && !(s.bothCounters != 0 && s.triggerMode == 5)
    ensures var e := InitEffect(s, a);
            && e.ok && e.put.Some?
            && e.store == s.(triggerMode := e.store.triggerMode, pixelDepth := e.store.pixelDepth)
            && e.store.triggerMode == (if 0 <= s.triggerMode <= 8 then s.triggerMode else 0)
            && e.store.pixelDepth == if s.pixelDepth in {1, 6, 12} || (s.pixelDepth == 24 && s.bothCounters == 0)
                                     then s.pixelDepth else 12
  {
    hide Prepared;
  }

  /** A stored conflict of BothCounters with CONTINUOUS sends nothing and is reported. */
  lemma ConflictSendsNothing(s: Store, a: Answer)
    requires s.family.MPX3? && s.bothCounters != 0 && s.triggerMode == 5 && a.config.Some?
    ensures InitEffect(s, a) == Effect(s, None, false)
  {
  }

  /** The driver asks an unknown detector for its parameters and goes on with them. */
  lemma UnknownIsAsked(s: Store, a: Answer)
    requires s.family.Unknown? && !a.detector.family.Unknown? && a.config.Some?
    ensures InitEffect(s, a) == InitEffect(a.detector, a)
  {
    hide Prepared, DepthFromJson, GainFromJson;
  }

  /** For the other families the settings of all families and those of their own are sent,
      with mode, exposure, period and number of images; all other keys go back as they came. */
  lemma OtherFamilyAt(s: Store, config: Config, k: Key)
    requires !s.family.MPX3?
    ensures var c := Prepared(s, config);
            if k in {TriggerMode, ExposureTime, TriggerPeriod, NTriggers} then
              k in c && c[k] == match k
                                case TriggerMode => Text(TriggerName(s.triggerMode))
                                case ExposureTime => Real(s.acquireTime)
                                case TriggerPeriod => Real(PeriodOf(s))
                                case _ => Int(s.numImages)
            else if k in s.settings && k in OtherFamilyKeys() then k in c && c[k] == s.settings[k]
            else Agree(k, c, config)
  {
    hide Pick, TriggerName, PeriodOf;
    TimedAt(s, config);
    PickAt(s.settings, Common, k);
    PickAt(s.settings, Tpx3Only, k);
  }

  function OtherFamilyKeys(): set<Key> {
    {BiasVoltage, BiasEnabled, ChainMode, Polarity, TriggerIn, TriggerOut, LogLevel,
     TriggerDelay, GlobalTimestampInterval, Tdc, ExternalReferenceClock, PeriphClk80}
  }

  /** The groups of keys by name. */
  lemma KeysOfGroups(k: Key)
    ensures GroupOf(k).Common? <==>
              k in {BiasVoltage, BiasEnabled, ChainMode, Polarity, TriggerIn, TriggerOut, LogLevel}
    ensures GroupOf(k).Mpx3Only? <==> k in {ChargeSumming, Colour, CounterSelectIn, CounterSelectOut, IDelayConfig}
    ensures GroupOf(k).Tpx3Only? <==>
              k in {TriggerDelay, GlobalTimestampInterval, Tdc, ExternalReferenceClock, PeriphClk80}
    ensures GroupOf(k).Unlisted? <==> k.Foreign?
  {
  }

  /** After an accepted write the configuration sent and the store agree. */
  lemma SentIsStored(s: Store, w: Write, a: Answer)
    requires s.family.MPX3? && a.accepted
    ensures var e := WriteEffect(s, w, a);
            e.put.Some? ==>
              var c, t := e.put.value.config, e.store;
              && TriggerMode in c && BothCounters in c && PixelDepth in c && ExposureTime in c
              && c[TriggerMode] == Text(TriggerName(t.triggerMode))
              && c[BothCounters] == Bool(t.bothCounters != 0)
              && c[PixelDepth] == Int(t.pixelDepth)
              && c[ExposureTime] == Real(t.acquireTime)
              && GainMode in c && c[GainMode] == Text(GainName(t.gainMode))
              && NTriggers in c && c[NTriggers] == Int(t.numImages)
              && TriggerPeriod in c && c[TriggerPeriod].Real?
              && (t.triggerMode == CONTINUOUS ==> c[TriggerPeriod].x == t.acquireTime)
              && (t.triggerMode != CONTINUOUS ==>
                    && c[TriggerPeriod].x >= t.acquirePeriod && c[TriggerPeriod].x >= t.acquireTime + MIN_DEAD_TIME
                    && c[TriggerPeriod].x in {t.acquirePeriod, t.acquireTime + MIN_DEAD_TIME})
  {
    hide Prepared, DepthFromJson, TriggerName, GainName, Apply;
    var e := WriteEffect(s, w, a);
    if e.put.Some? {
      FamilyKept(s, w);
      DrivenAt(e.store, a.config.value);
    }
  }

  /** The values that a known detector's store can hold between calls. */
  predicate Settings(s: Store) {
    && !s.family.Unknown? && 0 <= s.triggerMode <= 8
    && (s.family.MPX3? ==> s.pixelDepth in {1, 6, 12, 24} && Exclusive(s))
  }

  /** Where each write leaves its value, and that it changes nothing else: on the menu the
      value itself, and else, or in conflict with BothCounters, the value named here. */
  lemma WriteStores(s: Store, w: Write, a: Answer)
    requires Settings(s) && (s.family.MPX3? ==> a.accepted || a.config.None?)
    ensures var t := WriteEffect(s, w, a).store;
            var both := s.family.MPX3? && s.bothCounters != 0;
            match w
            case WriteBothCounters(value) =>
              var on := s.family.MPX3? && value != 0;
              t == s.(bothCounters := value,
                      thresholds := if value != 0 then ["0,1", "0,1", "0,1", "0,1"] else s.thresholds,
                      triggerMode := if on && s.triggerMode == 5 then 4 else s.triggerMode,
                      pixelDepth := if on && s.pixelDepth == 24 then 12 else s.pixelDepth)
            case WriteTriggerMode(mode) =>
              && t == s.(triggerMode := t.triggerMode)
              && (both && mode == 5 ==> t.triggerMode == 4)
              && (!(both && mode == 5) && 0 <= mode <= 8 ==> t.triggerMode == mode)
              && (!(0 <= mode <= 8) ==> t.triggerMode == 0)
            case WritePixelDepth(depth) =>
              && t == s.(pixelDepth := t.pixelDepth)
              && (depth in {1, 6, 12} || (depth == 24 && !both) ==> t.pixelDepth == depth)
              && (depth !in {1, 6, 12, 24} || (depth == 24 && both) ==> t.pixelDepth == 12)
            case WriteGainMode(mode) =>
              t == s.(gainMode := t.gainMode) && t.gainMode == if mode in {1, 2, 3} then mode else 0
            case WriteImageMode(mode) => t == s.(imageMode := mode, numImages := if mode == 0 then 1 else s.numImages)
            case WriteNumImages(count) => t == s.(numImages := if s.imageMode == 0 then 1 else count)
            case WriteAcquireTime(time) => t == s.(acquireTime := time)
            case WriteAcquirePeriod(period) => t == s.(acquirePeriod := period)
            case WriteSetting(key, setting) => t == s.(settings := s.settings[key := setting])
  {
    hide Prepared, DepthFromJson, GainFromJson;
  }

  /** Which writes go on to send a configuration: all but a depth in conflict, which fails,
      and an image mode other than single, which is only stored. */
  lemma WriteSends(s: Store, w: Write, a: Answer)
    requires Settings(s)
    ensures var e := WriteEffect(s, w, a);
            var refused := s.family.MPX3? && s.bothCounters != 0 && w == WritePixelDepth(24);
            var stored := w.WriteImageMode? && w.mode != 0;
            && (e.put.Some? <==> a.config.Some? && !refused && !stored)
            && (e.ok <==> !refused && (e.put.Some? && s.family.MPX3? ==> a.accepted))
            && (e.put.Some? ==> e.put.value.family == s.family)
  {
    hide Prepared, DepthFromJson, GainFromJson;
  }

  /** The trigger menu as it is documented. */
  function TriggerMenu(): (menu: seq<string>)
    ensures |menu| == 9
  {
    ["PEXSTART_NEXSTOP", "NEXSTART_PEXSTOP", "PEXSTART_TIMERSTOP", "NEXSTART_TIMERSTOP", "AUTOTRIGSTART_TIMERSTOP",
     "CONTINUOUS", "SOFTWARESTART_TIMERSTOP", "SOFTWARESTART_SOFTWARESTOP", "FOLLOWING"]
  }

  lemma TriggerOnMenu(mode: int)
    requires 0 <= mode <= 8
    ensures TriggerName(mode) == TriggerMenu()[mode]
  {
  }

  /** A name stands for a mode when it is the mode's name or its label on the menu. */
  predicate StandsFor(name: string, mode: int) {
    name == TriggerName(mode) || name == if mode == 7 then "SwReSt_SwReSp" else TriggerName(mode)
  }

  /** The mode of a name that Serval reports. */
  method TriggerModeIndexFromServal(name: string, otherwise: int) returns (mode: int)
    ensures if exists m :: 0 <= m <= 8 && StandsFor(name, m) then 0 <= mode <= 8 && StandsFor(name, mode)
            else mode == otherwise
  {
    hide StandsFor;
    for m := 0 to TRIGGER_MODES
      invariant forall i | 0 <= i < m :: !StandsFor(name, i)
    {
      if StandsFor(name, m) {
        return m;
      }
    }
    return otherwise;
  }

  /** Every name that is sent, and every label, is read back as its own mode. */
  lemma TriggerRoundTrip(mode: int, name: string, m: int)
    requires 0 <= mode <= 8 && 0 <= m <= 8 && StandsFor(name, mode) && StandsFor(name, m)
    ensures m == mode
  {
    hide StandsFor, TriggerName;
    TriggerKey(name, mode);
    TriggerKey(name, m);
  }

  /** Length and first letter tell the names apart. */
  lemma TriggerKey(name: string, mode: int)
    requires 0 <= mode <= 8 && StandsFor(name, mode)
    ensures name != "" && (|name|, name[0]) in TriggerKeys(mode)
  {
  }

  function TriggerKeys(mode: int): set<(int, char)> {
    match mode
    case 0 => {(16, 'P')}
    case 1 => {(16, 'N')}
    case 2 => {(18, 'P')}
    case 3 => {(18, 'N')}
    case 4 => {(23, 'A')}
    case 5 => {(10, 'C')}
    case 6 => {(23, 'S')}
    case 7 => {(26, 'S'), (13, 'S')}
    case _ => {(9, 'F')}
  }

  /** What is sent under the key of the written parameter, once Serval accepts it. */
  lemma WrittenIsSent(s: Store, w: Write, a: Answer)
    requires s.family.MPX3? && Settings(s) && a.accepted && WriteEffect(s, w, a).put.Some?
    ensures var c := WriteEffect(s, w, a).put.value.config;
            match w
            case WriteBothCounters(value) => BothCounters in c && c[BothCounters] == Bool(value != 0)
            case WriteTriggerMode(mode) =>
              (0 <= mode <= 8 && (mode == 5 ==> s.bothCounters == 0) ==>
                 TriggerMode in c && c[TriggerMode] == Text(TriggerMenu()[mode]))
            case WritePixelDepth(depth) => (depth in {1, 6, 12, 24} ==> PixelDepth in c && c[PixelDepth] == Int(depth))
            case WriteGainMode(mode) =>
              (0 <= mode <= 3 ==> GainMode in c && c[GainMode] == Text(["SHGM", "HGM", "LGM", "SLGM"][mode]))
            case WriteImageMode(mode) => NTriggers in c && c[NTriggers] == Int(1)
            case WriteNumImages(count) => NTriggers in c && c[NTriggers] == Int(if s.imageMode == 0 then 1 else count)
            case WriteAcquireTime(time) => ExposureTime in c && c[ExposureTime] == Real(time)
            case WriteAcquirePeriod(period) =>
              && TriggerPeriod in c
              && c[TriggerPeriod] == Real(if s.triggerMode == 5 then s.acquireTime
                                          else if period > s.acquireTime + 0.003 then period
                                          else s.acquireTime + 0.003)
            case WriteSetting(key, setting) => (GroupOf(key) in {Common, Mpx3Only} ==> key in c && c[key] == setting)
  {
    hide Prepared, DepthFromJson, GainFromJson, TriggerName, TriggerMenu, GroupOf;
    if w.WriteTriggerMode? && 0 <= w.mode <= 8 {
      TriggerOnMenu(w.mode);
    }
    var t := WriteEffect(s, w, a).store;
    WriteStores(s, w, a);
    WriteSends(s, w, a);
    SentFrom(s, w, a);
    DrivenAt(t, a.config.value);
    if w.WriteSetting? && GroupOf(w.key) in {Common, Mpx3Only} {
      PreparedAt(t, a.config.value, w.key);
    }
  }

  lemma SentFrom(s: Store, w: Write, a: Answer)
    requires s.family.MPX3? && Settings(s) && a.accepted && WriteEffect(s, w, a).put.Some?
    ensures a.config.Some?
    ensures WriteEffect(s, w, a).put.value.config == Prepared(WriteEffect(s, w, a).store, a.config.value)
  {
    hide Prepared, DepthFromJson, GainFromJson, Apply;
    FamilyKept(s, w);
  }

  lemma FamilyKept(s: Store, w: Write)
    ensures Apply(s, w).store.family == s.family
  {
  }

  /** In single mode one image is asked for, and every write to a known detector keeps it
      so. */
  predicate SingleImage(s: Store) {
    s.imageMode == SINGLE ==> s.numImages == 1
  }

  lemma WriteKeepsSingleImage(s: Store, w: Write, a: Answer)
    requires SingleImage(s) && !s.family.Unknown?
    ensures SingleImage(WriteEffect(s, w, a).store)
  {
    hide Prepared, DepthFromJson, GainFromJson;
    FamilyKept(s, w);
    assert SingleImage(Apply(s, w).store);
    hide Apply;
  }

  /** The case in which a write breaks an exclusion: with BothCounters on, a new exposure
      is refused and Serval reports a depth of 24. */
  lemma RefusedWriteBreaks()
    ensures var s := Store(MPX3, 1, 0, 12, 0, 0, 1, 0.0, 0.0, BOTH_THRESHOLDS, map[]);
            var a := Answer(Some(map[]), s, false, Some(Int(24)), None);
            Exclusive(s) && !Exclusive(WriteEffect(s, WriteAcquireTime(1.0), a).store)
  {
    hide Prepared;
    var s := Store(MPX3, 1, 0, 12, 0, 0, 1, 0.0, 0.0, BOTH_THRESHOLDS, map[]);
    var a := Answer(Some(map[]), s, false, Some(Int(24)), None);
    WriteKeepsExclusions(s, WriteAcquireTime(1.0), a);
  }

  /** A refusal leaves the depth and the gain that Serval reports, both on the menu. */
  lemma RefusalResyncs(s: Store, w: Write, a: Answer)
    requires s.family.MPX3? && WriteEffect(s, w, a).put.Some? && !a.accepted
    ensures var t := WriteEffect(s, w, a).store;
            && (a.resync.Some? ==> t.pixelDepth == DepthFromJson(a.resync.value) && ValidDepth(t.pixelDepth))
            && (a.gain.Some? ==> t.gainMode == GainFromJson(a.gain.value) && 0 <= t.gainMode <= 3)
            && (a.resync.None? && a.gain.None? ==> Agrees(t, WriteEffect(s, w, a).put.value))
  {
    hide Prepared, TriggerName, GainName, GainFromJson, DepthFromJson;
    var e := WriteEffect(s, w, a);
    FamilyKept(s, w);
    hide Apply;
    DrivenAt(SafeDepth(Settled(Apply(s, w).store, a)), a.config.value);
  }

  /** Depth and gain of a configuration are those of the store. */
  predicate Agrees(s: Store, p: Put) {
    && PixelDepth in p.config && p.config[PixelDepth] == Int(s.pixelDepth)
    && GainMode in p.config && p.config[GainMode] == Text(GainName(s.gainMode))
  }
}
