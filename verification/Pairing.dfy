/** Pairing threshold-0 and threshold-1 preview images and emitting their difference. */
module Pairing {
  import opened Wrappers

  // ----- greedy pairing of adjacent unequal messages

  /** Pairs made so far, by the position of their first message, and whether the
      latest message is still waiting for a partner. */
  datatype Greedy = Greedy(pairs: seq<nat>, waiting: bool)

  function Pair(s: seq<bool>): Greedy {
    if s == [] then Greedy([], false)
    else
      var n := |s| - 1;
      var g := Pair(s[..n]);
      if g.waiting && n > 0 && s[n - 1] != s[n] then Greedy(g.pairs + [n - 1], false)
      else Greedy(g.pairs, true)
  }

  /** Positions k, in order, such that messages k and k+1 differ and no message is
      used twice. */
  ghost predicate Matching(s: seq<bool>, m: seq<nat>) {
    && (forall i | 0 <= i < |m| :: m[i] + 1 < |s| && s[m[i]] != s[m[i] + 1])
    && (forall i, j | 0 <= i < j < |m| :: m[i] + 2 <= m[j])
  }

  /** One more pair after all the others. */
  lemma MatchingSnoc(s: seq<bool>, m: seq<nat>, n: nat)
    requires n + 1 == |s| && Matching(s[..n], m)
    ensures Matching(s, m)
    ensures n > 0 && s[n - 1] != s[n] && (m != [] ==> m[|m| - 1] + 2 <= n - 1) ==>
              Matching(s, m + [n - 1])
  {
    forall i | 0 <= i < |m|
      ensures m[i] + 1 < n && s[m[i]] != s[m[i] + 1]
    {
      assert s[..n][m[i]] != s[..n][m[i] + 1];
    }
  }

  lemma {:induction false} PairIsMatching(s: seq<bool>)
    ensures Matching(s, Pair(s).pairs)
    ensures Pair(s).waiting ==> s != [] && (Pair(s).pairs == [] || Pair(s).pairs[|Pair(s).pairs| - 1] + 2 < |s|)
    ensures !Pair(s).waiting ==> s == [] || (Pair(s).pairs != [] && Pair(s).pairs[|Pair(s).pairs| - 1] + 2 == |s|)
  {
    if s == [] {
    } else {
      var n := |s| - 1;
      PairIsMatching(s[..n]);
      MatchingSnoc(s, Pair(s[..n]).pairs, n);
      hide Matching;
    }
  }

  lemma MatchingPrefix(s: seq<bool>, m: seq<nat>, n: nat)
    requires Matching(s, m) && n <= |s| && forall i | 0 <= i < |m| :: m[i] + 1 < n
    ensures Matching(s[..n], m)
  {
  }

  /** No disjoint pairing of adjacent unequal messages is larger than the greedy one. */
  lemma {:induction false} PairIsOptimal(s: seq<bool>, m: seq<nat>)
    requires Matching(s, m)
    ensures |m| <= |Pair(s).pairs|
    decreases |s|
  {
    var n := |s| - 1;
    if m == [] {
    } else {
      var k := m[|m| - 1];
      if k + 1 == n {
        MatchingPrefix(s, m[..|m| - 1], n - 1);
        PairIsOptimal(s[..n - 1], m[..|m| - 1]);
        assert s[..n][..n - 1] == s[..n - 1];
        PairIsMatching(s[..n]);
      } else {
        MatchingPrefix(s, m, n);
        PairIsOptimal(s[..n], m);
      }
    }
  }

  // ----- the difference image

  const INT32_MAX: int := 0x7FFF_FFFF
  const WRAP32: int := 0x1_0000_0000

  datatype Format = UInt16 | UInt32

  datatype Message = Message(threshold: int, frame: int, format: Format, width: nat, height: nat, pixels: seq<int>) {
    ghost predicate Valid() {
      && |pixels| == width * height
      && forall p | p in pixels :: 0 <= p < if format == UInt16 then 0x1_0000 else WRAP32
    }
  }

  datatype Diff = Diff(id: int, pixels: seq<int>)

  function ToInt32(x: int): int {
    var r := x % WRAP32;
    if r <= INT32_MAX then r else r - WRAP32
  }

  /** Band-pass pixel of the 32-bit computation. */
  function BandPass(a: int, b: int, clip: bool): int {
    var d := ToInt32(ToInt32(a) - ToInt32(b));
    if clip && d <= 0 then 0 else d
  }

  /** The wrapped difference of two 32-bit pixels. */
  lemma WrappedDifference(a: int, b: int)
    requires 0 <= a < WRAP32 && 0 <= b < WRAP32
    ensures ToInt32(ToInt32(a) - ToInt32(b)) ==
              if a - b > INT32_MAX then a - b - WRAP32 else if a - b < -INT32_MAX - 1 then a - b + WRAP32 else a - b
  {
    assert ToInt32(a) == if a <= INT32_MAX then a else a - WRAP32;
    assert ToInt32(b) == if b <= INT32_MAX then b else b - WRAP32;
  }

  /** The pixel is the true difference, clipped at zero if asked, if and only if the true
      difference fits 32 bits; for 16-bit images it always does. */
  lemma BandPassExact(a: int, b: int, clip: bool)
    requires 0 <= a < WRAP32 && 0 <= b < WRAP32
    ensures BandPass(a, b, clip) == (if clip && a < b then 0 else a - b) <==> -INT32_MAX - 1 <= a - b <= INT32_MAX
    ensures a < 0x1_0000 && b < 0x1_0000 ==> -INT32_MAX - 1 <= a - b <= INT32_MAX
    ensures var d := if a - b >= 0x8000_0000 then a - b - 0x1_0000_0000
                     else if a - b < -0x8000_0000 then a - b + 0x1_0000_0000 else a - b;
            BandPass(a, b, clip) == if clip && d < 0 then 0 else d
  {
    hide ToInt32;
    WrappedDifference(a, b);
  }

  /** A difference that does not fit: 2^32 - 1 against 0 shows -1, and nothing when clipped. */
  lemma WideDifferenceWraps()
    ensures BandPass(WRAP32 - 1, 0, false) == -1 && BandPass(WRAP32 - 1, 0, true) == 0
  {
    hide ToInt32;
    WrappedDifference(WRAP32 - 1, 0);
  }

  method DiffPixels(t0: seq<int>, t1: seq<int>, clip: bool) returns (d: seq<int>)
    requires |t0| == |t1|
    ensures |d| == |t0| && forall i | 0 <= i < |d| :: d[i] == BandPass(t0[i], t1[i], clip)
  {
    var out := new int[|t0|];
    for i := 0 to |t0|
      invariant forall k | 0 <= k < i :: out[k] == BandPass(t0[k], t1[k], clip)
    {
      var x := ToInt32(ToInt32(t0[i]) - ToInt32(t1[i]));
      out[i] := if clip then (if x > 0 then x else 0) else x;
    }
    d := out[..];
  }

  // ----- the stream

  /** The threshold sequence of the messages that take part in pairing. */
  function Bits(messages: seq<Message>): seq<bool> {
    seq(|messages|, (i: nat) requires i < |messages| => messages[i].threshold == 1)
  }

  predicate Paired(m: Message) {
    m.threshold == 0 || m.threshold == 1
  }

  predicate NonDecreasing(s: seq<int>) {
    (s != [] ==> s[0] >= 0) && forall i, j | 0 <= i < j < |s| :: s[i] <= s[j]
  }

  predicate Increasing(s: seq<int>) {
    forall i, j | 0 <= i < j < |s| :: s[i] < s[j]
  }

  /** How one more message changes the greedy pairing. */
  lemma PairSnoc(before: seq<Message>, m: Message)
    requires forall x | x in before :: Paired(x)
    requires Paired(m)
    ensures Pair(Bits(before)).waiting ==> before != []
    ensures var g, h := Pair(Bits(before)), Pair(Bits(before + [m]));
            if g.waiting && before[|before| - 1].threshold != m.threshold
            then !h.waiting && h.pairs == g.pairs + [|before| - 1]
            else h.waiting && h.pairs == g.pairs
  {
    assert Bits(before + [m])[..|before|] == Bits(before);
    assert before != [] ==> before[|before| - 1] in before;
    PairIsMatching(Bits(before));
  }

  lemma PairNone()
    ensures Pair(Bits([])) == Greedy([], false)
  {
  }

  lemma NonDecreasingSnoc(s: seq<int>, x: int)
    requires NonDecreasing(s + [x])
    ensures NonDecreasing(s) && 0 <= x && (s != [] ==> 0 <= s[|s| - 1] <= x)
  {
    var t := s + [x];
    assert t[0] <= t[|t| - 1] || |t| == 1;
    assert forall i | 0 <= i < |s| :: t[i] == s[i];
    if s != [] {
      assert s[0] <= s[|s| - 1] || |s| == 1;
    }
  }

  lemma IncreasingSnoc(s: seq<int>, x: int)
    ensures Increasing(s) && (s != [] ==> s[|s| - 1] < x) ==> Increasing(s + [x])
  {
  }

  // What the flags, slots and ids of a stream say, as predicates on values.

  /** The flags say exactly that the latest message waits, and which one it is. */
  ghost predicate FlagsOk(segment: seq<Message>, t1Ready: bool, t0Orphan: bool,
                          t0: Option<Message>, t1: Option<Message>, t0Kept: bool)
  {
    && !(t1Ready && t0Orphan)
    && Pair(Bits(segment)).waiting == (t1Ready || t0Orphan)
    && (t1Ready ==> segment != [] && segment[|segment| - 1].threshold == 1 && t1 == Some(segment[|segment| - 1]))
    && (t0Orphan ==> segment != [] && segment[|segment| - 1].threshold == 0 && t0.Some? &&
                     (t0Kept ==> t0 == Some(segment[|segment| - 1])))
    && (forall m | m in segment :: Paired(m))
  }

  /** The same when m is already in its slot but not yet in the segment. */
  ghost predicate PendingOk(m: Message, segment: seq<Message>, t1Ready: bool, t0Orphan: bool,
                            t0: Option<Message>, t1: Option<Message>, t0Kept: bool)
  {
    && !(t1Ready && t0Orphan)
    && Pair(Bits(segment)).waiting == (t1Ready || t0Orphan)
    && (t1Ready ==> segment != [] && segment[|segment| - 1].threshold == 1 &&
                    (m.threshold != 1 ==> t1 == Some(segment[|segment| - 1])))
    && (t0Orphan ==> segment != [] && segment[|segment| - 1].threshold == 0 && t0.Some? &&
                     (m.threshold == 1 && t0Kept ==> t0 == Some(segment[|segment| - 1])))
    && (forall x | x in segment :: Paired(x))
    && (m.threshold == 0 ==> t0Kept) && (!Paired(m) ==> !t0Kept)
  }

  /** m is in its slot. */
  predicate InSlot(m: Message, t0: Option<Message>, t1: Option<Message>) {
    if m.threshold == 1 then t1 == Some(m) else t0 == Some(m)
  }

  /** With frame numbers that never decrease the emitted ids strictly increase. */
  ghost predicate OrderOk(frames: seq<int>, ids: seq<int>, lastSeen: int, lastDiff: int,
                          t0Orphan: bool, t0: Option<Message>) {
    NonDecreasing(frames) ==>
      && lastSeen == (if frames == [] then -1 else frames[|frames| - 1])
      && lastDiff == (if ids == [] then -1 else ids[|ids| - 1])
      && lastDiff <= lastSeen
      && Increasing(ids)
      && (t0Orphan && t0.Some? ==> lastDiff <= t0.value.frame <= lastSeen)
  }

  /** Bounds on the ids before frame n is paired. */
  ghost predicate BoundsOk(n: int, frames: seq<int>, ids: seq<int>, lastSeen: int, lastDiff: int,
                           t0Orphan: bool, t0: Option<Message>)
  {
    NonDecreasing(frames + [n]) ==>
      && lastDiff == (if ids == [] then -1 else ids[|ids| - 1])
      && lastDiff <= lastSeen <= n && 0 <= n
      && Increasing(ids)
      && (t0Orphan && t0.Some? ==> lastDiff <= t0.value.frame <= n)
  }

  /** The latest message of the segment waits for m. */
  ghost predicate PartnerOf(segment: seq<Message>, m: Message) {
    Paired(m) && segment != [] && Pair(Bits(segment)).waiting && segment[|segment| - 1].threshold != m.threshold
  }

  /** The segment with m, if m takes part in pairing. */
  function Joined(segment: seq<Message>, m: Message): seq<Message> {
    if Paired(m) then segment + [m] else segment
  }

  /** Pairing m: a flag that waits for its partner is cleared, otherwise m waits. */
  lemma FlagsStep(m: Message, segment: seq<Message>, t1Ready: bool, t0Orphan: bool,
                  t0: Option<Message>, t1: Option<Message>, t0Kept: bool)
    requires InSlot(m, t0, t1) && PendingOk(m, segment, t1Ready, t0Orphan, t0, t1, t0Kept)
    ensures !(t1Ready && t0Orphan) && (t0Orphan ==> t0.Some?)
    ensures m.threshold == 0 && t1Ready ==> t1.Some?
    ensures PartnerOf(segment, m) <==> (m.threshold == 1 && t0Orphan) || (m.threshold == 0 && t1Ready)
    ensures FlagsOk(Joined(segment, m),
                    if m.threshold == 1 then t1Ready || !t0Orphan else m.threshold != 0 && t1Ready,
                    if m.threshold == 0 then t0Orphan || !t1Ready else m.threshold != 1 && t0Orphan, t0, t1, t0Kept)
    ensures Pair(Bits(Joined(segment, m))).pairs
         == Pair(Bits(segment)).pairs + if PartnerOf(segment, m) then [|segment| - 1] else []
  {
    hide Pair, Bits;
    if Paired(m) {
      PairSnoc(segment, m);
    }
  }

  /** Emitting the id of the T0 slot keeps the ids in order. */
  lemma OrderStep(m: Message, frames: seq<int>, ids: seq<int>, lastDiff: int, t0Orphan: bool, t0: Option<Message>,
                  orphan: bool, emitted: bool)
    requires BoundsOk(m.frame, frames, ids, m.frame, lastDiff, t0Orphan, t0)
    requires m.threshold != 1 ==> t0 == Some(m)
    requires orphan ==> t0Orphan || m.threshold == 0
    requires emitted ==> t0.Some? && t0.value.frame != lastDiff && (t0Orphan || m.threshold == 0)
    requires emitted ==> !orphan
    ensures emitted ==> OrderOk(frames + [m.frame], ids + [t0.value.frame], m.frame, t0.value.frame, orphan, t0)
    ensures !emitted ==> OrderOk(frames + [m.frame], ids, m.frame, lastDiff, orphan, t0)
  {
    hide NonDecreasing, Increasing;
    if emitted {
      IncreasingSnoc(ids, t0.value.frame);
    }
  }

  class Stream {
    const diffEnabled: bool
    var bothCounters: bool
    var clip: bool
    var t0Slot: Option<Message>
    var t1Slot: Option<Message>
    var t1Ready: bool
    var t0Orphan: bool
    var lastSeen: int
    var lastDiff: int

    /** Threshold-0 and -1 messages since the last rewind or reset. */
    ghost var segment: seq<Message>
    /** Whether the T0 slot still holds the last threshold-0 message: another
        threshold id would be stored over it. */
    ghost var t0Kept: bool
    /** Frame numbers and emitted ids since the last reset. */
    ghost var frames: seq<int>
    ghost var ids: seq<int>

    ghost predicate Flagged()
      reads this`t1Ready, this`t0Orphan, this`segment, this`t0Slot, this`t1Slot, this`t0Kept
    {
      FlagsOk(segment, t1Ready, t0Orphan, t0Slot, t1Slot, t0Kept)
    }

    ghost predicate Ordered()
      reads this`frames, this`ids, this`lastSeen, this`lastDiff, this`t0Orphan, this`t0Slot
    {
      OrderOk(frames, ids, lastSeen, lastDiff, t0Orphan, t0Slot)
    }

    ghost predicate Valid()
      reads this
    {
      && Flagged() && Ordered()
      && (!diffEnabled ==> segment == [] && frames == [] && ids == [])
      && (t0Slot.Some? ==> t0Slot.value.Valid())
      && (t1Slot.Some? ==> t1Slot.value.Valid())
    }

    constructor (diffs: bool)
      ensures Valid() && diffEnabled == diffs && segment == [] && frames == [] && ids == []
      ensures t0Slot == None && t1Slot == None && lastSeen == -1 && lastDiff == -1
    {
      diffEnabled, bothCounters, clip := diffs, false, false;
      t0Slot, t1Slot, t1Ready, t0Orphan, lastSeen, lastDiff := None, None, false, false, -1, -1;
      segment, t0Kept, frames, ids := [], true, [], [];
    }

    /** At the start and the end of an acquisition; the slots keep their images. */
    method Reset()
      requires Valid()
      modifies this`t1Ready, this`t0Orphan, this`lastSeen, this`lastDiff, this`segment, this`frames, this`ids
      ensures Valid() && segment == [] && frames == [] && ids == [] && !t1Ready && !t0Orphan
    {
      t1Ready, t0Orphan, lastSeen, lastDiff := false, false, -1, -1;
      segment, frames, ids := [], [], [];
    }

    /** The two slots give a band-pass that does not repeat the id `last`. */
    ghost predicate Emits(last: int)
      reads this`bothCounters, this`t0Slot, this`t1Slot
    {
      && bothCounters && t0Slot.Some? && t1Slot.Some?
      && t0Slot.value.frame != last
      && t0Slot.value.width == t1Slot.value.width && t0Slot.value.height == t1Slot.value.height
      && t0Slot.value.format == t1Slot.value.format
    }

    /** The emitted image is the band-pass of the two slots. */
    ghost predicate FromSlots(d: Diff)
      reads this`t0Slot, this`t1Slot, this`clip
    {
      && t0Slot.Some? && t1Slot.Some?
      && d.id == t0Slot.value.frame
      && |d.pixels| == |t0Slot.value.pixels| == |t1Slot.value.pixels|
      && forall i | 0 <= i < |d.pixels| ::
           d.pixels[i] == BandPass(t0Slot.value.pixels[i], t1Slot.value.pixels[i], clip)
    }

    /** Emit the band-pass of the two slots, unless it is switched off, repeats the
        last id, or the two images do not match. */
    method Emit() returns (diff: Option<Diff>)
      requires t0Slot.Some? && t1Slot.Some? && t0Slot.value.Valid() && t1Slot.value.Valid()
      modifies this`lastDiff, this`ids
      ensures diff.Some? <==> Emits(old(lastDiff))
      ensures diff.Some? ==> FromSlots(diff.value) && lastDiff == diff.value.id && ids == old(ids) + [diff.value.id]
      ensures diff.Some? ==> diff.value.id == t0Slot.value.frame != old(lastDiff)
      ensures diff.None? ==> lastDiff == old(lastDiff) && ids == old(ids)
    {
      var a, b := t0Slot.value, t1Slot.value;
      diff := None;
      if !bothCounters || a.frame == lastDiff {
        return;
      }
      if a.width != b.width || a.height != b.height {
        return;
      }
      if a.format != b.format {
        return;
      }
      var pixels := DiffPixels(a.pixels, b.pixels, clip);
      lastDiff := a.frame;
      ids := ids + [a.frame];
      diff := Some(Diff(a.frame, pixels));
    }

    predicate Rewinds(m: Message)
      reads this`lastSeen
    {
      lastSeen >= 0 && m.frame + 10 < lastSeen
    }

    /** The messages that m may be paired with: none across a rewind. */
    ghost function Before(m: Message): seq<Message>
      reads this`lastSeen, this`segment
    {
      if Rewinds(m) then [] else segment
    }

    /** m completes a pair with the message just before it. */
    ghost predicate Completes(m: Message)
      reads this`lastSeen, this`segment
    {
      PartnerOf(Before(m), m)
    }

    /** m is in its slot but has not been paired yet. */
    ghost predicate Stored(m: Message)
      reads this`t0Slot, this`t1Slot
    {
      && InSlot(m, t0Slot, t1Slot)
      && (t0Slot.Some? ==> t0Slot.value.Valid())
      && (t1Slot.Some? ==> t1Slot.value.Valid())
    }

    /** The flags, with m in its slot but the segment still without it. */
    ghost predicate Pending(m: Message)
      reads this`t1Ready, this`t0Orphan, this`segment, this`t0Slot, this`t1Slot, this`t0Kept
    {
      PendingOk(m, segment, t1Ready, t0Orphan, t0Slot, t1Slot, t0Kept)
    }

    /** Bounds on the ids before m is paired. */
    ghost predicate Bounded(m: Message)
      reads this`frames, this`ids, this`lastSeen, this`lastDiff, this`t0Orphan, this`t0Slot
    {
      BoundsOk(m.frame, frames, ids, lastSeen, lastDiff, t0Orphan, t0Slot)
    }

    method Store(m: Message)
      requires Valid() && m.Valid()
      modifies this`t0Slot, this`t1Slot, this`t0Kept
      ensures t0Slot == (if m.threshold == 1 then old(t0Slot) else Some(m))
      ensures t1Slot == (if m.threshold == 1 then Some(m) else old(t1Slot))
      ensures t0Kept == (m.threshold == 0 || (m.threshold == 1 && old(t0Kept)))
      ensures Stored(m) && Pending(m) && Bounded(m)
    {
      hide Pair, Bits, NonDecreasing, Increasing, Message.Valid;
      if NonDecreasing(frames + [m.frame]) {
        NonDecreasingSnoc(frames, m.frame);
      }
      if m.threshold == 1 {
        t1Slot := Some(m);
      } else {
        t0Slot, t0Kept := Some(m), m.threshold == 0;
      }
    }

    /** A frame number far below the last one starts a new measurement. */
    method Rewind(m: Message)
      requires Pending(m) && Bounded(m) && (NonDecreasing(frames + [m.frame]) ==> !Rewinds(m))
      modifies this`t1Ready, this`t0Orphan, this`lastDiff, this`lastSeen, this`segment
      ensures Pending(m) && Bounded(m) && segment == old(Before(m)) && lastSeen == m.frame
      ensures lastDiff == if old(Rewinds(m)) then -1 else old(lastDiff)
    {
      hide Pair, Bits, NonDecreasing, Increasing;
      PairNone();
      if lastSeen >= 0 && m.frame + 10 < lastSeen {
        t1Ready, t0Orphan, lastDiff := false, false, -1;
        segment := [];
      }
      lastSeen := m.frame;
    }

    method PairUp(m: Message) returns (diff: Option<Diff>)
      requires Stored(m) && Pending(m) && Bounded(m) && lastSeen == m.frame
      modifies this`t1Ready, this`t0Orphan, this`lastDiff, this`segment, this`frames, this`ids
      ensures Flagged() && Ordered()
      ensures frames == old(frames) + [m.frame] && segment == Joined(old(segment), m)
      ensures diff.Some? <==> old(PartnerOf(segment, m)) && Emits(old(lastDiff))
      ensures diff.Some? ==> FromSlots(diff.value)
      ensures lastDiff == if diff.Some? then diff.value.id else old(lastDiff)
      ensures ids == old(ids) + (if diff.Some? then [diff.value.id] else [])
      ensures Pair(Bits(segment)).pairs
           == old(Pair(Bits(segment)).pairs) + if old(PartnerOf(segment, m)) then [|old(segment)| - 1] else []
    {
      hide Pair, Bits, Joined, PartnerOf, FlagsOk, PendingOk, OrderOk, BoundsOk, Message.Valid, Emits, FromSlots;
      diff := None;
      ghost var known, wasOrphan, was := ids, t0Orphan, lastDiff;
      FlagsStep(m, segment, t1Ready, t0Orphan, t0Slot, t1Slot, t0Kept);
      segment := Joined(segment, m);
      if m.threshold == 1 {
        if t0Orphan {
          diff := Emit();
          t0Orphan := false;
        } else {
          t1Ready := true;
        }
      } else if m.threshold == 0 {
        if t1Ready {
          diff := Emit();
          t1Ready := false;
        } else {
          t0Orphan := true;
        }
      }
      OrderStep(m, frames, known, was, wasOrphan, t0Slot, t0Orphan, diff.Some?);
      frames := frames + [m.frame];
    }

    /** One preview image: store it in its slot, then pair it. */
    method Process(m: Message) returns (diff: Option<Diff>)
      requires Valid() && m.Valid()
      modifies this
      ensures Valid() && bothCounters == old(bothCounters) && clip == old(clip)
      ensures t0Slot == (if m.threshold == 1 then old(t0Slot) else Some(m))
      ensures t1Slot == (if m.threshold == 1 then Some(m) else old(t1Slot))
      ensures t0Kept == (m.threshold == 0 || (m.threshold == 1 && old(t0Kept)))
      ensures !diffEnabled ==> segment == old(segment) && frames == old(frames) && ids == old(ids) && diff == None
      ensures diffEnabled ==>
                && segment == Joined(old(Before(m)), m)
                && frames == old(frames) + [m.frame] && lastSeen == m.frame
                && ids == old(ids) + (if diff.Some? then [diff.value.id] else [])
                && lastDiff == (if diff.Some? then diff.value.id else if old(Rewinds(m)) then -1 else old(lastDiff))
                && Pair(Bits(segment)).pairs
                   == old(Pair(Bits(Before(m))).pairs) + (if old(Completes(m)) then [|segment| - 2] else [])
                && (diff.Some? <==> old(Completes(m)) && Emits(if old(Rewinds(m)) then -1 else old(lastDiff)))
      ensures diffEnabled && old(Completes(m)) && m.threshold == 1 && t0Kept ==> t0Slot == Some(segment[|segment| - 2])
      ensures diffEnabled && old(Completes(m)) && m.threshold == 0 ==> t1Slot == Some(segment[|segment| - 2])
      ensures diff.Some? ==> FromSlots(diff.value)
    {
      hide Pair, Bits, Message.Valid, FromSlots, Emits, OrderOk, BoundsOk;
      diff := None;
      if NonDecreasing(frames + [m.frame]) {
        NotRewound(frames, ids, lastSeen, lastDiff, t0Orphan, t0Slot, m.frame);
      }
      hide NonDecreasing;
      ghost var slot := t0Slot;
      Store(m);
      if !diffEnabled {
        PairNone();
        OrderSlot(frames, ids, lastSeen, lastDiff, slot, t0Slot);
        return;
      }
      Rewind(m);
      diff := PairUp(m);
    }
  }

  /** Without an orphan the T0 slot does not matter. */
  lemma OrderSlot(frames: seq<int>, ids: seq<int>, lastSeen: int, lastDiff: int,
                  t0: Option<Message>, other: Option<Message>)
    ensures OrderOk(frames, ids, lastSeen, lastDiff, false, t0)
         == OrderOk(frames, ids, lastSeen, lastDiff, false, other)
  {
  }

  /** Frame numbers that never decrease are never taken for a new measurement. */
  lemma NotRewound(frames: seq<int>, ids: seq<int>, lastSeen: int, lastDiff: int,
                   t0Orphan: bool, t0: Option<Message>, n: int)
    requires OrderOk(frames, ids, lastSeen, lastDiff, t0Orphan, t0) && NonDecreasing(frames + [n])
    ensures lastSeen <= n
  {
    NonDecreasingSnoc(frames, n);
  }

  // ----- whole runs, as functions of the messages so far

  function LastFrame(ms: seq<Message>): int {
    if ms == [] then -1 else ms[|ms| - 1].frame
  }

  /** The last message starts a new measurement. */
  predicate RewindsAt(ms: seq<Message>)
    requires ms != []
  {
    var before := LastFrame(ms[..|ms| - 1]);
    before >= 0 && ms[|ms| - 1].frame + 10 < before
  }

  /** The messages that take part in pairing since the last rewind. */
  function Segment(ms: seq<Message>): seq<Message>
    decreases |ms|, 1
  {
    if ms == [] then [] else Joined(SegmentBefore(ms), ms[|ms| - 1])
  }

  /** Those of them before the last message. */
  function SegmentBefore(ms: seq<Message>): seq<Message>
    requires ms != []
    decreases |ms|, 0
  {
    if RewindsAt(ms) then [] else Segment(ms[..|ms| - 1])
  }

  /** The last message completes a pair. */
  ghost predicate PairEnds(ms: seq<Message>) {
    ms != [] && PartnerOf(SegmentBefore(ms), ms[|ms| - 1])
  }

  /** Pairs completed since the last rewind. */
  ghost function PairsSince(ms: seq<Message>): nat {
    if ms == [] then 0
    else (if RewindsAt(ms) then 0 else PairsSince(ms[..|ms| - 1])) + if PairEnds(ms) then 1 else 0
  }

  /** The image in a slot: the last one that is stored there. */
  function SlotOf(ms: seq<Message>, one: bool): Option<Message> {
    if ms == [] then None
    else if (ms[|ms| - 1].threshold == 1) == one then Some(ms[|ms| - 1])
    else SlotOf(ms[..|ms| - 1], one)
  }

  /** The id of the last image emitted since the last rewind. */
  ghost function LastId(ms: seq<Message>, both: bool): int
    decreases |ms|, 2
  {
    if ms == [] then -1 else if EmitsAt(ms, both) then SlotOf(ms, false).value.frame else LastIdBefore(ms, both)
  }

  ghost function LastIdBefore(ms: seq<Message>, both: bool): int
    requires ms != []
    decreases |ms|, 0
  {
    if RewindsAt(ms) then -1 else LastId(ms[..|ms| - 1], both)
  }

  /** The last message completes a pair whose slots match and whose id is new. */
  ghost predicate EmitsAt(ms: seq<Message>, both: bool)
    decreases |ms|, 1
  {
    var t0, t1 := SlotOf(ms, false), SlotOf(ms, true);
    && PairEnds(ms) && both && t0.Some? && t1.Some? && t0.value.frame != LastIdBefore(ms, both)
    && t0.value.width == t1.value.width && t0.value.height == t1.value.height && t0.value.format == t1.value.format
  }

  /** What is emitted after the messages ms. */
  ghost predicate Emitted(d: Option<Diff>, ms: seq<Message>, both: bool, clip: bool) {
    var t0, t1 := SlotOf(ms, false), SlotOf(ms, true);
    && (d.Some? <==> EmitsAt(ms, both))
    && (d.Some? ==>
          && d.value.id == t0.value.frame
          && |d.value.pixels| == |t0.value.pixels| == |t1.value.pixels|
          && forall i | 0 <= i < |d.value.pixels| ::
               d.value.pixels[i] == BandPass(t0.value.pixels[i], t1.value.pixels[i], clip))
  }

  function FrameNumbers(ms: seq<Message>): seq<int> {
    seq(|ms|, (i: nat) requires i < |ms| => ms[i].frame)
  }

  function Ids(diffs: seq<Option<Diff>>): seq<int> {
    if diffs == [] then []
    else Ids(diffs[..|diffs| - 1]) + if diffs[|diffs| - 1].Some? then [diffs[|diffs| - 1].value.id] else []
  }

  /** A stream has seen exactly these messages and emitted these images. */
  ghost predicate Saw(c: Stream, ms: seq<Message>, diffs: seq<Option<Diff>>)
    reads c
  {
    && c.Valid() && c.diffEnabled
    && c.segment == Segment(ms) && c.lastSeen == LastFrame(ms) && c.lastDiff == LastId(ms, c.bothCounters)
    && c.t0Slot == SlotOf(ms, false) && c.t1Slot == SlotOf(ms, true)
    && c.frames == FrameNumbers(ms) && c.ids == Ids(diffs)
  }

  /** One more message. */
  lemma Snoc(ms: seq<Message>, m: Message, both: bool)
    ensures var all, rewinds := ms + [m], LastFrame(ms) >= 0 && m.frame + 10 < LastFrame(ms);
            && SegmentBefore(all) == (if rewinds then [] else Segment(ms))
            && Segment(all) == Joined(SegmentBefore(all), m)
            && (PairEnds(all) <==> PartnerOf(SegmentBefore(all), m))
            && LastFrame(all) == m.frame
            && LastIdBefore(all, both) == (if rewinds then -1 else LastId(ms, both))
            && SlotOf(all, false) == (if m.threshold == 1 then SlotOf(ms, false) else Some(m))
            && SlotOf(all, true) == (if m.threshold == 1 then Some(m) else SlotOf(ms, true))
            && FrameNumbers(all) == FrameNumbers(ms) + [m.frame]
            && LastId(all, both)
               == if EmitsAt(all, both) then SlotOf(all, false).value.frame else LastIdBefore(all, both)
  {
    hide PartnerOf, Joined, EmitsAt;
    assert (ms + [m])[..|ms|] == ms;
  }

  lemma IdsSnoc(diffs: seq<Option<Diff>>, d: Option<Diff>)
    ensures Ids(diffs + [d]) == Ids(diffs) + if d.Some? then [d.value.id] else []
  {
    assert (diffs + [d])[..|diffs|] == diffs;
  }

  method Feed(c: Stream, ghost ms: seq<Message>, ghost diffs: seq<Option<Diff>>, m: Message)
    returns (diff: Option<Diff>)
    requires Saw(c, ms, diffs) && m.Valid()
    modifies c
    ensures Saw(c, ms + [m], diffs + [diff]) && c.bothCounters == old(c.bothCounters) && c.clip == old(c.clip)
    ensures Emitted(diff, ms + [m], c.bothCounters, c.clip)
  {
    hide PartnerOf, Joined, BandPass, Message.Valid, Stream.Flagged, Stream.Ordered, Pair, Bits;
    hide Segment, SegmentBefore, LastId, LastIdBefore, LastFrame, SlotOf, PairEnds, FrameNumbers, Ids;
    Snoc(ms, m, c.bothCounters);
    diff := c.Process(m);
    IdsSnoc(diffs, diff);
  }

  lemma SawInOrder(c: Stream, ms: seq<Message>, diffs: seq<Option<Diff>>)
    requires Saw(c, ms, diffs)
    ensures NonDecreasing(FrameNumbers(ms)) ==> Increasing(Ids(diffs))
  {
  }

  method Start(both: bool, clip: bool) returns (c: Stream)
    ensures fresh(c) && Saw(c, [], []) && c.bothCounters == both && c.clip == clip
  {
    c := new Stream(true);
    c.bothCounters, c.clip := both, clip;
    assert FrameNumbers([]) == [];
  }

  /** A whole sequence of messages through a new stream: an image is emitted exactly for
      every completed pair whose slots match and whose id is new, it is the band-pass of
      the slots, and with frame numbers that never decrease the ids strictly increase. */
  method Run(messages: seq<Message>, both: bool, clip: bool) returns (diffs: seq<Option<Diff>>)
    requires forall m | m in messages :: m.Valid()
    ensures |diffs| == |messages|
    ensures forall k | 0 <= k < |messages| :: Emitted(diffs[k], messages[..k + 1], both, clip)
    ensures NonDecreasing(FrameNumbers(messages)) ==> Increasing(Ids(diffs))
  {
    hide Emitted, Message.Valid, Saw, NonDecreasing, Increasing, FrameNumbers, Ids;
    var c := Start(both, clip);
    diffs := [];
    for k := 0 to |messages|
      invariant fresh(c) && |diffs| == k && Saw(c, messages[..k], diffs) && c.bothCounters == both && c.clip == clip
      invariant forall i | 0 <= i < k :: Emitted(diffs[i], messages[..i + 1], both, clip)
    {
      assert messages[k] in messages && messages[..k + 1] == messages[..k] + [messages[k]];
      var diff := Feed(c, messages[..k], diffs, messages[k]);
      diffs := diffs + [diff];
    }
    assert messages[..|messages|] == messages;
    SawInOrder(c, messages, diffs);
  }

  /** The completed pairs are the greedy pairs of the segment. */
  lemma {:induction false} PairsAreGreedy(ms: seq<Message>)
    ensures PairsSince(ms) == |Pair(Bits(Segment(ms))).pairs|
    ensures forall m | m in Segment(ms) :: Paired(m)
  {
    if ms == [] {
      PairNone();
    } else {
      var m := ms[|ms| - 1];
      PairsAreGreedy(ms[..|ms| - 1]);
      PairNone();
      assert forall x | x in SegmentBefore(ms) :: Paired(x);
      hide Pair, Bits;
      if Paired(m) {
        PairSnoc(SegmentBefore(ms), m);
      }
    }
  }

  /** Between rewinds no disjoint pairing of neighbouring unequal messages has more pairs
      than the stream completes. */
  lemma RunIsOptimal(ms: seq<Message>, m: seq<nat>)
    requires Matching(Bits(Segment(ms)), m)
    ensures |m| <= PairsSince(ms)
  {
    hide Matching, Pair, Segment;
    PairsAreGreedy(ms);
    PairIsOptimal(Bits(Segment(ms)), m);
  }

  /** With thresholds 0 and 1 only, the slots hold the two messages of a completed pair,
      which came one after the other. */
  lemma SlotsHoldPair(ms: seq<Message>)
    requires PairEnds(ms) && forall m | m in ms :: Paired(m)
    ensures var n := |ms|;
            && n >= 2 && !RewindsAt(ms)
            && SlotOf(ms, ms[n - 1].threshold == 1) == Some(ms[n - 1])
            && SlotOf(ms, ms[n - 1].threshold != 1) == Some(ms[n - 2])
  {
    hide Pair, Bits;
    var front := ms[..|ms| - 1];
    assert front != [] && front[|front| - 1] in ms;
    assert Segment(front)[|Segment(front)| - 1] == front[|front| - 1];
  }

  /** Message i falls back behind the one before it by more than ten frames. */
  predicate FallsBack(ms: seq<Message>, i: int) {
    0 < i < |ms| && ms[i - 1].frame >= 0 && ms[i].frame < ms[i - 1].frame - 10
  }

  /** While no message falls back all of them take part in one pairing. */
  lemma {:induction false} OneMeasurement(ms: seq<Message>)
    requires forall m | m in ms :: Paired(m)
    requires forall i :: !FallsBack(ms, i)
    ensures Segment(ms) == ms
  {
    hide Segment, SegmentBefore, PartnerOf, EmitsAt;
    if ms == [] {
      SegmentNone();
    } else {
      var front, last := ms[..|ms| - 1], ms[|ms| - 1];
      assert last in ms && forall m | m in front :: m in ms;
      forall i
        ensures !FallsBack(front, i)
      {
        assert !FallsBack(ms, i);
      }
      assert !FallsBack(ms, |ms| - 1);
      OneMeasurement(front);
      assert front + [last] == ms;
      Snoc(front, last, true);
    }
  }

  lemma SegmentNone()
    ensures Segment([]) == []
  {
  }

  /** One that falls back leaves all before it out, and completes no pair. */
  lemma NewMeasurement(ms: seq<Message>)
    requires ms != [] && FallsBack(ms, |ms| - 1) && Paired(ms[|ms| - 1])
    ensures Segment(ms) == [ms[|ms| - 1]] && !PairEnds(ms) && PairsSince(ms) == 0
    ensures forall both :: LastIdBefore(ms, both) == -1
  {
    hide PartnerOf;
    assert RewindsAt(ms);
    NoPartner(ms[|ms| - 1]);
  }

  lemma NoPartner(m: Message)
    ensures !PartnerOf([], m)
  {
  }

  /** With thresholds 0 and 1 only, an image is emitted for the two messages of a completed
      pair exactly when both counters are on, their sizes and formats agree and the id is new;
      it shows the threshold-0 image minus the threshold-1 image under the id of the former,
      whichever of them came first. */
  lemma EmittedIsPair(d: Option<Diff>, ms: seq<Message>, both: bool, clip: bool)
    requires Emitted(d, ms, both, clip) && forall m | m in ms :: Paired(m)
    ensures d.Some? ==> PairEnds(ms)
    ensures PairEnds(ms) ==>
              && |ms| >= 2 && ms[|ms| - 1].threshold != ms[|ms| - 2].threshold
              && var low := if ms[|ms| - 1].threshold == 0 then ms[|ms| - 1] else ms[|ms| - 2];
                 var high := if ms[|ms| - 1].threshold == 0 then ms[|ms| - 2] else ms[|ms| - 1];
                 && (d.Some? <==> both && low.width == high.width && low.height == high.height
                                  && low.format == high.format && low.frame != LastIdBefore(ms, both))
                 && (d.Some? ==>
                       && d.value.id == low.frame && |d.value.pixels| == |low.pixels| == |high.pixels|
                       && forall i | 0 <= i < |low.pixels| ::
                            d.value.pixels[i] == BandPass(low.pixels[i], high.pixels[i], clip))
  {
    hide BandPass, LastIdBefore, Pair, Bits;
    if PairEnds(ms) {
      SlotsHoldPair(ms);
      PairThresholds(ms);
    }
  }

  lemma PairThresholds(ms: seq<Message>)
    requires PairEnds(ms) && forall m | m in ms :: Paired(m)
    ensures |ms| >= 2 && ms[|ms| - 1].threshold != ms[|ms| - 2].threshold
    ensures ms[|ms| - 1].threshold in {0, 1} && ms[|ms| - 2].threshold in {0, 1}
  {
    hide Pair, Bits;
    SlotsHoldPair(ms);
    var front := ms[..|ms| - 1];
    assert ms[|ms| - 1] in ms && ms[|ms| - 2] in ms;
    assert front != [] && front[|front| - 1] == ms[|ms| - 2];
    assert Segment(front)[|Segment(front)| - 1] == front[|front| - 1];
  }
}
