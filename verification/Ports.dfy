/** The TCP paths of the preview channels and their rotation to free ports. */
module Ports {
  import opened Wrappers
  import opened Decimal
  import opened Text

  const MAX_PORT := 65535

  datatype Endpoint = Endpoint(host: string, port: int)

  /** Which ports are taken on a host; fixed during one pass. */
  type Busy = (string, int) -> bool

  // ----- paths

  function AfterAt(s: string): string {
    var at := IndexOf(s, '@');
    if at < |s| then s[at + 1..] else s
  }

  predicate IsPort(n: int) {
    1 <= n <= MAX_PORT
  }

  function ParseTcpPath(path: string): (e: Option<Endpoint>)
    ensures e.Some? ==> IsPort(e.value.port) && ':' !in e.value.host
  {
    if !("tcp://" <= path) then None
    else
      var remaining := AfterAt(path[6..]);
      var colon := IndexOf(remaining, ':');
      if colon == |remaining| then None
      else
        var port := ParseInt(remaining[colon + 1..]);
        if port.Some? && IsPort(port.value) then Some(Endpoint(remaining[..colon], port.value)) else None
  }

  function MakeListenTcpPath(host: string, port: nat): string {
    "tcp://listen@" + host + ":" + Print(port)
  }

  lemma AfterListen(rest: string)
    ensures AfterAt("listen@" + rest) == rest
  {
    IndexAt("listen@" + rest, '@', 6);
  }

  lemma ParseListen(host: string, tail: string)
    requires ':' !in host
    ensures ParseTcpPath("tcp://listen@" + host + ":" + tail) ==
              if ParseInt(tail).Some? && IsPort(ParseInt(tail).value)
              then Some(Endpoint(host, ParseInt(tail).value)) else None
  {
    hide ParseInt;
    var rest := host + ":" + tail;
    var path := "tcp://listen@" + host + ":" + tail;
    assert path[6..] == "listen@" + rest;
    AfterListen(rest);
    hide AfterAt;
    assert rest[..|host|] == host && rest[|host| + 1..] == tail;
    IndexAt(rest, ':', |host|);
  }

  /** A printed path parses to the host and port it was made from if and only if the
      host has no colon and the port is in range. */
  lemma PathRoundTrip(host: string, port: nat)
    ensures ParseTcpPath(MakeListenTcpPath(host, port)) == Some(Endpoint(host, port)) <==> ':' !in host && IsPort(port)
  {
    hide ParseTcpPath, ParseInt, Print;
    ParseIntOfPrint(port);
    if ':' !in host {
      ParseListen(host, Print(port));
    }
  }

  /** Every path of the form tcp://host:tail or tcp://user@host:tail, by its parts: the host
      up to the first colon, and the number that the rest starts with, if it is a port. */
  lemma {:induction false} PathParts(user: Option<string>, host: string, tail: string)
    requires ':' !in host && (user.Some? ==> '@' !in user.value) && (user.None? ==> '@' !in host && '@' !in tail)
    ensures ParseTcpPath("tcp://" + (if user.Some? then user.value + "@" else "") + host + ":" + tail)
         == if ParseInt(tail).Some? && 1 <= ParseInt(tail).value <= 65535
            then Some(Endpoint(host, ParseInt(tail).value)) else None
  {
    hide ParseInt, AfterAt;
    var front := if user.Some? then user.value + "@" else "";
    var rest := host + ":" + tail;
    var path := "tcp://" + front + host + ":" + tail;
    assert path[6..] == front + rest;
    AfterUser(user, rest);
    assert rest[..|host|] == host && rest[|host| + 1..] == tail;
    IndexAt(rest, ':', |host|);
  }

  lemma {:induction false} AfterUser(user: Option<string>, rest: string)
    requires if user.Some? then '@' !in user.value else '@' !in rest
    ensures AfterAt((if user.Some? then user.value + "@" else "") + rest) == rest
  {
    if user.Some? {
      var s := user.value + "@" + rest;
      assert s[..|user.value|] == user.value && s[|user.value| + 1..] == rest;
      IndexAt(s, '@', |user.value|);
    } else {
      assert "" + rest == rest;
    }
  }

  /** Paths that name no endpoint, whatever else they hold: of another scheme, or without a
      colon after the host. */
  lemma {:induction false} OtherPaths(path: string, user: Option<string>, host: string)
    requires ':' !in host && (if user.Some? then '@' !in user.value else '@' !in host)
    ensures !("tcp://" <= path) ==> ParseTcpPath(path).None?
    ensures ParseTcpPath("tcp://" + (if user.Some? then user.value + "@" else "") + host).None?
  {
    hide AfterAt;
    var front := if user.Some? then user.value + "@" else "";
    assert ("tcp://" + front + host)[6..] == front + host;
    AfterUser(user, host);
  }

  /** Printing what was parsed and parsing it again changes nothing. */
  lemma ReprintStable(path: string)
    requires ParseTcpPath(path).Some?
    ensures var e := ParseTcpPath(path).value;
            ParseTcpPath(MakeListenTcpPath(e.host, e.port)) == Some(e)
  {
    var e := ParseTcpPath(path).value;
    PathRoundTrip(e.host, e.port);
  }

  // ----- the search for a port

  predicate Admissible(host: string, reserved: set<int>, busy: Busy, port: int) {
    port !in reserved && !busy(host, port)
  }

  /** port is the least admissible one from start on, or -1 when there is none. */
  ghost predicate IsNextFree(host: string, start: int, reserved: set<int>, busy: Busy, port: int) {
    if port == -1 then forall p | start <= p <= MAX_PORT :: !Admissible(host, reserved, busy, p)
    else
      && start <= port <= MAX_PORT && Admissible(host, reserved, busy, port)
      && forall p | start <= p < port :: !Admissible(host, reserved, busy, p)
  }

  method NextFreeTcpPort(host: string, start: nat, reserved: set<int>, busy: Busy) returns (port: int)
    ensures IsNextFree(host, start, reserved, busy, port)
    ensures port == -1 || start <= port <= MAX_PORT
  {
    port := start;
    while port <= MAX_PORT
      invariant start <= port
      invariant forall p | start <= p < port :: !Admissible(host, reserved, busy, p)
    {
      if port !in reserved && !busy(host, port) {
        return;
      }
      port := port + 1;
    }
    port := -1;
  }

  // ----- one pass over the channels

  /** Channels in the order of the pass: PrvImg, PrvImg1, Img, PrvHst. */
  const CHANNELS: nat := 4

  /** The channels with a worker endpoint that is read again after the pass. */
  const SYNCED: nat := 3

  /** An enabled channel whose path is a TCP path that parses. */
  predicate Active(write: int, path: string) {
    write != 0 && ParseTcpPath(path).Some?
  }

  function PortOf(path: string): int {
    var e := ParseTcpPath(path);
    if e.Some? then e.value.port else 0
  }

  /** The ports that the channels before k held or were given. */
  function Reserved(write: seq<int>, before: seq<string>, after: seq<string>, k: nat): set<int>
    requires k <= |write| && k <= |before| && k <= |after|
  {
    if k == 0 then {}
    else
      Reserved(write, before, after, k - 1)
      + (if Active(write[k - 1], before[k - 1]) then {PortOf(before[k - 1]), PortOf(after[k - 1])} else {})
  }

  predicate MustMove(force: bool, write: int, path: string, busy: Busy) {
    Active(write, path) && (force || busy(ParseTcpPath(path).value.host, ParseTcpPath(path).value.port))
  }

  /** The least port for a channel above the one it holds and outside the reserved ones. */
  ghost predicate Search(path: string, reserved: set<int>, busy: Busy, port: int) {
    var e := ParseTcpPath(path);
    e.Some? && IsNextFree(e.value.host, e.value.port + 1, reserved + {e.value.port}, busy, port)
  }

  /** A channel has been moved to the least port that its search finds, or left alone. */
  ghost predicate Relocated(force: bool, write: int, before: string, after: string, reserved: set<int>, busy: Busy) {
    if !MustMove(force, write, before, busy) then after == before
    else
      var port := PortOf(after);
      && port > 0 && Search(before, reserved, busy, port)
      && after == MakeListenTcpPath(ParseTcpPath(before).value.host, port)
  }

  ghost predicate ChannelDone(force: bool, write: seq<int>, before: seq<string>, after: seq<string>, k: nat, busy: Busy)
    requires k < |write| && k < |before| && k < |after|
  {
    Relocated(force, write[k], before[k], after[k], Reserved(write, before, after, k), busy)
  }

  ghost predicate PassDone(force: bool, write: seq<int>, before: seq<string>, after: seq<string>, n: nat, busy: Busy) {
    && n <= |write| == |before| == |after|
    && (forall k: nat | k < n :: ChannelDone(force, write, before, after, k, busy))
    && (forall k: nat | n <= k < |after| :: after[k] == before[k])
  }

  /** The pass stopped at channel n, for which no port is left. */
  ghost predicate Exhausted(force: bool, write: seq<int>, before: seq<string>, after: seq<string>, n: nat, busy: Busy) {
    && PassDone(force, write, before, after, n, busy) && n < |write|
    && MustMove(force, write[n], before[n], busy) && Search(before[n], Reserved(write, before, after, n), busy, -1)
  }

  lemma {:induction false} ReservedFrame(write: seq<int>, before: seq<string>, after: seq<string>,
                                         k: nat, n: nat, path: string)
    requires k <= n < |write| == |before| == |after|
    ensures Reserved(write, before, after[n := path], k) == Reserved(write, before, after, k)
  {
    if k == 0 {
    } else {
      ReservedFrame(write, before, after, k - 1, n, path);
    }
  }

  /** Working on channel n does not disturb the channels before it. */
  lemma DoneFrame(force: bool, write: seq<int>, before: seq<string>, after: seq<string>, n: nat,
                  path: string, busy: Busy)
    requires n < |write| && PassDone(force, write, before, after, n, busy)
    requires Relocated(force, write[n], before[n], path, Reserved(write, before, after, n), busy)
    ensures PassDone(force, write, before, after[n := path], n + 1, busy)
  {
    hide Relocated, Reserved;
    var next := after[n := path];
    forall k: nat | k <= n
      ensures ChannelDone(force, write, before, next, k, busy)
    {
      ReservedFrame(write, before, after, k, n, path);
      assert k < n ==> ChannelDone(force, write, before, after, k, busy);
    }
  }

  /** Moving one channel to the port that was found. */
  lemma MoveOne(force: bool, write: int, path: string, reserved: set<int>, busy: Busy, port: int)
    requires MustMove(force, write, path, busy) && Search(path, reserved, busy, port) && port > 0
    ensures var next := MakeListenTcpPath(ParseTcpPath(path).value.host, port);
            PortOf(next) == port && Relocated(force, write, path, next, reserved, busy)
  {
    hide ParseTcpPath, MakeListenTcpPath, Admissible;
    ReprintStable(path);
    PathRoundTrip(ParseTcpPath(path).value.host, port);
  }

  class Driver {
    var write: seq<int>
    var path: seq<string>
    /** Where the workers of the synced channels connect to. */
    var endpoint: seq<Endpoint>

    ghost predicate Valid()
      reads this
    {
      |write| == |path| == CHANNELS && |endpoint| == SYNCED
    }

    constructor (write: seq<int>, path: seq<string>, endpoint: seq<Endpoint>)
      requires |write| == |path| == CHANNELS && |endpoint| == SYNCED
      ensures Valid() && this.write == write && this.path == path && this.endpoint == endpoint
    {
      this.write, this.path, this.endpoint := write, path, endpoint;
    }

    method RotatePorts(force: bool, busy: Busy) returns (ok: bool, changed: bool)
      requires Valid()
      modifies this`path
      ensures Valid()
      ensures ok ==> PassDone(force, write, old(path), path, CHANNELS, busy)
      ensures !ok ==> exists n :: Exhausted(force, write, old(path), path, n, busy)
      ensures ok ==> changed == exists k :: 0 <= k < CHANNELS && MustMove(force, write[k], old(path)[k], busy)
    {
      hide ParseTcpPath, MakeListenTcpPath, IsNextFree, Admissible;
      var reserved: set<int> := {};
      changed := false;
      var n := 0;
      while n < CHANNELS
        invariant n <= CHANNELS && Valid()
        invariant PassDone(force, write, old(path), path, n, busy)
        invariant reserved == Reserved(write, old(path), path, n)
        invariant changed == exists k :: 0 <= k < n && MustMove(force, write[k], old(path)[k], busy)
      {
        var e := ParseTcpPath(path[n]);
        ghost var seen, earlier, next := reserved, path, path[n];
        if write[n] != 0 && e.Some? {
          var Endpoint(host, port) := e.value;
          reserved := reserved + {port};
          if force || busy(host, port) {
            var candidate := NextFreeTcpPort(host, port + 1, reserved, busy);
            if candidate < 0 {
              assert Exhausted(force, write, old(path), path, n, busy);
              return false, changed;
            }
            reserved := reserved + {candidate};
            MoveOne(force, write[n], path[n], seen, busy, candidate);
            next := MakeListenTcpPath(host, candidate);
            path := path[n := MakeListenTcpPath(host, candidate)];
            changed := true;
          }
        }
        ReservedFrame(write, old(path), earlier, n, n, next);
        DoneFrame(force, write, old(path), earlier, n, next, busy);
        assert path == earlier[n := next];
        n := n + 1;
      }
      return true, changed;
    }

    method CheckPath(c: nat)
      requires Valid() && c < SYNCED
      modifies this`endpoint
      ensures Valid()
      ensures endpoint == if ParseTcpPath(path[c]).Some? then old(endpoint)[c := ParseTcpPath(path[c]).value]
                          else old(endpoint)
    {
      var e := ParseTcpPath(path[c]);
      if e.Some? {
        endpoint := endpoint[c := e.value];
      }
    }

    method SyncTcpStreamEndpoints()
      requires Valid()
      modifies this`endpoint
      ensures Valid() && Synced(write, path, old(endpoint), endpoint)
    {
      hide ParseTcpPath;
      var c := 0;
      while c < SYNCED
        invariant c <= SYNCED && Valid()
        invariant forall k :: 0 <= k < c ==> SyncedAt(write[k], path[k], old(endpoint)[k], endpoint[k])
        invariant forall k :: c <= k < SYNCED ==> endpoint[k] == old(endpoint)[k]
      {
        if write[c] != 0 {
          CheckPath(c);
        }
        c := c + 1;
      }
    }

    /** Move channels off busy ports (or all of them when forced), let the workers read
        their new endpoints and, if anything moved, send the new configuration, whose
        answer is written. */
    method EnsurePreviewTcpPortsFree(force: bool, busy: Busy, written: bool) returns (ok: bool)
      requires Valid()
      modifies this`path, this`endpoint
      ensures Valid()
      ensures ok ==>
                && PassDone(force, write, old(path), path, CHANNELS, busy)
                && Synced(write, path, old(endpoint), endpoint)
      ensures !ok ==>
                || ((exists n :: Exhausted(force, write, old(path), path, n, busy)) && endpoint == old(endpoint))
                || (PassDone(force, write, old(path), path, CHANNELS, busy)
                    && Synced(write, path, old(endpoint), endpoint) && !written
                    && exists k :: 0 <= k < CHANNELS && MustMove(force, write[k], old(path)[k], busy))
    {
      var rotated, changed := RotatePorts(force, busy);
      if !rotated {
        return false;
      }
      SyncTcpStreamEndpoints();
      if !changed {
        return true;
      }
      return written;
    }
  }

  predicate SyncedAt(write: int, path: string, before: Endpoint, after: Endpoint) {
    after == if Active(write, path) then ParseTcpPath(path).value else before
  }

  ghost predicate Synced(write: seq<int>, path: seq<string>, before: seq<Endpoint>, after: seq<Endpoint>) {
    && |write| == |path| == CHANNELS && |before| == |after| == SYNCED
    && forall c :: 0 <= c < SYNCED ==> SyncedAt(write[c], path[c], before[c], after[c])
  }

  // ----- what a complete pass achieves

  lemma {:induction false} ReservedHas(write: seq<int>, before: seq<string>, after: seq<string>, i: nat, k: nat)
    requires i < k <= |write| == |before| == |after|
    requires Active(write[i], before[i])
    ensures PortOf(before[i]) in Reserved(write, before, after, k)
    ensures PortOf(after[i]) in Reserved(write, before, after, k)
  {
    hide ParseTcpPath;
    if i >= k - 1 {
    } else {
      ReservedHas(write, before, after, i, k - 1);
    }
  }

  /** A moved channel keeps its host, and its new port is free, larger than the old one,
      and none that an earlier channel held or was given. */
  lemma Moved(force: bool, write: seq<int>, before: seq<string>, after: seq<string>, k: nat, busy: Busy)
    requires PassDone(force, write, before, after, CHANNELS, busy) && k < CHANNELS == |write|
    requires MustMove(force, write[k], before[k], busy)
    ensures var e := ParseTcpPath(before[k]).value;
            var port := PortOf(after[k]);
            && ParseTcpPath(after[k]) == Some(Endpoint(e.host, port))
            && e.port < port <= MAX_PORT && !busy(e.host, port)
            && (forall i: nat | i < k && Active(write[i], before[i]) ::
                  port != PortOf(before[i]) && port != PortOf(after[i]))
  {
    assert ChannelDone(force, write, before, after, k, busy);
    ReprintStable(before[k]);
    PathRoundTrip(ParseTcpPath(before[k]).value.host, PortOf(after[k]));
    forall i: nat | i < k && Active(write[i], before[i])
      ensures PortOf(after[k]) != PortOf(before[i]) && PortOf(after[k]) != PortOf(after[i])
    {
      ReservedHas(write, before, after, i, k);
    }
  }

  /** After a complete forced pass every active channel is on a new, free port of its
      host, above its old one, and no two active channels share a port. */
  lemma ForcedPass(write: seq<int>, before: seq<string>, after: seq<string>, busy: Busy)
    requires PassDone(true, write, before, after, CHANNELS, busy) && |write| == CHANNELS
    ensures forall k: nat | k < CHANNELS && Active(write[k], before[k]) ::
              && ParseTcpPath(after[k]) == Some(Endpoint(ParseTcpPath(before[k]).value.host, PortOf(after[k])))
              && PortOf(before[k]) < PortOf(after[k]) <= MAX_PORT
              && !busy(ParseTcpPath(before[k]).value.host, PortOf(after[k]))
    ensures forall i: nat, k: nat | i < k < CHANNELS && Active(write[i], before[i]) && Active(write[k], before[k]) ::
              PortOf(after[i]) != PortOf(after[k])
  {
    forall k: nat | k < CHANNELS && Active(write[k], before[k])
      ensures && ParseTcpPath(after[k]) == Some(Endpoint(ParseTcpPath(before[k]).value.host, PortOf(after[k])))
              && PortOf(before[k]) < PortOf(after[k]) <= MAX_PORT
              && !busy(ParseTcpPath(before[k]).value.host, PortOf(after[k]))
              && forall i: nat | i < k && Active(write[i], before[i]) :: PortOf(after[i]) != PortOf(after[k])
    {
      Moved(true, write, before, after, k, busy);
    }
  }

  /** After a complete unforced pass idle channels are untouched and every active channel
      is on a free port of its host. */
  lemma UnforcedPass(write: seq<int>, before: seq<string>, after: seq<string>, busy: Busy)
    requires PassDone(false, write, before, after, CHANNELS, busy) && |write| == CHANNELS
    ensures forall k: nat | k < CHANNELS && !MustMove(false, write[k], before[k], busy) :: after[k] == before[k]
    ensures forall k: nat | k < CHANNELS && Active(write[k], before[k]) ::
              && ParseTcpPath(after[k]).Some?
              && ParseTcpPath(after[k]).value.host == ParseTcpPath(before[k]).value.host
              && !busy(ParseTcpPath(after[k]).value.host, PortOf(after[k]))
  {
    forall k: nat | k < CHANNELS
      ensures !MustMove(false, write[k], before[k], busy) ==> after[k] == before[k]
      ensures Active(write[k], before[k]) ==>
                && ParseTcpPath(after[k]).Some?
                && ParseTcpPath(after[k]).value.host == ParseTcpPath(before[k]).value.host
                && !busy(ParseTcpPath(after[k]).value.host, PortOf(after[k]))
    {
      assert ChannelDone(false, write, before, after, k, busy);
      if MustMove(false, write[k], before[k], busy) {
        Moved(false, write, before, after, k, busy);
      }
    }
  }

  /** Some enabled channel before k held port p at the start or holds it now. */
  ghost predicate Held(write: seq<int>, before: seq<string>, after: seq<string>, k: nat, p: int)
    requires k <= |write| == |before| == |after|
  {
    exists i: nat ::
      && i < k && write[i] != 0
      && (OnPort(before[i], p) || (ParseTcpPath(before[i]).Some? && OnPort(after[i], p)))
  }

  predicate OnPort(path: string, p: int) {
    ParseTcpPath(path).Some? && ParseTcpPath(path).value.port == p
  }

  lemma {:induction false} ReservedExact(write: seq<int>, before: seq<string>, after: seq<string>, k: nat, p: int)
    requires k <= |write| == |before| == |after| && p > 0
    ensures p in Reserved(write, before, after, k) <==> Held(write, before, after, k, p)
  {
    hide ParseTcpPath;
    if k == 0 {
    } else {
      ReservedExact(write, before, after, k - 1, p);
      var own := write[k - 1] != 0 &&
        (OnPort(before[k - 1], p) || (ParseTcpPath(before[k - 1]).Some? && OnPort(after[k - 1], p)));
      HeldStep(write, before, after, k, p);
    }
  }

  lemma HeldStep(write: seq<int>, before: seq<string>, after: seq<string>, k: nat, p: int)
    requires 0 < k <= |write| == |before| == |after|
    ensures Held(write, before, after, k, p) <==>
              || Held(write, before, after, k - 1, p)
              || (write[k - 1] != 0 &&
                  (OnPort(before[k - 1], p) || (ParseTcpPath(before[k - 1]).Some? && OnPort(after[k - 1], p))))
  {
    hide ParseTcpPath, OnPort;
  }

  /** Channel k listens on its host at the least port above its own that is free and that no
      enabled channel before it held or was given. */
  ghost predicate ListensAt(write: seq<int>, before: seq<string>, after: seq<string>, k: nat, busy: Busy, port: nat)
    requires k < |write| == |before| == |after| && ParseTcpPath(before[k]).Some?
  {
    var Endpoint(host, own) := ParseTcpPath(before[k]).value;
    && after[k] == "tcp://listen@" + host + ":" + Print(port)
    && own < port <= 65535 && !busy(host, port) && !Held(write, before, after, k, port)
    && forall p | own < p < port :: busy(host, p) || Held(write, before, after, k, p)
  }

  /** A complete pass, channel by channel: one that is off, or does not parse, or is free in
      an unforced pass, keeps its path, and any other moves. */
  lemma PassExact(force: bool, write: seq<int>, before: seq<string>, after: seq<string>, k: nat, busy: Busy)
    requires PassDone(force, write, before, after, CHANNELS, busy) && k < CHANNELS == |write|
    ensures var e := ParseTcpPath(before[k]);
            if write[k] != 0 && e.Some? && (force || busy(e.value.host, e.value.port))
            then exists port: nat :: ListensAt(write, before, after, k, busy, port)
            else after[k] == before[k]
  {
    hide ParseTcpPath, Print, Held, Reserved;
    assert ChannelDone(force, write, before, after, k, busy);
    var e := ParseTcpPath(before[k]);
    if MustMove(force, write[k], before[k], busy) {
      var port: nat := PortOf(after[k]);
      forall p | e.value.port < p
        ensures p in Reserved(write, before, after, k) <==> Held(write, before, after, k, p)
      {
        ReservedExact(write, before, after, k, p);
      }
      var Endpoint(host, own) := e.value;
      var reserved := Reserved(write, before, after, k) + {own};
      assert IsNextFree(host, own + 1, reserved, busy, port);
      assert Admissible(host, reserved, busy, port);
      forall p | own < p < port
        ensures busy(host, p) || Held(write, before, after, k, p)
      {
        assert !Admissible(host, reserved, busy, p);
      }
      assert ListensAt(write, before, after, k, busy, port);
    }
  }

  /** The workers of the synced channels read exactly the endpoints the pass left. */
  lemma EndpointsFollow(force: bool, write: seq<int>, before: seq<string>, after: seq<string>, busy: Busy,
                        previous: seq<Endpoint>, current: seq<Endpoint>)
    requires PassDone(force, write, before, after, CHANNELS, busy) && Synced(write, after, previous, current)
    ensures forall c: nat | c < SYNCED ::
              current[c] ==
                if Active(write[c], before[c]) then Endpoint(ParseTcpPath(before[c]).value.host, PortOf(after[c]))
                else previous[c]
  {
    forall c: nat | c < SYNCED
      ensures current[c] ==
                if Active(write[c], before[c]) then Endpoint(ParseTcpPath(before[c]).value.host, PortOf(after[c]))
                else previous[c]
    {
      assert ChannelDone(force, write, before, after, c, busy);
      if MustMove(force, write[c], before[c], busy) {
        Moved(force, write, before, after, c, busy);
      }
      assert SyncedAt(write[c], after[c], previous[c], current[c]);
    }
  }
}
