/** The re-entrant chain of request interceptors. */
module Interceptors {

  datatype Event = Enter(k: nat) | Exit(k: nat) | Transport

  /** How often an interceptor proceeds: it may depend on the interceptor and on how
      many have been called before. */
  type Plan = (nat, nat) -> nat

  /** Two positions in the chain, n standing for its end, and what has happened. */
  datatype State = State(current: nat, first: nat, calls: nat, trace: seq<Event>) {

    /** Positions inside the part of the chain after interceptor k. */
    predicate Past(n: nat, k: int) {
      current <= n && (current == n || current >= k) && k < first <= n
    }

    /** Where the next request starts. */
    function Next(n: nat): nat {
      if current == n then first else current + 1
    }

    function Log(e: Event): State {
      this.(trace := trace + [e])
    }
  }

  // ----- the chain as the session runs it

  /** One request made inside interceptor k, or from outside when k is -1. */
  function Request(n: nat, plan: Plan, k: int, s: State): (t: State)
    requires -1 <= k < n || (k == -1 && n == 0)
    requires s.Past(n, k)
    ensures t.Past(n, k) && (t.current == n || t.current > k)
    decreases n - k, 0
  {
    var c := s.Next(n);
    if c < n then
      var t := Repeat(n, plan, c, plan(c, s.calls),
                      s.(current := c, first := c + 1, calls := s.calls + 1).Log(Enter(c)));
      t.(first := c).Log(Exit(c))
    else
      s.(current := c).Log(Transport)
  }

  /** Interceptor k proceeds r times. */
  function Repeat(n: nat, plan: Plan, k: nat, r: nat, s: State): (t: State)
    requires k < n && s.Past(n, k)
    ensures t.Past(n, k)
    decreases n - k, r + 1
  {
    if r == 0 then s else Request(n, plan, k, Repeat(n, plan, k, r - 1, s))
  }

  // ----- the chain as its users understand it

  datatype Run = Run(calls: nat, trace: seq<Event>) {
    function Log(e: Event): Run {
      this.(trace := trace + [e])
    }
  }

  /** A request at position c runs interceptor c around the rest of the chain. */
  function Nested(n: nat, plan: Plan, c: nat, r: Run): Run
    requires c <= n
    decreases 2 * (n - c) + 1, 0
  {
    if c < n then NestedRepeat(n, plan, c, plan(c, r.calls), Run(r.calls + 1, r.trace + [Enter(c)])).Log(Exit(c))
    else r.Log(Transport)
  }

  function NestedRepeat(n: nat, plan: Plan, k: nat, times: nat, r: Run): Run
    requires k < n
    decreases 2 * (n - k), times
  {
    if times == 0 then r else Nested(n, plan, k + 1, NestedRepeat(n, plan, k, times - 1, r))
  }

  /** Every interceptor called in the nested run proceeds at least once. */
  predicate AllProceed(n: nat, plan: Plan, c: nat, r: Run)
    requires c <= n
    decreases 2 * (n - c) + 1, 0
  {
    c < n ==>
      plan(c, r.calls) > 0 && AllRepeatsProceed(n, plan, c, plan(c, r.calls), Run(r.calls + 1, r.trace + [Enter(c)]))
  }

  predicate AllRepeatsProceed(n: nat, plan: Plan, k: nat, times: nat, r: Run)
    requires k < n
    decreases 2 * (n - k), times
  {
    times > 0 ==>
      AllRepeatsProceed(n, plan, k, times - 1, r) &&
      AllProceed(n, plan, k + 1, NestedRepeat(n, plan, k, times - 1, r))
  }

  // ----- the two agree exactly when every called interceptor proceeds

  /** Traces that have gone different ways, for good. */
  ghost predicate Diverged(a: seq<Event>, b: seq<Event>) {
    exists p :: 0 <= p < |a| && p < |b| && a[p] != b[p]
  }

  lemma DivergedLater(a: seq<Event>, b: seq<Event>, c: seq<Event>, d: seq<Event>)
    requires Diverged(a, b) && a <= c && b <= d
    ensures Diverged(c, d) && c != d
  {
    var p :| 0 <= p < |a| && p < |b| && a[p] != b[p];
    assert c[p] == a[p] && d[p] == b[p];
  }

  /** The session keeps up with the nested run while in step; it is stuck when a
      called interceptor did not proceed, and then the next request goes astray. */
  ghost predicate InStep(n: nat, s: State, r: Run) {
    s.calls == r.calls && s.trace == r.trace && s.current == n
  }

  ghost predicate Stuck(n: nat, k: int, s: State, r: Run) {
    s.calls == r.calls && s.trace == r.trace && k < s.current < n
  }

  ghost predicate Astray(n: nat, k: int, s: State, r: Run) {
    Stuck(n, k, s, r) || Diverged(s.trace, r.trace)
  }

  /** A request appends to the trace, first of all where it starts. */
  lemma {:induction false} RequestExtends(n: nat, plan: Plan, k: int, s: State)
    requires -1 <= k < n || (k == -1 && n == 0)
    requires s.Past(n, k)
    ensures s.trace < Request(n, plan, k, s).trace
    ensures Request(n, plan, k, s).trace[|s.trace|] == if s.Next(n) < n then Enter(s.Next(n)) else Transport
    decreases n - k, 0
  {
    var c := s.Next(n);
    if c >= n {
    } else {
      var s' := s.(current := c, first := c + 1, calls := s.calls + 1).Log(Enter(c));
      RepeatExtends(n, plan, c, plan(c, s.calls), s');
      var t := Repeat(n, plan, c, plan(c, s.calls), s');
      assert Request(n, plan, k, s).trace == t.trace + [Exit(c)];
      assert t.trace[|s.trace|] == s'.trace[|s.trace|];
    }
  }

  lemma {:induction false} RepeatExtends(n: nat, plan: Plan, k: nat, r: nat, s: State)
    requires k < n && s.Past(n, k)
    ensures s.trace <= Repeat(n, plan, k, r, s).trace
    decreases n - k, r + 1
  {
    if r == 0 {
    } else {
      RepeatExtends(n, plan, k, r - 1, s);
      RequestExtends(n, plan, k, Repeat(n, plan, k, r - 1, s));
    }
  }

  lemma {:induction false} NestedExtends(n: nat, plan: Plan, c: nat, r: Run)
    requires c <= n
    ensures r.trace < Nested(n, plan, c, r).trace
    ensures Nested(n, plan, c, r).trace[|r.trace|] == if c < n then Enter(c) else Transport
    decreases 2 * (n - c) + 1, 0
  {
    if c >= n {
    } else {
      NestedRepeatExtends(n, plan, c, plan(c, r.calls), Run(r.calls + 1, r.trace + [Enter(c)]));
    }
  }

  lemma {:induction false} NestedRepeatExtends(n: nat, plan: Plan, k: nat, times: nat, r: Run)
    requires k < n
    ensures r.trace <= NestedRepeat(n, plan, k, times, r).trace
    decreases 2 * (n - k), times
  {
    if times == 0 {
    } else {
      NestedRepeatExtends(n, plan, k, times - 1, r);
      NestedExtends(n, plan, k + 1, NestedRepeat(n, plan, k, times - 1, r));
    }
  }

  /** A request that starts at c in step with the nested run. */
  lemma {:induction false} RequestNested(n: nat, plan: Plan, k: int, s: State, r: Run)
    requires -1 <= k < n || (k == -1 && n == 0)
    requires s.Past(n, k) && s.first == k + 1 && s.Next(n) == k + 1
    requires s.calls == r.calls && s.trace == r.trace
    ensures var t, u := Request(n, plan, k, s), Nested(n, plan, k + 1, r);
            if AllProceed(n, plan, k + 1, r) then InStep(n, t, u) && t.first == k + 1 else Astray(n, k, t, u)
    decreases n - k, 0
  {
    var c := k + 1;
    if c >= n {
    } else {
      var s' := s.(current := c, first := c + 1, calls := s.calls + 1).Log(Enter(c));
      var r' := Run(r.calls + 1, r.trace + [Enter(c)]);
      var times := plan(c, s.calls);
      if times > 0 {
        RepeatNested(n, plan, c, times, s', r');
      }
      var t, u := Repeat(n, plan, c, times, s'), NestedRepeat(n, plan, c, times, r');
      if Diverged(t.trace, u.trace) {
        DivergedLater(t.trace, u.trace, t.trace + [Exit(c)], u.trace + [Exit(c)]);
      }
    }
  }

  /** The proceeds of interceptor k, the first of which starts from k itself. */
  lemma {:induction false} RepeatNested(n: nat, plan: Plan, k: nat, times: nat, s: State, r: Run)
    requires k < n && s.current == k && s.first == k + 1 && times > 0
    requires s.calls == r.calls && s.trace == r.trace
    ensures var t, u := Repeat(n, plan, k, times, s), NestedRepeat(n, plan, k, times, r);
            if AllRepeatsProceed(n, plan, k, times, r) then InStep(n, t, u) && t.first == k + 1 else Astray(n, k, t, u)
    decreases n - k, times
  {
    if times == 1 {
      assert Repeat(n, plan, k, 0, s) == s && NestedRepeat(n, plan, k, 0, r) == r;
      assert AllRepeatsProceed(n, plan, k, 0, r);
      RequestNested(n, plan, k, s, r);
    } else {
      RepeatNested(n, plan, k, times - 1, s, r);
      var t, u := Repeat(n, plan, k, times - 1, s), NestedRepeat(n, plan, k, times - 1, r);
      if AllRepeatsProceed(n, plan, k, times - 1, r) {
        RequestNested(n, plan, k, t, u);
      } else {
        StaysAstray(n, plan, k, t, u);
      }
    }
  }

  /** One more request from a stuck position starts too deep in the chain. */
  lemma StaysAstray(n: nat, plan: Plan, k: nat, t: State, u: Run)
    requires k < n && t.Past(n, k) && Astray(n, k, t, u)
    ensures Diverged(Request(n, plan, k, t).trace, Nested(n, plan, k + 1, u).trace)
  {
    var a, b := Request(n, plan, k, t).trace, Nested(n, plan, k + 1, u).trace;
    RequestExtends(n, plan, k, t);
    NestedExtends(n, plan, k + 1, u);
    if Diverged(t.trace, u.trace) {
      DivergedLater(t.trace, u.trace, a, b);
    } else {
      assert a[|t.trace|] != b[|t.trace|];
    }
  }

  /** A request from outside runs the chain as nested calls, repeated proceeds
      included, and leaves both positions where they were, exactly when every
      interceptor that is called proceeds at least once. */
  lemma ChainIsNested(n: nat, plan: Plan, calls: nat, trace: seq<Event>)
    ensures var s, r := State(n, 0, calls, trace), Run(calls, trace);
            var t, u := Request(n, plan, -1, s), Nested(n, plan, 0, r);
            t == State(n, 0, u.calls, u.trace) <==> AllProceed(n, plan, 0, r)
  {
    var s, r := State(n, 0, calls, trace), Run(calls, trace);
    RequestNested(n, plan, -1, s, r);
    var t, u := Request(n, plan, -1, s), Nested(n, plan, 0, r);
    if Diverged(t.trace, u.trace) {
      DivergedLater(t.trace, u.trace, t.trace, u.trace);
    }
  }

  lemma {:induction false} NoneSkips(n: nat, plan: Plan, c: nat, r: Run)
    requires c <= n && forall k: nat, id: nat | k < n :: plan(k, id) > 0
    ensures AllProceed(n, plan, c, r)
    decreases 2 * (n - c) + 1, 0
  {
    if c >= n {
    } else {
      NoneSkipsRepeat(n, plan, c, plan(c, r.calls), Run(r.calls + 1, r.trace + [Enter(c)]));
    }
  }

  lemma {:induction false} NoneSkipsRepeat(n: nat, plan: Plan, k: nat, times: nat, r: Run)
    requires k < n && forall k: nat, id: nat | k < n :: plan(k, id) > 0
    ensures AllRepeatsProceed(n, plan, k, times, r)
    decreases 2 * (n - k), times
  {
    if times == 0 {
    } else {
      NoneSkipsRepeat(n, plan, k, times - 1, r);
      NoneSkips(n, plan, k + 1, NestedRepeat(n, plan, k, times - 1, r));
    }
  }

  /** A chain of interceptors that always proceed behaves as nested calls. */
  lemma ProceedingChain(n: nat, plan: Plan, calls: nat, trace: seq<Event>)
    requires forall k: nat, id: nat | k < n :: plan(k, id) > 0
    ensures var u := Nested(n, plan, 0, Run(calls, trace));
            Request(n, plan, -1, State(n, 0, calls, trace)) == State(n, 0, u.calls, u.trace)
  {
    NoneSkips(n, plan, 0, Run(calls, trace));
    ChainIsNested(n, plan, calls, trace);
  }

  /** One that answers by itself breaks the chain: the second proceed of interceptor
      0 bypasses interceptor 1 and goes to the network. */
  lemma AnsweringInterceptorBypassed()
    ensures var plan: Plan := (k, id) => if k == 0 then 2 else 0;
            Request(2, plan, -1, State(2, 0, 0, [])).trace == [Enter(0), Enter(1), Exit(1), Transport, Exit(0)]
  {
    var plan: Plan := (k, id) => if k == 0 then 2 else 0;
    var s := State(0, 1, 1, [Enter(0)]);
    var s1 := State(1, 1, 2, [Enter(0), Enter(1), Exit(1)]);
    assert Repeat(2, plan, 1, 0, State(1, 2, 2, [Enter(0), Enter(1)])) == State(1, 2, 2, [Enter(0), Enter(1)]);
    assert Request(2, plan, 0, s) == s1;
    assert Repeat(2, plan, 0, 0, s) == s;
    assert Repeat(2, plan, 0, 1, s) == s1;
    assert Request(2, plan, 0, s1) == State(2, 1, 2, [Enter(0), Enter(1), Exit(1), Transport]);
    assert Repeat(2, plan, 0, 2, s) == State(2, 1, 2, [Enter(0), Enter(1), Exit(1), Transport]);
  }

  // ----- the session object

  class Session {
    const plan: Plan
    var interceptors: nat
    var current: nat
    var first: nat
    var calls: nat
    var trace: seq<Event>

    ghost function Contents(): State
      reads this
    {
      State(current, first, calls, trace)
    }

    constructor (plan: Plan)
      ensures interceptors == 0 && this.plan == plan && Contents() == State(0, 0, 0, [])
    {
      this.plan := plan;
      interceptors, current, first, calls, trace := 0, 0, 0, 0, [];
    }

    /** Interceptors are added between requests only; the end of the chain moves. */
    method AddInterceptor()
      requires current == interceptors
      modifies this`interceptors, this`current, this`first
      ensures interceptors == old(interceptors) + 1 && current == interceptors && first == 0
    {
      interceptors := interceptors + 1;
      current := interceptors;
      first := 0;
    }

    method MakeRequest(ghost k: int)
      requires -1 <= k < interceptors || (k == -1 && interceptors == 0)
      requires Contents().Past(interceptors, k)
      modifies this`current, this`first, this`calls, this`trace
      ensures Contents() == old(Request(interceptors, plan, k, Contents()))
      decreases interceptors - k, 0
    {
      var handled := Intercept(k);
      if !handled {
        trace := trace + [Transport];
      }
    }

    /** Move on to the next interceptor and run it; nested requests start after it. */
    method Intercept(ghost k: int) returns (handled: bool)
      requires -1 <= k < interceptors || (k == -1 && interceptors == 0)
      requires Contents().Past(interceptors, k)
      modifies this`current, this`first, this`calls, this`trace
      ensures handled == old(Contents().Next(interceptors) < interceptors)
      ensures var t := old(Request(interceptors, plan, k, Contents()));
              (if handled then Contents() else Contents().Log(Transport)) == t
      decreases interceptors - k, 0, 0
    {
      if current == interceptors {
        current := first;
      } else {
        current := current + 1;
      }
      if current != interceptors {
        var icpt := current;
        first := current;
        first := first + 1;
        Run(icpt);
        first := icpt;
        trace := trace + [Exit(icpt)];
        return true;
      }
      return false;
    }

    /** Interceptor c itself: it proceeds as often as its plan says. */
    method Run(c: nat)
      requires c < interceptors && current == c && first == c + 1
      modifies this`current, this`first, this`calls, this`trace
      ensures var s := old(Contents());
              Contents() == Repeat(interceptors, plan, c, plan(c, s.calls),
                                   s.(calls := s.calls + 1).Log(Enter(c)))
      decreases interceptors - c, 1
    {
      var times := plan(c, calls);
      calls := calls + 1;
      trace := trace + [Enter(c)];
      ghost var s := Contents();
      for i := 0 to times
        invariant Contents() == Repeat(interceptors, plan, c, i, s)
        invariant interceptors == old(interceptors)
      {
        MakeRequest(c);
      }
    }
  }
}
