/** Starting and stopping the stream workers: the calls of acquireStart and acquireStop
    interleaved with the steps of the workers. */
module Workers {
  import opened Wrappers

  const CHANNELS: nat := 4

  /** The channels, with PrvHst last; it is stopped in its own way. */
  const PRV_HST: nat := 3

  // ----- one channel

  /** Where a worker is in its loop. */
  datatype PC = Top | Decide | Connect | Dial | Check | Ready | Read | Exit | Done

  /** What the network and the data decide in one step of a worker. */
  datatype Choice = Proceed | Back | PeerClosed | SocketError | GiveUp

  /** The flags, the recorded thread id, the id that a call has taken out of the record to
      join, and every worker ever created (its thread id is its position). */
  datatype Channel =
    Channel(running: bool, connected: bool, recorded: Option<nat>, taken: Option<nat>, workers: seq<PC>)

  predicate Live(ch: Channel, i: nat) {
    i < |ch.workers| && !ch.workers[i].Done?
  }

  function At(ch: Channel, i: nat, pc: PC): Channel
    requires i < |ch.workers|
  {
    ch.(workers := ch.workers[i := pc])
  }

  /** One step of a live worker. */
  function WorkerStep(ch: Channel, i: nat, choice: Choice): (after: Channel)
    requires Live(ch, i)
    ensures |after.workers| == |ch.workers| && (after.running ==> ch.running)
    ensures after.recorded == ch.recorded && after.taken == ch.taken
  {
    match ch.workers[i]
    case Top => At(ch, i, if ch.running then Decide else Exit)
    case Decide => At(ch, i, if ch.running && !ch.connected && choice.Proceed? then Connect else Check)
    case Connect => At(ch.(connected := false), i, Dial)
    case Dial =>
      if choice.Proceed? then At(ch.(connected := true), i, Check)
      else At(ch, i, if choice.Back? then Top else Check)
    case Check => At(ch, i, if ch.running then Ready else Exit)
    case Ready => At(ch, i, if ch.connected && choice.Proceed? then Read else Top)
    case Read =>
      (match choice
       case PeerClosed => At(ch.(connected := false, running := false), i, Exit)
       case SocketError => At(if ch.connected then ch.(connected := false, running := false) else ch, i, Exit)
       case GiveUp => At(ch, i, Exit)
       case _ => At(ch, i, Top))
    case Exit => At(ch.(connected := false), i, Done)
  }

  // ----- the calls

  datatype Op = ClearRunning | Join | Take | JoinTaken | Disconnect | Spawn

  datatype Instr = On(c: nat, op: Op) | Return

  /** The three preview channels in turn. */
  function Round(op: Op): seq<Instr> {
    [On(0, op), On(1, op), On(2, op)]
  }

  function Halt(c: nat): seq<Instr> {
    [On(c, ClearRunning), On(c, Join), On(c, Disconnect)]
  }

  function HaltPreviews(): seq<Instr> {
    Halt(0) + Halt(1) + Halt(2)
  }

  function SpawnIf(enabled: bool, c: nat): seq<Instr> {
    if enabled then [On(c, Spawn)] else []
  }

  datatype Call =
    | StartRefused
    | StartFailed
    | Started(e0: bool, e1: bool, e2: bool, e3: bool)
    | Stop

  function Ops(call: Call): seq<Instr> {
    match call
    case StartRefused => HaltPreviews()
    case StartFailed =>
      HaltPreviews() + HaltPreviews()
      + [On(PRV_HST, ClearRunning), On(PRV_HST, ClearRunning)]
      + [On(PRV_HST, Take), On(PRV_HST, JoinTaken), On(PRV_HST, Disconnect)]
    case Started(e0, e1, e2, e3) =>
      HaltPreviews() + SpawnIf(e0, 0) + SpawnIf(e1, 1) + SpawnIf(e2, 2) + SpawnIf(e3, PRV_HST)
    case Stop =>
      Round(ClearRunning) + [On(PRV_HST, ClearRunning)] + Round(Join)
      + [On(PRV_HST, Take), On(PRV_HST, JoinTaken)] + Round(Disconnect) + [On(PRV_HST, Disconnect)]
  }

  function Program(call: Call): seq<Instr> {
    Ops(call) + [Return]
  }

  /** A join waits until the thread has ended. */
  predicate Enabled(ch: Channel, op: Op) {
    && (op.Join? && ch.recorded.Some? ==> !Live(ch, ch.recorded.value))
    && (op.JoinTaken? && ch.taken.Some? ==> !Live(ch, ch.taken.value))
  }

  /** Thread creation may fail. */
  function Execute(ch: Channel, op: Op, created: bool): Channel {
    match op
    case ClearRunning => ch.(running := false)
    case Join => ch.(recorded := None)
    case Take => ch.(taken := ch.recorded, recorded := None)
    case JoinTaken => ch.(taken := None)
    case Disconnect => ch.(connected := false)
    case Spawn =>
      if ch.running || ch.recorded.Some? || !created then ch
      else ch.(running := true, recorded := Some(|ch.workers|), workers := ch.workers + [Top])
  }

  // ----- the whole system

  /** What is left of the current call; the last call made was a stop or not. */
  datatype State = State(channels: seq<Channel>, todo: seq<Instr>, stopping: bool)

  datatype Step = Begin(call: Call) | Control(created: bool) | Work(c: nat, i: nat, choice: Choice)

  predicate CanStep(s: State, step: Step) {
    match step
    case Begin(_) => s.todo == []
    case Control(_) =>
      s.todo != [] && (s.todo[0].On? ==> s.todo[0].c < |s.channels| && Enabled(s.channels[s.todo[0].c], s.todo[0].op))
    case Work(c, i, _) => c < |s.channels| && Live(s.channels[c], i)
  }

  function Next(s: State, step: Step): State
    requires CanStep(s, step)
  {
    match step
    case Begin(call) => State(s.channels, Program(call), call.Stop?)
    case Control(created) =>
      var rest := s.(todo := s.todo[1..]);
      if s.todo[0].Return? then rest
      else
        var On(c, op) := s.todo[0];
        rest.(channels := s.channels[c := Execute(s.channels[c], op, created)])
    case Work(c, i, choice) => s.(channels := s.channels[c := WorkerStep(s.channels[c], i, choice)])
  }

  const IDLE := Channel(false, false, None, None, [])

  const INITIAL := State([IDLE, IDLE, IDLE, IDLE], [], false)

  // ----- what is left to do on one channel

  function Project(todo: seq<Instr>, c: nat): seq<Op> {
    if todo == [] then []
    else (if todo[0].On? && todo[0].c == c then [todo[0].op] else []) + Project(todo[1..], c)
  }

  /** Ids are given up only after the flag is cleared, and joined after that. */
  predicate Legal(ops: seq<Op>) {
    && (forall i :: 0 <= i < |ops| && ops[i].Take? ==> i + 1 < |ops| && ops[i + 1].JoinTaken?)
    && forall i :: 0 < i < |ops| ==>
      && (ops[i].Join? || ops[i].Take? ==> ops[i - 1].ClearRunning?)
      && (ops[i].JoinTaken? ==> ops[i - 1].Take?)
      && (ops[i].Disconnect? ==> ops[i - 1].Join? || ops[i - 1].JoinTaken?)
  }

  /** The thread that a record or a call still knows. */
  function Owner(ch: Channel): Option<nat> {
    if ch.recorded.Some? then ch.recorded else ch.taken
  }

  /** The workers and flags agree with the record and the call. */
  ghost predicate Tied(ch: Channel) {
    && (ch.recorded.None? || ch.taken.None?)
    && (Owner(ch).Some? ==> Owner(ch).value < |ch.workers|)
    && (forall i: nat :: Live(ch, i) ==> Owner(ch) == Some(i))
    && (ch.running ==> ch.recorded.Some?)
    && (ch.connected ==> Owner(ch).Some? && Live(ch, Owner(ch).value))
  }

  predicate Pending(ch: Channel, ops: seq<Op>) {
    && (ch.taken.Some? ==> ops != [] && ops[0].JoinTaken?)
    && (ops != [] && !ops[0].ClearRunning? && !ops[0].Spawn? ==> !ch.running)
    && (ops != [] && (ops[0].JoinTaken? || ops[0].Disconnect?) ==> ch.recorded.None?)
  }

  /** A stop ends every channel with a disconnect, after which nothing is left of it. */
  predicate Stopping(ch: Channel, ops: seq<Op>) {
    if ops == [] then !ch.running && ch.recorded.None?
    else ops[|ops| - 1].Disconnect? && Spawn !in ops
  }

  ghost predicate ChannelOk(ch: Channel, ops: seq<Op>, stopping: bool) {
    Legal(ops) && Tied(ch) && Pending(ch, ops) && (stopping ==> Stopping(ch, ops))
  }

  /** A call returns at its end and nowhere else. */
  predicate WellFormed(todo: seq<Instr>) {
    && (forall i :: 0 <= i < |todo| && todo[i].On? ==> todo[i].c < CHANNELS)
    && (forall i :: 0 <= i < |todo| ==> (todo[i].Return? <==> i == |todo| - 1))
  }

  ghost predicate Inv(s: State) {
    && |s.channels| == CHANNELS
    && WellFormed(s.todo)
    && (forall c: nat :: c < CHANNELS ==> ChannelOk(s.channels[c], Project(s.todo, c), s.stopping))
  }

  lemma WorkerKeeps(ch: Channel, i: nat, choice: Choice, ops: seq<Op>, stopping: bool)
    requires ChannelOk(ch, ops, stopping) && Live(ch, i)
    ensures ChannelOk(WorkerStep(ch, i, choice), ops, stopping)
  {
    hide Legal;
    var after := WorkerStep(ch, i, choice);
    assert forall j: nat :: Live(after, j) ==> Live(ch, j);
  }

  lemma ControlKeeps(ch: Channel, ops: seq<Op>, created: bool, stopping: bool)
    requires ops != [] && ChannelOk(ch, ops, stopping) && Enabled(ch, ops[0])
    ensures ChannelOk(Execute(ch, ops[0], created), ops[1..], stopping)
  {
    var after := Execute(ch, ops[0], created);
    assert ops[1..] != [] ==> ops[1..][0] == ops[1];
    if ops[0].Spawn? {
      assert forall j: nat :: Live(after, j) ==> Live(ch, j) || j == |ch.workers|;
    } else {
      assert forall j: nat :: Live(after, j) <==> Live(ch, j);
    }
  }

  lemma {:induction false} ProjectAppend(a: seq<Instr>, b: seq<Instr>, c: nat)
    ensures Project(a + b, c) == Project(a, c) + Project(b, c)
  {
    if a == [] {
      assert a + b == b;
    } else {
      assert (a + b)[1..] == a[1..] + b;
      ProjectAppend(a[1..], b, c);
    }
  }

  lemma ProjectOne(instr: Instr, c: nat)
    ensures Project([instr], c) == if instr.On? && instr.c == c then [instr.op] else []
  {
  }

  lemma ProjectThree(x: Instr, y: Instr, z: Instr, c: nat)
    ensures Project([x, y, z], c) == Project([x], c) + Project([y], c) + Project([z], c)
  {
    ProjectAppend([x], [y], c);
    ProjectAppend([x, y], [z], c);
    assert [x] + [y] == [x, y] && [x, y] + [z] == [x, y, z];
  }

  const HALT := [ClearRunning, Join, Disconnect]

  lemma ProjectHalts(c: nat)
    ensures Project(HaltPreviews(), c) == if c < PRV_HST then HALT else []
  {
    hide Project;
    for k := 0 to 3
      invariant forall j :: 0 <= j < k ==> Project(Halt(j), c) == if j == c then HALT else []
    {
      ProjectThree(On(k, ClearRunning), On(k, Join), On(k, Disconnect), c);
      ProjectOne(On(k, ClearRunning), c);
      ProjectOne(On(k, Join), c);
      ProjectOne(On(k, Disconnect), c);
    }
    ProjectAppend(Halt(0), Halt(1), c);
    ProjectAppend(Halt(0) + Halt(1), Halt(2), c);
  }

  lemma ProjectRound(op: Op, c: nat)
    ensures Project(Round(op), c) == if c < PRV_HST then [op] else []
  {
    hide Project;
    ProjectThree(On(0, op), On(1, op), On(2, op), c);
    ProjectOne(On(0, op), c);
    ProjectOne(On(1, op), c);
    ProjectOne(On(2, op), c);
  }

  function SpawnOps(enabled: bool): seq<Op> {
    if enabled then [Spawn] else []
  }

  /** What each call does to one channel. */
  function Plan(call: Call, c: nat): seq<Op> {
    match call
    case StartRefused => if c < PRV_HST then HALT else []
    case StartFailed =>
      if c < PRV_HST then HALT + HALT else [ClearRunning, ClearRunning, Take, JoinTaken, Disconnect]
    case Started(e0, e1, e2, e3) =>
      (if c < PRV_HST then HALT else [])
      + SpawnOps(e0 && c == 0) + SpawnOps(e1 && c == 1) + SpawnOps(e2 && c == 2) + SpawnOps(e3 && c == PRV_HST)
    case Stop => if c < PRV_HST then HALT else [ClearRunning, Take, JoinTaken, Disconnect]
  }

  lemma ProjectSpawn(enabled: bool, k: nat, c: nat)
    ensures Project(SpawnIf(enabled, k), c) == SpawnOps(enabled && k == c)
  {
    ProjectOne(On(k, Spawn), c);
  }

  lemma ProjectFailed(c: nat)
    requires c < CHANNELS
    ensures Project(Ops(StartFailed), c) == Plan(StartFailed, c)
  {
    hide Project, HaltPreviews;
    var two := HaltPreviews() + HaltPreviews();
    var clears := [On(PRV_HST, ClearRunning), On(PRV_HST, ClearRunning)];
    var rest := [On(PRV_HST, Take), On(PRV_HST, JoinTaken), On(PRV_HST, Disconnect)];
    ProjectHalts(c);
    ProjectAppend(HaltPreviews(), HaltPreviews(), c);
    ProjectAppend([On(PRV_HST, ClearRunning)], [On(PRV_HST, ClearRunning)], c);
    assert [On(PRV_HST, ClearRunning)] + [On(PRV_HST, ClearRunning)] == clears;
    ProjectOne(On(PRV_HST, ClearRunning), c);
    ProjectThree(On(PRV_HST, Take), On(PRV_HST, JoinTaken), On(PRV_HST, Disconnect), c);
    ProjectOne(On(PRV_HST, Take), c);
    ProjectOne(On(PRV_HST, JoinTaken), c);
    ProjectOne(On(PRV_HST, Disconnect), c);
    ProjectAppend(two, clears, c);
    ProjectAppend(two + clears, rest, c);
  }

  lemma ProjectStarted(e0: bool, e1: bool, e2: bool, e3: bool, c: nat)
    requires c < CHANNELS
    ensures Project(Ops(Started(e0, e1, e2, e3)), c) == Plan(Started(e0, e1, e2, e3), c)
  {
    hide Project, HaltPreviews, SpawnIf, SpawnOps;
    var p0 := HaltPreviews() + SpawnIf(e0, 0);
    var p1 := p0 + SpawnIf(e1, 1);
    var p2 := p1 + SpawnIf(e2, 2);
    var p3 := p2 + SpawnIf(e3, PRV_HST);
    ProjectHalts(c);
    ProjectSpawn(e0, 0, c);
    ProjectSpawn(e1, 1, c);
    ProjectSpawn(e2, 2, c);
    ProjectSpawn(e3, PRV_HST, c);
    ProjectAppend(HaltPreviews(), SpawnIf(e0, 0), c);
    ProjectAppend(p0, SpawnIf(e1, 1), c);
    ProjectAppend(p1, SpawnIf(e2, 2), c);
    ProjectAppend(p2, SpawnIf(e3, PRV_HST), c);
  }

  /** A stop clears and joins before it disconnects. */
  function StopHead(): seq<Instr> {
    Round(ClearRunning) + [On(PRV_HST, ClearRunning)] + Round(Join) + [On(PRV_HST, Take), On(PRV_HST, JoinTaken)]
  }

  lemma ProjectStopHead(c: nat)
    requires c < CHANNELS
    ensures Project(StopHead(), c) == if c < PRV_HST then [ClearRunning, Join] else [ClearRunning, Take, JoinTaken]
  {
    hide Project, Round;
    var p0 := Round(ClearRunning);
    var p1 := p0 + [On(PRV_HST, ClearRunning)];
    var p2 := p1 + Round(Join);
    ProjectRound(ClearRunning, c);
    ProjectRound(Join, c);
    ProjectOne(On(PRV_HST, ClearRunning), c);
    ProjectOne(On(PRV_HST, Take), c);
    ProjectOne(On(PRV_HST, JoinTaken), c);
    ProjectAppend([On(PRV_HST, Take)], [On(PRV_HST, JoinTaken)], c);
    assert [On(PRV_HST, Take)] + [On(PRV_HST, JoinTaken)] == [On(PRV_HST, Take), On(PRV_HST, JoinTaken)];
    ProjectAppend(p0, [On(PRV_HST, ClearRunning)], c);
    ProjectAppend(p1, Round(Join), c);
    ProjectAppend(p2, [On(PRV_HST, Take), On(PRV_HST, JoinTaken)], c);
  }

  lemma ProjectStop(c: nat)
    requires c < CHANNELS
    ensures Project(Ops(Stop), c) == Plan(Stop, c)
  {
    hide Project, Round;
    assert Ops(Stop) == StopHead() + Round(Disconnect) + [On(PRV_HST, Disconnect)];
    hide Ops, StopHead;
    ProjectStopHead(c);
    ProjectRound(Disconnect, c);
    ProjectOne(On(PRV_HST, Disconnect), c);
    ProjectAppend(StopHead(), Round(Disconnect), c);
    ProjectAppend(StopHead() + Round(Disconnect), [On(PRV_HST, Disconnect)], c);
  }

  lemma ProjectProgram(call: Call, c: nat)
    requires c < CHANNELS
    ensures Project(Program(call), c) == Plan(call, c)
  {
    hide Project;
    ProjectAppend(Ops(call), [Return], c);
    ProjectOne(Return, c);
    match call
    case StartRefused => ProjectHalts(c);
    case StartFailed => ProjectFailed(c);
    case Started(e0, e1, e2, e3) => ProjectStarted(e0, e1, e2, e3, c);
    case Stop => ProjectStop(c);
  }

  lemma PlanIsLegal(call: Call, c: nat)
    requires c < CHANNELS
    ensures var ops := Plan(call, c);
            && Legal(ops) && Starts(ops)
            && (call.Stop? ==> ops != [] && ops[|ops| - 1].Disconnect? && Spawn !in ops)
  {
    HaltsAreLegal();
    hide Legal, Starts;
    match call
    case Started(e0, e1, e2, e3) =>
      hide SpawnOps;
      var p0 := (if c < PRV_HST then HALT else []) + SpawnOps(e0 && c == 0);
      var p1 := p0 + SpawnOps(e1 && c == 1);
      var p2 := p1 + SpawnOps(e2 && c == 2);
      LegalSpawn(if c < PRV_HST then HALT else [], e0 && c == 0);
      LegalSpawn(p0, e1 && c == 1);
      LegalSpawn(p1, e2 && c == 2);
      LegalSpawn(p2, e3 && c == PRV_HST);
    case _ =>
  }

  lemma HaltsAreLegal()
    ensures Legal([]) && Starts([]) && Legal(HALT) && Starts(HALT) && Legal(HALT + HALT) && Starts(HALT + HALT)
    ensures Legal([ClearRunning, Take, JoinTaken, Disconnect]) && Starts([ClearRunning, Take, JoinTaken, Disconnect])
    ensures Legal([ClearRunning, ClearRunning, Take, JoinTaken, Disconnect])
    ensures Starts([ClearRunning, ClearRunning, Take, JoinTaken, Disconnect])
  {
    assert HALT + HALT == [ClearRunning, Join, Disconnect, ClearRunning, Join, Disconnect];
  }

  predicate Starts(ops: seq<Op>) {
    ops != [] ==> ops[0].ClearRunning? || ops[0].Spawn?
  }

  lemma LegalSpawn(ops: seq<Op>, enabled: bool)
    requires Legal(ops) && Starts(ops)
    ensures Legal(ops + SpawnOps(enabled)) && Starts(ops + SpawnOps(enabled))
  {
  }

  /** Between calls every channel is ready for the next call. */
  lemma BeginKeeps(ch: Channel, call: Call, c: nat, stopping: bool)
    requires c < CHANNELS && ChannelOk(ch, [], stopping)
    ensures ChannelOk(ch, Plan(call, c), call.Stop?)
  {
    PlanIsLegal(call, c);
    hide Legal, Plan, Tied;
  }

  /** Every step of every interleaving keeps the invariant. */
  lemma StepKeeps(s: State, step: Step)
    requires Inv(s) && CanStep(s, step)
    ensures Inv(Next(s, step))
  {
    hide ChannelOk, Execute, WorkerStep, Enabled, Program, Plan;
    var t := Next(s, step);
    match step
    case Begin(call) =>
      ProgramWellFormed(call);
      forall c: nat | c < CHANNELS
        ensures ChannelOk(t.channels[c], Project(t.todo, c), t.stopping)
      {
        assert ChannelOk(s.channels[c], Project(s.todo, c), s.stopping);
        ProjectProgram(call, c);
        BeginKeeps(s.channels[c], call, c, s.stopping);
      }
    case Control(created) =>
      forall c: nat | c < CHANNELS
        ensures ChannelOk(t.channels[c], Project(t.todo, c), t.stopping)
      {
        var ops := Project(s.todo, c);
        assert ChannelOk(s.channels[c], ops, s.stopping);
        if s.todo[0].On? && s.todo[0].c == c {
          assert ops[1..] == Project(t.todo, c);
          ControlKeeps(s.channels[c], ops, created, s.stopping);
        } else {
          assert ops == Project(t.todo, c);
        }
      }
    case Work(c, i, choice) =>
      assert ChannelOk(s.channels[c], Project(s.todo, c), s.stopping);
      WorkerKeeps(s.channels[c], i, choice, Project(s.todo, c), s.stopping);
  }

  predicate AllOn(todo: seq<Instr>) {
    forall x | x in todo :: x.On? && x.c < CHANNELS
  }

  lemma AllOnAppend(a: seq<Instr>, b: seq<Instr>)
    requires AllOn(a) && AllOn(b)
    ensures AllOn(a + b)
  {
  }

  lemma OpsAllOn(call: Call)
    ensures AllOn(Ops(call))
  {
    var clear, join := [On(PRV_HST, ClearRunning)], [On(PRV_HST, Take), On(PRV_HST, JoinTaken)];
    var clears, close := [On(PRV_HST, ClearRunning), On(PRV_HST, ClearRunning)], [On(PRV_HST, Disconnect)];
    var rest := [On(PRV_HST, Take), On(PRV_HST, JoinTaken), On(PRV_HST, Disconnect)];
    assert AllOn(clear) && AllOn(join) && AllOn(clears) && AllOn(close) && AllOn(rest);
    PiecesAllOn();
    hide AllOn, HaltPreviews, SpawnIf, Round;
    match call
    case StartRefused =>
    case StartFailed =>
      var two := HaltPreviews() + HaltPreviews();
      AllOnAppend(HaltPreviews(), HaltPreviews());
      AllOnAppend(two, clears);
      AllOnAppend(two + clears, rest);
    case Started(e0, e1, e2, e3) =>
      var p0 := HaltPreviews() + SpawnIf(e0, 0);
      AllOnAppend(HaltPreviews(), SpawnIf(e0, 0));
      AllOnAppend(p0, SpawnIf(e1, 1));
      AllOnAppend(p0 + SpawnIf(e1, 1), SpawnIf(e2, 2));
      AllOnAppend(p0 + SpawnIf(e1, 1) + SpawnIf(e2, 2), SpawnIf(e3, PRV_HST));
    case Stop =>
      var p0 := Round(ClearRunning) + clear;
      AllOnAppend(Round(ClearRunning), clear);
      AllOnAppend(p0, Round(Join));
      AllOnAppend(p0 + Round(Join), join);
      AllOnAppend(p0 + Round(Join) + join, Round(Disconnect));
      AllOnAppend(p0 + Round(Join) + join + Round(Disconnect), close);
  }

  lemma ProgramWellFormed(call: Call)
    ensures WellFormed(Program(call))
  {
    OpsAllOn(call);
    var ops := Ops(call);
    hide Ops;
    forall i | 0 <= i < |ops|
      ensures ops[i].On? && ops[i].c < CHANNELS
    {
      assert ops[i] in ops;
    }
  }

  lemma PiecesAllOn()
    ensures AllOn(HaltPreviews())
    ensures forall op :: AllOn(Round(op))
    ensures forall e: bool, c: nat | c < CHANNELS :: AllOn(SpawnIf(e, c))
  {
  }

  // ----- runs

  /** All steps can be taken, one after the other. */
  predicate IsRun(s: State, steps: seq<Step>)
    decreases |steps|
  {
    steps == [] || (CanStep(s, steps[0]) && IsRun(Next(s, steps[0]), steps[1..]))
  }

  function After(s: State, steps: seq<Step>): State
    requires IsRun(s, steps)
    decreases |steps|
  {
    if steps == [] then s else After(Next(s, steps[0]), steps[1..])
  }

  lemma {:induction false} RunKeeps(s: State, steps: seq<Step>)
    requires Inv(s) && IsRun(s, steps)
    ensures Inv(After(s, steps))
    decreases |steps|
  {
    hide Inv, Next, CanStep;
    if steps == [] {
    } else {
      StepKeeps(s, steps[0]);
      RunKeeps(Next(s, steps[0]), steps[1..]);
    }
  }

  /** A state that some interleaving of calls and workers reaches. */
  ghost predicate Reachable(s: State) {
    exists steps :: IsRun(INITIAL, steps) && After(INITIAL, steps) == s
  }

  lemma ReachableInv(s: State)
    requires Reachable(s)
    ensures Inv(s)
  {
    var steps :| IsRun(INITIAL, steps) && After(INITIAL, steps) == s;
    assert Inv(INITIAL);
    RunKeeps(INITIAL, steps);
  }

  /** No channel ever has two live workers, and a live worker is always known: it is the
      recorded one or the one being joined. */
  lemma AtMostOneWorker(s: State, c: nat, i: nat, j: nat)
    requires Reachable(s) && c < |s.channels| && Live(s.channels[c], i)
    ensures s.channels[c].recorded == Some(i) || s.channels[c].taken == Some(i)
    ensures Live(s.channels[c], j) ==> i == j
  {
    ReachableInv(s);
    assert ChannelOk(s.channels[c], Project(s.todo, c), s.stopping);
  }

  /** A step creates a worker only on a channel whose flag is clear, that has no recorded
      id and no live worker; afterwards the flag is set and the new worker is recorded. */
  lemma CreatedOnlyWhenClear(s: State, step: Step, c: nat)
    requires Reachable(s) && CanStep(s, step) && c < |s.channels|
    requires |Next(s, step).channels[c].workers| != |s.channels[c].workers|
    ensures !s.channels[c].running && s.channels[c].recorded.None?
    ensures forall i: nat :: !Live(s.channels[c], i)
    ensures var after := Next(s, step).channels[c];
            && after.running && after.recorded == Some(|s.channels[c].workers|)
            && |after.workers| == |s.channels[c].workers| + 1
  {
    hide WorkerStep, Legal;
    ReachableInv(s);
    assert ChannelOk(s.channels[c], Project(s.todo, c), s.stopping);
  }

  ghost predicate AllQuiet(s: State) {
    forall c: nat | c < |s.channels| ::
      !s.channels[c].running && !s.channels[c].connected && forall i: nat :: !Live(s.channels[c], i)
  }

  /** When a stop returns, no worker is live and every flag is clear; this lasts until
      the next call. */
  lemma StopIsComplete(s: State)
    requires Reachable(s) && s.stopping && (s.todo == [] || s.todo[0].Return?)
    ensures AllQuiet(s)
  {
    ReachableInv(s);
    assert s.todo == [] || s.todo == [Return];
    forall c: nat | c < |s.channels|
      ensures !s.channels[c].running && !s.channels[c].connected && forall i: nat :: !Live(s.channels[c], i)
    {
      assert Project(s.todo, c) == [];
      assert ChannelOk(s.channels[c], Project(s.todo, c), s.stopping);
    }
  }

  // ----- joining

  /** The call waits for thread i of channel c. */
  predicate Awaited(s: State, c: nat, i: nat) {
    && s.todo != [] && s.todo[0].On? && s.todo[0].c == c < |s.channels|
    && Live(s.channels[c], i)
    && ((s.todo[0].op.Join? && s.channels[c].recorded == Some(i))
        || (s.todo[0].op.JoinTaken? && s.channels[c].taken == Some(i)))
  }

  /** How many steps a worker takes at most when its flag is clear. */
  function Rank(pc: PC): nat {
    match pc
    case Connect | Ready => 4
    case Decide | Dial | Read => 3
    case Top | Check => 2
    case Exit => 1
    case Done => 0
  }

  function StepsOf(steps: seq<Step>, c: nat, i: nat): nat {
    if steps == [] then 0
    else (if steps[0].Work? && steps[0].c == c && steps[0].i == i then 1 else 0) + StepsOf(steps[1..], c, i)
  }

  lemma RankStep(ch: Channel, i: nat, choice: Choice)
    requires Live(ch, i) && !ch.running
    ensures Rank(WorkerStep(ch, i, choice).workers[i]) < Rank(ch.workers[i])
  {
  }

  /** Other workers do not move a worker. */
  lemma OtherStep(ch: Channel, i: nat, j: nat, choice: Choice)
    requires Live(ch, j) && i < |ch.workers| && i != j
    ensures WorkerStep(ch, j, choice).workers[i] == ch.workers[i]
  {
  }

  lemma {:induction false} RankDrops(s: State, steps: seq<Step>, c: nat, i: nat)
    requires IsRun(s, steps) && (forall step | step in steps :: step.Work?)
    requires c < |s.channels| && i < |s.channels[c].workers| && !s.channels[c].running
    ensures var t := After(s, steps);
            && c < |t.channels| && i < |t.channels[c].workers|
            && StepsOf(steps, c, i) + Rank(t.channels[c].workers[i]) <= Rank(s.channels[c].workers[i])
    decreases |steps|
  {
    hide WorkerStep, Rank;
    if steps == [] {
    } else {
      assert steps[0] in steps;
      var Work(k, j, choice) := steps[0];
      if k == c {
        if j == i {
          RankStep(s.channels[c], i, choice);
        } else {
          OtherStep(s.channels[c], i, j, choice);
        }
      }
      RankDrops(Next(s, steps[0]), steps[1..], c, i);
    }
  }

  /** While a call waits for a worker, only workers can take a step, and the worker it
      waits for has ended after four steps of its own at most, whatever it receives. */
  lemma JoinEnds(s: State, steps: seq<Step>, c: nat, i: nat)
    requires Reachable(s) && Awaited(s, c, i)
    requires IsRun(s, steps) && forall step | step in steps :: step.Work?
    ensures forall step | CanStep(s, step) :: step.Work?
    ensures StepsOf(steps, c, i) <= 4
    ensures var t := After(s, steps);
            && c < |t.channels| && i < |t.channels[c].workers|
            && (StepsOf(steps, c, i) == 4 ==> t.channels[c].workers[i].Done?)
  {
    ReachableInv(s);
    assert ChannelOk(s.channels[c], Project(s.todo, c), s.stopping);
    RankDrops(s, steps, c, i);
  }

  // ----- a recorded PrvHst worker

  /** A call that gives up the recorded PrvHst id. */
  predicate Replaces(step: Step) {
    step.Begin? && (step.call.Stop? || step.call.StartFailed?)
  }

  /** Nothing but a spawn is left to do on the PrvHst channel. */
  predicate OnlySpawns(s: State) {
    forall op | op in Project(s.todo, PRV_HST) :: op.Spawn?
  }

  lemma RecordKept(s: State, step: Step)
    requires PRV_HST < |s.channels| && OnlySpawns(s) && CanStep(s, step) && !Replaces(step)
    requires s.channels[PRV_HST].recorded.Some?
    ensures var t := Next(s, step);
            && PRV_HST < |t.channels| && OnlySpawns(t)
            && t.channels[PRV_HST].recorded == s.channels[PRV_HST].recorded
            && |t.channels[PRV_HST].workers| == |s.channels[PRV_HST].workers|
  {
    hide WorkerStep, Program;
    match step
    case Begin(call) =>
      ProjectProgram(call, PRV_HST);
    case Control(_) =>
      if s.todo[0].On? && s.todo[0].c == PRV_HST {
        assert s.todo[0].op in Project(s.todo, PRV_HST);
      }
    case Work(_, _, _) =>
  }

  /** Once its id is recorded a PrvHst worker, even one whose connection has been closed,
      is not replaced before a stop or a failed start, whatever starts come in between. */
  lemma {:induction false} OnlyStopReplaces(s: State, steps: seq<Step>)
    requires PRV_HST < |s.channels| && OnlySpawns(s) && s.channels[PRV_HST].recorded.Some?
    requires IsRun(s, steps) && forall step | step in steps :: !Replaces(step)
    ensures var t := After(s, steps);
            && PRV_HST < |t.channels|
            && t.channels[PRV_HST].recorded == s.channels[PRV_HST].recorded
            && |t.channels[PRV_HST].workers| == |s.channels[PRV_HST].workers|
    decreases |steps|
  {
    hide OnlySpawns, Next, CanStep;
    if steps == [] {
    } else {
      assert steps[0] in steps;
      RecordKept(s, steps[0]);
      OnlyStopReplaces(Next(s, steps[0]), steps[1..]);
    }
  }

  // ----- what starts and stops achieve

  /** Creation works whenever the flag is clear and no id is recorded: the channel gets one
      more worker, at the top of its loop, its id is recorded and the flag is set. */
  lemma SpawnCreates(s: State, c: nat)
    requires s.todo != [] && s.todo[0] == On(c, Spawn) && c < |s.channels|
    requires !s.channels[c].running && s.channels[c].recorded.None?
    ensures CanStep(s, Control(true))
    ensures var ch, after := s.channels[c], Next(s, Control(true)).channels[c];
            && after.workers == ch.workers + [Top] && after.running && after.recorded == Some(|ch.workers|)
            && after.connected == ch.connected && after.taken == ch.taken
  {
  }

  /** Steps within one call, with every thread creation succeeding. */
  predicate Within(steps: seq<Step>) {
    forall step | step in steps :: !step.Begin? && (step.Control? ==> step.created)
  }

  /** A channel that is being halted and then started has n workers until it is started:
      once its worker is joined no id is recorded, so the start will create the next one. */
  predicate Creating(ch: Channel, ops: seq<Op>, n: nat) {
    if ops == [] then |ch.workers| == n + 1 && ch.recorded == Some(n)
    else
      && |ch.workers| == n && ops[|ops| - 1].Spawn? && (Join !in ops ==> ch.recorded.None?)
      && forall i | 0 <= i < |ops| - 1 :: ops[i] in {ClearRunning, Join, Disconnect}
  }

  lemma CreatingWork(ch: Channel, i: nat, choice: Choice, ops: seq<Op>, n: nat)
    requires Live(ch, i) && Creating(ch, ops, n)
    ensures Creating(WorkerStep(ch, i, choice), ops, n)
  {
    hide WorkerStep;
  }

  lemma CreatingControl(ch: Channel, ops: seq<Op>, n: nat)
    requires ops != [] && Creating(ch, ops, n) && Tied(ch)
    ensures Creating(Execute(ch, ops[0], true), ops[1..], n)
  {
    hide Live;
    var rest := ops[1..];
    if rest != [] {
      assert rest[|rest| - 1] == ops[|ops| - 1];
      assert forall i | 0 <= i < |rest| - 1 :: rest[i] == ops[i + 1];
      assert Join in ops ==> ops[0] == Join || Join in rest;
      assert ops[0] in {ClearRunning, Join, Disconnect};
    }
  }

  lemma KeptControl(ch: Channel, ops: seq<Op>, created: bool)
    requires ops != [] && Spawn !in ops
    ensures Execute(ch, ops[0], created).workers == ch.workers && Spawn !in ops[1..]
  {
  }

  /** What one step within a call does to one channel: its worker moves, or the next of
      the channel's instructions runs, or nothing happens. */
  lemma StepOnChannel(s: State, step: Step, c: nat)
    requires Inv(s) && CanStep(s, step) && !step.Begin? && c < CHANNELS
    ensures Inv(Next(s, step))
    ensures var t := Next(s, step);
            var ch, after := s.channels[c], t.channels[c];
            var ops, rest := Project(s.todo, c), Project(t.todo, c);
            || (step.Work? && step.c == c && Live(ch, step.i)
                && after == WorkerStep(ch, step.i, step.choice) && rest == ops)
            || (step.Control? && ops != [] && Enabled(ch, ops[0])
                && after == Execute(ch, ops[0], step.created) && rest == ops[1..])
            || (after == ch && rest == ops)
  {
    hide WorkerStep, Execute, Enabled, ChannelOk, WellFormed;
    StepKeeps(s, step);
  }

  lemma {:induction false} CreatingRun(s: State, steps: seq<Step>, c: nat, n: nat)
    requires Inv(s) && IsRun(s, steps) && Within(steps) && c < CHANNELS
    requires Creating(s.channels[c], Project(s.todo, c), n)
    ensures Inv(After(s, steps)) && Creating(After(s, steps).channels[c], Project(After(s, steps).todo, c), n)
    decreases |steps|
  {
    hide Creating, Next, CanStep, WorkerStep, Execute, Enabled, WellFormed, Tied, Legal, Pending, Stopping, Project;
    if steps == [] {
    } else {
      assert steps[0] in steps && forall step | step in steps[1..] :: step in steps;
      var ch, ops := s.channels[c], Project(s.todo, c);
      assert ChannelOk(ch, ops, s.stopping);
      StepOnChannel(s, steps[0], c);
      if steps[0].Work? && steps[0].c == c && Live(ch, steps[0].i) {
        CreatingWork(ch, steps[0].i, steps[0].choice, ops, n);
      }
      if ops != [] {
        CreatingControl(ch, ops, n);
      }
      CreatingRun(Next(s, steps[0]), steps[1..], c, n);
    }
  }

  /** A channel on which nothing is left to start keeps its workers. */
  lemma {:induction false} KeptRun(s: State, steps: seq<Step>, c: nat)
    requires Inv(s) && IsRun(s, steps) && Within(steps) && c < CHANNELS
    requires Spawn !in Project(s.todo, c)
    ensures Inv(After(s, steps)) && |After(s, steps).channels[c].workers| == |s.channels[c].workers|
    decreases |steps|
  {
    hide Next, CanStep, WorkerStep, Execute, Enabled, WellFormed, ChannelOk, Project;
    if steps == [] {
    } else {
      assert steps[0] in steps && forall step | step in steps[1..] :: step in steps;
      var ops := Project(s.todo, c);
      StepOnChannel(s, steps[0], c);
      if ops != [] {
        KeptControl(s.channels[c], ops, steps[0].Control? && steps[0].created);
      }
      KeptRun(Next(s, steps[0]), steps[1..], c);
    }
  }

  /** A channel whose instructions end with a disconnect and start nothing is on its way
      to rest, whatever the call as a whole does. */
  lemma {:induction false} HaltingRun(s: State, steps: seq<Step>, c: nat)
    requires Inv(s) && IsRun(s, steps) && (forall step | step in steps :: !step.Begin?) && c < CHANNELS
    requires ChannelOk(s.channels[c], Project(s.todo, c), true)
    ensures Inv(After(s, steps))
    ensures ChannelOk(After(s, steps).channels[c], Project(After(s, steps).todo, c), true)
    decreases |steps|
  {
    hide Next, CanStep, WorkerStep, Execute, Enabled, WellFormed, ChannelOk, Project;
    if steps == [] {
    } else {
      assert steps[0] in steps && forall step | step in steps[1..] :: step in steps;
      var ch, ops := s.channels[c], Project(s.todo, c);
      StepOnChannel(s, steps[0], c);
      if steps[0].Work? && steps[0].c == c && Live(ch, steps[0].i) {
        WorkerKeeps(ch, steps[0].i, steps[0].choice, ops, true);
      }
      if steps[0].Control? && ops != [] && Enabled(ch, ops[0]) {
        ControlKeeps(ch, ops, steps[0].created, true);
      }
      HaltingRun(Next(s, steps[0]), steps[1..], c);
    }
  }

  /** The channels that a call leaves without a worker. */
  predicate Halts(call: Call, c: nat) {
    match call
    case StartRefused => c < PRV_HST
    case StartFailed => true
    case Started(e0, e1, e2, _) => (c == 0 && !e0) || (c == 1 && !e1) || (c == 2 && !e2)
    case Stop => true
  }

  /** The channels for which a start creates a worker: every enabled preview channel, and
      PrvHst only when no id is recorded for it. */
  predicate Creates(call: Call, c: nat, ch: Channel) {
    && call.Started?
    && ((c == 0 && call.e0) || (c == 1 && call.e1) || (c == 2 && call.e2)
        || (c == PRV_HST && call.e3 && ch.recorded.None?))
  }

  ghost predicate Quiet(ch: Channel) {
    !ch.running && !ch.connected && ch.recorded.None? && ch.taken.None? && forall i: nat :: !Live(ch, i)
  }

  lemma PlanStarts(call: Call, c: nat, ch: Channel)
    requires c < CHANNELS && Creates(call, c, ch)
    ensures Creating(ch, Plan(call, c), |ch.workers|)
  {
    var ops := Plan(call, c);
    assert ops == if c < PRV_HST then [ClearRunning, Join, Disconnect, Spawn] else [Spawn];
  }

  lemma PlanHalts(call: Call, c: nat)
    requires c < CHANNELS && Halts(call, c)
    ensures var ops := Plan(call, c);
            ops != [] && ops[|ops| - 1].Disconnect? && Spawn !in ops
  {
    assert HALT + HALT == [ClearRunning, Join, Disconnect, ClearRunning, Join, Disconnect];
  }

  lemma PlanRest(call: Call, c: nat, ch: Channel)
    requires c < CHANNELS && !Halts(call, c) && !Creates(call, c, ch)
    ensures c == PRV_HST && Plan(call, c) == if call.Started? && call.e3 then [Spawn] else []
  {
  }

  /** From any reachable state between calls, a call that runs to its return, with every
      thread creation succeeding and whatever the workers do meanwhile, creates exactly one
      worker for each channel it starts, recorded under its id, and none for any other. */
  lemma CallCreates(s: State, call: Call, steps: seq<Step>, c: nat)
    requires Reachable(s) && s.todo == [] && c < |s.channels|
    requires IsRun(Next(s, Begin(call)), steps) && Within(steps) && After(Next(s, Begin(call)), steps).todo == []
    ensures var ch, t := s.channels[c], After(Next(s, Begin(call)), steps);
            && c < |t.channels|
            && |t.channels[c].workers| == |ch.workers| + (if Creates(call, c, ch) then 1 else 0)
            && (Creates(call, c, ch) ==> t.channels[c].recorded == Some(|ch.workers|))
            && (!Creates(call, c, ch) && !Halts(call, c) ==> t.channels[c].recorded == ch.recorded)
  {
    hide Next, IsRun, Within, Creates, Halts, Creating, Plan, Program, Reachable, ChannelOk, WellFormed, Project;
    ReachableInv(s);
    var ch, b := s.channels[c], Next(s, Begin(call));
    BeginState(s, call, c);
    if Creates(call, c, ch) {
      PlanStarts(call, c, ch);
      CreatingRun(b, steps, c, |ch.workers|);
      CreatingDone(After(b, steps).channels[c], c, |ch.workers|);
    } else if Halts(call, c) {
      PlanHalts(call, c);
      KeptRun(b, steps, c);
    } else {
      PlanRest(call, c, ch);
      assert forall step | step in steps :: !step.Begin? by { NoBegin(steps); }
      if Plan(call, c) == [] {
        UntouchedRun(b, steps, c);
      } else {
        RestRecorded(call, ch);
        OnlyStopReplaces(b, steps);
      }
    }
  }

  lemma NoBegin(steps: seq<Step>)
    requires Within(steps)
    ensures forall step | step in steps :: !step.Begin?
  {
  }

  lemma RestRecorded(call: Call, ch: Channel)
    requires !Creates(call, PRV_HST, ch) && Plan(call, PRV_HST) == [Spawn]
    ensures ch.recorded.Some?
  {
  }

  /** Workers do not touch the record. */
  lemma {:induction false} UntouchedRun(s: State, steps: seq<Step>, c: nat)
    requires Inv(s) && IsRun(s, steps) && Within(steps) && c < CHANNELS
    requires Project(s.todo, c) == []
    ensures var t := After(s, steps);
            && Inv(t) && t.channels[c].recorded == s.channels[c].recorded
            && |t.channels[c].workers| == |s.channels[c].workers|
    decreases |steps|
  {
    hide Next, CanStep, WorkerStep, Execute, Enabled, WellFormed, ChannelOk, Project;
    if steps == [] {
    } else {
      assert steps[0] in steps && forall step | step in steps[1..] :: step in steps;
      StepOnChannel(s, steps[0], c);
      UntouchedRun(Next(s, steps[0]), steps[1..], c);
    }
  }

  /** A call leaves no worker and no record on the channels that it halts, at its return,
      whatever thread creation and the workers do meanwhile. */
  lemma CallHalts(s: State, call: Call, steps: seq<Step>, c: nat)
    requires Reachable(s) && s.todo == [] && c < |s.channels| && Halts(call, c)
    requires IsRun(Next(s, Begin(call)), steps) && forall step | step in steps :: !step.Begin?
    requires After(Next(s, Begin(call)), steps).todo == []
    ensures var t := After(Next(s, Begin(call)), steps);
            c < |t.channels| && Quiet(t.channels[c])
  {
    hide Next, IsRun, Halts, Plan, Program, Reachable, ChannelOk, WellFormed, Project;
    ReachableInv(s);
    var b := Next(s, Begin(call));
    BeginState(s, call, c);
    PlanHalts(call, c);
    assert ChannelOk(b.channels[c], Plan(call, c), b.stopping);
    HaltingStarts(b.channels[c], Plan(call, c), b.stopping);
    HaltingRun(b, steps, c);
    HaltingDone(After(b, steps).channels[c], c);
  }

  lemma HaltingStarts(ch: Channel, ops: seq<Op>, stopping: bool)
    requires ChannelOk(ch, ops, stopping) && ops != [] && ops[|ops| - 1].Disconnect? && Spawn !in ops
    ensures ChannelOk(ch, ops, true)
  {
    hide Legal, Tied, Pending;
  }

  lemma HaltingDone(ch: Channel, c: nat)
    requires ChannelOk(ch, Project([], c), true)
    ensures Quiet(ch)
  {
    hide Legal;
  }

  lemma CreatingDone(ch: Channel, c: nat, n: nat)
    requires Creating(ch, Project([], c), n)
    ensures |ch.workers| == n + 1 && ch.recorded == Some(n)
  {
  }

  lemma BeginState(s: State, call: Call, c: nat)
    requires Inv(s) && s.todo == [] && c < CHANNELS
    ensures CanStep(s, Begin(call)) && Inv(Next(s, Begin(call)))
    ensures Next(s, Begin(call)).channels == s.channels && Project(Next(s, Begin(call)).todo, c) == Plan(call, c)
  {
    hide Program, Plan, WellFormed, ChannelOk, Project;
    StepKeeps(s, Begin(call));
    ProjectProgram(call, c);
  }

  // ----- what workers do

  /** Every step of a worker by what it changes. The flag is cleared by a worker only when
      its peer closes, or on a socket error while it is connected; the connection is set up
      only by a dial that succeeds. */
  lemma WorkerFlags(ch: Channel, i: nat, choice: Choice)
    requires Live(ch, i)
    ensures var after, pc := WorkerStep(ch, i, choice), ch.workers[i];
            && (ch.running && !after.running <==>
                  ch.running && pc.Read? && (choice.PeerClosed? || (choice.SocketError? && ch.connected)))
            && (!ch.connected && after.connected <==> !ch.connected && pc.Dial? && choice.Proceed?)
            && (ch.connected && !after.connected <==>
                  ch.connected && (pc in {Connect, Exit} || (pc.Read? && choice in {PeerClosed, SocketError})))
            && (after.workers[i] in {Exit, Done} <==>
                  (pc in {Top, Check} && !ch.running) || (pc.Read? && choice !in {Proceed, Back}) || pc.Exit?)
            && (after.workers[i].Top? <==>
                  || (pc.Dial? && choice.Back?) || (pc.Ready? && !(ch.connected && choice.Proceed?))
                  || (pc.Read? && choice in {Proceed, Back}))
            && (after.workers[i].Decide? <==> pc.Top? && ch.running)
            && (after.workers[i].Ready? <==> pc.Check? && ch.running)
            && (after.workers[i].Read? <==> pc.Ready? && ch.connected && choice.Proceed?)
            && (after.workers[i].Dial? <==> pc.Connect?)
            && (after.workers[i].Connect? <==> pc.Decide? && ch.running && !ch.connected && choice.Proceed?)
            && (after.workers[i].Done? <==> pc.Exit?)
  {
  }

  /** n steps of one worker to which the network gives what it asks for. */
  function Proceeding(c: nat, i: nat, n: nat): seq<Step> {
    if n == 0 then [] else [Work(c, i, Proceed)] + Proceeding(c, i, n - 1)
  }

  /** How many such steps a worker is away from reading its stream. */
  function ToRead(pc: PC, connected: bool): nat {
    match pc
    case Top => if connected then 4 else 6
    case Decide => if connected then 3 else 5
    case Connect => 4
    case Dial => 3
    case Check => 2
    case Ready => 1
    case _ => 0
  }

  lemma ReadsStep(ch: Channel, i: nat)
    requires Live(ch, i) && ch.running && ToRead(ch.workers[i], ch.connected) > 0
    requires ch.workers[i] in {Check, Ready} ==> ch.connected
    ensures var after := WorkerStep(ch, i, Proceed);
            && after.running && |after.workers| == |ch.workers|
            && after == At(after.(connected := after.connected), i, after.workers[i])
            && ToRead(after.workers[i], after.connected) == ToRead(ch.workers[i], ch.connected) - 1
            && (after.workers[i] in {Check, Ready, Read} ==> after.connected)
            && !after.workers[i].Exit? && !after.workers[i].Done?
            && Reading(after, i) == Reading(ch, i)
  {
    var after := WorkerStep(ch, i, Proceed);
    assert after.workers[i := Read] == ch.workers[i := Read];
  }

  /** The channel with worker i reading its stream. */
  function Reading(ch: Channel, i: nat): Channel
    requires i < |ch.workers|
  {
    At(ch, i, Read).(connected := true)
  }

  lemma {:induction false} ReadsAfter(s: State, c: nat, i: nat)
    requires c < |s.channels| && i < |s.channels[c].workers| && s.channels[c].running
    requires var pc := s.channels[c].workers[i];
             !pc.Exit? && !pc.Done? && (pc in {Check, Ready, Read} ==> s.channels[c].connected)
    ensures var steps := Proceeding(c, i, ToRead(s.channels[c].workers[i], s.channels[c].connected));
            IsRun(s, steps) && After(s, steps) == s.(channels := s.channels[c := Reading(s.channels[c], i)])
    decreases ToRead(s.channels[c].workers[i], s.channels[c].connected)
  {
    hide WorkerStep;
    var ch := s.channels[c];
    if ToRead(ch.workers[i], ch.connected) == 0 {
      assert ch.workers[i := Read] == ch.workers;
      assert s.channels[c := Reading(ch, i)] == s.channels;
    } else {
      ReadsStep(ch, i);
      var t := Next(s, Work(c, i, Proceed));
      ReadsAfter(t, c, i);
      assert t.channels[c := Reading(ch, i)] == s.channels[c := Reading(ch, i)];
    }
  }

  /** From the top of its loop a worker whose flag is set reads its stream after six steps,
      or four when it is connected already, if the network lets it. */
  lemma WorkerReads(s: State, c: nat, i: nat)
    requires c < |s.channels| && i < |s.channels[c].workers| && s.channels[c].running && s.channels[c].workers[i].Top?
    ensures var steps := Proceeding(c, i, if s.channels[c].connected then 4 else 6);
            && IsRun(s, steps)
            && After(s, steps) == s.(channels := s.channels[c := At(s.channels[c], i, Read).(connected := true)])
  {
    ReadsAfter(s, c, i);
  }
}
