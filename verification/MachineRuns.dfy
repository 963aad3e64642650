/** Whole runs of the interpreter.

    What the simple opcodes do may differ from step to step and may depend on the return buffer: a run is
    given by an oracle, and every result holds for every oracle. */
module MachineRuns {
  import opened Bytes
  import opened World
  import opened Machine
  import opened MachineSteps
  import Jumpdest

  /** The simple opcodes at the n-th step, given what the last call returned. */
  type Oracle = (nat, Bytes) -> SimpleOps

  function StepAt(oracle: Oracle, n: nat, initialGas: nat, s: State): Next {
    Step(oracle(n, s.returnData), initialGas, s)
  }

  // ---------------------------------------------------------------------------
  // Gas over the frame stack
  // ---------------------------------------------------------------------------

  function GasOf(frames: seq<Frame>): nat {
    if |frames| == 0 then 0 else GasOf(frames[..|frames| - 1]) + frames[|frames| - 1].gas
  }

  /** The gas of all live frames together. */
  function TotalGas(s: State): nat {
    GasOf(s.parents) + s.frame.gas
  }

  lemma GasOfPushed(frames: seq<Frame>, f: Frame)
    ensures GasOf(frames + [f]) == GasOf(frames) + f.gas
  {
    assert (frames + [f])[..|frames|] == frames;
  }

  /** The code left to the current frame. */
  function Remaining(f: Frame): nat {
    if f.pc < |f.code| then |f.code| - f.pc else 0
  }

  /** A measure every step lowers: total gas, then depth, then the code left to the frame. */
  predicate Lower(s: State, t: State) {
    || TotalGas(t) < TotalGas(s)
    || (TotalGas(t) == TotalGas(s)
        && (|t.parents| < |s.parents| || (|t.parents| == |s.parents| && Remaining(t.frame) < Remaining(s.frame))))
  }

  /** The frame with its program counter past the opcode. */
  function Fetched(f: Frame): Frame {
    f.(pc := f.pc + 1)
  }

  /** A step takes from the live frames exactly what its opcode does not leave in play. */
  lemma AfterSpends(initialGas: nat, s: State, e: Effect)
    requires After(initialGas, s, e).Running?
    ensures TotalGas(After(initialGas, s, e).state) == TotalGas(s) - s.frame.gas + EffectGas(e)
  {
    if e.Enter? { GasOfPushed(s.parents, e.frame); }
  }

  lemma StepLowers(ops: SimpleOps, initialGas: nat, s: State)
    requires Step(ops, initialGas, s).Running?
    ensures Lower(s, Step(ops, initialGas, s).state)
    ensures TotalGas(Step(ops, initialGas, s).state) <= TotalGas(s)
  {
    var f := s.frame;
    if f.pc < |f.code| {
      OpcodeMeters(ops, f.code[f.pc], Fetched(f), |s.parents|, s.world);
      OpcodeFlows(ops, f.code[f.pc], Fetched(f), |s.parents|, s.world);
    }
    AfterSpends(initialGas, s, Dispatch(ops, f, |s.parents|, s.world));
  }

  /** A nested call costs at least 100 gas across the whole stack, even with the stipend. */
  lemma CallCosts(ops: SimpleOps, initialGas: nat, s: State)
    requires Step(ops, initialGas, s).Running? && |Step(ops, initialGas, s).state.parents| > |s.parents|
    ensures TotalGas(Step(ops, initialGas, s).state) + GAS_WARM_ACCESS <= TotalGas(s)
  {
    var f := s.frame;
    if f.pc < |f.code| { OpcodeMeters(ops, f.code[f.pc], Fetched(f), |s.parents|, s.world); }
    AfterSpends(initialGas, s, Dispatch(ops, f, |s.parents|, s.world));
  }

  /** The run from a state to its end. That this is a function at all says that every run halts. */
  function RunFrom(oracle: Oracle, n: nat, initialGas: nat, s: State): (r: Next)
    ensures !r.Running?
    decreases TotalGas(s), |s.parents|, Remaining(s.frame)
  {
    var next := StepAt(oracle, n, initialGas, s);
    if !next.Running? then next
    else
      StepLowers(oracle(n, s.returnData), initialGas, s);
      RunFrom(oracle, n + 1, initialGas, next.state)
  }

  /** Gas used lies between zero and the gas the run began with. */
  lemma {:induction false} GasBounded(oracle: Oracle, n: nat, initialGas: nat, s: State)
    requires TotalGas(s) <= initialGas
    ensures var r := RunFrom(oracle, n, initialGas, s); r.Done? ==> 0 <= r.gasUsed <= initialGas
    decreases TotalGas(s), |s.parents|, Remaining(s.frame)
  {
    var ops := oracle(n, s.returnData);
    var next := StepAt(oracle, n, initialGas, s);
    if next.Running? {
      StepLowers(ops, initialGas, s);
      GasBounded(oracle, n + 1, initialGas, next.state);
    } else {
      var f := s.frame;
      if f.pc < |f.code| { OpcodeMeters(ops, f.code[f.pc], Fetched(f), |s.parents|, s.world); }
    }
  }

  // ---------------------------------------------------------------------------
  // Invariants of every reachable state
  // ---------------------------------------------------------------------------

  /** The frames from the bottom of the stack to the current one. */
  function Frames(s: State): seq<Frame> {
    s.parents + [s.frame]
  }

  /** Every frame stands at the start of an instruction. */
  ghost predicate OnBoundary(s: State) {
    forall i | 0 <= i < |Frames(s)| :: Jumpdest.Boundary(Frames(s)[i].code, Frames(s)[i].pc)
  }

  lemma FlowKeepsBoundary(op: byte, f: Frame, e: Effect)
    requires f.pc < |f.code| && Jumpdest.Boundary(f.code, f.pc) && op == f.code[f.pc] && Flows(op, Fetched(f), e)
    ensures e.Continue? || e.Enter? ==> Jumpdest.Boundary(e.frame.code, e.frame.pc)
    ensures e.Enter? ==> Jumpdest.Boundary(e.child.code, e.child.pc)
  {
    Jumpdest.BoundaryNext(f.code, f.pc);
  }

  lemma AfterKeepsBoundary(initialGas: nat, s: State, e: Effect)
    requires OnBoundary(s) && After(initialGas, s, e).Running?
    requires e.Continue? || e.Enter? ==> Jumpdest.Boundary(e.frame.code, e.frame.pc)
    requires e.Enter? ==> Jumpdest.Boundary(e.child.code, e.child.pc)
    ensures OnBoundary(After(initialGas, s, e).state)
  {
    var t := After(initialGas, s, e).state;
    forall i | 0 <= i < |Frames(t)| ensures Jumpdest.Boundary(Frames(t)[i].code, Frames(t)[i].pc) {
      if i < |s.parents| { assert Frames(s)[i] == s.parents[i]; }
    }
  }

  /** No step, jump, call or return ever leaves a frame inside the data of a push. */
  lemma StepKeepsBoundary(ops: SimpleOps, initialGas: nat, s: State)
    requires OnBoundary(s) && Step(ops, initialGas, s).Running?
    ensures OnBoundary(Step(ops, initialGas, s).state)
  {
    var f := s.frame;
    assert Frames(s)[|s.parents|] == f;
    var e := Dispatch(ops, f, |s.parents|, s.world);
    if f.pc < |f.code| {
      OpcodeFlows(ops, f.code[f.pc], Fetched(f), |s.parents|, s.world);
      FlowKeepsBoundary(f.code[f.pc], f, e);
    }
    AfterKeepsBoundary(initialGas, s, e);
  }

  /** Operand stacks are inside their arrays, waiting frames have room for flag and answer, and the frame
      stack is inside the pool. */
  ghost predicate WithinLimits(s: State) {
    && |s.parents| < FRAME_POOL_SIZE
    && Roomy(s.frame)
    && forall i | 0 <= i < |s.parents| :: Ready(s.parents[i])
  }

  /** Every step that is not an overrun keeps within the limits, unchecked pushes and copies included, and
      the loop's own depth check never fires. */
  lemma StepKeepsLimits(ops: SimpleOps, initialGas: nat, s: State)
    requires WithinLimits(s) && Step(ops, initialGas, s).Running?
    ensures WithinLimits(Step(ops, initialGas, s).state)
  {
    var f := s.frame;
    if f.pc < |f.code| {
      OpcodeBounded(ops, f.code[f.pc], Fetched(f), |s.parents|, s.world);
      EnterDepth(ops, f.code[f.pc], Fetched(f), |s.parents|, s.world);
    }
  }

  lemma {:induction false} RunKeepsLimits(oracle: Oracle, n: nat, initialGas: nat, run: seq<State>)
    requires IsRun(oracle, n, initialGas, run) && WithinLimits(run[0])
    ensures WithinLimits(run[|run| - 1])
  {
    if |run| > 1 {
      ShorterRun(oracle, n, initialGas, run);
      RunKeepsLimits(oracle, n, initialGas, run[..|run| - 1]);
      StepKeepsLimits(oracle(n + |run| - 2, run[|run| - 2].returnData), initialGas, run[|run| - 2]);
    }
  }

  /** Within the limits a step writes past an array exactly when it is a DUP on a full one. */
  lemma StepOverrunsIff(ops: SimpleOps, initialGas: nat, s: State)
    requires WithinLimits(s)
    ensures Step(ops, initialGas, s).Overrun?
            <==> s.frame.pc < |s.frame.code| && DupsWhenFull(s.frame.code[s.frame.pc], s.frame)
  {
    var f := s.frame;
    if f.pc < |f.code| { OverrunsIffDup(ops, f.code[f.pc], Fetched(f), |s.parents|, s.world); }
  }

  /** The world a step leaves behind, whether or not the run goes on. */
  function WorldAfter(next: Next): World {
    if next.Running? then next.state.world else next.world
  }

  lemma StepConserves(ops: SimpleOps, initialGas: nat, s: State)
    requires Supply(s.world) < TWO_256
    ensures Supply(WorldAfter(Step(ops, initialGas, s))) == Supply(s.world)
  {
    var f := s.frame;
    if f.pc < |f.code| { OpcodeConserves(ops, f.code[f.pc], Fetched(f), |s.parents|, s.world); }
  }

  lemma StepKeepsRefunds(ops: SimpleOps, initialGas: nat, s: State)
    requires RefundsBalance(s.world)
    ensures RefundsBalance(WorldAfter(Step(ops, initialGas, s)))
  {
    var f := s.frame;
    if f.pc < |f.code| { OpcodeKeepsRefunds(ops, f.code[f.pc], Fetched(f), |s.parents|, s.world); }
  }

  /** A run neither makes nor burns ether. */
  lemma {:induction false} RunConserves(oracle: Oracle, n: nat, initialGas: nat, s: State)
    requires Supply(s.world) < TWO_256
    ensures Supply(RunFrom(oracle, n, initialGas, s).world) == Supply(s.world)
    decreases TotalGas(s), |s.parents|, Remaining(s.frame)
  {
    var ops := oracle(n, s.returnData);
    var next := StepAt(oracle, n, initialGas, s);
    StepConserves(ops, initialGas, s);
    if next.Running? {
      StepLowers(ops, initialGas, s);
      RunConserves(oracle, n + 1, initialGas, next.state);
    }
  }

  /** A run ends with its refund counter equal to what the written slots are worth. */
  lemma {:induction false} RunKeepsRefunds(oracle: Oracle, n: nat, initialGas: nat, s: State)
    requires RefundsBalance(s.world)
    ensures RefundsBalance(RunFrom(oracle, n, initialGas, s).world)
    decreases TotalGas(s), |s.parents|, Remaining(s.frame)
  {
    var ops := oracle(n, s.returnData);
    var next := StepAt(oracle, n, initialGas, s);
    StepKeepsRefunds(ops, initialGas, s);
    if next.Running? {
      StepLowers(ops, initialGas, s);
      RunKeepsRefunds(oracle, n + 1, initialGas, next.state);
    }
  }

  // ---------------------------------------------------------------------------
  // Runs, step by step
  // ---------------------------------------------------------------------------

  ghost predicate IsRun(oracle: Oracle, n: nat, initialGas: nat, run: seq<State>) {
    && |run| > 0
    && forall i | 0 <= i < |run| - 1 :: StepAt(oracle, n + i, initialGas, run[i]) == Running(run[i + 1])
  }

  /** The last step of a run, and the run up to it. */
  lemma ShorterRun(oracle: Oracle, n: nat, initialGas: nat, run: seq<State>)
    requires IsRun(oracle, n, initialGas, run) && |run| > 1
    ensures IsRun(oracle, n, initialGas, run[..|run| - 1])
    ensures StepAt(oracle, n + |run| - 2, initialGas, run[|run| - 2]) == Running(run[|run| - 1])
  {
    var shorter := run[..|run| - 1];
    forall i | 0 <= i < |shorter| - 1 ensures StepAt(oracle, n + i, initialGas, shorter[i]) == Running(shorter[i + 1]) {
      assert StepAt(oracle, n + i, initialGas, run[i]) == Running(run[i + 1]);
    }
    assert StepAt(oracle, n + (|run| - 2), initialGas, run[|run| - 2]) == Running(run[|run| - 2 + 1]);
  }

  /** A frame about to run, as the executor sets it up. */
  predicate IsStart(s: State) {
    s.parents == [] && s.frame.pc == 0 && s.frame.stack == [] && s.frame.capacity == INITIAL_CAPACITY
  }

  /** In every run each opcode fetched stands at an instruction boundary, the limits hold, and the gas of
      all live frames stays within what the run began with. */
  lemma {:induction false} Sound(oracle: Oracle, n: nat, initialGas: nat, run: seq<State>)
    requires IsRun(oracle, n, initialGas, run) && IsStart(run[0])
    ensures OnBoundary(run[|run| - 1]) && WithinLimits(run[|run| - 1])
    ensures TotalGas(run[|run| - 1]) <= TotalGas(run[0])
  {
    RunKeepsLimits(oracle, n, initialGas, run);
    if |run| > 1 {
      ShorterRun(oracle, n, initialGas, run);
      var s := run[|run| - 2];
      var ops := oracle(n + |run| - 2, s.returnData);
      Sound(oracle, n, initialGas, run[..|run| - 1]);
      StepKeepsBoundary(ops, initialGas, s);
      StepLowers(ops, initialGas, s);
    }
  }

  // ---------------------------------------------------------------------------
  // Static isolation
  // ---------------------------------------------------------------------------

  /** All frames from depth `d` up are static. */
  ghost predicate StaticFrom(s: State, d: nat) {
    forall i | d <= i < |Frames(s)| :: Frames(s)[i].isStatic
  }

  lemma AfterIsolates(initialGas: nat, s: State, e: Effect, d: nat)
    requires StaticFrom(s, d) && d <= |s.parents| && Isolates(s.frame, s.world, e)
    ensures SameLedger(s.world, WorldAfter(After(initialGas, s, e)))
    ensures After(initialGas, s, e).Running? ==> StaticFrom(After(initialGas, s, e).state, d)
  {
    assert Frames(s)[|s.parents|] == s.frame;
    if After(initialGas, s, e).Running? {
      var t := After(initialGas, s, e).state;
      forall i | d <= i < |Frames(t)| ensures Frames(t)[i].isStatic {
        if i < |s.parents| { assert Frames(s)[i] == s.parents[i]; }
      }
    }
  }

  lemma StepIsolates(ops: SimpleOps, initialGas: nat, s: State, d: nat)
    requires StaticFrom(s, d) && d <= |s.parents|
    ensures SameLedger(s.world, WorldAfter(Step(ops, initialGas, s)))
    ensures Step(ops, initialGas, s).Running? ==> StaticFrom(Step(ops, initialGas, s).state, d)
  {
    var f := s.frame;
    if f.pc < |f.code| { OpcodeIsolates(ops, f.code[f.pc], Fetched(f), |s.parents|, s.world); }
    AfterIsolates(initialGas, s, Dispatch(ops, f, |s.parents|, s.world), d);
  }

  /** From the moment a static frame runs until the step on which it returns, through any nesting of
      further calls, the ledger does not change and every frame above is static. */
  lemma {:induction false} StaticIsolation(oracle: Oracle, n: nat, initialGas: nat, run: seq<State>, d: nat)
    requires IsRun(oracle, n, initialGas, run) && d == |run[0].parents| && run[0].frame.isStatic
    requires forall i | 0 <= i < |run| - 1 :: d <= |run[i].parents|
    ensures SameLedger(run[0].world, run[|run| - 1].world) && StaticFrom(run[|run| - 1], d)
  {
    if |run| > 1 {
      ShorterRun(oracle, n, initialGas, run);
      var s := run[|run| - 2];
      StaticIsolation(oracle, n, initialGas, run[..|run| - 1], d);
      assert run[..|run| - 1][|run| - 2] == s;
      StepIsolates(oracle(n + |run| - 2, s.returnData), initialGas, s, d);
    }
  }

  /** STATICCALL opens such a frame. */
  lemma StaticCallOpensStatic(ops: SimpleOps, initialGas: nat, s: State)
    requires s.frame.pc < |s.frame.code| && s.frame.code[s.frame.pc] == 0xFA
    requires Step(ops, initialGas, s).Running? && |Step(ops, initialGas, s).state.parents| > |s.parents|
    ensures Step(ops, initialGas, s).state.frame.isStatic
  {
    OpcodeIsolates(ops, 0xFA, Fetched(s.frame), |s.parents|, s.world);
  }

  // ---------------------------------------------------------------------------
  // Calls seen from the caller
  // ---------------------------------------------------------------------------

  /** A step changes the waiting frames at most by adding or removing the last one. */
  lemma AfterKeepsCallers(initialGas: nat, s: State, e: Effect)
    requires After(initialGas, s, e).Running?
    ensures var t := After(initialGas, s, e).state;
            if |t.parents| < |s.parents| then t.parents == s.parents[..|s.parents| - 1]
            else s.parents <= t.parents
  {}

  /** While a call runs, through any nesting, the callers below it wait unchanged. */
  lemma {:induction false} CallersWait(oracle: Oracle, n: nat, initialGas: nat, run: seq<State>, d: nat)
    requires IsRun(oracle, n, initialGas, run)
    requires forall i | 0 <= i < |run| :: d <= |run[i].parents|
    ensures run[|run| - 1].parents[..d] == run[0].parents[..d]
  {
    if |run| > 1 {
      ShorterRun(oracle, n, initialGas, run);
      var s, shorter := run[|run| - 2], run[..|run| - 1];
      forall i | 0 <= i < |shorter| ensures d <= |shorter[i].parents| { assert shorter[i] == run[i]; }
      CallersWait(oracle, n, initialGas, shorter, d);
      var ops := oracle(n + |run| - 2, s.returnData);
      AfterKeepsCallers(initialGas, s, Dispatch(ops, s.frame, |s.parents|, s.world));
    }
  }

  /** What a caller finds when its call is over: its own frame, with the gas left over, the flag on top of
      the stack and, in the window it named and nowhere else, the first bytes of what was returned. */
  ghost predicate Answered(caller: Frame, t: State) {
    && |t.frame.stack| == |caller.stack| + 1 && caller.stack <= t.frame.stack
    && Peek(t.frame.stack, 0) <= 1
    && |t.frame.memory| == |caller.memory|
    && (forall i | 0 <= i < |caller.memory| ::
          t.frame.memory[i] == if caller.retOffset <= i < caller.retOffset + caller.retSize
                                  && i < caller.retOffset + |t.returnData|
                               then t.returnData[i - caller.retOffset] else caller.memory[i])
    && t.frame == caller.(gas := t.frame.gas, stack := t.frame.stack, memory := t.frame.memory)
    && t.frame.gas >= caller.gas
  }

  lemma ReturnAnswers(initialGas: nat, s: State, e: Effect)
    requires WithinLimits(s) && After(initialGas, s, e).Running?
    requires |After(initialGas, s, e).state.parents| < |s.parents|
    ensures Answered(s.parents[|s.parents| - 1], After(initialGas, s, e).state)
  {
    assert Ready(s.parents[|s.parents| - 1]);
  }

  /** From the step that opens a frame to the step that closes it, whatever runs in between: the caller
      gets its frame back as it left it, answered. */
  lemma CallReturns(oracle: Oracle, n: nat, initialGas: nat, run: seq<State>)
    requires IsRun(oracle, n, initialGas, run) && |run| > 1
    requires WithinLimits(run[0]) && |run[0].parents| > 0
    requires forall i | 0 <= i < |run| - 1 :: |run[0].parents| <= |run[i].parents|
    requires |run[|run| - 1].parents| < |run[0].parents|
    ensures Answered(run[0].parents[|run[0].parents| - 1], run[|run| - 1])
  {
    var d, s, shorter := |run[0].parents|, run[|run| - 2], run[..|run| - 1];
    ShorterRun(oracle, n, initialGas, run);
    forall i | 0 <= i < |shorter| ensures d <= |shorter[i].parents| { assert shorter[i] == run[i]; }
    CallersWait(oracle, n, initialGas, shorter, d);
    RunKeepsLimits(oracle, n, initialGas, shorter);
    var ops := oracle(n + |run| - 2, s.returnData);
    AfterKeepsCallers(initialGas, s, Dispatch(ops, s.frame, |s.parents|, s.world));
    ReturnAnswers(initialGas, s, Dispatch(ops, s.frame, |s.parents|, s.world));
    assert s.parents[..d] == run[0].parents[..d] == run[0].parents;
  }

  // ---------------------------------------------------------------------------
  // A run that overruns
  // ---------------------------------------------------------------------------

  /** `k` times PUSH1 0, then DUP1. */
  function Pushes(k: nat): Bytes {
    if k == 0 then [0x80] else [0x60, 0] + Pushes(k - 1)
  }

  lemma {:induction false} PushesAt(k: nat, j: nat)
    requires j <= k
    ensures |Pushes(k)| == 2 * k + 1 && Pushes(k)[2 * j] == if j < k then 0x60 else 0x80
  {
    if k > 0 { PushesAt(k - 1, if j > 0 then j - 1 else 0); }
  }

  /** Thirty-two pushes fill the first array, and the DUP after them writes past it. */
  lemma {:induction false} PushesOverrun(oracle: Oracle, n: nat, initialGas: nat, s: State, j: nat)
    requires s.frame.code == Pushes(INITIAL_CAPACITY) && s.frame.capacity == INITIAL_CAPACITY
    requires |s.frame.stack| == j <= INITIAL_CAPACITY && s.frame.pc == 2 * j
    requires s.frame.gas >= GAS_PUSH * (INITIAL_CAPACITY - j) + GAS_DUP
    ensures RunFrom(oracle, n, initialGas, s).Overrun?
    decreases INITIAL_CAPACITY - j
  {
    PushesAt(INITIAL_CAPACITY, j);
    if j < INITIAL_CAPACITY {
      PushesOverrun(oracle, n + 1, initialGas, StepAt(oracle, n, initialGas, s).state, j + 1);
    }
  }
}
