/** The interpreter as the source runs it: the current frame, the callers, the return buffer and the world,
    all updated in place. The frame loop is proved to run the transition system. */
module Interpreter {
  import opened Bytes
  import opened World
  import opened Machine
  import opened MachineSteps
  import opened MachineRuns
  import opened CallFrames
  import opened FrameStacks

  class Evm {
    const oracle: Oracle
    const callers: FrameStack
    var rented: nat
    var current: CallFrame
    var returnData: Bytes
    var world: World
    var steps: nat
    ghost var repr: set<object>

    /** The interpreter owns the pool and everything its frames are made of. */
    ghost predicate Owns()
      reads this, callers
    {
      && this in repr && callers.repr <= repr && this !in callers.repr
      && forall f | f in callers.pool :: f in repr
    }

    ghost predicate Valid()
      reads this, callers, callers.repr, current, current.stack
    {
      && Owns() && callers.Valid()
      && current == callers.pool[callers.depth] && current.Valid() && current.depth == callers.depth
      && rented == callers.depth + 1
      && current.Footprint() <= repr && current.Footprint() !! callers.repr
      && (forall i | 0 <= i < |callers.values| :: MachineSteps.Ready(callers.values[i]))
    }

    ghost function State(): State
      requires Valid()
      reads this, callers, callers.repr, current, current.stack, current.stack.items
    {
      Machine.State(current.Value(), callers.values, returnData, world)
    }

    constructor (oracle: Oracle)
      ensures Owns() && callers.Valid() && callers.values == [] && fresh(repr) && this.oracle == oracle
    {
      this.oracle := oracle;
      var pool := MakePool();
      current := pool[0];
      callers := new FrameStack(pool);
      rented, returnData, steps := 0, [], 0;
      world := World(map[], map[], map[], map[], map[], {}, {}, [], 0, 0);
      new;
      repr := {this} + callers.repr + set f | f in callers.pool;
    }

    // -------------------------------------------------------------------------
    // Opcodes
    // -------------------------------------------------------------------------

    /** Any opcode but a call, on the current frame; the callers do not notice. */
    method Perform(ops: SimpleOps, op: byte) returns (signal: Signal)
      requires Valid() && !IsCall(op) && current.pc <= |current.code|
      modifies this`world, this`repr, current, current.stack, current.stack.items
      ensures Valid() && fresh(repr - old(repr)) && callers.values == old(callers.values)
      ensures current.Effect(signal, world) == Machine.Execute(ops, op, old(current.Value()), |callers.values|, old(world))
    {
      signal, world := current.Execute(ops, op, world);
      repr := repr + {current.stack.items};
    }

    /** The current frame joins the callers. */
    method Park(a: CallArgs)
      requires Valid() && rented < FRAME_POOL_SIZE && MachineSteps.Ready(Waiting(current.Value(), a))
      modifies current`retOffset, current`retSize, callers, callers.entries
      ensures Owns() && callers.Valid() && callers.values == old(callers.values) + [Waiting(old(current.Value()), a)]
      ensures forall i | 0 <= i < |callers.values| :: MachineSteps.Ready(callers.values[i])
    {
      current.retOffset, current.retSize := a.retOffset, a.retSize % TWO_32;
      callers.Push(current);
    }

    /** The first free frame of the pool becomes the current one. */
    method Rent(start: Frame)
      requires Owns() && callers.Valid() && rented == callers.depth
      requires forall i | 0 <= i < |callers.values| :: MachineSteps.Ready(callers.values[i])
      requires start.stack == [] && start.capacity == INITIAL_CAPACITY
      modifies this`rented, this`current, this`repr, callers.pool[rented]
      ensures Valid() && fresh(repr - old(repr))
      ensures State() == Machine.State(start, callers.values, returnData, world)
    {
      var child := callers.pool[rented];
      child.Init(start, rented);
      rented := rented + 1;
      current := child;
      repr := repr + {child.stack, child.stack.items};
    }

    /** The last caller becomes the current frame again, and the finished one goes back to the pool. */
    method Resume(left: nat, flag: nat, data: Bytes)
      requires Valid() && callers.depth > 0
      modifies repr
      ensures Valid() && repr == old(repr) && steps == old(steps)
      ensures State() == Machine.Resume(old(callers.values), left, flag, data, old(world))
    {
      GiveBack();
      returnData := data;
      current.TakeAnswer(left, flag, data);
    }

    method GiveBack()
      requires Valid() && callers.depth > 0
      modifies this`rented, this`current, callers
      ensures Valid() && callers.values == old(callers.values)[..|old(callers.values)| - 1]
      ensures current.Value() == old(callers.values)[|callers.values|] && MachineSteps.Ready(current.Value())
    {
      current := callers.Pop();
      rented := rented - 1;
    }

    // -------------------------------------------------------------------------
    // Calls
    // -------------------------------------------------------------------------

    /** A call that cannot be made pushes zero. */
    method Decline()
      requires Valid() && current.stack.top < current.stack.items.Length
      modifies current.stack`top, current.stack.items
      ensures Valid() && State() == old(State()).(frame := old(current.Value()).(stack := old(current.Value()).stack + [0]))
    {
      current.PushWord(0);
    }

    method EnterChild(kind: CallKind, a: CallArgs, childGas: nat)
      requires Valid() && rented < FRAME_POOL_SIZE && MachineSteps.Ready(Waiting(current.Value(), a))
      modifies repr
      ensures Valid() && fresh(repr - old(repr)) && steps == old(steps)
      ensures var f := old(current.Value());
              State() == Machine.State(ChildFrame(kind, f, a, childGas, old(world)), old(callers.values) + [Waiting(f, a)],
                                       old(returnData), old(world))
    {
      var start := ChildFrame(kind, current.Value(), a, childGas, world);
      Park(a);
      Rent(start);
    }

    /** A frame is taken from the pool if it has one left. */
    method Seat(kind: CallKind, a: CallArgs, childGas: nat, ghost gas: nat)
      requires Valid() && current.stack.top < current.stack.items.Length && Inside(current.memory, a.retOffset, a.retSize)
      modifies repr
      ensures Valid() && fresh(repr - old(repr)) && steps == old(steps)
      ensures Running(State()) == After(gas, old(State()), Machine.Seat(kind, old(current.Value()), a, childGas,
                                                                        |old(callers.values)|, old(world)))
    {
      if rented >= FRAME_POOL_SIZE { Decline(); } else { EnterChild(kind, a, childGas); }
    }

    /** Check the balance, move the value and seat the child, or push zero where the balance is short. */
    method OpenFrame(kind: CallKind, a: CallArgs, childGas: nat, ghost gas: nat)
      requires Valid() && current.stack.top < current.stack.items.Length && Inside(current.memory, a.retOffset, a.retSize)
      modifies repr
      ensures Valid() && fresh(repr - old(repr)) && steps == old(steps)
      ensures Running(State()) == After(gas, old(State()), Open(kind, old(current.Value()), a, childGas,
                                                                |old(callers.values)|, old(world)))
    {
      if a.value != 0 && (kind.Call? || kind.CallCode?) && Balance(world, current.address) < a.value {
        Decline();
      } else {
        Transfer(kind, a);
        Seat(kind, a, childGas, gas);
      }
    }

    /** Only CALL moves value. */
    method Transfer(kind: CallKind, a: CallArgs)
      modifies this`world
      ensures world == MoveValue(kind, current.address, a, old(world))
    {
      if a.value != 0 && kind.Call? {
        world := SubBalance(world, current.address, a.value).0;
        world := AddBalance(world, a.target, a.value).0;
      }
    }

    method Prepare(kind: CallKind) returns (setup: Setup)
      requires Valid()
      modifies this`world, current`gas, current`memory, current.stack`top
      ensures Valid()
      ensures var p := PrepareCall(kind, old(current.Value()), |callers.values|, old(world));
              && p == current.Outcome(setup, world)
              && (!p.Refused? ==> current.stack.top < current.stack.items.Length)
              && (p.Priced? ==> Inside(current.memory, p.args.retOffset, p.args.retSize))
    {
      PrepareKeeps(kind, current.Value(), callers.depth, world);
      setup, world := current.PrepareCall(kind, world);
    }

    /** What has happened, given the effect of the opcode: the state has moved on, or the frame has ended and
        the frame stack is still as it was. */
    ghost predicate Stands(signal: Signal, gas: nat, before: State, e: Effect)
      requires Valid()
      reads this, callers, callers.repr, current, current.stack, current.stack.items
    {
      if signal.Goes? then After(gas, before, e) == Running(State())
      else current.Effect(signal, world) == e && callers.values == before.parents && returnData == before.returnData
    }

    method Complete(kind: CallKind, setup: Setup, ghost gas: nat) returns (signal: Signal)
      requires Valid() && (!setup.Fails? ==> current.stack.top < current.stack.items.Length)
      requires setup.Ready? ==> Inside(current.memory, setup.args.retOffset, setup.args.retSize)
      modifies repr
      ensures Valid() && fresh(repr - old(repr)) && steps == old(steps)
      ensures Stands(signal, gas, old(State()), Conclude(kind, old(current.Outcome(setup, world)), |old(callers.values)|))
    {
      match setup {
        case Fails(status) => signal := Errs(status);
        case Exceeds => Decline(); signal := Goes;
        case Ready(a, childGas) => OpenFrame(kind, a, childGas, gas); signal := Goes;
      }
    }

    method MakeCall(kind: CallKind, ghost gas: nat) returns (signal: Signal)
      requires Valid()
      modifies repr
      ensures Valid() && fresh(repr - old(repr)) && steps == old(steps)
      ensures Stands(signal, gas, old(State()),
                     Machine.MakeCall(kind, old(current.Value()), |old(callers.values)|, old(world)))
    {
      var setup := Prepare(kind);
      ghost var s := State();
      signal := Complete(kind, setup, gas);
      SameStack(gas, s, old(State()), Machine.MakeCall(kind, old(current.Value()), |old(callers.values)|, old(world)));
    }

    // -------------------------------------------------------------------------
    // The frame loop
    // -------------------------------------------------------------------------

    method Opcode(ops: SimpleOps, op: byte, ghost gas: nat) returns (signal: Signal)
      requires Valid() && current.pc <= |current.code|
      modifies repr
      ensures Valid() && fresh(repr - old(repr)) && steps == old(steps)
      ensures Stands(signal, gas, old(State()),
                     Machine.Execute(ops, op, old(current.Value()), |old(callers.values)|, old(world)))
    {
      if IsCall(op) { signal := MakeCall(KindOf(op), gas); } else { signal := Perform(ops, op); }
    }

    /** Fetch the opcode at the program counter and carry it out; running off the end stops. */
    method Dispatch(ops: SimpleOps, ghost gas: nat) returns (signal: Signal)
      requires Valid()
      modifies repr
      ensures Valid() && fresh(repr - old(repr)) && steps == old(steps)
      ensures Stands(signal, gas, old(State()),
                     Machine.Dispatch(ops, old(current.Value()), |old(callers.values)|, old(world)))
    {
      if current.pc >= |current.code| {
        signal := Stops;
      } else {
        var op := current.code[current.pc];
        current.pc := current.pc + 1;
        ghost var s := State();
        signal := Opcode(ops, op, gas);
        SameStack(gas, s, old(State()), Machine.Dispatch(ops, old(current.Value()), |old(callers.values)|, old(world)));
      }
    }

    /** What the frame loop does with a frame that has ended. */
    method Leave(signal: Signal, gas: nat) returns (result: Option<Next>)
      requires Valid() && !signal.Goes?
      modifies repr
      ensures Valid() && fresh(repr - old(repr)) && steps == old(steps)
      ensures After(gas, old(State()), old(current.Effect(signal, world)))
           == if result.Some? then result.value else Running(State())
      ensures result.Some? ==> !result.value.Running?
    {
      match signal {
        case WritesPast => result := Some(Overrun(world));
        case Stops =>
          if current.depth == 0 {
            result := Some(Done(true, gas - current.gas, world.refund, returnData, world));
          } else {
            Resume(current.gas, 1, []);
            result := None;
          }
        case Returns(success, offset, size) =>
          var data := Slice(current.memory, offset, size);
          if current.depth == 0 {
            result := Some(Done(success, gas - current.gas, if success then world.refund else 0, data, world));
          } else {
            Resume(current.gas, if success then 1 else 0, data);
            result := None;
          }
        case Errs(_) =>
          if current.depth == 0 {
            result := Some(Done(false, gas, 0, [], world));
          } else {
            Resume(0, 0, []);
            result := None;
          }
      }
    }

    method Land(signal: Signal, gas: nat, ghost before: State, ghost e: Effect)
        returns (result: Option<Next>, ghost next: Next)
      requires Valid() && Stands(signal, gas, before, e)
      modifies repr
      ensures Valid() && fresh(repr - old(repr)) && steps == old(steps)
      ensures next == (if result.Some? then result.value else Running(State())) && next.Running? == result.None?
      ensures next == After(gas, before, e)
    {
      result := None;
      next := After(gas, before, e);
      if !signal.Goes? {
        SameStack(gas, State(), before, e);
        result := Leave(signal, gas);
      }
    }

    /** One opcode, and what it does to the frame stack. */
    method Step(gas: nat) returns (result: Option<Next>, ghost next: Next)
      requires Valid()
      modifies repr
      ensures Valid() && fresh(repr - old(repr)) && steps == old(steps) + 1
      ensures next == (if result.Some? then result.value else Running(State())) && next.Running? == result.None?
      ensures next == StepAt(oracle, old(steps), gas, old(State()))
    {
      var ops := oracle(steps, returnData);
      ghost var s, n := State(), steps;
      ghost var e := Machine.Dispatch(ops, current.Value(), |callers.values|, world);
      steps := steps + 1;
      var signal := Dispatch(ops, gas);
      result, next := Land(signal, gas, s, e);
      StepIs(oracle, n, gas, s, ops, e, next);
    }

    /** One turn of the loop: the run has ended, or what is left of it is lower in the loop's order. */
    method Turn(gas: nat) returns (result: Option<Next>)
      requires Valid()
      modifies repr
      ensures Valid() && fresh(repr - old(repr))
      ensures result.Some? ==> result.value == RunFrom(oracle, old(steps), gas, old(State()))
      ensures result.None? ==> RunFrom(oracle, steps, gas, State()) == RunFrom(oracle, old(steps), gas, old(State()))
      ensures result.None? ==> Lower(old(State()), State())
    {
      ghost var next;
      result, next := Step(gas);
      StepsDown(oracle, old(steps), gas, old(State()), next);
    }

    /** The frame loop halts, with the outcome of the transition system. */
    method Run(gas: nat) returns (r: Next)
      requires Valid()
      modifies repr
      ensures r == RunFrom(oracle, old(steps), gas, old(State()))
    {
      ghost var outcome := RunFrom(oracle, steps, gas, State());
      while true
        invariant Valid() && fresh(repr - old(repr)) && RunFrom(oracle, steps, gas, State()) == outcome
        decreases TotalGas(State()), |State().parents|, Remaining(State().frame)
      {
        var result := Turn(gas);
        if result.Some? { return result.value; }
      }
    }

    /** Run a root frame from an empty stack of callers. Gas used lies within the gas given, the supply is
        kept, and the refund counter ends equal to what the written slots are worth. */
    method Execute(start: Frame, w: World) returns (r: Next)
      requires Owns() && callers.Valid() && callers.values == []
      requires start.stack == [] && start.capacity == INITIAL_CAPACITY
      modifies repr
      ensures r == RunFrom(oracle, 0, start.gas, Machine.State(start, [], [], w))
      ensures r.Done? ==> 0 <= r.gasUsed <= start.gas
      ensures Supply(w) < TWO_256 ==> Supply(r.world) == Supply(w)
      ensures RefundsBalance(w) ==> RefundsBalance(r.world)
    {
      rented, steps, returnData, world := 0, 0, [], w;
      Rent(start);
      r := Run(start.gas);
      RunOutcome(oracle, start, w);
    }
  }

  lemma StepIs(oracle: Oracle, n: nat, gas: nat, s: State, ops: SimpleOps, e: Effect, next: Next)
    requires ops == oracle(n, s.returnData) && e == Dispatch(ops, s.frame, |s.parents|, s.world)
    requires next == After(gas, s, e)
    ensures next == StepAt(oracle, n, gas, s)
  {}

  /** A step either ends the run or leads on to a state lower in the order of the loop. */
  lemma StepsDown(oracle: Oracle, n: nat, gas: nat, s: State, next: Next)
    requires next == StepAt(oracle, n, gas, s)
    ensures !next.Running? ==> RunFrom(oracle, n, gas, s) == next
    ensures next.Running? ==> RunFrom(oracle, n, gas, s) == RunFrom(oracle, n + 1, gas, next.state)
    ensures next.Running? ==> Lower(s, next.state)
  {
    if next.Running? { StepLowers(oracle(n, s.returnData), gas, s); }
  }

  lemma RunOutcome(oracle: Oracle, start: Frame, w: World)
    ensures var r := RunFrom(oracle, 0, start.gas, Machine.State(start, [], [], w));
            && (r.Done? ==> 0 <= r.gasUsed <= start.gas)
            && (Supply(w) < TWO_256 ==> Supply(r.world) == Supply(w))
            && (RefundsBalance(w) ==> RefundsBalance(r.world))
  {
    var s := Machine.State(start, [], [], w);
    GasBounded(oracle, 0, start.gas, s);
    if Supply(w) < TWO_256 { RunConserves(oracle, 0, start.gas, s); }
    if RefundsBalance(w) { RunKeepsRefunds(oracle, 0, start.gas, s); }
  }

  /** What an effect does to the frame stack depends on the callers and the return buffer alone. */
  lemma SameStack(gas: nat, s: State, t: State, e: Effect)
    requires s.parents == t.parents && s.returnData == t.returnData
    ensures After(gas, s, e) == After(gas, t, e)
  {}
}
