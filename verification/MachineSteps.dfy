/** What every opcode keeps: gas, the flow of control, static frames, the supply and the refunds. */
module MachineSteps {
  import opened Bytes
  import opened World
  import opened Machine
  import Jumpdest

  // ---------------------------------------------------------------------------
  // Preparing a call
  // ---------------------------------------------------------------------------

  /** Nothing an observer could read back has changed; what is warm may have. */
  predicate SameLedger(w: World, v: World) {
    && w.balances == v.balances && w.nonces == v.nonces && w.codes == v.codes && w.storage == v.storage
    && w.original == v.original && w.logs == v.logs && w.refund == v.refund && w.settled == v.settled
  }

  /** What preparing a call may do to a frame and the world: pop, pay, widen memory over the window for the
      answer, and warm the target. With its stipend the child gets at least 100 less than was taken. */
  ghost predicate WellPrepared(f: Frame, w: World, p: Prepared) {
    && SameLedger(w, p.world) && p.world.warmSlots == w.warmSlots
    && (!p.Refused? ==> && p.frame.pc == f.pc && p.frame.code == f.code && p.frame.isStatic == f.isStatic
                        && p.frame.capacity == f.capacity && |p.frame.stack| < |f.stack|)
    && (p.TooDeep? ==> p.frame.gas == f.gas)
    && (p.Priced? ==> && p.frame.gas + p.childGas + GAS_WARM_ACCESS <= f.gas
                      && (f.isStatic ==> p.args.value == 0)
                      && Inside(p.frame.memory, p.args.retOffset, p.args.retSize))
  }

  /** The same for a call whose arguments have been popped. */
  ghost predicate Charged(f: Frame, a: CallArgs, w: World, p: Prepared) {
    && SameLedger(w, p.world) && p.world.warmSlots == w.warmSlots && !p.TooDeep?
    && (p.Priced? ==> && p.args == a && p.frame.gas + p.childGas + GAS_WARM_ACCESS <= f.gas
                      && p.frame == f.(gas := p.frame.gas, memory := p.frame.memory)
                      && Inside(p.frame.memory, a.retOffset, a.retSize))
  }

  lemma PayKeeps(kind: CallKind, f: Frame, a: CallArgs, w: World)
    requires CallWords(a).Some?
    ensures Charged(f, a, w, PayCall(kind, f, a, CallWords(a).value, w))
  {
    RegionInside(f.memory, a.retOffset, a.retSize, CallWords(a).value);
  }

  lemma ChargeKeeps(kind: CallKind, f: Frame, a: CallArgs, w: World)
    ensures var p := ChargeCall(kind, f, a, w);
            Charged(f, a, w, p) && (p.Priced? && f.isStatic ==> a.value == 0)
  {
    if CallWords(a).Some? { PayKeeps(kind, f, a, w); }
  }

  lemma PrepareKeeps(kind: CallKind, f: Frame, depth: nat, w: World)
    ensures WellPrepared(f, w, PrepareCall(kind, f, depth, w))
  {
    if |f.stack| >= ArgCount(kind) {
      ChargeKeeps(kind, f.(stack := Drop(f.stack, ArgCount(kind))), PopArgs(kind, f.stack), w);
    }
  }

  // ---------------------------------------------------------------------------
  // Gas and progress
  // ---------------------------------------------------------------------------

  /** The gas still in play after an effect. */
  function EffectGas(e: Effect): nat {
    match e
    case Continue(f, _) => f.gas
    case Enter(f, child, _) => f.gas + child.gas
    case Finish(_, f, _, _) => f.gas
    case Fail(_, _) => 0
    case Overruns(_) => 0
  }

  /** No opcode creates gas; opening a frame costs at least 100, stipend included; and an opcode that
      costs nothing moves the program counter forward. */
  ghost predicate Meters(f: Frame, e: Effect) {
    && EffectGas(e) <= f.gas
    && (e.Enter? ==> EffectGas(e) + GAS_WARM_ACCESS <= f.gas)
    && (e.Continue? ==> e.frame.gas < f.gas || e.frame.pc >= f.pc)
  }

  lemma LocalMeters(ops: SimpleOps, op: byte, f: Frame, w: World)
    requires f.pc <= |f.code| && op < 0xA0
    ensures Meters(f, Local(ops, op, f, w))
  {}

  lemma CallMeters(kind: CallKind, f: Frame, depth: nat, w: World)
    ensures Meters(f, MakeCall(kind, f, depth, w))
  {
    PrepareKeeps(kind, f, depth, w);
  }

  lemma OpcodeMeters(ops: SimpleOps, op: byte, f: Frame, depth: nat, w: World)
    requires f.pc <= |f.code|
    ensures Meters(f, Execute(ops, op, f, depth, w))
  {
    if op < 0xA0 { LocalMeters(ops, op, f, w); }
    else if op == 0xF1 { CallMeters(Call, f, depth, w); }
    else if op == 0xF2 { CallMeters(CallCode, f, depth, w); }
    else if op == 0xF4 { CallMeters(DelegateCall, f, depth, w); }
    else if op == 0xFA { CallMeters(StaticCall, f, depth, w); }
  }

  // ---------------------------------------------------------------------------
  // Flow of control
  // ---------------------------------------------------------------------------

  /** Where an opcode may leave the program counter: just after its own immediate data, or at a
      destination. The code of the frame does not change and a new frame starts at zero. */
  ghost predicate Flows(op: byte, f: Frame, e: Effect) {
    && (e.Continue? || e.Enter? ==> e.frame.code == f.code)
    && (e.Continue? ==> e.frame.pc == f.pc + Jumpdest.PushSize(op) || Jumpdest.IsJumpdest(f.code, e.frame.pc))
    && (e.Enter? ==> e.frame.pc == f.pc + Jumpdest.PushSize(op) && e.child.pc == 0)
  }

  lemma LocalFlows(ops: SimpleOps, op: byte, f: Frame, w: World)
    requires f.pc <= |f.code| && op < 0xA0
    ensures Flows(op, f, Local(ops, op, f, w))
  {}

  lemma CallFlows(kind: CallKind, f: Frame, depth: nat, w: World)
    ensures var e := MakeCall(kind, f, depth, w);
            && (e.Continue? || e.Enter? ==> e.frame.code == f.code && e.frame.pc == f.pc)
            && (e.Enter? ==> e.child.pc == 0)
  {
    PrepareKeeps(kind, f, depth, w);
  }

  lemma OpcodeFlows(ops: SimpleOps, op: byte, f: Frame, depth: nat, w: World)
    requires f.pc <= |f.code|
    ensures Flows(op, f, Execute(ops, op, f, depth, w))
  {
    if op < 0xA0 { LocalFlows(ops, op, f, w); }
    else if op == 0xF1 { CallFlows(Call, f, depth, w); }
    else if op == 0xF2 { CallFlows(CallCode, f, depth, w); }
    else if op == 0xF4 { CallFlows(DelegateCall, f, depth, w); }
    else if op == 0xFA { CallFlows(StaticCall, f, depth, w); }
  }

  // ---------------------------------------------------------------------------
  // Static frames
  // ---------------------------------------------------------------------------

  ghost predicate Isolates(f: Frame, w: World, e: Effect) {
    && (f.isStatic ==> SameLedger(w, e.world))
    && (e.Continue? || e.Enter? ==> e.frame.isStatic == f.isStatic)
    && (e.Enter? && f.isStatic ==> e.child.isStatic)
  }

  ghost predicate Quiet(f: Frame, w: World, e: Effect) {
    SameLedger(w, e.world) && !e.Enter? && (e.Continue? ==> e.frame.isStatic == f.isStatic)
  }

  lemma SimpleIsQuiet(ops: SimpleOps, op: byte, f: Frame, w: World)
    ensures Quiet(f, w, SimpleOp(ops, op, f, w))
  {}

  lemma LoadIsQuiet(f: Frame, w: World)
    ensures Quiet(f, w, SLoad(f, w))
  {}

  lemma JumpIsQuiet(f: Frame, w: World)
    ensures Quiet(f, w, Jump(f, w)) && Quiet(f, w, JumpIf(f, w)) && Quiet(f, w, MarkJump(f, w))
  {}

  /** Opcodes below 0xA0 other than SSTORE leave the ledger alone in every frame. */
  lemma LocalIsQuiet(ops: SimpleOps, op: byte, f: Frame, w: World)
    requires f.pc <= |f.code| && op < 0xA0
    ensures Quiet(f, w, Local(ops, op, f, w))
  {
    if IsSimple(op) { SimpleIsQuiet(ops, op, f, w); }
    else if op == 0x54 { LoadIsQuiet(f, w); }
    else if op == 0x56 || op == 0x57 || op == 0x5B { JumpIsQuiet(f, w); }
  }

  predicate SameButBalances(w: World, v: World) {
    && w.nonces == v.nonces && w.codes == v.codes && w.storage == v.storage && w.original == v.original
    && w.logs == v.logs && w.refund == v.refund && w.settled == v.settled && w.warmSlots == v.warmSlots
  }

  lemma ValueMoves(kind: CallKind, sender: Address, a: CallArgs, w: World)
    ensures var v := MoveValue(kind, sender, a, w);
            SameButBalances(w, v) && (a.value == 0 || !kind.Call? ==> w.balances == v.balances)
  {}

  /** All that a call may change of the ledger is balances, and only by CALL with a value. */
  lemma OpenMoves(kind: CallKind, f: Frame, a: CallArgs, childGas: nat, depth: nat, w: World)
    ensures var e := Open(kind, f, a, childGas, depth, w);
            && SameButBalances(w, e.world)
            && (a.value == 0 || !kind.Call? ==> w.balances == e.world.balances)
            && (e.Continue? || e.Enter? ==> e.frame.isStatic == f.isStatic)
            && (e.Enter? ==> e.child.isStatic == (f.isStatic || kind.StaticCall?))
  {
    ValueMoves(kind, f.address, a, w);
  }

  lemma CallIsolates(kind: CallKind, f: Frame, depth: nat, w: World)
    ensures var e := MakeCall(kind, f, depth, w);
            && Isolates(f, w, e) && SameButBalances(w, e.world)
            && (e.Enter? && kind.StaticCall? ==> e.child.isStatic)
  {
    PrepareKeeps(kind, f, depth, w);
    var p := PrepareCall(kind, f, depth, w);
    if p.Priced? { OpenMoves(kind, p.frame, p.args, p.childGas, depth, p.world); }
  }

  lemma OpcodeIsolates(ops: SimpleOps, op: byte, f: Frame, depth: nat, w: World)
    requires f.pc <= |f.code|
    ensures Isolates(f, w, Execute(ops, op, f, depth, w))
    ensures op == 0xFA && Execute(ops, op, f, depth, w).Enter? ==> Execute(ops, op, f, depth, w).child.isStatic
  {
    if op < 0xA0 { LocalIsQuiet(ops, op, f, w); }
    else if op == 0xF1 { CallIsolates(Call, f, depth, w); }
    else if op == 0xF2 { CallIsolates(CallCode, f, depth, w); }
    else if op == 0xF4 { CallIsolates(DelegateCall, f, depth, w); }
    else if op == 0xFA { CallIsolates(StaticCall, f, depth, w); }
  }

  // ---------------------------------------------------------------------------
  // Supply and refunds
  // ---------------------------------------------------------------------------

  lemma TransferKeepsSupply(w: World, sender: Address, recipient: Address, amount: nat)
    requires Supply(w) < TWO_256 && amount <= Balance(w, sender)
    ensures Supply(AddBalance(SubBalance(w, sender, amount).0, recipient, amount).0) == Supply(w)
  {
    SupplyAfterSub(w, sender, amount);
    SupplyAfterSet(w, sender, 0);
    SupplyAfterAdd(SubBalance(w, sender, amount).0, recipient, amount);
  }

  lemma CallConserves(kind: CallKind, f: Frame, depth: nat, w: World)
    requires Supply(w) < TWO_256
    ensures Supply(MakeCall(kind, f, depth, w).world) == Supply(w)
  {
    PrepareKeeps(kind, f, depth, w);
    var p := PrepareCall(kind, f, depth, w);
    if p.Priced? && p.args.value <= Balance(p.world, p.frame.address) {
      TransferKeepsSupply(p.world, p.frame.address, p.args.target, p.args.value);
    }
  }

  /** Opcodes move ether and never make or burn it. */
  lemma OpcodeConserves(ops: SimpleOps, op: byte, f: Frame, depth: nat, w: World)
    requires f.pc <= |f.code| && Supply(w) < TWO_256
    ensures Supply(Execute(ops, op, f, depth, w).world) == Supply(w)
  {
    if op < 0xA0 { LocalIsQuiet(ops, op, f, w); }
    else if op == 0xF1 { CallConserves(Call, f, depth, w); }
    else if op == 0xF2 { CallConserves(CallCode, f, depth, w); }
    else if op == 0xF4 { CallConserves(DelegateCall, f, depth, w); }
    else if op == 0xFA { CallConserves(StaticCall, f, depth, w); }
  }

  lemma SameSlotsSameRefunds(w: World, v: World)
    requires RefundsBalance(w) && v.original == w.original && v.storage == w.storage
    requires v.refund == w.refund && v.settled == w.settled
    ensures RefundsBalance(v)
  {
    assert PendingRefunds(v) == PendingRefunds(w);
  }

  lemma SStoreKeepsRefunds(f: Frame, w: World)
    requires RefundsBalance(w)
    ensures RefundsBalance(SStore(f, w).world)
  {
    if |f.stack| >= 2 {
      var k := (f.address, Peek(f.stack, 0));
      var warmed := WarmSlot(w, k);
      SameSlotsSameRefunds(w, warmed);
      StoreKeepsRefunds(warmed, k, Peek(f.stack, 1));
    }
  }

  /** The slots of the world are as they were. */
  predicate SameSlots(w: World, v: World) {
    && v.warmSlots == w.warmSlots && v.original == w.original && v.storage == w.storage
    && v.refund == w.refund && v.settled == w.settled
  }

  lemma SimpleKeepsSlots(ops: SimpleOps, op: byte, f: Frame, w: World)
    ensures SameSlots(w, SimpleOp(ops, op, f, w).world)
  {}

  lemma LocalKeepsSlots(ops: SimpleOps, op: byte, f: Frame, w: World)
    requires f.pc <= |f.code| && op < 0xA0 && op != 0x54
    ensures SameSlots(w, Local(ops, op, f, w).world)
  {
    if IsSimple(op) { SimpleKeepsSlots(ops, op, f, w); }
  }

  /** Only SLOAD and SSTORE touch slots. */
  lemma OthersKeepSlots(ops: SimpleOps, op: byte, f: Frame, depth: nat, w: World)
    requires f.pc <= |f.code| && op != 0x54 && op != 0x55
    ensures SameSlots(w, Execute(ops, op, f, depth, w).world)
  {
    if op < 0xA0 { LocalKeepsSlots(ops, op, f, w); }
    else if op == 0xF1 { CallIsolates(Call, f, depth, w); }
    else if op == 0xF2 { CallIsolates(CallCode, f, depth, w); }
    else if op == 0xF4 { CallIsolates(DelegateCall, f, depth, w); }
    else if op == 0xFA { CallIsolates(StaticCall, f, depth, w); }
  }

  /** Every opcode keeps the refund counter equal to what the slots are worth. */
  lemma OpcodeKeepsRefunds(ops: SimpleOps, op: byte, f: Frame, depth: nat, w: World)
    requires f.pc <= |f.code| && RefundsBalance(w)
    ensures RefundsBalance(Execute(ops, op, f, depth, w).world)
  {
    if op == 0x55 {
      SStoreKeepsRefunds(f, w);
    } else {
      if op == 0x54 { LoadIsQuiet(f, w); } else { OthersKeepSlots(ops, op, f, depth, w); }
      SameSlotsSameRefunds(w, Execute(ops, op, f, depth, w).world);
    }
  }

  // ---------------------------------------------------------------------------
  // Bounds of stack and memory
  // ---------------------------------------------------------------------------

  /** The capacities an operand stack can have. */
  predicate IsCapacity(c: nat) {
    c == 32 || c == 64 || c == 128 || c == 256 || c == 512 || c == MAX_STACK
  }

  /** The stack is inside its array. */
  predicate Roomy(f: Frame) {
    |f.stack| <= f.capacity && IsCapacity(f.capacity)
  }

  /** A frame waiting for a call: its array has room for the flag, and its memory for the answer. */
  predicate Ready(f: Frame) {
    Roomy(f) && |f.stack| < f.capacity && Inside(f.memory, f.retOffset, f.retSize)
  }

  /** Making room succeeds within the depth limit. */
  lemma WidenedFits(c: nat, size: nat)
    requires IsCapacity(c) && size <= MAX_STACK
    ensures IsCapacity(Widened(c, size)) && c <= Widened(c, size) && size <= Widened(c, size)
    decreases MAX_STACK - c
  {
    if size > c { WidenedFits(Doubled(c), size); }
  }

  ghost predicate Bounded(e: Effect) {
    && (e.Continue? ==> Roomy(e.frame))
    && (e.Enter? ==> Ready(e.frame) && Roomy(e.child) && e.child.stack == [])
  }

  lemma OpenBounded(kind: CallKind, f: Frame, a: CallArgs, childGas: nat, depth: nat, w: World)
    requires Roomy(f) && |f.stack| < f.capacity && Inside(f.memory, a.retOffset, a.retSize)
    ensures Bounded(Open(kind, f, a, childGas, depth, w))
  {}

  lemma ConcludeBounded(kind: CallKind, p: Prepared, depth: nat)
    requires !p.Refused? ==> Roomy(p.frame) && |p.frame.stack| < p.frame.capacity
    requires p.Priced? ==> Inside(p.frame.memory, p.args.retOffset, p.args.retSize)
    ensures Bounded(Conclude(kind, p, depth))
  {
    if p.Priced? { OpenBounded(kind, p.frame, p.args, p.childGas, depth, p.world); }
  }

  lemma CallBounded(kind: CallKind, f: Frame, depth: nat, w: World)
    requires Roomy(f)
    ensures Bounded(MakeCall(kind, f, depth, w))
  {
    PrepareKeeps(kind, f, depth, w);
    ConcludeBounded(kind, PrepareCall(kind, f, depth, w), depth);
  }

  lemma SimpleBounded(ops: SimpleOps, op: byte, f: Frame, w: World)
    requires Roomy(f)
    ensures Bounded(SimpleOp(ops, op, f, w))
  {
    var r := ops(op, f, w);
    if r.Computes? && r.pops <= |f.stack| {
      var size := |f.stack| - r.pops + |r.pushes|;
      if size <= MAX_STACK { WidenedFits(f.capacity, size); }
    }
  }

  lemma PushBounded(f: Frame, w: World, n: nat)
    requires f.pc <= |f.code| && Roomy(f)
    ensures Bounded(Push(f, w, n))
  {
    if |f.stack| < MAX_STACK { WidenedFits(f.capacity, |f.stack| + 1); }
  }

  lemma LoadBounded(f: Frame, w: World)
    requires Roomy(f)
    ensures Bounded(SLoad(f, w))
  {}

  lemma JumpBounded(f: Frame, w: World)
    requires Roomy(f)
    ensures Bounded(Jump(f, w)) && Bounded(JumpIf(f, w)) && Bounded(MarkJump(f, w))
  {}

  lemma LocalBounded(ops: SimpleOps, op: byte, f: Frame, w: World)
    requires f.pc <= |f.code| && op < 0xA0 && Roomy(f)
    ensures Bounded(Local(ops, op, f, w))
  {
    if IsSimple(op) { SimpleBounded(ops, op, f, w); }
    else if op == 0x54 { LoadBounded(f, w); }
    else if op == 0x56 || op == 0x57 || op == 0x5B { JumpBounded(f, w); }
    else if 0x60 <= op <= 0x7F { PushBounded(f, w, op - 0x5F); }
  }

  /** Every opcode that goes on has written inside the array, and a call leaves room for its flag and its
      answer. */
  lemma OpcodeBounded(ops: SimpleOps, op: byte, f: Frame, depth: nat, w: World)
    requires f.pc <= |f.code| && Roomy(f)
    ensures Bounded(Execute(ops, op, f, depth, w))
  {
    if op < 0xA0 { LocalBounded(ops, op, f, w); }
    else if op == 0xF1 { CallBounded(Call, f, depth, w); }
    else if op == 0xF2 { CallBounded(CallCode, f, depth, w); }
    else if op == 0xF4 { CallBounded(DelegateCall, f, depth, w); }
    else if op == 0xFA { CallBounded(StaticCall, f, depth, w); }
  }

  /** A DUP that passes its own checks on a full array. */
  predicate DupsWhenFull(op: byte, f: Frame) {
    0x80 <= op <= 0x8F && op - 0x7F <= |f.stack| < MAX_STACK && f.gas >= GAS_DUP && |f.stack| >= f.capacity
  }

  /** DUP on a full array is the one way to write past the end of an operand stack, and there are five
      depths at which it can happen. */
  lemma OverrunsIffDup(ops: SimpleOps, op: byte, f: Frame, depth: nat, w: World)
    requires f.pc <= |f.code| && Roomy(f)
    ensures Execute(ops, op, f, depth, w).Overruns? <==> DupsWhenFull(op, f)
    ensures DupsWhenFull(op, f) ==> |f.stack| in {32, 64, 128, 256, 512}
  {}

  /** A frame is opened only while the pool has one to give. */
  lemma EnterDepth(ops: SimpleOps, op: byte, f: Frame, depth: nat, w: World)
    requires f.pc <= |f.code|
    ensures Execute(ops, op, f, depth, w).Enter? ==> depth + 1 < FRAME_POOL_SIZE
  {
    if op < 0xA0 { LocalIsQuiet(ops, op, f, w); }
  }
}
