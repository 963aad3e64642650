/** The interpreter as a transition system: one opcode of the current frame at a time, with the frame
    stack of nested calls. Opcodes that only compute on the stack, the memory or the environment are a
    parameter: the results below hold whatever they compute and charge.

    Operand stacks have the depth limit of the protocol and, like the arrays of the source, a capacity
    that is doubled on demand. DUP does not ask for room before it writes; where that would be past the
    end of the array the source has no meaning and the machine stops as `Overrun`. */
module Machine {
  import opened Arith
  import opened Bytes
  import opened World
  import Metering
  import Jumpdest

  const MAX_CALL_DEPTH := 1024
  const FRAME_POOL_SIZE := 1024
  const MAX_STACK := 1024
  const INITIAL_CAPACITY := 32
  const TWO_32: int := 0x1_0000_0000
  const MEMORY_LIMIT := 0x20_0000_0000

  const GAS_COLD_ACCOUNT := 2600
  const GAS_WARM_ACCESS := 100
  const GAS_CALL_STIPEND := 2300
  const GAS_CALL_VALUE := 9000
  const GAS_NEW_ACCOUNT := 25000
  const GAS_PUSH := 3
  const GAS_DUP := 3
  const GAS_JUMP := 8
  const GAS_JUMPI := 10
  const GAS_JUMPDEST := 1
  const GAS_LOG := 375
  const GAS_LOG_TOPIC := 375
  const GAS_LOG_DATA := 8

  datatype Status = StackUnderflow | StackOverflow | OutOfGas | InvalidJump | InvalidOpcode | WriteProtection

  /** A call frame. The top of the stack comes last; `retOffset` and `retSize` say where in memory the
      frame wants the data its current call returns. */
  datatype Frame = Frame(
    pc: nat,
    gas: nat,
    stack: seq<nat>,
    capacity: nat,
    memory: Bytes,
    code: Bytes,
    isStatic: bool,
    caller: Address,
    address: Address,
    value: nat,
    input: Bytes,
    retOffset: nat,
    retSize: nat)

  /** The frame being executed, the callers waiting below it, what the last call returned, and the
      world. */
  datatype State = State(frame: Frame, parents: seq<Frame>, returnData: Bytes, world: World)

  /** What an opcode makes of its frame. */
  datatype Effect =
    | Continue(frame: Frame, world: World)
    | Enter(frame: Frame, child: Frame, world: World)
    | Finish(success: bool, frame: Frame, output: Option<Bytes>, world: World)
    | Fail(status: Status, world: World)
    | Overruns(world: World)

  // ---------------------------------------------------------------------------
  // The operand stack
  // ---------------------------------------------------------------------------

  /** The item `i` below the top. */
  function Peek(stack: seq<nat>, i: nat): nat
    requires i < |stack|
  {
    stack[|stack| - 1 - i]
  }

  function Drop(stack: seq<nat>, n: nat): seq<nat>
    requires n <= |stack|
  {
    stack[..|stack| - n]
  }

  /** Doubling, up to the depth limit. */
  function Doubled(capacity: nat): nat {
    if capacity >= MAX_STACK / 2 then MAX_STACK else 2 * capacity
  }

  /** The capacity after making room for `size` items. */
  function Widened(capacity: nat, size: nat): nat
    decreases MAX_STACK - capacity
  {
    if size <= capacity || capacity == 0 || capacity >= MAX_STACK then capacity else Widened(Doubled(capacity), size)
  }

  // ---------------------------------------------------------------------------
  // Simple opcodes
  // ---------------------------------------------------------------------------

  /** The outcome of an opcode that touches neither storage nor balances nor the flow of control.
      Addresses are warmed before anything is charged. */
  datatype Simple =
    | Refuses(status: Status, touched: set<Address>)
    | Computes(cost: nat, pops: nat, pushes: seq<nat>, memory: Bytes, touched: set<Address>)

  type SimpleOps = (byte, Frame, World) -> Simple

  predicate IsSimple(op: byte) {
    || 0x01 <= op <= 0x0B || 0x10 <= op <= 0x1D || op == 0x20 || 0x30 <= op <= 0x3F || 0x40 <= op <= 0x4A
    || 0x50 <= op <= 0x53 || 0x58 <= op <= 0x5A || op == 0x5F || 0x90 <= op <= 0x9F
  }

  function Max(a: nat, b: nat): nat {
    if a < b then b else a
  }

  function Touched(w: World, addresses: set<Address>): World {
    w.(warmAddresses := w.warmAddresses + addresses)
  }

  /** Room is asked for only by opcodes that push more than they pop. */
  function SimpleOp(ops: SimpleOps, op: byte, f: Frame, w: World): Effect {
    match ops(op, f, w)
    case Refuses(status, touched) => Fail(status, Touched(w, touched))
    case Computes(cost, pops, pushes, memory, touched) =>
      var size := |f.stack| - pops + |pushes|;
      if |f.stack| < pops then Fail(StackUnderflow, w)
      else if size > MAX_STACK then Fail(StackOverflow, Touched(w, touched))
      else if f.gas < cost then Fail(OutOfGas, Touched(w, touched))
      else Continue(f.(gas := f.gas - cost, stack := Drop(f.stack, pops) + pushes, memory := memory,
                       capacity := if |pushes| > pops then Widened(f.capacity, size) else f.capacity),
                    Touched(w, touched))
  }

  // ---------------------------------------------------------------------------
  // Control flow
  // ---------------------------------------------------------------------------

  function JumpTo(f: Frame, w: World, dest: nat): Effect {
    if dest >= TWO_64 || !Jumpdest.IsJumpdest(f.code, dest) then Fail(InvalidJump, w)
    else Continue(f.(pc := dest), w)
  }

  function Jump(f: Frame, w: World): Effect {
    if |f.stack| < 1 then Fail(StackUnderflow, w)
    else if f.gas < GAS_JUMP then Fail(OutOfGas, w)
    else JumpTo(f.(gas := f.gas - GAS_JUMP, stack := Drop(f.stack, 1)), w, Peek(f.stack, 0))
  }

  function JumpIf(f: Frame, w: World): Effect {
    if |f.stack| < 2 then Fail(StackUnderflow, w)
    else if f.gas < GAS_JUMPI then Fail(OutOfGas, w)
    else
      var g := f.(gas := f.gas - GAS_JUMPI, stack := Drop(f.stack, 2));
      if Peek(f.stack, 1) == 0 then Continue(g, w) else JumpTo(g, w, Peek(f.stack, 0))
  }

  function MarkJump(f: Frame, w: World): Effect {
    if f.gas < GAS_JUMPDEST then Fail(OutOfGas, w) else Continue(f.(gas := f.gas - GAS_JUMPDEST), w)
  }

  /** The immediate bytes that are still inside the code. */
  function Immediate(f: Frame, n: nat): nat
    requires f.pc <= |f.code|
  {
    FromBigEndian(f.code[f.pc..if n < |f.code| - f.pc then f.pc + n else |f.code|])
  }

  function Push(f: Frame, w: World, n: nat): Effect
    requires f.pc <= |f.code|
  {
    if f.gas < GAS_PUSH then Fail(OutOfGas, w)
    else if |f.stack| >= MAX_STACK then Fail(StackOverflow, w)
    else Continue(f.(gas := f.gas - GAS_PUSH, pc := f.pc + n, stack := f.stack + [Immediate(f, n)],
                     capacity := Widened(f.capacity, |f.stack| + 1)), w)
  }

  /** DUP checks the depth limit and not the capacity. */
  function Dup(f: Frame, w: World, n: nat): Effect
    requires n > 0
  {
    if |f.stack| < n then Fail(StackUnderflow, w)
    else if |f.stack| >= MAX_STACK then Fail(StackOverflow, w)
    else if f.gas < GAS_DUP then Fail(OutOfGas, w)
    else if |f.stack| >= f.capacity then Overruns(w)
    else Continue(f.(gas := f.gas - GAS_DUP, stack := f.stack + [Peek(f.stack, n - 1)]), w)
  }

  // ---------------------------------------------------------------------------
  // Memory
  // ---------------------------------------------------------------------------

  /** The words needed to reach the end of a region; none for an empty one, no answer past the
      limit. */
  function RegionWords(offset: nat, size: nat): Option<nat> {
    if size == 0 then Some(0)
    else if offset + size >= MEMORY_LIMIT then None
    else Some((offset + size + 31) / 32)
  }

  function MemoryCost(words: nat): nat {
    3 * words + words * words / 512
  }

  function ExpansionCost(current: nat, wanted: nat): (cost: nat) {
    if wanted <= current then 0
    else
      MemoryCostGrows(current, wanted);
      MemoryCost(wanted) - MemoryCost(current)
  }

  lemma MemoryCostGrows(a: nat, b: nat)
    requires a <= b
    ensures MemoryCost(a) <= MemoryCost(b)
  {
    MulLe(a, b, a);
    MulLe(a, b, b);
  }

  function Zeros(n: nat): Bytes {
    seq(n, _ => 0)
  }

  /** Memory is zero-filled up to the words wanted, and never shrinks. */
  function Expanded(memory: Bytes, words: nat): Bytes {
    if |memory| < 32 * words then memory + Zeros(32 * words - |memory|) else memory
  }

  /** The price of having `words` words. */
  function Growth(memory: Bytes, words: nat): nat {
    ExpansionCost(|memory| / 32, words)
  }

  predicate Inside(memory: Bytes, offset: nat, size: nat) {
    size == 0 || offset + size <= |memory|
  }

  function Slice(memory: Bytes, offset: nat, size: nat): Bytes {
    if size > 0 && Inside(memory, offset, size) then memory[offset..offset + size] else []
  }

  function Overwrite(memory: Bytes, offset: nat, data: Bytes): Bytes {
    if |data| > 0 && Inside(memory, offset, |data|) then memory[..offset] + data + memory[offset + |data|..]
    else memory
  }

  /** Once memory covers a region, the region is inside. */
  lemma RegionInside(memory: Bytes, offset: nat, size: nat, words: nat)
    requires RegionWords(offset, size).Some? && RegionWords(offset, size).value <= words
    ensures Inside(Expanded(memory, words), offset, size)
  {}

  /** RETURN and REVERT: pay for the memory handed back. */
  function Leave(f: Frame, w: World, success: bool): Effect {
    if |f.stack| < 2 then Fail(StackUnderflow, w)
    else
      var offset, size := Peek(f.stack, 0), Peek(f.stack, 1);
      if offset >= TWO_64 || size >= TWO_64 then Fail(OutOfGas, w)
      else
        var region := RegionWords(offset, size);
        if region.None? || f.gas < Growth(f.memory, region.value) then Fail(OutOfGas, w)
        else
          var memory := Expanded(f.memory, region.value);
          Finish(success, f.(gas := f.gas - Growth(f.memory, region.value), stack := Drop(f.stack, 2),
                             memory := memory), Some(Slice(memory, offset, size)), w)
  }

  // ---------------------------------------------------------------------------
  // Storage and logs
  // ---------------------------------------------------------------------------

  function SLoad(f: Frame, w: World): Effect {
    if |f.stack| < 1 then Fail(StackUnderflow, w)
    else
      var k := (f.address, Peek(f.stack, 0));
      var cost := Metering.LoadCost(k !in w.warmSlots);
      if f.gas < cost then Fail(OutOfGas, WarmSlot(w, k))
      else Continue(f.(gas := f.gas - cost, stack := Drop(f.stack, 1) + [Stored(w, k)]), WarmSlot(w, k))
  }

  function SStore(f: Frame, w: World): Effect {
    if f.isStatic then Fail(WriteProtection, w)
    else if |f.stack| < 2 then Fail(StackUnderflow, w)
    else StoreAt(f.(stack := Drop(f.stack, 2)), w, (f.address, Peek(f.stack, 0)), Peek(f.stack, 1))
  }

  function StoreAt(f: Frame, w: World, k: SlotKey, value: nat): Effect {
    var cost := Metering.StoreCost(k !in w.warmSlots, Stored(w, k), Original(w, k), value);
    if f.gas <= Metering.SSTORE_MIN_GAS || f.gas < cost then Fail(OutOfGas, WarmSlot(w, k))
    else Continue(f.(gas := f.gas - cost), StoreWithRefund(WarmSlot(w, k), k, value))
  }

  function Topics(stack: seq<nat>, n: nat): seq<nat>
    requires |stack| >= 2 + n
  {
    seq(n, i requires 0 <= i < n => Peek(stack, 2 + i))
  }

  function WriteLog(f: Frame, w: World, topics: nat): Effect {
    if |f.stack| < 2 + topics then Fail(StackUnderflow, w)
    else if f.isStatic then Fail(WriteProtection, w)
    else LogAt(f.(stack := Drop(f.stack, 2 + topics)), w, Topics(f.stack, topics), Peek(f.stack, 0), Peek(f.stack, 1))
  }

  function LogCost(topics: nat, size: nat): nat {
    GAS_LOG + GAS_LOG_TOPIC * topics + GAS_LOG_DATA * size
  }

  function LogAt(f: Frame, w: World, topics: seq<nat>, offset: nat, size: nat): Effect {
    if offset >= TWO_64 || size >= TWO_64 then Fail(OutOfGas, w)
    else
      var region := RegionWords(offset, size);
      if region.None? || f.gas < LogCost(|topics|, size) + Growth(f.memory, region.value) then Fail(OutOfGas, w)
      else
        var memory := Expanded(f.memory, region.value);
        Continue(f.(gas := f.gas - LogCost(|topics|, size) - Growth(f.memory, region.value), memory := memory),
                 w.(logs := w.logs + [Log(f.address, topics, Slice(memory, offset, size))]))
  }

  // ---------------------------------------------------------------------------
  // Calls
  // ---------------------------------------------------------------------------

  datatype CallKind = Call | CallCode | DelegateCall | StaticCall

  datatype CallArgs = CallArgs(gas: nat, target: Address, value: nat, argsOffset: nat, argsSize: nat,
                               retOffset: nat, retSize: nat)

  function ArgCount(kind: CallKind): nat {
    if kind.Call? || kind.CallCode? then 7 else 6
  }

  function PopArgs(kind: CallKind, stack: seq<nat>): CallArgs
    requires |stack| >= ArgCount(kind)
  {
    var gas, target := Peek(stack, 0), Peek(stack, 1) % TWO_160;
    if ArgCount(kind) == 7 then
      CallArgs(gas, target, Peek(stack, 2), Peek(stack, 3), Peek(stack, 4), Peek(stack, 5), Peek(stack, 6))
    else CallArgs(gas, target, 0, Peek(stack, 2), Peek(stack, 3), Peek(stack, 4), Peek(stack, 5))
  }

  predicate ArgsFit(a: CallArgs) {
    a.argsOffset < TWO_64 && a.argsSize < TWO_64 && a.retOffset < TWO_64 && a.retSize < TWO_64
  }

  function CallWords(a: CallArgs): Option<nat> {
    var input, output := RegionWords(a.argsOffset, a.argsSize), RegionWords(a.retOffset, a.retSize);
    if input.None? || output.None? then None else Some(Max(input.value, output.value))
  }

  function CallOverhead(kind: CallKind, a: CallArgs, memory: Bytes, wanted: nat, w: World): nat {
    (if a.target in w.warmAddresses then GAS_WARM_ACCESS else GAS_COLD_ACCOUNT)
    + (if a.value != 0 then GAS_CALL_VALUE else 0)
    + (if a.value != 0 && kind.Call? && IsEmpty(w, a.target) then GAS_NEW_ACCOUNT else 0)
    + Growth(memory, wanted)
  }

  /** All but one 64th of the gas, or less if less was asked for. */
  function ChildGas(gas: nat, requested: nat): (child: nat)
    ensures child <= gas
  {
    var cap := gas - gas / 64;
    if requested < cap then requested else cap
  }

  /** The frame a call runs in. */
  function ChildFrame(kind: CallKind, f: Frame, a: CallArgs, gas: nat, w: World): Frame {
    Frame(0, gas, [], INITIAL_CAPACITY, [], Code(w, a.target),
          f.isStatic || kind.StaticCall?,
          if kind.DelegateCall? then f.caller else f.address,
          if kind.DelegateCall? || kind.CallCode? then f.address else a.target,
          if kind.DelegateCall? then f.value else a.value,
          Slice(f.memory, a.argsOffset, a.argsSize), a.retOffset, a.retSize % TWO_32)
  }

  /** The caller remembers where the answer goes; the size is cut to 32 bits. */
  function Waiting(f: Frame, a: CallArgs): Frame {
    f.(retOffset := a.retOffset, retSize := a.retSize % TWO_32)
  }

  /** A call that cannot be made pushes zero and the frame goes on. */
  function Decline(f: Frame, w: World): Effect {
    Continue(f.(stack := f.stack + [0]), w)
  }

  /** CALL moves its value; the other calls move nothing. */
  function MoveValue(kind: CallKind, sender: Address, a: CallArgs, w: World): World {
    if a.value != 0 && kind.Call? then AddBalance(SubBalance(w, sender, a.value).0, a.target, a.value).0 else w
  }

  /** The end of a call: the balance is checked, the value moves, and a frame is opened if the pool has one
      left. The gas set aside for the child is gone either way. */
  function Open(kind: CallKind, f: Frame, a: CallArgs, childGas: nat, depth: nat, w: World): Effect {
    if a.value != 0 && (kind.Call? || kind.CallCode?) && Balance(w, f.address) < a.value then Decline(f, w)
    else Seat(kind, f, a, childGas, depth, MoveValue(kind, f.address, a, w))
  }

  function Seat(kind: CallKind, f: Frame, a: CallArgs, childGas: nat, depth: nat, w: World): Effect {
    if depth + 1 >= FRAME_POOL_SIZE then Decline(f, w)
    else Enter(Waiting(f, a), ChildFrame(kind, f, a, childGas, w), w)
  }

  function Stipend(a: CallArgs): nat {
    if a.value != 0 then GAS_CALL_STIPEND else 0
  }

  /** What preparing a call comes to. */
  datatype Prepared =
    | TooDeep(frame: Frame, world: World)
    | Refused(status: Status, world: World)
    | Priced(frame: Frame, args: CallArgs, childGas: nat, world: World)

  /** Charge for access, value and memory, and set the child's gas aside. */
  function PayCall(kind: CallKind, f: Frame, a: CallArgs, wanted: nat, w: World): Prepared {
    var overhead := CallOverhead(kind, a, f.memory, wanted, w);
    if f.gas < overhead then Refused(OutOfGas, WarmAddress(w, a.target))
    else
      var gas := f.gas - overhead;
      Priced(f.(gas := gas - ChildGas(gas, a.gas), memory := Expanded(f.memory, wanted)), a,
             ChildGas(gas, a.gas) + Stipend(a), WarmAddress(w, a.target))
  }

  /** Check the arguments first: they must fit 64 bits, and a static frame sends no value. */
  function ChargeCall(kind: CallKind, f: Frame, a: CallArgs, w: World): Prepared {
    if !ArgsFit(a) then Refused(OutOfGas, w)
    else if f.isStatic && a.value != 0 then Refused(WriteProtection, w)
    else if CallWords(a).None? then Refused(OutOfGas, WarmAddress(w, a.target))
    else PayCall(kind, f, a, CallWords(a).value, w)
  }

  function PrepareCall(kind: CallKind, f: Frame, depth: nat, w: World): Prepared {
    if |f.stack| < ArgCount(kind) then Refused(StackUnderflow, w)
    else
      var g := f.(stack := Drop(f.stack, ArgCount(kind)));
      if depth >= MAX_CALL_DEPTH then TooDeep(g, w) else ChargeCall(kind, g, PopArgs(kind, f.stack), w)
  }

  function MakeCall(kind: CallKind, f: Frame, depth: nat, w: World): Effect {
    Conclude(kind, PrepareCall(kind, f, depth, w), depth)
  }

  function Conclude(kind: CallKind, p: Prepared, depth: nat): Effect {
    match p
    case TooDeep(g, v) => Decline(g, v)
    case Refused(status, v) => Fail(status, v)
    case Priced(g, a, childGas, v) => Open(kind, g, a, childGas, depth, v)
  }

  // ---------------------------------------------------------------------------
  // Dispatch
  // ---------------------------------------------------------------------------

  /** Fetch the opcode at the program counter and carry it out; running off the end stops. */
  function Dispatch(ops: SimpleOps, f: Frame, depth: nat, w: World): Effect {
    if f.pc >= |f.code| then Finish(true, f, None, w)
    else Execute(ops, f.code[f.pc], f.(pc := f.pc + 1), depth, w)
  }

  function Execute(ops: SimpleOps, op: byte, f: Frame, depth: nat, w: World): Effect
    requires f.pc <= |f.code|
  {
    if op == 0x55 then SStore(f, w)
    else if op < 0xA0 then Local(ops, op, f, w)
    else if op <= 0xA4 then WriteLog(f, w, op - 0xA0)
    else System(op, f, depth, w)
  }

  function Local(ops: SimpleOps, op: byte, f: Frame, w: World): Effect
    requires f.pc <= |f.code| && op < 0xA0
  {
    if op == 0x00 then Finish(true, f, None, w)
    else if IsSimple(op) then SimpleOp(ops, op, f, w)
    else if op == 0x54 then SLoad(f, w)
    else if op == 0x56 then Jump(f, w)
    else if op == 0x57 then JumpIf(f, w)
    else if op == 0x5B then MarkJump(f, w)
    else if 0x60 <= op <= 0x7F then Push(f, w, op - 0x5F)
    else if 0x80 <= op <= 0x8F then Dup(f, w, op - 0x7F)
    else Fail(InvalidOpcode, w)
  }

  function System(op: byte, f: Frame, depth: nat, w: World): Effect {
    if op == 0xF1 then MakeCall(Call, f, depth, w)
    else if op == 0xF2 then MakeCall(CallCode, f, depth, w)
    else if op == 0xF4 then MakeCall(DelegateCall, f, depth, w)
    else if op == 0xFA then MakeCall(StaticCall, f, depth, w)
    else if op == 0xF3 then Leave(f, w, true)
    else if op == 0xFD then Leave(f, w, false)
    else Fail(InvalidOpcode, w)
  }

  // ---------------------------------------------------------------------------
  // The frame stack
  // ---------------------------------------------------------------------------

  datatype Next =
    | Running(state: State)
    | Done(success: bool, gasUsed: int, refund: nat, output: Bytes, world: World)
    | Overrun(world: World)

  /** As much of the returned data as the caller asked for. */
  function Answer(parent: Frame, data: Bytes): Bytes {
    if |data| <= parent.retSize then data else data[..parent.retSize]
  }

  /** Back to the caller, with the gas the child left, one or zero on the stack, and the data it returned
      in the return buffer and where the caller wanted it. */
  function Resume(parents: seq<Frame>, gas: nat, flag: nat, data: Bytes, w: World): State
    requires |parents| > 0
  {
    var parent := parents[|parents| - 1];
    State(parent.(gas := parent.gas + gas, stack := parent.stack + [flag],
                  memory := Overwrite(parent.memory, parent.retOffset, Answer(parent, data))),
          parents[..|parents| - 1], data, w)
  }

  /** What an effect does to the frame stack. A frame that stops returns nothing; at the bottom of the stack
      the return buffer is then left as the last call filled it. */
  function After(initialGas: nat, s: State, e: Effect): Next {
    match e
    case Continue(f, w) => Running(State(f, s.parents, s.returnData, w))
    case Enter(f, child, w) =>
      if |s.parents| >= MAX_CALL_DEPTH then Done(false, initialGas, 0, [], w)
      else Running(State(child, s.parents + [f], s.returnData, w))
    case Finish(success, f, output, w) =>
      if |s.parents| == 0 then
        Done(success, initialGas - f.gas, if success then w.refund else 0,
             if output.Some? then output.value else s.returnData, w)
      else
        Running(Resume(s.parents, f.gas, if success then 1 else 0, if output.Some? then output.value else [], w))
    case Fail(status, w) =>
      if |s.parents| == 0 then Done(false, initialGas, 0, [], w)
      else Running(Resume(s.parents, 0, 0, [], w))
    case Overruns(w) => Overrun(w)
  }

  function Step(ops: SimpleOps, initialGas: nat, s: State): Next {
    After(initialGas, s, Dispatch(ops, s.frame, |s.parents|, s.world))
  }
}
