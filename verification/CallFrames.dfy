/** A call frame as the source keeps it: fields updated in place, an operand stack in a growing array, and
    a bitmap of jump destinations filled in on the first jump. Each opcode handler is proved to have the
    effect the transition system gives it, and every unchecked push to be inside the array. */
module CallFrames {
  import opened Bytes
  import opened World
  import opened Machine
  import MachineSteps
  import opened OperandStack
  import Metering
  import Jumpdest

  /** How an opcode ended; RETURN and REVERT name the part of memory they hand back. */
  datatype Signal =
    | Goes
    | Stops
    | Returns(success: bool, offset: nat, size: nat)
    | Errs(status: Status)
    | WritesPast

  /** How preparing a call ended. */
  datatype Setup = Exceeds | Fails(status: Status) | Ready(args: CallArgs, childGas: nat)

  predicate IsCall(op: byte) {
    op == 0xF1 || op == 0xF2 || op == 0xF4 || op == 0xFA
  }

  function KindOf(op: byte): CallKind
    requires IsCall(op)
  {
    if op == 0xF1 then Call else if op == 0xF2 then CallCode else if op == 0xF4 then DelegateCall else StaticCall
  }

  ghost predicate IsBitmap(bitmap: seq<bv8>, code: Bytes) {
    && |bitmap| == Jumpdest.BitmapSize(|code|)
    && forall p | 0 <= p < |code| :: Jumpdest.IsValid(bitmap, |code|, p) <==> Jumpdest.IsJumpdest(code, p)
  }

  class CallFrame {
    var pc: nat
    var gas: nat
    var stack: Stack
    var memory: Bytes
    var code: Bytes
    var isStatic: bool
    var caller: Address
    var address: Address
    var value: nat
    var input: Bytes
    var retOffset: nat
    var retSize: nat
    var depth: nat
    var bitmap: Option<seq<bv8>>

    ghost predicate Valid()
      reads this, stack
    {
      stack.Valid() && (bitmap.Some? ==> IsBitmap(bitmap.value, code))
    }

    function Value(): Frame
      requires Valid()
      reads this, stack, stack.items
    {
      Frame(pc, gas, stack.Contents(), stack.items.Length, memory, code, isStatic, caller, address, value, input,
            retOffset, retSize)
    }

    ghost function Footprint(): set<object>
      reads this, stack
    {
      {this, stack, stack.items}
    }

    /** The effect a signal stands for, with the frame and the world as they are now. */
    ghost function Effect(signal: Signal, w: World): Effect
      requires Valid()
      reads this, stack, stack.items
    {
      match signal
      case Goes => Continue(Value(), w)
      case Stops => Finish(true, Value(), None, w)
      case Returns(success, offset, size) => Finish(success, Value(), Some(Slice(memory, offset, size)), w)
      case Errs(status) => Fail(status, w)
      case WritesPast => Overruns(w)
    }

    constructor ()
      ensures Valid() && fresh(stack) && fresh(stack.items)
    {
      pc, gas, memory, code, isStatic := 0, 0, [], [], false;
      caller, address, value, input, retOffset, retSize, depth := 0, 0, 0, [], 0, 0, 0;
      bitmap := None;
      stack := new Stack();
    }

    /** Set up for a new run; nothing is left of what the frame held before. */
    method Init(start: Frame, depth: nat)
      requires start.stack == [] && start.capacity == INITIAL_CAPACITY
      modifies this
      ensures Valid() && Value() == start && this.depth == depth && fresh(stack) && fresh(stack.items)
    {
      SetContext(start);
      pc, gas, memory, this.depth, bitmap := start.pc, start.gas, start.memory, depth, None;
      stack := new Stack();
    }

    method SetContext(start: Frame)
      modifies this`code, this`isStatic, this`caller, this`address, this`value, this`input, this`retOffset, this`retSize
      ensures code == start.code && isStatic == start.isStatic && caller == start.caller && address == start.address
      ensures value == start.value && input == start.input && retOffset == start.retOffset && retSize == start.retSize
    {
      code, isStatic, caller, address := start.code, start.isStatic, start.caller, start.address;
      value, input, retOffset, retSize := start.value, start.input, start.retOffset, start.retSize;
    }

    // -------------------------------------------------------------------------
    // Operands
    // -------------------------------------------------------------------------

    method PopWord() returns (word: nat)
      requires Valid() && stack.top > 0
      modifies stack`top
      ensures Valid() && stack.top == old(stack.top) - 1 && word == stack.items[stack.top]
      ensures word == Peek(old(Value()).stack, 0) && Value() == old(Value()).(stack := Drop(old(Value()).stack, 1))
    {
      word := stack.PopUnsafe();
    }

    /** Unchecked: the caller answers for the room. */
    method PushWord(word: nat)
      requires Valid() && stack.top < stack.items.Length
      modifies stack`top, stack.items
      ensures Valid() && stack.items == old(stack.items)
      ensures Value() == old(Value()).(stack := old(Value()).stack + [word])
    {
      stack.PushUnsafe(word);
    }

    method MakeRoom() returns (ok: bool)
      requires Valid()
      modifies stack`items
      ensures Valid() && (stack.items == old(stack.items) || fresh(stack.items))
      ensures ok == (stack.top < MAX_STACK) && (ok ==> stack.top < stack.items.Length)
      ensures Value() == if ok then old(Value()).(capacity := Widened(old(Value()).capacity, |old(Value()).stack| + 1))
                         else old(Value())
    {
      ok := stack.EnsureSpace(1);
    }

    // -------------------------------------------------------------------------
    // Control flow
    // -------------------------------------------------------------------------

    /** The bitmap is computed on the first jump and kept. */
    method JumpTo(dest: nat, ghost w: World) returns (signal: Signal)
      requires Valid()
      modifies this`pc, this`bitmap
      ensures Valid() && Effect(signal, w) == Machine.JumpTo(old(Value()), w, dest)
    {
      if dest >= TWO_64 { return Errs(InvalidJump); }
      if bitmap.None? {
        var bits := Jumpdest.ComputeBitmap(code);
        bitmap := Some(bits);
      }
      if !Jumpdest.IsValid(bitmap.value, |code|, dest) { return Errs(InvalidJump); }
      pc := dest;
      return Goes;
    }

    method Jump(ghost w: World) returns (signal: Signal)
      requires Valid()
      modifies this`pc, this`gas, this`bitmap, stack`top
      ensures Valid() && Effect(signal, w) == Machine.Jump(old(Value()), w)
    {
      if stack.top < 1 { return Errs(StackUnderflow); }
      if gas < GAS_JUMP { return Errs(OutOfGas); }
      gas := gas - GAS_JUMP;
      var dest := PopWord();
      signal := JumpTo(dest, w);
    }

    method JumpIf(ghost w: World) returns (signal: Signal)
      requires Valid()
      modifies this`pc, this`gas, this`bitmap, stack`top
      ensures Valid() && Effect(signal, w) == Machine.JumpIf(old(Value()), w)
    {
      if stack.top < 2 { return Errs(StackUnderflow); }
      if gas < GAS_JUMPI { return Errs(OutOfGas); }
      gas := gas - GAS_JUMPI;
      var dest := PopWord();
      var condition := PopWord();
      assert Value().stack == Drop(old(Value()).stack, 2);
      if condition == 0 { return Goes; }
      signal := JumpTo(dest, w);
    }

    method MarkJump(ghost w: World) returns (signal: Signal)
      requires Valid()
      modifies this`gas
      ensures Valid() && Effect(signal, w) == Machine.MarkJump(old(Value()), w)
    {
      if gas < GAS_JUMPDEST { return Errs(OutOfGas); }
      gas := gas - GAS_JUMPDEST;
      return Goes;
    }

    /** Room is made before the unchecked push. */
    method Push(n: nat, ghost w: World) returns (signal: Signal)
      requires Valid() && pc <= |code|
      modifies this`pc, this`gas, stack, stack.items
      ensures Valid() && (stack.items == old(stack.items) || fresh(stack.items))
      ensures Effect(signal, w) == Machine.Push(old(Value()), w, n)
    {
      if gas < GAS_PUSH {
        signal := Errs(OutOfGas);
      } else {
        var room := MakeRoom();
        if !room { return Errs(StackOverflow); }
        PushImmediate(n);
        signal := Goes;
      }
    }

    method PushImmediate(n: nat)
      requires Valid() && pc <= |code| && gas >= GAS_PUSH && stack.top < stack.items.Length
      modifies this`pc, this`gas, stack`top, stack.items
      ensures Valid() && stack.items == old(stack.items)
      ensures var f := old(Value());
              Value() == f.(gas := f.gas - GAS_PUSH, pc := f.pc + n, stack := f.stack + [Immediate(f, n)])
    {
      var word := TakeImmediate(n);
      gas := gas - GAS_PUSH;
      PushWord(word);
    }

    /** Read what the code still has of the immediate data and step over all of it. */
    method TakeImmediate(n: nat) returns (word: nat)
      requires Valid() && pc <= |code|
      modifies this`pc
      ensures pc == old(pc) + n && word == Immediate(old(Value()), n)
    {
      var available := |code| - pc;
      var count := if n < available then n else available;
      word := FromBigEndian(code[pc..pc + count]);
      pc := pc + n;
    }

    /** No room is made: on a full array the source writes past its end, and the model stops there. */
    method Dup(n: nat, ghost w: World) returns (signal: Signal)
      requires Valid() && n > 0
      modifies this`gas, stack`top, stack.items
      ensures Valid() && Effect(signal, w) == Machine.Dup(old(Value()), w, n)
    {
      if stack.top < n { return Errs(StackUnderflow); }
      if stack.top + 1 > MAX_STACK { return Errs(StackOverflow); }
      if gas < GAS_DUP { return Errs(OutOfGas); }
      gas := gas - GAS_DUP;
      if stack.top == stack.items.Length { return WritesPast; }
      stack.DupUnsafe(n);
      return Goes;
    }

    // -------------------------------------------------------------------------
    // Memory
    // -------------------------------------------------------------------------

    /** Zero-fill memory up to the end of a region; the price is told, not charged. */
    method Expand(offset: nat, size: nat) returns (cost: Option<nat>)
      modifies this`memory
      ensures var words := RegionWords(offset, size);
              if words.None? then cost.None? && memory == old(memory)
              else cost == Some(Growth(old(memory), words.value)) && memory == Expanded(old(memory), words.value)
    {
      if size == 0 { return Some(0); }
      if offset + size >= MEMORY_LIMIT { return None; }
      var newSize := (offset + size + 31) / 32 * 32;
      var price := ExpansionCost(|memory| / 32, newSize / 32);
      if newSize > |memory| { memory := memory + Zeros(newSize - |memory|); }
      return Some(price);
    }

    method Leave(success: bool, ghost w: World) returns (signal: Signal)
      requires Valid()
      modifies this`gas, this`memory, stack`top
      ensures Valid() && Effect(signal, w) == Machine.Leave(old(Value()), w, success)
    {
      if stack.top < 2 { return Errs(StackUnderflow); }
      var offset := PopWord();
      var size := PopWord();
      assert Value().stack == Drop(old(Value()).stack, 2);
      if offset >= TWO_64 || size >= TWO_64 { return Errs(OutOfGas); }
      if size > 0 {
        var cost := Expand(offset, size);
        if cost.None? || gas < cost.value { return Errs(OutOfGas); }
        gas := gas - cost.value;
      }
      return Returns(success, offset, size);
    }

    // -------------------------------------------------------------------------
    // Storage and logs
    // -------------------------------------------------------------------------

    method SLoad(w: World) returns (signal: Signal, w': World)
      requires Valid()
      modifies this`gas, stack, stack.items
      ensures Valid() && (stack.items == old(stack.items) || fresh(stack.items))
      ensures Effect(signal, w') == Machine.SLoad(old(Value()), w)
    {
      if stack.top < 1 { return Errs(StackUnderflow), w; }
      var slot := PopWord();
      var key := (address, slot);
      var cold := key !in w.warmSlots;
      w' := WarmSlot(w, key);
      var cost := Metering.LoadCost(cold);
      if gas < cost { return Errs(OutOfGas), w'; }
      gas := gas - cost;
      var room := MakeRoom();
      if !room { return Errs(StackOverflow), w'; }
      PushWord(Stored(w', key));
      return Goes, w';
    }

    method SStore(w: World) returns (signal: Signal, w': World)
      requires Valid()
      modifies this`gas, stack`top
      ensures Valid() && Effect(signal, w') == Machine.SStore(old(Value()), w)
    {
      if isStatic { return Errs(WriteProtection), w; }
      if stack.top < 2 { return Errs(StackUnderflow), w; }
      var slot := PopWord();
      var word := PopWord();
      assert Value().stack == Drop(old(Value()).stack, 2);
      signal, w' := StoreAt((address, slot), word, w);
    }

    /** Warm the slot, check for the minimum and for the price, count the refund and write. */
    method StoreAt(key: SlotKey, word: nat, w: World) returns (signal: Signal, w': World)
      requires Valid()
      modifies this`gas
      ensures Valid() && Effect(signal, w') == Machine.StoreAt(old(Value()), w, key, word)
    {
      var current, original := Stored(w, key), Original(w, key);
      var cold := key !in w.warmSlots;
      w' := WarmSlot(w, key);
      var cost := Metering.StoreCost(cold, current, original, word);
      if gas <= Metering.SSTORE_MIN_GAS || gas < cost { return Errs(OutOfGas), w'; }
      gas := gas - cost;
      w' := Write(w', key, word, current, original);
      signal := Goes;
    }

    method WriteLog(topicCount: nat, w: World) returns (signal: Signal, w': World)
      requires Valid()
      modifies this`gas, this`memory, stack`top
      ensures Valid() && Effect(signal, w') == Machine.WriteLog(old(Value()), w, topicCount)
    {
      if stack.top < 2 + topicCount { return Errs(StackUnderflow), w; }
      if isStatic { return Errs(WriteProtection), w; }
      var words := stack.PopMany(2 + topicCount);
      assert words[2..] == Topics(old(Value()).stack, topicCount);
      signal, w' := LogAt(words[2..], words[0], words[1], w);
    }

    /** Charge for the log, its topics, its data and the memory it reads, and append it. */
    method LogAt(topics: seq<nat>, offset: nat, size: nat, w: World) returns (signal: Signal, w': World)
      requires Valid()
      modifies this`gas, this`memory
      ensures Valid() && Effect(signal, w') == Machine.LogAt(old(Value()), w, topics, offset, size)
    {
      w' := w;
      if offset >= TWO_64 || size >= TWO_64 { return Errs(OutOfGas), w; }
      var cost := LogCost(|topics|, size);
      if size > 0 {
        var growth := Expand(offset, size);
        if growth.None? { return Errs(OutOfGas), w; }
        cost := cost + growth.value;
      }
      if gas < cost { return Errs(OutOfGas), w; }
      gas := gas - cost;
      w' := w.(logs := w.logs + [Log(address, topics, Slice(memory, offset, size))]);
      signal := Goes;
    }

    // -------------------------------------------------------------------------
    // Calls
    // -------------------------------------------------------------------------

    /** The outcome a setup stands for, with the frame and the world as they are now. */
    ghost function Outcome(setup: Setup, w: World): Prepared
      requires Valid()
      reads this, stack, stack.items
    {
      match setup
      case Exceeds => TooDeep(Value(), w)
      case Fails(status) => Refused(status, w)
      case Ready(a, childGas) => Priced(Value(), a, childGas, w)
    }

    method PrepareCall(kind: CallKind, w: World) returns (setup: Setup, w': World)
      requires Valid()
      modifies this`gas, this`memory, stack`top
      ensures Valid() && Outcome(setup, w') == Machine.PrepareCall(kind, old(Value()), depth, w)
    {
      if stack.top < ArgCount(kind) {
        setup, w' := Fails(StackUnderflow), w;
      } else {
        var a := PopCallArgs(kind);
        if depth >= MAX_CALL_DEPTH { return Exceeds, w; }
        setup, w' := ChargeCall(kind, a, w);
      }
    }

    /** Back from a call: the gas left over, the first bytes returned where they were wanted, and the flag.
        Nothing is checked; a waiting frame has room for both. */
    method TakeAnswer(left: nat, flag: nat, data: Bytes)
      requires Valid() && MachineSteps.Ready(Value())
      modifies this`gas, this`memory, stack`top, stack.items
      ensures Valid() && stack.items == old(stack.items)
      ensures var f := old(Value());
              Value() == f.(gas := f.gas + left, stack := f.stack + [flag],
                            memory := Overwrite(f.memory, f.retOffset, Answer(f, data)))
    {
      var count := if retSize > |data| then |data| else retSize;
      if count > 0 { StoreUnsafe(retOffset, data[..count]); }
      gas := gas + left;
      PushWord(flag);
    }

    /** The caller answers for the bounds. */
    method StoreUnsafe(offset: nat, data: Bytes)
      requires offset + |data| <= |memory|
      modifies this`memory
      ensures |data| > 0 ==> memory == Overwrite(old(memory), offset, data)
    {
      memory := memory[..offset] + data + memory[offset + |data|..];
    }

    method PopCallArgs(kind: CallKind) returns (a: CallArgs)
      requires Valid() && stack.top >= ArgCount(kind)
      modifies stack`top
      ensures Valid() && a == PopArgs(kind, old(Value()).stack)
      ensures Value() == old(Value()).(stack := Drop(old(Value()).stack, ArgCount(kind)))
    {
      var words := stack.PopMany(ArgCount(kind));
      var gas, target := words[0], words[1] % TWO_160;
      if kind.Call? || kind.CallCode? {
        a := CallArgs(gas, target, words[2], words[3], words[4], words[5], words[6]);
      } else {
        a := CallArgs(gas, target, 0, words[2], words[3], words[4], words[5]);
      }
    }

    method ChargeCall(kind: CallKind, a: CallArgs, w: World) returns (setup: Setup, w': World)
      requires Valid()
      modifies this`gas, this`memory
      ensures Valid() && Outcome(setup, w') == Machine.ChargeCall(kind, old(Value()), a, w)
    {
      if !ArgsFit(a) { return Fails(OutOfGas), w; }
      if isStatic && a.value != 0 { return Fails(WriteProtection), w; }
      var wanted := CallWords(a);
      if wanted.None? {
        setup, w' := Fails(OutOfGas), WarmAddress(w, a.target);
      } else {
        setup, w' := PayCall(kind, a, wanted.value, w);
      }
    }

    method PayCall(kind: CallKind, a: CallArgs, wanted: nat, w: World) returns (setup: Setup, w': World)
      requires Valid()
      modifies this`gas, this`memory
      ensures Valid() && Outcome(setup, w') == Machine.PayCall(kind, old(Value()), a, wanted, w)
    {
      var cost := PriceCall(kind, a, wanted, w);
      w' := WarmAddress(w, a.target);
      if gas < cost {
        setup := Fails(OutOfGas);
      } else {
        gas := gas - cost;
        var childGas := ForwardGas(a);
        memory := Expanded(memory, wanted);
        setup := Ready(a, childGas);
      }
    }

    /** The price of a call, put together as the source adds it up. */
    method PriceCall(kind: CallKind, a: CallArgs, wanted: nat, w: World) returns (cost: nat)
      ensures cost == CallOverhead(kind, a, memory, wanted, w)
    {
      var isNew := a.value != 0 && kind.Call? && IsEmpty(w, a.target);
      cost := if a.target in w.warmAddresses then GAS_WARM_ACCESS else GAS_COLD_ACCOUNT;
      if a.value != 0 {
        cost := cost + GAS_CALL_VALUE;
        if isNew { cost := cost + GAS_NEW_ACCOUNT; }
      }
      cost := cost + Growth(memory, wanted);
    }

    /** Take the child's share out of the frame; the stipend comes on top. */
    method ForwardGas(a: CallArgs) returns (childGas: nat)
      modifies this`gas
      ensures childGas == ChildGas(old(gas), a.gas) + Stipend(a)
      ensures gas == old(gas) - ChildGas(old(gas), a.gas)
    {
      childGas := ChildGas(gas, a.gas);
      if a.value != 0 { childGas := childGas + GAS_CALL_STIPEND; }
      var deducted := childGas - if a.value != 0 then GAS_CALL_STIPEND else 0;
      if deducted > gas { deducted := gas; }
      gas := gas - deducted;
    }

    // -------------------------------------------------------------------------
    // Dispatch
    // -------------------------------------------------------------------------

    method Simple(ops: SimpleOps, op: byte, w: World) returns (signal: Signal, w': World)
      requires Valid()
      modifies this`gas, this`memory, stack, stack.items
      ensures Valid() && (stack.items == old(stack.items) || fresh(stack.items))
      ensures Effect(signal, w') == SimpleOp(ops, op, old(Value()), w)
    {
      var outcome := ops(op, Value(), w);
      w' := Touched(w, outcome.touched);
      if outcome.Refuses? { return Errs(outcome.status), w'; }
      if stack.top < outcome.pops { return Errs(StackUnderflow), w; }
      var size := stack.top - outcome.pops + |outcome.pushes|;
      if size > MAX_STACK { return Errs(StackOverflow), w'; }
      if gas < outcome.cost { return Errs(OutOfGas), w'; }
      Compute(outcome);
      signal := Goes;
    }

    /** Room is asked for only when more is pushed than popped. */
    method Compute(outcome: Simple)
      requires Valid() && outcome.Computes? && outcome.pops <= stack.top && outcome.cost <= gas
      requires stack.top - outcome.pops + |outcome.pushes| <= MAX_STACK
      modifies this`gas, this`memory, stack, stack.items
      ensures Valid() && (stack.items == old(stack.items) || fresh(stack.items))
      ensures var f := old(Value());
              var size := |f.stack| - outcome.pops + |outcome.pushes|;
              Value() == f.(gas := f.gas - outcome.cost, stack := Drop(f.stack, outcome.pops) + outcome.pushes,
                            memory := outcome.memory,
                            capacity := if |outcome.pushes| > outcome.pops then Widened(f.capacity, size) else f.capacity)
    {
      gas := gas - outcome.cost;
      memory := outcome.memory;
      if |outcome.pushes| > outcome.pops {
        var room := stack.EnsureSpace(|outcome.pushes| - outcome.pops);
      }
      stack.Exchange(outcome.pops, outcome.pushes);
    }

    /** Any opcode but a call. */
    method Execute(ops: SimpleOps, op: byte, w: World) returns (signal: Signal, w': World)
      requires Valid() && pc <= |code| && !IsCall(op)
      modifies this`pc, this`gas, this`memory, this`bitmap, stack, stack.items
      ensures Valid() && (stack.items == old(stack.items) || fresh(stack.items))
      ensures Effect(signal, w') == Machine.Execute(ops, op, old(Value()), depth, w)
    {
      w' := w;
      if op == 0x55 { signal, w' := SStore(w); }
      else if op < 0xA0 { signal, w' := Local(ops, op, w); }
      else if op <= 0xA4 { signal, w' := WriteLog(op - 0xA0, w); }
      else if op == 0xF3 { signal := Leave(true, w); }
      else if op == 0xFD { signal := Leave(false, w); }
      else { signal := Errs(InvalidOpcode); }
    }

    method Local(ops: SimpleOps, op: byte, w: World) returns (signal: Signal, w': World)
      requires Valid() && pc <= |code| && op < 0xA0
      modifies this`pc, this`gas, this`memory, this`bitmap, stack, stack.items
      ensures Valid() && (stack.items == old(stack.items) || fresh(stack.items))
      ensures Effect(signal, w') == Machine.Local(ops, op, old(Value()), w)
    {
      w' := w;
      if op == 0x00 { signal := Stops; }
      else if IsSimple(op) { signal, w' := Simple(ops, op, w); }
      else if op == 0x54 { signal, w' := SLoad(w); }
      else if op == 0x56 { signal := Jump(w); }
      else if op == 0x57 { signal := JumpIf(w); }
      else if op == 0x5B { signal := MarkJump(w); }
      else if 0x60 <= op <= 0x7F { signal := Push(op - 0x5F, w); }
      else if 0x80 <= op <= 0x8F { signal := Dup(op - 0x7F, w); }
      else { signal := Errs(InvalidOpcode); }
    }
  }

  /** Adjust the refund counter, then write the slot. */
  method Write(w: World, key: SlotKey, word: nat, current: nat, original: nat) returns (w': World)
    requires current == Stored(w, key) && original == Original(w, key)
    ensures w' == StoreWithRefund(w, key, word)
  {
    var refund := Metering.ComputeRefund(current, original, word);
    var counter := w.refund;
    if refund >= 0 {
      counter := counter + refund;
    } else if counter >= -refund {
      counter := counter + refund;
    } else {
      counter := 0;
    }
    var restored := if word == original && current != word then Metering.RestoreRate(original) else 0;
    w' := SetStorage(w, key, word).(refund := counter, settled := w.settled + restored);
  }
}
