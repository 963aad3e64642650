/** Calls by the opcode and the words on the stack: which frame is opened, what it costs, what moves, and what
    the caller finds when the call is over. */
module CallLaws {
  import opened Bytes
  import opened World
  import opened Machine
  import opened MachineSteps
  import opened MachineRuns
  import opened OpcodeLaws

  predicate IsCallOp(op: byte) {
    op == 0xF1 || op == 0xF2 || op == 0xF4 || op == 0xFA
  }

  function KindFor(op: byte): CallKind
    requires IsCallOp(op)
  {
    if op == 0xF1 then Call else if op == 0xF2 then CallCode else if op == 0xF4 then DelegateCall else StaticCall
  }

  /** A frame is opened. */
  predicate Opens(s: State, next: Next) {
    next.Running? && |next.state.parents| > |s.parents|
  }

  /** A call with a value word takes seven words, the others six. */
  function Taken(op: byte): nat {
    if op == 0xF1 || op == 0xF2 then 7 else 6
  }

  // Where a call finds its value, and its memory arguments: offset and size of the input, then of the answer.

  function ValueWord(s: State, op: byte): nat
    requires |s.frame.stack| >= Taken(op)
  {
    if Taken(op) == 7 then Word(s, 2) else 0
  }

  function MemoryWord(s: State, op: byte, i: nat): nat
    requires |s.frame.stack| >= Taken(op) && i < 4
  {
    Word(s, Taken(op) - 4 + i)
  }

  // ---------------------------------------------------------------------------
  // From the opcode to the arguments
  // ---------------------------------------------------------------------------

  lemma CallArguments(s: State, op: byte)
    requires IsCallOp(op) && |s.frame.stack| >= Taken(op)
    ensures ArgCount(KindFor(op)) == Taken(op)
    ensures PopArgs(KindFor(op), s.frame.stack)
         == CallArgs(Word(s, 0), Word(s, 1) % TWO_160, ValueWord(s, op), MemoryWord(s, op, 0), MemoryWord(s, op, 1),
                     MemoryWord(s, op, 2), MemoryWord(s, op, 3))
  {}

  lemma CallIs(ops: SimpleOps, op: byte, f: Frame, depth: nat, w: World)
    requires IsCallOp(op) && f.pc <= |f.code|
    ensures Execute(ops, op, f, depth, w) == MakeCall(KindFor(op), f, depth, w)
  {}

  /** Only the four call opcodes open a frame. */
  lemma OnlyCallsOpen(ops: SimpleOps, gas: nat, s: State)
    requires Opens(s, Step(ops, gas, s))
    ensures s.frame.pc < |s.frame.code| && IsCallOp(s.frame.code[s.frame.pc])
  {
    var f := s.frame;
    if f.pc < |f.code| && f.code[f.pc] < 0xA0 && f.code[f.pc] != 0x55 {
      LocalIsQuiet(ops, f.code[f.pc], Fetched(f), s.world);
    }
  }

  /** What is known once the price of a call could be paid. */
  lemma Opened(kind: CallKind, f: Frame, depth: nat, w: World)
    requires MakeCall(kind, f, depth, w).Enter?
    ensures |f.stack| >= ArgCount(kind) && PrepareCall(kind, f, depth, w).Priced?
    ensures var p := PrepareCall(kind, f, depth, w);
            && CallWords(PopArgs(kind, f.stack)).Some? && p.args == PopArgs(kind, f.stack)
            && p == PayCall(kind, f.(stack := Drop(f.stack, ArgCount(kind))), p.args, CallWords(p.args).value, w)
            && MakeCall(kind, f, depth, w) == Open(kind, p.frame, p.args, p.childGas, depth, p.world)
  {}

  // ---------------------------------------------------------------------------
  // The frame that is opened
  // ---------------------------------------------------------------------------

  /** The frame opened by a call opcode, told by the words on the stack:
      CALL runs the target at its own address, with the value sent; CALLCODE runs its code at the caller's address;
      DELEGATECALL runs its code for the caller, with the caller's own caller and value; STATICCALL runs the target
      with no value and allows no change. */
  ghost predicate ChildOf(s: State, op: byte, child: Frame)
    requires |s.frame.stack| >= Taken(op)
  {
    var f, target := s.frame, Word(s, 1) % TWO_160;
    && child.pc == 0 && child.stack == [] && child.memory == [] && child.code == Code(s.world, target)
    && child.address == (if op == 0xF1 || op == 0xFA then target else f.address)
    && child.caller == (if op == 0xF4 then f.caller else f.address)
    && child.value == (if op == 0xF4 then f.value else if op == 0xFA then 0 else Word(s, 2))
    && child.isStatic == (f.isStatic || op == 0xFA)
    && IsRegion(child.input, f.memory, MemoryWord(s, op, 0), MemoryWord(s, op, 1))
  }

  /** The words of memory a call reaches. */
  function Needed(s: State, op: byte): nat
    requires |s.frame.stack| >= Taken(op)
  {
    var input, answer := Reach(MemoryWord(s, op, 0), MemoryWord(s, op, 1)), Reach(MemoryWord(s, op, 2), MemoryWord(s, op, 3));
    if input < answer then answer else input
  }

  /** Memory is followed by zeros until it has that many words. */
  ghost predicate Grown(memory: Bytes, words: nat, after: Bytes) {
    && |after| == (if |memory| < 32 * words then 32 * words else |memory|)
    && IsRegion(after, memory, 0, |after|)
  }

  /** The caller waits after the opcode, without the words taken, for an answer in the window it named; the size
      of the window is cut to 32 bits. */
  ghost predicate WaitsFor(s: State, op: byte, caller: Frame)
    requires |s.frame.stack| >= Taken(op)
  {
    var f := s.frame;
    && caller.pc == f.pc + 1 && caller.code == f.code && caller.stack == f.stack[..|f.stack| - Taken(op)]
    && caller.address == f.address && caller.caller == f.caller && caller.value == f.value && caller.input == f.input
    && caller.isStatic == f.isStatic
    && caller.retOffset == MemoryWord(s, op, 2) && caller.retSize == MemoryWord(s, op, 3) % TWO_32
    && Grown(f.memory, Needed(s, op), caller.memory)
  }

  lemma OpenedChild(kind: CallKind, f: Frame, depth: nat, w: World)
    requires MakeCall(kind, f, depth, w).Enter?
    ensures var e, a := MakeCall(kind, f, depth, w), PopArgs(kind, f.stack);
            && IsRegion(e.child.input, f.memory, a.argsOffset, a.argsSize)
            && e.child.code == Code(w, a.target) && e.child.pc == 0 && e.child.stack == [] && e.child.memory == []
            && e.child.isStatic == (f.isStatic || kind.StaticCall?)
    ensures var e, a := MakeCall(kind, f, depth, w), PopArgs(kind, f.stack);
            && e.child.caller == (if kind.DelegateCall? then f.caller else f.address)
            && e.child.address == (if kind.DelegateCall? || kind.CallCode? then f.address else a.target)
            && e.child.value == (if kind.DelegateCall? then f.value else a.value)
  {
    Opened(kind, f, depth, w);
    var a := PopArgs(kind, f.stack);
    RegionOfMemory(f.memory, a.argsOffset, a.argsSize, CallWords(a).value);
    ValueMoves(kind, f.address, a, WarmAddress(w, a.target));
  }

  lemma OpenedCaller(kind: CallKind, f: Frame, depth: nat, w: World)
    requires MakeCall(kind, f, depth, w).Enter?
    ensures var e, a := MakeCall(kind, f, depth, w), PopArgs(kind, f.stack);
            && CallWords(a).Some? && Grown(f.memory, CallWords(a).value, e.frame.memory)
            && e.frame == f.(gas := e.frame.gas, stack := Drop(f.stack, ArgCount(kind)), memory := e.frame.memory,
                             retOffset := a.retOffset, retSize := a.retSize % TWO_32)
  {
    Opened(kind, f, depth, w);
  }

  lemma ChildIs(s: State, op: byte, e: Effect)
    requires IsCallOp(op) && e == MakeCall(KindFor(op), Fetched(s.frame), |s.parents|, s.world) && e.Enter?
    ensures |s.frame.stack| >= Taken(op) && ChildOf(s, op, e.child)
  {
    Opened(KindFor(op), Fetched(s.frame), |s.parents|, s.world);
    CallArguments(s, op);
    OpenedChild(KindFor(op), Fetched(s.frame), |s.parents|, s.world);
  }

  lemma CallerIs(s: State, op: byte, e: Effect)
    requires IsCallOp(op) && e == MakeCall(KindFor(op), Fetched(s.frame), |s.parents|, s.world) && e.Enter?
    ensures |s.frame.stack| >= Taken(op) && WaitsFor(s, op, e.frame)
  {
    Opened(KindFor(op), Fetched(s.frame), |s.parents|, s.world);
    CallArguments(s, op);
    OpenedCaller(KindFor(op), Fetched(s.frame), |s.parents|, s.world);
  }

  /** The frame a step opens, and the caller it leaves waiting. */
  lemma CallOpens(ops: SimpleOps, gas: nat, s: State, op: byte)
    requires At(s, op) && Opens(s, Step(ops, gas, s))
    ensures IsCallOp(op) && |s.frame.stack| >= Taken(op)
    ensures var t := Step(ops, gas, s).state;
            && |t.parents| == |s.parents| + 1 && s.parents <= t.parents && t.returnData == s.returnData
            && ChildOf(s, op, t.frame) && WaitsFor(s, op, t.parents[|s.parents|])
  {
    OnlyCallsOpen(ops, gas, s);
    CallIs(ops, op, Fetched(s.frame), |s.parents|, s.world);
    var e := Dispatch(ops, s.frame, |s.parents|, s.world);
    ChildIs(s, op, e);
    CallerIs(s, op, e);
  }

  // ---------------------------------------------------------------------------
  // What it costs
  // ---------------------------------------------------------------------------

  /** The price of a call: 100 or 2600 for the target, 9000 for a value, 25000 more for bringing an account to life
      by CALL, and the memory for input and answer. */
  function CallPrice(s: State, op: byte): int
    requires |s.frame.stack| >= Taken(op)
  {
    var target, value := Word(s, 1) % TWO_160, ValueWord(s, op);
    (if target in s.world.warmAddresses then 100 else 2600)
    + (if value != 0 then 9000 else 0)
    + (if op == 0xF1 && value != 0 && IsEmpty(s.world, target) then 25000 else 0)
    + Extension(|s.frame.memory| / 32, Needed(s, op))
  }

  lemma OpenedGas(kind: CallKind, f: Frame, depth: nat, w: World, price: int)
    requires MakeCall(kind, f, depth, w).Enter?
    requires var a := PopArgs(kind, f.stack);
             CallWords(a).Some? && price == CallOverhead(kind, a, f.memory, CallWords(a).value, w)
    ensures var e, a := MakeCall(kind, f, depth, w), PopArgs(kind, f.stack);
            var left := f.gas - price;
            && 0 <= left && e.child.gas == ChildGas(left, a.gas) + Stipend(a) && e.frame.gas == left - ChildGas(left, a.gas)
  {
    Opened(kind, f, depth, w);
  }

  lemma PriceIs(s: State, op: byte)
    requires IsCallOp(op) && |s.frame.stack| >= Taken(op) && CallWords(PopArgs(KindFor(op), s.frame.stack)).Some?
    ensures var a := PopArgs(KindFor(op), s.frame.stack);
            CallOverhead(KindFor(op), a, s.frame.memory, CallWords(a).value, s.world) == CallPrice(s, op)
  {
    CallArguments(s, op);
  }

  /** The gas of both frames after the price: the child gets no more than was asked for and leaves its caller at
      least a 64th; if it gets less than was asked for, the caller keeps no more than that. A call with a value
      gives the child 2300 on top. */
  lemma CallGas(ops: SimpleOps, gas: nat, s: State, op: byte)
    requires At(s, op) && Opens(s, Step(ops, gas, s))
    ensures |s.frame.stack| >= Taken(op)
    ensures var t := Step(ops, gas, s).state;
            var left, stipend := s.frame.gas - CallPrice(s, op), if ValueWord(s, op) != 0 then 2300 else 0;
            var forwarded, kept := t.frame.gas - stipend, t.parents[|t.parents| - 1].gas;
            && 0 <= forwarded <= Word(s, 0) && forwarded + kept == left
            && kept >= left / 64 && (forwarded < Word(s, 0) ==> kept == left / 64)
  {
    OnlyCallsOpen(ops, gas, s);
    var f, kind := Fetched(s.frame), KindFor(op);
    CallIs(ops, op, f, |s.parents|, s.world);
    Opened(kind, f, |s.parents|, s.world);
    CallArguments(s, op);
    PriceIs(s, op);
    OpenedGas(kind, f, |s.parents|, s.world, CallPrice(s, op));
  }

  // ---------------------------------------------------------------------------
  // What moves
  // ---------------------------------------------------------------------------

  /** A transfer, account by account. */
  lemma TransferBalances(w: World, sender: Address, target: Address, amount: nat, a: Address)
    requires amount <= Balance(w, sender) && Supply(w) < TWO_256
    ensures var v := AddBalance(SubBalance(w, sender, amount).0, target, amount).0;
            Balance(v, a) == Balance(w, a) - (if a == sender then amount else 0) + (if a == target then amount else 0)
  {
    var debited := SubBalance(w, sender, amount).0;
    SupplyAfterSub(w, sender, amount);
    SupplyAfterSet(w, sender, 0);
    SupplyAfterAdd(debited, target, amount);
  }

  lemma OpenedBalances(kind: CallKind, f: Frame, depth: nat, w: World, a: Address)
    requires MakeCall(kind, f, depth, w).Enter? && Supply(w) < TWO_256
    ensures var v, args := MakeCall(kind, f, depth, w).world, PopArgs(kind, f.stack);
            Balance(v, a) == Balance(w, a)
                             - (if kind.Call? && a == f.address then args.value else 0)
                             + (if kind.Call? && a == args.target then args.value else 0)
  {
    Opened(kind, f, depth, w);
    var args := PopArgs(kind, f.stack);
    var warmed := WarmAddress(w, args.target);
    if kind.Call? && args.value != 0 {
      TransferBalances(warmed, f.address, args.target, args.value, a);
    }
  }

  /** CALL moves its value from the caller to the target, account by account; the other calls move nothing. The
      target becomes warm, and nothing else of the world changes. */
  lemma CallMoves(ops: SimpleOps, gas: nat, s: State, op: byte, a: Address)
    requires At(s, op) && Opens(s, Step(ops, gas, s)) && Supply(s.world) < TWO_256
    ensures |s.frame.stack| >= Taken(op)
    ensures var w, v, target := s.world, Step(ops, gas, s).state.world, Word(s, 1) % TWO_160;
            && Balance(v, a) == Balance(w, a) - (if op == 0xF1 && a == s.frame.address then Word(s, 2) else 0)
                                              + (if op == 0xF1 && a == target then Word(s, 2) else 0)
            && v.warmAddresses == w.warmAddresses + {target} && v.warmSlots == w.warmSlots && SameButBalances(w, v)
  {
    OnlyCallsOpen(ops, gas, s);
    var f, kind := Fetched(s.frame), KindFor(op);
    CallIs(ops, op, f, |s.parents|, s.world);
    Opened(kind, f, |s.parents|, s.world);
    CallArguments(s, op);
    OpenedBalances(kind, f, |s.parents|, s.world, a);
    ValueMoves(kind, f.address, PopArgs(kind, f.stack), WarmAddress(s.world, PopArgs(kind, f.stack).target));
  }

  // ---------------------------------------------------------------------------
  // When a frame is opened
  // ---------------------------------------------------------------------------

  /** Words that fit 64 bits, reachable memory, no value out of a static frame, and the price. */
  predicate Affordable(s: State, op: byte)
    requires |s.frame.stack| >= Taken(op)
  {
    && (forall i | 0 <= i < 4 :: MemoryWord(s, op, i) < TWO_64)
    && Reachable(MemoryWord(s, op, 0), MemoryWord(s, op, 1)) && Reachable(MemoryWord(s, op, 2), MemoryWord(s, op, 3))
    && (s.frame.isStatic ==> ValueWord(s, op) == 0)
    && s.frame.gas >= CallPrice(s, op)
  }

  lemma ChargedIff(kind: CallKind, f: Frame, a: CallArgs, w: World)
    ensures var p := ChargeCall(kind, f, a, w);
            && (p.Priced? <==> && ArgsFit(a) && (f.isStatic ==> a.value == 0) && CallWords(a).Some?
                               && f.gas >= CallOverhead(kind, a, f.memory, CallWords(a).value, w))
            && (p.Priced? || p.Refused?)
  {}

  lemma WordsIff(a: CallArgs)
    ensures CallWords(a).Some? <==> Reachable(a.argsOffset, a.argsSize) && Reachable(a.retOffset, a.retSize)
  {}

  lemma AffordableIff(s: State, op: byte, a: CallArgs)
    requires IsCallOp(op) && |s.frame.stack| >= Taken(op) && a == PopArgs(KindFor(op), s.frame.stack)
    ensures Affordable(s, op)
            <==> ArgsFit(a) && (s.frame.isStatic ==> a.value == 0) && CallWords(a).Some?
                 && s.frame.gas >= CallOverhead(KindFor(op), a, s.frame.memory, CallWords(a).value, s.world)
  {
    CallArguments(s, op);
    WordsIff(a);
    assert MemoryWord(s, op, 0) == a.argsOffset && MemoryWord(s, op, 1) == a.argsSize;
    assert MemoryWord(s, op, 2) == a.retOffset && MemoryWord(s, op, 3) == a.retSize;
    if CallWords(a).Some? { PriceIs(s, op); }
  }

  lemma PreparedIff(s: State, op: byte, f: Frame)
    requires IsCallOp(op) && f == Fetched(s.frame) && |f.stack| >= Taken(op)
    ensures PrepareCall(KindFor(op), f, |s.parents|, s.world).Priced? <==> |s.parents| < 1024 && Affordable(s, op)
    ensures |s.parents| < 1024 && !Affordable(s, op) ==> PrepareCall(KindFor(op), f, |s.parents|, s.world).Refused?
    ensures |s.parents| >= 1024 ==> PrepareCall(KindFor(op), f, |s.parents|, s.world).TooDeep?
  {
    CallArguments(s, op);
    var kind := KindFor(op);
    var a := PopArgs(kind, f.stack);
    AffordableIff(s, op, a);
    ChargedIff(kind, f.(stack := Drop(f.stack, ArgCount(kind))), a, s.world);
  }

  lemma ConcludesIff(kind: CallKind, p: Prepared, depth: nat)
    requires p.Priced?
    ensures var short := (kind.Call? || kind.CallCode?) && Balance(p.world, p.frame.address) < p.args.value;
            && (Conclude(kind, p, depth).Enter? <==> !short && depth + 1 < 1024)
            && (!Conclude(kind, p, depth).Enter? ==>
                  && Conclude(kind, p, depth).Continue?
                  && Conclude(kind, p, depth).frame == p.frame.(stack := p.frame.stack + [0]))
  {}

  /** A call opens a frame if and only if it can be paid for, fewer than 1023 frames wait, and CALL and CALLCODE find
      the value in the balance. */
  lemma CallOpensIff(ops: SimpleOps, gas: nat, s: State, op: byte)
    requires At(s, op) && IsCallOp(op)
    ensures Opens(s, Step(ops, gas, s))
            <==> |s.frame.stack| >= Taken(op) && Affordable(s, op) && |s.parents| < 1023
                 && (op == 0xF1 || op == 0xF2 ==> Word(s, 2) <= Balance(s.world, s.frame.address))
  {
    var f, kind := Fetched(s.frame), KindFor(op);
    CallIs(ops, op, f, |s.parents|, s.world);
    if |f.stack| >= Taken(op) {
      CallArguments(s, op);
      PreparedIff(s, op, f);
      var p := PrepareCall(kind, f, |s.parents|, s.world);
      if p.Priced? {
        PaidArguments(kind, f, |s.parents|, s.world);
        ConcludesIff(kind, p, |s.parents|);
      }
    }
  }

  /** A call that is not opened though it can be paid for, because the frames are used up or the balance falls
      short, pushes zero and loses the gas set aside for the child. With 1024 frames waiting it is not even
      charged. */
  lemma CallDeclined(ops: SimpleOps, gas: nat, s: State, op: byte)
    requires At(s, op) && IsCallOp(op) && |s.frame.stack| >= Taken(op) && !Opens(s, Step(ops, gas, s))
    requires |s.parents| >= 1024 || Affordable(s, op)
    ensures GoesOn(s, Step(ops, gas, s))
    ensures var f, t := s.frame, Step(ops, gas, s).state;
            && t.parents == s.parents && t.returnData == s.returnData
            && t.frame.stack == f.stack[..|f.stack| - Taken(op)] + [0] && t.frame.pc == f.pc + 1
            && (|s.parents| >= 1024 ==> t.frame.gas == f.gas)
            && (|s.parents| < 1024 ==>
                  var left := f.gas - CallPrice(s, op);
                  var lost := left - t.frame.gas;
                  && 0 <= lost <= Word(s, 0) && t.frame.gas >= left / 64
                  && (lost < Word(s, 0) ==> t.frame.gas == left / 64))
  {
    var f, kind := Fetched(s.frame), KindFor(op);
    CallIs(ops, op, f, |s.parents|, s.world);
    CallArguments(s, op);
    PreparedIff(s, op, f);
    var p := PrepareCall(kind, f, |s.parents|, s.world);
    if p.Priced? {
      ConcludesIff(kind, p, |s.parents|);
      PaidGas(kind, f, |s.parents|, s.world);
      PriceIs(s, op);
    }
  }

  lemma PaidGas(kind: CallKind, f: Frame, depth: nat, w: World)
    requires PrepareCall(kind, f, depth, w).Priced?
    ensures |f.stack| >= ArgCount(kind) && CallWords(PopArgs(kind, f.stack)).Some?
    ensures var p, a := PrepareCall(kind, f, depth, w), PopArgs(kind, f.stack);
            var left := f.gas - CallOverhead(kind, a, f.memory, CallWords(a).value, w);
            && left >= 0 && p.frame.gas == left - ChildGas(left, a.gas)
            && p.frame.stack == Drop(f.stack, ArgCount(kind)) && p.frame.pc == f.pc
  {}

  lemma PaidArguments(kind: CallKind, f: Frame, depth: nat, w: World)
    requires PrepareCall(kind, f, depth, w).Priced?
    ensures var p := PrepareCall(kind, f, depth, w);
            && |f.stack| >= ArgCount(kind) && p.args == PopArgs(kind, f.stack) && p.frame.address == f.address
            && p.world.balances == w.balances
  {}

  // ---------------------------------------------------------------------------
  // How a call ends
  // ---------------------------------------------------------------------------

  /** The frame stops: STOP, or the end of the code. */
  predicate Stops(f: Frame) {
    f.pc >= |f.code| || f.code[f.pc] == 0x00
  }

  /** RETURN or REVERT with its two words, and the memory it hands back paid for. */
  predicate HandsBack(f: Frame, op: byte) {
    && f.pc < |f.code| && f.code[f.pc] == op && |f.stack| >= 2
    && var offset, size := f.stack[|f.stack| - 1], f.stack[|f.stack| - 2];
       offset < TWO_64 && size < TWO_64 && Reachable(offset, size)
       && f.gas >= Extension(|f.memory| / 32, Reach(offset, size))
  }

  lemma LeaveIs(f: Frame, w: World, success: bool)
    ensures var e := Leave(f, w, success);
            var ok := |f.stack| >= 2 && Peek(f.stack, 0) < TWO_64 && Peek(f.stack, 1) < TWO_64
                      && Reachable(Peek(f.stack, 0), Peek(f.stack, 1))
                      && f.gas >= Extension(|f.memory| / 32, Reach(Peek(f.stack, 0), Peek(f.stack, 1)));
            if !ok then e.Fail?
            else && e.Finish? && e.success == success && e.output.Some?
                 && IsRegion(e.output.value, f.memory, Peek(f.stack, 0), Peek(f.stack, 1))
                 && e.frame.gas == f.gas - Extension(|f.memory| / 32, Reach(Peek(f.stack, 0), Peek(f.stack, 1)))
  {
    if |f.stack| >= 2 {
      var offset, size := Peek(f.stack, 0), Peek(f.stack, 1);
      if RegionWords(offset, size).Some? {
        RegionOfMemory(f.memory, offset, size, RegionWords(offset, size).value);
      }
    }
  }

  /** Nothing but the end of the code, STOP, RETURN and REVERT finishes a frame. */
  lemma OnlyLeavingFinishes(ops: SimpleOps, op: byte, f: Frame, depth: nat, w: World)
    requires f.pc <= |f.code|
    ensures Execute(ops, op, f, depth, w).Finish? ==> op == 0x00 || op == 0xF3 || op == 0xFD
  {}

  /** What is left of a frame's gas when it ends. */
  function LeftOver(f: Frame): int {
    if Stops(f) then f.gas
    else if HandsBack(f, 0xF3) || HandsBack(f, 0xFD) then
      f.gas - Extension(|f.memory| / 32, Reach(f.stack[|f.stack| - 1], f.stack[|f.stack| - 2]))
    else 0
  }

  /** What the last frame of a call leaves in the return buffer: the region it hands back, or nothing. */
  ghost predicate Returned(f: Frame, data: Bytes) {
    if !Stops(f) && (HandsBack(f, 0xF3) || HandsBack(f, 0xFD))
    then IsRegion(data, f.memory, f.stack[|f.stack| - 1], f.stack[|f.stack| - 2])
    else data == []
  }

  /** A frame that ends is told by its last opcode: it has stopped, it hands back memory, or it has failed. */
  lemma Ending(ops: SimpleOps, f: Frame, depth: nat, w: World)
    requires Dispatch(ops, f, depth, w).Finish? || Dispatch(ops, f, depth, w).Fail?
    ensures var e := Dispatch(ops, f, depth, w);
            && (e.Finish? <==> Stops(f) || HandsBack(f, 0xF3) || HandsBack(f, 0xFD))
            && (e.Finish? ==> && (e.success <==> Stops(f) || HandsBack(f, 0xF3)) && e.frame.gas == LeftOver(f)
                              && Returned(f, if e.output.Some? then e.output.value else []))
  {
    if f.pc < |f.code| {
      var op := f.code[f.pc];
      OnlyLeavingFinishes(ops, op, Fetched(f), depth, w);
      if op == 0xF3 { LeaveIs(Fetched(f), w, true); }
      else if op == 0xFD { LeaveIs(Fetched(f), w, false); }
    }
  }

  /** The step that ends a call: the flag is one exactly when the frame stopped or executed RETURN, the caller gets
      the gas the frame had left, and the return buffer holds what it handed back. */
  lemma CallEnds(ops: SimpleOps, gas: nat, s: State)
    requires Step(ops, gas, s).Running? && |Step(ops, gas, s).state.parents| < |s.parents|
    ensures var f, caller, t := s.frame, s.parents[|s.parents| - 1], Step(ops, gas, s).state;
            && t.frame.stack == caller.stack + [if Stops(f) || HandsBack(f, 0xF3) then 1 else 0]
            && t.frame.gas == caller.gas + LeftOver(f) && Returned(f, t.returnData)
  {
    Ending(ops, s.frame, |s.parents|, s.world);
  }

  /** From the step that opens a frame to the step that closes it, whatever runs in between: the caller gets its
      frame back, answered as the last frame of the call ended. */
  lemma CallAnswered(oracle: Oracle, n: nat, gas: nat, run: seq<State>)
    requires IsRun(oracle, n, gas, run) && |run| > 1
    requires WithinLimits(run[0]) && |run[0].parents| > 0
    requires forall i | 0 <= i < |run| - 1 :: |run[0].parents| <= |run[i].parents|
    requires |run[|run| - 1].parents| < |run[0].parents|
    ensures var caller, f, t := run[0].parents[|run[0].parents| - 1], run[|run| - 2].frame, run[|run| - 1];
            && Answered(caller, t)
            && t.frame.stack == caller.stack + [if Stops(f) || HandsBack(f, 0xF3) then 1 else 0]
            && t.frame.gas == caller.gas + LeftOver(f) && Returned(f, t.returnData)
  {
    CallReturns(oracle, n, gas, run);
    CallerIsLast(oracle, n, gas, run);
    ShorterRun(oracle, n, gas, run);
    var s, t := run[|run| - 2], run[|run| - 1];
    assert StepAt(oracle, n + |run| - 2, gas, s) == Running(t);
    CallEnds(oracle(n + |run| - 2, s.returnData), gas, s);
  }

  /** On the last step of a call its caller is the last to wait. */
  lemma CallerIsLast(oracle: Oracle, n: nat, gas: nat, run: seq<State>)
    requires IsRun(oracle, n, gas, run) && |run| > 1 && |run[0].parents| > 0
    requires forall i | 0 <= i < |run| - 1 :: |run[0].parents| <= |run[i].parents|
    requires |run[|run| - 1].parents| < |run[0].parents|
    ensures run[|run| - 2].parents == run[0].parents
  {
    var d, s, shorter := |run[0].parents|, run[|run| - 2], run[..|run| - 1];
    ShorterRun(oracle, n, gas, run);
    forall i | 0 <= i < |shorter| ensures d <= |shorter[i].parents| { assert shorter[i] == run[i]; }
    CallersWait(oracle, n, gas, shorter, d);
    AfterKeepsCallers(gas, s, Dispatch(oracle(n + |run| - 2, s.returnData), s.frame, |s.parents|, s.world));
    assert s.parents[..d] == s.parents && run[0].parents[..d] == run[0].parents;
  }

  /** The step that ends a run: success exactly when the root frame stopped or executed RETURN, the gas used is what
      the frame has not left over, and the output is what it handed back, or what the last call returned if it
      stopped. */
  lemma RunEnds(ops: SimpleOps, gas: nat, s: State)
    requires s.parents == [] && Step(ops, gas, s).Done?
    ensures var f, r := s.frame, Step(ops, gas, s);
            && (r.success <==> Stops(f) || HandsBack(f, 0xF3)) && r.gasUsed == gas - LeftOver(f)
            && (if Stops(f) then r.output == s.returnData else Returned(f, r.output))
            && r.refund == (if r.success then r.world.refund else 0)
  {
    EnterDepthAt(ops, s);
    Ending(ops, s.frame, 0, s.world);
  }

  lemma EnterDepthAt(ops: SimpleOps, s: State)
    ensures Dispatch(ops, s.frame, |s.parents|, s.world).Enter? ==> |s.parents| + 1 < FRAME_POOL_SIZE
  {
    var f := s.frame;
    if f.pc < |f.code| { EnterDepth(ops, f.code[f.pc], Fetched(f), |s.parents|, s.world); }
  }
}
