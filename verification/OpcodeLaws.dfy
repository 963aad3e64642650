/** What a step does, by the opcode at the program counter and the words on the stack. */
module OpcodeLaws {
  import opened Bytes
  import opened World
  import opened Machine
  import opened MachineSteps
  import opened MachineRuns
  import Jumpdest

  /** The next opcode. */
  predicate At(s: State, op: byte) {
    s.frame.pc < |s.frame.code| && s.frame.code[s.frame.pc] == op
  }

  /** The i-th word from the top. */
  function Word(s: State, i: nat): nat
    requires i < |s.frame.stack|
  {
    s.frame.stack[|s.frame.stack| - 1 - i]
  }

  /** The frame goes on. */
  predicate GoesOn(s: State, next: Next) {
    next.Running? && |next.state.parents| == |s.parents|
  }

  /** Nothing but the frame has changed. */
  predicate OnlyFrame(s: State, t: State) {
    t.parents == s.parents && t.returnData == s.returnData && t.world == s.world
  }

  // ---------------------------------------------------------------------------
  // Jumps, pushes and copies
  // ---------------------------------------------------------------------------

  /** A jump destination: the byte 0x5B, at the start of an instruction. */
  predicate Lands(code: Bytes, dest: nat) {
    dest < TWO_64 && dest < |code| && code[dest] == 0x5B && Jumpdest.Boundary(code, dest)
  }

  /** The first instruction starts at zero, each one where the one before it ends, and nothing in the bytes that
      PUSH1 to PUSH32 carry is one. */
  lemma InstructionsFollow(code: Bytes, p: nat, q: nat)
    requires Jumpdest.Boundary(code, p) && p < |code|
    ensures var next := p + 1 + (if 0x60 <= code[p] <= 0x7F then code[p] - 0x5F else 0);
            Jumpdest.Boundary(code, 0) && Jumpdest.Boundary(code, next)
            && (p < q < next ==> !Jumpdest.Boundary(code, q) && !Lands(code, q))
  {
    Jumpdest.BoundaryNext(code, p);
    if p < q < Jumpdest.NextPc(code, p) { Jumpdest.NoneBetween(code, 0, p, q); }
  }

  /** JUMP goes to the word on top, if and only if a jump destination is there and it can be paid. */
  lemma JumpLaw(ops: SimpleOps, gas: nat, s: State)
    requires At(s, 0x56)
    ensures GoesOn(s, Step(ops, gas, s))
            <==> |s.frame.stack| >= 1 && s.frame.gas >= 8 && Lands(s.frame.code, Word(s, 0))
    ensures GoesOn(s, Step(ops, gas, s)) ==>
              var f, t := s.frame, Step(ops, gas, s).state;
              && OnlyFrame(s, t)
              && t.frame == f.(pc := Word(s, 0), gas := f.gas - 8, stack := f.stack[..|f.stack| - 1])
  {}

  /** JUMPI goes to the word on top if the one below it is not zero, and otherwise on to the next opcode. */
  lemma JumpIfLaw(ops: SimpleOps, gas: nat, s: State)
    requires At(s, 0x57)
    ensures GoesOn(s, Step(ops, gas, s))
            <==> |s.frame.stack| >= 2 && s.frame.gas >= 10
                 && (Word(s, 1) != 0 ==> Lands(s.frame.code, Word(s, 0)))
    ensures GoesOn(s, Step(ops, gas, s)) ==>
              var f, t := s.frame, Step(ops, gas, s).state;
              && OnlyFrame(s, t)
              && t.frame == f.(pc := if Word(s, 1) == 0 then f.pc + 1 else Word(s, 0), gas := f.gas - 10,
                               stack := f.stack[..|f.stack| - 2])
  {}

  /** PUSH1 to PUSH32: the bytes after the opcode, as far as the code goes, read as a number. */
  lemma PushLaw(ops: SimpleOps, gas: nat, s: State, n: nat)
    requires 1 <= n <= 32 && At(s, 0x5F + n)
    ensures GoesOn(s, Step(ops, gas, s)) <==> |s.frame.stack| < 1024 && s.frame.gas >= 3
    ensures GoesOn(s, Step(ops, gas, s)) ==>
              var f, t := s.frame, Step(ops, gas, s).state;
              var end := if f.pc + 1 + n <= |f.code| then f.pc + 1 + n else |f.code|;
              && OnlyFrame(s, t) && t.frame.pc == f.pc + 1 + n && t.frame.gas == f.gas - 3
              && t.frame.stack == f.stack + [FromBigEndian(f.code[f.pc + 1..end])]
  {}

  /** DUP1 to DUP16 copy the n-th word from the top, if the operand array has room. */
  lemma DupLaw(ops: SimpleOps, gas: nat, s: State, n: nat)
    requires 1 <= n <= 16 && At(s, 0x7F + n)
    ensures GoesOn(s, Step(ops, gas, s))
            <==> n <= |s.frame.stack| < 1024 && s.frame.gas >= 3 && |s.frame.stack| < s.frame.capacity
    ensures GoesOn(s, Step(ops, gas, s)) ==>
              var f, t := s.frame, Step(ops, gas, s).state;
              && OnlyFrame(s, t)
              && t.frame == f.(pc := f.pc + 1, gas := f.gas - 3, stack := f.stack + [Word(s, n - 1)])
  {}

  // ---------------------------------------------------------------------------
  // Storage
  // ---------------------------------------------------------------------------

  /** SLOAD replaces the slot on top by the word stored there for the frame's own address. */
  lemma LoadLaw(ops: SimpleOps, gas: nat, s: State)
    requires At(s, 0x54)
    ensures GoesOn(s, Step(ops, gas, s))
            <==> |s.frame.stack| >= 1
                 && s.frame.gas >= if (s.frame.address, Word(s, 0)) in s.world.warmSlots then 100 else 2100
    ensures GoesOn(s, Step(ops, gas, s)) ==>
            var f, t := s.frame, Step(ops, gas, s).state;
            && t.frame.stack == f.stack[..|f.stack| - 1] + [Stored(s.world, (f.address, Word(s, 0)))]
            && t.frame.gas == f.gas - (if (f.address, Word(s, 0)) in s.world.warmSlots then 100 else 2100)
            && t.frame.pc == f.pc + 1 && t.world.storage == s.world.storage
            && t.world.warmSlots == s.world.warmSlots + {(f.address, Word(s, 0))}
  {}

  /** SSTORE stores the second word in the slot on top of the frame's own address, and nowhere else. */
  lemma StoreLaw(ops: SimpleOps, gas: nat, s: State)
    requires At(s, 0x55) && GoesOn(s, Step(ops, gas, s))
    ensures var f, t := s.frame, Step(ops, gas, s).state;
            && |f.stack| >= 2 && !f.isStatic
            && t.world.storage == s.world.storage[(f.address, Word(s, 0)) := Word(s, 1)]
            && t.frame.stack == f.stack[..|f.stack| - 2] && t.frame.pc == f.pc + 1
            && t.frame.address == f.address
  {}

  /** The price of a store: 20000 to fill an empty slot and 2900 to change a full one, the first time in the
      transaction; 100 for a store that changes nothing or changes a slot again; and 2100 more for a cold slot. */
  predicate StoreCosts(cold: bool, original: nat, current: nat, value: nat, cost: int) {
    var rest := cost - if cold then 2100 else 0;
    && (value == current || current != original ==> rest == 100)
    && (value != current && current == original ==> rest == if original == 0 then 20000 else 2900)
  }

  /** The refund of a store: 4800 for emptying a slot that was full when the transaction began, taken back when it is
      filled again; and for putting back what was there at the beginning all of the price but 100. */
  predicate StoreEarns(original: nat, current: nat, value: nat, change: int) {
    && (value == current ==> change == 0)
    && (value != current && original == 0 ==> change == if value == 0 then 19900 else 0)
    && (value != current && original != 0
        ==> change == (if value == 0 then 4800 else 0) - (if current == 0 then 4800 else 0)
                      + (if value == original then 2800 else 0))
  }

  /** An SSTORE succeeds if and only if the frame may write, has both words, more than 2300 gas and the price. */
  lemma StoreGoesOnIff(ops: SimpleOps, gas: nat, s: State, cost: int)
    requires At(s, 0x55) && |s.frame.stack| >= 2
    requires var k := (s.frame.address, Word(s, 0));
             StoreCosts(k !in s.world.warmSlots, Original(s.world, k), Stored(s.world, k), Word(s, 1), cost)
    ensures GoesOn(s, Step(ops, gas, s)) <==> !s.frame.isStatic && s.frame.gas > 2300 && s.frame.gas >= cost
    ensures GoesOn(s, Step(ops, gas, s)) ==> Step(ops, gas, s).state.frame.gas == s.frame.gas - cost
  {}

  /** What it adds to the refund counter, which never falls below zero. */
  lemma StoreRefunds(ops: SimpleOps, gas: nat, s: State, change: int)
    requires At(s, 0x55) && GoesOn(s, Step(ops, gas, s)) && |s.frame.stack| >= 2
    requires var k := (s.frame.address, Word(s, 0));
             StoreEarns(Original(s.world, k), Stored(s.world, k), Word(s, 1), change)
    ensures var refund := s.world.refund + change;
            Step(ops, gas, s).state.world.refund == if refund < 0 then 0 else refund
  {}

  /** A word stored is the word loaded next from the same slot. */
  lemma LoadAfterStore(ops: SimpleOps, gas: nat, s: State, ops': SimpleOps)
    requires At(s, 0x55) && GoesOn(s, Step(ops, gas, s))
    requires var t := Step(ops, gas, s).state;
             At(t, 0x54) && GoesOn(t, Step(ops', gas, t)) && |t.frame.stack| >= 1 && |s.frame.stack| >= 2
             && Word(t, 0) == Word(s, 0)
    ensures var u := Step(ops', gas, Step(ops, gas, s).state).state;
            |u.frame.stack| >= 1 && Word(u, 0) == Word(s, 1)
  {
    StoreLaw(ops, gas, s);
    LoadLaw(ops', gas, Step(ops, gas, s).state);
  }

  /** Storage changes in no other way: if the word of a slot has changed, the step was an SSTORE of the frame that
      owns it. */
  lemma StorageChanges(ops: SimpleOps, gas: nat, s: State, k: SlotKey)
    requires Stored(WorldAfter(Step(ops, gas, s)), k) != Stored(s.world, k)
    ensures At(s, 0x55) && |s.frame.stack| >= 2 && k == (s.frame.address, Word(s, 0))
    ensures Stored(WorldAfter(Step(ops, gas, s)), k) == Word(s, 1)
  {
    var f := s.frame;
    if f.pc < |f.code| && f.code[f.pc] != 0x55 {
      var op := f.code[f.pc];
      if op == 0x54 { LoadIsQuiet(Fetched(f), s.world); }
      else { OthersKeepSlots(ops, op, Fetched(f), |s.parents|, s.world); }
    }
  }

  /** Over any run, through any nesting of calls, the word of a slot changes only if a frame that ran at the
      slot's own address executed an SSTORE to it. */
  lemma {:induction false} StorageOfRun(oracle: Oracle, n: nat, gas: nat, run: seq<State>, k: SlotKey) returns (i: nat)
    requires IsRun(oracle, n, gas, run) && Stored(run[|run| - 1].world, k) != Stored(run[0].world, k)
    ensures i < |run| - 1 && At(run[i], 0x55) && |run[i].frame.stack| >= 2 && k == (run[i].frame.address, Word(run[i], 0))
  {
    ShorterRun(oracle, n, gas, run);
    var last := |run| - 2;
    if Stored(run[last].world, k) != Stored(run[last + 1].world, k) {
      StorageChanges(oracle(n + last, run[last].returnData), gas, run[last], k);
      i := last;
    } else {
      i := StorageOfRun(oracle, n, gas, run[..|run| - 1], k);
    }
  }

  // ---------------------------------------------------------------------------
  // Memory and logs
  // ---------------------------------------------------------------------------

  /** `data` is what a memory holds from `offset` on; what lies past its end reads as zero. */
  ghost predicate IsRegion(data: Bytes, memory: Bytes, offset: nat, size: nat) {
    && |data| == size
    && forall i | 0 <= i < size :: data[i] == if offset + i < |memory| then memory[offset + i] else 0
  }

  lemma RegionOfMemory(memory: Bytes, offset: nat, size: nat, words: nat)
    requires RegionWords(offset, size).Some? && RegionWords(offset, size).value <= words
    ensures IsRegion(Slice(Expanded(memory, words), offset, size), memory, offset, size)
  {
    RegionInside(memory, offset, size, words);
  }

  /** Words of 32 bytes to reach the end of a region. */
  function Reach(offset: nat, size: nat): nat {
    if size == 0 then 0 else (offset + size + 31) / 32
  }

  /** The price of a memory of that many words. */
  function Rent(words: nat): nat {
    3 * words + words * words / 512
  }

  /** What having `words` words costs a memory of `have` words. */
  function Extension(have: nat, words: nat): int {
    if words <= have then 0 else Rent(words) - Rent(have)
  }

  /** A memory region within 2^37 bytes, or an empty one. */
  predicate Reachable(offset: nat, size: nat) {
    size == 0 || offset + size < 0x20_0000_0000
  }

  /** The price of a log: 375, as much again for every topic, 8 for every byte, and the memory. */
  function LogPrice(s: State, n: nat): int
    requires |s.frame.stack| >= 2
  {
    375 + 375 * n + 8 * Word(s, 1) + Extension(|s.frame.memory| / 32, Reach(Word(s, 0), Word(s, 1)))
  }

  /** A log is written if and only if the frame may write, the words are there, the region can be reached, and the
      price can be paid. */
  lemma LogGoesOnIff(ops: SimpleOps, gas: nat, s: State, n: nat)
    requires n <= 4 && At(s, 0xA0 + n)
    ensures GoesOn(s, Step(ops, gas, s))
            <==> && |s.frame.stack| >= 2 + n && !s.frame.isStatic && Word(s, 0) < TWO_64 && Word(s, 1) < TWO_64
                 && Reachable(Word(s, 0), Word(s, 1)) && s.frame.gas >= LogPrice(s, n)
    ensures GoesOn(s, Step(ops, gas, s)) ==> Step(ops, gas, s).state.frame.gas == s.frame.gas - LogPrice(s, n)
  {}

  /** LOG0 to LOG4 append one log: of the frame's own address, with the words below offset and size as topics,
      and the memory region they name as data. */
  lemma LogLaw(ops: SimpleOps, gas: nat, s: State, n: nat)
    requires n <= 4 && At(s, 0xA0 + n) && GoesOn(s, Step(ops, gas, s))
    ensures var f, t := s.frame, Step(ops, gas, s).state;
            && |f.stack| >= 2 + n && !f.isStatic && |t.world.logs| == |s.world.logs| + 1 && s.world.logs <= t.world.logs
            && t.frame.stack == f.stack[..|f.stack| - 2 - n]
    ensures var log := Step(ops, gas, s).state.world.logs[|s.world.logs|];
            && log.address == s.frame.address && |log.topics| == n
            && (forall i | 0 <= i < n :: log.topics[i] == Word(s, 2 + i))
            && IsRegion(log.data, s.frame.memory, Word(s, 0), Word(s, 1))
  {
    LogStep(Fetched(s.frame), s.world, n);
    LogRegion(Fetched(s.frame), s.world, n);
  }

  lemma LogRegion(f: Frame, w: World, n: nat)
    requires WriteLog(f, w, n).Continue?
    ensures |f.stack| >= 2 + n && |WriteLog(f, w, n).world.logs| == |w.logs| + 1
    ensures var log := WriteLog(f, w, n).world.logs[|w.logs|];
            log.address == f.address && log.topics == Topics(f.stack, n)
            && IsRegion(log.data, f.memory, Peek(f.stack, 0), Peek(f.stack, 1))
  {
    LogStep(f, w, n);
    var offset, size := Peek(f.stack, 0), Peek(f.stack, 1);
    RegionOfMemory(f.memory, offset, size, RegionWords(offset, size).value);
  }

  lemma LogStep(f: Frame, w: World, n: nat)
    requires WriteLog(f, w, n).Continue?
    ensures |f.stack| >= 2 + n && !f.isStatic && RegionWords(Peek(f.stack, 0), Peek(f.stack, 1)).Some?
    ensures var words := RegionWords(Peek(f.stack, 0), Peek(f.stack, 1)).value;
            WriteLog(f, w, n).world.logs
            == w.logs + [Log(f.address, Topics(f.stack, n), Slice(Expanded(f.memory, words), Peek(f.stack, 0), Peek(f.stack, 1)))]
    ensures WriteLog(f, w, n).frame.stack == Drop(f.stack, 2 + n)
  {}
}
