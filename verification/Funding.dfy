/** Refunds against gas over whole runs: what the refund counter may reach, given the gas spent and the
    slots that were warm without having been paid for. */
module Funding {
  import opened Bytes
  import opened World
  import opened Sums
  import opened Machine
  import opened MachineSteps
  import opened MachineRuns
  import Metering

  const COLD_SURCHARGE := 2000
  const UNPAID_ALLOWANCE := 1900
  const MARGIN := 100

  /** What has been paid for a warm slot at least: the cold price above that of a warm access, unless the
      slot became warm unpaid, and the price of its present value. */
  function Due(w: World, unpaid: set<SlotKey>, k: SlotKey): nat {
    (if k in unpaid then 0 else COLD_SURCHARGE) + Metering.Owed(Original(w, k), Stored(w, k))
  }

  ghost function Dues(w: World, unpaid: set<SlotKey>): map<SlotKey, nat> {
    map k | k in w.warmSlots :: Due(w, unpaid, k)
  }

  /** The gas spent covers what restores have earned and what is due for every warm slot. */
  ghost predicate Funded(w: World, unpaid: set<SlotKey>, spent: int) {
    && w.original.Keys <= w.warmSlots && unpaid <= w.warmSlots
    && spent >= w.settled + Sum(Dues(w, unpaid))
  }

  // ---------------------------------------------------------------------------
  // From dues to the bound
  // ---------------------------------------------------------------------------

  lemma FundedBounds(w: World, unpaid: set<SlotKey>, spent: int)
    requires Funded(w, unpaid, spent) && RefundsBalance(w)
    ensures w.refund + MARGIN * |w.warmSlots - unpaid| <= spent + UNPAID_ALLOWANCE * |unpaid|
  {
    DuesCover(w, unpaid);
    assert Dues(w, unpaid).Keys == w.warmSlots;
    SumCovered(PendingRefunds(w), Dues(w, unpaid), unpaid, MARGIN, UNPAID_ALLOWANCE);
  }

  lemma DuesCover(w: World, unpaid: set<SlotKey>)
    requires w.original.Keys <= w.warmSlots && unpaid <= w.warmSlots
    ensures Covered(PendingRefunds(w), Dues(w, unpaid), unpaid, MARGIN, UNPAID_ALLOWANCE)
  {
    forall k | k in w.warmSlots
      ensures At(PendingRefunds(w), k) <= Metering.Owed(Original(w, k), Stored(w, k)) + UNPAID_ALLOWANCE
    {
      Metering.PendingBound(Original(w, k), Stored(w, k));
    }
  }

  // ---------------------------------------------------------------------------
  // Accesses
  // ---------------------------------------------------------------------------

  lemma SameSlotsSameDues(w: World, v: World, unpaid: set<SlotKey>)
    requires v.warmSlots == w.warmSlots && v.original == w.original && v.storage == w.storage
    ensures Dues(v, unpaid) == Dues(w, unpaid)
  {}

  /** Warming a cold slot, charged or not. */
  lemma WarmingDues(w: World, unpaid: set<SlotKey>, k: SlotKey, charged: bool)
    requires k !in w.warmSlots && w.original.Keys <= w.warmSlots
    ensures Dues(WarmSlot(w, k), if charged then unpaid - {k} else unpaid + {k})
         == Dues(w, unpaid)[k := if charged then COLD_SURCHARGE else 0]
  {}

  lemma WarmingFunds(w: World, unpaid: set<SlotKey>, spent: int, k: SlotKey, charged: bool)
    requires Funded(w, unpaid, spent)
    ensures var cold := k !in w.warmSlots;
            Funded(WarmSlot(w, k), if cold && !charged then unpaid + {k} else unpaid,
                   spent + if cold && charged then COLD_SURCHARGE else 0)
  {
    if k in w.warmSlots {
      SameSlotsSameDues(w, WarmSlot(w, k), unpaid);
    } else {
      WarmingDues(w, unpaid, k, charged);
      assert unpaid - {k} == unpaid;
      SumUpdate(Dues(w, unpaid), k, if charged then COLD_SURCHARGE else 0);
    }
  }

  lemma StoreFunds(w: World, unpaid: set<SlotKey>, spent: int, k: SlotKey, value: nat)
    requires Funded(w, unpaid, spent) && k in w.warmSlots
    ensures Funded(StoreWithRefund(w, k, value), unpaid,
                   spent + Metering.StoreCost(false, Stored(w, k), Original(w, k), value))
  {
    var v := StoreWithRefund(w, k, value);
    DuesAfterStore(w, unpaid, k, value);
    SumUpdate(Dues(w, unpaid), k, Due(v, unpaid, k));
  }

  lemma DuesAfterStore(w: World, unpaid: set<SlotKey>, k: SlotKey, value: nat)
    requires k in w.warmSlots
    ensures var v := StoreWithRefund(w, k, value); Dues(v, unpaid) == Dues(w, unpaid)[k := Due(v, unpaid, k)]
  {
    var v := StoreWithRefund(w, k, value);
    forall j | j in w.warmSlots && j != k ensures Due(v, unpaid, j) == Due(w, unpaid, j) {
      assert Stored(v, j) == Stored(w, j) && Original(v, j) == Original(w, j);
    }
  }

  // ---------------------------------------------------------------------------
  // Opcodes
  // ---------------------------------------------------------------------------

  /** The slots an effect has warmed without charging for them. */
  function StarvedBy(w: World, e: Effect): set<SlotKey> {
    if e.Fail? then e.world.warmSlots - w.warmSlots else {}
  }

  lemma LoadFunds(f: Frame, w: World, unpaid: set<SlotKey>, spent: int)
    requires Funded(w, unpaid, spent)
    ensures var e := SLoad(f, w); Funded(e.world, unpaid + StarvedBy(w, e), spent + f.gas - EffectGas(e))
  {
    var e := SLoad(f, w);
    if |f.stack| >= 1 {
      var k := (f.address, Peek(f.stack, 0));
      WarmingFunds(w, unpaid, spent, k, e.Continue?);
      assert StarvedBy(w, e) == if k !in w.warmSlots && e.Fail? then {k} else {};
    }
    assert unpaid + {} == unpaid;
  }

  lemma ChargedStoreFunds(w: World, unpaid: set<SlotKey>, spent: int, k: SlotKey, value: nat)
    requires Funded(w, unpaid, spent)
    ensures Funded(StoreWithRefund(WarmSlot(w, k), k, value), unpaid,
                   spent + Metering.StoreCost(k !in w.warmSlots, Stored(w, k), Original(w, k), value))
  {
    var cold := k !in w.warmSlots;
    WarmingFunds(w, unpaid, spent, k, true);
    StoreFunds(WarmSlot(w, k), unpaid, spent + if cold then COLD_SURCHARGE else 0, k, value);
  }

  lemma StarvedStoreFunds(w: World, unpaid: set<SlotKey>, spent: int, k: SlotKey, more: int)
    requires Funded(w, unpaid, spent) && more >= spent
    ensures Funded(WarmSlot(w, k), unpaid + (WarmSlot(w, k).warmSlots - w.warmSlots), more)
  {
    WarmingFunds(w, unpaid, spent, k, false);
    assert WarmSlot(w, k).warmSlots - w.warmSlots == if k in w.warmSlots then {} else {k};
    assert unpaid + {} == unpaid;
  }

  lemma SStoreFunds(f: Frame, w: World, unpaid: set<SlotKey>, spent: int)
    requires Funded(w, unpaid, spent)
    ensures var e := SStore(f, w); Funded(e.world, unpaid + StarvedBy(w, e), spent + f.gas - EffectGas(e))
  {
    var e := SStore(f, w);
    assert unpaid + {} == unpaid;
    if f.isStatic || |f.stack| < 2 {
      QuietFunds(w, w, unpaid, spent, spent + f.gas);
      assert StarvedBy(w, e) == {};
    } else {
      var k := (f.address, Peek(f.stack, 0));
      if e.Continue? { ChargedStoreFunds(w, unpaid, spent, k, Peek(f.stack, 1)); }
      else { StarvedStoreFunds(w, unpaid, spent, k, spent + f.gas); }
    }
  }

  lemma QuietFunds(w: World, v: World, unpaid: set<SlotKey>, spent: int, more: int)
    requires Funded(w, unpaid, spent) && SameSlots(w, v) && more >= spent
    ensures Funded(v, unpaid, more)
  {
    SameSlotsSameDues(w, v, unpaid);
  }

  /** Every opcode pays for the slots it touches, or starves them. */
  lemma OpcodeFunds(ops: SimpleOps, op: byte, f: Frame, depth: nat, w: World, unpaid: set<SlotKey>, spent: int)
    requires f.pc <= |f.code| && Funded(w, unpaid, spent)
    ensures var e := Execute(ops, op, f, depth, w);
            Funded(e.world, unpaid + StarvedBy(w, e), spent + f.gas - EffectGas(e))
  {
    if op == 0x54 { LoadFunds(f, w, unpaid, spent); }
    else if op == 0x55 { SStoreFunds(f, w, unpaid, spent); }
    else {
      var e := Execute(ops, op, f, depth, w);
      OthersKeepSlots(ops, op, f, depth, w);
      OpcodeMeters(ops, op, f, depth, w);
      QuietFunds(w, e.world, unpaid, spent, spent + f.gas - EffectGas(e));
      assert unpaid + StarvedBy(w, e) == unpaid;
    }
  }

  // ---------------------------------------------------------------------------
  // Runs
  // ---------------------------------------------------------------------------

  function EffectAt(oracle: Oracle, n: nat, s: State): Effect {
    Dispatch(oracle(n, s.returnData), s.frame, |s.parents|, s.world)
  }

  /** The slots a run leaves warm and unpaid: those whose first access ran out of gas. */
  function Starved(oracle: Oracle, n: nat, initialGas: nat, s: State): set<SlotKey>
    decreases TotalGas(s), |s.parents|, Remaining(s.frame)
  {
    var next := StepAt(oracle, n, initialGas, s);
    StarvedBy(s.world, EffectAt(oracle, n, s))
    + if next.Running?
      then StepLowers(oracle(n, s.returnData), initialGas, s); Starved(oracle, n + 1, initialGas, next.state)
      else {}
  }

  lemma DispatchFunds(ops: SimpleOps, s: State, unpaid: set<SlotKey>, spent: int)
    requires Funded(s.world, unpaid, spent)
    ensures var e := Dispatch(ops, s.frame, |s.parents|, s.world);
            Funded(e.world, unpaid + StarvedBy(s.world, e), spent + s.frame.gas - EffectGas(e))
  {
    var f := s.frame;
    if f.pc < |f.code| { OpcodeFunds(ops, f.code[f.pc], Fetched(f), |s.parents|, s.world, unpaid, spent); }
    else { assert unpaid + {} == unpaid; }
  }

  /** Where a step ends a run, the gas it reports is at least what has been spent. */
  lemma LastStepReports(initialGas: nat, s: State, e: Effect)
    requires After(initialGas, s, e).Done?
    ensures var r := After(initialGas, s, e);
            r.world == e.world && r.refund <= r.world.refund
            && r.gasUsed >= initialGas - TotalGas(s) + s.frame.gas - EffectGas(e)
  {}

  lemma Regroup(a: set<SlotKey>, b: set<SlotKey>, c: set<SlotKey>)
    ensures a + b + c == a + (b + c) && a + b + {} == a + b
  {}

  lemma {:induction false} RunFunds(oracle: Oracle, n: nat, initialGas: nat, s: State, unpaid: set<SlotKey>)
    requires Funded(s.world, unpaid, initialGas - TotalGas(s))
    ensures var r := RunFrom(oracle, n, initialGas, s);
            r.Done? ==> Funded(r.world, unpaid + Starved(oracle, n, initialGas, s), r.gasUsed)
                        && r.refund <= r.world.refund
    decreases TotalGas(s), |s.parents|, Remaining(s.frame)
  {
    var ops, e := oracle(n, s.returnData), EffectAt(oracle, n, s);
    var next := StepAt(oracle, n, initialGas, s);
    var starved := StarvedBy(s.world, e);
    DispatchFunds(ops, s, unpaid, initialGas - TotalGas(s));
    if next.Running? {
      StepLowers(ops, initialGas, s);
      AfterSpends(initialGas, s, e);
      RunFunds(oracle, n + 1, initialGas, next.state, unpaid + starved);
      Regroup(unpaid, starved, Starved(oracle, n + 1, initialGas, next.state));
    } else if next.Done? {
      LastStepReports(initialGas, s, e);
      Regroup(unpaid, starved, {});
    }
  }

  /** A transaction that has not touched storage. */
  predicate Unwritten(w: World) {
    w.original == map[] && w.refund == 0 && w.settled == 0
  }

  lemma StartsFunded(w: World)
    requires Unwritten(w)
    ensures Funded(w, w.warmSlots, 0) && RefundsBalance(w)
  {
    SumOfZeros(Dues(w, w.warmSlots));
    assert PendingRefunds(w) == map[];
  }

  /** Over any run the refund stays within the gas used plus 1900 for every slot that became warm unpaid:
      listed in advance, or starved. For every other warm slot at least 100 is kept. */
  lemma RefundWithinGas(oracle: Oracle, n: nat, s: State)
    requires Unwritten(s.world) && s.parents == []
    ensures var r := RunFrom(oracle, n, s.frame.gas, s);
            var unpaid := s.world.warmSlots + Starved(oracle, n, s.frame.gas, s);
            r.Done? ==> r.refund + MARGIN * |r.world.warmSlots - unpaid| <= r.gasUsed + UNPAID_ALLOWANCE * |unpaid|
  {
    var gas := s.frame.gas;
    var r := RunFrom(oracle, n, gas, s);
    StartsFunded(s.world);
    RunFunds(oracle, n, gas, s, s.world.warmSlots);
    RunKeepsRefunds(oracle, n, gas, s);
    if r.Done? { FundedBounds(r.world, s.world.warmSlots + Starved(oracle, n, gas, s), r.gasUsed); }
  }

  /** When every slot was charged at its first access, a run that touched storage is refunded less than the
      gas it used. */
  lemma ChargedRefundBelowGas(oracle: Oracle, n: nat, s: State)
    requires Unwritten(s.world) && s.parents == []
    requires s.world.warmSlots == {} && Starved(oracle, n, s.frame.gas, s) == {}
    ensures var r := RunFrom(oracle, n, s.frame.gas, s);
            r.Done? ==> r.refund <= r.gasUsed && (r.world.warmSlots != {} ==> r.refund < r.gasUsed)
  {
    RefundWithinGas(oracle, n, s);
    var r := RunFrom(oracle, n, s.frame.gas, s);
    if r.Done? && r.world.warmSlots != {} {
      var k :| k in r.world.warmSlots;
      assert k in r.world.warmSlots - ({} + {});
    }
  }

  // ---------------------------------------------------------------------------
  // A run refunded more than it used
  // ---------------------------------------------------------------------------

  /** DELEGATECALL to address 9 with three gas, then clear slot zero. */
  const CLEARING_CODE: Bytes := [0x60, 0, 0x60, 0, 0x60, 0, 0x60, 0, 0x60, 9, 0x60, 3, 0xF4, 0x60, 0, 0x60, 0, 0x55]

  /** Load slot zero. */
  const LOADING_CODE: Bytes := [0x60, 0, 0x54]

  // Each lemma follows the run for a while: from step `n` and state `s` it leads to step `m` and state `t`.

  lemma PushRun(oracle: Oracle, n: nat, gas: nat, s: State, v: byte) returns (m: nat, t: State)
    requires s.frame.pc + 1 < |s.frame.code| && s.frame.code[s.frame.pc] == 0x60 && s.frame.code[s.frame.pc + 1] == v
    requires s.frame.gas >= GAS_PUSH && |s.frame.stack| < s.frame.capacity == INITIAL_CAPACITY
    ensures RunFrom(oracle, n, gas, s) == RunFrom(oracle, m, gas, t)
    ensures var f := s.frame;
            t == s.(frame := f.(pc := f.pc + 2, gas := f.gas - GAS_PUSH, stack := f.stack + [v]))
  {
    var f := Fetched(s.frame);
    assert f.code[f.pc..f.pc + 1] == [v];
    assert FromBigEndian([v]) == v by { assert [v][..0] == []; }
    assert Immediate(f, 1) == v;
    m, t := n + 1, StepAt(oracle, n, gas, s).state;
  }

  /** A frame of the clearing contract. */
  function Clearing(address: Address, pc: nat, gas: nat, stack: seq<nat>): Frame {
    Frame(pc, gas, stack, INITIAL_CAPACITY, [], CLEARING_CODE, false, 1, address, 0, [], 0, 0)
  }

  function Loading(address: Address, pc: nat, gas: nat, stack: seq<nat>): Frame {
    Frame(pc, gas, stack, INITIAL_CAPACITY, [], LOADING_CODE, false, 1, address, 0, [], 0, 0)
  }

  /** Two pushes of the clearing contract. */
  lemma PushTwice(oracle: Oracle, n: nat, gas: nat, s: State, address: Address, pc: nat, left: nat, stack: seq<nat>,
                  u: byte, v: byte) returns (m: nat, t: State)
    requires s.frame == Clearing(address, pc, left, stack) && left >= 6 && |stack| < 10 && pc < 15
    requires CLEARING_CODE[pc] == CLEARING_CODE[pc + 2] == 0x60
    requires CLEARING_CODE[pc + 1] == u && CLEARING_CODE[pc + 3] == v
    ensures RunFrom(oracle, n, gas, s) == RunFrom(oracle, m, gas, t)
    ensures t == s.(frame := Clearing(address, pc + 4, left - 6, stack + [u, v]))
  {
    m, t := PushRun(oracle, n, gas, s, u);
    m, t := PushRun(oracle, m, gas, t, v);
    assert stack + [u] + [v] == stack + [u, v];
  }

  // The arguments of the call.

  lemma ArgumentsRun(oracle: Oracle, n: nat, gas: nat, s: State, address: Address) returns (m: nat, t: State)
    requires s.frame == Clearing(address, 0, 3100, [])
    ensures RunFrom(oracle, n, gas, s) == RunFrom(oracle, m, gas, t)
    ensures t == s.(frame := Clearing(address, 4, 3094, [0, 0]))
  {
    m, t := PushTwice(oracle, n, gas, s, address, 0, 3100, [], 0, 0);
    assert [] + [0, 0] == [0, 0];
  }

  lemma MoreArguments(oracle: Oracle, n: nat, gas: nat, s: State, address: Address) returns (m: nat, t: State)
    requires s.frame == Clearing(address, 4, 3094, [0, 0])
    ensures RunFrom(oracle, n, gas, s) == RunFrom(oracle, m, gas, t)
    ensures t == s.(frame := Clearing(address, 8, 3088, [0, 0, 0, 0]))
  {
    m, t := PushTwice(oracle, n, gas, s, address, 4, 3094, [0, 0], 0, 0);
    assert [0, 0] + [0, 0] == [0, 0, 0, 0];
  }

  lemma LastArguments(oracle: Oracle, n: nat, gas: nat, s: State, address: Address) returns (m: nat, t: State)
    requires s.frame == Clearing(address, 8, 3088, [0, 0, 0, 0])
    ensures RunFrom(oracle, n, gas, s) == RunFrom(oracle, m, gas, t)
    ensures t == s.(frame := Clearing(address, 12, 3082, [0, 0, 0, 0, 9, 3]))
  {
    m, t := PushTwice(oracle, n, gas, s, address, 8, 3088, [0, 0, 0, 0], 9, 3);
    assert [0, 0, 0, 0] + [9, 3] == [0, 0, 0, 0, 9, 3];
  }

  lemma CallRun(oracle: Oracle, n: nat, gas: nat, s: State, address: Address) returns (m: nat, t: State)
    requires s.frame == Clearing(address, 12, 3082, [0, 0, 0, 0, 9, 3]) && s.parents == []
    requires Code(s.world, 9) == LOADING_CODE && 9 in s.world.warmAddresses
    ensures RunFrom(oracle, n, gas, s) == RunFrom(oracle, m, gas, t)
    ensures t == s.(frame := Loading(address, 0, 3, []), parents := [Clearing(address, 13, 2979, [])])
  {
    var f := Fetched(s.frame);
    var a := PopArgs(DelegateCall, f.stack);
    assert a == CallArgs(3, 9, 0, 0, 0, 0, 0);
    assert WarmAddress(s.world, 9) == s.world;
    assert Drop(f.stack, 6) == [];
    assert PrepareCall(DelegateCall, f, 0, s.world) == Priced(f.(gas := 2979, stack := []), a, 3, s.world);
    m, t := n + 1, StepAt(oracle, n, gas, s).state;
  }

  /** The child warms the slot and runs out of gas. */
  lemma StarvingRun(oracle: Oracle, n: nat, gas: nat, s: State, address: Address) returns (m: nat, t: State)
    requires s.frame == Loading(address, 0, 3, []) && s.parents == [Clearing(address, 13, 2979, [])]
    requires (address, 0) !in s.world.warmSlots
    ensures RunFrom(oracle, n, gas, s) == RunFrom(oracle, m, gas, t)
    ensures t == State(Clearing(address, 13, 2979, [0]), [], [], WarmSlot(s.world, (address, 0)))
  {
    m, t := PushRun(oracle, n, gas, s, 0);
    var u := StepAt(oracle, m, gas, t).state;
    m, t := m + 1, u;
  }

  /** The caller clears the slot at the warm price. */
  lemma StoreRun(oracle: Oracle, n: nat, gas: nat, s: State, address: Address) returns (m: nat, t: State)
    requires s.frame == Clearing(address, 13, 2979, [0]) && s.parents == [] && Unwritten(s.world)
    requires (address, 0) in s.world.warmSlots && Stored(s.world, (address, 0)) != 0
    ensures RunFrom(oracle, n, gas, s) == RunFrom(oracle, m, gas, t)
    ensures t.frame == Clearing(address, 18, 73, [0]) && t.parents == [] && t.world.refund == 4800
  {
    m, t := PushRun(oracle, n, gas, s, 0);
    m, t := PushRun(oracle, m, gas, t, 0);
    var u := StepAt(oracle, m, gas, t).state;
    m, t := m + 1, u;
  }

  lemma StopRun(oracle: Oracle, n: nat, gas: nat, s: State)
    requires s.frame.pc == |s.frame.code| && s.parents == []
    ensures var r := RunFrom(oracle, n, gas, s);
            r.Done? && r.success && r.gasUsed == gas - s.frame.gas && r.refund == s.world.refund
  {}

  /** From a root frame and no warm slot, a run that uses 3027 gas is refunded 4800: its only slot was
      starved. */
  lemma StarvedRun(oracle: Oracle, n: nat, gas: nat, s: State, address: Address)
    requires s == State(Clearing(address, 0, 3100, []), [], [], s.world) && gas == s.frame.gas
    requires Unwritten(s.world) && s.world.warmSlots == {} && Stored(s.world, (address, 0)) != 0
    requires 9 in s.world.warmAddresses && Code(s.world, 9) == LOADING_CODE
    ensures var r := RunFrom(oracle, n, gas, s);
            IsStart(s) && r.Done? && r.success && r.gasUsed == 3027 && r.refund == 4800
  {
    var m, t := ArgumentsRun(oracle, n, gas, s, address);
    m, t := MoreArguments(oracle, m, gas, t, address);
    m, t := LastArguments(oracle, m, gas, t, address);
    m, t := CallRun(oracle, m, gas, t, address);
    m, t := StarvingRun(oracle, m, gas, t, address);
    m, t := StoreRun(oracle, m, gas, t, address);
    StopRun(oracle, m, gas, t);
  }
}
