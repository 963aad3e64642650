/** The block executor: a loop over transactions that updates the world and the gas used in place. */
module Executor {
  import opened Bytes
  import opened World
  import opened Machine
  import opened Settlement
  import Interpreter

  class BlockExecutor {
    const out: Outside
    const block: Block
    var world: World
    var gasUsed: nat
    var receipts: nat
    var rejected: nat

    constructor (out: Outside, block: Block, world: World)
      ensures this.out == out && this.block == block && State() == Progress(world, 0, 0, 0)
    {
      this.out, this.block, this.world := out, block, world;
      gasUsed, receipts, rejected := 0, 0, 0;
    }

    ghost function State(): Progress
      reads this
    {
      Progress(world, gasUsed, receipts, rejected)
    }

    method WarmAccessList(list: seq<(Address, seq<nat>)>)
      modifies this`world
      ensures world == WarmList(old(world), list)
    {
      var i := 0;
      assert list[0..] == list;
      while i < |list|
        invariant 0 <= i <= |list|
        invariant WarmList(world, list[i..]) == WarmList(old(world), list)
      {
        var (address, keys) := list[i];
        ghost var rest := list[i..];
        assert rest[0] == list[i] && rest[1..] == list[i + 1..];
        world := WarmAddress(world, address);
        WarmEntryKeys(address, keys);
        i := i + 1;
      }
    }

    method WarmEntryKeys(address: Address, keys: seq<nat>)
      modifies this`world
      ensures world == WarmKeys(old(world), address, keys)
    {
      var j := 0;
      assert keys[0..] == keys;
      while j < |keys|
        invariant 0 <= j <= |keys|
        invariant WarmKeys(world, address, keys[j..]) == WarmKeys(old(world), address, keys)
      {
        ghost var rest := keys[j..];
        assert rest[0] == keys[j] && rest[1..] == keys[j + 1..];
        world := WarmSlot(world, (address, keys[j]));
        j := j + 1;
      }
    }

    /** Run the code and work out the bill; nothing when the run overruns a stack. */
    method RunCode(index: nat, tx: Tx, target: Address) returns (bill: Option<(bool, nat)>)
      requires IntrinsicGas(tx) <= tx.gasLimit
      modifies this`world
      ensures Outcome(bill, world) == Settlement.RunCode(out.oracles(index), tx, target, old(world))
    {
      if tx.recipient.None? {
        world := CreateContract(world, target);
      }
      var frame := StartFrame(tx, target, world);
      world := ResetEvm(world);
      var evm := new Interpreter.Evm(out.oracles(index));
      var result := evm.Execute(frame, world);
      assert result == RunFor(out.oracles(index), tx, target, old(world));
      RunWithinLimit(out.oracles(index), tx, target, old(world));
      bill := Charge(tx, target, result);
    }

    /** On success the refund, capped at a fifth, comes off and a creation stores its code; on failure all gas
        is charged. */
    method Charge(tx: Tx, target: Address, result: Next) returns (bill: Option<(bool, nat)>)
      requires !result.Running?
      requires result.Done? ==> 0 <= result.gasUsed <= tx.gasLimit - IntrinsicGas(tx)
      modifies this`world
      ensures Outcome(bill, world) == Billed(tx, target, result)
    {
      world := result.world;
      if result.Overrun? { return None; }
      if result.success {
        var total := IntrinsicGas(tx) + result.gasUsed;
        var cap := total / 5;
        var refund := if result.refund < cap then result.refund else cap;
        if tx.recipient.None? && |result.output| > 0 {
          world := world.(codes := world.codes[target := result.output]);
        }
        return Some((true, total - refund));
      }
      return Some((false, tx.gasLimit));
    }

    /** The outcome a bill stands for. */
    ghost function Outcome(bill: Option<(bool, nat)>, w: World): Option<Settlement.Outcome> {
      if bill.None? then None else Some(Settlement.Outcome(bill.value.0, bill.value.1, w))
    }

    method MoveAndRun(index: nat, tx: Tx, target: Address) returns (bill: Option<(bool, nat)>)
      requires IntrinsicGas(tx) <= tx.gasLimit
      modifies this`world
      ensures Outcome(bill, world) == Settlement.MoveAndRun(out.oracles(index), tx, target, old(world))
    {
      if tx.amount != 0 {
        var (debited, ok) := SubBalance(world, tx.sender, tx.amount);
        world := debited;
        if !ok { return Some((false, tx.gasLimit)); }
        world := AddBalance(world, target, tx.amount).0;
      }
      bill := RunCode(index, tx, target);
    }

    method PayOut(tx: Tx, used: nat)
      requires used <= tx.gasLimit
      modifies this`world
      ensures world == Settle(block, tx, used, old(world))
    {
      var price := EffectivePrice(tx.fees, block.baseFee);
      var remaining := tx.gasLimit - used;
      if remaining > 0 {
        world := AddBalance(world, tx.sender, Wrap(price * remaining)).0;
      }
      var priority := Wrap(price - block.baseFee);
      world := AddBalance(world, block.coinbase, Wrap(priority * used)).0;
    }

    /** A validated transaction: buy its gas, prepare, run, and settle. */
    method ExecuteTransaction(index: nat, tx: Tx) returns (r: Result)
      requires IntrinsicGas(tx) <= tx.gasLimit
      modifies this`world, this`gasUsed
      ensures r == ExecuteTx(out, index, block, old(world), tx)
      ensures r.Ran? ==> world == r.executed.world && gasUsed == old(gasUsed) + r.executed.gasUsed
      ensures r.Rejected? ==> world == old(world) && gasUsed == old(gasUsed)
    {
      var (bought, paid) := SubBalance(world, tx.sender, GasCost(block, tx));
      if !paid { return Rejected; }
      world := bought;
      var target := Target(out, world, tx);
      world := BumpNonce(world, tx.sender);
      world := WarmAddress(world, tx.sender);
      world := WarmAddress(world, target);
      WarmAccessList(tx.accessList);
      var bill := MoveAndRun(index, tx, target);
      if bill.None? { return Undefined; }
      PayOut(tx, bill.value.1);
      gasUsed := gasUsed + bill.value.1;
      return Ran(Executed(bill.value.0, bill.value.1, world));
    }

    /** The world and the gas used after a transaction. */
    ghost predicate Moved(r: Result, w: World, used: nat)
      reads this
    {
      && (r.Ran? ==> world == r.executed.world && gasUsed == used + r.executed.gasUsed)
      && (r.Rejected? ==> world == w && gasUsed == used)
    }

    method Attempt(index: nat, tx: Tx) returns (r: Result)
      modifies this`world, this`gasUsed
      ensures r == Settlement.Attempt(out, index, block, old(world), old(gasUsed), tx)
      ensures Moved(r, old(world), old(gasUsed))
    {
      var verdict := Validate(world, block, tx, gasUsed);
      if verdict.Valid? { r := ExecuteTransaction(index, tx); } else { r := Rejected; }
    }

    /** Enter a receipt or a rejection. */
    method Count(r: Result, ghost p: Progress, ghost w: World) returns (q: Option<Progress>)
      requires Moved(r, w, p.gasUsed) && receipts == p.receipts && rejected == p.rejected
      modifies this`receipts, this`rejected
      ensures q == Record(p, w, r) && (q.Some? ==> State() == q.value)
    {
      match r {
        case Ran(_) => receipts := receipts + 1;
        case Rejected => rejected := rejected + 1;
        case Undefined => return None;
      }
      return Some(Progress(world, gasUsed, receipts, rejected));
    }

    method ProcessOne(index: nat, tx: Tx) returns (q: Option<Progress>)
      modifies this
      ensures q == ProcessTx(out, index, block, old(State()), tx) && (q.Some? ==> State() == q.value)
    {
      world := BeginTransaction(world);
      var r := Attempt(index, tx);
      q := Count(r, old(State()), BeginTransaction(old(world)));
    }

    /** A whole block, unless a transaction in it overruns a stack. While supply and prices stay below 2^256, the
        balances fall by exactly the base fee times the gas used, and the gas used stays within the block's
        limit. */
    method Run(txs: seq<Tx>) returns (defined: bool)
      requires gasUsed == 0
      modifies this
      ensures var p := Process(out, 0, block, old(State()), txs); defined == p.Some? && (defined ==> State() == p.value)
      ensures defined && Supply(old(world)) < TWO_256 && (forall i | 0 <= i < |txs| :: NoOverflow(block, txs[i]))
              ==> Supply(world) + block.baseFee * gasUsed == Supply(old(world)) && gasUsed <= block.gasLimit
    {
      ghost var start := State();
      if Supply(start.world) < TWO_256 && (forall i | 0 <= i < |txs| :: NoOverflow(block, txs[i])) {
        BlockConserves(out, 0, block, start, txs);
      }
      var i := 0;
      assert txs[0..] == txs;
      while i < |txs|
        invariant 0 <= i <= |txs|
        invariant Process(out, i, block, State(), txs[i..]) == Process(out, 0, block, start, txs)
      {
        ghost var rest := txs[i..];
        assert rest[0] == txs[i] && rest[1..] == txs[i + 1..];
        var q := ProcessOne(i, txs[i]);
        if q.None? { return false; }
        i := i + 1;
      }
      return true;
    }
  }
}
