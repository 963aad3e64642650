/** What one transaction does to the ledger: validation, buying gas, running, and settling the bill
    (EIP-1559 pricing with the base fee burned). Products and sums of prices wrap as in the source. */
module Settlement {
  import opened Bytes
  import opened Arith
  import opened World
  import opened Machine
  import opened MachineRuns
  import opened MachineSteps
  import Funding

  const GAS_TX := 21000
  const GAS_TX_CREATE := 32000
  const GAS_INITCODE_WORD := 2
  const GAS_DATA_ZERO := 4
  const GAS_DATA_NON_ZERO := 16
  const GAS_LIST_ADDRESS := 2400
  const GAS_LIST_KEY := 1900
  const MAX_NONCE := TWO_64 - 2

  datatype Fees = Fixed(price: nat) | Dynamic(maxFee: nat, priority: nat)

  datatype Tx = Tx(sender: Address, recipient: Option<Address>, nonce: nat, gasLimit: nat, fees: Fees, amount: nat,
                   data: Bytes, accessList: seq<(Address, seq<nat>)>, chainId: Option<nat>)

  datatype Block = Block(baseFee: nat, coinbase: Address, gasLimit: nat, chainId: nat)

  /** What the executor takes from elsewhere: the simple opcodes in each transaction of the block, by its
      position, and the address a creation gets. */
  datatype Outside = Outside(oracles: nat -> Oracle, createAddress: (Address, nat) -> Address)

  // ---------------------------------------------------------------------------
  // Prices
  // ---------------------------------------------------------------------------

  function Wrap(n: int): nat {
    n % TWO_256
  }

  function MaxFee(fees: Fees): nat {
    match fees case Fixed(price) => price case Dynamic(maxFee, _) => maxFee
  }

  function EffectivePrice(fees: Fees, baseFee: nat): nat {
    match fees
    case Fixed(price) => price
    case Dynamic(maxFee, priority) =>
      var total := Wrap(baseFee + priority);
      if maxFee < total then maxFee else total
  }

  /** What all the gas of a transaction costs. */
  function GasCost(block: Block, tx: Tx): nat {
    Wrap(EffectivePrice(tx.fees, block.baseFee) * tx.gasLimit)
  }

  function DataGas(data: Bytes): nat {
    if |data| == 0 then 0
    else (if data[0] == 0 then GAS_DATA_ZERO else GAS_DATA_NON_ZERO) + DataGas(data[1..])
  }

  function AccessListGas(list: seq<(Address, seq<nat>)>): nat {
    if |list| == 0 then 0 else GAS_LIST_ADDRESS + GAS_LIST_KEY * |list[0].1| + AccessListGas(list[1..])
  }

  function IntrinsicGas(tx: Tx): nat {
    GAS_TX + DataGas(tx.data)
    + (if tx.recipient.None? then GAS_TX_CREATE + GAS_INITCODE_WORD * ((|tx.data| + 31) / 32) else 0)
    + AccessListGas(tx.accessList)
  }

  // ---------------------------------------------------------------------------
  // Validation
  // ---------------------------------------------------------------------------

  datatype Verdict = Valid | ChainIdMismatch | NonceTooLow | NonceTooHigh | IntrinsicGasTooLow | GasLimitExceeded
                   | MaxFeeTooLow | InsufficientBalance

  function Validate(w: World, block: Block, tx: Tx, cumulative: nat): Verdict {
    if tx.chainId.Some? && tx.chainId.value != block.chainId then ChainIdMismatch
    else if tx.nonce < Nonce(w, tx.sender) then NonceTooLow
    else if tx.nonce > Nonce(w, tx.sender) then NonceTooHigh
    else if tx.gasLimit < IntrinsicGas(tx) then IntrinsicGasTooLow
    else if tx.gasLimit > block.gasLimit || cumulative > block.gasLimit - tx.gasLimit then GasLimitExceeded
    else if MaxFee(tx.fees) < block.baseFee then MaxFeeTooLow
    else
      var cost := Wrap(GasCost(block, tx) + tx.amount);
      if cost < tx.amount || Balance(w, tx.sender) < cost then InsufficientBalance else Valid
  }

  /** Prices and costs of a transaction stay below 2^256, so nothing wraps. */
  predicate NoOverflow(block: Block, tx: Tx) {
    && EffectivePrice(tx.fees, block.baseFee) * tx.gasLimit < TWO_256
    && (tx.fees.Dynamic? ==> block.baseFee + tx.fees.priority < TWO_256)
    && tx.amount < TWO_256
  }

  lemma Unwrapped(n: int)
    requires 0 <= n < TWO_256
    ensures Wrap(n) == n
  {
    DivModUnique(n, TWO_256, 0, n);
  }

  /** A valid transaction can pay: the price covers the base fee and the sender covers gas and amount. */
  lemma ValidCanPay(w: World, block: Block, tx: Tx, cumulative: nat)
    requires Validate(w, block, tx, cumulative).Valid? && NoOverflow(block, tx)
    ensures var price := EffectivePrice(tx.fees, block.baseFee);
            && block.baseFee <= price
            && GasCost(block, tx) == price * tx.gasLimit
            && GasCost(block, tx) + tx.amount <= Balance(w, tx.sender)
    ensures IntrinsicGas(tx) <= tx.gasLimit && cumulative + tx.gasLimit <= block.gasLimit
  {
    var price := EffectivePrice(tx.fees, block.baseFee);
    var gasCost := price * tx.gasLimit;
    MulLe(0, price, tx.gasLimit);
    Unwrapped(gasCost);
    if tx.fees.Dynamic? { Unwrapped(block.baseFee + tx.fees.priority); }
    if gasCost + tx.amount < TWO_256 {
      Unwrapped(gasCost + tx.amount);
    } else {
      DivModUnique(gasCost + tx.amount, TWO_256, 1, gasCost + tx.amount - TWO_256);
    }
  }

  // ---------------------------------------------------------------------------
  // Before the run
  // ---------------------------------------------------------------------------

  function BumpNonce(w: World, a: Address): World {
    if Nonce(w, a) >= MAX_NONCE then w else w.(nonces := w.nonces[a := Nonce(w, a) + 1])
  }

  function WarmList(w: World, list: seq<(Address, seq<nat>)>): World
    decreases |list|
  {
    if |list| == 0 then w else WarmList(WarmKeys(WarmAddress(w, list[0].0), list[0].0, list[0].1), list[1..])
  }

  function WarmKeys(w: World, a: Address, keys: seq<nat>): World
    decreases |keys|
  {
    if |keys| == 0 then w else WarmKeys(WarmSlot(w, (a, keys[0])), a, keys[1..])
  }

  /** Where the amount goes and the code runs. */
  function Target(out: Outside, w: World, tx: Tx): Address {
    if tx.recipient.Some? then tx.recipient.value else out.createAddress(tx.sender, Nonce(w, tx.sender))
  }

  /** Nonce, warm addresses and warm slots: no balance moves. */
  function Prepare(out: Outside, w: World, tx: Tx): World {
    WarmList(WarmAddress(WarmAddress(BumpNonce(w, tx.sender), tx.sender), Target(out, w, tx)), tx.accessList)
  }

  /** A new contract account, unless the account already exists. */
  function CreateContract(w: World, a: Address): World {
    if IsEmpty(w, a) then w.(nonces := w.nonces[a := 1]) else w
  }

  /** The interpreter's own counters start afresh. */
  function ResetEvm(w: World): World {
    w.(refund := 0, settled := 0, logs := [])
  }

  function StartFrame(tx: Tx, target: Address, w: World): Frame
    requires IntrinsicGas(tx) <= tx.gasLimit
  {
    Frame(0, tx.gasLimit - IntrinsicGas(tx), [], INITIAL_CAPACITY, [],
          if tx.recipient.Some? then Code(w, target) else tx.data, false, tx.sender, target, tx.amount,
          if tx.recipient.Some? then tx.data else [], 0, 0)
  }

  // ---------------------------------------------------------------------------
  // The run and the bill
  // ---------------------------------------------------------------------------

  /** The world after the run, and the gas it cost. */
  datatype Outcome = Outcome(success: bool, gasUsed: int, world: World)

  /** The refund is capped at a fifth of the gas used. */
  function AfterRefund(gasUsed: int, refund: nat): int {
    gasUsed - if refund < gasUsed / 5 then refund else gasUsed / 5
  }

  function Created(tx: Tx, target: Address, w: World): World {
    if tx.recipient.None? then CreateContract(w, target) else w
  }

  function StartState(tx: Tx, target: Address, w: World): State
    requires IntrinsicGas(tx) <= tx.gasLimit
  {
    State(StartFrame(tx, target, Created(tx, target, w)), [], [], ResetEvm(Created(tx, target, w)))
  }

  /** A creation stores the code it returned, if any. */
  function Deploy(tx: Tx, target: Address, output: Bytes, w: World): World {
    if tx.recipient.None? && output != [] then w.(codes := w.codes[target := output]) else w
  }

  function RunFor(oracle: Oracle, tx: Tx, target: Address, w: World): Next
    requires IntrinsicGas(tx) <= tx.gasLimit
  {
    var start := StartState(tx, target, w);
    RunFrom(oracle, 0, start.frame.gas, start)
  }

  /** What a run costs and leaves behind; nothing can be said of a run that overruns a stack. */
  function Billed(tx: Tx, target: Address, result: Next): Option<Outcome>
    requires !result.Running?
  {
    if result.Overrun? then None
    else if result.success then
      Some(Outcome(true, AfterRefund(IntrinsicGas(tx) + result.gasUsed, result.refund),
                   Deploy(tx, target, result.output, result.world)))
    else Some(Outcome(false, tx.gasLimit, result.world))
  }

  function RunCode(oracle: Oracle, tx: Tx, target: Address, w: World): (o: Option<Outcome>)
    requires IntrinsicGas(tx) <= tx.gasLimit
    ensures o.Some? ==> 0 <= o.value.gasUsed <= tx.gasLimit
  {
    var result := RunFor(oracle, tx, target, w);
    RunWithinLimit(oracle, tx, target, w);
    if result.Done? && result.success then
      RefundCapped(IntrinsicGas(tx) + result.gasUsed, result.refund);
      Billed(tx, target, result)
    else Billed(tx, target, result)
  }

  lemma RunWithinLimit(oracle: Oracle, tx: Tx, target: Address, w: World)
    requires IntrinsicGas(tx) <= tx.gasLimit
    ensures var r := RunFor(oracle, tx, target, w);
            r.Done? ==> 0 <= r.gasUsed <= tx.gasLimit - IntrinsicGas(tx)
  {
    var start := StartState(tx, target, w);
    assert TotalGas(start) == start.frame.gas;
    GasBounded(oracle, 0, start.frame.gas, start);
  }

  /** The cap keeps the bill between four fifths of the gas used and all of it. */
  lemma RefundCapped(gasUsed: int, refund: nat)
    requires gasUsed >= 0
    ensures gasUsed - gasUsed / 5 <= AfterRefund(gasUsed, refund) <= gasUsed
  {}

  function MoveAndRun(oracle: Oracle, tx: Tx, target: Address, w: World): (o: Option<Outcome>)
    requires IntrinsicGas(tx) <= tx.gasLimit
    ensures o.Some? ==> 0 <= o.value.gasUsed <= tx.gasLimit
  {
    if tx.amount == 0 then RunCode(oracle, tx, target, w)
    else
      var (debited, ok) := SubBalance(w, tx.sender, tx.amount);
      if !ok then Some(Outcome(false, tx.gasLimit, debited))
      else RunCode(oracle, tx, target, AddBalance(debited, target, tx.amount).0)
  }

  /** Give the sender back the gas not used and the coinbase its tip. */
  function Settle(block: Block, tx: Tx, gasUsed: nat, w: World): World
    requires gasUsed <= tx.gasLimit
  {
    var price := EffectivePrice(tx.fees, block.baseFee);
    PayOut(w, tx.sender, block.coinbase, Wrap(price * (tx.gasLimit - gasUsed)),
           Wrap(Wrap(price - block.baseFee) * gasUsed), gasUsed < tx.gasLimit)
  }

  /** The two credits; the first only if some gas was left. */
  function PayOut(w: World, sender: Address, coinbase: Address, left: nat, tip: nat, someLeft: bool): World {
    var refunded := if someLeft then AddBalance(w, sender, left).0 else w;
    AddBalance(refunded, coinbase, tip).0
  }

  // ---------------------------------------------------------------------------
  // What a run may cost, and what it leaves of the supply
  // ---------------------------------------------------------------------------

  lemma SameBalancesSameSupply(w: World, v: World)
    requires w.balances == v.balances
    ensures Supply(w) == Supply(v)
  {}

  lemma RunCodeConserves(oracle: Oracle, tx: Tx, target: Address, w: World)
    requires IntrinsicGas(tx) <= tx.gasLimit && Supply(w) < TWO_256
    ensures var o := RunCode(oracle, tx, target, w); o.Some? ==> Supply(o.value.world) == Supply(w)
  {
    var start, result := StartState(tx, target, w), RunFor(oracle, tx, target, w);
    SameBalancesSameSupply(w, start.world);
    RunConserves(oracle, 0, start.frame.gas, start);
    if result.Done? { SameBalancesSameSupply(result.world, Deploy(tx, target, result.output, result.world)); }
  }

  lemma MoveAndRunConserves(oracle: Oracle, tx: Tx, target: Address, w: World)
    requires IntrinsicGas(tx) <= tx.gasLimit && Supply(w) < TWO_256
    requires tx.amount <= Balance(w, tx.sender)
    ensures var o := MoveAndRun(oracle, tx, target, w); o.Some? ==> Supply(o.value.world) == Supply(w)
  {
    if tx.amount == 0 {
      RunCodeConserves(oracle, tx, target, w);
    } else {
      TransferKeepsSupply(w, tx.sender, target, tx.amount);
      RunCodeConserves(oracle, tx, target, AddBalance(SubBalance(w, tx.sender, tx.amount).0, target, tx.amount).0);
    }
  }

  lemma {:induction false} WarmListKeeps(w: World, list: seq<(Address, seq<nat>)>)
    ensures WarmList(w, list).balances == w.balances && WarmList(w, list).original == w.original
    decreases |list|
  {
    if |list| > 0 {
      WarmKeysKeeps(WarmAddress(w, list[0].0), list[0].0, list[0].1);
      WarmListKeeps(WarmKeys(WarmAddress(w, list[0].0), list[0].0, list[0].1), list[1..]);
    }
  }

  lemma {:induction false} WarmKeysKeeps(w: World, a: Address, keys: seq<nat>)
    ensures WarmKeys(w, a, keys).balances == w.balances && WarmKeys(w, a, keys).original == w.original
    decreases |keys|
  {
    if |keys| > 0 { WarmKeysKeeps(WarmSlot(w, (a, keys[0])), a, keys[1..]); }
  }

  lemma PrepareKeeps(out: Outside, w: World, tx: Tx)
    ensures Prepare(out, w, tx).balances == w.balances && Prepare(out, w, tx).original == w.original
  {
    WarmListKeeps(WarmAddress(WarmAddress(BumpNonce(w, tx.sender), tx.sender), Target(out, w, tx)), tx.accessList);
  }

  // ---------------------------------------------------------------------------
  // One transaction
  // ---------------------------------------------------------------------------

  datatype Executed = Executed(success: bool, gasUsed: nat, world: World)

  /** How a transaction ends: turned away, carried out, or cut short by an overrun. */
  datatype Result = Rejected | Ran(executed: Executed) | Undefined

  /** The bill for an outcome. */
  function Concluded(block: Block, tx: Tx, o: Option<Outcome>): Result
    requires o.Some? ==> 0 <= o.value.gasUsed <= tx.gasLimit
  {
    if o.None? then Undefined
    else Ran(Executed(o.value.success, o.value.gasUsed, Settle(block, tx, o.value.gasUsed, o.value.world)))
  }

  /** A validated transaction from beginning to end; rejected when its gas cannot be bought. */
  function ExecuteTx(out: Outside, index: nat, block: Block, w: World, tx: Tx): Result
    requires IntrinsicGas(tx) <= tx.gasLimit
  {
    var (bought, ok) := SubBalance(w, tx.sender, GasCost(block, tx));
    if !ok then Rejected
    else Concluded(block, tx, MoveAndRun(out.oracles(index), tx, Target(out, bought, tx), Prepare(out, bought, tx)))
  }

  /** The bill adds up: what is given back and what is tipped leave the base fee missing. */
  lemma BillAddsUp(price: nat, baseFee: nat, gasLimit: nat, gasUsed: nat)
    requires baseFee <= price && gasUsed <= gasLimit
    ensures price * gasLimit == price * (gasLimit - gasUsed) + (price - baseFee) * gasUsed + baseFee * gasUsed
    ensures 0 <= price * (gasLimit - gasUsed) && 0 <= (price - baseFee) * gasUsed && 0 <= baseFee * gasUsed
  {
    MulAdd(gasLimit - gasUsed, gasUsed, price);
    MulAdd(price - baseFee, baseFee, gasUsed);
    MulLe(0, gasLimit - gasUsed, price);
    MulLe(0, price - baseFee, gasUsed);
    MulLe(0, baseFee, gasUsed);
  }

  lemma SettleAddsUp(block: Block, tx: Tx, gasUsed: nat, w: World, price: nat)
    requires gasUsed <= tx.gasLimit && price == EffectivePrice(tx.fees, block.baseFee)
    requires block.baseFee <= price < TWO_256 && Supply(w) + price * tx.gasLimit < TWO_256
    ensures Supply(Settle(block, tx, gasUsed, w)) == Supply(w) + price * tx.gasLimit - block.baseFee * gasUsed
  {
    var left, tip := price * (tx.gasLimit - gasUsed), (price - block.baseFee) * gasUsed;
    BillAddsUp(price, block.baseFee, tx.gasLimit, gasUsed);
    Unwrapped(left);
    Unwrapped(tip);
    Unwrapped(price - block.baseFee);
    PayOutAddsUp(w, tx.sender, block.coinbase, left, tip, gasUsed < tx.gasLimit);
  }

  lemma PayOutAddsUp(w: World, sender: Address, coinbase: Address, left: nat, tip: nat, someLeft: bool)
    requires Supply(w) + left + tip < TWO_256 && (!someLeft ==> left == 0)
    ensures Supply(PayOut(w, sender, coinbase, left, tip, someLeft)) == Supply(w) + left + tip
  {
    SupplyAfterAdd(w, sender, left);
    SupplyAfterAdd(if someLeft then AddBalance(w, sender, left).0 else w, coinbase, tip);
  }

  /** A valid transaction goes through: gas and amount can both be debited, and unless a stack is overrun it
      uses no more than its gas limit and the supply falls by exactly the base fee times the gas used. */
  lemma TxConserves(out: Outside, index: nat, block: Block, w: World, tx: Tx, cumulative: nat)
    requires Validate(w, block, tx, cumulative).Valid? && NoOverflow(block, tx) && Supply(w) < TWO_256
    ensures IntrinsicGas(tx) <= tx.gasLimit && cumulative + tx.gasLimit <= block.gasLimit
    ensures var (bought, ok) := SubBalance(w, tx.sender, GasCost(block, tx));
            ok && SubBalance(Prepare(out, bought, tx), tx.sender, tx.amount).1
    ensures var r := ExecuteTx(out, index, block, w, tx);
            && !r.Rejected?
            && (r.Ran? ==> && r.executed.gasUsed <= tx.gasLimit
                           && Supply(r.executed.world) + block.baseFee * r.executed.gasUsed == Supply(w))
  {
    ValidCanPay(w, block, tx, cumulative);
    var price := EffectivePrice(tx.fees, block.baseFee);
    var cost := GasCost(block, tx);
    var bought := SubBalance(w, tx.sender, cost).0;
    SupplyAfterSub(w, tx.sender, cost);
    SupplyAfterSet(w, tx.sender, 0);
    var prepared := Prepare(out, bought, tx);
    PrepareKeeps(out, bought, tx);
    SameBalancesSameSupply(bought, prepared);
    assert Balance(prepared, tx.sender) == Balance(w, tx.sender) - cost;
    MoveAndRunConserves(out.oracles(index), tx, Target(out, bought, tx), prepared);
    var o := MoveAndRun(out.oracles(index), tx, Target(out, bought, tx), prepared);
    PriceBounded(price, tx.gasLimit, IntrinsicGas(tx), cost);
    if o.Some? { SettleAddsUp(block, tx, o.value.gasUsed, o.value.world, price); }
  }

  lemma PriceBounded(price: nat, gasLimit: nat, intrinsic: nat, cost: int)
    requires intrinsic <= gasLimit && 1 <= intrinsic && cost == price * gasLimit < TWO_256
    ensures price < TWO_256
  {
    MulLe(1, gasLimit, price);
  }

  // ---------------------------------------------------------------------------
  // A block
  // ---------------------------------------------------------------------------

  /** The world and the gas used so far, with one receipt or rejection per transaction. */
  datatype Progress = Progress(world: World, gasUsed: nat, receipts: nat, rejected: nat)

  /** Enter the result of one transaction. */
  function Record(p: Progress, w: World, r: Result): Option<Progress> {
    match r
    case Rejected => Some(p.(world := w, rejected := p.rejected + 1))
    case Ran(x) => Some(Progress(x.world, p.gasUsed + x.gasUsed, p.receipts + 1, p.rejected))
    case Undefined => None
  }

  /** A transaction is run only if it is valid. */
  function Attempt(out: Outside, index: nat, block: Block, w: World, gasUsed: nat, tx: Tx): Result {
    if Validate(w, block, tx, gasUsed).Valid? then ExecuteTx(out, index, block, w, tx) else Rejected
  }

  function ProcessTx(out: Outside, index: nat, block: Block, p: Progress, tx: Tx): Option<Progress> {
    var w := BeginTransaction(p.world);
    Record(p, w, Attempt(out, index, block, w, p.gasUsed, tx))
  }

  /** The whole block, or nothing when a transaction in it overruns a stack. */
  function Process(out: Outside, index: nat, block: Block, p: Progress, txs: seq<Tx>): Option<Progress>
    decreases |txs|
  {
    if |txs| == 0 then Some(p)
    else
      var q := ProcessTx(out, index, block, p, txs[0]);
      if q.None? then None else Process(out, index + 1, block, q.value, txs[1..])
  }

  /** What `n` transactions may do: burn the base fee of the gas they use, and no more gas than the block
      allows. */
  ghost predicate Accounted(block: Block, p: Progress, q: Progress, n: nat) {
    && Supply(q.world) + block.baseFee * (q.gasUsed - p.gasUsed) == Supply(p.world)
    && p.gasUsed <= q.gasUsed <= block.gasLimit
    && q.receipts + q.rejected == p.receipts + p.rejected + n
  }

  lemma AccountedChain(block: Block, p: Progress, q: Progress, r: Progress, m: nat, n: nat)
    requires Accounted(block, p, q, m) && Accounted(block, q, r, n)
    ensures Accounted(block, p, r, m + n) && Supply(q.world) <= Supply(p.world)
  {
    MulAdd(q.gasUsed - p.gasUsed, r.gasUsed - q.gasUsed, block.baseFee);
    MulLe(0, block.baseFee, q.gasUsed - p.gasUsed);
  }

  lemma AccountedSupply(block: Block, p: Progress, q: Progress, n: nat)
    requires Accounted(block, p, q, n)
    ensures Supply(q.world) <= Supply(p.world)
  {
    MulLe(0, block.baseFee, q.gasUsed - p.gasUsed);
  }

  /** One transaction accounted for, and counted as rejected exactly when it is not valid. */
  ghost predicate Recorded(block: Block, p: Progress, q: Option<Progress>, valid: bool) {
    q.Some? ==> Accounted(block, p, q.value, 1) && (q.value.rejected > p.rejected <==> !valid)
  }

  lemma RejectionRecorded(block: Block, p: Progress, w: World)
    requires Supply(w) == Supply(p.world) && p.gasUsed <= block.gasLimit
    ensures Recorded(block, p, Record(p, w, Rejected), false)
  {
    MulEq(block.baseFee, 0, p.gasUsed - p.gasUsed);
  }

  lemma RunRecorded(block: Block, p: Progress, w: World, x: Executed, limit: nat)
    requires Supply(x.world) + block.baseFee * x.gasUsed == Supply(p.world)
    requires x.gasUsed <= limit && p.gasUsed + limit <= block.gasLimit
    ensures Recorded(block, p, Record(p, w, Ran(x)), true)
  {
    MulEq(block.baseFee, x.gasUsed, p.gasUsed + x.gasUsed - p.gasUsed);
  }

  lemma AttemptRecorded(out: Outside, index: nat, block: Block, p: Progress, w: World, tx: Tx)
      returns (q: Option<Progress>)
    requires NoOverflow(block, tx) && Supply(w) == Supply(p.world) < TWO_256 && p.gasUsed <= block.gasLimit
    ensures q == Record(p, w, Attempt(out, index, block, w, p.gasUsed, tx))
    ensures Recorded(block, p, q, Validate(w, block, tx, p.gasUsed).Valid?)
  {
    var r := Attempt(out, index, block, w, p.gasUsed, tx);
    q := Record(p, w, r);
    if Validate(w, block, tx, p.gasUsed).Valid? {
      TxConserves(out, index, block, w, tx, p.gasUsed);
      if r.Ran? { RunRecorded(block, p, w, r.executed, tx.gasLimit); }
    } else {
      RejectionRecorded(block, p, w);
    }
  }

  /** No valid transaction is turned away, no invalid one is run, and those that run are accounted for. */
  lemma ProcessTxConserves(out: Outside, index: nat, block: Block, p: Progress, tx: Tx) returns (q: Option<Progress>)
    requires NoOverflow(block, tx) && Supply(p.world) < TWO_256 && p.gasUsed <= block.gasLimit
    ensures q == ProcessTx(out, index, block, p, tx)
    ensures Recorded(block, p, q, Validate(BeginTransaction(p.world), block, tx, p.gasUsed).Valid?)
  {
    var w := BeginTransaction(p.world);
    SameBalancesSameSupply(p.world, w);
    q := AttemptRecorded(out, index, block, p, w, tx);
  }

  /** Over a whole block the supply falls by exactly the base fee times the gas used, and the gas used
      never passes the block's limit. */
  lemma {:induction false} BlockConserves(out: Outside, index: nat, block: Block, p: Progress, txs: seq<Tx>)
    requires forall i | 0 <= i < |txs| :: NoOverflow(block, txs[i])
    requires Supply(p.world) < TWO_256 && p.gasUsed <= block.gasLimit
    ensures var q := Process(out, index, block, p, txs); q.Some? ==> Accounted(block, p, q.value, |txs|)
    decreases |txs|
  {
    if |txs| == 0 {
      assert block.baseFee * (p.gasUsed - p.gasUsed) == 0;
    } else {
      var first := ProcessTxConserves(out, index, block, p, txs[0]);
      if first.Some? {
        var q := first.value;
        AccountedSupply(block, p, q, 1);
        BlockConserves(out, index + 1, block, q, txs[1..]);
        var last := Process(out, index + 1, block, q, txs[1..]);
        if last.Some? { AccountedChain(block, p, q, last.value, 1, |txs| - 1); }
      }
    }
  }

  // ---------------------------------------------------------------------------
  // The refund against the bill
  // ---------------------------------------------------------------------------

  /** Every slot the access list warms has its key paid for. */
  lemma {:induction false} ListPaysSlots(w: World, list: seq<(Address, seq<nat>)>)
    ensures GAS_LIST_KEY * |WarmList(w, list).warmSlots| <= GAS_LIST_KEY * |w.warmSlots| + AccessListGas(list)
    decreases |list|
  {
    if |list| > 0 {
      var (address, keys) := list[0];
      KeysPaySlots(WarmAddress(w, address), address, keys);
      ListPaysSlots(WarmKeys(WarmAddress(w, address), address, keys), list[1..]);
    }
  }

  lemma {:induction false} KeysPaySlots(w: World, a: Address, keys: seq<nat>)
    ensures |WarmKeys(w, a, keys).warmSlots| <= |w.warmSlots| + |keys|
    decreases |keys|
  {
    if |keys| > 0 {
      var v := WarmSlot(w, (a, keys[0]));
      assert |v.warmSlots| <= |w.warmSlots| + 1;
      KeysPaySlots(v, a, keys[1..]);
    }
  }

  /** The refund of a transaction, before it is capped, is at most the gas it is billed for plus 1900 for
      every slot starved at its first access. */
  lemma RefundWithinBill(out: Outside, oracle: Oracle, w: World, tx: Tx, target: Address, moved: World)
    requires IntrinsicGas(tx) <= tx.gasLimit && w.warmSlots == {} && w.original == map[]
    requires moved.warmSlots == Prepare(out, w, tx).warmSlots && moved.original == w.original
    ensures var start, r := StartState(tx, target, moved), RunFor(oracle, tx, target, moved);
            var starved := Funding.Starved(oracle, 0, start.frame.gas, start);
            r.Done? ==> r.refund <= IntrinsicGas(tx) + r.gasUsed + GAS_LIST_KEY * |starved|
  {
    var start := StartState(tx, target, moved);
    var listed := start.world.warmSlots;
    var starved := Funding.Starved(oracle, 0, start.frame.gas, start);
    Funding.RefundWithinGas(oracle, 0, start);
    ListPaysSlots(WarmAddress(WarmAddress(BumpNonce(w, tx.sender), tx.sender), Target(out, w, tx)), tx.accessList);
    UnionCount(listed, starved);
  }

  lemma UnionCount(a: set<SlotKey>, b: set<SlotKey>)
    ensures |a + b| <= |a| + |b|
  {}
}
