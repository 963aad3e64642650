/** Transactions account by account: prices, gas before the run, who pays whom, nonces, and replay. */
module LedgerLaws {
  import opened Bytes
  import opened Arith
  import opened World
  import opened Machine
  import opened MachineSteps
  import opened MachineRuns
  import opened Settlement
  import CallLaws

  // ---------------------------------------------------------------------------
  // Prices and gas before the run
  // ---------------------------------------------------------------------------

  /** A fixed price is the price; with dynamic fees it is the lesser of the most the sender pays and base fee plus
      priority. */
  lemma PriceLaw(fees: Fees, baseFee: nat)
    requires fees.Dynamic? ==> baseFee + fees.priority < TWO_256
    ensures var price := EffectivePrice(fees, baseFee);
            if fees.Fixed? then price == fees.price
            else && price <= fees.maxFee && price <= baseFee + fees.priority
                 && (price == fees.maxFee || price == baseFee + fees.priority)
  {
    if fees.Dynamic? { Unwrapped(baseFee + fees.priority); }
  }

  /** Four gas for every zero byte and sixteen for every other. */
  lemma {:induction false} DataGasLaw(data: Bytes)
    ensures DataGas(data) == 4 * multiset(data)[0] + 16 * (|data| - multiset(data)[0])
  {
    if |data| > 0 {
      DataGasLaw(data[1..]);
      assert data == [data[0]] + data[1..];
    }
  }

  function KeyCount(list: seq<(Address, seq<nat>)>): nat {
    if |list| == 0 then 0 else |list[0].1| + KeyCount(list[1..])
  }

  lemma {:induction false} ListGasLaw(list: seq<(Address, seq<nat>)>)
    ensures AccessListGas(list) == 2400 * |list| + 1900 * KeyCount(list)
  {
    if |list| > 0 { ListGasLaw(list[1..]); }
  }

  /** Gas before the run, by counts. */
  lemma IntrinsicLaw(tx: Tx)
    ensures var zeros := multiset(tx.data)[0];
            IntrinsicGas(tx) == 21000 + 4 * zeros + 16 * (|tx.data| - zeros)
                                + (if tx.recipient.None? then 32000 + 2 * ((|tx.data| + 31) / 32) else 0)
                                + 2400 * |tx.accessList| + 1900 * KeyCount(tx.accessList)
  {
    DataGasLaw(tx.data);
    ListGasLaw(tx.accessList);
  }

  /** A transaction is valid if and only if it is for this chain, its nonce is the sender's, its gas covers what is due
      before the run and fits the block, its fee reaches the base fee, and the sender can pay for all its gas and
      the amount. */
  lemma ValidIff(w: World, block: Block, tx: Tx, cumulative: nat)
    requires NoOverflow(block, tx)
    ensures Validate(w, block, tx, cumulative).Valid?
            <==> && (tx.chainId.Some? ==> tx.chainId.value == block.chainId)
                 && tx.nonce == Nonce(w, tx.sender)
                 && IntrinsicGas(tx) <= tx.gasLimit && cumulative + tx.gasLimit <= block.gasLimit
                 && MaxFee(tx.fees) >= block.baseFee
                 && EffectivePrice(tx.fees, block.baseFee) * tx.gasLimit + tx.amount <= Balance(w, tx.sender)
                 && EffectivePrice(tx.fees, block.baseFee) * tx.gasLimit + tx.amount < TWO_256
  {
    var gasCost := EffectivePrice(tx.fees, block.baseFee) * tx.gasLimit;
    MulLe(0, EffectivePrice(tx.fees, block.baseFee), tx.gasLimit);
    Unwrapped(gasCost);
    if gasCost + tx.amount < TWO_256 { Unwrapped(gasCost + tx.amount); }
    else { DivModUnique(gasCost + tx.amount, TWO_256, 1, gasCost + tx.amount - TWO_256); }
  }

  /** The refund that is taken off: all of it, or a fifth of the gas used if that is less. */
  lemma RefundTaken(gasUsed: int, refund: nat)
    requires gasUsed >= 0
    ensures var taken := gasUsed - AfterRefund(gasUsed, refund);
            && 0 <= taken <= refund && 5 * taken <= gasUsed
            && (taken < refund ==> 5 * taken + 5 > gasUsed)
  {}

  // ---------------------------------------------------------------------------
  // Who pays whom
  // ---------------------------------------------------------------------------

  lemma CreditBalance(w: World, to: Address, amount: nat, a: Address)
    requires Supply(w) + amount < TWO_256
    ensures Balance(AddBalance(w, to, amount).0, a) == Balance(w, a) + if a == to then amount else 0
  {
    SupplyAfterAdd(w, to, amount);
  }

  /** Settling, account by account: the sender gets the price of the gas not used, the coinbase its tip on the gas
      used, and nobody else anything. */
  lemma SettleBalances(block: Block, tx: Tx, gasUsed: nat, w: World, price: nat, left: nat, tip: nat, a: Address)
    requires gasUsed <= tx.gasLimit && price == EffectivePrice(tx.fees, block.baseFee)
    requires block.baseFee <= price < TWO_256
    requires left == price * (tx.gasLimit - gasUsed) && tip == (price - block.baseFee) * gasUsed
    requires Supply(w) + left + tip < TWO_256
    ensures Balance(Settle(block, tx, gasUsed, w), a)
         == Balance(w, a) + (if a == tx.sender then left else 0) + (if a == block.coinbase then tip else 0)
  {
    SettlePays(block, tx, gasUsed, w, price, left, tip);
    NothingLeft(price, tx.gasLimit - gasUsed, left);
    PayOutBalances(w, tx.sender, block.coinbase, left, tip, gasUsed < tx.gasLimit, a);
  }

  lemma NothingLeft(price: nat, gas: nat, left: nat)
    requires left == price * gas
    ensures gas == 0 ==> left == 0
  {}

  lemma SettlePays(block: Block, tx: Tx, gasUsed: nat, w: World, price: nat, left: nat, tip: nat)
    requires gasUsed <= tx.gasLimit && price == EffectivePrice(tx.fees, block.baseFee)
    requires block.baseFee <= price < TWO_256
    requires left == price * (tx.gasLimit - gasUsed) < TWO_256 && tip == (price - block.baseFee) * gasUsed < TWO_256
    ensures Settle(block, tx, gasUsed, w) == PayOut(w, tx.sender, block.coinbase, left, tip, gasUsed < tx.gasLimit)
  {
    Unwrapped(left);
    Unwrapped(tip);
    Unwrapped(price - block.baseFee);
  }

  lemma PayOutBalances(w: World, sender: Address, coinbase: Address, left: nat, tip: nat, someLeft: bool, a: Address)
    requires Supply(w) + left + tip < TWO_256 && (!someLeft ==> left == 0)
    ensures Balance(PayOut(w, sender, coinbase, left, tip, someLeft), a)
         == Balance(w, a) + (if a == sender then left else 0) + (if a == coinbase then tip else 0)
  {
    CreditBalance(w, sender, left, a);
    SupplyAfterAdd(w, sender, left);
    CreditBalance(if someLeft then AddBalance(w, sender, left).0 else w, coinbase, tip, a);
  }

  lemma SettleKeepsRest(block: Block, tx: Tx, gasUsed: nat, w: World)
    requires gasUsed <= tx.gasLimit
    ensures var v := Settle(block, tx, gasUsed, w);
            v.nonces == w.nonces && v.codes == w.codes && v.storage == w.storage
  {}

  // ---------------------------------------------------------------------------
  // From the ledger to the run
  // ---------------------------------------------------------------------------

  predicate SameAccounts(w: World, v: World) {
    w.nonces == v.nonces && w.codes == v.codes
  }

  lemma OpcodeKeepsAccounts(ops: SimpleOps, op: byte, f: Frame, depth: nat, w: World)
    requires f.pc <= |f.code|
    ensures SameAccounts(w, Execute(ops, op, f, depth, w).world)
  {
    if op < 0xA0 { if op != 0x55 { LocalIsQuiet(ops, op, f, w); } }
    else if op == 0xF1 { CallIsolates(Call, f, depth, w); }
    else if op == 0xF2 { CallIsolates(CallCode, f, depth, w); }
    else if op == 0xF4 { CallIsolates(DelegateCall, f, depth, w); }
    else if op == 0xFA { CallIsolates(StaticCall, f, depth, w); }
  }

  lemma StepKeepsAccounts(ops: SimpleOps, gas: nat, s: State)
    ensures SameAccounts(s.world, WorldAfter(Step(ops, gas, s)))
  {
    var f := s.frame;
    if f.pc < |f.code| { OpcodeKeepsAccounts(ops, f.code[f.pc], Fetched(f), |s.parents|, s.world); }
  }

  /** No run changes a nonce or a code. */
  lemma {:induction false} RunKeepsAccounts(oracle: Oracle, n: nat, gas: nat, s: State)
    ensures SameAccounts(s.world, RunFrom(oracle, n, gas, s).world)
    decreases TotalGas(s), |s.parents|, Remaining(s.frame)
  {
    var ops := oracle(n, s.returnData);
    var next := StepAt(oracle, n, gas, s);
    StepKeepsAccounts(ops, gas, s);
    if next.Running? {
      StepLowers(ops, gas, s);
      RunKeepsAccounts(oracle, n + 1, gas, next.state);
    }
  }

  predicate Listed(list: seq<(Address, seq<nat>)>, a: Address) {
    exists i | 0 <= i < |list| :: list[i].0 == a
  }

  predicate ListedKey(list: seq<(Address, seq<nat>)>, k: SlotKey) {
    exists i | 0 <= i < |list| :: list[i].0 == k.0 && k.1 in list[i].1
  }

  lemma {:induction false} KeysWarm(w: World, a: Address, keys: seq<nat>, k: SlotKey)
    ensures k in WarmKeys(w, a, keys).warmSlots <==> k in w.warmSlots || (k.0 == a && k.1 in keys)
    ensures WarmKeys(w, a, keys) == w.(warmSlots := WarmKeys(w, a, keys).warmSlots)
    decreases |keys|
  {
    if |keys| > 0 { KeysWarm(WarmSlot(w, (a, keys[0])), a, keys[1..], k); }
  }

  /** The access list warms the addresses and the slots it lists, and changes nothing else. */
  lemma {:induction false} ListWarms(w: World, list: seq<(Address, seq<nat>)>, k: SlotKey)
    ensures var v := WarmList(w, list);
            && (k.0 in v.warmAddresses <==> k.0 in w.warmAddresses || Listed(list, k.0))
            && (k in v.warmSlots <==> k in w.warmSlots || ListedKey(list, k))
            && v == w.(warmAddresses := v.warmAddresses, warmSlots := v.warmSlots)
    decreases |list|
  {
    if |list| > 0 {
      var (a, keys) := list[0];
      var v := WarmKeys(WarmAddress(w, a), a, keys);
      KeysWarm(WarmAddress(w, a), a, keys, k);
      ListWarms(v, list[1..], k);
      ListedFirst(list, k);
    }
  }

  lemma ListedFirst(list: seq<(Address, seq<nat>)>, k: SlotKey)
    requires |list| > 0
    ensures Listed(list, k.0) <==> list[0].0 == k.0 || Listed(list[1..], k.0)
    ensures ListedKey(list, k) <==> (list[0].0 == k.0 && k.1 in list[0].1) || ListedKey(list[1..], k)
  {
    if i :| 0 <= i < |list| && list[i].0 == k.0 && i > 0 { assert list[1..][i - 1].0 == k.0; }
    if i :| 0 <= i < |list| && list[i].0 == k.0 && k.1 in list[i].1 && i > 0 { assert list[1..][i - 1].0 == k.0; }
    if i :| 0 <= i < |list[1..]| && list[1..][i].0 == k.0 { assert list[i + 1].0 == k.0; }
    if i :| 0 <= i < |list[1..]| && list[1..][i].0 == k.0 && k.1 in list[1..][i].1 { assert list[i + 1].0 == k.0; }
  }

  /** The first frame of a transaction, called by its sender: at the recipient, with its code and the data as input;
      or at the new address, with the data as code. */
  predicate FrameStarts(tx: Tx, target: Address, w: World, f: Frame) {
    && f.pc == 0 && f.stack == [] && f.memory == [] && !f.isStatic && f.gas == tx.gasLimit - IntrinsicGas(tx)
    && f.caller == tx.sender && f.address == target && f.value == tx.amount
    && (if tx.recipient.Some? then f.code == Code(w, target) && f.input == tx.data
        else f.code == tx.data && f.input == [])
  }

  /** The sender's nonce goes up by one, short of the last; a new account begins with one if nothing was there. */
  function NonceAtStart(tx: Tx, target: Address, w: World, a: Address): nat {
    if a == tx.sender then if Nonce(w, a) < TWO_64 - 2 then Nonce(w, a) + 1 else Nonce(w, a)
    else if tx.recipient.None? && a == target && tx.amount == 0 && IsEmpty(w, a) then 1
    else Nonce(w, a)
  }

  /** The sender, the target and what the access list names are warm from the start. */
  ghost predicate WarmStarts(tx: Tx, target: Address, w: World, v: World) {
    && (forall a :: a in v.warmAddresses
                    <==> a in w.warmAddresses || a == tx.sender || a == target || Listed(tx.accessList, a))
    && (forall k :: k in v.warmSlots <==> k in w.warmSlots || ListedKey(tx.accessList, k))
  }

  /** The ledger the code finds: the sender has paid for all the gas, and the amount has moved. */
  ghost predicate LedgerStarts(tx: Tx, target: Address, w: World, cost: nat, v: World) {
    && (forall a :: Balance(v, a) == Balance(w, a) - (if a == tx.sender then cost + tx.amount else 0)
                                                   + (if a == target then tx.amount else 0))
    && (forall a :: Nonce(v, a) == NonceAtStart(tx, target, w, a))
    && WarmStarts(tx, target, w, v)
    && v.codes == w.codes && v.storage == w.storage && v.refund == 0 && v.logs == []
  }

  function Moved(tx: Tx, target: Address, w: World): World {
    if tx.amount == 0 then w else AddBalance(SubBalance(w, tx.sender, tx.amount).0, target, tx.amount).0
  }

  lemma PreparedRest(out: Outside, w: World, tx: Tx)
    ensures var v := Prepare(out, w, tx);
            v.balances == w.balances && v.nonces == BumpNonce(w, tx.sender).nonces && v.codes == w.codes
            && v.storage == w.storage && WarmStarts(tx, Target(out, w, tx), w, v)
  {
    var before := WarmAddress(WarmAddress(BumpNonce(w, tx.sender), tx.sender), Target(out, w, tx));
    var v := Prepare(out, w, tx);
    ListWarms(before, tx.accessList, (0, 0));
    forall a: Address ensures a in v.warmAddresses <==> a in before.warmAddresses || Listed(tx.accessList, a) {
      ListWarms(before, tx.accessList, (a, 0));
    }
    forall k: SlotKey ensures k in v.warmSlots <==> k in before.warmSlots || ListedKey(tx.accessList, k) {
      ListWarms(before, tx.accessList, k);
    }
  }

  lemma MovedBalance(tx: Tx, target: Address, w: World, a: Address)
    requires tx.amount <= Balance(w, tx.sender) && Supply(w) < TWO_256
    ensures var v := Moved(tx, target, w);
            && Balance(v, a) == Balance(w, a) - (if a == tx.sender then tx.amount else 0)
                                              + (if a == target then tx.amount else 0)
            && v == w.(balances := v.balances)
  {
    if tx.amount > 0 { CallLaws.TransferBalances(w, tx.sender, target, tx.amount, a); }
  }

  lemma Prepared(out: Outside, w: World, tx: Tx, target: Address, cost: nat) returns (p: World)
    requires cost <= Balance(w, tx.sender) && target == Target(out, w, tx)
    ensures p == Prepare(out, SubBalance(w, tx.sender, cost).0, tx)
    ensures p.balances == SetBalance(w, tx.sender, Balance(w, tx.sender) - cost).balances
    ensures p.nonces == BumpNonce(w, tx.sender).nonces && p.codes == w.codes && p.storage == w.storage
    ensures WarmStarts(tx, target, w, p)
  {
    var bought := SubBalance(w, tx.sender, cost).0;
    PreparedRest(out, bought, tx);
    p := Prepare(out, bought, tx);
  }

  lemma PreparedSupply(w: World, tx: Tx, cost: nat, p: World)
    requires cost <= Balance(w, tx.sender)
    requires p.balances == SetBalance(w, tx.sender, Balance(w, tx.sender) - cost).balances
    ensures Supply(p) + cost == Supply(w) && Balance(p, tx.sender) == Balance(w, tx.sender) - cost
  {
    SupplyAfterSet(w, tx.sender, Balance(w, tx.sender) - cost);
    SameBalancesSameSupply(SetBalance(w, tx.sender, Balance(w, tx.sender) - cost), p);
  }

  /** What a transaction does before its code runs, for any account. */
  lemma StartBalance(w: World, tx: Tx, target: Address, cost: nat, p: World, a: Address)
    requires cost + tx.amount <= Balance(w, tx.sender) && Supply(w) < TWO_256
    requires p.balances == SetBalance(w, tx.sender, Balance(w, tx.sender) - cost).balances
    ensures var v := Moved(tx, target, p);
            && Balance(v, a) == Balance(w, a) - (if a == tx.sender then cost + tx.amount else 0)
                                              + (if a == target then tx.amount else 0)
            && v == p.(balances := v.balances)
  {
    PreparedSupply(w, tx, cost, p);
    MovedBalance(tx, target, p, a);
  }

  /** Every account is as it should be once the amount has moved. */
  ghost predicate HasMoved(tx: Tx, target: Address, w: World, cost: nat, v: World) {
    && (forall a :: Balance(v, a) == Balance(w, a) - (if a == tx.sender then cost + tx.amount else 0)
                                                   + (if a == target then tx.amount else 0))
    && v.nonces == BumpNonce(w, tx.sender).nonces && v.codes == w.codes && v.storage == w.storage
    && WarmStarts(tx, target, w, v)
  }

  lemma AllMoved(out: Outside, w: World, tx: Tx, target: Address, cost: nat) returns (v: World)
    requires cost + tx.amount <= Balance(w, tx.sender) && Supply(w) < TWO_256 && target == Target(out, w, tx)
    ensures v == Moved(tx, target, Prepare(out, SubBalance(w, tx.sender, cost).0, tx))
    ensures HasMoved(tx, target, w, cost, v)
  {
    var p := Prepared(out, w, tx, target, cost);
    v := Moved(tx, target, p);
    StartBalance(w, tx, target, cost, p, target);
    forall a: Address ensures Balance(v, a) == Balance(w, a) - (if a == tx.sender then cost + tx.amount else 0)
                                                             + (if a == target then tx.amount else 0)
    {
      StartBalance(w, tx, target, cost, p, a);
    }
  }

  /** What raising the sender's nonce gives. */
  function Bumped(tx: Tx, w: World, a: Address): nat {
    if a == tx.sender && Nonce(w, a) < TWO_64 - 2 then Nonce(w, a) + 1 else Nonce(w, a)
  }

  lemma BumpedNonce(tx: Tx, w: World, v: World, a: Address)
    requires v.nonces == BumpNonce(w, tx.sender).nonces
    ensures Nonce(v, a) == Bumped(tx, w, a)
  {}

  lemma ContractNonce(target: Address, v: World, a: Address)
    ensures Nonce(CreateContract(v, target), a) == if a == target && IsEmpty(v, a) then 1 else Nonce(v, a)
    ensures CreateContract(v, target) == v.(nonces := CreateContract(v, target).nonces)
  {}

  lemma CreatedNonce(tx: Tx, target: Address, w: World, v: World, a: Address)
    requires v.nonces == BumpNonce(w, tx.sender).nonces && v.codes == w.codes
    requires target != tx.sender ==> Balance(v, target) == Balance(w, target) + tx.amount
    ensures Nonce(Created(tx, target, v), a) == NonceAtStart(tx, target, w, a)
    ensures Created(tx, target, v) == v.(nonces := Created(tx, target, v).nonces)
  {
    BumpedNonce(tx, w, v, a);
    ContractNonce(target, v, a);
  }

  lemma MovedStarts(tx: Tx, target: Address, w: World, cost: nat, v: World)
    requires HasMoved(tx, target, w, cost, v) && IntrinsicGas(tx) <= tx.gasLimit
    ensures var s := StartState(tx, target, v);
            && s.parents == [] && s.returnData == [] && FrameStarts(tx, target, w, s.frame)
            && LedgerStarts(tx, target, w, cost, s.world)
  {
    var c := Created(tx, target, v);
    forall a: Address ensures Nonce(ResetEvm(c), a) == NonceAtStart(tx, target, w, a) {
      CreatedNonce(tx, target, w, v, a);
    }
    CreatedNonce(tx, target, w, v, target);
    assert forall a :: Balance(ResetEvm(c), a) == Balance(v, a);
  }

  // ---------------------------------------------------------------------------
  // From the run to the ledger
  // ---------------------------------------------------------------------------

  /** A failed transaction pays for all its gas; a successful one for what it used less the refund, of which at most
      a fifth of that counts. */
  predicate GasBilled(tx: Tx, r: Next, gasUsed: nat)
    requires r.Done?
  {
    if !r.success then gasUsed == tx.gasLimit
    else
      var used := IntrinsicGas(tx) + r.gasUsed;
      var taken := used - gasUsed;
      0 <= taken <= r.refund && 5 * taken <= used && (taken < r.refund ==> 5 * taken + 5 > used)
  }

  /** The ledger the run left, with what is left of the gas paid back to the sender and the tip paid to the coinbase;
      a successful creation stores what it returned as code. */
  ghost predicate LedgerEnds(block: Block, tx: Tx, target: Address, r: Next, left: int, tip: int, v: World)
    requires r.Done?
  {
    && (forall a :: Balance(v, a) == Balance(r.world, a) + (if a == tx.sender then left else 0)
                                                         + (if a == block.coinbase then tip else 0))
    && (forall a :: Code(v, a) == if r.success && tx.recipient.None? && a == target && r.output != [] then r.output
                                  else Code(r.world, a))
    && v.nonces == r.world.nonces && v.storage == r.world.storage
  }

  lemma OutcomeOf(tx: Tx, target: Address, r: Next, o: Outcome)
    requires r.Done? && r.gasUsed >= 0 && Billed(tx, target, r) == Some(o)
    ensures o.success == r.success && (o.gasUsed >= 0 ==> GasBilled(tx, r, o.gasUsed))
    ensures o.world == r.world.(codes := o.world.codes)
    ensures forall a :: Code(o.world, a) == if r.success && tx.recipient.None? && a == target && r.output != []
                                            then r.output else Code(r.world, a)
  {
    RefundTaken(IntrinsicGas(tx) + r.gasUsed, r.refund);
  }

  lemma OutcomeSettles(block: Block, tx: Tx, target: Address, r: Next, o: Outcome, price: nat, left: nat, tip: nat)
    requires r.Done? && r.gasUsed >= 0 && Billed(tx, target, r) == Some(o) && 0 <= o.gasUsed <= tx.gasLimit
    requires price == EffectivePrice(tx.fees, block.baseFee) && block.baseFee <= price < TWO_256
    requires left == price * (tx.gasLimit - o.gasUsed) && tip == (price - block.baseFee) * o.gasUsed
    requires Supply(r.world) + left + tip < TWO_256
    ensures LedgerEnds(block, tx, target, r, left, tip, Settle(block, tx, o.gasUsed, o.world))
  {
    OutcomeOf(tx, target, r, o);
    SameBalancesSameSupply(r.world, o.world);
    SettleKeepsRest(block, tx, o.gasUsed, o.world);
    var v := Settle(block, tx, o.gasUsed, o.world);
    forall a: Address ensures Balance(v, a) == Balance(r.world, a) + (if a == tx.sender then left else 0)
                                                                   + (if a == block.coinbase then tip else 0)
    {
      SettleBalances(block, tx, o.gasUsed, o.world, price, left, tip, a);
    }
  }

  lemma ExecuteIs(out: Outside, index: nat, block: Block, w: World, tx: Tx, target: Address, cost: nat, p: World)
    requires IntrinsicGas(tx) <= tx.gasLimit && cost == GasCost(block, tx) && target == Target(out, w, tx)
    requires cost <= Balance(w, tx.sender) && p == Prepare(out, SubBalance(w, tx.sender, cost).0, tx)
    requires tx.amount <= Balance(p, tx.sender)
    ensures ExecuteTx(out, index, block, w, tx)
         == Concluded(block, tx, RunCode(out.oracles(index), tx, target, Moved(tx, target, p)))
  {}

  lemma SupplyAtEnd(oracle: Oracle, w: World, tx: Tx, target: Address, cost: nat, p: World)
    requires IntrinsicGas(tx) <= tx.gasLimit
    requires cost + tx.amount <= Balance(w, tx.sender) && Supply(w) < TWO_256
    requires p.balances == SetBalance(w, tx.sender, Balance(w, tx.sender) - cost).balances
    ensures Supply(RunFor(oracle, tx, target, Moved(tx, target, p)).world) + cost == Supply(w)
  {
    PreparedSupply(w, tx, cost, p);
    if tx.amount > 0 { TransferKeepsSupply(p, tx.sender, target, tx.amount); }
    var v := Moved(tx, target, p);
    var start := StartState(tx, target, v);
    SameBalancesSameSupply(v, start.world);
    RunConserves(oracle, 0, start.frame.gas, start);
  }

  /** How a transaction ends, given how its run did. */
  ghost predicate TxEnds(block: Block, tx: Tx, target: Address, price: nat, r: Next, t: Result) {
    if r.Overrun? then t.Undefined?
    else && r.Done? && t.Ran? && t.executed.success == r.success && t.executed.gasUsed <= tx.gasLimit
         && GasBilled(tx, r, t.executed.gasUsed)
         && LedgerEnds(block, tx, target, r, price * (tx.gasLimit - t.executed.gasUsed),
                       (price - block.baseFee) * t.executed.gasUsed, t.executed.world)
  }

  lemma RunSettles(block: Block, tx: Tx, target: Address, price: nat, cost: nat, r: Next, o: Option<Outcome>)
    requires price == EffectivePrice(tx.fees, block.baseFee) && block.baseFee <= price < TWO_256
    requires !r.Running? && Billed(tx, target, r) == o && (o.Some? ==> 0 <= o.value.gasUsed <= tx.gasLimit)
    requires cost == price * tx.gasLimit && Supply(r.world) + cost < TWO_256 && (r.Done? ==> r.gasUsed >= 0)
    ensures TxEnds(block, tx, target, price, r, Concluded(block, tx, o))
  {
    if r.Done? {
      var used := o.value.gasUsed;
      BillAddsUp(price, block.baseFee, tx.gasLimit, used);
      OutcomeOf(tx, target, r, o.value);
      OutcomeSettles(block, tx, target, r, o.value, price, price * (tx.gasLimit - used), (price - block.baseFee) * used);
    }
  }

  /** A valid transaction from beginning to end: the code of its target runs from the state above, and unless a stack
      is overrun the run is billed and settled as above. */
  lemma TxLaw(out: Outside, index: nat, block: Block, w: World, tx: Tx, cumulative: nat, price: nat, cost: nat)
      returns (target: Address, s: State, r: Next)
    requires Validate(w, block, tx, cumulative).Valid? && NoOverflow(block, tx) && Supply(w) < TWO_256
    requires price == EffectivePrice(tx.fees, block.baseFee) && cost == price * tx.gasLimit
    ensures target == if tx.recipient.Some? then tx.recipient.value
                      else out.createAddress(tx.sender, Nonce(w, tx.sender))
    ensures s.parents == [] && s.returnData == [] && FrameStarts(tx, target, w, s.frame)
    ensures LedgerStarts(tx, target, w, cost, s.world)
    ensures r == RunFrom(out.oracles(index), 0, s.frame.gas, s) && SameAccounts(s.world, r.world)
    ensures IntrinsicGas(tx) <= tx.gasLimit && TxEnds(block, tx, target, price, r, ExecuteTx(out, index, block, w, tx))
  {
    ValidCanPay(w, block, tx, cumulative);
    target := Target(out, w, tx);
    var oracle := out.oracles(index);
    var p := Prepared(out, w, tx, target, cost);
    var v := AllMoved(out, w, tx, target, cost);
    s, r := StartState(tx, target, v), RunFor(oracle, tx, target, v);
    MovedStarts(tx, target, w, cost, v);
    RunKeepsAccounts(oracle, 0, s.frame.gas, s);
    RunWithinLimit(oracle, tx, target, v);
    ExecuteIs(out, index, block, w, tx, target, cost, p);
    PriceBounded(price, tx.gasLimit, IntrinsicGas(tx), cost);
    SupplyAtEnd(oracle, w, tx, target, cost, p);
    RunSettles(block, tx, target, price, cost, r, RunCode(oracle, tx, target, v));
  }

  // ---------------------------------------------------------------------------
  // A plain transfer
  // ---------------------------------------------------------------------------

  /** An account without code stops at once. */
  lemma EmptyCodeRuns(oracle: Oracle, n: nat, gas: nat, s: State)
    requires s.parents == [] && s.frame.pc == 0 && s.frame.code == [] && s.frame.gas == gas && s.world.refund == 0
    ensures RunFrom(oracle, n, gas, s) == Done(true, 0, 0, s.returnData, s.world)
  {}

  lemma PlainRun(oracle: Oracle, tx: Tx, to: Address, w: World, cost: nat, s: State, r: Next)
    requires tx.recipient == Some(to) && Code(w, to) == [] && s.parents == [] && FrameStarts(tx, to, w, s.frame)
    requires LedgerStarts(tx, to, w, cost, s.world) && r == RunFrom(oracle, 0, s.frame.gas, s)
    ensures r.Done? && r.success && r.gasUsed == 0 && r.refund == 0 && r.world == s.world
  {
    EmptyCodeRuns(oracle, 0, s.frame.gas, s);
  }

  /** The ledger after a plain transfer: the sender has lost the amount and the fee, the recipient has the amount, the
      coinbase the tip, and nobody else has anything more or less. The sender's nonce is one higher. */
  ghost predicate TransferEnds(block: Block, tx: Tx, to: Address, w: World, fee: nat, tip: nat, v: World) {
    && (forall a :: Balance(v, a) == Balance(w, a) - (if a == tx.sender then tx.amount + fee else 0)
                                                   + (if a == to then tx.amount else 0)
                                                   + (if a == block.coinbase then tip else 0))
    && (forall a :: Nonce(v, a) == if a == tx.sender && Nonce(w, a) < TWO_64 - 2 then Nonce(w, a) + 1 else Nonce(w, a))
    && (forall a :: Code(v, a) == Code(w, a)) && v.storage == w.storage
  }

  lemma TransferJoined(block: Block, tx: Tx, to: Address, w: World, cost: nat, left: nat, fee: nat, tip: nat, r: Next,
                       v: World)
    requires tx.recipient == Some(to) && r.Done? && cost == left + fee
    requires LedgerStarts(tx, to, w, cost, r.world) && LedgerEnds(block, tx, to, r, left, tip, v)
    ensures TransferEnds(block, tx, to, w, fee, tip, v)
  {
    assert forall a :: Nonce(v, a) == Nonce(r.world, a);
  }

  lemma PlainTx(out: Outside, index: nat, block: Block, w: World, tx: Tx, to: Address, cumulative: nat, price: nat,
                cost: nat)
      returns (r: Next)
    requires Validate(w, block, tx, cumulative).Valid? && NoOverflow(block, tx) && Supply(w) < TWO_256
    requires tx.recipient == Some(to) && Code(w, to) == []
    requires price == EffectivePrice(tx.fees, block.baseFee) && cost == price * tx.gasLimit
    ensures r.Done? && r.success && r.gasUsed == 0 && r.refund == 0 && LedgerStarts(tx, to, w, cost, r.world)
    ensures IntrinsicGas(tx) <= tx.gasLimit && TxEnds(block, tx, to, price, r, ExecuteTx(out, index, block, w, tx))
  {
    var target, s, end := TxLaw(out, index, block, w, tx, cumulative, price, cost);
    r := end;
    PlainRun(out.oracles(index), tx, to, w, cost, s, r);
  }

  /** A transaction to an account without code uses the gas due before the run, and moves the amount. */
  lemma PlainTransfer(out: Outside, index: nat, block: Block, w: World, tx: Tx, to: Address, cumulative: nat, price: nat,
                      fee: nat, tip: nat)
    requires Validate(w, block, tx, cumulative).Valid? && NoOverflow(block, tx) && Supply(w) < TWO_256
    requires tx.recipient == Some(to) && Code(w, to) == []
    requires price == EffectivePrice(tx.fees, block.baseFee) && fee == price * IntrinsicGas(tx)
    requires tip == (price - block.baseFee) * IntrinsicGas(tx)
    ensures IntrinsicGas(tx) <= tx.gasLimit
    ensures var t := ExecuteTx(out, index, block, w, tx);
            && t.Ran? && t.executed.success && t.executed.gasUsed == IntrinsicGas(tx)
            && TransferEnds(block, tx, to, w, fee, tip, t.executed.world)
  {
    var cost, left := PlainBill(price, tx.gasLimit, IntrinsicGas(tx), fee);
    var r := PlainTx(out, index, block, w, tx, to, cumulative, price, cost);
    PlainEnds(block, tx, to, w, price, cost, left, fee, tip, r, ExecuteTx(out, index, block, w, tx));
  }

  lemma PlainBill(price: nat, limit: nat, used: nat, fee: nat) returns (cost: nat, left: nat)
    requires used <= limit && fee == price * used
    ensures cost == price * limit && left == price * (limit - used) && cost == left + fee
  {
    MulAdd(limit - used, used, price);
    MulLe(0, limit - used, price);
    MulLe(0, limit, price);
    cost, left := price * limit, price * (limit - used);
  }

  lemma PlainEnds(block: Block, tx: Tx, to: Address, w: World, price: nat, cost: nat, left: nat, fee: nat, tip: nat,
                  r: Next, t: Result)
    requires tx.recipient == Some(to) && cost == left + fee && IntrinsicGas(tx) <= tx.gasLimit
    requires left == price * (tx.gasLimit - IntrinsicGas(tx)) && tip == (price - block.baseFee) * IntrinsicGas(tx)
    requires r.Done? && r.success && r.gasUsed == 0 && r.refund == 0 && LedgerStarts(tx, to, w, cost, r.world)
    requires TxEnds(block, tx, to, price, r, t)
    ensures t.Ran? && t.executed.success && t.executed.gasUsed == IntrinsicGas(tx)
    ensures TransferEnds(block, tx, to, w, fee, tip, t.executed.world)
  {
    TransferJoined(block, tx, to, w, cost, left, fee, tip, r, t.executed.world);
  }

  // ---------------------------------------------------------------------------
  // A transaction in its block
  // ---------------------------------------------------------------------------

  /** A transaction that ran adds its gas and a receipt, one that was turned away is counted. */
  predicate Entered(p: Progress, w: World, r: Result, q: Option<Progress>) {
    match r
    case Ran(x) => q == Some(Progress(x.world, p.gasUsed + x.gasUsed, p.receipts + 1, p.rejected))
    case Rejected => q == Some(Progress(w, p.gasUsed, p.receipts, p.rejected + 1))
    case Undefined => q.None?
  }

  lemma RecordEnters(p: Progress, w: World, r: Result)
    ensures Entered(p, w, r, Record(p, w, r))
  {}

  /** Every transaction of a block starts with nothing warm and every slot's present value as its original one. If it
      is valid it is run from there, and otherwise it is turned away. */
  lemma ProcessTxLaw(out: Outside, index: nat, block: Block, p: Progress, tx: Tx) returns (w: World, r: Result)
    ensures w == p.world.(warmAddresses := {}, warmSlots := {}, original := w.original)
    ensures forall k :: Original(w, k) == Stored(p.world, k)
    ensures if Validate(w, block, tx, p.gasUsed).Valid? then r == ExecuteTx(out, index, block, w, tx) else r == Rejected
    ensures Entered(p, w, r, ProcessTx(out, index, block, p, tx))
  {
    w := BeginTransaction(p.world);
    r := Attempt(out, index, block, w, p.gasUsed, tx);
    RecordEnters(p, w, r);
  }

  // ---------------------------------------------------------------------------
  // Nonces and replay
  // ---------------------------------------------------------------------------

  lemma BilledNonces(tx: Tx, target: Address, r: Next)
    requires !r.Running?
    ensures var o := Billed(tx, target, r); o.Some? ==> o.value.world.nonces == r.world.nonces
  {}

  lemma CodeNonces(oracle: Oracle, tx: Tx, target: Address, w: World, a: Address)
    requires IntrinsicGas(tx) <= tx.gasLimit
    ensures var o := RunCode(oracle, tx, target, w);
            o.Some? ==> && Nonce(w, a) <= Nonce(o.value.world, a)
                        && (Nonce(w, a) > 0 ==> Nonce(w, a) == Nonce(o.value.world, a))
  {
    var start, r := StartState(tx, target, w), RunFor(oracle, tx, target, w);
    RunKeepsAccounts(oracle, 0, start.frame.gas, start);
    BilledNonces(tx, target, r);
  }

  lemma RunNonces(oracle: Oracle, tx: Tx, target: Address, w: World, a: Address)
    requires IntrinsicGas(tx) <= tx.gasLimit
    ensures var o := MoveAndRun(oracle, tx, target, w);
            o.Some? ==> && Nonce(w, a) <= Nonce(o.value.world, a)
                        && (Nonce(w, a) > 0 ==> Nonce(w, a) == Nonce(o.value.world, a))
  {
    CodeNonces(oracle, tx, target, Moved(tx, target, w), a);
  }

  /** A transaction that runs raises its sender's nonce by one, short of the last, and lowers no nonce. */
  lemma TxNonces(out: Outside, index: nat, block: Block, w: World, tx: Tx, a: Address)
    requires IntrinsicGas(tx) <= tx.gasLimit && ExecuteTx(out, index, block, w, tx).Ran?
    ensures var v := ExecuteTx(out, index, block, w, tx).executed.world;
            && Nonce(w, a) <= Nonce(v, a)
            && (a == tx.sender ==> Nonce(v, a) == if Nonce(w, a) < TWO_64 - 2 then Nonce(w, a) + 1 else Nonce(w, a))
  {
    var bought := SubBalance(w, tx.sender, GasCost(block, tx)).0;
    var p := Prepare(out, bought, tx);
    PreparedNonces(out, bought, tx, a);
    RunNonces(out.oracles(index), tx, Target(out, bought, tx), p, a);
  }

  lemma PreparedNonces(out: Outside, w: World, tx: Tx, a: Address)
    ensures Nonce(Prepare(out, w, tx), a)
         == if a == tx.sender && Nonce(w, a) < TWO_64 - 2 then Nonce(w, a) + 1 else Nonce(w, a)
  {
    PreparedRest(out, w, tx);
  }

  /** No transaction of a block lowers a nonce. */
  lemma ProcessTxNonces(out: Outside, index: nat, block: Block, p: Progress, tx: Tx, a: Address)
    ensures var q := ProcessTx(out, index, block, p, tx);
            && (q.Some? ==> Nonce(p.world, a) <= Nonce(q.value.world, a))
            && (q.Some? && q.value.receipts > p.receipts && a == tx.sender && Nonce(p.world, a) < TWO_64 - 2
                ==> Nonce(q.value.world, a) == tx.nonce + 1)
            && (q.Some? && q.value.receipts > p.receipts && a == tx.sender && Nonce(p.world, a) >= TWO_64 - 2
                ==> Nonce(q.value.world, a) == tx.nonce)
  {
    var w := BeginTransaction(p.world);
    if Validate(w, block, tx, p.gasUsed).Valid? && ExecuteTx(out, index, block, w, tx).Ran? {
      TxNonces(out, index, block, w, tx, a);
    }
  }

  lemma {:induction false} ProcessNonces(out: Outside, index: nat, block: Block, p: Progress, txs: seq<Tx>, a: Address)
    ensures var q := Process(out, index, block, p, txs); q.Some? ==> Nonce(p.world, a) <= Nonce(q.value.world, a)
    decreases |txs|
  {
    if |txs| > 0 {
      ProcessTxNonces(out, index, block, p, txs[0], a);
      var q := ProcessTx(out, index, block, p, txs[0]);
      if q.Some? { ProcessNonces(out, index + 1, block, q.value, txs[1..], a); }
    }
  }

  /** A used nonce is too low. */
  lemma UsedNonceRejected(out: Outside, index: nat, block: Block, p: Progress, tx: Tx)
    requires tx.nonce < Nonce(p.world, tx.sender)
    ensures ProcessTx(out, index, block, p, tx)
         == Some(Progress(BeginTransaction(p.world), p.gasUsed, p.receipts, p.rejected + 1))
  {
    var w := BeginTransaction(p.world);
    assert Attempt(out, index, block, w, p.gasUsed, tx) == Rejected;
  }

  /** A transaction that has run is turned away when it comes again, whatever stands between. */
  lemma ReplayRejected(out: Outside, index: nat, block: Block, p: Progress, tx: Tx, first: Progress, between: seq<Tx>,
                       q: Progress, last: nat)
    requires Nonce(p.world, tx.sender) < TWO_64 - 2
    requires ProcessTx(out, index, block, p, tx) == Some(first) && first.receipts > p.receipts
    requires Process(out, index + 1, block, first, between) == Some(q)
    ensures ProcessTx(out, last, block, q, tx)
         == Some(Progress(BeginTransaction(q.world), q.gasUsed, q.receipts, q.rejected + 1))
  {
    ProcessTxNonces(out, index, block, p, tx, tx.sender);
    ProcessNonces(out, index + 1, block, first, between, tx.sender);
    UsedNonceRejected(out, last, block, q, tx);
  }

  /** The nonce turns a repetition away if and only if it is not the last one, 2^64 - 2, which is not raised. */
  lemma ReplayIff(out: Outside, index: nat, block: Block, p: Progress, tx: Tx)
    requires var first := ProcessTx(out, index, block, p, tx); first.Some? && first.value.receipts > p.receipts
    ensures var q := ProcessTx(out, index, block, p, tx).value;
            var again := Validate(BeginTransaction(q.world), block, tx, q.gasUsed);
            && (again.NonceTooLow? <==> tx.nonce < TWO_64 - 2) && !again.NonceTooHigh?
  {
    ProcessTxNonces(out, index, block, p, tx, tx.sender);
  }

  const LAST := Tx(1, Some(2), TWO_64 - 2, 21000, Fixed(0), 0, [], [], None)

  const FREE := Block(0, 3, 42000, 1)

  /** Sender 1 has come to its last nonce, and recipient 2 has no code. */
  ghost predicate AtLast(p: Progress) {
    Nonce(p.world, 1) == TWO_64 - 2 && Code(p.world, 2) == [] && Supply(p.world) == 0
  }

  lemma LastRuns(out: Outside, index: nat, p: Progress)
    requires AtLast(p) && p.gasUsed <= 21000
    ensures var q := ProcessTx(out, index, FREE, p, LAST);
            && q.Some? && AtLast(q.value) && q.value.gasUsed == p.gasUsed + 21000 && q.value.receipts == p.receipts + 1
  {
    var w := BeginTransaction(p.world);
    SameBalancesSameSupply(p.world, w);
    Unwrapped(0);
    PlainTransfer(out, index, FREE, w, LAST, 2, p.gasUsed, 0, 0, 0);
    var q := ProcessTxConserves(out, index, FREE, p, LAST);
  }

  lemma ProcessTwo(out: Outside, index: nat, block: Block, p: Progress, tx: Tx, first: Progress, second: Progress)
    requires ProcessTx(out, index, block, p, tx) == Some(first)
    requires ProcessTx(out, index + 1, block, first, tx) == Some(second)
    ensures Process(out, index, block, p, [tx, tx]) == Some(second)
  {
    var pair, one := [tx, tx], [tx];
    assert pair[1..] == one && one[1..] == [];
    assert Process(out, index + 1, block, first, one) == Some(second);
    assert Process(out, index, block, p, pair) == Some(second);
  }

  /** Two copies of one transaction both run when its nonce is the last. */
  lemma LastNonceReplays(out: Outside, index: nat, p: Progress)
    requires p == Progress(World(map[], map[1 := TWO_64 - 2], map[], map[], map[], {}, {}, [], 0, 0), 0, 0, 0)
    ensures var q := Process(out, index, FREE, p, [LAST, LAST]); q.Some? && q.value.receipts == 2
  {
    LastRuns(out, index, p);
    var first := ProcessTx(out, index, FREE, p, LAST).value;
    LastRuns(out, index + 1, first);
    ProcessTwo(out, index, FREE, p, LAST, first, ProcessTx(out, index + 1, FREE, first, LAST).value);
  }
}
