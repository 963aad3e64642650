/** The world state the interpreter and the block executor work on. Missing entries read as zero;
    words are unbounded here except where the source checks for overflow. */
module World {
  import opened Bytes
  import opened Sums
  import Metering

  type Address = nat

  type SlotKey = (Address, nat)

  const TWO_160: int := 0x1_0000_0000 * TWO_64 * TWO_64
  const TWO_256: int := TWO_64 * TWO_64 * TWO_64 * TWO_64

  datatype Log = Log(address: Address, topics: seq<nat>, data: Bytes)

  /** `settled` is bookkeeping of the model: the refunds earned by putting slots back. */
  datatype World = World(
    balances: map<Address, nat>,
    nonces: map<Address, nat>,
    codes: map<Address, Bytes>,
    storage: map<SlotKey, nat>,
    original: map<SlotKey, nat>,
    warmAddresses: set<Address>,
    warmSlots: set<SlotKey>,
    logs: seq<Log>,
    refund: nat,
    settled: nat)

  function Balance(w: World, a: Address): nat {
    if a in w.balances then w.balances[a] else 0
  }

  function Nonce(w: World, a: Address): nat {
    if a in w.nonces then w.nonces[a] else 0
  }

  function Code(w: World, a: Address): Bytes {
    if a in w.codes then w.codes[a] else []
  }

  function Stored(w: World, k: SlotKey): nat {
    if k in w.storage then w.storage[k] else 0
  }

  /** The value a slot had when the transaction began. */
  function Original(w: World, k: SlotKey): nat {
    if k in w.original then w.original[k] else Stored(w, k)
  }

  predicate IsEmpty(w: World, a: Address) {
    Balance(w, a) == 0 && Nonce(w, a) == 0 && Code(w, a) == []
  }

  // ---------------------------------------------------------------------------
  // Balances
  // ---------------------------------------------------------------------------

  ghost function Supply(w: World): nat {
    Sum(w.balances)
  }

  function SetBalance(w: World, a: Address, amount: nat): World {
    w.(balances := w.balances[a := amount])
  }

  function SubBalance(w: World, a: Address, amount: nat): (r: (World, bool)) {
    if Balance(w, a) < amount then (w, false) else (SetBalance(w, a, Balance(w, a) - amount), true)
  }

  function AddBalance(w: World, a: Address, amount: nat): (r: (World, bool)) {
    if Balance(w, a) + amount >= TWO_256 then (w, false) else (SetBalance(w, a, Balance(w, a) + amount), true)
  }

  lemma SupplyAfterSet(w: World, a: Address, amount: nat)
    ensures Supply(SetBalance(w, a, amount)) == Supply(w) - Balance(w, a) + amount
    ensures Balance(w, a) <= Supply(w)
  {
    SumUpdate(w.balances, a, amount);
    if a in w.balances { SumAtLeast(w.balances, a); }
  }

  /** A debit takes its amount out of the supply or, if the balance is too small, does nothing. */
  lemma SupplyAfterSub(w: World, a: Address, amount: nat)
    ensures Supply(SubBalance(w, a, amount).0) == Supply(w) - if SubBalance(w, a, amount).1 then amount else 0
  {
    SupplyAfterSet(w, a, Balance(w, a) - if Balance(w, a) < amount then 0 else amount);
  }

  /** A credit cannot overflow while the supply, credit included, stays below 2^256. */
  lemma SupplyAfterAdd(w: World, a: Address, amount: nat)
    requires Supply(w) + amount < TWO_256
    ensures AddBalance(w, a, amount).1
    ensures Supply(AddBalance(w, a, amount).0) == Supply(w) + amount
  {
    SupplyAfterSet(w, a, Balance(w, a) + amount);
  }

  // ---------------------------------------------------------------------------
  // Storage
  // ---------------------------------------------------------------------------

  function WarmAddress(w: World, a: Address): World {
    w.(warmAddresses := w.warmAddresses + {a})
  }

  function WarmSlot(w: World, k: SlotKey): World {
    w.(warmSlots := w.warmSlots + {k})
  }

  /** A write records the slot's original value the first time. */
  function SetStorage(w: World, k: SlotKey, value: nat): World {
    w.(original := w.original[k := Original(w, k)], storage := w.storage[k := value])
  }

  function StoreWithRefund(w: World, k: SlotKey, value: nat): World {
    var change := Metering.StoreRefund(Stored(w, k), Original(w, k), value);
    var restored := if value == Original(w, k) && Stored(w, k) != value then Metering.RestoreRate(Original(w, k)) else 0;
    SetStorage(w, k, value).(refund := Metering.Accumulate(w.refund, change), settled := w.settled + restored)
  }

  /** What each written slot is worth as it stands. */
  ghost function PendingRefunds(w: World): map<SlotKey, nat> {
    map k | k in w.original :: Metering.Pending(w.original[k], Stored(w, k))
  }

  /** The refund counter is the worth of the slots as they stand plus what restores have earned. */
  ghost predicate RefundsBalance(w: World) {
    w.refund == w.settled + Sum(PendingRefunds(w))
  }

  /** A store changes the worth of its own slot and of no other. */
  lemma PendingAfterStore(w: World, k: SlotKey, value: nat)
    ensures PendingRefunds(StoreWithRefund(w, k, value))
         == PendingRefunds(w)[k := Metering.Pending(Original(w, k), value)]
  {
    var w' := StoreWithRefund(w, k, value);
    forall j | j in w'.original
      ensures w'.original[j] == (if j == k then Original(w, k) else w.original[j])
      ensures Stored(w', j) == if j == k then value else Stored(w, j)
    {}
  }

  /** The worth of a slot not yet written is nothing. */
  lemma PendingBefore(w: World, k: SlotKey)
    ensures Metering.Pending(Original(w, k), Stored(w, k))
         == if k in PendingRefunds(w) then PendingRefunds(w)[k] else 0
  {}

  /** The counter stays balanced under every store, and the clamp to zero is never taken. */
  lemma StoreKeepsRefunds(w: World, k: SlotKey, value: nat)
    requires RefundsBalance(w)
    ensures RefundsBalance(StoreWithRefund(w, k, value))
    ensures w.refund + Metering.StoreRefund(Stored(w, k), Original(w, k), value) >= 0
  {
    var before := PendingRefunds(w);
    PendingAfterStore(w, k, value);
    PendingBefore(w, k);
    SumUpdate(before, k, Metering.Pending(Original(w, k), value));
    if k in before { SumAtLeast(before, k); }
  }

  /** Slots start a transaction with nothing recorded. */
  function BeginTransaction(w: World): World {
    w.(warmAddresses := {}, warmSlots := {}, original := map[])
  }
}
