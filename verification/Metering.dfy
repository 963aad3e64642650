/** Gas and refunds of storage accesses (EIP-2200, EIP-2929 and EIP-3529), over every sequence of
    accesses to one slot in one transaction. */
module Metering {
  import opened Arith

  const COLD_SLOAD := 2100
  const WARM_READ := 100
  const SSTORE_SET := 20000
  const SSTORE_RESET := 2900
  const CLEAR_REFUND := 4800
  const SSTORE_MIN_GAS := 2300
  const ACCESS_LIST_KEY := 1900

  function LoadCost(cold: bool): nat {
    if cold then COLD_SLOAD else WARM_READ
  }

  function StoreCost(cold: bool, current: nat, original: nat, value: nat): nat {
    (if cold then COLD_SLOAD else 0)
    + (if current != value && original == current
       then (if original == 0 then SSTORE_SET else SSTORE_RESET)
       else WARM_READ)
  }

  /** The refund of one store, built up branch by branch as a signed number. */
  method ComputeRefund(current: nat, original: nat, value: nat) returns (refund: int)
    ensures refund == StoreRefund(current, original, value)
  {
    if current == value { return 0; }
    refund := 0;
    if original != 0 {
      if current == 0 { refund := refund - CLEAR_REFUND; }
      else if value == 0 { refund := refund + CLEAR_REFUND; }
    }
    if original == value {
      refund := refund + if original == 0 then SSTORE_SET - WARM_READ else SSTORE_RESET - WARM_READ;
    }
  }

  // The part of a slot's refund that depends only on where it stands now, and the part earned each
  // time a changed slot is put back to its original value.

  function Pending(original: nat, current: nat): nat {
    if original != 0 && current == 0 then CLEAR_REFUND else 0
  }

  function RestoreRate(original: nat): nat {
    if original == 0 then SSTORE_SET - WARM_READ else SSTORE_RESET - WARM_READ
  }

  function StoreRefund(current: nat, original: nat, value: nat): int {
    Pending(original, value) - Pending(original, current)
    + if value == original && current != value then RestoreRate(original) else 0
  }

  /** The accumulator, with the clamp of the source. */
  function Accumulate(refund: nat, change: int): nat {
    if change >= 0 then refund + change
    else if refund >= -change then refund + change
    else 0
  }

  // ---------------------------------------------------------------------------
  // One slot over a transaction
  // ---------------------------------------------------------------------------

  /** A slot is warmed before the price of the access is charged, so an access that runs out of gas in
      a nested frame leaves it warm and unpaid. */
  datatype Access = Load | Store(value: nat) | Starved

  datatype Slot = Slot(original: nat, current: nat, warm: bool, paid: nat, refund: nat)

  function Touch(s: Slot, a: Access): Slot {
    match a
    case Load => s.(warm := true, paid := s.paid + LoadCost(!s.warm))
    case Starved => s.(warm := true)
    case Store(v) =>
      s.(current := v, warm := true,
         paid := s.paid + StoreCost(!s.warm, s.current, s.original, v),
         refund := Accumulate(s.refund, StoreRefund(s.current, s.original, v)))
  }

  function TouchAll(s: Slot, accesses: seq<Access>): Slot
    decreases |accesses|
  {
    if |accesses| == 0 then s else TouchAll(Touch(s, accesses[0]), accesses[1..])
  }

  predicate IsRestore(s: Slot, a: Access) {
    a.Store? && a.value == s.original && s.current != a.value
  }

  function Restores(s: Slot, accesses: seq<Access>): nat
    decreases |accesses|
  {
    if |accesses| == 0 then 0
    else (if IsRestore(s, accesses[0]) then 1 else 0) + Restores(Touch(s, accesses[0]), accesses[1..])
  }

  /** What must have been paid to bring a slot from its original value to its present one. */
  function Owed(original: nat, current: nat): nat {
    if current != original then RestoreRate(original) + WARM_READ else 0
  }

  /** A cleared slot is worth more than its last store cost, but by no more than the price of listing it
      in advance. */
  lemma PendingBound(original: nat, current: nat)
    ensures Pending(original, current) <= Owed(original, current) + ACCESS_LIST_KEY
  {}

  /** What holds of a slot after `k` restores; `entry` is what was paid for its first access. */
  ghost predicate Metered(s: Slot, k: nat, entry: nat) {
    && s.refund == k * RestoreRate(s.original) + Pending(s.original, s.current)
    && s.paid >= entry + k * (RestoreRate(s.original) + WARM_READ) + Owed(s.original, s.current)
  }

  lemma TouchKeepsMetered(s: Slot, a: Access, k: nat, entry: nat)
    requires Metered(s, k, entry)
    ensures var k' := if IsRestore(s, a) then k + 1 else k;
            Metered(Touch(s, a), k', entry + if s.warm || a.Starved? then 0 else COLD_SLOAD - WARM_READ)
    ensures a.Store? ==> s.refund + StoreRefund(s.current, s.original, a.value) >= 0
  {
    MulAdd(k, 1, RestoreRate(s.original));
    MulAdd(k, 1, RestoreRate(s.original) + WARM_READ);
  }

  lemma {:induction false} RunKeepsMetered(s: Slot, accesses: seq<Access>, k: nat, entry: nat)
    requires Metered(s, k, entry) && s.warm
    ensures Metered(TouchAll(s, accesses), k + Restores(s, accesses), entry)
    ensures TouchAll(s, accesses).original == s.original
    decreases |accesses|
  {
    if |accesses| > 0 {
      TouchKeepsMetered(s, accesses[0], k, entry);
      RunKeepsMetered(Touch(s, accesses[0]), accesses[1..], if IsRestore(s, accesses[0]) then k + 1 else k, entry);
    }
  }

  /** The slot as a transaction finds it. */
  function Untouched(original: nat, warm: bool): Slot {
    Slot(original, original, warm, 0, 0)
  }

  /** The refund over any sequence of accesses: what the slot's present value is worth plus the rate
      for every restore. */
  lemma RefundFormula(original: nat, warm: bool, accesses: seq<Access>)
    ensures var s := TouchAll(Untouched(original, warm), accesses);
            s.refund == Restores(Untouched(original, warm), accesses) * RestoreRate(original)
                        + Pending(original, s.current)
  {
    var start := Untouched(original, warm);
    if |accesses| > 0 {
      TouchKeepsMetered(start, accesses[0], 0, 0);
      var next := Touch(start, accesses[0]);
      RunKeepsMetered(next, accesses[1..], 0, 0);
    }
  }

  /** A slot whose first access was charged is never refunded as much as was paid for it. */
  lemma RefundBelowPaid(original: nat, first: Access, rest: seq<Access>)
    requires !first.Starved?
    ensures var s := TouchAll(Untouched(original, false), [first] + rest);
            s.refund < s.paid
  {
    var next := Touch(Untouched(original, false), first);
    assert ([first] + rest)[1..] == rest;
    FirstAccess(original, first);
    RunKeepsMetered(next, rest, 0, COLD_SLOAD);
    MulAdd(RestoreRate(original), WARM_READ, Restores(next, rest));
  }

  /** The first charged access to a cold slot pays the cold price in full. */
  lemma FirstAccess(original: nat, a: Access)
    requires !a.Starved?
    ensures Metered(Touch(Untouched(original, false), a), 0, COLD_SLOAD)
  {}

  /** A slot is warm without having been paid for in the run: listed in advance, or starved of gas at its
      first access. It is refunded at most the price of listing it above what was paid, and nothing above
      if it was empty. */
  lemma UnpaidRefund(s: Slot, accesses: seq<Access>)
    requires s == Untouched(s.original, true)
    ensures var t := TouchAll(s, accesses);
            t.refund <= t.paid + if s.original == 0 then 0 else ACCESS_LIST_KEY
  {
    RunKeepsMetered(s, accesses, 0, 0);
    MulAdd(RestoreRate(s.original), WARM_READ, Restores(s, accesses));
  }

  /** A slot warmed by the access list, whose key was paid for in advance, is refunded at most what was
      paid for it in all. */
  lemma PrepaidRefund(original: nat, accesses: seq<Access>)
    ensures var s := TouchAll(Untouched(original, true), accesses);
            s.refund <= s.paid + ACCESS_LIST_KEY
  {
    UnpaidRefund(Untouched(original, true), accesses);
  }

  /** Whatever follows the first access, the slot is not refunded more than was paid for it. */
  ghost predicate NeverOverpaid(original: nat, first: Access) {
    forall rest: seq<Access> :: var s := TouchAll(Untouched(original, false), [first] + rest); s.refund <= s.paid
  }

  /** A starved access followed by a store that clears the slot earns 4800 for 2900 paid. */
  lemma StarvedThenCleared(original: nat)
    requires original != 0
    ensures var s := TouchAll(Untouched(original, false), [Starved] + [Store(0)]);
            s.paid == SSTORE_RESET && s.refund == CLEAR_REFUND
  {
    var a: seq<Access> := [Starved] + [Store(0)];
    assert a[1..] == [Store(0)] && a[1..][1..] == [];
    var s0 := Untouched(original, false);
    assert TouchAll(s0, a) == TouchAll(Touch(s0, a[0]), a[1..]) == TouchAll(Touch(Touch(s0, a[0]), a[1]), []);
  }

  /** Refunds of a slot found cold stay within what was paid for it exactly when its first access was
      charged, or it was empty when the transaction began. */
  lemma NeverOverpaidIff(original: nat, first: Access)
    ensures NeverOverpaid(original, first) <==> original == 0 || !first.Starved?
  {
    if original != 0 && first.Starved? {
      StarvedThenCleared(original);
    } else {
      forall rest: seq<Access>
        ensures var s := TouchAll(Untouched(original, false), [first] + rest); s.refund <= s.paid
      {
        if first.Starved? {
          assert ([first] + rest)[1..] == rest;
          UnpaidRefund(Untouched(original, true), rest);
        } else {
          RefundBelowPaid(original, first, rest);
        }
      }
    }
  }

  /** The bound for prepaid slots is reached: clearing one gives back everything. */
  lemma PrepaidBoundReached()
    ensures var s := TouchAll(Untouched(1, true), [Store(0)]);
            s.refund == s.paid + ACCESS_LIST_KEY
  {
    assert [Store(0)][1..] == [];
  }

  /** The refund is not a function of the original and the present value: storing and putting back
      leaves both as they were and still earns a refund. */
  lemma RefundRemembersRestores()
    ensures var s := TouchAll(Untouched(0, false), [Store(1), Store(0)]);
            s.current == s.original == 0 && s.refund == SSTORE_SET - WARM_READ
  {
    var a: seq<Access> := [Store(1), Store(0)];
    assert a[1..] == [Store(0)] && a[1..][1..] == [];
    var s0 := Untouched(0, false);
    var s1 := Touch(s0, a[0]);
    assert TouchAll(s0, a) == TouchAll(s1, a[1..]) == TouchAll(Touch(s1, a[1]), []);
  }

  /** It is that function exactly as long as nothing has been put back. */
  lemma PotentialIffNoRestore(original: nat, warm: bool, accesses: seq<Access>)
    ensures var start := Untouched(original, warm);
            var s := TouchAll(start, accesses);
            s.refund == Pending(original, s.current) <==> Restores(start, accesses) == 0
  {
    RefundFormula(original, warm, accesses);
    var k := Restores(Untouched(original, warm), accesses);
    if k > 0 { MulLe(1, k, RestoreRate(original)); }
  }
}
