/** Instruction boundaries and the jump destination bitmap (section 9.4.3 of the Yellow Paper). */
module Jumpdest {
  import opened Bytes

  const OP_JUMPDEST := 0x5B
  const OP_PUSH1 := 0x60
  const OP_PUSH32 := 0x7F

  /** Bytes of immediate data after an opcode. */
  function PushSize(op: byte): nat {
    if OP_PUSH1 <= op <= OP_PUSH32 then op - OP_PUSH1 + 1 else 0
  }

  /** Where the instruction after the one at `pc` starts. */
  function NextPc(code: Bytes, pc: nat): (next: nat)
    requires pc < |code|
    ensures next > pc
  {
    pc + 1 + PushSize(code[pc])
  }

  /** `p` is reached from `from` by going from instruction to instruction. */
  predicate Reached(code: Bytes, from: nat, p: nat)
    decreases |code| - from
  {
    from == p || (from < p && from < |code| && Reached(code, NextPc(code, from), p))
  }

  /** The start of an instruction, or a position past the end. */
  predicate Boundary(code: Bytes, p: nat) {
    Reached(code, 0, p)
  }

  predicate IsJumpdest(code: Bytes, p: nat) {
    p < |code| && Boundary(code, p) && code[p] == OP_JUMPDEST
  }

  lemma {:induction false} ReachedNext(code: Bytes, from: nat, p: nat)
    requires Reached(code, from, p) && p < |code|
    ensures Reached(code, from, NextPc(code, p))
    decreases |code| - from
  {
    if from != p { ReachedNext(code, NextPc(code, from), p); }
  }

  /** The instruction after a boundary starts at a boundary. */
  lemma BoundaryNext(code: Bytes, p: nat)
    requires Boundary(code, p) && p < |code|
    ensures Boundary(code, NextPc(code, p))
  {
    ReachedNext(code, 0, p);
  }

  /** Nothing between an instruction and the next one is a boundary. */
  lemma {:induction false} NoneBetween(code: Bytes, from: nat, p: nat, q: nat)
    requires Reached(code, from, p) && p < |code| && p < q < NextPc(code, p)
    ensures !Reached(code, from, q)
    decreases |code| - from
  {
    if from != p { NoneBetween(code, NextPc(code, from), p, q); }
  }

  // ---------------------------------------------------------------------------
  // The bitmap
  // ---------------------------------------------------------------------------

  /** Bit `k` of a byte. */
  function Mask(k: nat): bv8
    requires k < 8
  {
    match k
    case 0 => 1 case 1 => 2 case 2 => 4 case 3 => 8
    case 4 => 16 case 5 => 32 case 6 => 64 case _ => 128
  }

  predicate Bit(b: bv8, k: nat)
    requires k < 8
  {
    b & Mask(k) != 0
  }

  lemma SetBit(b: bv8, k: nat, j: nat)
    requires k < 8 && j < 8
    ensures Bit(b | Mask(k), j) <==> j == k || Bit(b, j)
  {
    if j == k { SameBit(b, Mask(k)); } else { OtherBit(b, k, j); }
  }

  lemma SameBit(b: bv8, m: bv8)
    requires m != 0
    ensures (b | m) & m != 0
  {}

  lemma OtherBit(b: bv8, k: nat, j: nat)
    requires k < 8 && j < 8 && k != j
    ensures (b | Mask(k)) & Mask(j) == b & Mask(j)
  {
    DisjointMasks(k, j);
    Masked(b, Mask(k), Mask(j));
  }

  lemma DisjointMasks(k: nat, j: nat)
    requires k < 8 && j < 8 && k != j
    ensures Mask(k) & Mask(j) == 0
  {}

  lemma Masked(b: bv8, m: bv8, n: bv8)
    requires m & n == 0
    ensures (b | m) & n == b & n
  {}

  /** The bit of a code position. */
  predicate BitAt(bitmap: seq<bv8>, p: nat)
    requires p / 8 < |bitmap|
  {
    Bit(bitmap[p / 8], p % 8)
  }

  function BitmapSize(codeSize: nat): nat {
    (codeSize + 7) / 8
  }

  lemma BitmapCovers(codeSize: nat, p: nat)
    requires p < codeSize
    ensures p / 8 < BitmapSize(codeSize)
  {}

  predicate IsValid(bitmap: seq<bv8>, codeSize: nat, dest: nat)
    requires |bitmap| == BitmapSize(codeSize)
  {
    dest < codeSize && (BitmapCovers(codeSize, dest); BitAt(bitmap, dest))
  }

  /** Setting the bit of `pc` changes no other position. */
  lemma SetBitAt(bitmap: seq<bv8>, pc: nat, p: nat)
    requires pc / 8 < |bitmap| && p / 8 < |bitmap|
    ensures BitAt(bitmap[pc / 8 := bitmap[pc / 8] | Mask(pc % 8)], p) <==> p == pc || BitAt(bitmap, p)
  {
    if p / 8 == pc / 8 { SetBit(bitmap[p / 8], pc % 8, p % 8); }
  }

  /** The bits set so far are those of the destinations before `pc`. */
  ghost predicate Scanned(bitmap: seq<bv8>, code: Bytes, pc: nat) {
    && |bitmap| == BitmapSize(|code|)
    && forall p | 0 <= p < |code| :: IsValid(bitmap, |code|, p) <==> IsJumpdest(code, p) && p < pc
  }

  lemma ScanStep(bitmap: seq<bv8>, bitmap': seq<bv8>, code: Bytes, pc: nat)
    requires Scanned(bitmap, code, pc) && pc < |code| && Boundary(code, pc)
    requires bitmap' == if code[pc] == OP_JUMPDEST
                        then (BitmapCovers(|code|, pc); bitmap[pc / 8 := bitmap[pc / 8] | Mask(pc % 8)])
                        else bitmap
    ensures Scanned(bitmap', code, NextPc(code, pc))
  {
    forall p | 0 <= p < |code|
      ensures IsValid(bitmap', |code|, p) <==> IsJumpdest(code, p) && p < NextPc(code, pc)
    {
      BitmapCovers(|code|, p);
      BitmapCovers(|code|, pc);
      assert IsValid(bitmap, |code|, p) <==> IsJumpdest(code, p) && p < pc;
      if code[pc] == OP_JUMPDEST { SetBitAt(bitmap, pc, p); }
      if pc < p < NextPc(code, pc) { NoneBetween(code, 0, pc, p); }
    }
  }

  lemma NoBits(bitmap: seq<bv8>, code: Bytes)
    requires |bitmap| == BitmapSize(|code|) && forall i | 0 <= i < |bitmap| :: bitmap[i] == 0
    ensures Scanned(bitmap, code, 0)
  {
    forall p | 0 <= p < |code| ensures !IsValid(bitmap, |code|, p) {
      BitmapCovers(|code|, p);
      ZeroBit(Mask(p % 8));
    }
  }

  lemma ZeroBit(m: bv8)
    ensures 0 & m == 0
  {}

  /** One pass over the code sets a bit exactly at the instruction boundaries that hold JUMPDEST. */
  method ComputeBitmap(code: Bytes) returns (bitmap: seq<bv8>)
    ensures |bitmap| == BitmapSize(|code|)
    ensures forall p | 0 <= p < |code| :: IsValid(bitmap, |code|, p) <==> IsJumpdest(code, p)
  {
    var bits := new bv8[BitmapSize(|code|)](_ => 0);
    NoBits(bits[..], code);
    var pc := 0;
    while pc < |code|
      invariant Boundary(code, pc) && Scanned(bits[..], code, pc)
    {
      var op := code[pc];
      BitmapCovers(|code|, pc);
      BoundaryNext(code, pc);
      ghost var before := bits[..];
      var next := pc + 1;
      if op == OP_JUMPDEST {
        bits[pc / 8] := bits[pc / 8] | Mask(pc % 8);
      } else if OP_PUSH1 <= op <= OP_PUSH32 {
        next := next + (op - OP_PUSH1) + 1;
      }
      ScanStep(before, bits[..], code, pc);
      pc := next;
    }
    bitmap := bits[..];
  }
}
