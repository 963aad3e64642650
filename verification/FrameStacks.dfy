/** The pool of frames and the stack of pointers to the callers. */
module FrameStacks {
  import opened Machine
  import opened CallFrames

  ghost predicate Distinct<T>(s: seq<T>) {
    forall i, j | 0 <= i < j < |s| :: s[i] != s[j]
  }

  method MakePool() returns (pool: seq<CallFrame>)
    ensures |pool| == FRAME_POOL_SIZE && Distinct(pool) && forall i | 0 <= i < |pool| :: fresh(pool[i])
  {
    pool := [];
    while |pool| < FRAME_POOL_SIZE
      invariant |pool| <= FRAME_POOL_SIZE && Distinct(pool) && forall i | 0 <= i < |pool| :: fresh(pool[i])
      decreases FRAME_POOL_SIZE - |pool|
    {
      var frame := new CallFrame();
      pool := pool + [frame];
    }
  }

  /** The callers of the current frame. They are the first frames of the pool, in order; the frame after
      them is the current one, and those after it are free. */
  class FrameStack {
    const pool: seq<CallFrame>
    const entries: array<CallFrame>
    var depth: nat
    ghost var values: seq<Frame>
    ghost var levels: seq<set<object>>
    ghost var repr: set<object>

    /** `levels[i]` is what the first `i` callers and the stack itself are made of. */
    ghost predicate Valid()
      reads this, repr
    {
      && this in repr && entries in repr
      && depth < |pool| == entries.Length == FRAME_POOL_SIZE && Distinct(pool)
      && |values| == depth && |levels| == depth + 1 && levels[depth] == repr && this in levels[0] && entries in levels[0]
      && (forall i, j | 0 <= i <= j <= depth :: levels[i] <= levels[j])
      && (forall i | 0 <= i < depth ::
            pool[i] in repr && pool[i].stack in repr && pool[i].stack.items in repr && Waits(i))
      && (forall i | depth <= i < |pool| :: pool[i] !in repr)
    }

    /** The `i`-th caller is where it belongs, as it was left, and shares nothing with those before it. */
    ghost predicate Waits(i: nat)
      requires i < |pool| && i < entries.Length && i < |values| && i + 1 < |levels|
      reads this, entries, pool[i], pool[i].stack, pool[i].stack.items
    {
      && entries[i] == pool[i] && pool[i].depth == i && pool[i].Valid() && pool[i].Value() == values[i]
      && pool[i].Footprint() <= levels[i + 1] && pool[i].Footprint() !! levels[i]
    }

    constructor (pool: seq<CallFrame>)
      requires |pool| == FRAME_POOL_SIZE && Distinct(pool)
      ensures Valid() && this.pool == pool && values == [] && fresh(repr)
    {
      this.pool, depth, values := pool, 0, [];
      entries := new CallFrame[FRAME_POOL_SIZE](_ => pool[0]);
      new;
      repr := {this, entries};
      levels := [repr];
    }

    method Push(f: CallFrame)
      requires Valid() && depth + 1 < FRAME_POOL_SIZE && f == pool[depth] && f.Valid() && f.depth == depth
      requires f.Footprint() !! repr
      modifies this, entries
      ensures Valid() && depth == old(depth) + 1 && values == old(values) + [f.Value()]
      ensures repr == old(repr) + f.Footprint()
    {
      entries[depth] := f;
      depth := depth + 1;
      values := values + [f.Value()];
      repr := repr + f.Footprint();
      levels := levels + [repr];
    }

    method Pop() returns (f: CallFrame)
      requires Valid() && depth > 0
      modifies this
      ensures Valid() && depth == old(depth) - 1 && values == old(values)[..depth]
      ensures f == pool[depth] && f.Valid() && f.depth == depth && f.Value() == old(values)[depth]
      ensures f.Footprint() !! repr && repr <= old(repr) && f.Footprint() <= old(repr)
    {
      assert Waits(depth - 1);
      depth := depth - 1;
      f := entries[depth];
      values := values[..depth];
      levels := levels[..depth + 1];
      repr := levels[depth];
    }
  }
}
