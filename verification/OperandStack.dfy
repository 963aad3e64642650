/** The operand stack of a frame: a growing array with unchecked access. */
module OperandStack {
  import opened Machine
  import opened MachineSteps

  class Stack {
    var items: array<nat>
    var top: nat

    ghost predicate Valid()
      reads this
    {
      top <= items.Length && IsCapacity(items.Length)
    }

    function Contents(): seq<nat>
      requires Valid()
      reads this, items
    {
      items[..top]
    }

    constructor ()
      ensures Valid() && Contents() == [] && items.Length == INITIAL_CAPACITY && fresh(items)
    {
      items := new nat[INITIAL_CAPACITY];
      top := 0;
    }

    /** Double the array; at the depth limit it stays as it is. */
    method Grow() returns (ok: bool)
      requires Valid()
      modifies this`items
      ensures Valid() && Contents() == old(Contents())
      ensures ok == (old(items.Length) < MAX_STACK)
      ensures if ok then fresh(items) && items.Length == Doubled(old(items.Length)) else items == old(items)
    {
      var wanted := if items.Length >= MAX_STACK / 2 then MAX_STACK else 2 * items.Length;
      if wanted <= items.Length { return false; }
      var wider := new nat[wanted];
      forall i | 0 <= i < items.Length { wider[i] := items[i]; }
      items := wider;
      return true;
    }

    /** Make room for `n` more items. */
    method EnsureSpace(n: nat) returns (ok: bool)
      requires Valid()
      modifies this`items
      ensures Valid() && Contents() == old(Contents())
      ensures ok == (top + n <= MAX_STACK)
      ensures items.Length == if ok then Widened(old(items.Length), top + n) else old(items.Length)
      ensures ok ==> top + n <= items.Length
      ensures items == old(items) || fresh(items)
    {
      if top + n > MAX_STACK { return false; }
      while top + n > items.Length
        invariant Valid() && Contents() == old(Contents())
        invariant Widened(items.Length, top + n) == Widened(old(items.Length), top + n)
        invariant items == old(items) || fresh(items)
        decreases MAX_STACK - items.Length
      {
        var grown := Grow();
        if !grown { return false; }
      }
      return true;
    }

    /** The caller answers for the room. */
    method PushUnsafe(v: nat)
      requires Valid() && top < items.Length
      modifies this`top, items
      ensures Valid() && Contents() == old(Contents()) + [v]
    {
      items[top] := v;
      top := top + 1;
    }

    method PopUnsafe() returns (v: nat)
      requires Valid() && top > 0
      modifies this`top
      ensures Valid() && top == old(top) - 1 && v == items[top]
      ensures v == Peek(old(Contents()), 0) && Contents() == Drop(old(Contents()), 1)
    {
      top := top - 1;
      v := items[top];
    }

    /** Pop several items, top first. */
    method PopMany(n: nat) returns (words: seq<nat>)
      requires Valid() && n <= top
      modifies this`top
      ensures Valid() && Contents() == Drop(old(Contents()), n)
      ensures |words| == n && forall i | 0 <= i < n :: words[i] == Peek(old(Contents()), i)
    {
      words := [];
      while |words| < n
        invariant Valid() && top == old(top) - |words| && |words| <= n
        invariant forall i | 0 <= i < |words| :: words[i] == items[old(top) - 1 - i]
        decreases n - |words|
      {
        var word := PopUnsafe();
        words := words + [word];
      }
    }

    /** The caller answers for the item and for the room. */
    method DupUnsafe(depth: nat)
      requires Valid() && 0 < depth <= top < items.Length
      modifies this`top, items
      ensures Valid() && Contents() == old(Contents()) + [Peek(old(Contents()), depth - 1)]
    {
      items[top] := items[top - depth];
      top := top + 1;
    }

    /** Take `pops` items off and put others on; the caller answers for the room. */
    method Exchange(pops: nat, pushes: seq<nat>)
      requires Valid() && pops <= top && top - pops + |pushes| <= items.Length
      modifies this`top, items
      ensures Valid() && Contents() == Drop(old(Contents()), pops) + pushes
    {
      top := top - pops;
      ghost var kept := Contents();
      var i := 0;
      while i < |pushes|
        invariant 0 <= i <= |pushes| && top == |kept| + i && Valid()
        invariant Contents() == kept + pushes[..i]
      {
        PushUnsafe(pushes[i]);
        i := i + 1;
      }
      assert pushes[..i] == pushes;
    }
  }
}
