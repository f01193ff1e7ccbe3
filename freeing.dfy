/** Releasing a finished process's memory (`freeMemory`). */
module Freeing {
  import opened Cells

  /** m with every cell owned by id set free. */
  function Release(m: seq<Cell>, id: nat): (r: seq<Cell>)
    ensures |r| == |m|
    ensures Owned(id) !in r
    ensures forall k :: 0 <= k < |m| && m[k] != Owned(id) ==> r[k] == m[k]
    ensures forall k :: 0 <= k < |m| && m[k] == Owned(id) ==> r[k] == Free
  {
    seq(|m|, k requires 0 <= k < |m| => if m[k] == Owned(id) then Free else m[k])
  }

  /**
   * Releasing id frees exactly the cells it owned: its count drops to zero,
   * the free count grows by as much, and every other count is unchanged.
   */
  lemma {:induction false} ReleaseCounts(m: seq<Cell>, id: nat, c: Cell)
    ensures Count(Release(m, id), c) ==
      if c == Owned(id) then 0
      else if c == Free then Count(m, Free) + Count(m, Owned(id))
      else Count(m, c)
  {
    if m != [] {
      var front := m[..|m| - 1];
      ReleaseCounts(front, id, c);
      assert Release(m, id)[..|m| - 1] == Release(front, id);
    }
  }

  /** Release lowers the occupancy by exactly the released process's cells. */
  lemma {:induction false} ReleaseOccupied(m: seq<Cell>, id: nat)
    ensures Occupied(Release(m, id)) == Occupied(m) - Count(m, Owned(id))
  {
    ReleaseCounts(m, id, Free);
  }

  /** Release only removes an owner. */
  lemma {:induction false} ReleaseOwners(m: seq<Cell>, id: nat, owners: set<nat>)
    requires OwnedOnlyBy(m, owners)
    ensures OwnedOnlyBy(Release(m, id), owners - {id})
  {
  }

  /** `freeMemory(processId, memory)`: nulls every cell that holds processId. */
  method FreeMemory(processId: nat, memory: array<Cell>)
    modifies memory
    ensures memory[..] == Release(old(memory[..]), processId)
  {
    for i := 0 to memory.Length
      invariant forall k :: 0 <= k < i ==> memory[k] == if old(memory[k]) == Owned(processId) then Free else old(memory[k])
      invariant forall k :: i <= k < memory.Length ==> memory[k] == old(memory[k])
    {
      if memory[i] == Owned(processId) {
        memory[i] := Free;
      }
    }
  }
}
