/** The stores of an update: through the slots of the walk, from the PTE up or from the PGD down. */
module Stores {
  import opened Paging
  import opened Walk

  /** The user-space order: the level nearest the root is stored last. */
  function StoreUp(m: Memory, t: seq<Step>, vm: Entry, sel: set<Level>): Memory {
    if t == [] then m else
      var below := StoreUp(m, t[1..], vm, sel);
      if t[0].level in sel then Put(below, t[0].slot, vm.At(t[0].level)) else below
  }

  /** The kernel order: the level nearest the root is stored first. */
  function StoreDown(m: Memory, t: seq<Step>, vm: Entry, sel: set<Level>): Memory {
    if t == [] then m else
      StoreDown(if t[0].level in sel then Put(m, t[0].slot, vm.At(t[0].level)) else m, t[1..], vm, sel)
  }

  /** Step `k` is selected and its slot is `x`. */
  predicate Writes(t: seq<Step>, sel: set<Level>, x: nat, k: nat) {
    k < |t| && t[k].level in sel && t[k].slot == x
  }

  ghost predicate First(t: seq<Step>, sel: set<Level>, x: nat, k: nat) {
    Writes(t, sel, x, k) && forall i: nat :: i < k ==> !Writes(t, sel, x, i)
  }

  ghost predicate Last(t: seq<Step>, sel: set<Level>, x: nat, k: nat) {
    Writes(t, sel, x, k) && forall i: nat :: k < i ==> !Writes(t, sel, x, i)
  }

  ghost predicate Untouched(t: seq<Step>, sel: set<Level>, x: nat) {
    forall k: nat :: !Writes(t, sel, x, k)
  }

  lemma {:induction false} WritesTail(t: seq<Step>, sel: set<Level>, x: nat)
    requires t != []
    ensures forall k: nat :: Writes(t[1..], sel, x, k) <==> Writes(t, sel, x, k + 1)
  {
  }

  /** Every word after bottom-up stores: where slots coincide, the level nearest the root wins. */
  lemma {:induction false} StoreUpAt(m: Memory, t: seq<Step>, vm: Entry, sel: set<Level>, x: nat)
    ensures Untouched(t, sel, x) ==> StoreUp(m, t, vm, sel)[x] == m[x]
    ensures forall k: nat :: First(t, sel, x, k) ==> StoreUp(m, t, vm, sel)[x] == vm.At(t[k].level)
  {
    if t != [] {
      var u := t[1..];
      StoreUpAt(m, u, vm, sel, x);
      WritesTail(t, sel, x);
      if Untouched(t, sel, x) {
        assert !Writes(t, sel, x, 0);
        forall k: nat ensures !Writes(u, sel, x, k) {
          assert !Writes(t, sel, x, k + 1);
        }
      }
      forall k: nat | First(t, sel, x, k) ensures StoreUp(m, t, vm, sel)[x] == vm.At(t[k].level) {
        if k > 0 {
          assert !Writes(t, sel, x, 0);
          forall i: nat | i < k - 1 ensures !Writes(u, sel, x, i) {
            assert !Writes(t, sel, x, i + 1);
          }
          assert First(u, sel, x, k - 1);
        }
      }
    }
  }

  /** Every word after top-down stores: where slots coincide, the level nearest the page wins. */
  lemma {:induction false} StoreDownAt(m: Memory, t: seq<Step>, vm: Entry, sel: set<Level>, x: nat)
    ensures Untouched(t, sel, x) ==> StoreDown(m, t, vm, sel)[x] == m[x]
    ensures forall k: nat :: Last(t, sel, x, k) ==> StoreDown(m, t, vm, sel)[x] == vm.At(t[k].level)
    decreases |t|
  {
    if t != [] {
      var u := t[1..];
      var m' := if t[0].level in sel then Put(m, t[0].slot, vm.At(t[0].level)) else m;
      StoreDownAt(m', u, vm, sel, x);
      WritesTail(t, sel, x);
      if Untouched(t, sel, x) {
        assert !Writes(t, sel, x, 0);
        forall k: nat ensures !Writes(u, sel, x, k) {
          assert !Writes(t, sel, x, k + 1);
        }
      }
      forall k: nat | Last(t, sel, x, k) ensures StoreDown(m, t, vm, sel)[x] == vm.At(t[k].level) {
        forall i: nat | k <= i ensures !Writes(u, sel, x, i) {
          assert !Writes(t, sel, x, i + 1);
        }
        if k > 0 {
          assert Last(u, sel, x, k - 1);
        } else {
          assert Untouched(u, sel, x);
        }
      }
    }
  }

  ghost predicate DistinctSlots(t: seq<Step>) {
    forall i, j :: 0 <= i < j < |t| ==> t[i].slot != t[j].slot
  }

  lemma {:induction false} DistinctWriters(t: seq<Step>, sel: set<Level>, k: nat)
    requires DistinctSlots(t) && k < |t| && t[k].level in sel
    ensures First(t, sel, t[k].slot, k) && Last(t, sel, t[k].slot, k)
  {
  }

  /** Each selected level of a walk with distinct slots receives its value, and no other word changes. */
  lemma {:induction false} UpdateLands(m: Memory, t: seq<Step>, vm: Entry, sel: set<Level>)
    requires DistinctSlots(t)
    ensures forall k :: 0 <= k < |t| && t[k].level in sel ==> StoreUp(m, t, vm, sel)[t[k].slot] == vm.At(t[k].level)
    ensures forall x: nat :: (forall k :: 0 <= k < |t| && t[k].level in sel ==> t[k].slot != x) ==>
        StoreUp(m, t, vm, sel)[x] == m[x]
  {
    forall k | 0 <= k < |t| && t[k].level in sel
      ensures StoreUp(m, t, vm, sel)[t[k].slot] == vm.At(t[k].level)
    {
      DistinctWriters(t, sel, k);
      StoreUpAt(m, t, vm, sel, t[k].slot);
    }
    forall x: nat | forall k :: 0 <= k < |t| && t[k].level in sel ==> t[k].slot != x
      ensures StoreUp(m, t, vm, sel)[x] == m[x]
    {
      assert Untouched(t, sel, x);
      StoreUpAt(m, t, vm, sel, x);
    }
  }

  lemma {:induction false} FirstAndLastExist(t: seq<Step>, sel: set<Level>, x: nat)
    requires !Untouched(t, sel, x)
    ensures exists k: nat :: First(t, sel, x, k)
    ensures exists k: nat :: Last(t, sel, x, k)
  {
    var k: nat :| Writes(t, sel, x, k);
    FirstUpTo(t, sel, x, k);
    LastFrom(t, sel, x, k);
  }

  lemma {:induction false} FirstUpTo(t: seq<Step>, sel: set<Level>, x: nat, k: nat)
    requires Writes(t, sel, x, k)
    ensures exists i: nat :: First(t, sel, x, i)
  {
    if i: nat :| i < k && Writes(t, sel, x, i) {
      FirstUpTo(t, sel, x, i);
    } else {
      assert First(t, sel, x, k);
    }
  }

  lemma {:induction false} LastFrom(t: seq<Step>, sel: set<Level>, x: nat, k: nat)
    requires Writes(t, sel, x, k)
    ensures exists i: nat :: Last(t, sel, x, i)
    decreases |t| - k
  {
    if i: nat :| k < i && Writes(t, sel, x, i) {
      LastFrom(t, sel, x, i);
    } else {
      assert Last(t, sel, x, k);
    }
  }

  /** No word is written twice with different values at its two ends. */
  ghost predicate OrderBlind(t: seq<Step>, vm: Entry, sel: set<Level>) {
    forall x: nat, i: nat, j: nat :: First(t, sel, x, i) && Last(t, sel, x, j) ==>
        vm.At(t[i].level) == vm.At(t[j].level)
  }

  /** The two store orders end in the same memory exactly when no coinciding slots carry different end values. */
  lemma {:induction false} OrdersAgree(m: Memory, t: seq<Step>, vm: Entry, sel: set<Level>)
    ensures StoreUp(m, t, vm, sel) == StoreDown(m, t, vm, sel) <==> OrderBlind(t, vm, sel)
  {
    var up, down := StoreUp(m, t, vm, sel), StoreDown(m, t, vm, sel);
    forall x: nat, i: nat, j: nat | First(t, sel, x, i) && Last(t, sel, x, j)
      ensures up[x] == vm.At(t[i].level) && down[x] == vm.At(t[j].level)
    {
      StoreUpAt(m, t, vm, sel, x);
      StoreDownAt(m, t, vm, sel, x);
    }
    if OrderBlind(t, vm, sel) {
      forall x: nat ensures up[x] == down[x] {
        StoreUpAt(m, t, vm, sel, x);
        StoreDownAt(m, t, vm, sel, x);
        if !Untouched(t, sel, x) {
          FirstAndLastExist(t, sel, x);
        }
      }
      assert up == down;
    }
  }

  lemma {:induction false} DistinctSlotsAreOrderBlind(t: seq<Step>, vm: Entry, sel: set<Level>)
    requires DistinctSlots(t)
    ensures OrderBlind(t, vm, sel)
  {
    forall x: nat, i: nat, j: nat | First(t, sel, x, i) && Last(t, sel, x, j)
      ensures i == j
    {
      assert t[i].slot == t[j].slot;
    }
  }

  /** Storing at every slot the word already there changes nothing, whichever slots coincide. */
  lemma {:induction false} StoringBackIsIdentity(m: Memory, t: seq<Step>, vm: Entry, sel: set<Level>)
    requires forall k :: 0 <= k < |t| && t[k].level in sel ==> vm.At(t[k].level) == m[t[k].slot]
    ensures StoreUp(m, t, vm, sel) == m && StoreDown(m, t, vm, sel) == m
    decreases |t|
  {
    if t != [] {
      forall k | 0 <= k < |t[1..]| && t[1..][k].level in sel ensures vm.At(t[1..][k].level) == m[t[1..][k].slot] {
        assert t[1..][k] == t[k + 1];
      }
      StoringBackIsIdentity(m, t[1..], vm, sel);
      if t[0].level in sel {
        assert Put(m, t[0].slot, vm.At(t[0].level)) == m;
      }
    }
  }
}
