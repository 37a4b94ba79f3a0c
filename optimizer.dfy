/** The jump-table optimiser: for the distinct transformed characters a node
    branches on, the smallest power-of-two table and then the smallest shift
    in 0..5 under which `(T(c) >> shift) & mask` is collision-free. */
module Optimizer {
  import opened Bits
  import opened CaseStrategy
  import opened TrieEntries

  /** The slot a group key gets, as the optimiser and the builder compute it
      (the transform is applied once more to a key that is already
      transformed). */
  function GroupSlot(mode: CaseMode, groupKey: nat, shift: nat, mask: nat): (r: nat)
    ensures r <= mask
  {
    Slot(CaseTransform(mode, groupKey), shift, mask)
  }

  /** No two group keys share a slot. */
  predicate CollisionFree(mode: CaseMode, groupKeys: seq<nat>, shift: nat, mask: nat) {
    forall i, j :: 0 <= i < j < |groupKeys| ==>
      GroupSlot(mode, groupKeys[i], shift, mask) != GroupSlot(mode, groupKeys[j], shift, mask)
  }

  predicate Distinct(s: seq<nat>) {
    forall i, j :: 0 <= i < j < |s| ==> s[i] != s[j]
  }

  /** The smallest shift in from..5 that is collision-free, or 6 if none is. */
  function FirstFreeShift(mode: CaseMode, groupKeys: seq<nat>, mask: nat, from: nat): (r: nat)
    requires from <= 6
    decreases 6 - from
    ensures from <= r <= 6
    ensures r < 6 ==> CollisionFree(mode, groupKeys, r, mask)
    ensures forall t :: from <= t < r ==> !CollisionFree(mode, groupKeys, t, mask)
  {
    if from == 6 then 6
    else if CollisionFree(mode, groupKeys, from, mask) then from
    else FirstFreeShift(mode, groupKeys, mask, from + 1)
  }

  /** The exponent of the smallest power of two, from 2^k on, that is at
      least `count`. */
  function LeastPow2Exp(count: nat, k: nat): (r: nat)
    decreases count - Pow2(k)
    ensures k <= r && count <= Pow2(r)
    ensures forall j :: k <= j < r ==> Pow2(j) < count
  {
    if count <= Pow2(k) then k else LeastPow2Exp(count, k + 1)
  }

  lemma ShiftAtMask(mode: CaseMode, groupKeys: seq<nat>, k: nat, mask: nat)
    requires mask == Pow2(k) - 1
    ensures ShiftAt(mode, groupKeys, k) == FirstFreeShift(mode, groupKeys, mask, 0)
  {
  }

  /** Every shift in 0..5 collides under this mask. */
  predicate AllShiftsCollide(mode: CaseMode, groupKeys: seq<nat>, mask: nat) {
    forall s :: 0 <= s < 6 ==> !CollisionFree(mode, groupKeys, s, mask)
  }

  /** The first collision-free shift for the table of 2^k entries. */
  function ShiftAt(mode: CaseMode, groupKeys: seq<nat>, k: nat): (r: nat)
    ensures r <= 6
  {
    FirstFreeShift(mode, groupKeys, Pow2(k) - 1, 0)
  }

  /** The first exponent, from k on, whose table either admits a collision-free
      shift or exceeds 128 = 2^7 entries. */
  function StopExp(mode: CaseMode, groupKeys: seq<nat>, k: nat): (r: nat)
    decreases 8 - k
    ensures k <= r
    ensures r > 7 || ShiftAt(mode, groupKeys, r) < 6
  {
    if k > 7 || ShiftAt(mode, groupKeys, k) < 6 then k
    else StopExp(mode, groupKeys, k + 1)
  }

  /** Every table size the search passes over is at most 128 entries and
      has no collision-free shift. */
  lemma {:induction false} StopExpBelow(mode: CaseMode, groupKeys: seq<nat>, k: nat, j: nat)
    requires k <= j < StopExp(mode, groupKeys, k)
    ensures j <= 7 && ShiftAt(mode, groupKeys, j) == 6
    decreases j - k
  {
    assert !(k > 7 || ShiftAt(mode, groupKeys, k) < 6);
    if j > k {
      StopExpBelow(mode, groupKeys, k + 1, j);
    }
  }

  lemma StopExpStep(mode: CaseMode, groupKeys: seq<nat>, k: nat)
    ensures k <= 7 && ShiftAt(mode, groupKeys, k) == 6 ==>
      StopExp(mode, groupKeys, k) == StopExp(mode, groupKeys, k + 1)
    ensures k > 7 || ShiftAt(mode, groupKeys, k) < 6 ==> StopExp(mode, groupKeys, k) == k
  {
  }

  lemma Pow2At128(k: nat)
    ensures Pow2(k) <= 128 <==> k <= 7
  {
    assert Pow2(7) == 128;
    if k <= 7 {
      PowMonotone(k, 7);
    } else {
      PowMonotone(8, k);
    }
  }

  datatype Table = Table(rShift: int, mask: int, length: int)

  /** What the optimiser returns, defined by the search it performs: one
      group needs no dispatch; otherwise start at the smallest power of two
      that holds every group and double until some shift in 0..5 is
      collision-free, giving up past 128 entries (the shift is then 6, or 0
      when no table size was ever tried). */
  function Optimal(mode: CaseMode, groupKeys: seq<nat>): (t: Table)
    ensures 0 <= t.rShift <= 6 && 1 <= t.length == t.mask + 1
  {
    if |groupKeys| == 1 then Table(0, 0, 1)
    else
      var k0 := LeastPow2Exp(|groupKeys|, 0);
      var k := StopExp(mode, groupKeys, k0);
      var shift := if k > 7 then (if k == k0 then 0 else 6)
                   else ShiftAt(mode, groupKeys, k);
      Table(shift, Pow2(k) - 1, Pow2(k))
  }

  /** The conflict test of one candidate shift, over a 128-bit table of used
      slots. */
  method HasConflict(mode: CaseMode, groupKeys: seq<nat>, rShift: nat, mask: nat) returns (conflict: bool)
    requires mask < 128
    ensures conflict == !CollisionFree(mode, groupKeys, rShift, mask)
  {
    var used: set<nat> := {};
    var j := 0;
    while j < |groupKeys|
      invariant 0 <= j <= |groupKeys|
      invariant used == set i | 0 <= i < j :: GroupSlot(mode, groupKeys[i], rShift, mask)
      invariant CollisionFree(mode, groupKeys[..j], rShift, mask)
    {
      var index := GroupSlot(mode, groupKeys[j], rShift, mask);
      assert index < 128;
      if index in used {
        return true;
      }
      used := used + {index};
      j := j + 1;
    }
    assert groupKeys[..j] == groupKeys;
    return false;
  }

  /** The inner search of the optimiser: try shifts 0..5 in turn under a
      fixed mask and stop at the first without conflict.  The shift ends at
      6 when every one conflicts. */
  method TryShifts(mode: CaseMode, groupKeys: seq<nat>, mask: nat) returns (rShift: int, hasConflict: bool)
    requires mask < 128
    ensures rShift == FirstFreeShift(mode, groupKeys, mask, 0) && hasConflict == (rShift == 6)
  {
    hasConflict := true;
    rShift := -1;
    while true
      invariant -1 <= rShift <= 5
      invariant hasConflict ==> FirstFreeShift(mode, groupKeys, mask, 0) == FirstFreeShift(mode, groupKeys, mask, rShift + 1)
      invariant !hasConflict ==> 0 <= rShift && FirstFreeShift(mode, groupKeys, mask, 0) == rShift
      decreases 6 - rShift
    {
      if !hasConflict {
        break;
      }
      rShift := rShift + 1;   // ++rShift < 6
      if 6 <= rShift {
        break;
      }
      hasConflict := HasConflict(mode, groupKeys, rShift, mask);
    }
  }

  /** The first phase of the optimiser: double a one-entry table until it
      holds `count` groups. */
  method InitialTable(count: nat) returns (mask: int, length: int, ghost k: nat)
    ensures length == Pow2(k) && mask == length - 1 && k == LeastPow2Exp(count, 0)
  {
    mask, length := 0, 1;
    k := 0;
    while length < count
      invariant length == Pow2(k) && mask == length - 1
      invariant LeastPow2Exp(count, 0) == LeastPow2Exp(count, k)
      decreases count - length
    {
      mask := mask * 2 + 1;   // mask << 1 | 1
      length := length * 2;
      k := k + 1;
    }
  }

  /** The optimiser: grow the table to the first power of two that holds
      every group, then double it until some shift is collision-free or the
      table exceeds 128 entries. */
  method OptimizeContinuationTable(mode: CaseMode, groupKeys: seq<nat>) returns (rShift: int, mask: int, length: int)
    ensures Table(rShift, mask, length) == Optimal(mode, groupKeys)
  {
    if |groupKeys| == 1 {
      return 0, 0, 1;
    }
    rShift := 0;
    ghost var k;
    mask, length, k := InitialTable(|groupKeys|);
    ghost var k0 := k;
    Pow2At128(k);
    var hasConflict := true;
    while hasConflict && length <= 128
      invariant k0 <= k && length == Pow2(k) && mask == length - 1
      invariant k0 == LeastPow2Exp(|groupKeys|, 0)
      invariant hasConflict ==> StopExp(mode, groupKeys, k0) == StopExp(mode, groupKeys, k)
      invariant hasConflict ==> rShift == if k == k0 then 0 else 6
      invariant hasConflict && length > 128 ==> k > 7
      invariant !hasConflict ==>
        (k <= 7 && StopExp(mode, groupKeys, k0) == k && rShift == ShiftAt(mode, groupKeys, k))
      decreases (if hasConflict then 1 else 0), 256 - length
    {
      Pow2At128(k);
      rShift, hasConflict := TryShifts(mode, groupKeys, mask);
      ShiftAtMask(mode, groupKeys, k, mask);
      StopExpStep(mode, groupKeys, k);
      if hasConflict {
        // We need more space
        mask := mask * 2 + 1;
        length := length * 2;
        k := k + 1;
        Pow2At128(k);
      }
    }
  }

  /** The table has mask + 1 entries, a power of two that holds every group. */
  lemma OptimalShape(mode: CaseMode, groupKeys: seq<nat>)
    ensures var t := Optimal(mode, groupKeys);
      t.length == t.mask + 1 && (exists k :: t.length == Pow2(k)) && |groupKeys| <= t.length
  {
    var t := Optimal(mode, groupKeys);
    if |groupKeys| == 1 {
      assert t.length == Pow2(0);
    } else {
      var k0 := LeastPow2Exp(|groupKeys|, 0);
      var k := StopExp(mode, groupKeys, k0);
      PowMonotone(k0, k);
      assert t.length == Pow2(k);
    }
  }

  /** A single group gets the trivial one-slot table (0, 0, 1). */
  lemma OptimalSingleGroup(mode: CaseMode, c: nat)
    ensures Optimal(mode, [c]) == Table(0, 0, 1)
  {
  }

  /** The result is minimal: every smaller table holding every group
      collides under every shift, and every smaller shift collides at the
      chosen size; when the table is at most 128 entries, its shift is in
      0..5 and collision-free. */
  lemma OptimalMinimal(mode: CaseMode, groupKeys: seq<nat>)
    requires |groupKeys| >= 2
    ensures var t := Optimal(mode, groupKeys);
      (forall j: nat :: |groupKeys| <= Pow2(j) < t.length ==>
         AllShiftsCollide(mode, groupKeys, Pow2(j) - 1)) &&
      (t.length <= 128 ==>
         (0 <= t.rShift < 6 && CollisionFree(mode, groupKeys, t.rShift, t.mask) &&
          forall s: nat :: s < t.rShift ==> !CollisionFree(mode, groupKeys, s, t.mask)))
  {
    var t := Optimal(mode, groupKeys);
    var k0 := LeastPow2Exp(|groupKeys|, 0);
    var k := StopExp(mode, groupKeys, k0);
    Pow2At128(k);
    forall j: nat | |groupKeys| <= Pow2(j) < t.length
      ensures AllShiftsCollide(mode, groupKeys, Pow2(j) - 1)
    {
      if k <= j {
        PowMonotone(k, j);
        assert false;
      }
      StopExpBelow(mode, groupKeys, k0, j);
    }
  }

  /** A duplicate-free collection of values below b has at most b elements. */
  lemma {:induction false} SetBounded(s: set<nat>, b: nat)
    requires forall x :: x in s ==> x < b
    ensures |s| <= b
  {
    if b > 0 {
      SetBounded(s - {b - 1}, b - 1);
    } else {
      assert s == {};
    }
  }

  function Elements(s: seq<nat>): set<nat> {
    set x | x in s
  }

  lemma {:induction false} DistinctCard(s: seq<nat>)
    requires Distinct(s)
    ensures |Elements(s)| == |s|
  {
    if s != [] {
      var p := s[..|s| - 1];
      var last := s[|s| - 1];
      assert s == p + [last];
      assert Distinct(p);
      DistinctCard(p);
      assert last !in Elements(p) by {
        forall i | 0 <= i < |p| ensures p[i] != last { }
      }
      assert Elements(s) == Elements(p) + {last};
    }
  }

  /** With distinct transformed codes below 128 the optimiser always
      succeeds: a collision-free shift in 0..5 at a table of at most 128. */
  lemma OptimalSevenBit(mode: CaseMode, groupKeys: seq<nat>)
    requires |groupKeys| >= 1 && Distinct(groupKeys)
    requires forall i :: 0 <= i < |groupKeys| ==> groupKeys[i] < 128
    requires forall i :: 0 <= i < |groupKeys| ==> CaseTransform(mode, groupKeys[i]) == groupKeys[i]
    ensures var t := Optimal(mode, groupKeys);
      0 <= t.rShift <= 5 && 1 <= t.length <= 128 && t.mask == t.length - 1 &&
      CollisionFree(mode, groupKeys, t.rShift, t.mask)
  {
    if |groupKeys| >= 2 {
      DistinctCard(groupKeys);
      SetBounded(Elements(groupKeys), 128);
      assert Pow2(7) == 128;
      var k0 := LeastPow2Exp(|groupKeys|, 0);
      if k0 > 7 {
        assert false;
      }
      // At the full 128-entry table shift 0 keeps every code.
      forall i | 0 <= i < |groupKeys|
        ensures GroupSlot(mode, groupKeys[i], 0, Pow2(7) - 1) == groupKeys[i]
      {
        AndLowMask(groupKeys[i], 7);
      }
      assert CollisionFree(mode, groupKeys, 0, Pow2(7) - 1);
      var k := StopExp(mode, groupKeys, k0);
      if k > 7 {
        StopExpBelow(mode, groupKeys, k0, 7);
        assert false;
      }
      Pow2At128(k);
      OptimalMinimal(mode, groupKeys);
    }
  }
}
