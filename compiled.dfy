/** The compiled engine: the node array is turned once into straight-line
    code that reads the query's characters and lengths and returns a key
    index; TryGetValue runs the same length reject, that code, and an
    ordinal comparison against the one candidate.  The emitted code is
    modelled as a decision tree (`Code`) with an evaluator, in place of the
    instructions. */
module Compiled {
  import opened Bits
  import opened CaseStrategy
  import opened TrieEntries
  import opened TrieShape
  import opened LengthStats
  import opened Wrappers
  import opened Analyzer
  import opened Interpreted

  /** `1 + ((127 >> shift) & mask)`: the slots a character below 128 can
      select. */
  function NumJumps(e: TrieEntry): (r: nat)
    requires e.continuationIndexRShift >= 0 && e.continuationIndexMask >= 0
    ensures 1 <= r <= e.continuationIndexMask + 1
  {
    1 + Slot(127, e.continuationIndexRShift, e.continuationIndexMask)
  }

  /** Every slot a code below 128 selects is below NumJumps. */
  lemma AsciiSlotInRange(code: nat, shift: nat, mask: nat)
    requires code < 128 && shift <= 7 && AllOnes(mask)
    ensures Slot(code, shift, mask) <= Slot(127, shift, mask)
  {
    var k: nat :| k <= 7 && mask == Pow2(k) - 1;
    var j: nat := 7 - shift;
    var low := Shr(code, shift);
    assert low <= Pow2(j) - 1 by {
      ShrAsciiMax(shift);
      ShrMonotone(code, 127, shift);
    }
    calc {
      Slot(code, shift, mask);
      BitAnd(low, Pow2(k) - 1);
    <= { AndAllOnesMonotone(low, j, k); }
      BitAnd(Pow2(j) - 1, Pow2(k) - 1);
      { ShrAsciiMax(shift); }
      Slot(127, shift, mask);
    }
  }

  /** `127 >> shift` is all ones. */
  lemma ShrAsciiMax(shift: nat)
    requires shift <= 7
    ensures Shr(127, shift) == Pow2(7 - shift) - 1
  {
    assert Pow2(7) == 128;
    ShrAllOnes(7, shift);
  }

  /** The length of the key that ends at e, int.MaxValue when none does. */
  function OwnLength(keys: seq<string>, e: TrieEntry): int
    requires -1 <= e.resultIndex < |keys|
  {
    if e.resultIndex >= 0 then |keys[e.resultIndex]| else IntMaxValue
  }

  /** What LoadAuxInfo computes for node n: its own key length, lowered by
      the value of every slot 0..NumJumps-1 of its block. */
  function MinDesc(keys: seq<string>, trie: seq<TrieEntry>, n: nat): (r: int)
    requires StructWF(trie, |keys|) && n < |trie|
    ensures 0 <= r <= OwnLength(keys, trie[n])
    decreases |trie| - n, 1
  {
    var e := trie[n];
    if e.continuationIndex >= 0 then MinOver(keys, trie, n, 0, OwnLength(keys, e)) else OwnLength(keys, e)
  }

  /** acc lowered by the values of slots i.. of node n's block. */
  function MinOver(keys: seq<string>, trie: seq<TrieEntry>, n: nat, i: nat, acc: int): (r: int)
    requires StructWF(trie, |keys|) && n < |trie| && trie[n].continuationIndex >= 0
    requires i <= NumJumps(trie[n])
    ensures r <= acc && (acc >= 0 ==> r >= 0)
    decreases |trie| - n, 0, NumJumps(trie[n]) - i
  {
    var e := trie[n];
    if i == NumJumps(e) then acc
    else
      var child := MinDesc(keys, trie, e.continuationIndex + i);
      MinOver(keys, trie, n, i + 1, if acc > child then child else acc)
  }

  /** MinOver is at most acc and at most every remaining slot's value, and
      unless it is acc it is the value of slot m. */
  lemma {:induction false} MinOverBounds(keys: seq<string>, trie: seq<TrieEntry>, n: nat, i: nat, acc: int)
    returns (m: int)
    requires StructWF(trie, |keys|) && n < |trie| && trie[n].continuationIndex >= 0
    requires i <= NumJumps(trie[n])
    ensures var v := MinOver(keys, trie, n, i, acc);
      var cont := trie[n].continuationIndex;
      v <= acc &&
      (forall k :: cont + i <= k < cont + NumJumps(trie[n]) ==> v <= MinDesc(keys, trie, k)) &&
      (v == acc || (cont + i <= m < cont + NumJumps(trie[n]) && v == MinDesc(keys, trie, m)))
    decreases NumJumps(trie[n]) - i
  {
    var e := trie[n];
    var cont := e.continuationIndex;
    m := cont + i;
    if i < NumJumps(e) {
      var child := MinDesc(keys, trie, cont + i);
      var acc' := if acc > child then child else acc;
      var v := MinOver(keys, trie, n, i, acc);
      assert v == MinOver(keys, trie, n, i + 1, acc');
      var m' := MinOverBounds(keys, trie, n, i + 1, acc');
      if v != acc' {
        m := m';
      }
    }
  }

  /** The node's value is at most the length of every key it stands for. */
  lemma {:induction false} MinDescBelow(mode: CaseMode, keys: seq<string>, trie: seq<TrieEntry>, n: nat,
                                        S: set<nat>, ci: nat, isRoot: bool, j: nat)
    requires forall k :: 0 <= k < |keys| ==> IsAscii(keys[k])
    requires StructWF(trie, |keys|) && n < |trie| && NodeWF(mode, keys, trie, trie[n], S, ci, isRoot)
    requires j in S
    ensures MinDesc(keys, trie, n) <= |keys[j]|
    decreases |trie| - n
  {
    var e := trie[n];
    if HasChildren(e) {
      var _ := MinOverBounds(keys, trie, n, 0, OwnLength(keys, e));
      if j != e.resultIndex {
        var m, G := KeySlot(mode, keys, trie, n, S, ci, isRoot, j);
        MinDescBelow(mode, keys, trie, m, G, ci + e.skipLength, false, j);
      }
    }
  }

  /** A key j of an internal node that does not end there lies below a slot
      under NumJumps, in that slot's group. */
  lemma KeySlot(mode: CaseMode, keys: seq<string>, trie: seq<TrieEntry>, n: nat,
                S: set<nat>, ci: nat, isRoot: bool, j: nat) returns (m: nat, G: set<nat>)
    requires forall k :: 0 <= k < |keys| ==> IsAscii(keys[k])
    requires StructWF(trie, |keys|) && n < |trie| && HasChildren(trie[n])
    requires NodeWF(mode, keys, trie, trie[n], S, ci, isRoot)
    requires j in S && j != trie[n].resultIndex
    ensures var e := trie[n];
      var d := ci + e.skipLength;
      d < |keys[j]| &&
      m == e.continuationIndex + DispatchSlot(mode, keys[j][d], e.continuationIndexRShift, e.continuationIndexMask) &&
      e.continuationIndex <= m < e.continuationIndex + NumJumps(e) &&
      j in G && G <= S && NodeWF(mode, keys, trie, trie[m], G, d, false)
  {
    var e := trie[n];
    var d := ci + e.skipLength;
    assert j in Without(S, e.resultIndex);
    m, G := StepDown(mode, keys, trie, n, S, ci, isRoot, j, keys[j]);
    TransformAscii(mode, keys[j][d] as nat);
    AsciiSlotInRange(TChar(mode, keys[j][d]), e.continuationIndexRShift, e.continuationIndexMask);
  }

  /** Slot t of a well-formed internal node is blank, or a well-formed node
      for some of its keys. */
  lemma SlotOf(mode: CaseMode, keys: seq<string>, trie: seq<TrieEntry>, n: nat,
               S: set<nat>, ci: nat, isRoot: bool, t: nat) returns (G: set<nat>)
    requires StructWF(trie, |keys|) && n < |trie| && HasChildren(trie[n])
    requires NodeWF(mode, keys, trie, trie[n], S, ci, isRoot)
    requires t <= trie[n].continuationIndexMask
    ensures var e := trie[n];
      var c := trie[e.continuationIndex + t];
      G <= S && (G == {} ==> c == Blank) &&
      (G != {} ==> NodeWF(mode, keys, trie, c, G, ci + e.skipLength, false))
  {
    var e := trie[n];
    var d := ci + e.skipLength;
    var cont, shift, mask := e.continuationIndex, e.continuationIndexRShift, e.continuationIndexMask;
    var rest := Without(S, e.resultIndex);
    assert SlotWF(mode, keys, trie, cont, shift, mask, rest, d, t);
    G := SlotGroup(mode, keys, rest, d, shift, mask, t);
  }

  /** ... and it is the length of one of them. */
  lemma {:induction false} MinDescAttained(mode: CaseMode, keys: seq<string>, trie: seq<TrieEntry>, n: nat,
                                           S: set<nat>, ci: nat, isRoot: bool)
    requires forall k :: 0 <= k < |keys| ==> IsAscii(keys[k]) && |keys[k]| < IntMaxValue
    requires StructWF(trie, |keys|) && n < |trie| && NodeWF(mode, keys, trie, trie[n], S, ci, isRoot)
    ensures exists j :: j in S && MinDesc(keys, trie, n) == |keys[j]|
    decreases |trie| - n
  {
    var e := trie[n];
    if !HasChildren(e) {
      assert e.resultIndex as nat in S;
    } else {
      var d := ci + e.skipLength;
      var cont, shift, mask := e.continuationIndex, e.continuationIndexRShift, e.continuationIndexMask;
      var rest := Without(S, e.resultIndex);
      var v := MinDesc(keys, trie, n);
      var m := MinOverBounds(keys, trie, n, 0, OwnLength(keys, e));
      var j0 :| j0 in rest;
      MinDescBelow(mode, keys, trie, n, S, ci, isRoot, j0);
      if v == OwnLength(keys, e) {
        assert e.resultIndex as nat in S;
      } else {
        var G := SlotOf(mode, keys, trie, n, S, ci, isRoot, m - cont);
        if G == {} {
          assert false;
        }
        MinDescAttained(mode, keys, trie, m, G, d, false);
      }
    }
  }

  /** The facts about an internal node's value the generated code relies on:
      it lies between the divergence index and every key length below. */
  lemma InternalMin(mode: CaseMode, keys: seq<string>, trie: seq<TrieEntry>, n: nat,
                    S: set<nat>, ci: nat, isRoot: bool)
    requires forall k :: 0 <= k < |keys| ==> IsAscii(keys[k]) && |keys[k]| < IntMaxValue
    requires StructWF(trie, |keys|) && n < |trie| && NodeWF(mode, keys, trie, trie[n], S, ci, isRoot)
    requires HasChildren(trie[n])
    ensures ci + trie[n].skipLength <= MinDesc(keys, trie, n)
    ensures forall j :: j in S ==> MinDesc(keys, trie, n) <= |keys[j]|
  {
    MinDescAttained(mode, keys, trie, n, S, ci, isRoot);
    forall j | j in S ensures MinDesc(keys, trie, n) <= |keys[j]| {
      MinDescBelow(mode, keys, trie, n, S, ci, isRoot, j);
    }
  }

  /** The table GetAuxInfo returns agrees with MinDesc at node n and at every
      node LoadAuxInfo visits below it. */
  ghost predicate AuxAgrees(keys: seq<string>, trie: seq<TrieEntry>, aux: seq<int>, n: nat)
    requires StructWF(trie, |keys|) && n < |trie| && |aux| == |trie|
    decreases |trie| - n
  {
    aux[n] == MinDesc(keys, trie, n) &&
    (trie[n].continuationIndex >= 0 ==>
      forall m :: trie[n].continuationIndex <= m < trie[n].continuationIndex + NumJumps(trie[n]) ==>
        AuxAgrees(keys, trie, aux, m))
  }

  /** b differs from a only by entries set to their MinDesc value. */
  ghost predicate OnlyCorrectWrites(keys: seq<string>, trie: seq<TrieEntry>, a: seq<int>, b: seq<int>)
    requires StructWF(trie, |keys|)
  {
    |a| == |trie| && |b| == |trie| &&
    forall k :: 0 <= k < |trie| ==> b[k] == a[k] || b[k] == MinDesc(keys, trie, k)
  }

  /** Such writes keep every agreement. */
  lemma {:induction false} AuxAgreesKept(keys: seq<string>, trie: seq<TrieEntry>, a: seq<int>, b: seq<int>, n: nat)
    requires StructWF(trie, |keys|) && n < |trie|
    requires OnlyCorrectWrites(keys, trie, a, b) && AuxAgrees(keys, trie, a, n)
    ensures AuxAgrees(keys, trie, b, n)
    decreases |trie| - n
  {
    var e := trie[n];
    if e.continuationIndex >= 0 {
      forall m | e.continuationIndex <= m < e.continuationIndex + NumJumps(e)
        ensures AuxAgrees(keys, trie, b, m)
      {
        AuxAgreesKept(keys, trie, a, b, m);
      }
    }
  }

  /** The local recursive function of GetAuxInfo: stores MinDesc at index and
      at every node it visits below, and returns it. */
  method LoadAuxInfo(keys: seq<string>, trie: seq<TrieEntry>, results: array<int>, index: nat) returns (m: int)
    requires StructWF(trie, |keys|) && index < |trie| && results.Length == |trie|
    modifies results
    ensures m == MinDesc(keys, trie, index) && AuxAgrees(keys, trie, results[..], index)
    ensures OnlyCorrectWrites(keys, trie, old(results[..]), results[..])
    decreases |trie| - index
  {
    var entry := trie[index];
    var minDescendentLength := if entry.resultIndex >= 0 then |keys[entry.resultIndex]| else IntMaxValue;
    if entry.continuationIndex >= 0 {
      var numJumps := 1 + BitAnd(Shr(127, entry.continuationIndexRShift), entry.continuationIndexMask);
      var i := 0;
      while i < numJumps
        invariant 0 <= i <= numJumps == NumJumps(entry)
        invariant MinOver(keys, trie, index, i, minDescendentLength) == MinDesc(keys, trie, index)
        invariant forall c :: entry.continuationIndex <= c < entry.continuationIndex + i ==>
          AuxAgrees(keys, trie, results[..], c)
        invariant OnlyCorrectWrites(keys, trie, old(results[..]), results[..])
      {
        var continuationIndex := entry.continuationIndex + i;
        ghost var before := results[..];
        var child := LoadAuxInfo(keys, trie, results, continuationIndex);
        forall c | entry.continuationIndex <= c < continuationIndex
          ensures AuxAgrees(keys, trie, results[..], c)
        {
          AuxAgreesKept(keys, trie, before, results[..], c);
        }
        if minDescendentLength > child {
          minDescendentLength := child;
        }
        i := i + 1;
      }
    }
    ghost var before := results[..];
    results[index] := minDescendentLength;
    assert OnlyCorrectWrites(keys, trie, before, results[..]);
    if entry.continuationIndex >= 0 {
      forall c | entry.continuationIndex <= c < entry.continuationIndex + NumJumps(entry)
        ensures AuxAgrees(keys, trie, results[..], c)
      {
        AuxAgreesKept(keys, trie, before, results[..], c);
      }
    }
    m := minDescendentLength;
  }

  /** The minimum-descendant-length table, agreeing with MinDesc at every
      node the generator visits. */
  method GetAuxInfo(keys: seq<string>, trie: seq<TrieEntry>) returns (aux: seq<int>)
    requires StructWF(trie, |keys|)
    ensures |aux| == |trie| && AuxAgrees(keys, trie, aux, 0)
  {
    var results := new int[|trie|](_ => 0);
    var _ := LoadAuxInfo(keys, trie, results, 0);
    aux := results[..];
  }

  /** The generated code, as a decision tree. Every construct returns. */
  datatype Code =
    | Return(index: int)
      // if (key.Length < minLength) return -1; body
    | GuardMinLength(minLength: int, body: Code)
      // if (key.Length == length) return index; body
    | ReturnIfLength(length: int, index: int, body: Code)
      // jump = (key[readIndex] >> shift) & mask; the first branch whose slot
      // is jump runs; none does: return -1
    | Dispatch(readIndex: int, shift: nat, mask: nat, branches: seq<Branch>)

  datatype Branch = Branch(slot: nat, body: Code)

  /** What the code can do: return an index, or read past the query's end
      (an exception in the emitted code). */
  datatype Outcome = Returned(index: int) | ReadPastEnd

  /** The first branch for the dispatch value, |bs| when none is. */
  function FirstMatch(bs: seq<Branch>, jump: nat): (k: nat)
    ensures k <= |bs|
    ensures k < |bs| ==> bs[k].slot == jump
    ensures forall j :: 0 <= j < k ==> bs[j].slot != jump
  {
    if bs == [] then 0 else if bs[0].slot == jump then 0 else 1 + FirstMatch(bs[1..], jump)
  }

  /** i is returned by some `Return` or length test of the code. */
  ghost predicate Mentions(code: Code, i: int)
    decreases code
  {
    match code
    case Return(index) => index == i
    case GuardMinLength(_, body) => Mentions(body, i)
    case ReturnIfLength(_, index, body) => index == i || Mentions(body, i)
    case Dispatch(_, _, _, branches) => exists k :: 0 <= k < |branches| && Mentions(branches[k].body, i)
  }

  /** Running the code on the query q: it returns -1 (a guard, or no branch
      for the dispatch value) or an index written into the code, or it reads
      past the end of q. */
  function Eval(code: Code, q: string): (r: Outcome)
    ensures r.Returned? && r.index != -1 ==> Mentions(code, r.index)
    decreases code
  {
    match code
    case Return(index) => Returned(index)
    case GuardMinLength(minLength, body) => if |q| < minLength then Returned(-1) else Eval(body, q)
    case ReturnIfLength(length, index, body) => if |q| == length then Returned(index) else Eval(body, q)
    case Dispatch(readIndex, shift, mask, branches) =>
      if readIndex < 0 || readIndex >= |q| then ReadPastEnd
      else
        var k := FirstMatch(branches, Slot(q[readIndex] as nat, shift, mask));
        if k == |branches| then Returned(-1) else Eval(branches[k].body, q)
  }

  /** Every index the code can return is -1 or a key index. */
  ghost predicate ReturnsBelow(code: Code, keyCount: nat)
    decreases code
  {
    match code
    case Return(index) => -1 <= index < keyCount
    case GuardMinLength(_, body) => ReturnsBelow(body, keyCount)
    case ReturnIfLength(_, index, body) => -1 <= index < keyCount && ReturnsBelow(body, keyCount)
    case Dispatch(_, _, _, branches) => forall k :: 0 <= k < |branches| ==> ReturnsBelow(branches[k].body, keyCount)
  }

  lemma {:induction false} EvalBelow(code: Code, q: string, keyCount: nat)
    requires ReturnsBelow(code, keyCount)
    ensures Eval(code, q).Returned? ==> -1 <= Eval(code, q).index < keyCount
    decreases code
  {
    match code
    case Return(_) =>
    case GuardMinLength(_, body) => EvalBelow(body, q, keyCount);
    case ReturnIfLength(_, _, body) => EvalBelow(body, q, keyCount);
    case Dispatch(readIndex, shift, mask, branches) =>
      if 0 <= readIndex < |q| {
        var k := FirstMatch(branches, Slot(q[readIndex] as nat, shift, mask));
        if k < |branches| {
          EvalBelow(branches[k].body, q, keyCount);
        }
      }
  }

  /** The code for node n at readIndex, with the length already known to be
      at least checkedMinLength: a leaf returns its result; otherwise a
      length guard when the subtree's minimum length is larger, a length
      test when the known minimum is the read index, then a dispatch over
      the non-blank slots below NumJumps (or the single child when the mask
      is 0), and -1. */
  function Generate(keys: seq<string>, trie: seq<TrieEntry>, aux: seq<int>, n: nat,
                    readIndex: int, checkedMinLength: int): (r: Code)
    requires StructWF(trie, |keys|) && n < |trie| && |aux| == |trie|
    ensures ReturnsBelow(r, |keys|)
    decreases |trie| - n, 1
  {
    var e := trie[n];
    if e.continuationIndex == -1 then Return(e.resultIndex)
    else
      var guard := aux[n] > checkedMinLength;
      var checked := if guard then aux[n] else checkedMinLength;
      var next :=
        if e.continuationIndexMask > 0 then
          Dispatch(readIndex, e.continuationIndexRShift, e.continuationIndexMask,
                   Branches(keys, trie, aux, n, readIndex, checked, 0))
        else
          var c := trie[e.continuationIndex];
          if IsBlank(c) then Return(-1)
          else Generate(keys, trie, aux, e.continuationIndex, readIndex + c.skipLength, checked);
      var tested := if checked == readIndex then ReturnIfLength(readIndex, e.resultIndex, next) else next;
      if guard then GuardMinLength(aux[n], tested) else tested
  }

  /** The branches for slots i.. of node n's block, one per non-blank slot. */
  function Branches(keys: seq<string>, trie: seq<TrieEntry>, aux: seq<int>, n: nat,
                    readIndex: int, checkedMinLength: int, i: nat): (bs: seq<Branch>)
    requires StructWF(trie, |keys|) && n < |trie| && |aux| == |trie|
    requires trie[n].continuationIndex >= 0 && i <= NumJumps(trie[n])
    ensures forall k :: 0 <= k < |bs| ==> ReturnsBelow(bs[k].body, |keys|)
    decreases |trie| - n, 0, NumJumps(trie[n]) - i
  {
    var e := trie[n];
    if i == NumJumps(e) then []
    else
      var continuationIndex := e.continuationIndex + i;
      var c := trie[continuationIndex];
      var rest := Branches(keys, trie, aux, n, readIndex, checkedMinLength, i + 1);
      if IsBlank(c) then rest
      else [Branch(i, Generate(keys, trie, aux, continuationIndex, readIndex + c.skipLength, checkedMinLength))] + rest
  }

  /** The dispatch finds the branch of slot t exactly when t is a non-blank
      slot from i on below NumJumps, and that branch is the slot's code. */
  lemma {:induction false} BranchesFind(keys: seq<string>, trie: seq<TrieEntry>, aux: seq<int>, n: nat,
                                        readIndex: int, checkedMinLength: int, i: nat, t: nat)
    requires StructWF(trie, |keys|) && n < |trie| && |aux| == |trie|
    requires trie[n].continuationIndex >= 0 && i <= NumJumps(trie[n])
    ensures var bs := Branches(keys, trie, aux, n, readIndex, checkedMinLength, i);
      var k := FirstMatch(bs, t);
      var m := trie[n].continuationIndex + t;
      if i <= t < NumJumps(trie[n]) && !IsBlank(trie[m]) then
        k < |bs| && bs[k].body == Generate(keys, trie, aux, m, readIndex + trie[m].skipLength, checkedMinLength)
      else
        k == |bs|
    decreases NumJumps(trie[n]) - i
  {
    var e := trie[n];
    if i < NumJumps(e) {
      var bs := Branches(keys, trie, aux, n, readIndex, checkedMinLength, i);
      var rest := Branches(keys, trie, aux, n, readIndex, checkedMinLength, i + 1);
      BranchesFind(keys, trie, aux, n, readIndex, checkedMinLength, i + 1, t);
      if !IsBlank(trie[e.continuationIndex + i]) && t != i {
        assert bs[1..] == rest;
      }
    }
  }

  /** The code for the whole array: the root at its skip length, nothing yet
      checked. */
  function Compile(keys: seq<string>, trie: seq<TrieEntry>, aux: seq<int>): (r: Code)
    requires StructWF(trie, |keys|) && |aux| == |trie|
    ensures ReturnsBelow(r, |keys|)
  {
    Generate(keys, trie, aux, 0, trie[0].skipLength, 0)
  }

  /** One step of the code at an internal node: the guard, the length test,
      then the dispatch or the single child. */
  lemma EvalInternal(keys: seq<string>, trie: seq<TrieEntry>, aux: seq<int>, n: nat,
                     readIndex: int, checkedMinLength: int, q: string)
    requires StructWF(trie, |keys|) && n < |trie| && |aux| == |trie| && HasChildren(trie[n])
    ensures var e := trie[n];
      var checked := if aux[n] > checkedMinLength then aux[n] else checkedMinLength;
      Eval(Generate(keys, trie, aux, n, readIndex, checkedMinLength), q) ==
        if aux[n] > checkedMinLength && |q| < aux[n] then Returned(-1)
        else if checked == readIndex && |q| == readIndex then Returned(e.resultIndex)
        else if e.continuationIndexMask > 0 then
          Eval(Dispatch(readIndex, e.continuationIndexRShift, e.continuationIndexMask,
                        Branches(keys, trie, aux, n, readIndex, checked, 0)), q)
        else if IsBlank(trie[e.continuationIndex]) then Returned(-1)
        else Eval(Generate(keys, trie, aux, e.continuationIndex,
                           readIndex + trie[e.continuationIndex].skipLength, checked), q)
  {
    var e := trie[n];
    var checked := if aux[n] > checkedMinLength then aux[n] else checkedMinLength;
    var next :=
      if e.continuationIndexMask > 0 then
        Dispatch(readIndex, e.continuationIndexRShift, e.continuationIndexMask,
                 Branches(keys, trie, aux, n, readIndex, checked, 0))
      else if IsBlank(trie[e.continuationIndex]) then Return(-1)
      else Generate(keys, trie, aux, e.continuationIndex, readIndex + trie[e.continuationIndex].skipLength, checked);
    var tested := if checked == readIndex then ReturnIfLength(readIndex, e.resultIndex, next) else next;
    assert Generate(keys, trie, aux, n, readIndex, checkedMinLength) ==
      if aux[n] > checkedMinLength then GuardMinLength(aux[n], tested) else tested;
    assert Eval(tested, q) == if checked == readIndex && |q| == readIndex then Returned(e.resultIndex) else Eval(next, q);
  }

  /** The dispatch runs the code of the slot the character selects, or
      returns -1 when that slot is blank or at or above NumJumps. */
  lemma EvalDispatch(keys: seq<string>, trie: seq<TrieEntry>, aux: seq<int>, n: nat,
                     readIndex: int, checked: int, q: string)
    requires StructWF(trie, |keys|) && n < |trie| && |aux| == |trie| && HasChildren(trie[n])
    requires 0 <= readIndex < |q|
    ensures var e := trie[n];
      var j := Slot(q[readIndex] as nat, e.continuationIndexRShift, e.continuationIndexMask);
      var m := e.continuationIndex + j;
      m < |trie| &&
      Eval(Dispatch(readIndex, e.continuationIndexRShift, e.continuationIndexMask,
                    Branches(keys, trie, aux, n, readIndex, checked, 0)), q) ==
        if j < NumJumps(e) && !IsBlank(trie[m]) then
          Eval(Generate(keys, trie, aux, m, readIndex + trie[m].skipLength, checked), q)
        else Returned(-1)
  {
    var e := trie[n];
    var j := Slot(q[readIndex] as nat, e.continuationIndexRShift, e.continuationIndexMask);
    BranchesFind(keys, trie, aux, n, readIndex, checked, 0, j);
  }

  /** Past the guard, with a character left to read, the code at an internal
      node runs the code of the non-blank slot that character selects, or
      returns -1 when there is none. */
  lemma EvalContinue(keys: seq<string>, trie: seq<TrieEntry>, aux: seq<int>, n: nat,
                     readIndex: int, checkedMinLength: int, q: string, m: nat, checked: int)
    requires StructWF(trie, |keys|) && n < |trie| && |aux| == |trie| && HasChildren(trie[n])
    requires 0 <= readIndex < |q| && !(aux[n] > checkedMinLength && |q| < aux[n])
    requires m == trie[n].continuationIndex + Slot(q[readIndex] as nat, trie[n].continuationIndexRShift, trie[n].continuationIndexMask)
    requires checked == if aux[n] > checkedMinLength then aux[n] else checkedMinLength
    ensures m < |trie| &&
      Eval(Generate(keys, trie, aux, n, readIndex, checkedMinLength), q) ==
        if m < trie[n].continuationIndex + NumJumps(trie[n]) && !IsBlank(trie[m]) then
          Eval(Generate(keys, trie, aux, m, readIndex + trie[m].skipLength, checked), q)
        else Returned(-1)
  {
    var e := trie[n];
    EvalInternal(keys, trie, aux, n, readIndex, checkedMinLength, q);
    if e.continuationIndexMask > 0 {
      EvalDispatch(keys, trie, aux, n, readIndex, checked, q);
    } else {
      assert Slot(q[readIndex] as nat, e.continuationIndexRShift, e.continuationIndexMask) == 0;
    }
  }

  /** One step of the code at an internal node whose descendants are all at
      least readIndex long: it stops with -1 or the node's result, or it reads
      the character at readIndex and continues with the code of the non-blank
      slot that character selects. */
  lemma EvalStep(keys: seq<string>, trie: seq<TrieEntry>, aux: seq<int>, n: nat,
                 readIndex: int, checkedMinLength: int, q: string)
    returns (stop: bool, m: nat, checked: int)
    requires StructWF(trie, |keys|) && n < |trie| && |aux| == |trie| && HasChildren(trie[n])
    requires 0 <= readIndex <= aux[n] && checkedMinLength <= |q|
    ensures var e := trie[n];
      var o := Eval(Generate(keys, trie, aux, n, readIndex, checkedMinLength), q);
      (stop ==> o == Returned(-1) || o == Returned(e.resultIndex)) &&
      (!stop ==>
        readIndex < |q| && checked <= |q| &&
        e.continuationIndex <= m < e.continuationIndex + NumJumps(e) && m < |trie| && !IsBlank(trie[m]) &&
        o == Eval(Generate(keys, trie, aux, m, readIndex + trie[m].skipLength, checked), q))
  {
    var e := trie[n];
    var d := readIndex;
    checked := if aux[n] > checkedMinLength then aux[n] else checkedMinLength;
    m := 0;
    stop := true;
    if d < |q| && !(aux[n] > checkedMinLength && |q| < aux[n]) {
      var j := Slot(q[d] as nat, e.continuationIndexRShift, e.continuationIndexMask);
      EvalContinue(keys, trie, aux, n, d, checkedMinLength, q, e.continuationIndex + j, checked);
      if j < NumJumps(e) && !IsBlank(trie[e.continuationIndex + j]) {
        m := e.continuationIndex + j;
        stop := false;
      }
    } else {
      EvalInternal(keys, trie, aux, n, d, checkedMinLength, q);
    }
  }

  /** A non-blank slot below NumJumps of a well-formed internal node holds a
      well-formed node for the keys of its group, and the table agrees
      there. */
  lemma SlotChild(mode: CaseMode, keys: seq<string>, trie: seq<TrieEntry>, aux: seq<int>, n: nat,
                  S: set<nat>, ci: nat, isRoot: bool, t: nat) returns (G: set<nat>)
    requires StructWF(trie, |keys|) && n < |trie| && |aux| == |trie| && HasChildren(trie[n])
    requires NodeWF(mode, keys, trie, trie[n], S, ci, isRoot) && AuxAgrees(keys, trie, aux, n)
    requires t < NumJumps(trie[n]) && !IsBlank(trie[trie[n].continuationIndex + t])
    ensures var e := trie[n];
      var m := e.continuationIndex + t;
      var d := ci + e.skipLength;
      n < m < |trie| && G <= S &&
      NodeWF(mode, keys, trie, trie[m], G, d, false) && AuxAgrees(keys, trie, aux, m)
  {
    G := SlotOf(mode, keys, trie, n, S, ci, isRoot, t);
  }

  /** One step of the code at a well-formed internal node, for any query. */
  lemma StepSafe(mode: CaseMode, keys: seq<string>, trie: seq<TrieEntry>, aux: seq<int>, n: nat,
                 S: set<nat>, ci: nat, isRoot: bool, q: string, checkedMinLength: int)
    returns (stop: bool, m: nat, G: set<nat>, checked: int)
    requires forall k :: 0 <= k < |keys| ==> IsAscii(keys[k]) && |keys[k]| < IntMaxValue
    requires StructWF(trie, |keys|) && n < |trie| && |aux| == |trie| && HasChildren(trie[n])
    requires NodeWF(mode, keys, trie, trie[n], S, ci, isRoot) && AuxAgrees(keys, trie, aux, n)
    requires checkedMinLength <= |q|
    ensures var e := trie[n];
      var d := ci + e.skipLength;
      var o := Eval(Generate(keys, trie, aux, n, d, checkedMinLength), q);
      (stop ==> o == Returned(-1) || o == Returned(e.resultIndex)) &&
      (!stop ==>
        n < m < |trie| && G <= S &&
        NodeWF(mode, keys, trie, trie[m], G, d, false) && AuxAgrees(keys, trie, aux, m) &&
        checked <= |q| &&
        o == Eval(Generate(keys, trie, aux, m, d + trie[m].skipLength, checked), q))
  {
    var e := trie[n];
    var d := ci + e.skipLength;
    InternalMin(mode, keys, trie, n, S, ci, isRoot);
    stop, m, checked := EvalStep(keys, trie, aux, n, d, checkedMinLength, q);
    G := {};
    if !stop {
      G := SlotChild(mode, keys, trie, aux, n, S, ci, isRoot, m - e.continuationIndex);
    }
  }

  /** For every query, the code of a well-formed node never reads past the
      query's end and returns -1 or one of the node's keys, provided the
      length is known to be at least checkedMinLength. */
  lemma {:induction false} GenerateSafe(mode: CaseMode, keys: seq<string>, trie: seq<TrieEntry>, aux: seq<int>, n: nat,
                                        S: set<nat>, ci: nat, isRoot: bool, q: string,
                                        readIndex: int, checkedMinLength: int)
    requires forall k :: 0 <= k < |keys| ==> IsAscii(keys[k]) && |keys[k]| < IntMaxValue
    requires StructWF(trie, |keys|) && n < |trie| && |aux| == |trie|
    requires NodeWF(mode, keys, trie, trie[n], S, ci, isRoot) && AuxAgrees(keys, trie, aux, n)
    requires HasChildren(trie[n]) ==> readIndex == ci + trie[n].skipLength
    requires checkedMinLength <= |q|
    ensures var o := Eval(Generate(keys, trie, aux, n, readIndex, checkedMinLength), q);
      o.Returned? && (o.index == -1 || (o.index >= 0 && o.index as nat in S))
    decreases |trie| - n
  {
    if HasChildren(trie[n]) {
      var stop, m, G, checked := StepSafe(mode, keys, trie, aux, n, S, ci, isRoot, q, checkedMinLength);
      if !stop {
        GenerateSafe(mode, keys, trie, aux, m, G, readIndex, false, q, readIndex + trie[m].skipLength, checked);
      }
    }
  }

  /** The table agrees at every slot of an agreeing node's block. */
  lemma AuxChild(keys: seq<string>, trie: seq<TrieEntry>, aux: seq<int>, n: nat, m: nat)
    requires StructWF(trie, |keys|) && n < |trie| && |aux| == |trie| && HasChildren(trie[n])
    requires AuxAgrees(keys, trie, aux, n)
    requires trie[n].continuationIndex <= m < trie[n].continuationIndex + NumJumps(trie[n])
    ensures m < |trie| && AuxAgrees(keys, trie, aux, m)
  {
  }

  /** In the case-sensitive mode, the code at an internal node standing for
      key i returns i for the query keys[i] when the key does not go on past
      the node's divergence index (it then ends there). */
  lemma StepFindsEnd(keys: seq<string>, trie: seq<TrieEntry>, aux: seq<int>, n: nat,
                     S: set<nat>, ci: nat, isRoot: bool, i: nat, checkedMinLength: int)
    requires forall k :: 0 <= k < |keys| ==> IsAscii(keys[k]) && |keys[k]| < IntMaxValue
    requires StructWF(trie, |keys|) && n < |trie| && |aux| == |trie| && HasChildren(trie[n])
    requires NodeWF(CaseSensitive, keys, trie, trie[n], S, ci, isRoot) && AuxAgrees(keys, trie, aux, n)
    requires i in S && ci + trie[n].skipLength >= |keys[i]| && checkedMinLength <= |keys[i]|
    ensures Eval(Generate(keys, trie, aux, n, ci + trie[n].skipLength, checkedMinLength), keys[i]) == Returned(i)
  {
    InternalMin(CaseSensitive, keys, trie, n, S, ci, isRoot);
    NodeEnd(CaseSensitive, keys, trie, n, S, ci, isRoot, i, keys[i]);
    EvalInternal(keys, trie, aux, n, ci + trie[n].skipLength, checkedMinLength, keys[i]);
  }

  /** ... and otherwise continues with the code of the child standing for
      i. */
  lemma StepFindsDown(keys: seq<string>, trie: seq<TrieEntry>, aux: seq<int>, n: nat,
                      S: set<nat>, ci: nat, isRoot: bool, i: nat, checkedMinLength: int)
    returns (m: nat, G: set<nat>, checked: int)
    requires forall k :: 0 <= k < |keys| ==> IsAscii(keys[k]) && |keys[k]| < IntMaxValue
    requires StructWF(trie, |keys|) && n < |trie| && |aux| == |trie| && HasChildren(trie[n])
    requires NodeWF(CaseSensitive, keys, trie, trie[n], S, ci, isRoot) && AuxAgrees(keys, trie, aux, n)
    requires i in S && ci + trie[n].skipLength < |keys[i]| && checkedMinLength <= |keys[i]|
    ensures var d := ci + trie[n].skipLength;
      n < m < |trie| && i in G && NodeWF(CaseSensitive, keys, trie, trie[m], G, d, false) &&
      AuxAgrees(keys, trie, aux, m) && checked <= |keys[i]| &&
      Eval(Generate(keys, trie, aux, n, d, checkedMinLength), keys[i]) ==
        Eval(Generate(keys, trie, aux, m, d + trie[m].skipLength, checked), keys[i])
  {
    var q := keys[i];
    var e := trie[n];
    var d := ci + e.skipLength;
    InternalMin(CaseSensitive, keys, trie, n, S, ci, isRoot);
    checked := if aux[n] > checkedMinLength then aux[n] else checkedMinLength;
    assert i != e.resultIndex;
    m, G := KeySlot(CaseSensitive, keys, trie, n, S, ci, isRoot, i);
    SensitiveIsIdentity(q[d] as nat);
    assert m == e.continuationIndex + Slot(q[d] as nat, e.continuationIndexRShift, e.continuationIndexMask);
    assert !IsBlank(trie[m]);
    EvalContinue(keys, trie, aux, n, d, checkedMinLength, q, m, checked);
    AuxChild(keys, trie, aux, n, m);
  }

  /** In the case-sensitive mode, the code of a node standing for key i
      returns i for the query keys[i]. */
  lemma {:induction false} GenerateFinds(keys: seq<string>, trie: seq<TrieEntry>, aux: seq<int>, n: nat,
                                         S: set<nat>, ci: nat, isRoot: bool, i: nat,
                                         readIndex: int, checkedMinLength: int)
    requires forall k :: 0 <= k < |keys| ==> IsAscii(keys[k]) && |keys[k]| < IntMaxValue
    requires StructWF(trie, |keys|) && n < |trie| && |aux| == |trie|
    requires NodeWF(CaseSensitive, keys, trie, trie[n], S, ci, isRoot) && AuxAgrees(keys, trie, aux, n)
    requires i in S
    requires HasChildren(trie[n]) ==> readIndex == ci + trie[n].skipLength
    requires checkedMinLength <= |keys[i]|
    ensures Eval(Generate(keys, trie, aux, n, readIndex, checkedMinLength), keys[i]) == Returned(i)
    decreases |trie| - n
  {
    if HasChildren(trie[n]) {
      if readIndex >= |keys[i]| {
        StepFindsEnd(keys, trie, aux, n, S, ci, isRoot, i, checkedMinLength);
      } else {
        var m, G, checked := StepFindsDown(keys, trie, aux, n, S, ci, isRoot, i, checkedMinLength);
        GenerateFinds(keys, trie, aux, m, G, readIndex, false, i, readIndex + trie[m].skipLength, checked);
      }
    }
  }

  /** The compiled trie's lookup: the length reject, the generated code, and
      an ordinal comparison against the one candidate it returns.  A hit is
      always a stored key equal to the query, with its value. */
  function CompiledLookup<V>(keys: seq<string>, values: seq<V>, stats: Stats, code: Code, key: string): (r: Option<V>)
    requires |values| == |keys| && ReturnsBelow(code, |keys|)
    ensures r.Some? ==> exists i :: 0 <= i < |keys| && keys[i] == key && r.value == values[i]
    ensures !PassesLengthCheck(stats, |key|) ==> r == None
  {
    if !PassesLengthCheck(stats, |key|) then None
    else
      var o := Eval(code, key);
      EvalBelow(code, key, |keys|);
      if o.Returned? && o.index > -1 && key == keys[o.index] then Some(values[o.index]) else None
  }

  /** The conditions under which the generated code is built: a well-formed
      case-sensitive node array and its table of minimum descendant lengths. */
  ghost predicate CompiledInputs(keys: seq<string>, trie: seq<TrieEntry>, aux: seq<int>) {
    KeySetOK(CaseSensitive, keys) &&
    StructWF(trie, |keys|) && NodeWF(CaseSensitive, keys, trie, trie[0], AllIndices(|keys|), 0, true) &&
    |aux| == |trie| && AuxAgrees(keys, trie, aux, 0)
  }

  /** For every query, the generated code never indexes past the query's end
      (the emitted method never throws) and returns -1 or a key index. */
  lemma CompiledNeverReadsPastEnd(keys: seq<string>, trie: seq<TrieEntry>, aux: seq<int>, q: string)
    requires CompiledInputs(keys, trie, aux)
    ensures Eval(Compile(keys, trie, aux), q).Returned?
    ensures -1 <= Eval(Compile(keys, trie, aux), q).index < |keys|
  {
    GenerateSafe(CaseSensitive, keys, trie, aux, 0, AllIndices(|keys|), 0, true, q, trie[0].skipLength, 0);
  }

  /** Every stored key is found, with its value. */
  lemma CompiledFinds<V>(keys: seq<string>, values: seq<V>, trie: seq<TrieEntry>, aux: seq<int>, i: nat)
    requires CompiledInputs(keys, trie, aux) && |values| == |keys| && i < |keys|
    ensures CompiledLookup(keys, values, StatsOf(keys), Compile(keys, trie, aux), keys[i]) == Some(values[i])
  {
    KeysPassLengthCheck(keys, i);
    GenerateFinds(keys, trie, aux, 0, AllIndices(|keys|), 0, true, i, trie[0].skipLength, 0);
  }

  /** The compiled lookup is exactly the case-sensitive map of the keys. */
  lemma CompiledIsMap<V>(keys: seq<string>, values: seq<V>, trie: seq<TrieEntry>, aux: seq<int>, q: string)
    requires CompiledInputs(keys, trie, aux) && |values| == |keys|
    ensures CompiledLookup(keys, values, StatsOf(keys), Compile(keys, trie, aux), q) ==
            MapLookup(CaseSensitive, keys, values, q)
  {
    if exists i :: 0 <= i < |keys| && StringEqual(CaseSensitive, keys[i], q) {
      var i :| 0 <= i < |keys| && StringEqual(CaseSensitive, keys[i], q);
      CompiledFinds(keys, values, trie, aux, i);
      MapLookupAt(CaseSensitive, keys, values, i, q);
    }
  }

  /** The main theorem: on the same node array, the compiled engine and the
      (corrected) interpreted engine give the same answer for every query. */
  lemma EnginesAgree<V>(keys: seq<string>, values: seq<V>, trie: seq<TrieEntry>, aux: seq<int>, q: string)
    requires CompiledInputs(keys, trie, aux) && |values| == |keys|
    ensures CompiledLookup(keys, values, StatsOf(keys), Compile(keys, trie, aux), q) ==
            Lookup(CaseSensitive, keys, values, StatsOf(keys), trie, q)
  {
    CompiledIsMap(keys, values, trie, aux, q);
    LookupIsMap(CaseSensitive, keys, values, trie, q);
  }

  /** With any key set other than {""}, the compiled engine also agrees with
      the interpreted lookup as written. */
  lemma AsWrittenEnginesAgree<V>(keys: seq<string>, values: seq<V>, trie: seq<TrieEntry>, aux: seq<int>, q: string)
    requires CompiledInputs(keys, trie, aux) && |values| == |keys| && keys != [""]
    ensures CompiledLookup(keys, values, StatsOf(keys), Compile(keys, trie, aux), q) ==
            LookupAsWritten(CaseSensitive, keys, values, StatsOf(keys), trie, q)
  {
    EnginesAgree(keys, values, trie, aux, q);
    AsWrittenAgrees(CaseSensitive, keys, values, trie, q);
  }

  /** With the key set {""} the two engines disagree: the compiled code
      returns index 0 without reading, the interpreted walk as written starts
      past the end. */
  lemma EnginesDisagreeOnEmptyKey<V>(values: seq<V>, trie: seq<TrieEntry>, aux: seq<int>)
    requires CompiledInputs([""], trie, aux) && |values| == 1
    ensures CompiledLookup([""], values, StatsOf([""]), Compile([""], trie, aux), "") == Some(values[0])
    ensures LookupAsWritten(CaseSensitive, [""], values, StatsOf([""]), trie, "") == None
  {
    CompiledFinds([""], values, trie, aux, 0);
    AsWrittenMissesEmptyKey(CaseSensitive, values, trie);
  }

  /** The compiled engine compares ordinally: a query that differs from a
      key only in letter case (and equals no key) is not found, even though
      the case-insensitive lookup would find it. */
  lemma CompiledRejectsOtherCase<V>(keys: seq<string>, values: seq<V>, trie: seq<TrieEntry>, aux: seq<int>,
                                    i: nat, q: string)
    requires CompiledInputs(keys, trie, aux) && |values| == |keys| && KeySetOK(CaseInsensitive, keys)
    requires i < |keys| && IgnoreCaseEqual(keys[i], q) && q != keys[i]
    ensures CompiledLookup(keys, values, StatsOf(keys), Compile(keys, trie, aux), q) == None
    ensures MapLookup(CaseInsensitive, keys, values, q) == Some(values[i])
  {
    CompiledIsMap(keys, values, trie, aux, q);
    forall j | 0 <= j < |keys| && keys[j] == q
      ensures false
    {
      StringEqualReflexive(CaseInsensitive, q);
      EqualKeyUnique(CaseInsensitive, keys, i, j, q);
    }
    MapLookupAt(CaseInsensitive, keys, values, i, q);
  }

  /** The compiled trie: the keys and values, the code generated from the
      analyzer's node array, and the length stats. */
  class CompiledTrie<V> {
    const keys: seq<string>
    const values: seq<V>
    const func: Code
    const stats: Stats
    ghost const entries: seq<TrieEntry>
    ghost const auxInfo: seq<int>

    ghost predicate Valid() {
      CompiledInputs(keys, entries, auxInfo) && |values| == |keys| &&
      func == Compile(keys, entries, auxInfo) && stats == StatsOf(keys)
    }

    constructor (keys: seq<string>, values: seq<V>, entries: seq<TrieEntry>)
      requires KeySetOK(CaseSensitive, keys) && |values| == |keys|
      requires StructWF(entries, |keys|) && NodeWF(CaseSensitive, keys, entries, entries[0], AllIndices(|keys|), 0, true)
      ensures Valid() && this.keys == keys && this.values == values && this.entries == entries
    {
      this.keys := keys;
      this.values := values;
      this.entries := entries;
      var aux := GetAuxInfo(keys, entries);
      this.auxInfo := aux;
      this.func := Compile(keys, entries, aux);
      var s := ModuloStats(keys);
      this.stats := s;
    }

    /** The lookup: the result CompiledLookup describes, which is also the
        interpreted trie's answer on the same node array. */
    method TryGetValue(key: string) returns (r: Option<V>)
      requires Valid()
      ensures r == CompiledLookup(keys, values, stats, func, key)
      ensures r == Lookup(CaseSensitive, keys, values, stats, entries, key)
    {
      EnginesAgree(keys, values, entries, auxInfo, key);
      var failsLengthCheck := BitAnd(stats.lengthFilter, Pow2(|key| % 64)) == 0
        || |key| < stats.minLength
        || |key| > stats.maxLength;
      if !failsLengthCheck {
        CompiledNeverReadsPastEnd(keys, entries, auxInfo, key);
        var valueIndex := Eval(func, key).index;
        if valueIndex > -1 {
          var candidateKey := keys[valueIndex];
          if key == candidateKey {
            return Some(values[valueIndex]);
          }
        }
      }
      return None;
    }
  }
}
