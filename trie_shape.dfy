/** What a node built from a set of keys looks like: the facts the builder
    establishes and both lookup engines rely on.  A node stands for a set S
    of key indices; `ci` is the index at which its parent dispatched (0 at the
    root). */
module TrieShape {
  import opened Bits
  import opened CaseStrategy
  import opened TrieEntries

  /** No two keys are equal after the transform (distinct under the string
      equality is not enough: "@" and "`" transform alike). */
  predicate DistinctAfterTransform(mode: CaseMode, keys: seq<string>) {
    forall i, j :: 0 <= i < j < |keys| ==> !SameTransform(mode, keys[i], keys[j])
  }

  /** What the builder needs of its key set and the code leaves unchecked:
      at least one key, keys distinct after the transform, every character
      below 128, and lengths a .NET `int` can hold. */
  predicate KeySetOK(mode: CaseMode, keys: seq<string>) {
    |keys| >= 1 &&
    DistinctAfterTransform(mode, keys) &&
    (forall i :: 0 <= i < |keys| ==> IsAscii(keys[i])) &&
    (forall i :: 0 <= i < |keys| ==> |keys[i]| < IntMaxValue)
  }

  /** The keys of S are at least p long and agree on transformed characters
      before p. */
  ghost predicate SharePrefix(mode: CaseMode, keys: seq<string>, S: set<nat>, p: nat) {
    (forall j :: j in S ==> j < |keys| && p <= |keys[j]|) &&
    (forall j1, j2, i :: j1 in S && j2 in S && 0 <= i < p ==>
      TChar(mode, keys[j1][i]) == TChar(mode, keys[j2][i]))
  }

  /** S without the key that ends at the node (if any). */
  function Without(S: set<nat>, r: int): set<nat> {
    if r >= 0 then S - {r as nat} else S
  }

  /** A mask of the form 2^k - 1 for a table of at most 128 entries. */
  ghost predicate AllOnes(mask: int) {
    exists k: nat :: k <= 7 && mask == Pow2(k) - 1
  }

  /** The keys of `rest` whose character at d selects slot t. */
  ghost function SlotGroup(mode: CaseMode, keys: seq<string>, rest: set<nat>, d: nat, shift: nat, mask: nat, t: nat): set<nat>
    requires forall j :: j in rest ==> j < |keys| && d < |keys[j]|
  {
    set j | j in rest && DispatchSlot(mode, keys[j][d], shift, mask) == t
  }

  function Measure(trie: seq<TrieEntry>, cont: int): nat {
    if 0 <= cont <= |trie| then |trie| - cont + 1 else 0
  }

  /** The node e, standing for the keys S, with comparison index ci.
      A node without children is a leaf for exactly one key.  A node with
      children has divergence index d = ci + skipLength: the keys of S share
      their transformed prefix before d; at most one key of S ends at d and
      it is the node's result; every other key is longer than d and sits
      below the slot its character at d selects; slots that no key selects
      are blank. */
  ghost predicate NodeWF(mode: CaseMode, keys: seq<string>, trie: seq<TrieEntry>, e: TrieEntry,
                         S: set<nat>, ci: nat, isRoot: bool)
    decreases Measure(trie, e.continuationIndex), 2
  {
    if !HasChildren(e) then
      0 <= e.resultIndex < |keys| && e == Leaf(e.resultIndex) && S == {e.resultIndex as nat}
    else
      (isRoot ==> ci == 0) &&
      e.skipLength >= (if isRoot then 0 else 1) &&
      var d := ci + e.skipLength;
      var rest := Without(S, e.resultIndex);
      SharePrefix(mode, keys, S, d) &&
      (e.resultIndex == -1 || (0 <= e.resultIndex && e.resultIndex as nat in S && |keys[e.resultIndex]| == d)) &&
      (forall j :: j in rest ==> d < |keys[j]|) &&
      rest != {} &&
      0 <= e.continuationIndex && 0 <= e.continuationIndexRShift <= 5 &&
      AllOnes(e.continuationIndexMask) &&
      e.continuationIndex + e.continuationIndexMask + 1 <= |trie| &&
      ChildrenWF(mode, keys, trie, e.continuationIndex, e.continuationIndexRShift, e.continuationIndexMask, rest, d)
  }

  /** Every slot of the block at cont is well formed. */
  ghost predicate ChildrenWF(mode: CaseMode, keys: seq<string>, trie: seq<TrieEntry>,
                             cont: nat, shift: nat, mask: nat, rest: set<nat>, d: nat)
    requires cont + mask + 1 <= |trie|
    requires forall j :: j in rest ==> j < |keys| && d < |keys[j]|
    decreases Measure(trie, cont), 1
  {
    forall t :: 0 <= t <= mask ==> SlotWF(mode, keys, trie, cont, shift, mask, rest, d, t)
  }

  /** Slot t of the block at cont: blank when no key of `rest` selects it,
      otherwise a node for the keys that do, whose own block lies after this
      one. */
  ghost predicate SlotWF(mode: CaseMode, keys: seq<string>, trie: seq<TrieEntry>,
                         cont: nat, shift: nat, mask: nat, rest: set<nat>, d: nat, t: nat)
    requires cont + mask + 1 <= |trie| && t <= mask
    requires forall j :: j in rest ==> j < |keys| && d < |keys[j]|
    decreases Measure(trie, cont), 0
  {
    var G := SlotGroup(mode, keys, rest, d, shift, mask, t);
    var c := trie[cont + t];
    (G == {} ==> c == Blank) &&
    (G != {} ==>
      (!HasChildren(c) || c.continuationIndex > cont + mask) &&
      NodeWF(mode, keys, trie, c, G, d, false))
  }

  /** The conditions that make an internal node well formed, one by one. */
  lemma InternalNodeWF(mode: CaseMode, keys: seq<string>, trie: seq<TrieEntry>, e: TrieEntry,
                       S: set<nat>, ci: nat, isRoot: bool, d: nat, rest: set<nat>)
    requires 0 <= e.continuationIndex && (isRoot ==> ci == 0)
    requires e.skipLength >= (if isRoot then 0 else 1) && d == ci + e.skipLength
    requires SharePrefix(mode, keys, S, d)
    requires e.resultIndex == -1 ||
      (0 <= e.resultIndex && e.resultIndex as nat in S && |keys[e.resultIndex]| == d)
    requires rest == Without(S, e.resultIndex) && rest != {}
    requires forall j :: j in rest ==> j < |keys| && d < |keys[j]|
    requires 0 <= e.continuationIndexRShift <= 5 && AllOnes(e.continuationIndexMask)
    requires e.continuationIndex + e.continuationIndexMask + 1 <= |trie|
    requires ChildrenWF(mode, keys, trie, e.continuationIndex, e.continuationIndexRShift,
                        e.continuationIndexMask, rest, d)
    ensures NodeWF(mode, keys, trie, e, S, ci, isRoot)
  {
  }

  /** A node's meaning depends only on the array from its child block on, so
      appending entries and writing earlier slots preserve it. */
  lemma {:induction false} NodeWFFrame(mode: CaseMode, keys: seq<string>, trie: seq<TrieEntry>, trie': seq<TrieEntry>,
                                       e: TrieEntry, S: set<nat>, ci: nat, isRoot: bool, lo: nat)
    requires NodeWF(mode, keys, trie, e, S, ci, isRoot)
    requires HasChildren(e) ==> lo <= e.continuationIndex
    requires |trie| <= |trie'| && forall i :: lo <= i < |trie| ==> trie'[i] == trie[i]
    ensures NodeWF(mode, keys, trie', e, S, ci, isRoot)
    decreases Measure(trie, e.continuationIndex)
  {
    if HasChildren(e) {
      var cont, shift, mask := e.continuationIndex, e.continuationIndexRShift, e.continuationIndexMask;
      var d := ci + e.skipLength;
      var rest := Without(S, e.resultIndex);
      forall t | 0 <= t <= mask
        ensures SlotWF(mode, keys, trie', cont, shift, mask, rest, d, t)
      {
        assert SlotWF(mode, keys, trie, cont, shift, mask, rest, d, t);
        var G := SlotGroup(mode, keys, rest, d, shift, mask, t);
        var c := trie[cont + t];
        assert trie'[cont + t] == c;
        if G != {} {
          NodeWFFrame(mode, keys, trie, trie', c, G, d, false, lo);
        }
      }
      assert ChildrenWF(mode, keys, trie', cont, shift, mask, rest, d);
    }
  }

  /** Slot t keeps its meaning when its entry and everything from `lo` on
      are kept. */
  lemma SlotWFFrame(mode: CaseMode, keys: seq<string>, trie: seq<TrieEntry>, trie': seq<TrieEntry>,
                    cont: nat, shift: nat, mask: nat, rest: set<nat>, d: nat, t: nat, lo: nat)
    requires lo <= cont + mask + 1 && t <= mask
    requires forall j :: j in rest ==> j < |keys| && d < |keys[j]|
    requires cont + mask + 1 <= |trie| <= |trie'|
    requires SlotWF(mode, keys, trie, cont, shift, mask, rest, d, t)
    requires trie'[cont + t] == trie[cont + t]
    requires forall i :: lo <= i < |trie| ==> trie'[i] == trie[i]
    ensures SlotWF(mode, keys, trie', cont, shift, mask, rest, d, t)
  {
    var G := SlotGroup(mode, keys, rest, d, shift, mask, t);
    if G != {} {
      NodeWFFrame(mode, keys, trie, trie', trie[cont + t], G, d, false, lo);
    }
  }

  /** A lookup key that shares the transformed prefix stays in the group. */
  lemma SharePrefixSubset(mode: CaseMode, keys: seq<string>, S: set<nat>, S': set<nat>, p: nat, p': nat)
    requires SharePrefix(mode, keys, S, p) && S' <= S && p' <= p
    ensures SharePrefix(mode, keys, S', p')
  {
  }

  /** When one key of a set with a common transformed prefix ends where the
      prefix ends, every other key is longer. */
  lemma OthersLonger(mode: CaseMode, keys: seq<string>, S: set<nat>, p: nat, t: nat)
    requires DistinctAfterTransform(mode, keys)
    requires SharePrefix(mode, keys, S, p) && t in S && |keys[t]| == p
    ensures forall j :: j in S && j != t ==> p < |keys[j]|
  {
    forall j | j in S && j != t ensures p < |keys[j]| {
      if j < t {
        assert |keys[j]| == p ==> SameTransform(mode, keys[j], keys[t]);
      } else {
        assert |keys[j]| == p ==> SameTransform(mode, keys[t], keys[j]);
      }
    }
  }

  /** At most one key of a set with a common transformed prefix ends where
      the prefix ends. */
  lemma AtMostOneEnds(mode: CaseMode, keys: seq<string>, S: set<nat>, p: nat, a: nat, b: nat)
    requires DistinctAfterTransform(mode, keys)
    requires SharePrefix(mode, keys, S, p) && a in S && b in S
    requires |keys[a]| == p && |keys[b]| == p
    ensures a == b
  {
    if a < b {
      assert SameTransform(mode, keys[a], keys[b]);
    } else if b < a {
      assert SameTransform(mode, keys[b], keys[a]);
    }
  }
}
