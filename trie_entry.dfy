/** The node record of the flat trie array and the dispatch arithmetic both
    lookup engines share. */
module TrieEntries {
  import opened Bits
  import opened CaseStrategy

  const IntMinValue: int := -0x8000_0000
  const IntMaxValue: int := 0x7FFF_FFFF

  /** One slot of the node array: five integers fixed at construction. */
  datatype TrieEntry = TrieEntry(
    skipLength: int,
    continuationIndex: int,        // -1 for a node without children
    continuationIndexRShift: int,
    continuationIndexMask: int,
    resultIndex: int               // -1 when no key ends at this node
  )

  /** The all-zero entry `new TrieEntry()` that holds slot 0 while the root is
      built. */
  const Placeholder := TrieEntry(0, 0, 0, 0, 0)

  /** An unused slot of a jump table. */
  const Blank := TrieEntry(IntMinValue, -1, -1, -1, -1)

  /** The node for a single remaining key. */
  function Leaf(index: nat): (e: TrieEntry)
    ensures !HasChildren(e) && !IsBlank(e) && e.resultIndex == index
  {
    TrieEntry(1, -1, 0, -1, index)
  }

  predicate HasChildren(e: TrieEntry) {
    e.continuationIndex != -1
  }

  /** The test the compiled engine uses to skip a slot: a blank slot has no
      children. */
  predicate IsBlank(e: TrieEntry)
    ensures IsBlank(e) ==> !HasChildren(e)
  {
    e.continuationIndex == -1 && e.resultIndex == -1
  }

  /** The dispatch slot `(code >> shift) & mask`. */
  function Slot(code: nat, shift: nat, mask: nat): (r: nat)
    ensures r <= mask
  {
    BitAnd(Shr(code, shift), mask)
  }

  /** The slot the character `c` selects in a node that dispatches with this
      shift and mask, after the transform. */
  function DispatchSlot(mode: CaseMode, c: char, shift: nat, mask: nat): (r: nat)
    ensures r <= mask
  {
    Slot(TChar(mode, c), shift, mask)
  }

  /** An entry whose children, if any, lie at `below` or later inside an array
      of `size` entries, and whose result indexes one of `keyCount` keys. */
  predicate LocalOK(e: TrieEntry, below: nat, size: nat, keyCount: nat) {
    -1 <= e.resultIndex < keyCount &&
    (e.continuationIndex == -1 ||
      (below <= e.continuationIndex &&
       0 <= e.continuationIndexRShift && 0 <= e.continuationIndexMask &&
       e.continuationIndex + e.continuationIndexMask + 1 <= size &&
       0 <= e.skipLength))
  }

  /** The shape both engines need: every child block lies after the node that
      points to it and inside the array, so a walk only moves forward. */
  predicate StructWF(trie: seq<TrieEntry>, keyCount: nat) {
    |trie| >= 1 &&
    forall n :: 0 <= n < |trie| ==> LocalOK(trie[n], n + 1, |trie|, keyCount)
  }

  /** A dispatch from a node of a well-formed array lands on a later node. */
  lemma DispatchInBlock(trie: seq<TrieEntry>, keyCount: nat, n: nat, code: nat)
    requires StructWF(trie, keyCount) && n < |trie| && HasChildren(trie[n])
    ensures var e := trie[n];
      var c := e.continuationIndex + Slot(code, e.continuationIndexRShift, e.continuationIndexMask);
      n < e.continuationIndex <= c < e.continuationIndex + e.continuationIndexMask + 1 <= |trie|
  {
  }
}
