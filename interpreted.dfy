/** The interpreted trie: the length reject, then a walk over the node array
    from the root, one dispatch per node, ending with a full comparison of
    the query against the one candidate key. */
module Interpreted {
  import opened Bits
  import opened CaseStrategy
  import opened TrieEntries
  import opened TrieShape
  import opened LengthStats
  import opened Wrappers
  import opened Analyzer

  /** The candidate the walk reaches from node n with the cursor at keyIndex:
      the loop stops when the cursor passes the end of the query; it stops
      at the node's result when the cursor is at the end or the node has no
      children; otherwise it dispatches on the transformed character under
      the cursor and advances the cursor by the child's skip length (a blank
      child's int.MinValue sends it below 0, and the next step stops there). */
  function Walk(mode: CaseMode, trie: seq<TrieEntry>, keyCount: nat, key: string, n: nat, keyIndex: int): (r: int)
    requires StructWF(trie, keyCount) && n < |trie|
    requires HasChildren(trie[n]) ==> keyIndex >= 0
    ensures -1 <= r < keyCount
    decreases |trie| - n
  {
    var e := trie[n];
    if keyIndex > |key| then -1
    else if keyIndex == |key| || !HasChildren(e) then e.resultIndex
    else
      var m := e.continuationIndex + DispatchSlot(mode, key[keyIndex], e.continuationIndexRShift, e.continuationIndexMask);
      DispatchInBlock(trie, keyCount, n, TChar(mode, key[keyIndex]));
      Walk(mode, trie, keyCount, key, m, keyIndex + trie[m].skipLength)
  }

  /** Where the cursor starts, corrected: at the root's skip length when the
      root has children, and at 0 when the root is the leaf of a one-key
      set. */
  function StartIndex(trie: seq<TrieEntry>): int
    requires |trie| >= 1
  {
    if HasChildren(trie[0]) then trie[0].skipLength else 0
  }

  /** The corrected start lies within every key: at the root's divergence
      index, which no key is shorter than, or at 0. */
  lemma StartWithinKeys(mode: CaseMode, keys: seq<string>, trie: seq<TrieEntry>)
    requires StructWF(trie, |keys|) && NodeWF(mode, keys, trie, trie[0], AllIndices(|keys|), 0, true)
    ensures 0 <= StartIndex(trie)
    ensures forall i :: 0 <= i < |keys| ==> StartIndex(trie) <= |keys[i]|
  {
    var e := trie[0];
    forall i | 0 <= i < |keys| ensures StartIndex(trie) <= |keys[i]| {
      if HasChildren(e) {
        assert i as nat in AllIndices(|keys|);
        if i != e.resultIndex {
          assert i as nat in Without(AllIndices(|keys|), e.resultIndex);
        }
      }
    }
  }

  /** The lookup the interpreted trie performs. A hit is always a stored key
      equal to the query under the strategy's equality, with its value; a
      query the length check rejects is never found. */
  function Lookup<V>(mode: CaseMode, keys: seq<string>, values: seq<V>, stats: Stats,
                     trie: seq<TrieEntry>, key: string): (r: Option<V>)
    requires StructWF(trie, |keys|) && |values| == |keys|
    ensures r.Some? ==> exists i :: 0 <= i < |keys| && StringEqual(mode, keys[i], key) && r.value == values[i]
    ensures !PassesLengthCheck(stats, |key|) ==> r == None
  {
    if !PassesLengthCheck(stats, |key|) then None
    else
      var i := Walk(mode, trie, |keys|, key, 0, StartIndex(trie));
      if i >= 0 && StringEqual(mode, keys[i], key) then Some(values[i]) else None
  }

  /** The walk reaches key i from any node whose set holds i, for a query
      with the same transformed characters, when the cursor is at the node's
      divergence index (or, at a leaf, anywhere up to the query's end). */
  lemma {:induction false} WalkFinds(mode: CaseMode, keys: seq<string>, trie: seq<TrieEntry>, n: nat,
                                     S: set<nat>, ci: nat, isRoot: bool, i: nat, q: string, keyIndex: int)
    requires StructWF(trie, |keys|) && n < |trie|
    requires NodeWF(mode, keys, trie, trie[n], S, ci, isRoot)
    requires i in S && i < |keys| && SameTransform(mode, keys[i], q)
    requires HasChildren(trie[n]) ==> keyIndex == ci + trie[n].skipLength
    requires !HasChildren(trie[n]) ==> keyIndex <= |q|
    ensures Walk(mode, trie, |keys|, q, n, keyIndex) == i
    decreases |trie| - n
  {
    NodeEnd(mode, keys, trie, n, S, ci, isRoot, i, q);
    if HasChildren(trie[n]) && ci + trie[n].skipLength < |q| {
      var d := ci + trie[n].skipLength;
      var m, G := StepDown(mode, keys, trie, n, S, ci, isRoot, i, q);
      WalkStep(mode, trie, |keys|, q, n, d, m);
      WalkFinds(mode, keys, trie, m, G, d, false, i, q, d + trie[m].skipLength);
    }
  }

  /** A walk that reaches an unused slot misses: the blank has no children,
      so the candidate test of the loop succeeds there, and it has no result.
      (Its skip length int.MinValue makes the cursor negative, which the loop
      condition still lets through.) */
  lemma WalkAtBlank(mode: CaseMode, trie: seq<TrieEntry>, keyCount: nat, key: string, m: nat, keyIndex: int)
    requires StructWF(trie, keyCount) && m < |trie| && trie[m] == Blank
    ensures IsBlank(trie[m])
    ensures Walk(mode, trie, keyCount, key, m, keyIndex) == -1
  {
  }

  /** Before the query's end, the walk at an internal node continues at the
      slot the next character selects. */
  lemma WalkStep(mode: CaseMode, trie: seq<TrieEntry>, keyCount: nat, q: string, n: nat, keyIndex: int, m: nat)
    requires StructWF(trie, keyCount) && n < |trie| && HasChildren(trie[n])
    requires 0 <= keyIndex < |q|
    requires m == trie[n].continuationIndex +
      DispatchSlot(mode, q[keyIndex], trie[n].continuationIndexRShift, trie[n].continuationIndexMask)
    ensures m < |trie| && Walk(mode, trie, keyCount, q, n, keyIndex) == Walk(mode, trie, keyCount, q, m, keyIndex + trie[m].skipLength)
  {
    DispatchInBlock(trie, keyCount, n, TChar(mode, q[keyIndex]));
  }

  /** Where the walk for key i stops at a node: a leaf is key i's; an
      internal node's divergence index is at most the query's length, and
      when the query ends there the node's result is key i. */
  lemma NodeEnd(mode: CaseMode, keys: seq<string>, trie: seq<TrieEntry>, n: nat,
                S: set<nat>, ci: nat, isRoot: bool, i: nat, q: string)
    requires n < |trie|
    requires NodeWF(mode, keys, trie, trie[n], S, ci, isRoot)
    requires i in S && i < |keys| && SameTransform(mode, keys[i], q)
    ensures !HasChildren(trie[n]) ==> trie[n].resultIndex == i
    ensures HasChildren(trie[n]) ==> ci + trie[n].skipLength <= |q|
    ensures HasChildren(trie[n]) && ci + trie[n].skipLength == |q| ==> trie[n].resultIndex == i
  {
    var e := trie[n];
    if HasChildren(e) && ci + e.skipLength == |q| {
      assert i !in Without(S, e.resultIndex);
    }
  }

  /** At an internal node whose set holds key i, a query with key i's
      transformed characters that goes on past the divergence index d is
      sent to the slot whose group holds key i. */
  lemma StepDown(mode: CaseMode, keys: seq<string>, trie: seq<TrieEntry>, n: nat,
                 S: set<nat>, ci: nat, isRoot: bool, i: nat, q: string) returns (m: nat, G: set<nat>)
    requires StructWF(trie, |keys|) && n < |trie| && HasChildren(trie[n])
    requires NodeWF(mode, keys, trie, trie[n], S, ci, isRoot)
    requires i in S && i < |keys| && SameTransform(mode, keys[i], q)
    requires ci + trie[n].skipLength < |q|
    ensures var e := trie[n];
      var d := ci + e.skipLength;
      m == e.continuationIndex + DispatchSlot(mode, q[d], e.continuationIndexRShift, e.continuationIndexMask) &&
      n < m < |trie| && i in G && G <= S && NodeWF(mode, keys, trie, trie[m], G, d, false)
  {
    var e := trie[n];
    var d := ci + e.skipLength;
    var rest := Without(S, e.resultIndex);
    var cont, shift, mask := e.continuationIndex, e.continuationIndexRShift, e.continuationIndexMask;
    assert i in rest;
    var t := DispatchSlot(mode, keys[i][d], shift, mask);
    assert DispatchSlot(mode, q[d], shift, mask) == t;
    G := SlotGroup(mode, keys, rest, d, shift, mask, t);
    assert i in G;
    assert SlotWF(mode, keys, trie, cont, shift, mask, rest, d, t);
    DispatchInBlock(trie, |keys|, n, TChar(mode, q[d]));
    m := cont + t;
  }

  /** Every stored key is found with its value, and so is every query equal
      to it under the strategy's equality (in the case-insensitive mode, its
      lower- and upper-case forms among them). */
  lemma LookupFinds<V>(mode: CaseMode, keys: seq<string>, values: seq<V>, trie: seq<TrieEntry>, i: nat, q: string)
    requires KeySetOK(mode, keys) && |values| == |keys|
    requires StructWF(trie, |keys|) && NodeWF(mode, keys, trie, trie[0], AllIndices(|keys|), 0, true)
    requires i < |keys| && StringEqual(mode, keys[i], q)
    ensures Lookup(mode, keys, values, StatsOf(keys), trie, q) == Some(values[i])
  {
    StringEqualSameTransform(mode, keys[i], q);
    KeysPassLengthCheck(keys, i);
    WalkFinds(mode, keys, trie, 0, AllIndices(|keys|), 0, true, i, q, StartIndex(trie));
  }

  /** Two stored keys are never equal to the same query, so the value a hit
      returns is the one of the key the query equals. */
  lemma EqualKeyUnique(mode: CaseMode, keys: seq<string>, i: nat, j: nat, q: string)
    requires KeySetOK(mode, keys) && i < |keys| && j < |keys|
    requires StringEqual(mode, keys[i], q) && StringEqual(mode, keys[j], q)
    ensures i == j
  {
    StringEqualSameTransform(mode, keys[i], q);
    StringEqualSameTransform(mode, keys[j], q);
    if i < j {
      assert SameTransform(mode, keys[i], keys[j]);
    } else if j < i {
      assert SameTransform(mode, keys[j], keys[i]);
    }
  }

  /** The map the trie stands for: the value of the key the query equals
      under the strategy's equality, if any. */
  ghost function MapLookup<V>(mode: CaseMode, keys: seq<string>, values: seq<V>, q: string): (r: Option<V>)
    requires |values| == |keys|
    ensures r.Some? ==> exists i :: 0 <= i < |keys| && StringEqual(mode, keys[i], q) && r.value == values[i]
    ensures r.None? ==> forall i :: 0 <= i < |keys| ==> !StringEqual(mode, keys[i], q)
  {
    if exists i :: 0 <= i < |keys| && StringEqual(mode, keys[i], q) then
      var i :| 0 <= i < |keys| && StringEqual(mode, keys[i], q);
      Some(values[i])
    else
      None
  }

  /** The interpreted lookup is exactly that map. */
  lemma LookupIsMap<V>(mode: CaseMode, keys: seq<string>, values: seq<V>, trie: seq<TrieEntry>, q: string)
    requires KeySetOK(mode, keys) && |values| == |keys|
    requires StructWF(trie, |keys|) && NodeWF(mode, keys, trie, trie[0], AllIndices(|keys|), 0, true)
    ensures Lookup(mode, keys, values, StatsOf(keys), trie, q) == MapLookup(mode, keys, values, q)
  {
    if exists i :: 0 <= i < |keys| && StringEqual(mode, keys[i], q) {
      var i :| 0 <= i < |keys| && StringEqual(mode, keys[i], q);
      LookupFinds(mode, keys, values, trie, i, q);
      MapLookupAt(mode, keys, values, i, q);
    }
  }

  /** The map gives the value of the one key the query equals. */
  lemma MapLookupAt<V>(mode: CaseMode, keys: seq<string>, values: seq<V>, i: nat, q: string)
    requires KeySetOK(mode, keys) && |values| == |keys|
    requires i < |keys| && StringEqual(mode, keys[i], q)
    ensures MapLookup(mode, keys, values, q) == Some(values[i])
  {
    var j :| 0 <= j < |keys| && StringEqual(mode, keys[j], q) && MapLookup(mode, keys, values, q) == Some(values[j]);
    EqualKeyUnique(mode, keys, i, j, q);
  }

  /** The cursor start as written: the root's skip length, also when the
      root is a leaf. */
  function LookupAsWritten<V>(mode: CaseMode, keys: seq<string>, values: seq<V>, stats: Stats,
                              trie: seq<TrieEntry>, key: string): (r: Option<V>)
    requires StructWF(trie, |keys|) && |values| == |keys|
    ensures r.Some? ==> exists i :: 0 <= i < |keys| && StringEqual(mode, keys[i], key) && r.value == values[i]
  {
    if !PassesLengthCheck(stats, |key|) then None
    else
      var i := Walk(mode, trie, |keys|, key, 0, trie[0].skipLength);
      if i >= 0 && StringEqual(mode, keys[i], key) then Some(values[i]) else None
  }

  /** For the key set {""} the root is the leaf with skip length 1, so the
      lookup as written misses the only key. */
  lemma AsWrittenMissesEmptyKey<V>(mode: CaseMode, values: seq<V>, trie: seq<TrieEntry>)
    requires |values| == 1
    requires StructWF(trie, 1) && NodeWF(mode, [""], trie, trie[0], AllIndices(1), 0, true)
    ensures trie[0] == Leaf(0)
    ensures LookupAsWritten(mode, [""], values, StatsOf([""]), trie, "") == None
    ensures Lookup(mode, [""], values, StatsOf([""]), trie, "") == Some(values[0])
  {
    var keys := [""];
    if HasChildren(trie[0]) {
      assert false;
    }
    StringEqualReflexive(mode, "");
    LookupFinds(mode, keys, values, trie, 0, "");
  }

  /** For every other key set the correction changes nothing. */
  lemma AsWrittenAgrees<V>(mode: CaseMode, keys: seq<string>, values: seq<V>, trie: seq<TrieEntry>, key: string)
    requires KeySetOK(mode, keys) && |values| == |keys| && keys != [""]
    requires StructWF(trie, |keys|) && NodeWF(mode, keys, trie, trie[0], AllIndices(|keys|), 0, true)
    ensures LookupAsWritten(mode, keys, values, StatsOf(keys), trie, key) ==
            Lookup(mode, keys, values, StatsOf(keys), trie, key)
  {
    if !HasChildren(trie[0]) && PassesLengthCheck(StatsOf(keys), |key|) {
      var r := trie[0].resultIndex;
      assert AllIndices(|keys|) == {r as nat};
      assert r in AllIndices(|keys|);
      assert |keys| == 1 by {
        assert |keys| - 1 in AllIndices(|keys|);
      }
      assert keys == [keys[0]];
      assert |keys[0]| != 0;
      assert StatsOf(keys).minLength == |keys[0]|;
      assert |key| >= 1;
    }
  }

  /** The older wrapper's ignore-case equality is ordinal: the walk reaches
      the key "One" for the query "one", whose transform is the same, and
      then the comparison as written rejects it; the strategy's equality
      accepts it. */
  lemma LegacyMissesLowerCase<V>(values: seq<V>, trie: seq<TrieEntry>)
    requires |values| == 1
    requires StructWF(trie, 1) && NodeWF(CaseInsensitive, ["One"], trie, trie[0], AllIndices(1), 0, true)
    ensures Walk(CaseInsensitive, trie, 1, "one", 0, StartIndex(trie)) == 0
    ensures !LegacyIgnoreCaseEqual(["One"][0], "one")
    ensures Lookup(CaseInsensitive, ["One"], values, StatsOf(["One"]), trie, "one") == Some(values[0])
  {
    var keys := ["One"];
    LegacyRejectsLowerCase();
    assert ToLower("One") == "one";
    assert KeySetOK(CaseInsensitive, keys);
    LookupFinds(CaseInsensitive, keys, values, trie, 0, "one");
    StringEqualSameTransform(CaseInsensitive, keys[0], "one");
    WalkFinds(CaseInsensitive, keys, trie, 0, AllIndices(1), 0, true, 0, "one", StartIndex(trie));
  }

  /** The interpreted trie: parallel key and value arrays, the node array
      the analyzer builds for the keys, and the length stats. */
  class InterpretedTrie<V> {
    const mode: CaseMode
    const keys: seq<string>
    const values: seq<V>
    const trie: seq<TrieEntry>
    const stats: Stats

    ghost predicate Valid() {
      KeySetOK(mode, keys) && |values| == |keys| &&
      StructWF(trie, |keys|) && NodeWF(mode, keys, trie, trie[0], AllIndices(|keys|), 0, true) &&
      stats == StatsOf(keys)
    }

    constructor (mode: CaseMode, keys: seq<string>, values: seq<V>)
      requires KeySetOK(mode, keys) && |values| == |keys|
      ensures Valid() && this.mode == mode && this.keys == keys && this.values == values
    {
      this.mode := mode;
      this.keys := keys;
      this.values := values;
      var s := MaskedStats(keys);
      this.stats := s;
      var analyzer := new TrieEntriesAnalyzer(mode);
      var t := analyzer.Create(keys);
      this.trie := t;
    }

    /** The lookup loop: its result is the one Lookup describes. */
    method TryGetValue(key: string) returns (r: Option<V>)
      requires Valid()
      ensures r == Lookup(mode, keys, values, stats, trie, key)
    {
      if BitAnd(stats.lengthFilter, Pow2(|key| % 64)) == 0 || |key| < stats.minLength || |key| > stats.maxLength {
        return None;
      }
      var n: nat := 0;
      var keyIndex := StartIndex(trie);
      ghost var target := Walk(mode, trie, |keys|, key, 0, keyIndex);
      while keyIndex <= |key|
        invariant n < |trie|
        invariant HasChildren(trie[n]) ==> keyIndex >= 0
        invariant Walk(mode, trie, |keys|, key, n, keyIndex) == target
        decreases |trie| - n
      {
        var entry := trie[n];
        var foundSingleCandidate := keyIndex == |key| || entry.continuationIndex == -1;
        if foundSingleCandidate {
          var resultIndex := entry.resultIndex;
          if resultIndex >= 0 {
            var candidateKey := keys[resultIndex];
            if StringEqual(mode, candidateKey, key) {
              return Some(values[resultIndex]);
            }
          }
          break;
        }
        var c := key[keyIndex];
        var trieIndex := BitAnd(Shr(CaseTransform(mode, c as nat), entry.continuationIndexRShift), entry.continuationIndexMask);
        DispatchInBlock(trie, |keys|, n, TChar(mode, c));
        n := entry.continuationIndex + trieIndex;
        keyIndex := keyIndex + trie[n].skipLength;
      }
      return None;
    }
  }
}
