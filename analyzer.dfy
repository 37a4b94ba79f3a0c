/** The trie builder: a recursive construction that appends jump tables to a
    growing node array and fills their slots depth first. */
module Analyzer {
  import opened Bits
  import opened CaseStrategy
  import opened TrieEntries
  import opened Optimizer
  import opened TrieShape
  import opened Grouping

  /** Every key index below n. */
  function AllIndices(n: nat): (r: set<nat>)
    ensures forall j: nat :: j in r <==> j < n
  {
    if n == 0 then {} else AllIndices(n - 1) + {n - 1}
  }

  /** The state the scan for the next differing index ends in: the keys
      share their transformed prefix before `next`, and either the key at
      `terminal` ends at `next`, or no key ends there (terminal is -1) and two
      keys differ there. */
  ghost predicate ScanDone(mode: CaseMode, keys: seq<string>, entries: seq<Entry>, start: nat, next: int, terminal: int)
    requires |entries| >= 1
  {
    start <= next && SharePrefix(mode, keys, IndexSet(entries), next) &&
    ((terminal == -1 && LongerThan(entries, next) &&
      exists j :: 0 <= j < |entries| && TChar(mode, entries[j].key[next]) != TChar(mode, entries[0].key[next])) ||
     (0 <= terminal < |entries| && |entries[terminal].key| == next))
  }

  /** What the node keeps after the scan: the key ending at the divergence
      index, if any, is the node's result and the others go to the jump
      table. */
  lemma RestOK(mode: CaseMode, keys: seq<string>, entries: seq<Entry>, start: nat, next: nat,
               terminal: int, rest: seq<Entry>, result: int)
    requires KeySetOK(mode, keys) && EntriesOK(keys, entries) && |entries| >= 2
    requires ScanDone(mode, keys, entries, start, next, terminal)
    requires terminal == -1 ==> rest == entries && result == -1
    requires terminal != -1 ==>
      0 <= terminal < |entries| && rest == RemoveAt(entries, terminal) && result == entries[terminal].index
    ensures EntriesOK(keys, rest) && |rest| >= 1 && LongerThan(rest, next)
    ensures IndexSet(rest) == Without(IndexSet(entries), result) && IndexSet(rest) != {}
    ensures forall j :: j in IndexSet(rest) ==> j < |keys| && next < |keys[j]|
    ensures SharePrefix(mode, keys, IndexSet(rest), next)
    ensures |rest| <= |entries|
    ensures |rest| < |entries| ||
      exists i :: 0 <= i < |rest| && TChar(mode, rest[i].key[next]) != TChar(mode, rest[0].key[next])
    ensures -1 <= result < |keys|
    ensures result == -1 || (0 <= result && result as nat in IndexSet(entries) && |keys[result]| == next)
  {
    var S := IndexSet(entries);
    if terminal != -1 {
      RemoveAtProps(keys, entries, terminal);
      assert entries[terminal].index in S;
      OthersLonger(mode, keys, S, next, entries[terminal].index);
      forall j | 0 <= j < |rest| ensures next < |rest[j].key| {
        var m := if j < terminal then j else j + 1;
        assert rest[j] == entries[m];
        assert entries[m].index in S;
      }
    }
    IndexSetLonger(keys, rest, next);
    assert rest[0].index in IndexSet(rest);
    SharePrefixSubset(mode, keys, S, IndexSet(rest), next, next);
  }

  /** The arena during construction: every node after the root slot
      points forward into the array. */
  ghost predicate ArenaOK(mode: CaseMode, keys: seq<string>, trie: seq<TrieEntry>) {
    KeySetOK(mode, keys) && |trie| >= 1 &&
    forall n :: 1 <= n < |trie| ==> LocalOK(trie[n], n + 1, |trie|, |keys|)
  }

  lemma ArenaAppendBlanks(mode: CaseMode, keys: seq<string>, trie: seq<TrieEntry>, length: nat)
    requires ArenaOK(mode, keys, trie)
    ensures ArenaOK(mode, keys, trie + seq(length, _ => Blank))
  {
    var t' := trie + seq(length, _ => Blank);
    forall n | 1 <= n < |t'| ensures LocalOK(t'[n], n + 1, |t'|, |keys|) {
      if n < |trie| {
        assert t'[n] == trie[n];
      }
    }
  }

  /** What building the node e for the keys S leaves behind: the arena
      still well formed and extended past its old end, the old part kept,
      and e a well-formed node over the new arena. */
  ghost predicate Extends(mode: CaseMode, keys: seq<string>, before: seq<TrieEntry>, after: seq<TrieEntry>,
                          e: TrieEntry, S: set<nat>, ci: nat, isRoot: bool) {
    ArenaOK(mode, keys, after) && |before| <= |after| && after[..|before|] == before &&
    LocalOK(e, |before|, |after|, |keys|) && NodeWF(mode, keys, after, e, S, ci, isRoot)
  }

  /** An internal node assembled from a finished jump table. */
  lemma FinishNode(mode: CaseMode, keys: seq<string>, before: seq<TrieEntry>, after: seq<TrieEntry>,
                   e: TrieEntry, S: set<nat>, ci: nat, isRoot: bool, d: nat, rest: set<nat>)
    requires ArenaOK(mode, keys, after) && |before| <= |after| && after[..|before|] == before
    requires isRoot ==> ci == 0
    requires e.continuationIndex == |before| && d == ci + e.skipLength
    requires e.skipLength >= (if isRoot then 0 else 1)
    requires SharePrefix(mode, keys, S, d)
    requires -1 <= e.resultIndex < |keys|
    requires e.resultIndex == -1 ||
      (0 <= e.resultIndex && e.resultIndex as nat in S && |keys[e.resultIndex]| == d)
    requires rest == Without(S, e.resultIndex) && rest != {}
    requires forall j :: j in rest ==> j < |keys| && d < |keys[j]|
    requires 0 <= e.continuationIndexRShift <= 5 && AllOnes(e.continuationIndexMask)
    requires 0 <= e.continuationIndexMask && e.continuationIndex + e.continuationIndexMask + 1 <= |after|
    requires ChildrenWF(mode, keys, after, e.continuationIndex, e.continuationIndexRShift,
                        e.continuationIndexMask, rest, d)
    ensures Extends(mode, keys, before, after, e, S, ci, isRoot)
  {
    InternalNodeWF(mode, keys, after, e, S, ci, isRoot, d, rest);
  }

  /** What the optimiser guarantees for the group keys of ASCII keys. */
  lemma TableFacts(mode: CaseMode, groups: seq<nat>)
    requires |groups| >= 1 && Distinct(groups)
    requires forall i :: 0 <= i < |groups| ==> groups[i] < 128
    requires forall i :: 0 <= i < |groups| ==> CaseTransform(mode, groups[i]) == groups[i]
    ensures var t := Optimal(mode, groups);
      0 <= t.rShift <= 5 && 1 <= t.length <= 128 && t.mask == t.length - 1 &&
      AllOnes(t.mask) && CollisionFree(mode, groups, t.rShift, t.mask)
  {
    OptimalSevenBit(mode, groups);
    OptimalShape(mode, groups);
    var t := Optimal(mode, groups);
    var k :| t.length == Pow2(k);
    Pow2At128(k);
  }

  /** Every group holds at least one entry. */
  lemma GroupNonEmpty(mode: CaseMode, entries: seq<Entry>, d: nat, g: nat)
    requires LongerThan(entries, d) && g < |GroupKeys(mode, entries, d)|
    ensures |Group(mode, entries, d, GroupKeys(mode, entries, d)[g])| >= 1
  {
    var groups := GroupKeys(mode, entries, d);
    GroupKeysMembers(mode, entries, d);
    assert groups[g] in groups;
    var w :| 0 <= w < |entries| && TChar(mode, entries[w].key[d]) == groups[g];
    GroupMembers(mode, entries, d, groups[g]);
    assert entries[w] in Group(mode, entries, d, groups[g]);
  }

  /** The slots that none of the first n groups takes are blank. */
  ghost predicate BlankOutside(mode: CaseMode, trie: seq<TrieEntry>, cont: nat, groups: seq<nat>, n: nat,
                               shift: nat, mask: nat)
    requires n <= |groups| && cont + mask + 1 <= |trie|
  {
    forall t :: 0 <= t <= mask && !Taken(mode, groups, n, shift, mask, t) ==> trie[cont + t] == Blank
  }

  /** The slots of the first n groups hold the groups' nodes. */
  ghost predicate SlotsBuilt(mode: CaseMode, keys: seq<string>, trie: seq<TrieEntry>, entries: seq<Entry>, d: nat,
                             groups: seq<nat>, n: nat, shift: nat, mask: nat, cont: nat)
    requires n <= |groups| && cont + mask + 1 <= |trie|
    requires forall j :: j in IndexSet(entries) ==> j < |keys| && d < |keys[j]|
  {
    forall h :: 0 <= h < n ==>
      SlotWF(mode, keys, trie, cont, shift, mask, IndexSet(entries), d, GroupSlot(mode, groups[h], shift, mask))
  }

  /** The node written for group g makes its slot well formed. */
  lemma FillNewSlot(mode: CaseMode, keys: seq<string>, entries: seq<Entry>, d: nat, groups: seq<nat>,
                    shift: nat, mask: nat, cont: nat, g: nat,
                    built: seq<TrieEntry>, after: seq<TrieEntry>, child: TrieEntry)
    requires KeySetOK(mode, keys) && EntriesOK(keys, entries) && LongerThan(entries, d)
    requires groups == GroupKeys(mode, entries, d)
    requires CollisionFree(mode, groups, shift, mask)
    requires g < |groups|
    requires forall j :: j in IndexSet(entries) ==> j < |keys| && d < |keys[j]|
    requires cont + mask + 1 <= |built|
    requires after == built[cont + GroupSlot(mode, groups[g], shift, mask) := child]
    requires HasChildren(child) ==> cont + mask + 1 <= child.continuationIndex
    requires NodeWF(mode, keys, built, child, IndexSet(Group(mode, entries, d, groups[g])), d, false)
    ensures SlotWF(mode, keys, after, cont, shift, mask, IndexSet(entries), d, GroupSlot(mode, groups[g], shift, mask))
  {
    var offset := GroupSlot(mode, groups[g], shift, mask);
    var G := IndexSet(Group(mode, entries, d, groups[g]));
    var lo := cont + mask + 1;
    GroupIsSlotGroup(mode, keys, entries, d, shift, mask, g);
    GroupNonEmpty(mode, entries, d, g);
    assert Group(mode, entries, d, groups[g])[0].index in G;
    assert after[cont + offset] == child;
    forall i | lo <= i < |built| ensures after[i] == built[i] { }
    NodeWFFrame(mode, keys, built, after, child, G, d, false, lo);
  }

  /** Writing the node of group g into its slot keeps the slots of the
      earlier groups. */
  lemma KeepOldSlots(mode: CaseMode, keys: seq<string>, entries: seq<Entry>, d: nat, groups: seq<nat>,
                     shift: nat, mask: nat, cont: nat, g: nat,
                     before: seq<TrieEntry>, built: seq<TrieEntry>, after: seq<TrieEntry>, child: TrieEntry)
    requires LongerThan(entries, d) && groups == GroupKeys(mode, entries, d)
    requires CollisionFree(mode, groups, shift, mask)
    requires g < |groups|
    requires forall j :: j in IndexSet(entries) ==> j < |keys| && d < |keys[j]|
    requires cont + mask + 1 <= |before| <= |built|
    requires built[..|before|] == before
    requires after == built[cont + GroupSlot(mode, groups[g], shift, mask) := child]
    requires SlotsBuilt(mode, keys, before, entries, d, groups, g, shift, mask, cont)
    requires BlankOutside(mode, before, cont, groups, g, shift, mask)
    ensures SlotsBuilt(mode, keys, after, entries, d, groups, g, shift, mask, cont)
    ensures BlankOutside(mode, after, cont, groups, g + 1, shift, mask)
  {
    var S := IndexSet(entries);
    var offset := GroupSlot(mode, groups[g], shift, mask);
    var lo := cont + mask + 1;
    forall h | 0 <= h < g
      ensures SlotWF(mode, keys, after, cont, shift, mask, S, d, GroupSlot(mode, groups[h], shift, mask))
    {
      var th := GroupSlot(mode, groups[h], shift, mask);
      assert th != offset;
      assert after[cont + th] == before[cont + th];
      forall i | lo <= i < |before| ensures after[i] == before[i] { }
      assert SlotWF(mode, keys, before, cont, shift, mask, S, d, th);
      SlotWFFrame(mode, keys, before, after, cont, shift, mask, S, d, th, lo);
    }
    var n := g + 1;
    forall t | 0 <= t <= mask && !Taken(mode, groups, n, shift, mask, t)
      ensures after[cont + t] == Blank
    {
      assert forall h :: 0 <= h < n ==> GroupSlot(mode, groups[h], shift, mask) != t;
      assert !Taken(mode, groups, g, shift, mask, t);
      assert after[cont + t] == before[cont + t];
    }
  }

  /** The group for slot g is a smaller, well-formed list whose keys share
      their transformed prefix before d + 1. */
  lemma PrepareGroup(mode: CaseMode, keys: seq<string>, entries: seq<Entry>, d: nat, g: nat, bound: nat)
    requires KeySetOK(mode, keys) && EntriesOK(keys, entries) && LongerThan(entries, d)
    requires SharePrefix(mode, keys, IndexSet(entries), d)
    requires g < |GroupKeys(mode, entries, d)|
    requires |entries| <= bound
    requires |entries| < bound ||
      exists i :: 0 <= i < |entries| && TChar(mode, entries[i].key[d]) != TChar(mode, entries[0].key[d])
    ensures var group := Group(mode, entries, d, GroupKeys(mode, entries, d)[g]);
      EntriesOK(keys, group) && 1 <= |group| < bound && SharePrefix(mode, keys, IndexSet(group), d + 1)
  {
    var x := GroupKeys(mode, entries, d)[g];
    GroupEntriesOK(mode, keys, entries, d, x);
    GroupSharePrefix(mode, keys, entries, d, x);
    GroupNonEmpty(mode, entries, d, g);
    if |entries| >= bound {
      var i :| 0 <= i < |entries| && TChar(mode, entries[i].key[d]) != TChar(mode, entries[0].key[d]);
      if TChar(mode, entries[0].key[d]) != x {
        GroupSmaller(mode, entries, d, x, 0);
      } else {
        GroupSmaller(mode, entries, d, x, i);
      }
    }
  }

  /** Writing the node built for group g into its slot keeps the arena
      well formed and advances the loop's invariants by one group. */
  lemma PlaceChild(mode: CaseMode, keys: seq<string>, entries: seq<Entry>, d: nat, groups: seq<nat>,
                   shift: nat, mask: nat, cont: nat, g: nat,
                   before: seq<TrieEntry>, built: seq<TrieEntry>, after: seq<TrieEntry>, child: TrieEntry)
    requires KeySetOK(mode, keys) && EntriesOK(keys, entries) && LongerThan(entries, d)
    requires groups == GroupKeys(mode, entries, d)
    requires CollisionFree(mode, groups, shift, mask)
    requires g < |groups|
    requires forall j :: j in IndexSet(entries) ==> j < |keys| && d < |keys[j]|
    requires 1 <= cont && cont + mask + 1 <= |before| <= |built|
    requires built[..|before|] == before
    requires after == built[cont + GroupSlot(mode, groups[g], shift, mask) := child]
    requires HasChildren(child) ==> |before| <= child.continuationIndex
    requires NodeWF(mode, keys, built, child, IndexSet(Group(mode, entries, d, groups[g])), d, false)
    requires SlotsBuilt(mode, keys, before, entries, d, groups, g, shift, mask, cont)
    requires BlankOutside(mode, before, cont, groups, g, shift, mask)
    ensures SlotsBuilt(mode, keys, after, entries, d, groups, g + 1, shift, mask, cont)
    ensures BlankOutside(mode, after, cont, groups, g + 1, shift, mask)
  {
    KeepOldSlots(mode, keys, entries, d, groups, shift, mask, cont, g, before, built, after, child);
    FillNewSlot(mode, keys, entries, d, groups, shift, mask, cont, g, built, after, child);
    SlotsExtend(mode, keys, after, entries, d, groups, g, shift, mask, cont);
  }

  /** ... and keeps the arena's local conditions and everything before the
      table. */
  lemma PlaceArena(mode: CaseMode, keys: seq<string>, cont: nat, mask: nat, pos: nat,
                   before: seq<TrieEntry>, built: seq<TrieEntry>, after: seq<TrieEntry>, child: TrieEntry)
    requires 1 <= cont <= pos < cont + mask + 1 <= |before| <= |built|
    requires built[..|before|] == before
    requires after == built[pos := child]
    requires ArenaOK(mode, keys, built)
    requires LocalOK(child, |before|, |built|, |keys|)
    ensures ArenaOK(mode, keys, after)
    ensures |after| == |built| && after[..cont] == before[..cont]
  {
    ArenaWrite(mode, keys, built, pos, child);
    assert after[..cont] == built[..cont];
  }

  /** One more group's slot built. */
  lemma SlotsExtend(mode: CaseMode, keys: seq<string>, trie: seq<TrieEntry>, entries: seq<Entry>, d: nat,
                    groups: seq<nat>, g: nat, shift: nat, mask: nat, cont: nat)
    requires g < |groups| && cont + mask + 1 <= |trie|
    requires forall j :: j in IndexSet(entries) ==> j < |keys| && d < |keys[j]|
    requires SlotsBuilt(mode, keys, trie, entries, d, groups, g, shift, mask, cont)
    requires GroupSlot(mode, groups[g], shift, mask) <= mask
    requires SlotWF(mode, keys, trie, cont, shift, mask, IndexSet(entries), d, GroupSlot(mode, groups[g], shift, mask))
    ensures SlotsBuilt(mode, keys, trie, entries, d, groups, g + 1, shift, mask, cont)
  {
  }

  /** Writing a node whose block lies after its position keeps the arena's
      local conditions. */
  lemma ArenaWrite(mode: CaseMode, keys: seq<string>, trie: seq<TrieEntry>, pos: nat, e: TrieEntry)
    requires ArenaOK(mode, keys, trie) && 1 <= pos < |trie|
    requires LocalOK(e, pos + 1, |trie|, |keys|)
    ensures ArenaOK(mode, keys, trie[pos := e])
  {
    var after := trie[pos := e];
    forall n | 1 <= n < |after| ensures LocalOK(after[n], n + 1, |after|, |keys|) {
      if n != pos {
        assert after[n] == trie[n];
      }
    }
  }

  /** Once every group is placed, the whole table is well formed. */
  lemma CloseTable(mode: CaseMode, keys: seq<string>, entries: seq<Entry>, d: nat, groups: seq<nat>,
                   shift: nat, mask: nat, cont: nat, trie: seq<TrieEntry>, n: nat)
    requires EntriesOK(keys, entries) && LongerThan(entries, d)
    requires groups == GroupKeys(mode, entries, d) && n == |groups|
    requires forall j :: j in IndexSet(entries) ==> j < |keys| && d < |keys[j]|
    requires cont + mask + 1 <= |trie|
    requires BlankOutside(mode, trie, cont, groups, n, shift, mask)
    requires SlotsBuilt(mode, keys, trie, entries, d, groups, n, shift, mask, cont)
    ensures ChildrenWF(mode, keys, trie, cont, shift, mask, IndexSet(entries), d)
  {
    forall t | 0 <= t <= mask
      ensures SlotWF(mode, keys, trie, cont, shift, mask, IndexSet(entries), d, t)
    {
      SlotGroupTaken(mode, keys, entries, d, shift, mask, t);
      if Taken(mode, groups, |groups|, shift, mask, t) {
        var h :| 0 <= h < |groups| && GroupSlot(mode, groups[h], shift, mask) == t;
        assert SlotWF(mode, keys, trie, cont, shift, mask, IndexSet(entries), d, GroupSlot(mode, groups[h], shift, mask));
      }
    }
  }

  class TrieEntriesAnalyzer {
    /** The case strategy the analyzer is specialised for. */
    const mode: CaseMode
    /** The node array under construction. */
    var trie: seq<TrieEntry>
    /** The key set of the current construction. */
    ghost var keys: seq<string>

    constructor (mode: CaseMode)
      ensures this.mode == mode && trie == [] && keys == []
    {
      this.mode := mode;
      trie := [];
      keys := [];
    }

    /** Every node after the root slot points forward into the array. */
    ghost predicate Valid()
      reads this
    {
      ArenaOK(mode, keys, trie)
    }

    /** Builds the node array for `keys`: slot 0 is the root, standing for
        every key. */
    method Create(keys: seq<string>) returns (result: seq<TrieEntry>)
      requires KeySetOK(mode, keys)
      modifies this
      ensures this.keys == keys && trie == result
      ensures StructWF(result, |keys|)
      ensures NodeWF(mode, keys, result, result[0], AllIndices(|keys|), 0, true)
    {
      this.keys := keys;
      trie := [Placeholder];
      var entries := Enumerate(keys);
      assert IndexSet(entries) == AllIndices(|keys|);
      var root := BuildTrieEntry(entries, 0, true);
      ghost var built := trie;
      trie := trie[0 := root];
      NodeWFFrame(mode, keys, built, trie, root, AllIndices(|keys|), 0, true, 1);
      result := trie;
    }

    /** The node for `entries`, whose keys share their transformed prefix
        before comparisonIndex + 1 (before 0 at the root); its jump tables
        are appended to the array. */
    method BuildTrieEntry(entries: seq<Entry>, comparisonIndex: nat, isRoot: bool) returns (e: TrieEntry)
      requires Valid() && EntriesOK(keys, entries) && |entries| >= 1
      requires isRoot ==> comparisonIndex == 0
      requires SharePrefix(mode, keys, IndexSet(entries), if isRoot then 0 else comparisonIndex + 1)
      modifies this
      decreases |entries|, 2
      ensures keys == old(keys)
      ensures Extends(mode, keys, old(trie), trie, e, IndexSet(entries), comparisonIndex, isRoot)
    {
      if |entries| == 1 {
        assert IndexSet(entries) == {entries[0].index};
        return Leaf(entries[0].index);
      }
      ghost var S := IndexSet(entries);
      var nextDifferentCharIndex, terminalEntryIndex := FindNextDifferentCharIndex(entries, comparisonIndex, isRoot);
      var next: nat := nextDifferentCharIndex;

      var nodeResultIndex: int := -1;
      var rest := entries;
      if terminalEntryIndex > -1 {
        nodeResultIndex := entries[terminalEntryIndex].index;
        rest := RemoveAt(entries, terminalEntryIndex);
      }
      var skipLength := nextDifferentCharIndex - comparisonIndex;
      RestOK(mode, keys, entries, if isRoot then 0 else comparisonIndex + 1, next,
             terminalEntryIndex, rest, nodeResultIndex);
      ghost var size := |trie|;

      var cntIndex, cntRShift, cntMask := BuildJumpTable(rest, next, |entries|);

      e := TrieEntry(skipLength, cntIndex, cntRShift, cntMask, nodeResultIndex);
      FinishNode(mode, keys, old(trie), trie, e, S, comparisonIndex, isRoot, next, IndexSet(rest));
    }

    /** The scan for the first index, from comparisonIndex + 1 (from 0 at
        the root), at which a key ends or two keys differ after the
        transform; `terminalEntryIndex` is the position of the key that ends
        there, or -1. */
    method FindNextDifferentCharIndex(entries: seq<Entry>, comparisonIndex: nat, isRoot: bool)
      returns (nextDifferentCharIndex: int, terminalEntryIndex: int)
      requires KeySetOK(mode, keys) && EntriesOK(keys, entries) && |entries| >= 2
      requires isRoot ==> comparisonIndex == 0
      requires SharePrefix(mode, keys, IndexSet(entries), if isRoot then 0 else comparisonIndex + 1)
      ensures ScanDone(mode, keys, entries, if isRoot then 0 else comparisonIndex + 1,
                       nextDifferentCharIndex, terminalEntryIndex)
    {
      ghost var S := IndexSet(entries);
      ghost var start: nat := if isRoot then 0 else comparisonIndex + 1;
      assert entries[0].index in S;

      nextDifferentCharIndex := comparisonIndex;
      if isRoot {
        nextDifferentCharIndex := nextDifferentCharIndex - 1;
      }
      terminalEntryIndex := -1;
      var foundNextDifferentCharIndex := false;
      while !foundNextDifferentCharIndex
        invariant start - 1 <= nextDifferentCharIndex
        invariant !foundNextDifferentCharIndex ==>
          terminalEntryIndex == -1 && SharePrefix(mode, keys, S, nextDifferentCharIndex + 1)
        invariant foundNextDifferentCharIndex ==>
          ScanDone(mode, keys, entries, start, nextDifferentCharIndex, terminalEntryIndex)
        decreases |entries[0].key| - nextDifferentCharIndex
      {
        nextDifferentCharIndex := nextDifferentCharIndex + 1;
        if |entries[0].key| == nextDifferentCharIndex {
          terminalEntryIndex := 0;
          break;
        }
        var c := TChar(mode, entries[0].key[nextDifferentCharIndex]);
        PrefixLengths(mode, keys, entries, nextDifferentCharIndex);
        foundNextDifferentCharIndex, terminalEntryIndex := ScanColumn(entries, nextDifferentCharIndex, c);
        if !foundNextDifferentCharIndex {
          ExtendPrefix(mode, keys, entries, nextDifferentCharIndex, c);
        }
      }
    }

    /** The inner scan at one index: it stops at the first later entry whose
        key ends there, and otherwise notes whether any key's transformed
        character there differs from c, the first key's. */
    method ScanColumn(entries: seq<Entry>, index: nat, c: nat) returns (found: bool, terminal: int)
      requires |entries| >= 1 && index < |entries[0].key| && c == TChar(mode, entries[0].key[index])
      requires forall j :: 0 <= j < |entries| ==> index <= |entries[j].key|
      ensures terminal != -1 ==> found && 1 <= terminal < |entries| && |entries[terminal].key| == index
      ensures terminal == -1 ==>
        LongerThan(entries, index) &&
        (found <==> exists j :: 0 <= j < |entries| && TChar(mode, entries[j].key[index]) != c)
    {
      TransformIdempotent(mode, entries[0].key[index] as nat);
      found, terminal := false, -1;
      var i := 1;
      while i < |entries|
        invariant 1 <= i <= |entries| && terminal == -1
        invariant forall j :: 0 <= j < i ==> index < |entries[j].key|
        invariant found <==> exists j :: 0 <= j < i && TChar(mode, entries[j].key[index]) != c
      {
        var entryKey := entries[i].key;
        if index == |entryKey| {
          terminal := i;
          found := true;
          break;
        }
        if CaseTransform(mode, entryKey[index] as nat) != CaseTransform(mode, c) {
          // There's variation at this index
          found := true;
        }
        i := i + 1;
      }
    }

    /** The jump table for `entries`, whose keys share their transformed
        prefix before comparisonIndex and are all longer: appended blank, one
        slot per group filled with the group's node. */
    method BuildJumpTable(entries: seq<Entry>, comparisonIndex: nat, ghost bound: nat)
      returns (cntIndex: int, cntRShift: int, cntMask: int)
      requires Valid() && EntriesOK(keys, entries) && |entries| >= 1
      requires LongerThan(entries, comparisonIndex)
      requires forall j :: j in IndexSet(entries) ==> j < |keys| && comparisonIndex < |keys[j]|
      requires SharePrefix(mode, keys, IndexSet(entries), comparisonIndex)
      requires |entries| <= bound
      requires |entries| < bound ||
        exists i :: 0 <= i < |entries| &&
          TChar(mode, entries[i].key[comparisonIndex]) != TChar(mode, entries[0].key[comparisonIndex])
      modifies this
      decreases bound, 1
      ensures Valid() && keys == old(keys)
      ensures old(|trie|) <= |trie| && trie[..old(|trie|)] == old(trie)
      ensures var t := Optimal(mode, GroupKeys(mode, entries, comparisonIndex));
        cntRShift == t.rShift && cntMask == t.mask
      ensures cntIndex == old(|trie|) && 0 <= cntRShift <= 5 && 0 <= cntMask && AllOnes(cntMask)
      ensures cntIndex + cntMask + 1 <= |trie|
      ensures ChildrenWF(mode, keys, trie, cntIndex, cntRShift, cntMask, IndexSet(entries), comparisonIndex)
    {
      ghost var S := IndexSet(entries);
      var groups := GroupKeys(mode, entries, comparisonIndex);
      GroupKeysAscii(mode, keys, entries, comparisonIndex);
      var cntLength;
      cntRShift, cntMask, cntLength := OptimizeContinuationTable(mode, groups);
      TableFacts(mode, groups);

      cntIndex := |trie|;
      ArenaAppendBlanks(mode, keys, trie, cntLength);
      trie := trie + seq(cntLength, _ => Blank);
      ghost var blockEnd := cntIndex + cntLength;

      var g := 0;
      while g < |groups|
        invariant 0 <= g <= |groups|
        invariant Valid() && keys == old(keys)
        invariant blockEnd <= |trie| && trie[..old(|trie|)] == old(trie)
        invariant BlankOutside(mode, trie, cntIndex, groups, g, cntRShift, cntMask)
        invariant SlotsBuilt(mode, keys, trie, entries, comparisonIndex, groups, g, cntRShift, cntMask, cntIndex)
      {
        PlaceGroup(entries, comparisonIndex, groups, cntRShift, cntMask, cntIndex, g, bound);
        g := g + 1;
      }
      CloseTable(mode, keys, entries, comparisonIndex, groups, cntRShift, cntMask, cntIndex, trie, g);
    }

    /** One iteration of the jump-table loop: builds the node for group g
        and writes it into the slot the group's character selects. */
    method PlaceGroup(entries: seq<Entry>, d: nat, groups: seq<nat>, shift: nat, mask: nat,
                      cont: nat, g: nat, ghost bound: nat)
      requires Valid() && EntriesOK(keys, entries) && LongerThan(entries, d)
      requires forall j :: j in IndexSet(entries) ==> j < |keys| && d < |keys[j]|
      requires SharePrefix(mode, keys, IndexSet(entries), d)
      requires |entries| <= bound
      requires |entries| < bound ||
        exists i :: 0 <= i < |entries| && TChar(mode, entries[i].key[d]) != TChar(mode, entries[0].key[d])
      requires groups == GroupKeys(mode, entries, d) && g < |groups|
      requires CollisionFree(mode, groups, shift, mask)
      requires 1 <= cont && cont + mask + 1 <= |trie|
      requires BlankOutside(mode, trie, cont, groups, g, shift, mask)
      requires SlotsBuilt(mode, keys, trie, entries, d, groups, g, shift, mask, cont)
      modifies this
      decreases bound, 0
      ensures Valid() && keys == old(keys)
      ensures old(|trie|) <= |trie| && trie[..cont] == old(trie[..cont])
      ensures BlankOutside(mode, trie, cont, groups, g + 1, shift, mask)
      ensures SlotsBuilt(mode, keys, trie, entries, d, groups, g + 1, shift, mask, cont)
    {
      var offset := GroupSlot(mode, groups[g], shift, mask);
      var group := Group(mode, entries, d, groups[g]);
      PrepareGroup(mode, keys, entries, d, g, bound);
      ghost var before := trie;
      var child := BuildTrieEntry(group, d, false);
      ghost var built := trie;
      trie := trie[cont + offset := child];
      PlaceChild(mode, keys, entries, d, groups, shift, mask, cont, g, before, built, trie, child);
      PlaceArena(mode, keys, cont, mask, cont + offset, before, built, trie, child);
    }
  }
}
