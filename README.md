# A verified model of a read-only string trie

This project models the core of andrewjsaid/trie, a C# library that turns a
fixed set of string keys, each with a value, into a read-only lookup
structure. A lookup answers the same question as `TryGetValue` on the key
set, in one of two case modes.

- **Node array.** Each key set becomes a flat array of five-integer nodes
  (`TrieEntry`):
  - a skip length that advances the read cursor;
  - the index of a child block ("continuation index", -1 for a node without
    children);
  - a right shift and a mask that send a character to a slot of that block;
  - the index of the key that ends at the node, or -1.
- **Builder.** The analyzer builds the array recursively:
  - It scans for the first index at which a key ends or two keys differ after
    the case transform.
  - It groups the remaining keys by their transformed character at that
    index.
  - It asks the optimiser for the smallest power-of-two jump table together
    with the smallest shift in 0..5 under which no two groups collide.
  - It appends that table blank and fills one slot per group, depth first.
- **Case strategy.** Two strategies exist:
  - the case-sensitive one: the identity transform and ordinal equality;
  - the case-insensitive one: the transform `c | 32` and ordinal
    ignore-case equality.
- **Two lookup engines.** Both start with the same length reject: the
  shortest and longest key length and a 64-bit filter of lengths modulo 64.
  - The *interpreted* engine walks the array from the root and compares the
    one candidate it reaches with the query.
  - The *compiled* engine first computes every node's minimum descendant key
    length. It then emits straight-line code that guards on lengths,
    dispatches on characters and returns a key index. A final ordinal
    comparison confirms the candidate.

What is proved:

- **Builder.** For every key set the construction accepts, it yields an
  array of a well-formed shape (`TrieShape.NodeWF`). This is a semantic
  invariant: it states which keys each node stands for.
- **Optimiser.** It returns exactly the minimal table its search defines.
- **Interpreted engine.** It is exactly the finite map from keys to
  values under the strategy's equality, in both modes.
- **Main theorem.** The compiled engine never reads past the end of a query
  and is exactly the case-sensitive map. So on the same case-sensitive array
  the compiled engine and the *corrected* interpreted engine agree on every
  query (`Compiled.EnginesAgree`). The interpreted engine as written agrees
  with both for every key set except {""}, on which it misses the empty key
  (`Compiled.AsWrittenEnginesAgree`, `Compiled.EnginesDisagreeOnEmptyKey`).

Two places where the code does not do what its authors evidently meant are
logged under "## Findings". Each is modelled as written and in corrected
form.

Design notes:

- *The compiled engine is case-sensitive only.* It dispatches on the raw
  character (CompiledTrie.cs:149-156) and confirms with `string.Equals`
  (CompiledTrie.cs:242). So the model builds it from case-sensitive arrays.
  `Compiled.CompiledRejectsOtherCase` shows that a query differing from a key
  only in letter case is not found, which CompiledTests.cs:43-44 expects.
- *The case-insensitive transform.* Its guard `c >= 'a' | c <= 'z'` holds for
  every code, so the transform is `c | 32` on every character, letters or not
  (`CaseStrategy.InsensitiveIsOr32`). This is sound for dispatch, because
  ignore-case-equal strings transform alike. It is not complete: "@" and "`"
  transform alike but differ (`CaseStrategy.TransformDoesNotImplyEqual`). The
  key set must therefore be distinct *after* the transform
  (`TrieShape.KeySetOK`).
- *One builder.* Trie.cs:59-201 holds a line-for-line copy of the builder in
  TrieEntriesAnalyzer.cs. It is modelled once, as the class
  `Analyzer.TrieEntriesAnalyzer`, and both tries use it.
- *Integers.* Characters are handled by their code, as the C# `int c` does.
  Shifts, masks and the length filter are modelled on natural numbers:
  - `>>` becomes `Bits.Shr`;
  - `&` and `|` become `Bits.BitAnd` and `Bits.BitOr`;
  - `mask << 1 | 1` becomes `mask * 2 + 1`.

  All the source's values here are non-negative and below the widths it
  uses, so nothing wraps. `IntMaxValue` and `IntMinValue` are .NET's
  `int.MaxValue` and `int.MinValue`.

## Model

| member | source | states |
|---|---|---|
| CaseStrategy.CaseTransform | src/Trie/ICaseGenericSpecializedWrapper.cs:11-25 | the transform of either strategy, as written; it never lowers a code |
| CaseStrategy.InsensitiveIsOr32 | src/Trie/ICaseGenericSpecializedWrapper.cs:22-25 | the case-insensitive guard holds for every code, so the transform is `c \| 32` everywhere |
| CaseStrategy.SensitiveIsIdentity | src/Trie/ICaseGenericSpecializedWrapper.cs:14 | the case-sensitive transform is the identity |
| CaseStrategy.TransformIdempotent | src/Trie/TrieEntriesAnalyzer.cs:71 | transforming an already transformed code changes nothing, so the builder's double transform is harmless |
| CaseStrategy.TransformAscii | src/Trie/ICaseGenericSpecializedWrapper.cs:22-25 | codes below 128 stay below 128 under either transform |
| CaseStrategy.InsensitiveOnAscii | src/Trie/ICaseGenericSpecializedWrapper.cs:22-25 | on a code below 128, `c \| 32` is c when bit 0x20 is set and c + 32 otherwise |
| CaseStrategy.UpperEqualTransformEqual | src/Trie/ICaseGenericSpecializedWrapper.cs:20-28 | two characters equal ignoring case, one of them ASCII, are both ASCII and transform alike |
| CaseStrategy.StringEqualSameTransform | src/Trie/ICaseGenericSpecializedWrapper.cs:11-28 | a query equal to an ASCII key under the strategy's equality has its length and its transformed characters, so it follows that key's path |
| CaseStrategy.TransformDoesNotImplyEqual | src/Trie/ICaseGenericSpecializedWrapper.cs:20-28 | the converse fails: "@" and "`" transform alike but are not equal ignoring case |
| CaseStrategy.StringEqualReflexive | src/Trie/ICaseGenericSpecializedWrapper.cs:11-28 | both equalities are reflexive |
| CaseStrategy.StringEqualSymmetric | src/Trie/ICaseGenericSpecializedWrapper.cs:11-28 | both equalities are symmetric |
| CaseStrategy.IgnoreCaseEqual | src/Trie/ICaseGenericSpecializedWrapper.cs:28 | ordinal ignore-case equality holds of equal strings, implies equal lengths, and never pairs an ASCII character with a non-ASCII one |
| CaseStrategy.StringEqual | src/Trie/ICaseGenericSpecializedWrapper.cs:9-28 | the strategy's equality (ordinal, or ordinal ignore-case) is reflexive and in both modes implies ignore-case equality |
| CaseStrategy.Upper | src/Trie/ICaseGenericSpecializedWrapper.cs:28 | the per-character fold of ignore-case equality leaves no lower-case letter, never raises a code, and keeps ASCII and non-ASCII apart |
| CaseStrategy.Lower | src/Trie.Tests/Tests.cs:78 | lower-casing leaves no upper-case letter, never lowers a code, and does not change the ignore-case fold |
| CaseStrategy.ToLower | src/Trie.Tests/Tests.cs:78 | the lower-cased string is ignore-case equal to the original and holds no upper-case letter |
| CaseStrategy.ToUpper | src/Trie.Tests/Tests.cs:91 | the upper-cased string is ignore-case equal to the original and holds no lower-case letter |
| CaseStrategy.CaseVariants | src/Trie.Tests/Tests.cs:78-101 | a string equals its lower- and upper-cased forms ignoring case, and differs from each ordinally exactly when it has a letter of the other case |
| CaseStrategy.LegacyRejectsLowerCase | src/Trie/Trie.cs:282-283 | the older wrapper's ordinal equality rejects "one" for "One", which ignore-case equality accepts |
| TrieEntries.IsBlank | src/Trie/CompiledTrie.cs:163 | the compiled engine's blank test: a blank slot has no children |
| TrieEntries.Leaf | src/Trie/TrieEntriesAnalyzer.cs:26-35 | the single-key node: no children, not blank, result is that key |
| TrieEntries.Slot | src/Trie/TrieEntriesAnalyzer.cs:110 | `(code >> shift) & mask` is at most mask |
| TrieEntries.DispatchSlot | src/Trie/Trie.cs:239 | the slot of a transformed character is at most mask |
| TrieEntries.DispatchInBlock | src/Trie/Trie.cs:238-240 | in a well-formed array a dispatch lands on a later node inside the child block |
| TrieShape.InternalNodeWF | src/Trie/TrieEntriesAnalyzer.cs:80-96 | the conditions the builder establishes make an internal node well formed |
| TrieShape.NodeWFFrame | src/Trie/TrieEntriesAnalyzer.cs:105-111 | a node's meaning depends only on the array from its child block on, so appending tables and filling earlier slots keeps it |
| TrieShape.SlotWFFrame | src/Trie/TrieEntriesAnalyzer.cs:108-111 | a slot keeps its meaning when its entry and the later part are kept |
| TrieShape.SharePrefixSubset | src/Trie/TrieEntriesAnalyzer.cs:101-111 | a subset shares any shorter common prefix |
| TrieShape.OthersLonger | src/Trie/TrieEntriesAnalyzer.cs:80-85 | when one key ends where the common prefix ends, every other key is longer |
| TrieShape.AtMostOneEnds | src/Trie/TrieEntriesAnalyzer.cs:61-77 | at most one key of a set with a common prefix ends there |
| Grouping.Enumerate | src/Trie/TrieEntriesAnalyzer.cs:18 | `Select((k, i) => (i, k))`: one entry per key, each carrying the key stored at its index, no index twice, and the indices exactly 0..n-1 |
| Grouping.GroupKeys | src/Trie/TrieEntriesAnalyzer.cs:101 | the group keys of `GroupBy`, without duplicates |
| Grouping.GroupKeysOrder | src/Trie/TrieEntriesAnalyzer.cs:101 | the group keys come in order of first occurrence: the k-th key's first entry precedes the (k+1)-th key's, and no earlier entry has the k-th key |
| Grouping.GroupKeysMembers | src/Trie/TrieEntriesAnalyzer.cs:101 | the group keys are exactly the transformed characters at the index |
| Grouping.Group | src/Trie/TrieEntriesAnalyzer.cs:101 | one group: a subsequence of the list (its members in their original order), each with the group's transformed character |
| Grouping.GroupMembers | src/Trie/TrieEntriesAnalyzer.cs:101 | a group holds members of the list only, and every member with the group's character |
| Grouping.GroupIndexSet | src/Trie/TrieEntriesAnalyzer.cs:101 | a group's key indices are exactly the list's keys with that transformed character |
| Grouping.GroupEntriesOK | src/Trie/TrieEntriesAnalyzer.cs:101-111 | a group of a well-formed list is well formed |
| Grouping.GroupSmaller | src/Trie/TrieEntriesAnalyzer.cs:101-111 | a group is strictly smaller than its list when some key has another character, which bounds the recursion |
| Grouping.RemoveAt | src/Trie/TrieEntriesAnalyzer.cs:84 | `RemoveAt` drops one entry |
| Grouping.RemoveAtProps | src/Trie/TrieEntriesAnalyzer.cs:80-85 | removing an entry removes exactly its key index and keeps the order of the rest |
| Grouping.GroupSharePrefix | src/Trie/TrieEntriesAnalyzer.cs:101-111 | each group shares the common prefix one character further |
| Grouping.PrefixLengths | src/Trie/TrieEntriesAnalyzer.cs:64 | keys sharing a prefix are at least that long, so reading at the scan index is safe |
| Grouping.ExtendPrefix | src/Trie/TrieEntriesAnalyzer.cs:50-77 | when every key has the same transformed character at p, the common prefix extends past p |
| Grouping.GroupKeysAscii | src/Trie/TrieEntriesAnalyzer.cs:101-103 | the group keys of ASCII keys are codes below 128 that the transform fixes |
| Grouping.SameSlotSameGroup | src/Trie/TrieEntriesAnalyzer.cs:108-111 | under a collision-free table, a key selects a group's slot exactly when it has the group's character |
| Grouping.KeyInGroups | src/Trie/TrieEntriesAnalyzer.cs:101 | every key's transformed character is a group key |
| Grouping.GroupIsSlotGroup | src/Trie/TrieEntriesAnalyzer.cs:108-111 | under a collision-free table, a group is exactly the set of keys that select its slot |
| Grouping.SlotGroupTaken | src/Trie/TrieEntriesAnalyzer.cs:108-111 | every slot some key selects belongs to a group |
| Grouping.IndexSetLonger | src/Trie/TrieEntriesAnalyzer.cs:101 | the keys of a list longer than d are longer than d |
| Optimizer.GroupSlot | src/Trie/TrieEntriesAnalyzer.cs:146 | a group's slot, with the second transform, is at most mask |
| Optimizer.FirstFreeShift | src/Trie/TrieEntriesAnalyzer.cs:139-155 | the first collision-free shift from a start up to 5, or 6; every shift before it collides |
| Optimizer.LeastPow2Exp | src/Trie/TrieEntriesAnalyzer.cs:128-132 | the least power of two at least the group count |
| Optimizer.ShiftAt | src/Trie/TrieEntriesAnalyzer.cs:139-155 | the first free shift for a table of 2^k slots is at most 6 |
| Optimizer.StopExp | src/Trie/TrieEntriesAnalyzer.cs:136-163 | the table size where the outer search stops: it admits a free shift or exceeds 128 |
| Optimizer.StopExpBelow | src/Trie/TrieEntriesAnalyzer.cs:136-163 | every size the search passes over is at most 128 slots and has no free shift |
| Optimizer.StopExpStep | src/Trie/TrieEntriesAnalyzer.cs:157-163 | one doubling step of the outer search |
| Optimizer.Pow2At128 | src/Trie/TrieEntriesAnalyzer.cs:136 | the loop bound `length <= 128` is `k <= 7` |
| Optimizer.ShiftAtMask | src/Trie/TrieEntriesAnalyzer.cs:139-155 | the inner search at mask 2^k - 1 is ShiftAt k |
| Optimizer.HasConflict | src/Trie/TrieEntriesAnalyzer.cs:141-154 | the conflict test over the 128-bit table says whether two group keys share a slot |
| Optimizer.TryShifts | src/Trie/TrieEntriesAnalyzer.cs:138-155 | the inner loop ends at the first collision-free shift, or at 6 with a conflict |
| Optimizer.InitialTable | src/Trie/TrieEntriesAnalyzer.cs:124-132 | the first loop gives the least power of two holding every group and its mask |
| Optimizer.Optimal | src/Trie/TrieEntriesAnalyzer.cs:117-166 | the table the optimiser's search defines, as a function: shift in 0..6, length one more than the mask |
| Optimizer.OptimizeContinuationTable | src/Trie/TrieEntriesAnalyzer.cs:117-166 | the optimiser returns exactly `Optimal`, the table its search defines, single group included |
| Optimizer.OptimalShape | src/Trie/TrieEntriesAnalyzer.cs:117-166 | the table length is mask + 1, a power of two that holds every group |
| Optimizer.OptimalSingleGroup | src/Trie/TrieEntriesAnalyzer.cs:119-122 | one group gets the table (0, 0, 1) |
| Optimizer.OptimalMinimal | src/Trie/TrieEntriesAnalyzer.cs:117-166 | the table is minimal: every smaller size collides under every shift; within 128 slots the shift is the least free one |
| Optimizer.SetBounded | src/Trie/TrieEntriesAnalyzer.cs:135 | at most 128 distinct codes fit below 128, the size of the conflict table |
| Optimizer.DistinctCard | src/Trie/TrieEntriesAnalyzer.cs:101 | distinct group keys are as many as their set |
| Optimizer.OptimalSevenBit | src/Trie/TrieEntriesAnalyzer.cs:117-166 | for distinct transformed ASCII codes the search always succeeds: shift in 0..5, at most 128 slots, no collision |
| Analyzer.AllIndices | src/Trie/TrieEntriesAnalyzer.cs:18-19 | the root stands for exactly the key indices below the key count |
| Analyzer.RestOK | src/Trie/TrieEntriesAnalyzer.cs:80-86 | after the scan, the node's result is the key ending at the divergence index (if any), and the rest are longer, well formed and non-empty |
| Analyzer.ArenaAppendBlanks | src/Trie/TrieEntriesAnalyzer.cs:106 | appending a blank table keeps every node pointing forward |
| Analyzer.FinishNode | src/Trie/TrieEntriesAnalyzer.cs:88-96 | the returned internal node with its finished table is a well-formed node over the new array |
| Analyzer.TableFacts | src/Trie/TrieEntriesAnalyzer.cs:103 | what the builder uses of the optimiser's table |
| Analyzer.GroupNonEmpty | src/Trie/TrieEntriesAnalyzer.cs:111 | every group holds an entry |
| Analyzer.FillNewSlot | src/Trie/TrieEntriesAnalyzer.cs:110-111 | writing a group's node into its slot makes that slot well formed |
| Analyzer.KeepOldSlots | src/Trie/TrieEntriesAnalyzer.cs:108-111 | that write keeps the slots already filled and the blanks of the others |
| Analyzer.PrepareGroup | src/Trie/TrieEntriesAnalyzer.cs:111 | a group is a smaller well-formed list sharing the longer prefix, as the recursive call needs |
| Analyzer.PlaceChild | src/Trie/TrieEntriesAnalyzer.cs:108-111 | one loop iteration extends the filled slots by one group |
| Analyzer.PlaceArena | src/Trie/TrieEntriesAnalyzer.cs:111 | that write keeps every node pointing forward and the array before the table |
| Analyzer.SlotsExtend | src/Trie/TrieEntriesAnalyzer.cs:108-111 | the slots of the first g groups plus group g's slot are those of the first g + 1 |
| Analyzer.ArenaWrite | src/Trie/TrieEntriesAnalyzer.cs:111 | writing a forward-pointing node keeps the array forward-pointing |
| Analyzer.CloseTable | src/Trie/TrieEntriesAnalyzer.cs:108-114 | once every group is placed, the whole table is well formed |
| Analyzer.TrieEntriesAnalyzer.constructor | src/Trie/TrieEntriesAnalyzer.cs:9-12 | an analyzer for one case mode, with an empty array |
| Analyzer.TrieEntriesAnalyzer.Create | src/Trie/TrieEntriesAnalyzer.cs:14-22 | the array for a key set, slot 0 held by the all-zero `Placeholder` until the root overwrites it: forward-pointing, its root a well-formed node for every key |
| Analyzer.TrieEntriesAnalyzer.BuildTrieEntry | src/Trie/TrieEntriesAnalyzer.cs:24-97 | the node for a list of keys is well formed for exactly those keys; the old array is kept and extended |
| Analyzer.TrieEntriesAnalyzer.FindNextDifferentCharIndex | src/Trie/TrieEntriesAnalyzer.cs:37-78 | the scan stops at the first index where a key ends (and names it) or two keys differ, with the prefix before it shared |
| Analyzer.TrieEntriesAnalyzer.ScanColumn | src/Trie/TrieEntriesAnalyzer.cs:61-77 | the inner scan stops at the first later key that ends at the index; otherwise it reports whether any key differs there |
| Analyzer.TrieEntriesAnalyzer.BuildJumpTable | src/Trie/TrieEntriesAnalyzer.cs:99-115 | the table is the optimiser's `Optimal` table for the groups (so minimal, by OptimalMinimal), appended at the old end, with shift in 0..5 and an all-ones mask, and every slot is blank or the node of its group |
| Analyzer.TrieEntriesAnalyzer.PlaceGroup | src/Trie/TrieEntriesAnalyzer.cs:108-112 | one iteration builds a group's node and writes it into the group's slot, keeping the earlier slots |
| LengthStats.StatsOf | src/Trie/Trie.cs:43-49 | the stats of a key sequence: the maximum is non-negative, and the minimum is at most the maximum exactly when there is a key |
| LengthStats.PassesLengthCheck | src/Trie/Trie.cs:205-207 | the early length test; the stats of no keys reject every length |
| LengthStats.MaskedStats | src/Trie/Trie.cs:43-49 | the interpreted constructor's loop, bit index `L & 63`, computes StatsOf(keys) |
| LengthStats.ModuloStats | src/Trie/CompiledTrie.cs:28-33 | the compiled constructor's loop, bit index `L % 64`, computes the same StatsOf(keys) |
| Bits.LowSixBits | src/Trie/Trie.cs:48 | `L & 63` is `L % 64` |
| LengthStats.StatsCoverKeys | src/Trie/Trie.cs:43-49 | every key's length lies within the bounds and has its filter bit set |
| LengthStats.KeysPassLengthCheck | src/Trie/Trie.cs:205-207 | every key passes the length check |
| LengthStats.RejectedHasNoKeyLength | src/Trie/Trie.cs:205-211 | a rejected query has no key's length, so the early return loses nothing |
| LengthStats.FilterExact | src/Trie/Trie.cs:48 | filter bit j is set exactly when some key's length is j modulo 64 |
| LengthStats.BoundsAttained | src/Trie/Trie.cs:46-47 | with at least one key, the minimum and maximum are key lengths |
| Interpreted.Walk | src/Trie/Trie.cs:213-243 | the walk loop from a node and cursor yields -1 or a key index |
| Interpreted.StartWithinKeys | src/Trie/Trie.cs:217 | `StartIndex`, the corrected start (see Findings), is non-negative and at most every key's length; as written the start is `LookupAsWritten`'s |
| Interpreted.Lookup | src/Trie/Trie.cs:203-247 | the corrected lookup: a hit is a key equal to the query with its value; a length reject is a miss |
| Interpreted.WalkFinds | src/Trie/Trie.cs:213-243 | from any node standing for key i, a query with i's transformed characters reaches key i |
| Interpreted.WalkAtBlank | src/Trie/Trie.cs:219-236 | a walk that reaches an unused slot (TrieEntriesAnalyzer.cs:106) misses, whatever the cursor: the slot has no children, so the candidate test at :221 holds, and its result index is -1 |
| Interpreted.WalkStep | src/Trie/Trie.cs:238-242 | one iteration moves to the slot the character selects and advances the cursor by that slot's skip length |
| Interpreted.NodeEnd | src/Trie/Trie.cs:221-235 | where the walk stops for key i, the candidate is key i |
| Interpreted.StepDown | src/Trie/Trie.cs:238-240 | a query that goes on is sent to the slot whose group holds its key |
| Interpreted.LookupFinds | src/Trie/Trie.cs:203-247 | every key is found with its value, and so is every query equal to it under the strategy's equality |
| Interpreted.EqualKeyUnique | src/Trie/Trie.cs:224-231 | no query equals two keys, so a hit returns the value of the key it equals |
| Interpreted.MapLookup | src/Trie/Trie.cs:203-247 | the reference map: Some of a value exactly when some key equals the query under the strategy's equality, and then that key's value |
| Interpreted.LookupIsMap | src/Trie/Trie.cs:203-247 | the interpreted lookup is exactly the key-to-value map under the strategy's equality |
| Interpreted.MapLookupAt | src/Trie/Trie.cs:227-231 | the map gives the value of the one key the query equals |
| Interpreted.LookupAsWritten | src/Trie/Trie.cs:203-247 | the lookup as written, cursor starting at the root's skip length: a hit is still a key equal to the query |
| Interpreted.AsWrittenMissesEmptyKey | src/Trie/Trie.cs:217-219 | for the key set {""} the root is a leaf with skip length 1, and the lookup as written misses "" |
| Interpreted.AsWrittenAgrees | src/Trie/Trie.cs:217 | for every other key set, the lookup as written and the corrected one agree on every query |
| Interpreted.LegacyMissesLowerCase | src/Trie/Trie.cs:271-285 | for the key "One", the query "one" reaches the key's node, the older wrapper's comparison rejects it, and the strategy's equality finds it |
| Interpreted.InterpretedTrie.constructor | src/Trie/Trie.cs:38-57 | the trie over the keys, their values, the analyzer's array and the length stats, all well formed |
| Interpreted.InterpretedTrie.TryGetValue | src/Trie/Trie.cs:203-247 | the lookup loop, with the cursor starting at the corrected `StartIndex` (see Findings; as written: LookupAsWritten), returns exactly Lookup, which LookupIsMap ties to the map |
| Compiled.NumJumps | src/Trie/CompiledTrie.cs:211 | `1 + ((127 >> shift) & mask)` lies between 1 and the table length |
| Compiled.AsciiSlotInRange | src/Trie/CompiledTrie.cs:159-160 | every slot an ASCII character selects is below NumJumps, so the emitted branches cover every key |
| Compiled.ShrAsciiMax | src/Trie/CompiledTrie.cs:159 | `127 >> shift` is all ones |
| Compiled.MinDesc | src/Trie/CompiledTrie.cs:204-226 | what LoadAuxInfo computes for a node: non-negative and at most the length of the key ending there |
| Compiled.MinOver | src/Trie/CompiledTrie.cs:212-221 | the loop over the block's first NumJumps slots: never above its start value, and non-negative from a non-negative start |
| Compiled.MinOverBounds | src/Trie/CompiledTrie.cs:212-221 | the loop's minimum is at most every slot's value and equals the start or one of them |
| Compiled.MinDescBelow | src/Trie/CompiledTrie.cs:204-226 | a node's minimum descendant length is at most the length of each key it stands for |
| Compiled.MinDescAttained | src/Trie/CompiledTrie.cs:204-226 | and it is the length of one of them |
| Compiled.KeySlot | src/Trie/CompiledTrie.cs:159-175 | a key that goes on past a node goes to a slot below NumJumps, to its group's node |
| Compiled.SlotOf | src/Trie/CompiledTrie.cs:160-163 | each slot of the block is blank or a well-formed node for its group |
| Compiled.InternalMin | src/Trie/CompiledTrie.cs:118-131 | a node's minimum length lies between its divergence index and every key length below it |
| Compiled.AuxAgreesKept | src/Trie/CompiledTrie.cs:224 | writing correct values keeps every agreement of the table |
| Compiled.LoadAuxInfo | src/Trie/CompiledTrie.cs:204-226 | returns the node's minimum descendant length and stores it at every node it visits |
| Compiled.GetAuxInfo | src/Trie/CompiledTrie.cs:198-229 | the table agrees with MinDesc at every node the generator visits |
| Compiled.FirstMatch | src/Trie/CompiledTrie.cs:160-179 | the first emitted branch whose slot equals the jump value; none before it does |
| Compiled.Eval | src/Trie/CompiledTrie.cs:99-196 | the meaning of the emitted code: it returns -1 or an index written into the code, or reads past the end of the query |
| Compiled.EvalBelow | src/Trie/CompiledTrie.cs:99-196 | the code returns only indices it was built with |
| Compiled.Generate | src/Trie/CompiledTrie.cs:99-196 | the emitted code for a node returns -1 or a key index in every branch |
| Compiled.Branches | src/Trie/CompiledTrie.cs:159-179 | one branch per non-blank slot below NumJumps, each returning -1 or a key index |
| Compiled.BranchesFind | src/Trie/CompiledTrie.cs:159-179 | the dispatch finds slot t's code exactly when t is a non-blank slot below NumJumps |
| Compiled.Compile | src/Trie/CompiledTrie.cs:82-97 | the method body from the root, at the root's skip length, nothing checked |
| Compiled.EvalInternal | src/Trie/CompiledTrie.cs:118-192 | running an internal node's code: guard, length test, then dispatch or the single child |
| Compiled.EvalDispatch | src/Trie/CompiledTrie.cs:147-180 | the dispatch runs the selected slot's code, or returns -1 when that slot is blank or beyond NumJumps |
| Compiled.EvalContinue | src/Trie/CompiledTrie.cs:133-192 | past the guard with a character left, the code continues at the selected non-blank slot or returns -1 |
| Compiled.EvalStep | src/Trie/CompiledTrie.cs:118-192 | one node's code either stops with -1 or the node's result, or continues at a non-blank slot below NumJumps |
| Compiled.SlotChild | src/Trie/CompiledTrie.cs:160-175 | a non-blank slot below NumJumps holds a well-formed node for a subset of the keys, and the table agrees there |
| Compiled.StepSafe | src/Trie/CompiledTrie.cs:118-192 | one node's step for any query: it stops with -1 or the result, or moves to a well-formed child |
| Compiled.GenerateSafe | src/Trie/CompiledTrie.cs:99-196 | for every query, a node's code never reads past the end and returns -1 or one of the node's keys |
| Compiled.AuxChild | src/Trie/CompiledTrie.cs:212-216 | the table agrees at every slot of an agreeing node's block |
| Compiled.StepFindsEnd | src/Trie/CompiledTrie.cs:133-145 | a key that ends at a node's divergence index is returned by the length test there |
| Compiled.StepFindsDown | src/Trie/CompiledTrie.cs:147-190 | a key that goes on passes the guard and reaches its group's node |
| Compiled.GenerateFinds | src/Trie/CompiledTrie.cs:99-196 | the code of a node standing for key i returns i for the query keys[i] |
| Compiled.CompiledLookup | src/Trie/CompiledTrie.cs:231-252 | a hit is a key ordinally equal to the query with its value; a length reject is a miss |
| Compiled.CompiledNeverReadsPastEnd | src/Trie/CompiledTrie.cs:36-53 | for every query the method never indexes past the end and returns -1 or a key index |
| Compiled.CompiledFinds | src/Trie/CompiledTrie.cs:231-252 | every key is found with its value |
| Compiled.CompiledIsMap | src/Trie/CompiledTrie.cs:231-252 | the compiled lookup is exactly the case-sensitive key-to-value map |
| Compiled.EnginesAgree | src/Trie/CompiledTrie.cs:231-252 | on the same array the compiled and the corrected interpreted lookups agree on every query |
| Compiled.AsWrittenEnginesAgree | src/Trie/Trie.cs:217 | for every key set but {""} they also agree with the interpreted lookup as written |
| Compiled.EnginesDisagreeOnEmptyKey | src/Trie/CompiledTrie.cs:111-116 | for {""} the compiled engine finds "" and the interpreted lookup as written does not |
| Compiled.CompiledRejectsOtherCase | src/Trie.Tests/CompiledTests.cs:43-44 | a query differing from a key only in case is not found, though ignore-case lookup finds it |
| Compiled.CompiledTrie.constructor | src/Trie/CompiledTrie.cs:22-34 | the compiled trie over the keys, values, table and code, with the stats of its loop |
| Compiled.CompiledTrie.TryGetValue | src/Trie/CompiledTrie.cs:231-252 | the result is CompiledLookup, and equals the interpreted lookup on the same array |

## Left out

- IL emission (CompiledTrie.cs:36-97). `DynamicMethod`, the IL generator and the delegate are replaced by the `Code` tree and its evaluator `Eval`. An out-of-range `key[readIndex]` is the outcome `ReadPastEnd`, and `Compiled.CompiledNeverReadsPastEnd` shows it never happens. The trailing `return -1` after the root's code (CompiledTrie.cs:95-96) is unreachable and is not modelled.
- The assembly-saving debug path (CompiledTrie.cs:48-80) depends on a compile-time symbol and writes a file. It is not modelled.
- The dictionary that removes duplicate keys before construction (TrieFactoryExtensions.cs:11-18) is not modelled. Instead, distinct keys after the transform are a precondition (`TrieShape.KeySetOK`).
- Key sets the builder does not handle correctly are excluded by `TrieShape.KeySetOK`, and the model does not follow what the source does on them. These sets are:
  - the empty set (`entries[0]` throws);
  - two keys equal after the transform (a read past a key's end throws);
  - a key character of code 128 or above. Here the source throws nothing but can build a wrong trie, because the table search assumes 7-bit codes. For the keys {"A", "\u4041"}, whose codes agree in their low seven bits, every size up to 128 slots collides under shifts 0..5. The optimiser then returns (6, 255, 256) (TrieEntriesAnalyzer.cs:136-165), both groups get slot 1 at :110, and :111 overwrites the leaf of "A", which is then never found. The compiled engine's `127 >> shift` bound (CompiledTrie.cs:159) likewise covers only the slots of 7-bit codes;
  - a key length of `int.MaxValue` or more.

  Queries are unrestricted.
- 32-bit arithmetic: array indices, cursors and lengths are unbounded integers. No key is `int.MaxValue` long, and the only wrap-prone sum is the cursor plus a blank's skip length `int.MinValue`, which with a non-negative cursor stays in range. So the model's sums are the source's.
- CaseStrategy.IgnoreCaseEqual: folds only the ASCII letters 'a'..'z' and compares every other character exactly. `StringComparer.OrdinalIgnoreCase` folds every UTF-16 unit by the runtime's invariant upper-case table, so a query holding a non-ASCII character whose upper case is an ASCII letter (U+017F or U+0131, depending on the runtime) may compare differently in the model and in the source. Keys are ASCII; only such queries are affected.
- `TValue`'s `default` out-value and the `bool` result are folded into `Option`.
- Analyzer.TrieEntriesAnalyzer.constructor: the unused field `_ignoreCase` is not modelled; the case mode is the analyzer's `mode`.
- Compiled.CompiledTrie.constructor: requires that the node array be the analyzer's case-sensitive output for the keys (`NodeWF`). The compiled trie is built through a `ToTrie` overload with a `Compiled` option (called at CompiledTests.cs:33-36); that overload's body is not part of this model, so which array it supplies is assumed, not modelled. The C# constructor does not check this.
- Concurrency and the static shared analyzers (TrieFactoryExtensions.cs:5-7) are not modelled.
- The micro-benchmarks are not part of this model.

## Findings

| source | as written | input that shows it | evidently intended | confidence | as-written member | corrected member |
|---|---|---|---|---|---|---|
| src/Trie/Trie.cs:217 | the cursor starts at the root's skip length even when the root is the leaf of a one-key set, whose skip length is 1 | key set {""}, query "": the cursor starts at 1 > 0 and the loop never runs, so the only key is missed | a stored key is always found: start at 0 at a leaf root, as the compiled engine effectively does (it returns a leaf's result without reading) | not executed | Interpreted.AsWrittenMissesEmptyKey | Interpreted.LookupFinds |
| src/Trie/Trie.cs:283 | the ignore-case trie confirms its candidate with ordinal `string.Equals` | key set {"One"}, query "one": the walk reaches "One", and the ordinal comparison rejects it | `StringComparer.OrdinalIgnoreCase`, as in ICaseGenericSpecializedWrapper.cs:28 and as Tests.cs:86 requires | not executed | Interpreted.LegacyMissesLowerCase | Interpreted.LookupFinds |
