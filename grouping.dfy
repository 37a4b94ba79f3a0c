/** The (index, key) lists the builder works on, and the LINQ steps it
    applies to them: grouping by the transformed character at an index, and
    removing the entry of the key that ends at a node. */
module Grouping {
  import opened Bits
  import opened CaseStrategy
  import opened TrieEntries
  import opened Optimizer
  import opened TrieShape

  /** One `(index, key)` pair. */
  datatype Entry = Entry(index: nat, key: string)

  /** The key indices a list of entries stands for. */
  function IndexSet(entries: seq<Entry>): set<nat> {
    set j | 0 <= j < |entries| :: entries[j].index
  }

  /** Each entry carries the key stored at its index, and no index occurs
      twice. */
  ghost predicate EntriesOK(keys: seq<string>, entries: seq<Entry>) {
    (forall j :: 0 <= j < |entries| ==> entries[j].index < |keys| && keys[entries[j].index] == entries[j].key) &&
    (forall i, j :: 0 <= i < j < |entries| ==> entries[i].index != entries[j].index)
  }

  /** `keys.Select((k, i) => (i, k))`: a well-formed list standing for every
      key index, one entry per key. */
  function Enumerate(keys: seq<string>): (r: seq<Entry>)
    ensures |r| == |keys| && EntriesOK(keys, r)
    ensures forall j: nat :: j in IndexSet(r) <==> j < |keys|
  {
    var r := seq(|keys|, i requires 0 <= i < |keys| => Entry(i, keys[i]));
    assert forall m :: 0 <= m < |r| ==> r[m].index == m;
    assert forall j: nat :: j < |keys| ==> j in IndexSet(r) by {
      forall j: nat | j < |keys| ensures j in IndexSet(r) {
        assert r[j].index == j;
      }
    }
    assert forall j: nat :: j in IndexSet(r) ==> j < |keys|;
    r
  }

  /** a is a subsequence of b: b with some entries dropped, the rest in their
      order. */
  ghost predicate Subsequence(a: seq<Entry>, b: seq<Entry>)
    decreases |b|
  {
    a == [] || (b != [] && ((a[0] == b[0] && Subsequence(a[1..], b[1..])) || Subsequence(a, b[1..])))
  }

  /** Every key of the list is longer than d. */
  predicate LongerThan(entries: seq<Entry>, d: nat) {
    forall j :: 0 <= j < |entries| ==> d < |entries[j].key|
  }

  /** The keys of `GroupBy(e => T(e.key[d]))`: each transformed character
      once, in order of first occurrence (GroupKeysOrder). */
  function GroupKeys(mode: CaseMode, entries: seq<Entry>, d: nat): (r: seq<nat>)
    requires LongerThan(entries, d)
    ensures Distinct(r)
  {
    if entries == [] then []
    else
      var p := GroupKeys(mode, entries[..|entries| - 1], d);
      var c := TChar(mode, entries[|entries| - 1].key[d]);
      if c in p then p else p + [c]
  }

  /** The group keys are exactly the transformed characters at d. */
  lemma {:induction false} GroupKeysMembers(mode: CaseMode, entries: seq<Entry>, d: nat)
    requires LongerThan(entries, d)
    ensures var r := GroupKeys(mode, entries, d);
      (forall j :: 0 <= j < |entries| ==> TChar(mode, entries[j].key[d]) in r) &&
      (forall x :: x in r ==> exists j :: 0 <= j < |entries| && TChar(mode, entries[j].key[d]) == x)
  {
    if entries != [] {
      var init := entries[..|entries| - 1];
      assert forall j :: 0 <= j < |init| ==> init[j] == entries[j];
      GroupKeysMembers(mode, init, d);
    }
  }

  /** w holds the first occurrences of the characters r in the column d of
      entries: w[k] is the first entry whose character is r[k], and the w[k]
      increase. */
  ghost predicate FirstOccurrences(mode: CaseMode, entries: seq<Entry>, d: nat, r: seq<nat>, w: seq<nat>)
    requires LongerThan(entries, d)
  {
    |w| == |r| &&
    (forall k :: 0 <= k < |r| ==> w[k] < |entries| && TChar(mode, entries[w[k]].key[d]) == r[k]) &&
    (forall k, j :: 0 <= k < |r| && 0 <= j < w[k] ==> TChar(mode, entries[j].key[d]) != r[k]) &&
    (forall k, l :: 0 <= k < l < |r| ==> w[k] < w[l])
  }

  /** GroupKeys lists the characters in order of first occurrence. */
  lemma {:induction false} GroupKeysOrder(mode: CaseMode, entries: seq<Entry>, d: nat) returns (w: seq<nat>)
    requires LongerThan(entries, d)
    ensures FirstOccurrences(mode, entries, d, GroupKeys(mode, entries, d), w)
  {
    if entries == [] {
      w := [];
    } else {
      var init := entries[..|entries| - 1];
      var w' := GroupKeysOrder(mode, init, d);
      var p := GroupKeys(mode, init, d);
      if TChar(mode, entries[|entries| - 1].key[d]) in p {
        OccurrencesExtend(mode, entries, d, p, w');
        w := w';
      } else {
        GroupKeysMembers(mode, init, d);
        assert forall j :: 0 <= j < |init| ==> init[j] == entries[j];
        OccurrencesAppend(mode, entries, d, p, w');
        w := w' + [|entries| - 1];
      }
    }
  }

  /** First occurrences in all but the last entry stay first occurrences. */
  lemma OccurrencesExtend(mode: CaseMode, entries: seq<Entry>, d: nat, p: seq<nat>, w: seq<nat>)
    requires LongerThan(entries, d) && entries != []
    requires FirstOccurrences(mode, entries[..|entries| - 1], d, p, w)
    ensures FirstOccurrences(mode, entries, d, p, w)
  {
    var init := entries[..|entries| - 1];
    assert forall j :: 0 <= j < |init| ==> init[j] == entries[j];
  }

  /** A last entry with a new character is that character's first
      occurrence. */
  lemma OccurrencesAppend(mode: CaseMode, entries: seq<Entry>, d: nat, p: seq<nat>, w: seq<nat>)
    requires LongerThan(entries, d) && entries != []
    requires FirstOccurrences(mode, entries[..|entries| - 1], d, p, w)
    requires forall j :: 0 <= j < |entries| - 1 ==> TChar(mode, entries[j].key[d]) in p
    requires TChar(mode, entries[|entries| - 1].key[d]) !in p
    ensures FirstOccurrences(mode, entries, d, p + [TChar(mode, entries[|entries| - 1].key[d])], w + [|entries| - 1])
  {
    var init := entries[..|entries| - 1];
    assert forall j :: 0 <= j < |init| ==> init[j] == entries[j];
    OccurrencesExtend(mode, entries, d, p, w);
  }

  /** The members of the group with key x, in their original order: a
      subsequence of the list, each member with character x at d. */
  function Group(mode: CaseMode, entries: seq<Entry>, d: nat, x: nat): (r: seq<Entry>)
    requires LongerThan(entries, d)
    ensures |r| <= |entries|
    ensures Subsequence(r, entries)
    ensures LongerThan(r, d)
    ensures forall j :: 0 <= j < |r| ==> TChar(mode, r[j].key[d]) == x
  {
    if entries == [] then []
    else
      var rest := Group(mode, entries[1..], d, x);
      if TChar(mode, entries[0].key[d]) == x then [entries[0]] + rest else rest
  }

  /** A group holds members of the list only, and every member of the list
      with the group's character. */
  lemma {:induction false} GroupMembers(mode: CaseMode, entries: seq<Entry>, d: nat, x: nat)
    requires LongerThan(entries, d)
    ensures var r := Group(mode, entries, d, x);
      (forall j :: 0 <= j < |r| ==> r[j] in entries) &&
      (forall j :: 0 <= j < |entries| && TChar(mode, entries[j].key[d]) == x ==> entries[j] in r)
  {
    if entries != [] {
      var tail := entries[1..];
      GroupMembers(mode, tail, d, x);
      var rest := Group(mode, tail, d, x);
      forall j | 0 <= j < |rest| ensures rest[j] in entries {
        var k :| 0 <= k < |tail| && tail[k] == rest[j];
        assert entries[k + 1] == rest[j];
      }
      forall j | 1 <= j < |entries| ensures entries[j] == tail[j - 1] { }
    }
  }

  /** `entries.RemoveAt(t)` */
  function RemoveAt(entries: seq<Entry>, t: nat): (r: seq<Entry>)
    requires t < |entries|
    ensures |r| == |entries| - 1
  {
    entries[..t] + entries[t + 1..]
  }

  /** A group of a well-formed list is well formed. */
  lemma {:induction false} GroupEntriesOK(mode: CaseMode, keys: seq<string>, entries: seq<Entry>, d: nat, x: nat)
    requires EntriesOK(keys, entries) && LongerThan(entries, d)
    ensures EntriesOK(keys, Group(mode, entries, d, x))
  {
    if entries != [] {
      var tail := entries[1..];
      EntriesOKTail(keys, entries);
      assert LongerThan(tail, d);
      GroupEntriesOK(mode, keys, tail, d, x);
      var rest := Group(mode, tail, d, x);
      GroupMembers(mode, tail, d, x);
      if TChar(mode, entries[0].key[d]) == x {
        forall j | 0 <= j < |rest| ensures rest[j].index != entries[0].index {
          assert rest[j] in tail;
          var k :| 0 <= k < |tail| && tail[k] == rest[j];
          assert entries[k + 1] == rest[j];
        }
        EntriesOKCons(keys, entries[0], rest);
      }
    }
  }

  lemma EntriesOKTail(keys: seq<string>, entries: seq<Entry>)
    requires EntriesOK(keys, entries) && entries != []
    ensures EntriesOK(keys, entries[1..])
  {
    var tail := entries[1..];
    forall i | 0 <= i < |tail|
      ensures tail[i].index < |keys| && keys[tail[i].index] == tail[i].key
    {
      assert tail[i] == entries[i + 1];
    }
    forall i, j | 0 <= i < j < |tail| ensures tail[i].index != tail[j].index {
      assert tail[i] == entries[i + 1] && tail[j] == entries[j + 1];
    }
  }

  lemma EntriesOKCons(keys: seq<string>, e: Entry, rest: seq<Entry>)
    requires EntriesOK(keys, rest) && e.index < |keys| && keys[e.index] == e.key
    requires forall j :: 0 <= j < |rest| ==> rest[j].index != e.index
    ensures EntriesOK(keys, [e] + rest)
  {
    var r := [e] + rest;
    forall i, j | 0 <= i < j < |r| ensures r[i].index != r[j].index {
      assert r[j] == rest[j - 1];
      if i > 0 {
        assert r[i] == rest[i - 1];
      }
    }
  }

  /** A group holds exactly the keys of the list whose transformed character
      at d is its key. */
  lemma GroupIndexSet(mode: CaseMode, keys: seq<string>, entries: seq<Entry>, d: nat, x: nat)
    requires EntriesOK(keys, entries) && LongerThan(entries, d)
    ensures IndexSet(Group(mode, entries, d, x)) ==
            set j | j in IndexSet(entries) && TChar(mode, keys[j][d]) == x
  {
    var g := Group(mode, entries, d, x);
    GroupMembers(mode, entries, d, x);
    forall j | j in IndexSet(g)
      ensures j in IndexSet(entries) && TChar(mode, keys[j][d]) == x
    {
      var k :| 0 <= k < |g| && g[k].index == j;
      assert g[k] in entries;
      var m :| 0 <= m < |entries| && entries[m] == g[k];
    }
    forall j | j in IndexSet(entries) && TChar(mode, keys[j][d]) == x
      ensures j in IndexSet(g)
    {
      var m :| 0 <= m < |entries| && entries[m].index == j;
      assert entries[m] in g;
      var k :| 0 <= k < |g| && g[k] == entries[m];
    }
  }

  /** A group is strictly smaller than the list when some member has another
      character at d. */
  lemma {:induction false} GroupSmaller(mode: CaseMode, entries: seq<Entry>, d: nat, x: nat, w: nat)
    requires LongerThan(entries, d)
    requires w < |entries| && TChar(mode, entries[w].key[d]) != x
    ensures |Group(mode, entries, d, x)| < |entries|
  {
    if w > 0 {
      assert entries[1..][w - 1] == entries[w];
      GroupSmaller(mode, entries[1..], d, x, w - 1);
    }
  }

  /** Removing one entry removes exactly its index. */
  lemma RemoveAtProps(keys: seq<string>, entries: seq<Entry>, t: nat)
    requires EntriesOK(keys, entries) && t < |entries|
    ensures EntriesOK(keys, RemoveAt(entries, t))
    ensures IndexSet(RemoveAt(entries, t)) == IndexSet(entries) - {entries[t].index}
    ensures forall j :: 0 <= j < |RemoveAt(entries, t)| ==>
      RemoveAt(entries, t)[j] == entries[if j < t then j else j + 1]
  {
    var r := RemoveAt(entries, t);
    assert forall j :: 0 <= j < |r| ==> r[j] == entries[if j < t then j else j + 1];
    forall j | j in IndexSet(entries) - {entries[t].index} ensures j in IndexSet(r) {
      var m :| 0 <= m < |entries| && entries[m].index == j;
      assert r[if m < t then m else m - 1] == entries[m];
    }
  }

  /** The keys of a list with a common transformed prefix before d, grouped at
      d: each group shares the prefix before d + 1. */
  lemma GroupSharePrefix(mode: CaseMode, keys: seq<string>, entries: seq<Entry>, d: nat, x: nat)
    requires EntriesOK(keys, entries) && LongerThan(entries, d)
    requires SharePrefix(mode, keys, IndexSet(entries), d)
    ensures SharePrefix(mode, keys, IndexSet(Group(mode, entries, d, x)), d + 1)
  {
    GroupIndexSet(mode, keys, entries, d, x);
    forall j | j in IndexSet(entries) ensures d < |keys[j]| {
      var m :| 0 <= m < |entries| && entries[m].index == j;
    }
  }

  /** Keys sharing a prefix of length p are at least p long. */
  lemma PrefixLengths(mode: CaseMode, keys: seq<string>, entries: seq<Entry>, p: nat)
    requires EntriesOK(keys, entries) && SharePrefix(mode, keys, IndexSet(entries), p)
    ensures forall j :: 0 <= j < |entries| ==> p <= |entries[j].key|
  {
    forall j | 0 <= j < |entries| ensures p <= |entries[j].key| {
      assert entries[j].index in IndexSet(entries);
    }
  }

  /** Extending the common prefix by a character every key has. */
  lemma ExtendPrefix(mode: CaseMode, keys: seq<string>, entries: seq<Entry>, p: nat, c: nat)
    requires EntriesOK(keys, entries) && SharePrefix(mode, keys, IndexSet(entries), p)
    requires forall j :: 0 <= j < |entries| ==> p < |entries[j].key| && TChar(mode, entries[j].key[p]) == c
    ensures SharePrefix(mode, keys, IndexSet(entries), p + 1)
  {
    forall j | j in IndexSet(entries) ensures p < |keys[j]| && TChar(mode, keys[j][p]) == c {
      var m :| 0 <= m < |entries| && entries[m].index == j;
    }
  }

  /** The group keys of ASCII keys are transformed codes below 128, each
      fixed by the transform. */
  lemma GroupKeysAscii(mode: CaseMode, keys: seq<string>, entries: seq<Entry>, d: nat)
    requires KeySetOK(mode, keys) && EntriesOK(keys, entries) && LongerThan(entries, d)
    ensures var g := GroupKeys(mode, entries, d);
      (|entries| >= 1 ==> |g| >= 1) &&
      (forall i :: 0 <= i < |g| ==> g[i] < 128) &&
      (forall i :: 0 <= i < |g| ==> CaseTransform(mode, g[i]) == g[i])
  {
    var g := GroupKeys(mode, entries, d);
    GroupKeysMembers(mode, entries, d);
    if |entries| >= 1 {
      assert TChar(mode, entries[0].key[d]) in g;
    }
    forall i | 0 <= i < |g| ensures g[i] < 128 && CaseTransform(mode, g[i]) == g[i] {
      assert g[i] in g;
      var j :| 0 <= j < |entries| && TChar(mode, entries[j].key[d]) == g[i];
      var idx := entries[j].index;
      assert IsAscii(keys[idx]);
      TransformAscii(mode, entries[j].key[d] as nat);
      TransformIdempotent(mode, entries[j].key[d] as nat);
    }
  }

  /** Under a collision-free table, a key selects the slot of group h
      exactly when its transformed character is that group's. */
  lemma SameSlotSameGroup(mode: CaseMode, keys: seq<string>, entries: seq<Entry>, d: nat,
                          shift: nat, mask: nat, h: nat, j: nat)
    requires EntriesOK(keys, entries) && LongerThan(entries, d)
    requires CollisionFree(mode, GroupKeys(mode, entries, d), shift, mask)
    requires h < |GroupKeys(mode, entries, d)| && j in IndexSet(entries)
    ensures j < |keys| && d < |keys[j]|
    ensures var groups := GroupKeys(mode, entries, d);
      (TChar(mode, keys[j][d]) == groups[h]) ==
      (DispatchSlot(mode, keys[j][d], shift, mask) == GroupSlot(mode, groups[h], shift, mask))
  {
    var groups := GroupKeys(mode, entries, d);
    var h' := KeyInGroups(mode, keys, entries, d, j);
    TransformIdempotent(mode, keys[j][d] as nat);
    assert DispatchSlot(mode, keys[j][d], shift, mask) == GroupSlot(mode, groups[h'], shift, mask);
    if h' < h {
      assert GroupSlot(mode, groups[h'], shift, mask) != GroupSlot(mode, groups[h], shift, mask);
    } else if h < h' {
      assert GroupSlot(mode, groups[h], shift, mask) != GroupSlot(mode, groups[h'], shift, mask);
    }
  }

  /** The transformed character of every key of the list at d is one of
      the group keys. */
  lemma KeyInGroups(mode: CaseMode, keys: seq<string>, entries: seq<Entry>, d: nat, j: nat) returns (h: nat)
    requires EntriesOK(keys, entries) && LongerThan(entries, d) && j in IndexSet(entries)
    ensures j < |keys| && d < |keys[j]|
    ensures h < |GroupKeys(mode, entries, d)| && GroupKeys(mode, entries, d)[h] == TChar(mode, keys[j][d])
  {
    var groups := GroupKeys(mode, entries, d);
    var m :| 0 <= m < |entries| && entries[m].index == j;
    GroupKeysMembers(mode, entries, d);
    assert entries[m].key == keys[j];
    assert TChar(mode, entries[m].key[d]) in groups;
    h :| 0 <= h < |groups| && groups[h] == TChar(mode, keys[j][d]);
  }

  /** Under a collision-free table, the group at index h holds exactly the
      keys whose character selects the group's slot. */
  lemma GroupIsSlotGroup(mode: CaseMode, keys: seq<string>, entries: seq<Entry>, d: nat,
                         shift: nat, mask: nat, h: nat)
    requires KeySetOK(mode, keys) && EntriesOK(keys, entries) && LongerThan(entries, d)
    requires CollisionFree(mode, GroupKeys(mode, entries, d), shift, mask)
    requires h < |GroupKeys(mode, entries, d)|
    ensures forall j :: j in IndexSet(entries) ==> j < |keys| && d < |keys[j]|
    ensures var groups := GroupKeys(mode, entries, d);
      IndexSet(Group(mode, entries, d, groups[h])) ==
      SlotGroup(mode, keys, IndexSet(entries), d, shift, mask, GroupSlot(mode, groups[h], shift, mask))
  {
    var groups := GroupKeys(mode, entries, d);
    var S := IndexSet(entries);
    IndexSetLonger(keys, entries, d);
    GroupIndexSet(mode, keys, entries, d, groups[h]);
    forall j | j in S
      ensures (TChar(mode, keys[j][d]) == groups[h]) ==
              (DispatchSlot(mode, keys[j][d], shift, mask) == GroupSlot(mode, groups[h], shift, mask))
    {
      SameSlotSameGroup(mode, keys, entries, d, shift, mask, h, j);
    }
  }

  /** A slot that none of the first n groups takes. */
  ghost predicate Taken(mode: CaseMode, groups: seq<nat>, n: nat, shift: nat, mask: nat, t: nat)
    requires n <= |groups|
  {
    exists h :: 0 <= h < n && GroupSlot(mode, groups[h], shift, mask) == t
  }

  /** Every slot some key selects is the slot of one of the groups. */
  lemma SlotGroupTaken(mode: CaseMode, keys: seq<string>, entries: seq<Entry>, d: nat,
                       shift: nat, mask: nat, t: nat)
    requires EntriesOK(keys, entries) && LongerThan(entries, d)
    requires forall j :: j in IndexSet(entries) ==> j < |keys| && d < |keys[j]|
    ensures var groups := GroupKeys(mode, entries, d);
      SlotGroup(mode, keys, IndexSet(entries), d, shift, mask, t) != {} ==>
      Taken(mode, groups, |groups|, shift, mask, t)
  {
    var groups := GroupKeys(mode, entries, d);
    GroupKeysMembers(mode, entries, d);
    if SlotGroup(mode, keys, IndexSet(entries), d, shift, mask, t) != {} {
      var j :| j in SlotGroup(mode, keys, IndexSet(entries), d, shift, mask, t);
      var m :| 0 <= m < |entries| && entries[m].index == j;
      var y := TChar(mode, entries[m].key[d]);
      assert y in groups;
      var h :| 0 <= h < |groups| && groups[h] == y;
      TransformIdempotent(mode, entries[m].key[d] as nat);
      assert GroupSlot(mode, groups[h], shift, mask) == t;
    }
  }

  /** The keys of a list whose keys are longer than d. */
  lemma IndexSetLonger(keys: seq<string>, entries: seq<Entry>, d: nat)
    requires EntriesOK(keys, entries) && LongerThan(entries, d)
    ensures forall j :: j in IndexSet(entries) ==> j < |keys| && d < |keys[j]|
  {
    forall j | j in IndexSet(entries) ensures j < |keys| && d < |keys[j]| {
      var m :| 0 <= m < |entries| && entries[m].index == j;
    }
  }
}
