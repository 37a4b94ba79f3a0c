/** The fast length reject both engines run before touching the trie: the
    shortest and longest key length and a 64-bit filter with bit `L % 64` set
    for every key length L. */
module LengthStats {
  import opened Bits
  import opened TrieEntries

  datatype Stats = Stats(minLength: int, maxLength: int, lengthFilter: nat)

  /** The field initialisers: `_minLength = int.MaxValue`, the other two 0. */
  const NoKeys := Stats(IntMaxValue, 0, 0)

  /** The stats after one more key of length len. */
  function AddLength(s: Stats, len: nat): Stats {
    Stats(if len < s.minLength then len else s.minLength,
          if len > s.maxLength then len else s.maxLength,
          BitOr(s.lengthFilter, Pow2(len % 64)))
  }

  /** The stats of a key sequence, keys taken in order. */
  function StatsOf(keys: seq<string>): (r: Stats)
    ensures 0 <= r.maxLength
    ensures r.minLength <= r.maxLength <==> keys != []
    decreases |keys|
  {
    if keys == [] then NoKeys else AddLength(StatsOf(keys[..|keys| - 1]), |keys[|keys| - 1]|)
  }

  /** The test at the head of both TryGetValue methods: a query of length len
      may be a key only if its filter bit is set and it lies within
      [minLength, maxLength]. */
  predicate PassesLengthCheck(s: Stats, len: nat)
    ensures s == NoKeys ==> !PassesLengthCheck(s, len)
  {
    BitAnd(s.lengthFilter, Pow2(len % 64)) != 0 && s.minLength <= len <= s.maxLength
  }

  /** The interpreted trie's constructor loop, with the bit index `L & 63`. */
  method MaskedStats(keys: seq<string>) returns (s: Stats)
    ensures s == StatsOf(keys)
  {
    s := NoKeys;
    var i := 0;
    while i < |keys|
      invariant 0 <= i <= |keys|
      invariant s == StatsOf(keys[..i])
    {
      var keyLength := |keys[i]|;
      var minLength, maxLength := s.minLength, s.maxLength;
      if keyLength < minLength { minLength := keyLength; }
      if keyLength > maxLength { maxLength := keyLength; }
      LowSixBits(keyLength);
      s := Stats(minLength, maxLength, BitOr(s.lengthFilter, Pow2(BitAnd(keyLength, 63))));
      assert keys[..i + 1][..i] == keys[..i];
      i := i + 1;
    }
    assert keys[..i] == keys;
  }

  /** The compiled trie's constructor loop, with the bit index `L % 64`. */
  method ModuloStats(keys: seq<string>) returns (s: Stats)
    ensures s == StatsOf(keys)
  {
    var minLength, maxLength, lengthFilter := IntMaxValue, 0, 0;
    for i := 0 to |keys|
      invariant Stats(minLength, maxLength, lengthFilter) == StatsOf(keys[..i])
    {
      var key := keys[i];
      if |key| < minLength { minLength := |key|; }
      if |key| > maxLength { maxLength := |key|; }
      lengthFilter := BitOr(lengthFilter, Pow2(|key| % 64));
      assert keys[..i + 1][..i] == keys[..i];
    }
    assert keys[..|keys|] == keys;
    s := Stats(minLength, maxLength, lengthFilter);
  }

  /** Every key's length lies within the bounds and has its bit set. */
  lemma {:induction false} StatsCoverKeys(keys: seq<string>, i: nat)
    requires i < |keys|
    ensures var s := StatsOf(keys);
      s.minLength <= |keys[i]| <= s.maxLength && BitSet(s.lengthFilter, |keys[i]| % 64)
    decreases |keys|
  {
    var last := |keys| - 1;
    var front := keys[..last];
    var len := |keys[last]|;
    BitSetOrPow2(StatsOf(front).lengthFilter, len % 64, |keys[i]| % 64);
    if i < last {
      StatsCoverKeys(front, i);
      assert front[i] == keys[i];
    }
  }

  /** So every key passes the length check. */
  lemma KeysPassLengthCheck(keys: seq<string>, i: nat)
    requires i < |keys|
    ensures PassesLengthCheck(StatsOf(keys), |keys[i]|)
  {
    StatsCoverKeys(keys, i);
    AndPow2TestsBit(StatsOf(keys).lengthFilter, |keys[i]| % 64);
  }

  /** A query the length check rejects has no key of its length. */
  lemma RejectedHasNoKeyLength(keys: seq<string>, len: nat)
    requires !PassesLengthCheck(StatsOf(keys), len)
    ensures forall i :: 0 <= i < |keys| ==> |keys[i]| != len
  {
    forall i | 0 <= i < |keys| ensures |keys[i]| != len {
      if |keys[i]| == len {
        KeysPassLengthCheck(keys, i);
      }
    }
  }

  /** Bit j of the filter is set exactly when some key length is j modulo 64. */
  lemma {:induction false} FilterExact(keys: seq<string>, j: nat)
    ensures BitSet(StatsOf(keys).lengthFilter, j) <==> exists i :: 0 <= i < |keys| && |keys[i]| % 64 == j
    decreases |keys|
  {
    if keys == [] {
      NoBitOfZero(j);
    } else {
      var last := |keys| - 1;
      var front := keys[..last];
      BitSetOrPow2(StatsOf(front).lengthFilter, |keys[last]| % 64, j);
      FilterExact(front, j);
      if exists i :: 0 <= i < |front| && |front[i]| % 64 == j {
        var i :| 0 <= i < |front| && |front[i]| % 64 == j;
        assert keys[i] == front[i];
      }
      if exists i :: 0 <= i < |keys| && |keys[i]| % 64 == j {
        var i :| 0 <= i < |keys| && |keys[i]| % 64 == j;
        if i < last {
          assert front[i] == keys[i];
        }
      }
    }
  }

  /** With at least one key, both bounds are key lengths. */
  lemma {:induction false} BoundsAttained(keys: seq<string>)
    requires |keys| >= 1
    requires forall i :: 0 <= i < |keys| ==> |keys[i]| < IntMaxValue
    ensures exists i :: 0 <= i < |keys| && |keys[i]| == StatsOf(keys).minLength
    ensures exists i :: 0 <= i < |keys| && |keys[i]| == StatsOf(keys).maxLength
    decreases |keys|
  {
    var last := |keys| - 1;
    var front := keys[..last];
    if last == 0 {
      assert |keys[0]| == StatsOf(keys).minLength == StatsOf(keys).maxLength;
    } else {
      BoundsAttained(front);
      var a :| 0 <= a < |front| && |front[a]| == StatsOf(front).minLength;
      var b :| 0 <= b < |front| && |front[b]| == StatsOf(front).maxLength;
      assert keys[a] == front[a] && keys[b] == front[b];
      if |keys[last]| < StatsOf(front).minLength {
        assert |keys[last]| == StatsOf(keys).minLength;
      } else {
        assert |keys[a]| == StatsOf(keys).minLength;
      }
      if |keys[last]| > StatsOf(front).maxLength {
        assert |keys[last]| == StatsOf(keys).maxLength;
      } else {
        assert |keys[b]| == StatsOf(keys).maxLength;
      }
    }
  }
}
