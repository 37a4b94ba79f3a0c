/** The case strategy: a character transform the trie dispatches on, paired
    with the string equality that confirms the one candidate a lookup finds.
    Characters are handled by their code, as the C# code does with `int c`. */
module CaseStrategy {
  import opened Bits

  datatype CaseMode = CaseSensitive | CaseInsensitive

  /** The transform, as written: in the case-insensitive mode the guard
      `c >= 'a' | c <= 'z'` holds for every code, so every code has bit 0x20
      set, letters or not. */
  function CaseTransform(mode: CaseMode, c: nat): (r: nat)
    ensures c <= r
  {
    match mode
    case CaseSensitive => c
    case CaseInsensitive => if c >= 'a' as nat || c <= 'z' as nat then BitOr(c, 32) else c
  }

  /** The transform of the character `c`. */
  function TChar(mode: CaseMode, c: char): nat {
    CaseTransform(mode, c as nat)
  }

  predicate IsAscii(s: string) {
    forall i :: 0 <= i < |s| ==> s[i] as int < 128
  }

  /** The ordinal upper-casing of an ASCII letter; other characters stay.
      No lower-case letter is left, no code rises, and ASCII and non-ASCII
      stay apart. */
  function Upper(c: char): (r: char)
    ensures !('a' <= r <= 'z')
    ensures r as int <= c as int
    ensures (r as int < 128) == (c as int < 128)
  {
    if 'a' <= c <= 'z' then (c as int - 32) as char else c
  }

  /** Ordinal ignore-case equality, with ASCII-letter folding. It holds of
      equal strings, and it never pairs an ASCII character with a non-ASCII
      one. */
  predicate IgnoreCaseEqual(s1: string, s2: string)
    ensures s1 == s2 ==> IgnoreCaseEqual(s1, s2)
    ensures IgnoreCaseEqual(s1, s2) ==>
      |s1| == |s2| && forall i :: 0 <= i < |s1| ==> (s1[i] as int < 128 <==> s2[i] as int < 128)
  {
    |s1| == |s2| && forall i :: 0 <= i < |s1| ==> Upper(s1[i]) == Upper(s2[i])
  }

  /** The equality that confirms a candidate key. Either mode's equality is
      reflexive and implies ignore-case equality (so equal lengths). */
  predicate StringEqual(mode: CaseMode, s1: string, s2: string)
    ensures s1 == s2 ==> StringEqual(mode, s1, s2)
    ensures StringEqual(mode, s1, s2) ==> IgnoreCaseEqual(s1, s2) && |s1| == |s2|
  {
    match mode
    case CaseSensitive => s1 == s2
    case CaseInsensitive => IgnoreCaseEqual(s1, s2)
  }

  /** Two strings of equal length whose transformed characters agree. */
  predicate SameTransform(mode: CaseMode, s1: string, s2: string) {
    |s1| == |s2| && forall i :: 0 <= i < |s1| ==> TChar(mode, s1[i]) == TChar(mode, s2[i])
  }

  /** The case-sensitive transform is the identity. */
  lemma SensitiveIsIdentity(c: nat)
    ensures CaseTransform(CaseSensitive, c) == c
  {
  }

  /** The case-insensitive transform is exactly `c | 32`. */
  lemma InsensitiveIsOr32(c: nat)
    ensures CaseTransform(CaseInsensitive, c) == BitOr(c, 32)
  {
  }

  /** The builder applies the transform to codes that are already
      transformed; both transforms are idempotent, so that changes nothing. */
  lemma TransformIdempotent(mode: CaseMode, c: nat)
    ensures CaseTransform(mode, CaseTransform(mode, c)) == CaseTransform(mode, c)
  {
    if mode == CaseInsensitive {
      assert Pow2(5) == 32;
      OrPow2Idempotent(c, 5);
    }
  }

  /** Codes below 128 stay below 128. */
  lemma TransformAscii(mode: CaseMode, c: nat)
    requires c < 128
    ensures CaseTransform(mode, c) < 128
  {
    if mode == CaseInsensitive {
      assert Pow2(5) == 32;
      OrPow2(c, 5);
      ShrFive(c);
    }
  }

  /** On ASCII codes, `c | 32` is c for codes with bit 0x20 set and c + 32
      otherwise. */
  lemma InsensitiveOnAscii(c: nat)
    requires c < 128
    ensures CaseTransform(CaseInsensitive, c) == if (c / 32) % 2 == 1 then c else c + 32
  {
    assert Pow2(5) == 32;
    OrPow2(c, 5);
    ShrFive(c);
  }

  /** Ignore-case equal characters transform alike when one of them is
      ASCII (the other then is too: upper-casing keeps codes of 128 and
      above). */
  lemma UpperEqualTransformEqual(a: char, b: char)
    requires a as int < 128
    requires Upper(a) == Upper(b)
    ensures b as int < 128
    ensures TChar(CaseInsensitive, a) == TChar(CaseInsensitive, b)
  {
    InsensitiveOnAscii(a as nat);
    InsensitiveOnAscii(b as nat);
  }

  /** Equality under either mode with an ASCII string implies equal lengths,
      an ASCII partner and equal transformed characters, so an equal query
      follows the stored key's path through the trie. */
  lemma StringEqualSameTransform(mode: CaseMode, s1: string, s2: string)
    requires IsAscii(s1)
    requires StringEqual(mode, s1, s2)
    ensures IsAscii(s2) && SameTransform(mode, s1, s2)
  {
    if mode == CaseInsensitive {
      forall i | 0 <= i < |s1|
        ensures s2[i] as int < 128 && TChar(mode, s1[i]) == TChar(mode, s2[i])
      {
        UpperEqualTransformEqual(s1[i], s2[i]);
      }
    }
  }

  /** The converse fails: '@' and '`' transform alike but are not equal
      ignoring case. */
  lemma TransformDoesNotImplyEqual()
    ensures SameTransform(CaseInsensitive, "@", "`")
    ensures !StringEqual(CaseInsensitive, "@", "`")
  {
    InsensitiveOnAscii('@' as nat);
    InsensitiveOnAscii('`' as nat);
    assert Upper("@"[0]) != Upper("`"[0]);
  }

  lemma StringEqualReflexive(mode: CaseMode, s: string)
    ensures StringEqual(mode, s, s)
  {
  }

  lemma StringEqualSymmetric(mode: CaseMode, s1: string, s2: string)
    requires StringEqual(mode, s1, s2)
    ensures StringEqual(mode, s2, s1)
  {
  }

  /** The ordinal lower-casing of an ASCII letter; other characters stay.
      No upper-case letter is left, no code falls, and the ignore-case fold
      is unchanged. */
  function Lower(c: char): (r: char)
    ensures !('A' <= r <= 'Z')
    ensures c as int <= r as int
    ensures Upper(r) == Upper(c)
  {
    if 'A' <= c <= 'Z' then (c as int + 32) as char else c
  }

  /** The lower-cased string: ignore-case equal to s, with no upper-case
      letter. */
  function ToLower(s: string): (r: string)
    ensures IgnoreCaseEqual(s, r)
    ensures forall i :: 0 <= i < |r| ==> !('A' <= r[i] <= 'Z')
  {
    seq(|s|, i requires 0 <= i < |s| => Lower(s[i]))
  }

  /** The upper-cased string: ignore-case equal to s, with no lower-case
      letter. */
  function ToUpper(s: string): (r: string)
    ensures IgnoreCaseEqual(s, r)
    ensures forall i :: 0 <= i < |r| ==> !('a' <= r[i] <= 'z')
  {
    seq(|s|, i requires 0 <= i < |s| => Upper(s[i]))
  }

  /** A string equals its lower- and upper-cased forms ignoring case, and
      differs from them ordinally exactly when it has a letter of the other
      case. */
  lemma CaseVariants(s: string)
    ensures IgnoreCaseEqual(s, ToLower(s)) && IgnoreCaseEqual(s, ToUpper(s))
    ensures ToLower(s) != s <==> exists i :: 0 <= i < |s| && 'A' <= s[i] <= 'Z'
    ensures ToUpper(s) != s <==> exists i :: 0 <= i < |s| && 'a' <= s[i] <= 'z'
  {
    if exists i :: 0 <= i < |s| && 'A' <= s[i] <= 'Z' {
      var i :| 0 <= i < |s| && 'A' <= s[i] <= 'Z';
      assert ToLower(s)[i] != s[i];
    }
    if exists i :: 0 <= i < |s| && 'a' <= s[i] <= 'z' {
      var i :| 0 <= i < |s| && 'a' <= s[i] <= 'z';
      assert ToUpper(s)[i] != s[i];
    }
  }

  /** The ignore-case equality of the older copy of the wrapper, as written:
      plain ordinal equality. */
  predicate LegacyIgnoreCaseEqual(s1: string, s2: string) {
    s1 == s2
  }

  /** So the older copy rejects a key's lower-case form, which the
      case-insensitive strategy is meant to accept. */
  lemma LegacyRejectsLowerCase()
    ensures IgnoreCaseEqual("One", ToLower("One"))
    ensures !LegacyIgnoreCaseEqual("One", ToLower("One"))
  {
    CaseVariants("One");
    assert ToLower("One")[0] == 'o';
  }
}
