/**
 The string operations the search page relies on: lower-casing (restricted to
 ASCII letters) and the substring test behind Python's `in` on strings.
 */
module Text {

  /** Maps an ASCII upper-case letter to its lower-case form; every other character is kept. */
  function LowerChar(c: char): char
  {
    if 'A' <= c <= 'Z' then (c as int - 'A' as int + 'a' as int) as char else c
  }

  /** `s.lower()`, character by character. */
  function Lower(s: string): (r: string)
    ensures |r| == |s|
    ensures forall i :: 0 <= i < |s| ==> r[i] == LowerChar(s[i])
    ensures forall i :: 0 <= i < |r| ==> !('A' <= r[i] <= 'Z')
  {
    if s == [] then [] else [LowerChar(s[0])] + Lower(s[1..])
  }

  /** Lower-casing twice is lower-casing once; it follows from `Lower`'s character-wise contract. */
  lemma LowerIdempotent(s: string)
    ensures Lower(Lower(s)) == Lower(s)
  {
  }

  /** `needle in hay`: some suffix of `hay` starts with `needle`. */
  function Contains(hay: string, needle: string): bool
    decreases |hay|
  {
    needle <= hay || (hay != [] && Contains(hay[1..], needle))
  }

  /** A match found at position `i` is found by `Contains`. */
  lemma {:induction false} ContainsAt(hay: string, needle: string, i: nat)
    requires i <= |hay| && needle <= hay[i..]
    ensures Contains(hay, needle)
    decreases i
  {
    if i == 0 {
      assert hay[0..] == hay;
    } else {
      assert hay[1..][i - 1..] == hay[i..];
      ContainsAt(hay[1..], needle, i - 1);
    }
  }

  /** `Contains` only succeeds where a match exists: it returns a position of one. */
  lemma {:induction false} ContainsWitness(hay: string, needle: string) returns (i: nat)
    requires Contains(hay, needle)
    ensures i <= |hay| && needle <= hay[i..]
    decreases |hay|
  {
    if needle <= hay {
      i := 0;
      assert hay[0..] == hay;
    } else {
      var j := ContainsWitness(hay[1..], needle);
      assert hay[1..][j..] == hay[j + 1..];
      i := j + 1;
    }
  }

  /** `Contains` agrees with the positional definition of a substring. */
  lemma ContainsIff(hay: string, needle: string)
    ensures Contains(hay, needle) <==> exists i :: 0 <= i <= |hay| && needle <= hay[i..]
  {
    if Contains(hay, needle) {
      var i := ContainsWitness(hay, needle);
    }
    if exists i :: 0 <= i <= |hay| && needle <= hay[i..] {
      var i :| 0 <= i <= |hay| && needle <= hay[i..];
      ContainsAt(hay, needle, i);
    }
  }

  /** Lower-casing keeps prefixes, so a prefix of a text is found in it whatever the case. */
  lemma PrefixFoundIgnoringCase(p: string, s: string)
    requires p <= s
    ensures Contains(Lower(s), Lower(p))
  {
    assert Lower(p) <= Lower(s);
    assert Lower(s)[0..] == Lower(s);
    ContainsAt(Lower(s), Lower(p), 0);
  }
}
