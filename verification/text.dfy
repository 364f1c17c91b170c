/**
 * The two string primitives the note search relies on: lower-casing
 * (`str.lower`) and substring containment (the `in` operator on strings).
 * Case folding is restricted to ASCII: 'A'..'Z' map to 'a'..'z' and every
 * other character is left alone.
 */
module Text {

  predicate IsUpper(c: char) { 'A' <= c <= 'Z' }

  predicate IsLower(c: char) { 'a' <= c <= 'z' }

  function LowerChar(c: char): (d: char)
    ensures !IsUpper(d)
    ensures !IsUpper(c) ==> d == c
    ensures IsUpper(c) ==> IsLower(d)
  {
    if IsUpper(c) then (c as int + 32) as char else c
  }

  function UpperChar(c: char): (d: char)
    ensures !IsLower(d)
    ensures !IsLower(c) ==> d == c
    ensures IsLower(c) ==> IsUpper(d)
  {
    if IsLower(c) then (c as int - 32) as char else c
  }

  /** Lower-cases every character of `s`, keeping its length. */
  function Lower(s: string): (r: string)
    ensures |r| == |s|
    ensures forall i :: 0 <= i < |s| ==> r[i] == LowerChar(s[i])
  {
    if s == [] then [] else [LowerChar(s[0])] + Lower(s[1..])
  }

  /** Upper-cases every character of `s`, keeping its length. */
  function Upper(s: string): (r: string)
    ensures |r| == |s|
    ensures forall i :: 0 <= i < |s| ==> r[i] == UpperChar(s[i])
  {
    if s == [] then [] else [UpperChar(s[0])] + Upper(s[1..])
  }

  /** A lower-case letter appears in a lower-cased string only where it, or its
      upper-case form, appeared in the original. */
  lemma {:induction false} LowerMembership(s: string, c: char)
    requires IsLower(c) && c in Lower(s)
    ensures c in s || UpperChar(c) in s
  {
    if s != [] {
      if LowerChar(s[0]) == c {
        assert s[0] == c || s[0] == UpperChar(c);
      } else {
        assert Lower(s) == [LowerChar(s[0])] + Lower(s[1..]);
        LowerMembership(s[1..], c);
      }
    }
  }

  /** Lower-casing twice is lower-casing once. */
  lemma {:induction false} LowerIdempotent(s: string)
    ensures Lower(Lower(s)) == Lower(s)
  {
    if s != [] {
      LowerIdempotent(s[1..]);
      assert Lower(s)[1..] == Lower(s[1..]);
    }
  }

  /** Upper-casing a string first does not change its lower-cased form. */
  lemma {:induction false} LowerOfUpper(s: string)
    ensures Lower(Upper(s)) == Lower(s)
  {
    if s != [] {
      LowerOfUpper(s[1..]);
      assert Upper(s)[1..] == Upper(s[1..]);
    }
  }

  /** `q` occurs in `s` starting at position `i`. */
  predicate OccursAt(s: string, q: string, i: nat)
  {
    i + |q| <= |s| && s[i..i + |q|] == q
  }

  /** `q in s` for Python strings: `q` is a prefix of `s` or of one of its suffixes. */
  predicate Contains(s: string, q: string)
    ensures Contains(s, q) ==> |q| <= |s|
  {
    q <= s || (s != [] && Contains(s[1..], q))
  }

  /** A slice of the tail is the slice of the whole shifted by one. */
  lemma TailSlice(s: string, i: nat, n: nat)
    requires s != [] && i + n < |s|
    ensures s[1..][i..i + n] == s[i + 1..i + 1 + n]
  {
  }

  /** An occurrence at any position makes the string contained. */
  lemma {:induction false} ContainsAt(s: string, q: string, i: nat)
    requires OccursAt(s, q, i)
    ensures Contains(s, q)
  {
    if i > 0 {
      TailSlice(s, i - 1, |q|);
      ContainsAt(s[1..], q, i - 1);
    }
  }

  /** A contained string occurs at some position. */
  lemma {:induction false} ContainsOccurs(s: string, q: string)
    requires Contains(s, q)
    ensures exists i: nat :: OccursAt(s, q, i)
  {
    if q <= s {
      assert OccursAt(s, q, 0);
    } else {
      ContainsOccurs(s[1..], q);
      var i: nat :| OccursAt(s[1..], q, i);
      TailSlice(s, i, |q|);
      assert OccursAt(s, q, i + 1);
    }
  }

  /** `Contains` agrees with the positional definition of a substring, in both directions. */
  lemma ContainsIff(s: string, q: string)
    ensures Contains(s, q) <==> exists i: nat :: OccursAt(s, q, i)
  {
    if Contains(s, q) {
      ContainsOccurs(s, q);
    }
    if exists i: nat :: OccursAt(s, q, i) {
      var i: nat :| OccursAt(s, q, i);
      ContainsAt(s, q, i);
    }
  }

  /** A non-empty string is contained only in a string holding its first character. */
  lemma {:induction false} ContainsFirstChar(s: string, q: string)
    requires q != [] && Contains(s, q)
    ensures q[0] in s
  {
    if !(q <= s) {
      ContainsFirstChar(s[1..], q);
    }
  }

  /** Containment survives lower-casing both sides: a match that ignores case never misses an exact one. */
  lemma ContainsLowered(s: string, q: string)
    requires Contains(s, q)
    ensures Contains(Lower(s), Lower(q))
  {
    ContainsOccurs(s, q);
    var i: nat :| OccursAt(s, q, i);
    forall k | 0 <= k < |q|
      ensures Lower(s)[i..i + |q|][k] == Lower(q)[k]
    {
      assert s[i..i + |q|][k] == s[i + k];
    }
    assert Lower(s)[i..i + |q|] == Lower(q);
    ContainsAt(Lower(s), Lower(q), i);
  }
}
