/** Small facts about finite sets, and the ASCII case folding and substring
    test that stand in for the database's `iexact` and `icontains` lookups. */
module Text {

  /** A set with exactly one element has no two distinct members. */
  lemma OnlyElement<T>(s: set<T>)
    requires |s| == 1
    ensures forall a, b :: a in s && b in s ==> a == b
  {
    var x :| x in s;
    assert |s - {x}| == 0;
    assert s - {x} == {};
  }

  /** A set with at least two elements has two distinct members. */
  lemma TwoMembers<T>(s: set<T>)
    requires |s| >= 2
    ensures exists a, b :: a in s && b in s && a != b
  {
    var a :| a in s;
    assert |s - {a}| >= 1;
    var b :| b in s - {a};
  }

  /** Cardinality is monotone in the subset order. */
  lemma {:induction false} SubsetCard<T>(a: set<T>, b: set<T>)
    requires a <= b
    ensures |a| <= |b|
  {
    if a != {} {
      var x :| x in a;
      SubsetCard(a - {x}, b - {x});
    }
  }

  predicate IsUpper(c: char) {
    'A' <= c <= 'Z'
  }

  function LowerChar(c: char): char {
    if IsUpper(c) then (c as int + 32) as char else c
  }

  /** ASCII lower-casing, character by character. */
  function Lower(s: string): (r: string)
    ensures |r| == |s|
    ensures forall i :: 0 <= i < |s| ==> r[i] == LowerChar(s[i])
    ensures forall i :: 0 <= i < |s| ==> !IsUpper(r[i])
  {
    if s == [] then [] else [LowerChar(s[0])] + Lower(s[1..])
  }

  /** Lower-casing twice is lower-casing once. */
  lemma LowerIdempotent(s: string)
    ensures Lower(Lower(s)) == Lower(s)
  {
    var once := Lower(s);
    assert forall i :: 0 <= i < |once| ==> Lower(once)[i] == once[i];
  }

  /** `needle` is a prefix of `s`. */
  predicate StartsWith(s: string, needle: string) {
    |needle| <= |s| && s[..|needle|] == needle
  }

  /** `needle` occurs in `haystack` as a contiguous piece. */
  predicate Contains(haystack: string, needle: string)
    decreases |haystack|
  {
    StartsWith(haystack, needle) || (haystack != [] && Contains(haystack[1..], needle))
  }

  /** Every string contains itself and the empty string. */
  lemma ContainsSelfAndEmpty(s: string)
    ensures Contains(s, s)
    ensures Contains(s, "")
  {
    assert s[..|s|] == s;
  }
}
