/** Concatenation, and occurrences of one sequence inside another. */
module Sequences {
  lemma Regroup<T>(a: seq<T>, b: seq<T>, c: seq<T>)
    ensures a + (b + c) == a + b + c
  {
  }

  predicate OccursAt<T(==)>(needle: seq<T>, text: seq<T>, i: nat) {
    i + |needle| <= |text| && text[i..i + |needle|] == needle
  }

  predicate Occurs<T(==)>(needle: seq<T>, text: seq<T>) {
    exists i | 0 <= i <= |text| :: OccursAt(needle, text, i)
  }
}
