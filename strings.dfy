/**
 * The order Rust's `String::cmp` uses: lexicographic comparison of the
 * underlying UTF-8 bytes. UTF-8 preserves the order of code points, so on
 * Dafny strings (sequences of Unicode scalar values) it is the lexicographic
 * order on characters. `BTreeMap<String, _>` iterates in this order and
 * `Vec<Profile>::sort` sorts by it.
 */
module Strings {

  datatype Ordering = Less | Equal | Greater

  /** `a` comes no later than `b` in lexicographic order. */
  predicate LexLeq(a: string, b: string)
    decreases |a|
  {
    a == [] || (b != [] && (a[0] < b[0] || (a[0] == b[0] && LexLeq(a[1..], b[1..]))))
  }

  /** `a` comes strictly before `b`. */
  predicate LexLess(a: string, b: string)
  {
    LexLeq(a, b) && a != b
  }

  /** Three-way comparison, character by character, a proper prefix first. */
  function Cmp(a: string, b: string): (r: Ordering)
    ensures r == Equal <==> a == b
    ensures r == Less <==> LexLess(a, b)
    ensures r == Greater <==> LexLess(b, a)
    decreases |a|
  {
    if a == [] then (if b == [] then Equal else Less)
    else if b == [] then Greater
    else if a[0] < b[0] then Less
    else if b[0] < a[0] then Greater
    else
      var r := Cmp(a[1..], b[1..]);
      assert a == [a[0]] + a[1..] && b == [b[0]] + b[1..];
      r
  }

  lemma {:induction false} LexLeqReflexive(a: string)
    ensures LexLeq(a, a)
    decreases |a|
  {
    if a != [] {
      LexLeqReflexive(a[1..]);
    }
  }

  lemma {:induction false} LexLeqAntisymmetric(a: string, b: string)
    requires LexLeq(a, b) && LexLeq(b, a)
    ensures a == b
    decreases |a|
  {
    if a != [] {
      LexLeqAntisymmetric(a[1..], b[1..]);
      assert a == [a[0]] + a[1..] && b == [b[0]] + b[1..];
    }
  }

  lemma {:induction false} LexLeqTransitive(a: string, b: string, c: string)
    requires LexLeq(a, b) && LexLeq(b, c)
    ensures LexLeq(a, c)
    decreases |a|
  {
    if a != [] && b != [] && c != [] && a[0] == b[0] == c[0] {
      LexLeqTransitive(a[1..], b[1..], c[1..]);
    }
  }

  lemma {:induction false} LexLeqTotal(a: string, b: string)
    ensures LexLeq(a, b) || LexLeq(b, a)
    decreases |a|
  {
    if a != [] && b != [] && a[0] == b[0] {
      LexLeqTotal(a[1..], b[1..]);
    }
  }

  /** The three order facts in quantified form, for callers that pick elements by `:|`. */
  lemma LexLeqTotalOrder()
    ensures forall a: string :: LexLeq(a, a)
    ensures forall a: string, b: string :: LexLeq(a, b) && LexLeq(b, a) ==> a == b
    ensures forall a: string, b: string, c: string :: LexLeq(a, b) && LexLeq(b, c) ==> LexLeq(a, c)
    ensures forall a: string, b: string :: LexLeq(a, b) || LexLeq(b, a)
  {
    forall a: string { LexLeqReflexive(a); }
    forall a: string, b: string | LexLeq(a, b) && LexLeq(b, a) { LexLeqAntisymmetric(a, b); }
    forall a: string, b: string, c: string | LexLeq(a, b) && LexLeq(b, c) { LexLeqTransitive(a, b, c); }
    forall a: string, b: string { LexLeqTotal(a, b); }
  }
}
