/**
 * The order on strings that `std::string::compare(...) < 0` and `std::string`'s
 * `operator<` decide: characters are compared one by one from the front, the first
 * position where they differ decides, and a proper prefix comes before the longer
 * string. Dafny's own `<` on sequences means "proper prefix", so the order is
 * defined here and proved to be a strict total order.
 */
module Lex {

  /**
   * `a` sorts strictly before `b`. A string never sorts before itself, and a
   * proper prefix sorts before the longer string.
   */
  predicate Less(a: string, b: string)
    ensures Less(a, b) ==> a != b
    ensures a < b ==> Less(a, b)
  {
    if |a| == 0 then |b| > 0
    else if |b| == 0 then false
    else if a[0] != b[0] then a[0] < b[0]
    else Less(a[1..], b[1..])
  }

  /** `a` does not sort after `b`: the negation of the test `b.compare(a) < 0`. */
  predicate LessEq(a: string, b: string)
  {
    !Less(b, a)
  }

  lemma {:induction false} LessIrreflexive(a: string)
    ensures !Less(a, a)
  {
    if |a| > 0 {
      LessIrreflexive(a[1..]);
    }
  }

  lemma {:induction false} LessTransitive(a: string, b: string, c: string)
    requires Less(a, b) && Less(b, c)
    ensures Less(a, c)
  {
    if |a| > 0 && a[0] == b[0] && b[0] == c[0] {
      LessTransitive(a[1..], b[1..], c[1..]);
    }
  }

  /** Any two different strings are ordered one way or the other. */
  lemma {:induction false} LessConnected(a: string, b: string)
    requires a != b
    ensures Less(a, b) || Less(b, a)
  {
    if |a| > 0 && |b| > 0 && a[0] == b[0] {
      assert a == [a[0]] + a[1..] && b == [b[0]] + b[1..];
      LessConnected(a[1..], b[1..]);
    }
  }

  lemma LessAsymmetric(a: string, b: string)
    requires Less(a, b)
    ensures !Less(b, a)
  {
    if Less(b, a) {
      LessTransitive(a, b, a);
      LessIrreflexive(a);
    }
  }

  /** `Less` is a strict total order: irreflexive, asymmetric, transitive and connected. */
  lemma LessIsStrictTotalOrder()
    ensures forall a: string :: !Less(a, a)
    ensures forall a: string, b: string :: Less(a, b) ==> !Less(b, a)
    ensures forall a: string, b: string, c: string :: Less(a, b) && Less(b, c) ==> Less(a, c)
    ensures forall a: string, b: string :: a != b ==> Less(a, b) || Less(b, a)
  {
    forall a: string { LessIrreflexive(a); }
    forall a: string, b: string | Less(a, b) { LessAsymmetric(a, b); }
    forall a: string, b: string, c: string | Less(a, b) && Less(b, c) { LessTransitive(a, b, c); }
    forall a: string, b: string | a != b { LessConnected(a, b); }
  }

  /** The not-after relation is total and transitive, so sorting by it is well defined. */
  lemma LessEqTotal(a: string, b: string)
    ensures LessEq(a, b) || LessEq(b, a)
  {
    if Less(a, b) {
      LessAsymmetric(a, b);
    }
  }

  lemma LessEqTransitive(a: string, b: string, c: string)
    requires LessEq(a, b) && LessEq(b, c)
    ensures LessEq(a, c)
  {
    if Less(c, a) && a != b {
      LessConnected(a, b);
      LessTransitive(c, a, b);
    }
  }

  /** A strict step followed by a non-strict one is strict. */
  lemma LessLessEqTransitive(a: string, b: string, c: string)
    requires Less(a, b) && LessEq(b, c)
    ensures Less(a, c)
  {
    if b == c {
    } else {
      LessConnected(b, c);
      LessTransitive(a, b, c);
    }
  }

  lemma LessEqLessTransitive(a: string, b: string, c: string)
    requires LessEq(a, b) && Less(b, c)
    ensures Less(a, c)
  {
    if a == b {
    } else {
      LessConnected(a, b);
      LessTransitive(a, b, c);
    }
  }
}
