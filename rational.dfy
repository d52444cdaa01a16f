/// A fraction of two 32-bit integers compared componentwise (Core/Maths/Rational.cs).
module Rational {

  datatype Rational = Rational(numerator: int, denominator: int)
  {
    /** n/0 with n nonzero. */
    predicate IsInfinity() {
      numerator != 0 && denominator == 0
    }

    /** Zero whatever the denominator, 0/0 included. */
    predicate IsZero() {
      numerator == 0
    }

    /** The reciprocal, by swapping the two components: zero and infinity trade places. */
    function Transpose(): (t: Rational)
      ensures t.numerator == denominator && t.denominator == numerator
      ensures numerator != 0 ==> (t.IsZero() <==> IsInfinity())
      ensures denominator != 0 ==> (IsZero() <==> t.IsInfinity())
    {
      Rational(denominator, numerator)
    }

    /** Structural equality: the same numerator and the same denominator. */
    predicate Equals(other: Rational)
      ensures Equals(other) <==> this == other
    {
      numerator == other.numerator && denominator == other.denominator
    }
  }

  /** operator == */
  predicate Eq(left: Rational, right: Rational) {
    left.Equals(right)
  }

  /** operator != */
  predicate Neq(left: Rational, right: Rational) {
    !left.Equals(right)
  }

  /** Transposing twice gives back the original; zero and infinity swap (for a nonzero numerator). */
  lemma {:induction false} TransposeInvolution(r: Rational)
    ensures r.Transpose().Transpose() == r
    ensures r.numerator != 0 ==> (r.Transpose().IsZero() <==> r.IsInfinity())
    ensures r.denominator != 0 ==> (r.IsZero() <==> r.Transpose().IsInfinity())
  {
  }

  /** The operators are exact negations of each other and agree with Equals and with component equality. */
  lemma {:induction false} OperatorsAgree(a: Rational, b: Rational)
    ensures Eq(a, b) <==> a.Equals(b)
    ensures Neq(a, b) <==> !Eq(a, b)
    ensures Eq(a, b) <==> a.numerator == b.numerator && a.denominator == b.denominator
    ensures Eq(a, b) == Eq(b, a)
  {
  }

  /** Equality does not reduce fractions: 1/2 and 2/4 are different values. */
  lemma {:induction false} NoReduction()
    ensures Neq(Rational(1, 2), Rational(2, 4))
    ensures Rational(0, 0).IsZero() && !Rational(0, 0).IsInfinity()
    ensures Rational(5, 0).IsInfinity() && !Rational(5, 0).IsZero()
  {
  }
}
