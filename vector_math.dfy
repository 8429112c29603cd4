/**
 The vector arithmetic of the face index: zipped sums and products, sums of
 squares and the cosine similarity that ranks labels.

 Swift's `Float` is modelled as `real`, so rounding, overflow and the order
 of summation play no part. The one IEEE 754 behaviour the program runs into,
 a division with a zero divisor, is kept: `Div` returns a `Score`, which may
 be an infinity or NaN. The square root is a parameter of every member that
 needs it, so a result holds for every square-root function unless a lemma
 states what it assumes of it.
 */
module VectorMath {

  /** The value of a single-precision division: finite, or what IEEE 754 yields
      when the divisor is zero. */
  datatype Score = Finite(value: real) | PosInf | NegInf | NaN

  /** IEEE 754 division of two finite operands. */
  function Div(n: real, d: real): Score {
    if d != 0.0 then Finite(n / d)
    else if n > 0.0 then PosInf
    else if n < 0.0 then NegInf
    else NaN
  }

  /** The band of the extended reals a score lies in (NaN is given no band of its own). */
  function Band(x: Score): int {
    match x
    case NegInf => 0
    case Finite(_) => 1
    case NaN => 1
    case PosInf => 2
  }

  /** IEEE 754 `<` on scores: false whenever either side is NaN. */
  predicate Less(x: Score, y: Score) {
    && !x.NaN?
    && !y.NaN?
    && (Band(x) < Band(y) || (x.Finite? && y.Finite? && x.value < y.value))
  }

  /** Away from NaN, `Less` is a strict total order. The argmax of the
      classifier relies on this. */
  lemma LessIsStrictTotalOrder(x: Score, y: Score, z: Score)
    requires !x.NaN? && !y.NaN? && !z.NaN?
    ensures !Less(x, x)
    ensures Less(x, y) && Less(y, z) ==> Less(x, z)
    ensures x == y || Less(x, y) || Less(y, x)
  {
  }

  function Min(a: int, b: int): int {
    if a <= b then a else b
  }

  /** `reduce(0, +)`: a left fold of `+` over the sequence. */
  function Sum(s: seq<real>): real {
    if s == [] then 0.0 else Sum(s[..|s| - 1]) + s[|s| - 1]
  }

  /** `zip(a, b).map(+)`: as long as the shorter operand. */
  function ZipAdd(a: seq<real>, b: seq<real>): seq<real> {
    seq(Min(|a|, |b|), i requires 0 <= i < Min(|a|, |b|) => a[i] + b[i])
  }

  /** `zip(a, b).map(*)`: as long as the shorter operand. */
  function ZipMul(a: seq<real>, b: seq<real>): seq<real> {
    seq(Min(|a|, |b|), i requires 0 <= i < Min(|a|, |b|) => a[i] * b[i])
  }

  /** `a.map { $0 * $0 }`. */
  function Squares(a: seq<real>): seq<real> {
    seq(|a|, i requires 0 <= i < |a| => a[i] * a[i])
  }

  /** The dot product over the zipped prefix of the two vectors. */
  function Dot(a: seq<real>, b: seq<real>): real {
    Sum(ZipMul(a, b))
  }

  /** The squared magnitude, over every component of the vector. */
  function SumSquares(a: seq<real>): real {
    Sum(Squares(a))
  }

  /** `cosineSimilarity(a, b)`: the dot product divided by the product of the
      two magnitudes, with no guard against a zero magnitude. */
  function CosineSimilarity(sqrt: real -> real, a: seq<real>, b: seq<real>): Score {
    Div(Dot(a, b), sqrt(SumSquares(a)) * sqrt(SumSquares(b)))
  }

  /** Sum distributes over concatenation. */
  lemma {:induction false} SumAppend(s: seq<real>, t: seq<real>)
    ensures Sum(s + t) == Sum(s) + Sum(t)
    decreases |t|
  {
    if t == [] {
      assert s + t == s;
    } else {
      var t' := t[..|t| - 1];
      assert (s + t)[..|s + t| - 1] == s + t';
      SumAppend(s, t');
    }
  }

  /** The sum of a pair, unfolded. */
  lemma SumOfPair(x: real, y: real)
    ensures Sum([x, y]) == x + y
  {
    assert [x, y][..1] == [x];
    assert [x][..0] == [];
    assert Sum([x]) == x;
    assert Sum([x, y]) == Sum([x]) + y;
  }

  /** A sum of zeros is zero. */
  lemma {:induction false} SumOfZeros(s: seq<real>)
    requires forall i :: 0 <= i < |s| ==> s[i] == 0.0
    ensures Sum(s) == 0.0
    decreases |s|
  {
    if s != [] {
      SumOfZeros(s[..|s| - 1]);
    }
  }

  /** The dot product pairs only the first `Min(|a|, |b|)` components. */
  lemma DotPairsPrefix(a: seq<real>, b: seq<real>)
    ensures var m := Min(|a|, |b|); Dot(a, b) == Dot(a[..m], b[..m])
  {
    var m := Min(|a|, |b|);
    var p, q := ZipMul(a, b), ZipMul(a[..m], b[..m]);
    assert |p| == |q| == m;
    forall i | 0 <= i < m ensures p[i] == q[i] {
      assert a[..m][i] == a[i] && b[..m][i] == b[i];
    }
    assert p == q;
  }

  /** Components of the longer vector beyond the shorter one's length do not
      enter the dot product. */
  lemma DotIgnoresUnpairedTail(a: seq<real>, b: seq<real>, tail: seq<real>)
    requires |a| <= |b|
    ensures Dot(a, b + tail) == Dot(a, b)
  {
    var p, q := ZipMul(a, b + tail), ZipMul(a, b);
    assert |p| == |q| == |a|;
    forall i | 0 <= i < |a| ensures p[i] == q[i] {
      assert (b + tail)[i] == b[i];
    }
    assert p == q;
  }

  /** The squared magnitude counts every component, the unpaired ones too. */
  lemma SumSquaresAppend(a: seq<real>, tail: seq<real>)
    ensures SumSquares(a + tail) == SumSquares(a) + SumSquares(tail)
  {
    var p, q := Squares(a + tail), Squares(a) + Squares(tail);
    assert |p| == |q|;
    forall i | 0 <= i < |p| ensures p[i] == q[i] {
      if i < |a| {
        assert (a + tail)[i] == a[i];
      } else {
        assert (a + tail)[i] == tail[i - |a|];
      }
    }
    assert p == q;
    SumAppend(Squares(a), Squares(tail));
  }

  /** The dot product is symmetric. */
  lemma DotSymmetric(a: seq<real>, b: seq<real>)
    ensures Dot(a, b) == Dot(b, a)
  {
    assert ZipMul(a, b) == ZipMul(b, a);
  }

  /** `cosineSimilarity(a, b) == cosineSimilarity(b, a)`, whatever square root
      is used and whatever the two lengths. */
  lemma CosineSimilaritySymmetric(sqrt: real -> real, a: seq<real>, b: seq<real>)
    ensures CosineSimilarity(sqrt, a, b) == CosineSimilarity(sqrt, b, a)
  {
    DotSymmetric(a, b);
    var ma, mb := sqrt(SumSquares(a)), sqrt(SumSquares(b));
    assert ma * mb == mb * ma;
  }

  /** A vector of non-zero magnitude has similarity exactly 1 with itself,
      given a square root that is exact at its squared magnitude. */
  lemma SelfSimilarity(sqrt: real -> real, a: seq<real>)
    requires SumSquares(a) != 0.0
    requires sqrt(SumSquares(a)) * sqrt(SumSquares(a)) == SumSquares(a)
    ensures CosineSimilarity(sqrt, a, a) == Finite(1.0)
  {
    assert ZipMul(a, a) == Squares(a);
    var s := SumSquares(a);
    assert Dot(a, a) == s;
    assert CosineSimilarity(sqrt, a, a) == Div(s, s);
    assert s / s == 1.0;
  }

  /** The unguarded zero magnitude: a zero vector has similarity NaN with
      every vector, given a square root with `sqrt(0) == 0`. */
  lemma ZeroVectorGivesNaN(sqrt: real -> real, a: seq<real>, b: seq<real>)
    requires sqrt(0.0) == 0.0
    requires forall i :: 0 <= i < |a| ==> a[i] == 0.0
    ensures CosineSimilarity(sqrt, a, b) == NaN
  {
    var p := ZipMul(a, b);
    forall i | 0 <= i < |p| ensures p[i] == 0.0 {
      assert p[i] == a[i] * b[i];
    }
    SumOfZeros(p);
    var sq := Squares(a);
    forall i | 0 <= i < |sq| ensures sq[i] == 0.0 {
      assert sq[i] == a[i] * a[i];
    }
    SumOfZeros(sq);
  }
}
