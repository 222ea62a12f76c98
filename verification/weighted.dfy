/** Sums and weighted sums over sequences of reals: the arithmetic behind every
    centroid and mean in the positioning pipeline. */
module Weighted {

  function Sum(vs: seq<real>): real
  {
    if |vs| == 0 then 0.0 else vs[0] + Sum(vs[1..])
  }

  /** The weighted sum `ws[0]*vs[0] + ws[1]*vs[1] + ...`. */
  function Dot(ws: seq<real>, vs: seq<real>): real
    requires |ws| == |vs|
  {
    if |ws| == 0 then 0.0 else ws[0] * vs[0] + Dot(ws[1..], vs[1..])
  }

  predicate AllPositive(ws: seq<real>)
  {
    forall i :: 0 <= i < |ws| ==> ws[i] > 0.0
  }

  predicate AllWithin(vs: seq<real>, lo: real, hi: real)
  {
    forall i :: 0 <= i < |vs| ==> lo <= vs[i] <= hi
  }

  lemma {:induction false} SumPositive(ws: seq<real>)
    requires AllPositive(ws) && |ws| > 0
    ensures Sum(ws) > 0.0
  {
    if |ws| > 1 {
      SumPositive(ws[1..]);
    }
  }

  /** A non-negatively weighted sum of values in [lo, hi] lies in
      [lo * total weight, hi * total weight]. */
  lemma DotBounds(ws: seq<real>, vs: seq<real>, lo: real, hi: real)
    requires |ws| == |vs|
    requires forall i :: 0 <= i < |ws| ==> ws[i] >= 0.0
    requires AllWithin(vs, lo, hi)
    ensures lo * Sum(ws) <= Dot(ws, vs) <= hi * Sum(ws)
  {
    DotLowerBound(ws, vs, lo);
    DotUpperBound(ws, vs, hi);
  }

  lemma {:induction false} DotLowerBound(ws: seq<real>, vs: seq<real>, lo: real)
    requires |ws| == |vs|
    requires forall i :: 0 <= i < |ws| ==> ws[i] >= 0.0
    requires forall i :: 0 <= i < |vs| ==> lo <= vs[i]
    ensures lo * Sum(ws) <= Dot(ws, vs)
  {
    if |ws| > 0 {
      DotLowerBound(ws[1..], vs[1..], lo);
      MulMonotone(ws[0], lo, vs[0]);
      Distribute(lo, ws[0], Sum(ws[1..]));
    }
  }

  lemma {:induction false} DotUpperBound(ws: seq<real>, vs: seq<real>, hi: real)
    requires |ws| == |vs|
    requires forall i :: 0 <= i < |ws| ==> ws[i] >= 0.0
    requires forall i :: 0 <= i < |vs| ==> vs[i] <= hi
    ensures Dot(ws, vs) <= hi * Sum(ws)
  {
    if |ws| > 0 {
      DotUpperBound(ws[1..], vs[1..], hi);
      MulMonotone(ws[0], vs[0], hi);
      Distribute(hi, ws[0], Sum(ws[1..]));
    }
  }

  lemma Distribute(c: real, a: real, b: real)
    ensures c * (a + b) == a * c + c * b
  {
  }

  /** A positively weighted mean of values in [lo, hi] lies in [lo, hi]. */
  lemma WeightedMeanWithin(ws: seq<real>, vs: seq<real>, lo: real, hi: real)
    requires |ws| == |vs| > 0 && AllPositive(ws)
    requires AllWithin(vs, lo, hi)
    ensures Sum(ws) > 0.0
    ensures lo <= Dot(ws, vs) / Sum(ws) <= hi
  {
    WeightedMeanAbove(ws, vs, lo);
    WeightedMeanBelow(ws, vs, hi);
  }

  lemma WeightedMeanAbove(ws: seq<real>, vs: seq<real>, lo: real)
    requires |ws| == |vs| > 0 && AllPositive(ws)
    requires forall i :: 0 <= i < |vs| ==> lo <= vs[i]
    ensures Sum(ws) > 0.0
    ensures lo <= Dot(ws, vs) / Sum(ws)
  {
    SumPositive(ws);
    DotLowerBound(ws, vs, lo);
    QuotientAbove(Sum(ws), Dot(ws, vs), lo);
  }

  lemma WeightedMeanBelow(ws: seq<real>, vs: seq<real>, hi: real)
    requires |ws| == |vs| > 0 && AllPositive(ws)
    requires forall i :: 0 <= i < |vs| ==> vs[i] <= hi
    ensures Sum(ws) > 0.0
    ensures Dot(ws, vs) / Sum(ws) <= hi
  {
    SumPositive(ws);
    DotUpperBound(ws, vs, hi);
    QuotientBelow(Sum(ws), Dot(ws, vs), hi);
  }

  lemma QuotientAbove(total: real, acc: real, lo: real)
    requires total > 0.0 && lo * total <= acc
    ensures lo <= acc / total
  {
    assert acc / total * total == acc;
  }

  lemma QuotientBelow(total: real, acc: real, hi: real)
    requires total > 0.0 && acc <= hi * total
    ensures acc / total <= hi
  {
    assert acc / total * total == acc;
  }

  /** The plain mean of values in [lo, hi] lies in [lo, hi]. */
  lemma MeanOfWithin(vs: seq<real>, lo: real, hi: real)
    requires |vs| > 0
    requires AllWithin(vs, lo, hi)
    ensures lo <= Sum(vs) / (|vs| as real) <= hi
  {
    SumBounds(vs, lo, hi);
    assert lo * (|vs| as real) <= Sum(vs) <= hi * (|vs| as real);
    MeanWithin(|vs| as real, Sum(vs), lo, hi);
  }

  lemma MulMonotone(w: real, a: real, b: real)
    requires w >= 0.0 && a <= b
    ensures w * a <= w * b
  {
    assert w * b - w * a == w * (b - a);
  }

  /** Dividing by a positive total keeps the bounds: the weighted mean is a
      convex combination. */
  lemma MeanWithin(total: real, acc: real, lo: real, hi: real)
    requires total > 0.0
    requires lo * total <= acc <= hi * total
    ensures lo <= acc / total <= hi
  {
    assert acc / total * total == acc;
  }

  /** With every weight equal to `c`, the weighted sum is `c` times the plain sum. */
  lemma {:induction false} DotConstant(ws: seq<real>, vs: seq<real>, c: real)
    requires |ws| == |vs|
    requires forall i :: 0 <= i < |ws| ==> ws[i] == c
    ensures Dot(ws, vs) == c * Sum(vs)
    ensures Sum(ws) == c * (|ws| as real)
  {
    if |ws| > 0 {
      DotConstant(ws[1..], vs[1..], c);
    }
  }

  /** A sum of values in [lo, hi] lies in [n*lo, n*hi]. */
  lemma {:induction false} SumBounds(vs: seq<real>, lo: real, hi: real)
    requires AllWithin(vs, lo, hi)
    ensures (|vs| as real) * lo <= Sum(vs) <= (|vs| as real) * hi
  {
    if |vs| > 0 {
      SumBounds(vs[1..], lo, hi);
    }
  }

  lemma {:induction false} SumOfZeros(vs: seq<real>)
    requires forall i :: 0 <= i < |vs| ==> vs[i] == 0.0
    ensures Sum(vs) == 0.0
  {
    if |vs| > 0 {
      SumOfZeros(vs[1..]);
    }
  }

  lemma {:induction false} SumAppend(a: seq<real>, b: seq<real>)
    ensures Sum(a + b) == Sum(a) + Sum(b)
  {
    if |a| > 0 {
      assert (a + b)[1..] == a[1..] + b;
      SumAppend(a[1..], b);
    } else {
      assert a + b == b;
    }
  }
}
