/** The two window metrics and the registry that selects one by name. */
module Ratios {
  import opened Wrappers
  import opened Errors
  import opened Nucleotides

  /** Real-number facts behind the metric bounds: a quotient of a
      numerator bounded by its positive denominator. */
  lemma UnitFraction(a: real, b: real)
    requires 0.0 <= a <= b && 0.0 < b
    ensures 0.0 <= a / b <= 1.0
    ensures (a / b) * b == a
    ensures a / b == 0.0 <==> a == 0.0
    ensures a / b == 1.0 <==> a == b
  {
    var q := a / b;
    assert q * b == a;
  }

  /** The skew quotient of a G count and a C count, not both zero. */
  function SkewOf(g: nat, c: nat): (q: real)
    requires g + c > 0
    ensures -1.0 <= q <= 1.0
    ensures q * (g + c) as real == (g - c) as real
    ensures q == 0.0 <==> g == c
    ensures q == 1.0 <==> c == 0
    ensures q == -1.0 <==> g == 0
  {
    var a, b := (g - c) as real, (g + c) as real;
    assert -b <= a <= b;
    SignedFraction(a, b);
    assert a == b <==> c == 0;
    assert a == -b <==> g == 0;
    a / b
  }

  lemma SignedFraction(a: real, b: real)
    requires -b <= a <= b && 0.0 < b
    ensures -1.0 <= a / b <= 1.0
    ensures (a / b) * b == a
    ensures a / b == 0.0 <==> a == 0.0
    ensures a / b == 1.0 <==> a == b
    ensures a / b == -1.0 <==> a == -b
  {
    var q := a / b;
    assert q * b == a;
  }

  /** A larger denominator never gives a larger non-negative quotient. */
  lemma Shrink(a: real, b: real)
    requires 0.0 <= a && 0.0 < b
    ensures a / (b + 1.0) <= a / b
  {
    var q := a / b;
    var p := a / (b + 1.0);
    assert q * b == a;
    assert p * (b + 1.0) == a;
  }

  /** Fraction of the window's symbols that are G or C. */
  function GcRatio(w: seq<char>): (r: real)
    requires |w| > 0
    ensures 0.0 <= r <= 1.0
    ensures r * (|w| as real) == GcCount(w) as real
    ensures r == 0.0 <==> forall i :: 0 <= i < |w| ==> !IsGc(w[i])
    ensures r == 1.0 <==> forall i :: 0 <= i < |w| ==> IsGc(w[i])
  {
    GcCountBounds(w);
    UnitFraction(GcCount(w) as real, |w| as real);
    (Count(w, 'G') + Count(w, 'C')) as real / |w| as real
  }

  /** Normalised imbalance between G and C in the window. */
  function GcSkew(w: seq<char>): (r: real)
    requires GcCount(w) > 0
    ensures -1.0 <= r <= 1.0
    ensures r == 1.0 <==> Count(w, 'C') == 0
    ensures r == -1.0 <==> Count(w, 'G') == 0
    ensures r == 0.0 <==> Count(w, 'G') == Count(w, 'C')
  {
    SkewOf(Count(w, 'G'), Count(w, 'C'))
  }

  /** The skew's value: G count minus C count, over G count plus C count. */
  lemma GcSkewValue(w: seq<char>)
    requires GcCount(w) > 0
    ensures GcSkew(w) == (Count(w, 'G') - Count(w, 'C')) as real / GcCount(w) as real
  {
  }

  /** A window metric as the scan receives it: a value for the window,
      or the error its evaluation raised. */
  type Metric = seq<char> -> Result<real, Error>

  /** The closed set of metrics a run can select. */
  datatype RatioFunc = GcRatioFunc | GcSkewFunc {

    /** The metric function registered under this entry. */
    function Func(): Metric {
      w => Apply(this, w)
    }

    /** The selection key of the metric. */
    function Name(): string {
      match this
      case GcRatioFunc => "gc_ratio"
      case GcSkewFunc => "gc_skew"
    }
  }

  /** Look a metric up by its selection key. */
  function FromName(name: string): (r: Option<RatioFunc>)
    ensures r.Some? ==> r.value.Name() == name
    ensures r.None? ==> name != GcRatioFunc.Name() && name != GcSkewFunc.Name()
  {
    if name == "gc_ratio" then Some(GcRatioFunc)
    else if name == "gc_skew" then Some(GcSkewFunc)
    else None
  }

  /** Every metric is found again under its own key. */
  lemma NameRoundTrip(f: RatioFunc)
    ensures FromName(f.Name()) == Some(f)
  {
  }

  /** Run the selected metric on a window. A division by zero, which the
      metrics do not guard against, becomes a `ZeroDivision` failure. */
  function Apply(f: RatioFunc, w: seq<char>): (r: Result<real, Error>)
    ensures r.Failure? ==> r.error == ZeroDivision
    ensures f == GcRatioFunc ==> (r.Success? <==> |w| > 0)
    ensures f == GcSkewFunc ==> (r.Success? <==> GcCount(w) > 0)
    ensures r.Success? && f == GcRatioFunc ==> 0.0 <= r.value <= 1.0
    ensures r.Success? ==> -1.0 <= r.value <= 1.0
  {
    match f
    case GcRatioFunc => if |w| == 0 then Failure(ZeroDivision) else Success(GcRatio(w))
    case GcSkewFunc => if GcCount(w) == 0 then Failure(ZeroDivision) else Success(GcSkew(w))
  }

  /** Appending a symbol that is not an upper-case G or C never raises the
      GC ratio of a window and leaves the G+C count unchanged. */
  lemma AppendNonGcNeverRaises(w: seq<char>, x: char)
    requires |w| > 0
    requires !IsGc(x)
    ensures GcCount(w + [x]) == GcCount(w)
    ensures GcRatio(w + [x]) <= GcRatio(w)
  {
    GcCountSnoc(w, x);
    Shrink(GcCount(w) as real, |w| as real);
  }

  /** Lower-case symbols are not counted: a window of lower-case g and c
      has GC ratio 0 and no defined skew. */
  lemma LowerCaseNotCounted()
    ensures GcRatio("gcgc") == 0.0
    ensures Apply(GcSkewFunc, "gcgc") == Failure(ZeroDivision)
  {
    assert multiset("gcgc") == multiset{'g', 'c', 'g', 'c'};
    assert GcCount("gcgc") == 0;
    var r := GcRatio("gcgc");
    assert r * 4.0 == 0.0;
  }
}
