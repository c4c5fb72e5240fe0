/**
 The analytic pre-filters of c_set: candidate points inside the main
 cardioid or the period-2 bulb are removed before the escape loop.
 The random draw itself is not modelled: the candidates are an input.
 */
module Sampler {
  import opened QuadraticMap

  /** Outside the closed disc of radius 1/4 around -1: (re + 1)^2 + im^2 > 0.0625. */
  predicate OutsideBulb(c: Complex)
  {
    (c.re + 1.0) * (c.re + 1.0) + c.im * c.im > 0.0625
  }

  /** Boolean-mask indexing c[p(c)]: the elements satisfying p, in order. */
  function Filter(s: seq<Complex>, p: Complex -> bool): (r: seq<Complex>)
    ensures |r| <= |s|
  {
    if |s| == 0 then [] else (if p(s[0]) then [s[0]] else []) + Filter(s[1..], p)
  }

  /** The mask keeps every occurrence of a point that satisfies p and drops every other. */
  lemma {:induction false} FilterOccurrences(s: seq<Complex>, p: Complex -> bool, x: Complex)
    ensures Occurrences(Filter(s, p), x) == if p(x) then Occurrences(s, x) else 0
  {
    if |s| > 0 {
      FilterOccurrences(s[1..], p, x);
      OccurrencesAppend(if p(s[0]) then [s[0]] else [], Filter(s[1..], p), x);
      assert s == [s[0]] + s[1..];
      OccurrencesAppend([s[0]], s[1..], x);
    }
  }

  lemma FilterMember(s: seq<Complex>, p: Complex -> bool, x: Complex)
    ensures x in Filter(s, p) <==> x in s && p(x)
  {
    FilterOccurrences(s, p, x);
    OccurrencesAbsent(s, x);
    OccurrencesAbsent(Filter(s, p), x);
  }

  /**
   The cardioid mask (first filter) followed by the bulb mask (second
   filter). The cardioid test compares abs(c) with the boundary magnitude
   at the same angle through exp and angle; it is the parameter
   outsideCardioid.
   */
  function PreFilter(candidates: seq<Complex>, outsideCardioid: Complex -> bool): (pts: seq<Complex>)
    ensures |pts| <= |candidates|
  {
    Filter(Filter(candidates, outsideCardioid), OutsideBulb)
  }

  /** A candidate survives the pre-filters iff it lies outside the cardioid and outside the bulb. */
  lemma PreFilterMember(candidates: seq<Complex>, outsideCardioid: Complex -> bool, x: Complex)
    ensures x in PreFilter(candidates, outsideCardioid) <==> x in candidates && outsideCardioid(x) && OutsideBulb(x)
  {
    FilterMember(candidates, outsideCardioid, x);
    FilterMember(Filter(candidates, outsideCardioid), OutsideBulb, x);
  }

  /** Each surviving candidate keeps its multiplicity; the others occur no more. */
  lemma PreFilterOccurrences(candidates: seq<Complex>, outsideCardioid: Complex -> bool, x: Complex)
    ensures Occurrences(PreFilter(candidates, outsideCardioid), x)
         == if outsideCardioid(x) && OutsideBulb(x) then Occurrences(candidates, x) else 0
  {
    FilterOccurrences(candidates, outsideCardioid, x);
    FilterOccurrences(Filter(candidates, outsideCardioid), OutsideBulb, x);
  }
}
