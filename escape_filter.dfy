/**
 c_set: pre-filter the candidates, then iterate z <- z^2 + c from z = c for
 a fixed number of iterations, appending the parameters whose iterate
 escapes to a preallocated buffer at a running cursor and shedding them
 from the live arrays.
 */
module EscapeFilter {
  import opened QuadraticMap
  import opened Sampler

  /**
   What the buffer prefix holds after k iterations: first the parameters
   that escape at iteration 1, then those that escape at iteration 2, and
   so on, each group in input order.
   */
  function EscapeSpec(pts: seq<Complex>, k: nat): seq<Complex>
  {
    if k == 0 then [] else EscapeSpec(pts, k - 1) + EscapedAt(pts, k)
  }

  /** The value c_set returns for the given draw of candidates. */
  function NonMsetPoints(candidates: seq<Complex>, iterations: nat, outsideCardioid: Complex -> bool): seq<Complex>
  {
    EscapeSpec(PreFilter(candidates, outsideCardioid), iterations)
  }

  lemma {:induction false} EscapeSpecCount(pts: seq<Complex>, k: nat, x: Complex)
    requires k > 0
    ensures Occurrences(EscapeSpec(pts, k), x) == Occurrences(EscapeSpec(pts, k - 1), x) + Occurrences(EscapedAt(pts, k), x)
  {
    OccurrencesAppend(EscapeSpec(pts, k - 1), EscapedAt(pts, k), x);
  }

  /**
   After k iterations every pre-filtered point is either in the returned
   prefix or still live, and not in both: each point occurs in the two
   together exactly as often as among the pre-filtered points.
   */
  lemma {:induction false} EscapePartition(pts: seq<Complex>, k: nat, x: Complex)
    ensures Occurrences(EscapeSpec(pts, k), x) + Occurrences(Survivors(pts, k), x) == Occurrences(pts, x)
  {
    if k == 0 {
      SurvivorsZero(pts);
    } else {
      var j := k - 1;
      EscapePartition(pts, j, x);
      EscapeSpecCount(pts, k, x);
      SurvivorsSplit(pts, k, x);
    }
  }

  /** The cursor plus the number of live points equals the pre-filtered count. */
  lemma {:induction false} EscapeCount(pts: seq<Complex>, k: nat)
    ensures |EscapeSpec(pts, k)| + |Survivors(pts, k)| == |pts|
  {
    if k == 0 {
      SurvivorsZero(pts);
    } else {
      var j := k - 1;
      EscapeCount(pts, j);
      SurvivorsSplitSize(pts, k);
      assert |EscapeSpec(pts, k)| == |EscapeSpec(pts, j)| + |EscapedAt(pts, k)|;
    }
  }

  /** A point is returned iff it passed the pre-filters' output and escapes within k iterations. */
  lemma {:induction false} EscapeSpecMember(pts: seq<Complex>, k: nat, x: Complex)
    ensures x in EscapeSpec(pts, k) <==> x in pts && EscapesWithin(x, k)
  {
    if k > 0 {
      EscapeSpecMember(pts, k - 1, x);
      EscapedAtMember(pts, k, x);
      assert x in EscapeSpec(pts, k) <==> x in EscapeSpec(pts, k - 1) || x in EscapedAt(pts, k);
      if x in pts && EscapesWithin(x, k) && !EscapesWithin(x, k - 1) {
        assert FirstEscapeAt(x, k);
      }
    }
  }

  /**
   Each escaping point is returned exactly as often as it was drawn, and a
   point still bounded after the last iteration is not returned at all.
   */
  lemma EscapedExactlyOnce(pts: seq<Complex>, k: nat, x: Complex)
    ensures EscapesWithin(x, k) ==> Occurrences(EscapeSpec(pts, k), x) == Occurrences(pts, x)
    ensures !EscapesWithin(x, k) ==> Occurrences(EscapeSpec(pts, k), x) == 0
  {
    EscapePartition(pts, k, x);
    SurvivorsMember(pts, k, x);
    EscapeSpecMember(pts, k, x);
    OccurrencesAbsent(Survivors(pts, k), x);
    OccurrencesAbsent(EscapeSpec(pts, k), x);
  }

  /**
   Every point c_set returns was a candidate, lies outside the cardioid and
   the bulb, and escapes within the iteration budget; a candidate with all
   three properties is returned.
   */
  lemma NonMsetPointsMember(candidates: seq<Complex>, iterations: nat, outsideCardioid: Complex -> bool, x: Complex)
    ensures x in NonMsetPoints(candidates, iterations, outsideCardioid)
        <==> x in candidates && outsideCardioid(x) && OutsideBulb(x) && EscapesWithin(x, iterations)
  {
    EscapeSpecMember(PreFilter(candidates, outsideCardioid), iterations, x);
    PreFilterMember(candidates, outsideCardioid, x);
  }

  /** The facts the orbit accumulator needs of c_set's output. */
  lemma NonMsetPointsEscape(candidates: seq<Complex>, iterations: nat, outsideCardioid: Complex -> bool)
    requires forall c :: c in candidates ==> InSampleSquare(c)
    ensures forall c :: c in NonMsetPoints(candidates, iterations, outsideCardioid) ==>
              InSampleSquare(c) && EscapesWithin(c, iterations)
  {
    forall c | c in NonMsetPoints(candidates, iterations, outsideCardioid)
      ensures InSampleSquare(c) && EscapesWithin(c, iterations)
    {
      NonMsetPointsMember(candidates, iterations, outsideCardioid, c);
    }
  }

  /** The origin lies in the Mandelbrot set and is never returned. */
  lemma OriginNotReturned(pts: seq<Complex>, k: nat)
    ensures Zero !in EscapeSpec(pts, k)
  {
    OriginStaysBounded(k);
    EscapeSpecMember(pts, k, Zero);
  }

  /**
   One iteration of the escape loop on the live arrays: z = z ** 2 + c,
   collect c[abs(z) >= 2], then keep c[abs(z) < 2] and z[abs(z) < 2].
   */
  method EscapeRound(c: seq<Complex>, z: seq<Complex>, ghost pts: seq<Complex>, ghost n: nat)
    returns (escaped: seq<Complex>, c': seq<Complex>, z': seq<Complex>)
    requires c == Survivors(pts, n) && z == Orbits(c, n)
    ensures escaped == EscapedAt(pts, n + 1)
    ensures c' == Survivors(pts, n + 1) && z' == Orbits(c', n + 1)
    ensures |escaped| + |c'| == |c|
  {
    var stepped := StepAll(z, c);
    assert stepped == Orbits(c, n + 1) by { StepAllOrbits(c, n); }
    ShedLive(pts, n);
    ShedEscaped(pts, n);
    ShedOrbits(pts, n);
    var mask := stepped;
    escaped := Select(c, mask, true);
    c', z' := Select(c, mask, false), Select(stepped, mask, false);
    SelectSizes(c, mask);
  }

  /** The slice assignment buf[at:at + len(s)] = s. */
  method AssignSlice(buf: array<Complex>, at: nat, s: seq<Complex>)
    requires at + |s| <= buf.Length
    modifies buf
    ensures buf[..at + |s|] == old(buf[..at]) + s
    ensures buf[at + |s|..] == old(buf[at + |s|..])
  {
    forall k | 0 <= k < |s| {
      buf[at + k] := s[k];
    }
    assert buf[..at + |s|] == old(buf[..at]) + s by {
      assert forall k :: 0 <= k < at ==> buf[k] == old(buf[k]);
    }
  }

  /**
   One pass of the for loop: step, append the escaped parameters at the
   cursor, advance the cursor, shed the escaped points.
   */
  method Iteration(nonMsets: array<Complex>, found: nat, c: seq<Complex>, z: seq<Complex>,
                   ghost pts: seq<Complex>, ghost i: nat)
    returns (found': nat, c': seq<Complex>, z': seq<Complex>)
    requires c == Survivors(pts, i) && z == Orbits(c, i)
    requires found + |c| == |pts| <= nonMsets.Length
    requires nonMsets[..found] == EscapeSpec(pts, i)
    modifies nonMsets
    ensures c' == Survivors(pts, i + 1) && z' == Orbits(c', i + 1)
    ensures found' + |c'| == |pts|
    ensures nonMsets[..found'] == EscapeSpec(pts, i + 1)
  {
    var newNonMsets;
    newNonMsets, c', z' := EscapeRound(c, z, pts, i);
    AssignSlice(nonMsets, found, newNonMsets);
    found' := found + |newNonMsets|;
    assert EscapeSpec(pts, i + 1) == EscapeSpec(pts, i) + newNonMsets;
  }

  /** c_set(num_samples, iterations) on the candidate draw. */
  method CSet(numSamples: nat, iterations: nat, candidates: seq<Complex>, outsideCardioid: Complex -> bool)
    returns (found: seq<Complex>)
    requires |candidates| == numSamples
    ensures found == NonMsetPoints(candidates, iterations, outsideCardioid)
    ensures |found| <= numSamples
  {
    var nonMsets := new Complex[numSamples](_ => Zero);
    var nonMsetsFound: nat := 0;

    var c := PreFilter(candidates, outsideCardioid);
    ghost var pts := c;
    var z := c;
    SurvivorsZero(pts);
    OrbitsZero(c);

    for i := 0 to iterations
      invariant c == Survivors(pts, i) && z == Orbits(c, i)
      invariant nonMsetsFound + |c| == |pts| <= numSamples
      invariant nonMsets[..nonMsetsFound] == EscapeSpec(pts, i)
    {
      nonMsetsFound, c, z := Iteration(nonMsets, nonMsetsFound, c, z, pts, i);
    }
    found := nonMsets[..nonMsetsFound];
  }
}
