/**
 The quadratic map z <- z^2 + c on complex numbers modelled as pairs of reals,
 the escape test |z| >= 2 (stated as re^2 + im^2 >= 4), and the vectorised
 "live set" operations that both the escape filter and the orbit accumulator
 perform on their parallel arrays of parameters c and iterates z.
 */
module QuadraticMap {

  datatype Complex = Complex(re: real, im: real)

  const Zero: Complex := Complex(0.0, 0.0)

  function Add(a: Complex, b: Complex): Complex
  {
    Complex(a.re + b.re, a.im + b.im)
  }

  function Square(z: Complex): Complex
  {
    Complex(z.re * z.re - z.im * z.im, 2.0 * z.re * z.im)
  }

  /** One application of the Mandelbrot dynamic, z ** 2 + c. */
  function Step(z: Complex, c: Complex): Complex
  {
    Add(Square(z), c)
  }

  function NormSq(z: Complex): real
  {
    z.re * z.re + z.im * z.im
  }

  /** abs(z) >= 2, compared on squares so that no square root is needed. */
  predicate Escaped(z: Complex)
  {
    NormSq(z) >= 4.0
  }

  /** The square [-2, 2) x [-2, 2) that candidate points are drawn from. */
  predicate InSampleSquare(z: Complex)
  {
    -2.0 <= z.re < 2.0 && -2.0 <= z.im < 2.0
  }

  /** The n-th iterate of the orbit of c when iteration starts at z = c. */
  function Iter(c: Complex, n: nat): Complex
  {
    if n == 0 then c else Step(Iter(c, n - 1), c)
  }

  /** None of the iterates 1..n of the orbit of c has escaped. */
  predicate BoundedThrough(c: Complex, n: nat)
  {
    n == 0 || (BoundedThrough(c, n - 1) && !Escaped(Iter(c, n)))
  }

  /** The orbit of c escapes for the first time at iterate k. */
  predicate FirstEscapeAt(c: Complex, k: nat)
  {
    1 <= k && BoundedThrough(c, k - 1) && Escaped(Iter(c, k))
  }

  /** Some iterate among 1..n of the orbit of c has escaped. */
  predicate EscapesWithin(c: Complex, n: nat)
  {
    !BoundedThrough(c, n)
  }

  lemma {:induction false} BoundedThroughAntitone(c: Complex, m: nat, n: nat)
    requires m <= n && BoundedThrough(c, n)
    ensures BoundedThrough(c, m)
    decreases n - m
  {
    if m < n {
      BoundedThroughAntitone(c, m, n - 1);
    }
  }

  /** Escaping within n means escaping for the first time at exactly one k in 1..n. */
  lemma {:induction false} EscapesWithinIff(c: Complex, n: nat)
    ensures EscapesWithin(c, n) <==> exists k :: 1 <= k <= n && FirstEscapeAt(c, k)
  {
    if n > 0 {
      EscapesWithinIff(c, n - 1);
      if EscapesWithin(c, n) && !EscapesWithin(c, n - 1) {
        assert FirstEscapeAt(c, n);
      }
      if exists k :: 1 <= k <= n && FirstEscapeAt(c, k) {
        var k :| 1 <= k <= n && FirstEscapeAt(c, k);
        if k == n {
          assert !BoundedThrough(c, n);
        } else {
          assert FirstEscapeAt(c, k);
          assert EscapesWithin(c, n - 1);
        }
      }
    }
  }

  lemma {:induction false} FirstEscapeUnique(c: Complex, k1: nat, k2: nat)
    requires FirstEscapeAt(c, k1) && FirstEscapeAt(c, k2)
    ensures k1 == k2
  {
    if k1 < k2 {
      BoundedThroughAntitone(c, k1, k2 - 1);
    } else if k2 < k1 {
      BoundedThroughAntitone(c, k2, k1 - 1);
    }
  }

  /** A point strictly inside the radius-2 disc lies in the sample square. */
  lemma BoundedIsInSampleSquare(z: Complex)
    requires !Escaped(z)
    ensures InSampleSquare(z)
  {
  }

  /** c = 0 is a fixed point of the map. */
  lemma {:induction false} OriginFixed(n: nat)
    ensures Iter(Zero, n) == Zero
  {
    if n > 0 {
      OriginFixed(n - 1);
    }
  }

  lemma OriginNotEscaped()
    ensures !Escaped(Zero)
  {
  }

  /** The orbit of c = 0 stays at 0, so it never escapes. */
  lemma {:induction false} OriginStaysBounded(n: nat)
    ensures BoundedThrough(Zero, n)
  {
    if n > 0 {
      OriginStaysBounded(n - 1);
      OriginFixed(n);
      OriginNotEscaped();
    }
  }

  // ---------------------------------------------------------------------
  // Parallel arrays of parameters and iterates
  // ---------------------------------------------------------------------

  /** The iterates z = Iter(c, n) paired with the parameters cs. */
  function Orbits(cs: seq<Complex>, n: nat): seq<Complex>
  {
    seq(|cs|, k requires 0 <= k < |cs| => Iter(cs[k], n))
  }

  /** z ** 2 + c applied element-wise to paired arrays. */
  function StepAll(zs: seq<Complex>, cs: seq<Complex>): seq<Complex>
    requires |zs| == |cs|
  {
    seq(|zs|, k requires 0 <= k < |zs| => Step(zs[k], cs[k]))
  }

  /**
   Boolean-mask indexing s[mask] with mask = (abs(zs) >= 2) when escaped
   holds and mask = (abs(zs) < 2) otherwise; order is kept.
   */
  function Select(s: seq<Complex>, zs: seq<Complex>, escaped: bool): (r: seq<Complex>)
    requires |s| == |zs|
    ensures |r| <= |s|
    decreases |s|
  {
    if |s| == 0 then []
    else (if Escaped(zs[0]) == escaped then [s[0]] else []) + Select(s[1..], zs[1..], escaped)
  }

  /** The two masks split an array into two parts whose lengths add up to the whole. */
  lemma {:induction false} SelectSizes(s: seq<Complex>, zs: seq<Complex>)
    requires |s| == |zs|
    ensures |Select(s, zs, true)| + |Select(s, zs, false)| == |s|
    decreases |s|
  {
    if |s| > 0 {
      SelectSizes(s[1..], zs[1..]);
    }
  }

  /** The number of times x occurs in s. */
  function Occurrences(s: seq<Complex>, x: Complex): nat
  {
    if |s| == 0 then 0 else (if s[0] == x then 1 else 0) + Occurrences(s[1..], x)
  }

  lemma {:induction false} OccurrencesAppend(a: seq<Complex>, b: seq<Complex>, x: Complex)
    ensures Occurrences(a + b, x) == Occurrences(a, x) + Occurrences(b, x)
  {
    if |a| > 0 {
      OccurrencesAppend(a[1..], b, x);
      assert (a + b)[1..] == a[1..] + b;
    } else {
      assert a + b == b;
    }
  }

  lemma {:induction false} OccurrencesAbsent(s: seq<Complex>, x: Complex)
    ensures Occurrences(s, x) == 0 <==> x !in s
  {
    if |s| > 0 {
      OccurrencesAbsent(s[1..], x);
      assert s == [s[0]] + s[1..];
    }
  }

  /** The parameters, in input order, whose orbits stay bounded through iterate n. */
  function Survivors(pts: seq<Complex>, n: nat): (r: seq<Complex>)
    ensures |r| <= |pts|
  {
    if |pts| == 0 then []
    else (if BoundedThrough(pts[0], n) then [pts[0]] else []) + Survivors(pts[1..], n)
  }

  /** The parameters, in input order, whose orbits first escape at iterate k. */
  function EscapedAt(pts: seq<Complex>, k: nat): (r: seq<Complex>)
    ensures |r| <= |pts|
  {
    if |pts| == 0 then []
    else (if FirstEscapeAt(pts[0], k) then [pts[0]] else []) + EscapedAt(pts[1..], k)
  }

  lemma {:induction false} SurvivorsMember(pts: seq<Complex>, n: nat, x: Complex)
    ensures x in Survivors(pts, n) <==> x in pts && BoundedThrough(x, n)
  {
    if |pts| > 0 {
      SurvivorsMember(pts[1..], n, x);
      assert pts == [pts[0]] + pts[1..];
    }
  }

  lemma {:induction false} EscapedAtMember(pts: seq<Complex>, k: nat, x: Complex)
    ensures x in EscapedAt(pts, k) <==> x in pts && FirstEscapeAt(x, k)
  {
    if |pts| > 0 {
      EscapedAtMember(pts[1..], k, x);
      assert pts == [pts[0]] + pts[1..];
    }
  }

  lemma {:induction false} SurvivorsZero(pts: seq<Complex>)
    ensures Survivors(pts, 0) == pts
  {
    if |pts| > 0 {
      SurvivorsZero(pts[1..]);
      assert pts == [pts[0]] + pts[1..];
    }
  }

  lemma OrbitsZero(cs: seq<Complex>)
    ensures Orbits(cs, 0) == cs
  {
  }

  lemma StepAllOrbits(cs: seq<Complex>, n: nat)
    ensures StepAll(Orbits(cs, n), cs) == Orbits(cs, n + 1)
  {
  }

  lemma OrbitsCons(cs: seq<Complex>, n: nat)
    requires |cs| > 0
    ensures Orbits(cs, n) == [Iter(cs[0], n)] + Orbits(cs[1..], n)
  {
  }

  /**
   One round of shedding. If the live parameters are the survivors of n
   steps and their iterates have just been stepped to n + 1, then masking
   with "still bounded" keeps exactly the survivors of n + 1 steps ...
   */
  lemma {:induction false} ShedLive(pts: seq<Complex>, n: nat)
    ensures Select(Survivors(pts, n), Orbits(Survivors(pts, n), n + 1), false) == Survivors(pts, n + 1)
  {
    if |pts| > 0 {
      ShedLive(pts[1..], n);
      var p := pts[0];
      var rest := Survivors(pts[1..], n);
      var live := Survivors(pts, n);
      assert live == (if BoundedThrough(p, n) then [p] else []) + rest;
      if BoundedThrough(p, n) {
        OrbitsCons(live, n + 1);
        assert live[0] == p && live[1..] == rest;
      } else {
        assert live == rest;
      }
    }
  }

  /** ... masking with "escaped" picks exactly the parameters that first escape at step n + 1 ... */
  lemma {:induction false} ShedEscaped(pts: seq<Complex>, n: nat)
    ensures Select(Survivors(pts, n), Orbits(Survivors(pts, n), n + 1), true) == EscapedAt(pts, n + 1)
  {
    if |pts| > 0 {
      ShedEscaped(pts[1..], n);
      var p := pts[0];
      var rest := Survivors(pts[1..], n);
      var live := Survivors(pts, n);
      assert live == (if BoundedThrough(p, n) then [p] else []) + rest;
      if BoundedThrough(p, n) {
        OrbitsCons(live, n + 1);
        assert live[0] == p && live[1..] == rest;
      } else {
        assert live == rest;
        assert !FirstEscapeAt(p, n + 1);
      }
    }
  }

  lemma OrbitsAppend(a: seq<Complex>, b: seq<Complex>, n: nat)
    ensures Orbits(a + b, n) == Orbits(a, n) + Orbits(b, n)
  {
  }

  /** Masking the iterates by their own escape test keeps them paired with the masked parameters. */
  lemma {:induction false} SelectOrbits(s: seq<Complex>, n: nat)
    ensures Select(Orbits(s, n), Orbits(s, n), false) == Orbits(Select(s, Orbits(s, n), false), n)
    decreases |s|
  {
    if |s| > 0 {
      var z := Orbits(s, n);
      OrbitsCons(s, n);
      assert z[1..] == Orbits(s[1..], n);
      SelectOrbits(s[1..], n);
      var head := if Escaped(z[0]) then [] else [s[0]];
      OrbitsAppend(head, Select(s[1..], z[1..], false), n);
    }
  }

  /** ... and the same mask on the iterates keeps their pairing with the survivors. */
  lemma ShedOrbits(pts: seq<Complex>, n: nat)
    ensures Select(Orbits(Survivors(pts, n), n + 1), Orbits(Survivors(pts, n), n + 1), false)
         == Orbits(Survivors(pts, n + 1), n + 1)
  {
    SelectOrbits(Survivors(pts, n), n + 1);
    ShedLive(pts, n);
  }

  /**
   Survivors of k - 1 steps split into survivors of k and first escapes at
   k: every parameter occurs in the first as often as in the other two together.
   */
  lemma {:induction false} SurvivorsSplit(pts: seq<Complex>, k: nat, x: Complex)
    requires k > 0
    ensures Occurrences(Survivors(pts, k - 1), x) == Occurrences(Survivors(pts, k), x) + Occurrences(EscapedAt(pts, k), x)
  {
    if |pts| > 0 {
      var p, j := pts[0], k - 1;
      var before, after, esc := Survivors(pts[1..], j), Survivors(pts[1..], k), EscapedAt(pts[1..], k);
      SurvivorsSplit(pts[1..], k, x);
      var hb := if BoundedThrough(p, j) then [p] else [];
      var ha := if BoundedThrough(p, k) then [p] else [];
      var he := if FirstEscapeAt(p, k) then [p] else [];
      OccurrencesAppend(hb, before, x);
      OccurrencesAppend(ha, after, x);
      OccurrencesAppend(he, esc, x);
      assert Occurrences(hb, x) == Occurrences(ha, x) + Occurrences(he, x);
    }
  }

  /** The same split, counted by length. */
  lemma {:induction false} SurvivorsSplitSize(pts: seq<Complex>, k: nat)
    requires k > 0
    ensures |Survivors(pts, k - 1)| == |Survivors(pts, k)| + |EscapedAt(pts, k)|
  {
    if |pts| > 0 {
      SurvivorsSplitSize(pts[1..], k);
    }
  }

  /** Once no parameter survives, none survives any later step either. */
  lemma SurvivorsEmptyStays(pts: seq<Complex>, i: nat, n: nat)
    requires i <= n && Survivors(pts, i) == []
    ensures Survivors(pts, n) == []
  {
    if Survivors(pts, n) != [] {
      var x := Survivors(pts, n)[0];
      SurvivorsMember(pts, n, x);
      BoundedThroughAntitone(x, i, n);
      SurvivorsMember(pts, i, x);
    }
  }
}
