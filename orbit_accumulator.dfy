/**
 buddhabrot: starting from z = c, map every live iterate to a pixel, add one
 to every occupied pixel, step all live orbits and shed the escaped ones,
 until no orbit is live.
 */
module OrbitAccumulator {
  import opened QuadraticMap

  /** Conversion of a float to int, which truncates toward zero. */
  function Trunc(v: real): (r: int)
    ensures 0.0 <= v ==> 0 <= r && r as real <= v < r as real + 1.0
    ensures v < 0.0 ==> r <= 0 && r as real - 1.0 < v <= r as real
  {
    if v >= 0.0 then v.Floor else -((-v).Floor)
  }

  /** Row index of z: int((z.real + 2) / 4 * size), a row of the image when z.real is in [-2, 2). */
  function PixelX(z: Complex, size: nat): (x: int)
    ensures 0 < size && -2.0 <= z.re < 2.0 ==> 0 <= x < size
  {
    var x := Trunc((z.re + 2.0) / 4.0 * size as real);
    assert 0 < size && -2.0 <= z.re < 2.0 ==> 0 <= x < size by {
      if 0 < size && -2.0 <= z.re < 2.0 {
        CoordinateInRange(z.re, size);
      }
    }
    x
  }

  /** Column index of z: int((z.imag + 2) / 4 * size), a column of the image when z.imag is in [-2, 2). */
  function PixelY(z: Complex, size: nat): (y: int)
    ensures 0 < size && -2.0 <= z.im < 2.0 ==> 0 <= y < size
  {
    var y := Trunc((z.im + 2.0) / 4.0 * size as real);
    assert 0 < size && -2.0 <= z.im < 2.0 ==> 0 <= y < size by {
      if 0 < size && -2.0 <= z.im < 2.0 {
        CoordinateInRange(z.im, size);
      }
    }
    y
  }

  predicate PixelInImage(z: Complex, size: nat)
  {
    0 <= PixelX(z, size) < size && 0 <= PixelY(z, size) < size
  }

  /** Some live iterate lands on pixel (x, y). */
  predicate Occupied(zs: seq<Complex>, size: nat, x: int, y: int)
  {
    exists k :: 0 <= k < |zs| && PixelX(zs[k], size) == x && PixelY(zs[k], size) == y
  }

  /** The iterates in play at round r: the orbits still bounded after r steps, at step r. */
  function LiveOrbits(cs: seq<Complex>, r: nat): seq<Complex>
  {
    Orbits(Survivors(cs, r), r)
  }

  /** The number of rounds r among the first n for which hit(r) holds. */
  function RoundsWhere(hit: nat -> bool, n: nat): (k: nat)
    ensures k <= n
  {
    if n == 0 then 0 else RoundsWhere(hit, n - 1) + (if hit(n - 1) then 1 else 0)
  }

  /** Pixel (x, y) is occupied at round r. */
  function Hits(cs: seq<Complex>, size: nat, x: int, y: int): nat -> bool
  {
    (r: nat) => Occupied(LiveOrbits(cs, r), size, x, y)
  }

  /** The value of histogram cell (x, y) after the first n rounds. */
  function OrbitCount(cs: seq<Complex>, size: nat, x: int, y: int, n: nat): nat
  {
    RoundsWhere(Hits(cs, size, x, y), n)
  }

  lemma TruncOfNonNegative(v: real)
    requires v >= 0.0
    ensures Trunc(v) == v.Floor && 0 <= Trunc(v)
  {
  }

  lemma ProductBelow(t: real, s: real)
    requires 0.0 <= t < 1.0 && s > 0.0
    ensures 0.0 <= t * s < s
  {
    assert s - t * s == (1.0 - t) * s;
  }

  /** A coordinate in [-2, 2) is mapped into [0, size). */
  lemma CoordinateInRange(u: real, size: nat)
    requires size > 0 && -2.0 <= u < 2.0
    ensures 0 <= Trunc((u + 2.0) / 4.0 * size as real) < size
  {
    var t := (u + 2.0) / 4.0;
    var s := size as real;
    var v := t * s;
    ProductBelow(t, s);
    TruncOfNonNegative(v);
    assert v.Floor as real <= v;
    assert v.Floor < size;
  }

  /** Points of the sample square [-2, 2) x [-2, 2) are mapped inside the image. */
  lemma PixelInRange(z: Complex, size: nat)
    requires size > 0 && InSampleSquare(z)
    ensures PixelInImage(z, size)
  {
    CoordinateInRange(z.re, size);
    CoordinateInRange(z.im, size);
  }

  /** Every live iterate lies in the sample square: at round 0 it is c, later it has not escaped. */
  lemma LiveInSampleSquare(cs: seq<Complex>, r: nat)
    requires forall c :: c in cs ==> InSampleSquare(c)
    ensures forall k :: 0 <= k < |LiveOrbits(cs, r)| ==> InSampleSquare(LiveOrbits(cs, r)[k])
  {
    var live := Survivors(cs, r);
    forall k | 0 <= k < |LiveOrbits(cs, r)|
      ensures InSampleSquare(LiveOrbits(cs, r)[k])
    {
      SurvivorsMember(cs, r, live[k]);
      if r > 0 {
        BoundedIsInSampleSquare(Iter(live[k], r));
      }
    }
  }

  /** Pixel (x, y) is occupied at round r iff the orbit of some parameter, still live, is there. */
  lemma LiveOccupied(cs: seq<Complex>, size: nat, x: int, y: int, r: nat)
    ensures Occupied(LiveOrbits(cs, r), size, x, y)
        <==> exists c :: c in cs && BoundedThrough(c, r) && PixelX(Iter(c, r), size) == x && PixelY(Iter(c, r), size) == y
  {
    var live := Survivors(cs, r);
    var zs := LiveOrbits(cs, r);
    if Occupied(zs, size, x, y) {
      var k :| 0 <= k < |zs| && PixelX(zs[k], size) == x && PixelY(zs[k], size) == y;
      SurvivorsMember(cs, r, live[k]);
    }
    if exists c :: c in cs && BoundedThrough(c, r) && PixelX(Iter(c, r), size) == x && PixelY(Iter(c, r), size) == y {
      var c :| c in cs && BoundedThrough(c, r) && PixelX(Iter(c, r), size) == x && PixelY(Iter(c, r), size) == y;
      SurvivorsMember(cs, r, c);
      var k :| 0 <= k < |live| && live[k] == c;
      assert zs[k] == Iter(c, r);
    }
  }

  lemma {:induction false} RoundsMonotone(hit: nat -> bool, m: nat, n: nat)
    requires m <= n
    ensures RoundsWhere(hit, m) <= RoundsWhere(hit, n)
    decreases n - m
  {
    if m < n {
      RoundsMonotone(hit, m, n - 1);
    }
  }

  lemma {:induction false} RoundsStable(hit: nat -> bool, i: nat, n: nat)
    requires i <= n && forall r :: i <= r < n ==> !hit(r)
    ensures RoundsWhere(hit, n) == RoundsWhere(hit, i)
    decreases n - i
  {
    if i < n {
      RoundsStable(hit, i, n - 1);
    }
  }

  lemma {:induction false} RoundsPositive(hit: nat -> bool, n: nat)
    ensures RoundsWhere(hit, n) > 0 <==> exists r :: 0 <= r < n && hit(r)
  {
    if n > 0 {
      RoundsPositive(hit, n - 1);
      if hit(n - 1) {
        assert 0 <= n - 1 < n && hit(n - 1);
      }
    }
  }

  /** A round adds one to a cell exactly when the cell is occupied in that round. */
  lemma OrbitCountStep(cs: seq<Complex>, size: nat, x: int, y: int, n: nat)
    ensures OrbitCount(cs, size, x, y, n + 1)
         == OrbitCount(cs, size, x, y, n) + (if Occupied(LiveOrbits(cs, n), size, x, y) then 1 else 0)
  {
    assert Hits(cs, size, x, y)(n) == Occupied(LiveOrbits(cs, n), size, x, y);
  }

  /** Cells never decrease from one round to the next, and rise at most once per round. */
  lemma OrbitCountMonotone(cs: seq<Complex>, size: nat, x: int, y: int, m: nat, n: nat)
    requires m <= n
    ensures OrbitCount(cs, size, x, y, m) <= OrbitCount(cs, size, x, y, n) <= OrbitCount(cs, size, x, y, m) + (n - m)
  {
    RoundsMonotone(Hits(cs, size, x, y), m, n);
    RoundsAtMost(Hits(cs, size, x, y), m, n);
  }

  lemma {:induction false} RoundsAtMost(hit: nat -> bool, m: nat, n: nat)
    requires m <= n
    ensures RoundsWhere(hit, n) <= RoundsWhere(hit, m) + (n - m)
    decreases n - m
  {
    if m < n {
      RoundsAtMost(hit, m, n - 1);
    }
  }

  /** Once no orbit is live, later rounds record nothing. */
  lemma OrbitCountStable(cs: seq<Complex>, size: nat, x: int, y: int, i: nat, n: nat)
    requires i <= n && Survivors(cs, i) == []
    ensures OrbitCount(cs, size, x, y, n) == OrbitCount(cs, size, x, y, i)
  {
    forall r | i <= r < n
      ensures !Hits(cs, size, x, y)(r)
    {
      SurvivorsEmptyStays(cs, i, r);
      assert LiveOrbits(cs, r) == [];
    }
    RoundsStable(Hits(cs, size, x, y), i, n);
  }

  /** A cell is non-zero iff some round among the first n has an orbit on it. */
  lemma OrbitCountPositive(cs: seq<Complex>, size: nat, x: int, y: int, n: nat)
    ensures OrbitCount(cs, size, x, y, n) > 0 <==> exists r :: 0 <= r < n && Occupied(LiveOrbits(cs, r), size, x, y)
  {
    RoundsPositive(Hits(cs, size, x, y), n);
    assert forall r :: Hits(cs, size, x, y)(r) == Occupied(LiveOrbits(cs, r), size, x, y);
  }

  /** The first recorded iterate is z = c, so the pixel of every parameter is counted. */
  lemma ParameterRecorded(cs: seq<Complex>, size: nat, n: nat, c: Complex)
    requires c in cs && n > 0
    ensures OrbitCount(cs, size, PixelX(c, size), PixelY(c, size), n) >= 1
  {
    var x, y := PixelX(c, size), PixelY(c, size);
    assert Iter(c, 0) == c;
    LiveOccupied(cs, size, x, y, 0);
    OrbitCountStep(cs, size, x, y, 0);
    OrbitCountMonotone(cs, size, x, y, 1, n);
  }

  /** img_array[x, y] += 1 for the pixels (x, y) of the live iterates zs. */
  method RecordRound(img: array2<int>, zs: seq<Complex>, size: nat)
    requires img.Length0 == size && img.Length1 == size
    requires forall k :: 0 <= k < |zs| ==> PixelInImage(zs[k], size)
    modifies img
    ensures forall x, y :: 0 <= x < size && 0 <= y < size ==>
              img[x, y] == old(img[x, y]) + (if Occupied(zs, size, x, y) then 1 else 0)
  {
    forall x, y | 0 <= x < size && 0 <= y < size {
      img[x, y] := img[x, y] + (if Occupied(zs, size, x, y) then 1 else 0);
    }
  }

  /** z = z ** 2 + c, then c = c[abs(z) < 2] and z = z[abs(z) < 2]. */
  method ShedRound(c: seq<Complex>, z: seq<Complex>, ghost pts: seq<Complex>, ghost n: nat)
    returns (c': seq<Complex>, z': seq<Complex>)
    requires c == Survivors(pts, n) && z == Orbits(c, n)
    ensures c' == Survivors(pts, n + 1) && z' == Orbits(c', n + 1)
  {
    z' := StepAll(z, c);
    assert z' == Orbits(c, n + 1) by { StepAllOrbits(c, n); }
    ShedLive(pts, n);
    ShedOrbits(pts, n);
    var mask := z';
    c', z' := Select(c, mask, false), Select(z', mask, false);
  }

  /** While some orbit is live, the round counter is below the bound every orbit escapes by. */
  lemma LiveBeforeBound(cs: seq<Complex>, i: nat, bound: nat)
    requires forall c :: c in cs ==> EscapesWithin(c, bound)
    requires Survivors(cs, i) != []
    ensures i < bound
  {
    var x := Survivors(cs, i)[0];
    SurvivorsMember(cs, i, x);
    if bound <= i {
      BoundedThroughAntitone(x, bound, i);
    }
  }

  /** One pass of the while loop: record the live pixels, then step and shed. */
  method Round(img: array2<int>, c: seq<Complex>, z: seq<Complex>, size: nat, ghost cs: seq<Complex>, ghost i: nat)
    returns (c': seq<Complex>, z': seq<Complex>)
    requires forall p :: p in cs ==> InSampleSquare(p)
    requires |cs| == 0 || size > 0
    requires c == Survivors(cs, i) && z == Orbits(c, i)
    requires img.Length0 == size && img.Length1 == size
    requires forall x, y :: 0 <= x < size && 0 <= y < size ==> img[x, y] == OrbitCount(cs, size, x, y, i)
    modifies img
    ensures c' == Survivors(cs, i + 1) && z' == Orbits(c', i + 1)
    ensures forall x, y :: 0 <= x < size && 0 <= y < size ==> img[x, y] == OrbitCount(cs, size, x, y, i + 1)
  {
    LiveInSampleSquare(cs, i);
    assert z == LiveOrbits(cs, i);
    assert |z| == |c| <= |cs|;
    forall k | 0 <= k < |z| ensures PixelInImage(z[k], size) {
      PixelInRange(z[k], size);
    }
    RecordRound(img, z, size);
    forall x, y | 0 <= x < size && 0 <= y < size
      ensures img[x, y] == OrbitCount(cs, size, x, y, i + 1)
    {
      OrbitCountStep(cs, size, x, y, i);
    }
    c', z' := ShedRound(c, z, cs, i);
  }

  /**
   buddhabrot(c, size). Termination: every parameter escapes within the
   ghost bound, which c_set guarantees for its output.
   */
  method Buddhabrot(cs: seq<Complex>, size: nat, ghost bound: nat) returns (img: array2<int>)
    requires forall c :: c in cs ==> InSampleSquare(c) && EscapesWithin(c, bound)
    requires |cs| == 0 || size > 0
    ensures fresh(img)
    ensures img.Length0 == size && img.Length1 == size
    ensures forall x, y :: 0 <= x < size && 0 <= y < size ==> img[x, y] == OrbitCount(cs, size, x, y, bound)
  {
    img := new int[size, size]((_, _) => 0);
    var c := cs;
    var z := cs;
    ghost var i: nat := 0;
    SurvivorsZero(cs);
    OrbitsZero(cs);

    while |z| > 0
      invariant i <= bound
      invariant c == Survivors(cs, i) && z == Orbits(c, i)
      invariant img.Length0 == size && img.Length1 == size
      invariant forall x, y :: 0 <= x < size && 0 <= y < size ==> img[x, y] == OrbitCount(cs, size, x, y, i)
      decreases bound - i
    {
      LiveBeforeBound(cs, i, bound);
      c, z := Round(img, c, z, size, cs, i);
      i := i + 1;
    }

    forall x, y | 0 <= x < size && 0 <= y < size
      ensures OrbitCount(cs, size, x, y, bound) == OrbitCount(cs, size, x, y, i)
    {
      OrbitCountStable(cs, size, x, y, i, bound);
    }
  }
}
