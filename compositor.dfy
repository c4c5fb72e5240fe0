/**
 The main block: each pass draws three candidate sets, runs buddhabrot on
 the c_set output of each, adds the result into the red, green and blue
 histograms, scales every histogram to 16 bits by its maximum and
 interleaves the three scaled planes into one size x 3*size buffer.
 */
module Compositor {
  import opened QuadraticMap
  import opened EscapeFilter
  import opened OrbitAccumulator

  datatype Channel = Red | Green | Blue

  /** The bailout values (red, green, blue). */
  datatype Budgets = Budgets(red: nat, green: nat, blue: nat)
  {
    function Of(ch: Channel): nat
    {
      match ch
      case Red => red
      case Green => green
      case Blue => blue
    }
  }

  /** The random candidates one pass draws for each channel, in the order they are drawn. */
  datatype PassDraws = PassDraws(red: seq<Complex>, green: seq<Complex>, blue: seq<Complex>)
  {
    function Of(ch: Channel): seq<Complex>
    {
      match ch
      case Red => red
      case Green => green
      case Blue => blue
    }
  }

  /**
   Rendered: the output buffer holds the interleaved scaled histograms.
   DegenerateHistogram: a maximum was zero; the pass writes nothing, so the
   buffer keeps the previous pass's contents.
   */
  datatype Status = Rendered | DegenerateHistogram(channel: Channel)

  /** 2 ** 16 - 1, the largest 16-bit sample. */
  const MaxSample: int := 65535

  /** Every candidate set of the draw has the requested size and lies in [-2, 2) x [-2, 2). */
  predicate DrawOk(d: PassDraws, samples: nat)
  {
    forall ch: Channel :: |d.Of(ch)| == samples && forall c :: c in d.Of(ch) ==> InSampleSquare(c)
  }

  /** Cell (x, y) of the buddhabrot histogram that one pass adds to channel ch. */
  function PassHist(d: PassDraws, ch: Channel, iterations: Budgets, size: nat,
                    outsideCardioid: Complex -> bool, x: int, y: int): nat
  {
    OrbitCount(NonMsetPoints(d.Of(ch), iterations.Of(ch), outsideCardioid), size, x, y, iterations.Of(ch))
  }

  /** f(0) + f(1) + ... + f(n - 1). */
  function SumTo(f: nat -> nat, n: nat): nat
  {
    if n == 0 then 0 else SumTo(f, n - 1) + f(n - 1)
  }

  lemma {:induction false} SumMonotone(f: nat -> nat, m: nat, n: nat)
    requires m <= n
    ensures SumTo(f, m) <= SumTo(f, n)
    decreases n - m
  {
    if m < n {
      SumMonotone(f, m, n - 1);
    }
  }

  lemma {:induction false} SumBound(f: nat -> nat, n: nat, b: nat)
    requires forall p: nat :: p < n ==> f(p) <= b
    ensures SumTo(f, n) <= n * b
  {
    if n > 0 {
      SumBound(f, n - 1, b);
      assert n * b == (n - 1) * b + b;
    }
  }

  /** The contribution of every pass to cell (x, y) of channel ch. */
  function PassesOf(draws: seq<PassDraws>, ch: Channel, iterations: Budgets, size: nat,
                    outsideCardioid: Complex -> bool, x: int, y: int): nat -> nat
  {
    (p: nat) => if p < |draws| then PassHist(draws[p], ch, iterations, size, outsideCardioid, x, y) else 0
  }

  /** Cell (x, y) of the histogram of channel ch after the first n passes. */
  function TotalHist(draws: seq<PassDraws>, n: nat, ch: Channel, iterations: Budgets, size: nat,
                     outsideCardioid: Complex -> bool, x: int, y: int): nat
    requires n <= |draws|
  {
    SumTo(PassesOf(draws, ch, iterations, size, outsideCardioid, x, y), n)
  }

  /** Pass n adds its own histogram to the running total. */
  lemma TotalHistStep(draws: seq<PassDraws>, n: nat, ch: Channel, iterations: Budgets, size: nat,
                      outsideCardioid: Complex -> bool, x: int, y: int)
    requires n < |draws|
    ensures TotalHist(draws, n + 1, ch, iterations, size, outsideCardioid, x, y)
         == TotalHist(draws, n, ch, iterations, size, outsideCardioid, x, y)
            + PassHist(draws[n], ch, iterations, size, outsideCardioid, x, y)
  {
    assert PassesOf(draws, ch, iterations, size, outsideCardioid, x, y)(n)
        == PassHist(draws[n], ch, iterations, size, outsideCardioid, x, y);
  }

  /** Each pass adds at most one count per round, so a cell never exceeds passes times rounds. */
  lemma TotalHistBound(draws: seq<PassDraws>, n: nat, ch: Channel, iterations: Budgets, size: nat,
                       outsideCardioid: Complex -> bool, x: int, y: int)
    requires n <= |draws|
    ensures TotalHist(draws, n, ch, iterations, size, outsideCardioid, x, y) <= n * iterations.Of(ch)
  {
    var f := PassesOf(draws, ch, iterations, size, outsideCardioid, x, y);
    forall p: nat | p < n
      ensures f(p) <= iterations.Of(ch)
    {
      var d := draws[p];
      var b := iterations.Of(ch);
      OrbitCountMonotone(NonMsetPoints(d.Of(ch), b, outsideCardioid), size, x, y, 0, b);
    }
    SumBound(f, n, iterations.Of(ch));
  }

  /** Histograms only grow from pass to pass. */
  lemma TotalHistMonotone(draws: seq<PassDraws>, m: nat, n: nat, ch: Channel, iterations: Budgets,
                          size: nat, outsideCardioid: Complex -> bool, x: int, y: int)
    requires m <= n <= |draws|
    ensures TotalHist(draws, m, ch, iterations, size, outsideCardioid, x, y)
         <= TotalHist(draws, n, ch, iterations, size, outsideCardioid, x, y)
  {
    SumMonotone(PassesOf(draws, ch, iterations, size, outsideCardioid, x, y), m, n);
  }

  // ---------------------------------------------------------------------
  // Normalisation: int(H / float(H.max()) * (2 ** 16 - 1))
  // ---------------------------------------------------------------------

  /** The scaled value of cell v of a histogram whose maximum is m. */
  function ScaleCell(v: int, m: int): int
    requires m > 0
  {
    (v * MaxSample) / m
  }

  lemma MulMonotone(a: int, b: int, c: int)
    requires a <= b && c >= 0
    ensures a * c <= b * c
  {
    assert b * c - a * c == (b - a) * c;
  }

  /** The scaled value is the floor of v / m * 65535. */
  lemma ScaleCellFloor(v: int, m: int)
    requires m > 0
    ensures ScaleCell(v, m) * m <= v * MaxSample < (ScaleCell(v, m) + 1) * m
  {
    var a := v * MaxSample;
    var q := a / m;
    assert a == q * m + a % m;
    assert (q + 1) * m == q * m + m;
  }

  /** A cell between 0 and the maximum scales into [0, 65535]. */
  lemma ScaleCellRange(v: int, m: int)
    requires 0 <= v <= m && m > 0
    ensures 0 <= ScaleCell(v, m) <= MaxSample
  {
    var r := ScaleCell(v, m);
    ScaleCellFloor(v, m);
    MulMonotone(0, v, MaxSample);
    if r < 0 {
      MulMonotone(r + 1, 0, m);
    }
    MulMonotone(v, m, MaxSample);
    if r > MaxSample {
      MulMonotone(MaxSample + 1, r, m);
    }
  }

  /** The maximum itself scales to exactly 65535. */
  lemma ScaleCellOfMax(m: int)
    requires m > 0
    ensures ScaleCell(m, m) == MaxSample
  {
    assert m * MaxSample == MaxSample * m;
  }

  /** Scaling keeps the order of cells. */
  lemma ScaleCellMonotone(v: int, w: int, m: int)
    requires v <= w && m > 0
    ensures ScaleCell(v, m) <= ScaleCell(w, m)
  {
    var a, b := ScaleCell(v, m), ScaleCell(w, m);
    ScaleCellFloor(v, m);
    ScaleCellFloor(w, m);
    MulMonotone(v, w, MaxSample);
    if a > b {
      MulMonotone(b + 1, a, m);
    }
  }

  function Max(a: int, b: int): int
  {
    if a < b then b else a
  }

  /** The largest of a[i, 0 .. n). */
  function RowMax(a: array2<int>, i: nat, n: nat): int
    reads a
    requires i < a.Length0 && 0 < n <= a.Length1
  {
    if n == 1 then a[i, 0] else Max(RowMax(a, i, n - 1), a[i, n - 1])
  }

  /** The largest cell among the rows 0 .. n). */
  function RowsMax(a: array2<int>, n: nat): int
    reads a
    requires 0 < n <= a.Length0 && 0 < a.Length1
  {
    if n == 1 then RowMax(a, 0, a.Length1) else Max(RowsMax(a, n - 1), RowMax(a, n - 1, a.Length1))
  }

  /** H.max() of a non-empty histogram. */
  function GridMax(a: array2<int>): int
    reads a
    requires 0 < a.Length0 && 0 < a.Length1
  {
    RowsMax(a, a.Length0)
  }

  lemma {:induction false} RowMaxIsMax(a: array2<int>, i: nat, n: nat)
    requires i < a.Length0 && 0 < n <= a.Length1
    ensures forall j :: 0 <= j < n ==> a[i, j] <= RowMax(a, i, n)
    ensures exists j :: 0 <= j < n && a[i, j] == RowMax(a, i, n)
  {
    if n == 1 {
      assert a[i, 0] == RowMax(a, i, n);
    } else {
      RowMaxIsMax(a, i, n - 1);
      var j :| 0 <= j < n - 1 && a[i, j] == RowMax(a, i, n - 1);
      if RowMax(a, i, n - 1) < a[i, n - 1] {
        assert a[i, n - 1] == RowMax(a, i, n);
      } else {
        assert a[i, j] == RowMax(a, i, n);
      }
    }
  }

  lemma {:induction false} RowsMaxIsMax(a: array2<int>, n: nat)
    requires 0 < n <= a.Length0 && 0 < a.Length1
    ensures forall i, j :: 0 <= i < n && 0 <= j < a.Length1 ==> a[i, j] <= RowsMax(a, n)
    ensures exists i, j :: 0 <= i < n && 0 <= j < a.Length1 && a[i, j] == RowsMax(a, n)
  {
    RowMaxIsMax(a, n - 1, a.Length1);
    if n == 1 {
      var j :| 0 <= j < a.Length1 && a[0, j] == RowMax(a, 0, a.Length1);
      assert a[0, j] == RowsMax(a, n);
    } else {
      RowsMaxIsMax(a, n - 1);
      var i, j :| 0 <= i < n - 1 && 0 <= j < a.Length1 && a[i, j] == RowsMax(a, n - 1);
      var j' :| 0 <= j' < a.Length1 && a[n - 1, j'] == RowMax(a, n - 1, a.Length1);
      if RowsMax(a, n - 1) < RowMax(a, n - 1, a.Length1) {
        assert a[n - 1, j'] == RowsMax(a, n);
      } else {
        assert a[i, j] == RowsMax(a, n);
      }
    }
  }

  /** H.max() bounds every cell and some cell attains it. */
  lemma GridMaxIsMax(a: array2<int>)
    requires 0 < a.Length0 && 0 < a.Length1
    ensures forall i, j :: 0 <= i < a.Length0 && 0 <= j < a.Length1 ==> a[i, j] <= GridMax(a)
    ensures exists i, j :: 0 <= i < a.Length0 && 0 <= j < a.Length1 && a[i, j] == GridMax(a)
  {
    RowsMaxIsMax(a, a.Length0);
  }

  predicate NonNegative(h: array2<int>)
    reads h
  {
    forall i, j :: 0 <= i < h.Length0 && 0 <= j < h.Length1 ==> 0 <= h[i, j]
  }

  /**
   With a positive maximum, every cell of a non-negative histogram scales
   into [0, 65535] and some cell scales to exactly 65535.
   */
  lemma ScaledHistogramRange(h: array2<int>)
    requires 0 < h.Length0 && 0 < h.Length1 && GridMax(h) > 0
    requires forall i, j :: 0 <= i < h.Length0 && 0 <= j < h.Length1 ==> 0 <= h[i, j]
    ensures forall i, j :: 0 <= i < h.Length0 && 0 <= j < h.Length1 ==> 0 <= ScaleCell(h[i, j], GridMax(h)) <= MaxSample
    ensures exists i, j :: 0 <= i < h.Length0 && 0 <= j < h.Length1 && ScaleCell(h[i, j], GridMax(h)) == MaxSample
  {
    var m := GridMax(h);
    GridMaxIsMax(h);
    forall i, j | 0 <= i < h.Length0 && 0 <= j < h.Length1
      ensures 0 <= ScaleCell(h[i, j], m) <= MaxSample
    {
      ScaleCellRange(h[i, j], m);
    }
    var i, j :| 0 <= i < h.Length0 && 0 <= j < h.Length1 && h[i, j] == m;
    ScaleCellOfMax(m);
  }

  /** A maximum of zero in a non-negative histogram means that no cell was ever hit. */
  lemma ZeroMaxMeansEmpty(h: array2<int>)
    requires 0 < h.Length0 && 0 < h.Length1 && GridMax(h) == 0
    requires forall i, j :: 0 <= i < h.Length0 && 0 <= j < h.Length1 ==> 0 <= h[i, j]
    ensures forall i, j :: 0 <= i < h.Length0 && 0 <= j < h.Length1 ==> h[i, j] == 0
  {
    GridMaxIsMax(h);
  }

  /** The maximum of a non-negative histogram is non-negative. */
  lemma GridMaxNonNegative(h: array2<int>)
    requires 0 < h.Length0 && 0 < h.Length1 && NonNegative(h)
    ensures GridMax(h) >= 0
  {
    GridMaxIsMax(h);
    assert h[0, 0] <= GridMax(h);
  }

  // ---------------------------------------------------------------------
  // The per-pass array operations
  // ---------------------------------------------------------------------

  /** img_array += buddhabrot_result, cell by cell. */
  method Accumulate(acc: array2<int>, h: array2<int>)
    requires acc.Length0 == h.Length0 && acc.Length1 == h.Length1 && acc != h
    modifies acc
    ensures forall x, y :: 0 <= x < acc.Length0 && 0 <= y < acc.Length1 ==> acc[x, y] == old(acc[x, y]) + h[x, y]
  {
    forall x, y | 0 <= x < acc.Length0 && 0 <= y < acc.Length1 {
      acc[x, y] := acc[x, y] + h[x, y];
    }
  }

  /** img_array += buddhabrot(c, size). */
  method AddHistogram(acc: array2<int>, cs: seq<Complex>, size: nat, ghost bound: nat)
    requires size > 0 && acc.Length0 == size && acc.Length1 == size
    requires forall c :: c in cs ==> InSampleSquare(c) && EscapesWithin(c, bound)
    modifies acc
    ensures forall x, y :: 0 <= x < size && 0 <= y < size ==>
              acc[x, y] == old(acc[x, y]) + OrbitCount(cs, size, x, y, bound)
  {
    var h := Buddhabrot(cs, size, bound);
    Accumulate(acc, h);
  }

  /** np.array(H / float(m) * (2 ** 16 - 1), int) for a maximum m > 0. */
  method ScaleChannel(h: array2<int>, m: int) returns (s: array2<int>)
    requires m > 0
    ensures fresh(s)
    ensures s.Length0 == h.Length0 && s.Length1 == h.Length1
    ensures forall x, y :: 0 <= x < h.Length0 && 0 <= y < h.Length1 ==> s[x, y] == ScaleCell(h[x, y], m)
  {
    s := new int[h.Length0, h.Length1];
    forall x, y | 0 <= x < h.Length0 && 0 <= y < h.Length1 {
      s[x, y] := ScaleCell(h[x, y], m);
    }
  }

  /** The interleave loop: blue in slot 0, green in slot 1, red in slot 2 of every pixel. */
  method Interleave(png: array2<int>, blue: array2<int>, green: array2<int>, red: array2<int>, size: nat)
    requires png.Length0 == size && png.Length1 == 3 * size
    requires blue.Length0 == size && blue.Length1 == size
    requires green.Length0 == size && green.Length1 == size
    requires red.Length0 == size && red.Length1 == size
    requires png != blue && png != green && png != red
    modifies png
    ensures forall i, j :: 0 <= i < size && 0 <= j < size ==>
              png[i, 3 * j] == blue[i, j] && png[i, 3 * j + 1] == green[i, j] && png[i, 3 * j + 2] == red[i, j]
  {
    for i := 0 to size
      invariant forall i', j :: 0 <= i' < i && 0 <= j < size ==>
                  png[i', 3 * j] == blue[i', j] && png[i', 3 * j + 1] == green[i', j] && png[i', 3 * j + 2] == red[i', j]
    {
      for j := 0 to size
        invariant forall i', j' :: 0 <= i' < i && 0 <= j' < size ==>
                    png[i', 3 * j'] == blue[i', j'] && png[i', 3 * j' + 1] == green[i', j'] && png[i', 3 * j' + 2] == red[i', j']
        invariant forall j' :: 0 <= j' < j ==>
                    png[i, 3 * j'] == blue[i, j'] && png[i, 3 * j' + 1] == green[i, j'] && png[i, 3 * j' + 2] == red[i, j']
      {
        png[i, j * 3 + 0] := blue[i, j];
        png[i, j * 3 + 1] := green[i, j];
        png[i, j * 3 + 2] := red[i, j];
      }
    }
  }

  /** The three histograms have positive maxima, so that the scaling divides by non-zero values. */
  predicate MaximaPositive(red: array2<int>, green: array2<int>, blue: array2<int>)
    reads red, green, blue
  {
    0 < red.Length0 && 0 < red.Length1 && 0 < green.Length0 && 0 < green.Length1
    && 0 < blue.Length0 && 0 < blue.Length1
    && GridMax(red) > 0 && GridMax(green) > 0 && GridMax(blue) > 0
  }

  /**
   The output buffer holds the three histograms, each scaled by its own
   maximum, in slot order blue, green, red.
   */
  predicate Shows(png: array2<int>, red: array2<int>, green: array2<int>, blue: array2<int>, size: nat)
    reads png, red, green, blue
  {
    MaximaPositive(red, green, blue)
    && png.Length0 == size && png.Length1 == 3 * size
    && red.Length0 == size && red.Length1 == size
    && green.Length0 == size && green.Length1 == size
    && blue.Length0 == size && blue.Length1 == size
    && forall i, j :: 0 <= i < size && 0 <= j < size ==>
         png[i, 3 * j] == ScaleCell(blue[i, j], GridMax(blue))
         && png[i, 3 * j + 1] == ScaleCell(green[i, j], GridMax(green))
         && png[i, 3 * j + 2] == ScaleCell(red[i, j], GridMax(red))
  }

  /**
   The normaliser and the interleave of one pass. When a maximum is zero the
   model reports the first such channel in the order red, green, blue and
   writes nothing into the buffer.
   */
  method Normalise(png: array2<int>, red: array2<int>, green: array2<int>, blue: array2<int>, size: nat)
    returns (status: Status)
    requires size > 0 && png.Length0 == size && png.Length1 == 3 * size
    requires red.Length0 == size && red.Length1 == size
    requires green.Length0 == size && green.Length1 == size
    requires blue.Length0 == size && blue.Length1 == size
    requires png != red && png != green && png != blue
    requires NonNegative(red) && NonNegative(green) && NonNegative(blue)
    modifies png
    ensures status == Rendered <==> MaximaPositive(red, green, blue)
    ensures status == DegenerateHistogram(Red) ==> GridMax(red) == 0
    ensures status == DegenerateHistogram(Green) ==> GridMax(red) > 0 && GridMax(green) == 0
    ensures status == DegenerateHistogram(Blue) ==> GridMax(red) > 0 && GridMax(green) > 0 && GridMax(blue) == 0
    ensures status == Rendered ==> Shows(png, red, green, blue, size)
    ensures status != Rendered ==> unchanged(png)
  {
    var mRed, mGreen, mBlue := GridMax(red), GridMax(green), GridMax(blue);
    GridMaxNonNegative(red);
    GridMaxNonNegative(green);
    GridMaxNonNegative(blue);
    if mRed == 0 {
      status := DegenerateHistogram(Red);
    } else if mGreen == 0 {
      status := DegenerateHistogram(Green);
    } else if mBlue == 0 {
      status := DegenerateHistogram(Blue);
    } else {
      ScaleAndInterleave(png, red, green, blue, size, mRed, mGreen, mBlue);
      status := Rendered;
    }
  }

  /**
   Scales each histogram by its own positive maximum and interleaves the
   three scaled planes into the buffer, blue, green, red in every pixel.
   */
  method ScaleAndInterleave(png: array2<int>, red: array2<int>, green: array2<int>, blue: array2<int>, size: nat,
                            mRed: int, mGreen: int, mBlue: int)
    requires png.Length0 == size && png.Length1 == 3 * size
    requires red.Length0 == size && red.Length1 == size
    requires green.Length0 == size && green.Length1 == size
    requires blue.Length0 == size && blue.Length1 == size
    requires png != red && png != green && png != blue
    requires mRed > 0 && mGreen > 0 && mBlue > 0
    modifies png
    ensures forall i, j :: 0 <= i < size && 0 <= j < size ==>
              png[i, 3 * j] == ScaleCell(blue[i, j], mBlue)
              && png[i, 3 * j + 1] == ScaleCell(green[i, j], mGreen)
              && png[i, 3 * j + 2] == ScaleCell(red[i, j], mRed)
  {
    var redScaled := ScaleChannel(red, mRed);
    var greenScaled := ScaleChannel(green, mGreen);
    var blueScaled := ScaleChannel(blue, mBlue);
    Interleave(png, blueScaled, greenScaled, redScaled, size);
  }

  /** The histogram of a channel holds the sum of the first p passes. */
  predicate HoldsPasses(h: array2<int>, draws: seq<PassDraws>, p: nat, ch: Channel, iterations: Budgets,
                        size: nat, outsideCardioid: Complex -> bool)
    reads h
    requires p <= |draws|
  {
    h.Length0 == size && h.Length1 == size &&
    forall x, y :: 0 <= x < size && 0 <= y < size ==>
      h[x, y] == TotalHist(draws, p, ch, iterations, size, outsideCardioid, x, y)
  }

  lemma HoldsPassesNonNegative(h: array2<int>, draws: seq<PassDraws>, p: nat, ch: Channel, iterations: Budgets,
                               size: nat, outsideCardioid: Complex -> bool)
    requires p <= |draws| && HoldsPasses(h, draws, p, ch, iterations, size, outsideCardioid)
    ensures NonNegative(h)
  {
  }

  /** Running buddhabrot on one channel's c_set output adds that pass's histogram. */
  method ChannelPass(acc: array2<int>, cs: seq<Complex>, size: nat, ghost candidates: seq<Complex>, iterations: nat,
                     outsideCardioid: Complex -> bool, ghost draws: seq<PassDraws>, ghost p: nat, ghost ch: Channel,
                     ghost budgets: Budgets)
    requires size > 0 && p < |draws| && candidates == draws[p].Of(ch) && iterations == budgets.Of(ch)
    requires forall c :: c in candidates ==> InSampleSquare(c)
    requires cs == NonMsetPoints(candidates, iterations, outsideCardioid)
    requires HoldsPasses(acc, draws, p, ch, budgets, size, outsideCardioid)
    modifies acc
    ensures HoldsPasses(acc, draws, p + 1, ch, budgets, size, outsideCardioid)
  {
    NonMsetPointsEscape(candidates, iterations, outsideCardioid);
    AddHistogram(acc, cs, size, iterations);
    forall x, y | 0 <= x < size && 0 <= y < size
      ensures acc[x, y] == TotalHist(draws, p + 1, ch, budgets, size, outsideCardioid, x, y)
    {
      TotalHistStep(draws, p, ch, budgets, size, outsideCardioid, x, y);
    }
  }

  /**
   The accumulating half of a pass: one c_set draw per channel, then each
   channel's buddhabrot histogram added into its running total.
   */
  method AccumulatePass(red: array2<int>, green: array2<int>, blue: array2<int>, size: nat,
                        iterations: Budgets, samples: nat, d: PassDraws, outsideCardioid: Complex -> bool,
                        ghost draws: seq<PassDraws>, ghost p: nat)
    requires size > 0 && p < |draws| && d == draws[p] && DrawOk(d, samples)
    requires red != green && red != blue && green != blue
    requires HoldsPasses(red, draws, p, Red, iterations, size, outsideCardioid)
    requires HoldsPasses(green, draws, p, Green, iterations, size, outsideCardioid)
    requires HoldsPasses(blue, draws, p, Blue, iterations, size, outsideCardioid)
    modifies red, green, blue
    ensures HoldsPasses(red, draws, p + 1, Red, iterations, size, outsideCardioid)
    ensures HoldsPasses(green, draws, p + 1, Green, iterations, size, outsideCardioid)
    ensures HoldsPasses(blue, draws, p + 1, Blue, iterations, size, outsideCardioid)
  {
    assert |d.Of(Red)| == samples && |d.Of(Green)| == samples && |d.Of(Blue)| == samples;
    var cRed := CSet(samples, iterations.red, d.red, outsideCardioid);
    var cGreen := CSet(samples, iterations.green, d.green, outsideCardioid);
    var cBlue := CSet(samples, iterations.blue, d.blue, outsideCardioid);

    assert forall c :: c in d.Of(Red) ==> InSampleSquare(c);
    assert forall c :: c in d.Of(Green) ==> InSampleSquare(c);
    assert forall c :: c in d.Of(Blue) ==> InSampleSquare(c);
    ChannelPass(red, cRed, size, d.red, iterations.red, outsideCardioid, draws, p, Red, iterations);
    ChannelPass(green, cGreen, size, d.green, iterations.green, outsideCardioid, draws, p, Green, iterations);
    ChannelPass(blue, cBlue, size, d.blue, iterations.blue, outsideCardioid, draws, p, Blue, iterations);
  }

  /**
   The state of the main block after p passes: each histogram holds the sum
   of the first p passes, and from the first pass on the status reports
   whether the last normalisation succeeded, the buffer then showing the
   scaled histograms.
   */
  predicate Rendering(png: array2<int>, red: array2<int>, green: array2<int>, blue: array2<int>, size: nat,
                      iterations: Budgets, draws: seq<PassDraws>, p: nat, outsideCardioid: Complex -> bool,
                      status: Status)
    reads png, red, green, blue
    requires p <= |draws|
  {
    HoldsPasses(red, draws, p, Red, iterations, size, outsideCardioid)
    && HoldsPasses(green, draws, p, Green, iterations, size, outsideCardioid)
    && HoldsPasses(blue, draws, p, Blue, iterations, size, outsideCardioid)
    && (p > 0 ==> (status == Rendered <==> MaximaPositive(red, green, blue)))
    && (p > 0 && status == Rendered ==> Shows(png, red, green, blue, size))
  }

  /**
   The interleave leaves no column of the buffer unwritten: column col
   holds the scaled cell of pixel col / 3 of the plane its slot names.
   */
  lemma ShownCell(png: array2<int>, red: array2<int>, green: array2<int>, blue: array2<int>, size: nat,
                  i: int, col: int)
    requires Shows(png, red, green, blue, size)
    requires 0 <= i < size && 0 <= col < 3 * size
    ensures col / 3 < size
    ensures col % 3 == 0 ==> png[i, col] == ScaleCell(blue[i, col / 3], GridMax(blue))
    ensures col % 3 == 1 ==> png[i, col] == ScaleCell(green[i, col / 3], GridMax(green))
    ensures col % 3 == 2 ==> png[i, col] == ScaleCell(red[i, col / 3], GridMax(red))
  {
    var j, k := col / 3, col % 3;
    assert col == 3 * j + k && 0 <= k < 3;
    assert png[i, 3 * j] == ScaleCell(blue[i, j], GridMax(blue))
        && png[i, 3 * j + 1] == ScaleCell(green[i, j], GridMax(green))
        && png[i, 3 * j + 2] == ScaleCell(red[i, j], GridMax(red));
    if k == 0 {
      assert col == 3 * j;
    } else if k == 1 {
      assert col == 3 * j + 1;
    } else {
      assert col == 3 * j + 2;
    }
  }

  /** With non-negative histograms every sample of the shown buffer is a 16-bit value. */
  lemma ShownRange(png: array2<int>, red: array2<int>, green: array2<int>, blue: array2<int>, size: nat)
    requires Shows(png, red, green, blue, size)
    requires NonNegative(red) && NonNegative(green) && NonNegative(blue)
    ensures forall i, col :: 0 <= i < size && 0 <= col < 3 * size ==> 0 <= png[i, col] <= MaxSample
  {
    GridMaxIsMax(red);
    GridMaxIsMax(green);
    GridMaxIsMax(blue);
    forall i, col | 0 <= i < size && 0 <= col < 3 * size
      ensures 0 <= png[i, col] <= MaxSample
    {
      ShownCell(png, red, green, blue, size, i, col);
      var j := col / 3;
      if col % 3 == 0 {
        ScaleCellRange(blue[i, j], GridMax(blue));
      } else if col % 3 == 1 {
        ScaleCellRange(green[i, j], GridMax(green));
      } else {
        ScaleCellRange(red[i, j], GridMax(red));
      }
    }
  }

  /** After any pass that rendered, every sample of the output buffer is a 16-bit value. */
  lemma RenderedRange(png: array2<int>, red: array2<int>, green: array2<int>, blue: array2<int>, size: nat,
                      iterations: Budgets, draws: seq<PassDraws>, p: nat, outsideCardioid: Complex -> bool)
    requires 0 < p <= |draws|
    requires Rendering(png, red, green, blue, size, iterations, draws, p, outsideCardioid, Rendered)
    ensures forall i, col :: 0 <= i < size && 0 <= col < 3 * size ==> 0 <= png[i, col] <= MaxSample
  {
    HoldsPassesNonNegative(red, draws, p, Red, iterations, size, outsideCardioid);
    HoldsPassesNonNegative(green, draws, p, Green, iterations, size, outsideCardioid);
    HoldsPassesNonNegative(blue, draws, p, Blue, iterations, size, outsideCardioid);
    ShownRange(png, red, green, blue, size);
  }

  /** One pass of the main loop: accumulate the three histograms, then normalise and interleave. */
  method Pass(png: array2<int>, red: array2<int>, green: array2<int>, blue: array2<int>, size: nat,
              iterations: Budgets, samples: nat, d: PassDraws, outsideCardioid: Complex -> bool,
              ghost draws: seq<PassDraws>, ghost p: nat, ghost before: Status)
    returns (status: Status)
    requires size > 0 && p < |draws| && d == draws[p] && DrawOk(d, samples)
    requires png.Length0 == size && png.Length1 == 3 * size
    requires red != green && red != blue && green != blue
    requires png != red && png != green && png != blue
    requires Rendering(png, red, green, blue, size, iterations, draws, p, outsideCardioid, before)
    modifies png, red, green, blue
    ensures Rendering(png, red, green, blue, size, iterations, draws, p + 1, outsideCardioid, status)
  {
    AccumulatePass(red, green, blue, size, iterations, samples, d, outsideCardioid, draws, p);
    HoldsPassesNonNegative(red, draws, p + 1, Red, iterations, size, outsideCardioid);
    HoldsPassesNonNegative(green, draws, p + 1, Green, iterations, size, outsideCardioid);
    HoldsPassesNonNegative(blue, draws, p + 1, Blue, iterations, size, outsideCardioid);
    status := Normalise(png, red, green, blue, size);
  }

  /** The loop of the main block, run from the state before the first pass. */
  method RunPasses(png: array2<int>, red: array2<int>, green: array2<int>, blue: array2<int>, size: nat,
                   iterations: Budgets, samples: nat, loops: nat, draws: seq<PassDraws>,
                   outsideCardioid: Complex -> bool)
    returns (status: Status)
    requires (size > 0 || loops == 0) && |draws| == loops
    requires forall p :: 0 <= p < loops ==> DrawOk(draws[p], samples)
    requires png.Length0 == size && png.Length1 == 3 * size
    requires red != green && red != blue && green != blue
    requires png != red && png != green && png != blue
    requires Rendering(png, red, green, blue, size, iterations, draws, 0, outsideCardioid, Rendered)
    modifies png, red, green, blue
    ensures Rendering(png, red, green, blue, size, iterations, draws, loops, outsideCardioid, status)
    ensures loops == 0 ==> status == Rendered && unchanged(png)
  {
    status := Rendered;
    for pass := 0 to loops
      invariant Rendering(png, red, green, blue, size, iterations, draws, pass, outsideCardioid, status)
      invariant pass == 0 ==> status == Rendered && unchanged(png)
    {
      status := Pass(png, red, green, blue, size, iterations, samples, draws[pass], outsideCardioid, draws, pass, status);
    }
  }

  /**
   The main block for the given configuration and draws: zeroed histograms
   and output buffer, then loops passes, each adding into the three
   histograms and rewriting the output buffer.
   */
  method Render(size: nat, iterations: Budgets, samples: nat, loops: nat, draws: seq<PassDraws>,
                outsideCardioid: Complex -> bool)
    returns (png: array2<int>, red: array2<int>, green: array2<int>, blue: array2<int>, status: Status)
    requires (size > 0 || loops == 0) && |draws| == loops
    requires forall p :: 0 <= p < loops ==> DrawOk(draws[p], samples)
    ensures png.Length0 == size && png.Length1 == 3 * size
    ensures Rendering(png, red, green, blue, size, iterations, draws, loops, outsideCardioid, status)
    ensures loops == 0 ==> status == Rendered && forall i, col :: 0 <= i < size && 0 <= col < 3 * size ==> png[i, col] == 0
  {
    red := new int[size, size]((_, _) => 0);
    green := new int[size, size]((_, _) => 0);
    blue := new int[size, size]((_, _) => 0);
    png := new int[size, 3 * size]((_, _) => 0);
    status := RunPasses(png, red, green, blue, size, iterations, samples, loops, draws, outsideCardioid);
  }
}
