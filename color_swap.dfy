/**
 The channel-swap script: an image read in OpenCV's blue, green, red
 channel order is rewritten as one size x 3*size buffer whose three slots
 per pixel take the source channels blue, red, green, in that order.
 */
module ColorSwap {

  /** OpenCV's channel indices: an image read with imread has blue first. */
  const BlueBgr: nat := 0
  const GreenBgr: nat := 1
  const RedBgr: nat := 2

  /** The source channel written into output slot k of a pixel. */
  function SourceChannel(k: nat): (ch: nat)
    requires k < 3
    ensures ch < 3
  {
    if k == 0 then BlueBgr else if k == 1 then RedBgr else GreenBgr
  }

  /** The output slot that receives source channel ch. */
  function TargetSlot(ch: nat): (k: nat)
    requires ch < 3
    ensures k < 3
  {
    if ch == BlueBgr then 0 else if ch == RedBgr then 1 else 2
  }

  /** TargetSlot and SourceChannel are inverse permutations of {0, 1, 2}. */
  lemma SlotsArePermutation()
    ensures forall k: nat :: k < 3 ==> TargetSlot(SourceChannel(k)) == k
    ensures forall ch: nat :: ch < 3 ==> SourceChannel(TargetSlot(ch)) == ch
    ensures forall k: nat, l: nat :: k < 3 && l < 3 && SourceChannel(k) == SourceChannel(l) ==> k == l
  {
  }

  /**
   The inline comments name the slots Red, Green, Blue, but the second
   slot takes the red channel and the third the green one.
   */
  lemma SlotsDisagreeWithComments()
    ensures SourceChannel(1) == RedBgr && SourceChannel(1) != GreenBgr
    ensures SourceChannel(2) == GreenBgr && SourceChannel(2) != BlueBgr
  {
  }

  /** The output buffer holds the source's first size columns, channels reordered. */
  predicate Swapped(png: array2<int>, src: array3<int>)
    reads png, src
  {
    var size := src.Length0;
    png.Length0 == size && png.Length1 == 3 * size && size <= src.Length1 && 3 <= src.Length2
    && forall i, j, k :: 0 <= i < size && 0 <= j < size && 0 <= k < 3 ==>
         png[i, 3 * j + k] == src[i, j, SourceChannel(k)]
  }

  /** Every source sample of the first size columns lands in exactly its target slot. */
  lemma SampleLands(png: array2<int>, src: array3<int>, i: int, j: int, ch: nat)
    requires Swapped(png, src)
    requires 0 <= i < src.Length0 && 0 <= j < src.Length0 && ch < 3
    ensures png[i, 3 * j + TargetSlot(ch)] == src[i, j, ch]
    ensures forall k :: 0 <= k < 3 && k != TargetSlot(ch) ==> SourceChannel(k) != ch
  {
    assert SourceChannel(TargetSlot(ch)) == ch;
  }

  /**
   Every cell of the buffer is written with a sample of the source, so a
   cell is zero only where that sample is zero.
   */
  lemma SwappedCell(png: array2<int>, src: array3<int>, i: int, col: int)
    requires Swapped(png, src)
    requires 0 <= i < png.Length0 && 0 <= col < png.Length1
    ensures col / 3 < src.Length1
    ensures png[i, col] == src[i, col / 3, SourceChannel(col % 3)]
  {
    var j, k := col / 3, col % 3;
    assert 3 * j + k == col && 0 <= k < 3;
  }

  /** The inner loop for row i: the three slots of every pixel of the row. */
  method SwapRow(png: array2<int>, src: array3<int>, i: nat)
    requires png.Length0 == src.Length0 && png.Length1 == 3 * src.Length0
    requires src.Length0 <= src.Length1 && 3 <= src.Length2 && i < src.Length0
    modifies png
    ensures forall r, col :: 0 <= r < png.Length0 && r != i && 0 <= col < png.Length1 ==>
              png[r, col] == old(png[r, col])
    ensures forall j, k :: 0 <= j < src.Length0 && 0 <= k < 3 ==> png[i, 3 * j + k] == src[i, j, SourceChannel(k)]
  {
    var size := src.Length0;
    for j := 0 to size
      invariant forall r, col :: 0 <= r < size && r != i && 0 <= col < 3 * size ==> png[r, col] == old(png[r, col])
      invariant forall j', k :: 0 <= j' < j && 0 <= k < 3 ==> png[i, 3 * j' + k] == src[i, j', SourceChannel(k)]
    {
      png[i, 3 * j + 0] := src[i, j, BlueBgr];
      png[i, 3 * j + 1] := src[i, j, RedBgr];
      png[i, 3 * j + 2] := src[i, j, GreenBgr];
    }
  }

  /**
   The whole script between reading and writing the image. ok is false
   when the script raises IndexError: the image has fewer than three
   channels, or fewer columns than rows; the buffer is then still zero.
   */
  method SwapChannels(src: array3<int>) returns (ok: bool, png: array2<int>)
    ensures fresh(png)
    ensures png.Length0 == src.Length0 && png.Length1 == 3 * src.Length0
    ensures ok <==> 3 <= src.Length2 && src.Length0 <= src.Length1
    ensures ok ==> Swapped(png, src)
    ensures !ok ==> forall i, col :: 0 <= i < png.Length0 && 0 <= col < png.Length1 ==> png[i, col] == 0
  {
    var size := src.Length0;
    png := new int[size, 3 * size]((_, _) => 0);
    if src.Length2 < 3 || src.Length1 < size {
      ok := false;
      return;
    }
    for i := 0 to size
      invariant forall r, j, k :: 0 <= r < i && 0 <= j < size && 0 <= k < 3 ==>
                  png[r, 3 * j + k] == src[r, j, SourceChannel(k)]
    {
      SwapRow(png, src, i);
    }
    ok := true;
  }
}
