/**
  The output decoder of the harness (`parse_image`): the simulated pipeline
  writes one number per line, three per output pixel, pixels in row-major
  order over the 2*height x 2*width output grid, and the channels of each
  pixel in the reverse of the order the image array keeps them. Cell
  (i, j, c) of the output image takes entry (i * W + j) * 3 + (2 - c) of that
  list, with W = 2 * width; this module proves that map a bijection from the
  H x W x 3 cells onto the first 3 * H * W entries.
 */
module OutputDecoder {
  import opened Wrappers

  /** The entry of the output list that cell (i, j, c) of a grid w pixels wide is read from. */
  function FlatIndex(w: nat, i: nat, j: nat, c: nat): nat
    requires j < w && c < 3
  {
    (i * w + j) * 3 + (2 - c)
  }

  /** The cell that entry n of the output list is read into, on a grid w pixels wide. */
  function CellOf(w: nat, n: nat): (cell: (nat, nat, nat))
    requires w > 0
    ensures cell.1 < w && cell.2 < 3
  {
    (n / 3 / w, (n / 3) % w, 2 - n % 3)
  }

  /** Euclidean division undone: the quotient and remainder of q * d + r by d. */
  lemma DivModOf(q: nat, d: nat, r: nat)
    requires 0 <= r < d
    ensures (q * d + r) / d == q && (q * d + r) % d == r
  {
    var n := q * d + r;
    var q', r' := n / d, n % d;
    assert q' * d + r' == q * d + r;
    assert (q' - q) * d == r - r';
    SmallMultiple(q' - q, d);
  }

  /** The only multiple of d strictly between -d and d is zero. */
  lemma SmallMultiple(k: int, d: nat)
    requires -(d as int) < k * d < d
    ensures k == 0
  {
  }

  /** Cancelling a common factor from a strict inequality of products. */
  lemma MulLess(a: nat, b: nat, w: nat)
    requires a * w < b * w
    ensures a < b
  {
  }

  /** Row-major positions of a grid h rows of w pixels lie below h * w. */
  lemma RowMajorBelow(w: nat, h: nat, i: nat, j: nat)
    requires i < h && j < w
    ensures i * w + j + 1 <= h * w
  {
    assert (i + 1) * w <= h * w;
  }

  /** Every cell of an h x w x 3 output image reads an entry below 3 * h * w. */
  lemma FlatIndexInRange(w: nat, h: nat, i: nat, j: nat, c: nat)
    requires i < h && j < w && c < 3
    ensures FlatIndex(w, i, j, c) < 3 * h * w
  {
    RowMajorBelow(w, h, i, j);
  }

  /** The entry a cell reads is read into that cell and no other: the map is injective. */
  lemma CellOfFlatIndex(w: nat, i: nat, j: nat, c: nat)
    requires j < w && c < 3
    ensures CellOf(w, FlatIndex(w, i, j, c)) == (i, j, c)
  {
    var p := i * w + j;
    DivModOf(p, 3, 2 - c);
    DivModOf(i, w, j);
  }

  /** Every entry below 3 * h * w is read by the cell CellOf gives: the map is onto. */
  lemma FlatIndexOfCell(w: nat, h: nat, n: nat)
    requires w > 0 && n < 3 * h * w
    ensures CellOf(w, n).0 < h
    ensures FlatIndex(w, CellOf(w, n).0, CellOf(w, n).1, CellOf(w, n).2) == n
  {
    var p := n / 3;
    assert n == p * 3 + n % 3;
    assert p < h * w;
    assert p / w * w <= p;
    MulLess(p / w, h, w);
  }

  /** Each entry below 3 * h * w is used by exactly one cell of the image. */
  lemma ExactlyOnce(w: nat, h: nat, n: nat, i: nat, j: nat, c: nat)
    requires w > 0 && n < 3 * h * w && i < h && j < w && c < 3
    ensures FlatIndex(w, i, j, c) == n <==> (i, j, c) == CellOf(w, n)
  {
    CellOfFlatIndex(w, i, j, c);
    FlatIndexOfCell(w, h, n);
  }

  /** Output pixel (r, k) of `img` holds its three entries of `outfile`, channels reversed. */
  ghost predicate PixelParsed(img: array3<int>, outfile: seq<int>, r: nat, k: nat)
    reads img
    requires r < img.Length0 && k < img.Length1 && img.Length2 == 3
  {
    FlatIndex(img.Length1, r, k, 0) < |outfile| &&
    forall c :: 0 <= c < 3 ==> img[r, k, c] == outfile[FlatIndex(img.Length1, r, k, c)]
  }

  /**
    `parse_image` with the list `outfile` already loaded and the input image's
    size (`hRes` wide, `vRes` high) given: fills a zero array of shape
    (2 * vRes, 2 * hRes, 3) row by row. A list too short for the image makes
    the indexing fail, and no image comes out (None).
   */
  method ParseImage(outfile: seq<int>, hRes: nat, vRes: nat) returns (result: Option<array3<int>>)
    ensures result.Some? <==> 3 * ((2 * vRes) * (2 * hRes)) <= |outfile|
    ensures result.Some? ==> fresh(result.value)
    ensures result.Some? ==> var img := result.value;
              img.Length0 == 2 * vRes && img.Length1 == 2 * hRes && img.Length2 == 3 &&
              forall i, j, c :: 0 <= i < 2 * vRes && 0 <= j < 2 * hRes && 0 <= c < 3 ==>
                FlatIndex(2 * hRes, i, j, c) < |outfile| && img[i, j, c] == outfile[FlatIndex(2 * hRes, i, j, c)]
  {
    var newVRes := 2 * vRes;
    var newHRes := 2 * hRes;
    var outimage := new int[newVRes, newHRes, 3]((_, _, _) => 0);
    for i := 0 to newVRes
      invariant 3 * (i * newHRes) <= |outfile|
      invariant forall r, k :: 0 <= r < i && 0 <= k < newHRes ==> PixelParsed(outimage, outfile, r, k)
    {
      label Before:
      var ok := ParseRow(outfile, outimage, i);
      forall r, k | 0 <= r < i && 0 <= k < newHRes ensures PixelParsed(outimage, outfile, r, k) {
        assert old@Before(PixelParsed(outimage, outfile, r, k));
      }
      RowsBelow(i, newVRes, newHRes);
      if !ok {
        // IndexError: the list ends inside row i.
        return None;
      }
    }
    result := Some(outimage);
    forall i, j, c | 0 <= i < newVRes && 0 <= j < newHRes && 0 <= c < 3
      ensures FlatIndex(newHRes, i, j, c) < |outfile| && outimage[i, j, c] == outfile[FlatIndex(newHRes, i, j, c)]
    {
      assert PixelParsed(outimage, outfile, i, j);
      FlatIndexInRange(newHRes, newVRes, i, j, c);
    }
  }

  /** Row i of `parse_image`: the pixels of output row i, left to right. Fails (false)
      when the list ends before the row does; other rows are left as they were. */
  method ParseRow(outfile: seq<int>, outimage: array3<int>, i: nat) returns (ok: bool)
    requires i < outimage.Length0 && outimage.Length2 == 3
    requires 3 * (i * outimage.Length1) <= |outfile|
    modifies outimage
    ensures ok <==> 3 * (i * outimage.Length1 + outimage.Length1) <= |outfile|
    ensures ok ==> forall k :: 0 <= k < outimage.Length1 ==> PixelParsed(outimage, outfile, i, k)
    ensures forall r, k, c :: 0 <= r < outimage.Length0 && r != i && 0 <= k < outimage.Length1 && 0 <= c < 3 ==>
              outimage[r, k, c] == old(outimage[r, k, c])
  {
    var newHRes := outimage.Length1;
    for j := 0 to newHRes
      invariant 3 * (i * newHRes + j) <= |outfile|
      invariant forall k :: 0 <= k < j ==> PixelParsed(outimage, outfile, i, k)
      invariant forall r, k, c :: 0 <= r < outimage.Length0 && r != i && 0 <= k < newHRes && 0 <= c < 3 ==>
                  outimage[r, k, c] == old(outimage[r, k, c])
    {
      var base := (i * newHRes + j) * 3;
      if base + 2 >= |outfile| {
        return false;
      }
      label Before:
      ParsePixel(outfile, outimage, i, j);
      forall k | 0 <= k < j ensures PixelParsed(outimage, outfile, i, k) {
        assert old@Before(PixelParsed(outimage, outfile, i, k));
      }
    }
    return true;
  }

  /** Pixel (i, j) of `parse_image`: channel c takes entry (i * W + j) * 3 + (2 - c). */
  method ParsePixel(outfile: seq<int>, outimage: array3<int>, i: nat, j: nat)
    requires i < outimage.Length0 && j < outimage.Length1 && outimage.Length2 == 3
    requires (i * outimage.Length1 + j) * 3 + 2 < |outfile|
    modifies outimage
    ensures PixelParsed(outimage, outfile, i, j)
    ensures forall r, k, c ::
              0 <= r < outimage.Length0 && 0 <= k < outimage.Length1 && 0 <= c < 3 && (r != i || k != j) ==>
              outimage[r, k, c] == old(outimage[r, k, c])
  {
    var base := (i * outimage.Length1 + j) * 3;
    outimage[i, j, 0] := outfile[base + 2];
    outimage[i, j, 1] := outfile[base + 1];
    outimage[i, j, 2] := outfile[base + 0];
  }

  /** Rows up to and including row i of an h x w grid hold at most h * w pixels. */
  lemma RowsBelow(i: nat, h: nat, w: nat)
    requires i < h
    ensures 3 * (i * w + w) == 3 * ((i + 1) * w) <= 3 * (h * w)
  {
    assert (i + 1) * w <= h * w;
  }
}
