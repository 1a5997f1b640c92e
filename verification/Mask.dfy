/** The smoothing mask of lab6: what one pixel of the answer is, and what is true of every answer. */
module Mask {
  import opened Bits
  import opened Products
  import opened Sums

  const WEIGHT_CENTRE := 4
  const WEIGHT_SIDE := 2
  const WEIGHT_CORNER := 1

  /** Row by row. */
  type Image = seq<seq<int>>

  function At(img: Image, r: int, c: int): int
  {
    if 0 <= r < |img| && 0 <= c < |img[r]| then img[r][c] else 0
  }

  /** The nine places that count, in the order of the passes: the pixel itself, then row by row around it. */
  datatype Place = Place(down: int, right: int)

  function PlaceOf(k: nat): Place
  {
    match k
    case 0 => Place(0, 0)
    case 1 => Place(-1, -1)
    case 2 => Place(-1, 0)
    case 3 => Place(-1, 1)
    case 4 => Place(0, -1)
    case 5 => Place(0, 1)
    case 6 => Place(1, -1)
    case 7 => Place(1, 0)
    case _ => Place(1, 1)
  }

  function WeightOf(p: Place): (w: nat)
    ensures w > 0
  {
    if p.down == 0 && p.right == 0 then WEIGHT_CENTRE
    else if p.down == 0 || p.right == 0 then WEIGHT_SIDE
    else WEIGHT_CORNER
  }

  /** Whether the place seen from (r, c) is inside a picture of this size. */
  predicate Inside(rows: nat, cols: nat, r: int, c: int, p: Place)
  {
    0 <= r + p.down < rows && 0 <= c + p.right < cols
  }

  /** What the k-th place adds to pixel (r, c). */
  function Share(img: Image, rows: nat, cols: nat, r: int, c: int, k: nat): int
  {
    var p := PlaceOf(k);
    if Inside(rows, cols, r, c, p) then WeightOf(p) * At(img, r + p.down, c + p.right) else 0
  }

  /** And to its weight. */
  function Part(rows: nat, cols: nat, r: int, c: int, k: nat): nat
  {
    if Inside(rows, cols, r, c, PlaceOf(k)) then WeightOf(PlaceOf(k)) else 0
  }

  /** The sum over the first k places. */
  function Sum(img: Image, rows: nat, cols: nat, r: int, c: int, k: nat): int
  {
    if k == 0 then 0 else Sum(img, rows, cols, r, c, k - 1) + Share(img, rows, cols, r, c, k - 1)
  }

  function Weight(rows: nat, cols: nat, r: int, c: int, k: nat): nat
  {
    if k == 0 then 0 else Weight(rows, cols, r, c, k - 1) + Part(rows, cols, r, c, k - 1)
  }

  lemma OneMore(img: Image, rows: nat, cols: nat, r: int, c: int, k: nat)
    ensures Sum(img, rows, cols, r, c, 0) == 0 && Weight(rows, cols, r, c, 0) == 0
    ensures Sum(img, rows, cols, r, c, k + 1) == Sum(img, rows, cols, r, c, k) + Share(img, rows, cols, r, c, k)
    ensures Weight(rows, cols, r, c, k + 1) == Weight(rows, cols, r, c, k) + Part(rows, cols, r, c, k)
  {
  }

  lemma AllNine(img: Image, rows: nat, cols: nat, r: int, c: int)
    ensures Sum(img, rows, cols, r, c, 9)
         == Share(img, rows, cols, r, c, 0) + Share(img, rows, cols, r, c, 1) + Share(img, rows, cols, r, c, 2)
          + Share(img, rows, cols, r, c, 3) + Share(img, rows, cols, r, c, 4) + Share(img, rows, cols, r, c, 5)
          + Share(img, rows, cols, r, c, 6) + Share(img, rows, cols, r, c, 7) + Share(img, rows, cols, r, c, 8)
    ensures Weight(rows, cols, r, c, 9)
         == Part(rows, cols, r, c, 0) + Part(rows, cols, r, c, 1) + Part(rows, cols, r, c, 2)
          + Part(rows, cols, r, c, 3) + Part(rows, cols, r, c, 4) + Part(rows, cols, r, c, 5)
          + Part(rows, cols, r, c, 6) + Part(rows, cols, r, c, 7) + Part(rows, cols, r, c, 8)
  {
    hide Share, Part;
    OneMore(img, rows, cols, r, c, 0);
    OneMore(img, rows, cols, r, c, 1);
    OneMore(img, rows, cols, r, c, 2);
    OneMore(img, rows, cols, r, c, 3);
    OneMore(img, rows, cols, r, c, 4);
    OneMore(img, rows, cols, r, c, 5);
    OneMore(img, rows, cols, r, c, 6);
    OneMore(img, rows, cols, r, c, 7);
    OneMore(img, rows, cols, r, c, 8);
  }

  function Flag(b: bool): nat { if b then 1 else 0 }

  /** The weight of a pixel depends only on which neighbours exist, and is a product of a factor for its row
      and one for its column. */
  lemma WeightIsProduct(rows: nat, cols: nat, r: nat, c: nat)
    requires r < rows && c < cols
    ensures Weight(rows, cols, r, c, 9)
         == (2 + Flag(c > 0) + Flag(c < cols - 1)) * (2 + Flag(r > 0) + Flag(r < rows - 1))
  {
    hide Weight, Sum, Share;
    AllNine([], rows, cols, r, c);
  }

  /** The answer at (r, c): the weighted mean of the pixel and its neighbours, by a division of C. */
  function NewPixel(img: Image, rows: nat, cols: nat, r: nat, c: nat): int
    requires r < rows && c < cols
  {
    WeightIsProduct(rows, cols, r, c);
    Quotient(Sum(img, rows, cols, r, c, 9), Weight(rows, cols, r, c, 9))
  }

  /** The pixel at (r, c) of a picture of this size; nothing counts outside. */
  function Pixel(img: Image, rows: nat, cols: nat, r: int, c: int): int
    requires rows <= |img| && forall i | 0 <= i < rows :: cols <= |img[i]|
  {
    if 0 <= r < rows && 0 <= c < cols then img[r][c] else 0
  }

  /** The weighted pixel and its neighbours: the pixel four times, each side twice, each corner once. */
  function Weighted(img: Image, rows: nat, cols: nat, r: int, c: int): int
    requires rows <= |img| && forall i | 0 <= i < rows :: cols <= |img[i]|
  {
    4 * Pixel(img, rows, cols, r, c)
    + 2 * (Pixel(img, rows, cols, r - 1, c) + Pixel(img, rows, cols, r + 1, c)
           + Pixel(img, rows, cols, r, c - 1) + Pixel(img, rows, cols, r, c + 1))
    + (Pixel(img, rows, cols, r - 1, c - 1) + Pixel(img, rows, cols, r - 1, c + 1)
       + Pixel(img, rows, cols, r + 1, c - 1) + Pixel(img, rows, cols, r + 1, c + 1))
  }

  lemma ShareIs(img: Image, rows: nat, cols: nat, r: int, c: int, k: nat)
    requires rows <= |img| && (forall i | 0 <= i < rows :: cols <= |img[i]|) && k < 9
    ensures Share(img, rows, cols, r, c, k) ==
            WeightOf(PlaceOf(k)) * Pixel(img, rows, cols, r + PlaceOf(k).down, c + PlaceOf(k).right)
  {
    hide WeightOf, PlaceOf;
  }

  lemma SumIsWeighted(img: Image, rows: nat, cols: nat, r: int, c: int)
    requires rows <= |img| && forall i | 0 <= i < rows :: cols <= |img[i]|
    ensures Sum(img, rows, cols, r, c, 9) == Weighted(img, rows, cols, r, c)
  {
    hide Share, Sum, Pixel;
    AllNine(img, rows, cols, r, c);
    forall k | 0 <= k < 9
      ensures Share(img, rows, cols, r, c, k) ==
              WeightOf(PlaceOf(k)) * Pixel(img, rows, cols, r + PlaceOf(k).down, c + PlaceOf(k).right)
    {
      ShareIs(img, rows, cols, r, c, k);
    }
  }

  /** The answer in numbers: the weighted pixels, divided by the weights of those that exist, without the remainder,
      also where the sum is negative. */
  lemma PixelIsMean(img: Image, rows: nat, cols: nat, r: nat, c: nat)
    requires rows <= |img| && (forall i | 0 <= i < rows :: cols <= |img[i]|) && r < rows && c < cols
    ensures var s, q := Weighted(img, rows, cols, r, c), NewPixel(img, rows, cols, r, c);
            var w := (2 + Flag(c > 0) + Flag(c < cols - 1)) * (2 + Flag(r > 0) + Flag(r < rows - 1));
            && (s >= 0 ==> w * q <= s < w * q + w)
            && (s <= 0 ==> w * q - w < s <= w * q)
  {
    hide Weight, Sum, Weighted, Quotient;
    WeightIsProduct(rows, cols, r, c);
    SumIsWeighted(img, rows, cols, r, c);
    var s, w := Weighted(img, rows, cols, r, c), Weight(rows, cols, r, c, 9);
    QuotientTruncates(s, w);
  }

  ghost predicate Within(img: Image, rows: nat, cols: nat, lo: int, hi: int)
  {
    forall r, c | 0 <= r < rows && 0 <= c < cols :: lo <= At(img, r, c) <= hi
  }

  lemma ShareWithin(img: Image, rows: nat, cols: nat, r: int, c: int, k: nat, lo: int, hi: int)
    requires Within(img, rows, cols, lo, hi)
    ensures var w := Part(rows, cols, r, c, k); w * lo <= Share(img, rows, cols, r, c, k) <= w * hi
  {
    hide WeightOf, PlaceOf, At;
    var p := PlaceOf(k);
    if Inside(rows, cols, r, c, p) {
      var v := At(img, r + p.down, c + p.right);
      assert lo <= v <= hi;
      TimesWithin(WeightOf(p), lo, v, hi);
    }
  }

  lemma {:induction false} SumWithin(img: Image, rows: nat, cols: nat, r: int, c: int, k: nat, lo: int, hi: int)
    requires Within(img, rows, cols, lo, hi)
    ensures var w := Weight(rows, cols, r, c, k); w * lo <= Sum(img, rows, cols, r, c, k) <= w * hi
  {
    hide Within, Share, Part;
    if k > 0 {
      SumWithin(img, rows, cols, r, c, k - 1, lo, hi);
      ShareWithin(img, rows, cols, r, c, k - 1, lo, hi);
      var v, w := Weight(rows, cols, r, c, k - 1), Part(rows, cols, r, c, k - 1);
      assert (v + w) * lo == v * lo + w * lo && (v + w) * hi == v * hi + w * hi;
    }
  }

  lemma QuotientWithin(s: int, w: nat, lo: int, hi: int)
    requires w > 0 && w * lo <= s <= w * hi
    ensures lo <= Quotient(s, w) <= hi
  {
    if s >= 0 {
      var q, d := Remains(s, w);
      Distributes(w, q);
      Distributes(w, hi);
      Cancels(w, lo, q + 1);
      Cancels(w, q, hi + 1);
    } else {
      var q, d := Remains(-s, w);
      Distributes(w, -q);
      Distributes(w, -q - 1);
      Negates(w, q);
      Cancels(w, lo, -q + 1);
      Cancels(w, -q - 1, hi);
    }
  }

  /** The answer stays within the range of the picture: no pixel gets darker or brighter than all the others. */
  lemma MaskKeepsRange(img: Image, rows: nat, cols: nat, r: nat, c: nat, lo: int, hi: int)
    requires Within(img, rows, cols, lo, hi) && r < rows && c < cols
    ensures lo <= NewPixel(img, rows, cols, r, c) <= hi
  {
    hide Sum, Weight, Within, Quotient;
    WeightIsProduct(rows, cols, r, c);
    SumWithin(img, rows, cols, r, c, 9, lo, hi);
    QuotientWithin(Sum(img, rows, cols, r, c, 9), Weight(rows, cols, r, c, 9), lo, hi);
  }

  /** A picture of one colour does not change. */
  lemma OneColour(img: Image, rows: nat, cols: nat, r: nat, c: nat, v: int)
    requires rows <= |img| && (forall i | 0 <= i < rows :: cols <= |img[i]|) && r < rows && c < cols
    requires forall i, j | 0 <= i < rows && 0 <= j < cols :: img[i][j] == v
    ensures NewPixel(img, rows, cols, r, c) == v
  {
    hide NewPixel;
    MaskKeepsRange(img, rows, cols, r, c, v, v);
  }

  // ---- what a run of the mask leaves ----

  function Entries(img: Image): Entry
  {
    (r: nat, c: nat) => At(img, r, c)
  }

  /** The answer for a picture of rows by cols pixels, written over an older image, and its check sum. */
  ghost predicate Masked(img: Image, rows: nat, cols: nat, before: Image, after: Image, check: int)
  {
    && |after| == |before| && (forall r | 0 <= r < |before| :: |after[r]| == |before[r]|)
    && (forall r: nat, c: nat :: At(after, r, c) ==
          if r < rows && c < cols then NewPixel(img, rows, cols, r, c) else At(before, r, c))
    && check == Rows(Entries(after), rows, cols)
  }

  /** There is only one answer, and only one check sum: all the versions of the mask agree. */
  lemma OneAnswer(img: Image, rows: nat, cols: nat, before: Image, after: Image, check: int,
                  before': Image, after': Image, check': int)
    requires Masked(img, rows, cols, before, after, check) && Masked(img, rows, cols, before', after', check')
    ensures forall r: nat, c: nat | r < rows && c < cols :: At(after, r, c) == At(after', r, c)
    ensures check == check'
    ensures before == before' ==> after == after'
  {
    hide NewPixel, Rows;
    TotalsAgree(Entries(after), Entries(after'), rows, cols);
    if before == before' {
      forall r | 0 <= r < |after| ensures after[r] == after'[r] {
        forall c | 0 <= c < |after[r]| ensures after[r][c] == after'[r][c] {
          assert At(after, r, c) == At(after', r, c);
        }
      }
    }
  }

  const N := 2048
  const LONG_LIMIT := 0x8000_0000_0000_0000

  lemma {:induction false} WeightSmall(rows: nat, cols: nat, r: int, c: int, k: nat)
    ensures Weight(rows, cols, r, c, k) <= 4 * k
  {
    if k > 0 {
      WeightSmall(rows, cols, r, c, k - 1);
    }
  }

  /** With the pixels that reading a picture file can give (negative where the file ends too early), neither a sum
      on the way nor the check sum overflows. */
  lemma NothingOverflows(img: Image, rows: nat, cols: nat, before: Image, after: Image, check: int, r: nat, c: nat,
                         k: nat)
    requires Masked(img, rows, cols, before, after, check)
    requires rows <= N && cols <= N && Within(img, rows, cols, -0x100, 0xFFFF) && k <= 9
    ensures -LONG_LIMIT < Sum(img, rows, cols, r, c, k) < LONG_LIMIT && -LONG_LIMIT < check < LONG_LIMIT
  {
    hide Sum, Weight, Within, Rows, NewPixel, At;
    SumWithin(img, rows, cols, r, c, k, -0x100, 0xFFFF);
    WeightSmall(rows, cols, r, c, k);
    forall i: nat, j: nat | i < rows && j < cols ensures -0x100 <= Entries(after)(i, j) <= 0xFFFF {
      MaskKeepsRange(img, rows, cols, i, j, -0x100, 0xFFFF);
    }
    TotalWithin(Entries(after), rows, cols, -0x100, 0xFFFF);
    TimesWithin(rows, 0, cols * 0xFFFF, N * 0xFFFF);
    TimesWithin(rows, N * -0x100, cols * -0x100, 0);
    assert rows * (N * -0x100) >= N * (N * -0x100);
  }
}
