/** The three versions of the mask: ten passes column by column (lab6/timemask.c, baseMask), the same passes row
    by row (lab6/mask.c, mask1), and one fused pass with the weight in a variable (lab6/mask.c, mask2).
    Sums are mathematical: no pixel and no check sum may overflow a long. */
module MaskLoops {
  import opened Bits
  import opened Mask
  import opened Sums

  ghost function Pixels(a: array2<int>): (p: Image)
    reads a
    ensures |p| == a.Length0 && forall r | 0 <= r < a.Length0 :: |p[r]| == a.Length1
    ensures forall r, c | 0 <= r < a.Length0 && 0 <= c < a.Length1 :: p[r][c] == a[r, c]
  {
    seq(a.Length0, r requires 0 <= r < a.Length0 reads a =>
      seq(a.Length1, c requires 0 <= c < a.Length1 reads a => a[r, c]))
  }

  ghost predicate SameShape(a: Image, b: Image)
  {
    |a| == |b| && forall r | 0 <= r < |a| :: |a[r]| == |b[r]|
  }

  function Put(a: Image, r: nat, c: nat, v: int): Image
    requires r < |a| && c < |a[r]|
  {
    a[r := a[r][c := v]]
  }

  // ---- rectangles of pixels ----

  /** In the rectangle the pixels have become those of f; the others are as before. */
  ghost predicate Changed(f: Entry, rowFrom: int, rowTo: int, colFrom: int, colTo: int, a: Image, b: Image)
  {
    && SameShape(a, b)
    && forall r: nat, c: nat ::
         At(b, r, c) == if rowFrom <= r < rowTo && colFrom <= c < colTo then f(r, c) else At(a, r, c)
  }

  lemma NothingChanged(f: Entry, rowFrom: int, rowTo: int, colFrom: int, colTo: int, a: Image)
    requires rowFrom >= rowTo || colFrom >= colTo
    ensures Changed(f, rowFrom, rowTo, colFrom, colTo, a, a)
  {
  }

  /** One more pixel at the foot of a column. */
  lemma PutBelow(f: Entry, rowFrom: int, r: nat, c: nat, a: Image, b: Image)
    requires Changed(f, rowFrom, r, c, c + 1, a, b) && rowFrom <= r < |b| && c < |b[r]|
    ensures Changed(f, rowFrom, r + 1, c, c + 1, a, Put(b, r, c, f(r, c)))
  {
  }

  /** One more pixel at the end of a row. */
  lemma PutBeside(f: Entry, r: nat, colFrom: int, c: nat, a: Image, b: Image)
    requires Changed(f, r, r + 1, colFrom, c, a, b) && colFrom <= c && r < |b| && c < |b[r]|
    ensures Changed(f, r, r + 1, colFrom, c + 1, a, Put(b, r, c, f(r, c)))
  {
  }

  lemma ColumnJoins(f: Entry, rowFrom: int, rowTo: int, colFrom: int, c: nat, a: Image, b: Image, d: Image)
    requires Changed(f, rowFrom, rowTo, colFrom, c, a, b) && Changed(f, rowFrom, rowTo, c, c + 1, b, d)
    requires colFrom <= c
    ensures Changed(f, rowFrom, rowTo, colFrom, c + 1, a, d)
  {
  }

  lemma RowJoins(f: Entry, rowFrom: int, r: nat, colFrom: int, colTo: int, a: Image, b: Image, d: Image)
    requires Changed(f, rowFrom, r, colFrom, colTo, a, b) && Changed(f, r, r + 1, colFrom, colTo, b, d)
    requires rowFrom <= r
    ensures Changed(f, rowFrom, r + 1, colFrom, colTo, a, d)
  {
  }

  lemma NotYet(f: Entry, rowFrom: int, rowTo: int, colFrom: int, colTo: int, a: Image, b: Image, r: nat, c: nat)
    requires Changed(f, rowFrom, rowTo, colFrom, colTo, a, b) && !(rowFrom <= r < rowTo && colFrom <= c < colTo)
    ensures SameShape(a, b) && At(b, r, c) == At(a, r, c)
  {
  }

  // ---- the passes ----

  /** After the first k places: the sums in the new image, the weights beside it, other pixels as before. */
  ghost predicate Counted(img: Image, rows: nat, cols: nat, k: nat, before: Image, px: Image, wt: Image)
  {
    && SameShape(before, px) && SameShape(before, wt)
    && (forall r: nat, c: nat :: At(px, r, c) ==
          if r < rows && c < cols then Sum(img, rows, cols, r, c, k) else At(before, r, c))
    && (forall r: nat, c: nat | r < rows && c < cols :: At(wt, r, c) == Weight(rows, cols, r, c, k))
  }

  function Centre(img: Image): Entry { (r: nat, c: nat) => WEIGHT_CENTRE * At(img, r, c) }

  function Constant(w: int): Entry { (r: nat, c: nat) => w }

  function Plus(a: Image, w: int): Entry { (r: nat, c: nat) => At(a, r, c) + w }

  /** A picture plus another one, shifted and times w. */
  function PlusShifted(a: Image, img: Image, down: int, right: int, w: int): Entry
  {
    (r: nat, c: nat) => At(a, r, c) + w * At(img, r + down, c + right)
  }

  function Divided(a: Image, wt: Image): Entry
  {
    (r: nat, c: nat) => if At(wt, r, c) == 0 then 0 else Quotient(At(a, r, c), At(wt, r, c))
  }

  /** The bounds of the loops of pass k, and what it adds. */
  predicate IsPass(rows: nat, cols: nat, k: nat, rowFrom: int, rowTo: int, colFrom: int, colTo: int,
                   down: int, right: int, w: int)
  {
    && Place(down, right) == PlaceOf(k) && w == WeightOf(PlaceOf(k))
    && rowFrom == (if down < 0 then 1 else 0) && rowTo == (if down > 0 then rows - 1 else rows)
    && colFrom == (if right < 0 then 1 else 0) && colTo == (if right > 0 then cols - 1 else cols)
  }

  lemma FirstPass(img: Image, rows: nat, cols: nat, before: Image, px: Image, wt0: Image, wt: Image)
    requires SameShape(before, wt0)
    requires Changed(Centre(img), 0, rows, 0, cols, before, px)
             && Changed(Constant(WEIGHT_CENTRE), 0, rows, 0, cols, wt0, wt)
    ensures Counted(img, rows, cols, 1, before, px, wt)
  {
    forall r: nat, c: nat | r < rows && c < cols
      ensures Sum(img, rows, cols, r, c, 1) == Centre(img)(r, c) && Weight(rows, cols, r, c, 1) == WEIGHT_CENTRE
    {
      OneMore(img, rows, cols, r, c, 0);
    }
  }

  /** Pass k visits exactly the pixels for which place k is inside the picture. */
  lemma PassVisits(img: Image, rows: nat, cols: nat, k: nat, rowFrom: int, rowTo: int, colFrom: int, colTo: int,
                   down: int, right: int, w: int, r: nat, c: nat)
    requires IsPass(rows, cols, k, rowFrom, rowTo, colFrom, colTo, down, right, w)
    ensures var visited := rowFrom <= r < rowTo && colFrom <= c < colTo;
            && (visited ==> r < rows && c < cols)
            && (r < rows && c < cols ==>
                  && Sum(img, rows, cols, r, c, k + 1)
                     == Sum(img, rows, cols, r, c, k) + (if visited then w * At(img, r + down, c + right) else 0)
                  && Weight(rows, cols, r, c, k + 1) == Weight(rows, cols, r, c, k) + if visited then w else 0)
  {
    hide WeightOf, At, Sum, Weight;
    OneMore(img, rows, cols, r, c, k);
  }

  lemma NextPass(img: Image, rows: nat, cols: nat, k: nat, before: Image, px: Image, wt: Image, px': Image, wt': Image,
                 rowFrom: int, rowTo: int, colFrom: int, colTo: int, down: int, right: int, w: int)
    requires Counted(img, rows, cols, k, before, px, wt)
    requires IsPass(rows, cols, k, rowFrom, rowTo, colFrom, colTo, down, right, w)
    requires Changed(PlusShifted(px, img, down, right, w), rowFrom, rowTo, colFrom, colTo, px, px')
    requires Changed(Plus(wt, w), rowFrom, rowTo, colFrom, colTo, wt, wt')
    ensures Counted(img, rows, cols, k + 1, before, px', wt')
  {
    hide PlaceOf, WeightOf, At, Sum, Weight, IsPass;
    forall r: nat, c: nat
      ensures At(px', r, c) == if r < rows && c < cols then Sum(img, rows, cols, r, c, k + 1) else At(before, r, c)
      ensures r < rows && c < cols ==> At(wt', r, c) == Weight(rows, cols, r, c, k + 1)
    {
      PassVisits(img, rows, cols, k, rowFrom, rowTo, colFrom, colTo, down, right, w, r, c);
    }
  }

  lemma LastPass(img: Image, rows: nat, cols: nat, before: Image, px: Image, wt: Image, after: Image, check: int)
    requires Counted(img, rows, cols, 9, before, px, wt) && Changed(Divided(px, wt), 0, rows, 0, cols, px, after)
    requires check == Rows(Divided(px, wt), rows, cols)
    ensures Masked(img, rows, cols, before, after, check)
  {
    hide Sum, Weight, Quotient, At, Rows;
    forall r: nat, c: nat | r < rows && c < cols
      ensures At(after, r, c) == NewPixel(img, rows, cols, r, c) == Divided(px, wt)(r, c)
    {
      WeightIsProduct(rows, cols, r, c);
    }
    TotalsAgree(Divided(px, wt), Entries(after), rows, cols);
  }

  // ---- single pixels ----

  /** a[r, c] is assigned. */
  method Write(a: array2<int>, r: nat, c: nat, v: int)
    requires r < a.Length0 && c < a.Length1
    modifies a
    ensures r < |old(Pixels(a))| && c < |old(Pixels(a))[r]| && Pixels(a) == Put(old(Pixels(a)), r, c, v)
  {
    ghost var before := Pixels(a);
    a[r, c] := v;
    forall x | 0 <= x < a.Length0 ensures Pixels(a)[x] == Put(before, r, c, v)[x] {
      assert x == r ==> Pixels(a)[x] == before[r][c := v];
    }
  }

  lemma Reading(a: array2<int>, r: nat, c: nat)
    requires r < a.Length0 && c < a.Length1
    ensures a[r, c] == At(Pixels(a), r, c) && r < |Pixels(a)| && c < |Pixels(a)[r]|
  {
  }

  lemma Shapes(a: array2<int>, b: array2<int>)
    requires a.Length0 == b.Length0 && a.Length1 == b.Length1
    ensures SameShape(Pixels(a), Pixels(b))
  {
  }

  // ---- column by column ----

  /** The first pass: the pixel itself. */
  method InitColumns(oldImage: array2<int>, newImage: array2<int>, weight: array2<int>, rows: nat, cols: nat)
    requires oldImage != newImage && weight != oldImage && weight != newImage
    requires rows <= oldImage.Length0 && cols <= oldImage.Length1
    requires rows <= newImage.Length0 == weight.Length0 && cols <= newImage.Length1 == weight.Length1
    modifies newImage, weight
    ensures Counted(Pixels(oldImage), rows, cols, 1, old(Pixels(newImage)), Pixels(newImage), Pixels(weight))
  {
    hide *;
    ghost var img, px, wt := Pixels(oldImage), Pixels(newImage), Pixels(weight);
    ghost var f, g := Centre(img), Constant(WEIGHT_CENTRE);
    Shapes(newImage, weight);
    NothingChanged(f, 0, rows, 0, 0, px);
    NothingChanged(g, 0, rows, 0, 0, wt);
    var i := 0;
    while i < cols
      invariant i <= cols && Pixels(oldImage) == img
      invariant Changed(f, 0, rows, 0, i, px, Pixels(newImage)) && Changed(g, 0, rows, 0, i, wt, Pixels(weight))
    {
      ghost var px1, wt1 := Pixels(newImage), Pixels(weight);
      NothingChanged(f, 0, 0, i, i + 1, px1);
      NothingChanged(g, 0, 0, i, i + 1, wt1);
      var j := 0;
      while j < rows
        invariant j <= rows && Pixels(oldImage) == img
        invariant Changed(f, 0, j, i, i + 1, px1, Pixels(newImage)) && Changed(g, 0, j, i, i + 1, wt1, Pixels(weight))
      {
        Reading(oldImage, j, i);
        Reading(newImage, j, i);
        Reading(weight, j, i);
        PutBelow(f, 0, j, i, px1, Pixels(newImage));
        PutBelow(g, 0, j, i, wt1, Pixels(weight));
        InitValues(img, j, i);
        Write(newImage, j, i, WEIGHT_CENTRE * oldImage[j, i]);
        Write(weight, j, i, WEIGHT_CENTRE);
        j := j + 1;
      }
      ColumnJoins(f, 0, rows, 0, i, px, px1, Pixels(newImage));
      ColumnJoins(g, 0, rows, 0, i, wt, wt1, Pixels(weight));
      i := i + 1;
    }
    FirstPass(img, rows, cols, px, Pixels(newImage), wt, Pixels(weight));
  }

  lemma InitValues(img: Image, r: nat, c: nat)
    ensures Centre(img)(r, c) == WEIGHT_CENTRE * At(img, r, c) && Constant(WEIGHT_CENTRE)(r, c) == WEIGHT_CENTRE
  {
  }

  /** One of the eight passes over neighbours; the caller gives the bounds of its loops. */
  method AddColumns(oldImage: array2<int>, newImage: array2<int>, weight: array2<int>,
                    rowFrom: int, rowTo: int, colFrom: int, colTo: int, down: int, right: int, w: int,
                    ghost rows: nat, ghost cols: nat, ghost k: nat, ghost before: Image)
    requires oldImage != newImage && weight != oldImage && weight != newImage
    requires rows <= oldImage.Length0 && cols <= oldImage.Length1
    requires rows <= newImage.Length0 == weight.Length0 && cols <= newImage.Length1 == weight.Length1
    requires IsPass(rows, cols, k, rowFrom, rowTo, colFrom, colTo, down, right, w)
    requires Counted(Pixels(oldImage), rows, cols, k, before, Pixels(newImage), Pixels(weight))
    modifies newImage, weight
    ensures Counted(Pixels(oldImage), rows, cols, k + 1, before, Pixels(newImage), Pixels(weight))
  {
    hide *;
    ghost var img, px, wt := Pixels(oldImage), Pixels(newImage), Pixels(weight);
    ghost var f, g := PlusShifted(px, img, down, right, w), Plus(wt, w);
    PassBounds(rows, cols, k, rowFrom, rowTo, colFrom, colTo, down, right, w);
    NothingChanged(f, rowFrom, rowTo, colFrom, colFrom, px);
    NothingChanged(g, rowFrom, rowTo, colFrom, colFrom, wt);
    var i := colFrom;
    while i < colTo
      invariant colFrom <= i && (i <= colTo || i == colFrom) && Pixels(oldImage) == img
      invariant Changed(f, rowFrom, rowTo, colFrom, i, px, Pixels(newImage))
      invariant Changed(g, rowFrom, rowTo, colFrom, i, wt, Pixels(weight))
    {
      ghost var px1, wt1 := Pixels(newImage), Pixels(weight);
      NothingChanged(f, rowFrom, rowFrom, i, i + 1, px1);
      NothingChanged(g, rowFrom, rowFrom, i, i + 1, wt1);
      var j := rowFrom;
      while j < rowTo
        invariant rowFrom <= j && (j <= rowTo || j == rowFrom) && Pixels(oldImage) == img
        invariant Changed(f, rowFrom, j, i, i + 1, px1, Pixels(newImage))
        invariant Changed(g, rowFrom, j, i, i + 1, wt1, Pixels(weight))
      {
        Reading(oldImage, j + down, i + right);
        Reading(newImage, j, i);
        Reading(weight, j, i);
        NotYet(f, rowFrom, rowTo, colFrom, i, px, px1, j, i);
        NotYet(g, rowFrom, rowTo, colFrom, i, wt, wt1, j, i);
        NotYet(f, rowFrom, j, i, i + 1, px1, Pixels(newImage), j, i);
        NotYet(g, rowFrom, j, i, i + 1, wt1, Pixels(weight), j, i);
        AddedValues(px, wt, img, down, right, w, j, i);
        PutBelow(f, rowFrom, j, i, px1, Pixels(newImage));
        PutBelow(g, rowFrom, j, i, wt1, Pixels(weight));
        Write(newImage, j, i, newImage[j, i] + w * oldImage[j + down, i + right]);
        Write(weight, j, i, weight[j, i] + w);
        j := j + 1;
      }
      RowsReached(f, rowFrom, j, rowTo, i, i + 1, px1, Pixels(newImage));
      RowsReached(g, rowFrom, j, rowTo, i, i + 1, wt1, Pixels(weight));
      ColumnJoins(f, rowFrom, rowTo, colFrom, i, px, px1, Pixels(newImage));
      ColumnJoins(g, rowFrom, rowTo, colFrom, i, wt, wt1, Pixels(weight));
      i := i + 1;
    }
    ColsReached(f, rowFrom, rowTo, colFrom, i, colTo, px, Pixels(newImage));
    ColsReached(g, rowFrom, rowTo, colFrom, i, colTo, wt, Pixels(weight));
    NextPass(img, rows, cols, k, before, px, wt, Pixels(newImage), Pixels(weight),
             rowFrom, rowTo, colFrom, colTo, down, right, w);
  }

  /** The last pass: the division, and the check sum. */
  method FinishColumns(newImage: array2<int>, weight: array2<int>, rows: nat, cols: nat, ghost img: Image,
                       ghost before: Image)
    returns (check: int)
    requires weight != newImage
    requires rows <= newImage.Length0 == weight.Length0 && cols <= newImage.Length1 == weight.Length1
    requires Counted(img, rows, cols, 9, before, Pixels(newImage), Pixels(weight))
    modifies newImage
    ensures Masked(img, rows, cols, before, Pixels(newImage), check)
  {
    hide *;
    ghost var px, wt := Pixels(newImage), Pixels(weight);
    ghost var f := Divided(px, wt);
    NothingChanged(f, 0, rows, 0, 0, px);
    TotalsGrow(f, rows, 0);
    check := 0;
    var i := 0;
    while i < cols
      invariant i <= cols && Pixels(weight) == wt && check == Cols(f, rows, i)
      invariant Changed(f, 0, rows, 0, i, px, Pixels(newImage))
    {
      ghost var px1 := Pixels(newImage);
      NothingChanged(f, 0, 0, i, i + 1, px1);
      PartsGrow(f, 0, i);
      var j := 0;
      while j < rows
        invariant j <= rows && Pixels(weight) == wt && check == Cols(f, rows, i) + ColPart(f, i, j)
        invariant Changed(f, 0, j, i, i + 1, px1, Pixels(newImage))
      {
        Reading(newImage, j, i);
        Reading(weight, j, i);
        NotYet(f, 0, rows, 0, i, px, px1, j, i);
        NotYet(f, 0, j, i, i + 1, px1, Pixels(newImage), j, i);
        DividedValue(img, rows, cols, before, px, wt, j, i);
        PutBelow(f, 0, j, i, px1, Pixels(newImage));
        PartsGrow(f, j, i);
        Write(newImage, j, i, Quotient(newImage[j, i], weight[j, i]));
        Reading(newImage, j, i);
        PutAt(px1, f, 0, j + 1, i, i + 1, Pixels(newImage), j, i);
        check := check + newImage[j, i];
        j := j + 1;
      }
      TotalsGrow(f, rows, i);
      ColumnJoins(f, 0, rows, 0, i, px, px1, Pixels(newImage));
      i := i + 1;
    }
    SameTotal(f, rows, cols);
    LastPass(img, rows, cols, before, px, wt, Pixels(newImage), check);
  }

  lemma PutAt(a: Image, f: Entry, rowFrom: int, rowTo: int, colFrom: int, colTo: int, b: Image, r: nat, c: nat)
    requires Changed(f, rowFrom, rowTo, colFrom, colTo, a, b) && rowFrom <= r < rowTo && colFrom <= c < colTo
    ensures At(b, r, c) == f(r, c)
  {
  }

  lemma DividedValue(img: Image, rows: nat, cols: nat, before: Image, px: Image, wt: Image, r: nat, c: nat)
    requires Counted(img, rows, cols, 9, before, px, wt) && r < rows && c < cols
    ensures At(wt, r, c) != 0 && Divided(px, wt)(r, c) == Quotient(At(px, r, c), At(wt, r, c))
  {
    hide At, Weight, Sum;
    WeightIsProduct(rows, cols, r, c);
  }

  lemma PassBounds(rows: nat, cols: nat, k: nat, rowFrom: int, rowTo: int, colFrom: int, colTo: int,
                   down: int, right: int, w: int)
    requires IsPass(rows, cols, k, rowFrom, rowTo, colFrom, colTo, down, right, w)
    ensures 0 <= rowFrom && rowTo <= rows && 0 <= rowFrom + down && rowTo + down <= rows
    ensures 0 <= colFrom && colTo <= cols && 0 <= colFrom + right && colTo + right <= cols
  {
  }

  lemma AddedValues(px: Image, wt: Image, img: Image, down: int, right: int, w: int, r: nat, c: nat)
    ensures PlusShifted(px, img, down, right, w)(r, c) == At(px, r, c) + w * At(img, r + down, c + right)
    ensures Plus(wt, w)(r, c) == At(wt, r, c) + w
  {
  }

  /** A loop that ends at its bound or never starts. */
  lemma RowsReached(f: Entry, rowFrom: int, row: int, rowTo: int, colFrom: int, colTo: int, a: Image, b: Image)
    requires Changed(f, rowFrom, row, colFrom, colTo, a, b) && rowFrom <= row && row >= rowTo
    requires row <= rowTo || row == rowFrom
    ensures Changed(f, rowFrom, rowTo, colFrom, colTo, a, b)
  {
  }

  lemma ColsReached(f: Entry, rowFrom: int, rowTo: int, colFrom: int, col: int, colTo: int, a: Image, b: Image)
    requires Changed(f, rowFrom, rowTo, colFrom, col, a, b) && colFrom <= col && col >= colTo
    requires col <= colTo || col == colFrom
    ensures Changed(f, rowFrom, rowTo, colFrom, colTo, a, b)
  {
  }

  /** lab6/timemask.c: the reference. */
  method BaseMask(oldImage: array2<int>, newImage: array2<int>, rows: nat, cols: nat) returns (check: int)
    requires oldImage != newImage
    requires rows <= oldImage.Length0 && cols <= oldImage.Length1
    requires rows <= newImage.Length0 && cols <= newImage.Length1
    modifies newImage
    ensures Pixels(oldImage) == old(Pixels(oldImage))
    ensures Masked(Pixels(oldImage), rows, cols, old(Pixels(newImage)), Pixels(newImage), check)
  {
    hide *;
    ghost var img, before := Pixels(oldImage), Pixels(newImage);
    PassesAre(rows, cols);
    var weight := new int[newImage.Length0, newImage.Length1];
    InitColumns(oldImage, newImage, weight, rows, cols);
    AddColumns(oldImage, newImage, weight, 1, rows, 1, cols, -1, -1, WEIGHT_CORNER, rows, cols, 1, before);
    AddColumns(oldImage, newImage, weight, 1, rows, 0, cols, -1, 0, WEIGHT_SIDE, rows, cols, 2, before);
    AddColumns(oldImage, newImage, weight, 1, rows, 0, cols - 1, -1, 1, WEIGHT_CORNER, rows, cols, 3, before);
    AddColumns(oldImage, newImage, weight, 0, rows, 1, cols, 0, -1, WEIGHT_SIDE, rows, cols, 4, before);
    AddColumns(oldImage, newImage, weight, 0, rows, 0, cols - 1, 0, 1, WEIGHT_SIDE, rows, cols, 5, before);
    AddColumns(oldImage, newImage, weight, 0, rows - 1, 1, cols, 1, -1, WEIGHT_CORNER, rows, cols, 6, before);
    AddColumns(oldImage, newImage, weight, 0, rows - 1, 0, cols, 1, 0, WEIGHT_SIDE, rows, cols, 7, before);
    AddColumns(oldImage, newImage, weight, 0, rows - 1, 0, cols - 1, 1, 1, WEIGHT_CORNER, rows, cols, 8, before);
    check := FinishColumns(newImage, weight, rows, cols, img, before);
  }

  lemma PassesAre(rows: nat, cols: nat)
    ensures IsPass(rows, cols, 1, 1, rows, 1, cols, -1, -1, WEIGHT_CORNER)
    ensures IsPass(rows, cols, 2, 1, rows, 0, cols, -1, 0, WEIGHT_SIDE)
    ensures IsPass(rows, cols, 3, 1, rows, 0, cols - 1, -1, 1, WEIGHT_CORNER)
    ensures IsPass(rows, cols, 4, 0, rows, 1, cols, 0, -1, WEIGHT_SIDE)
    ensures IsPass(rows, cols, 5, 0, rows, 0, cols - 1, 0, 1, WEIGHT_SIDE)
    ensures IsPass(rows, cols, 6, 0, rows - 1, 1, cols, 1, -1, WEIGHT_CORNER)
    ensures IsPass(rows, cols, 7, 0, rows - 1, 0, cols, 1, 0, WEIGHT_SIDE)
    ensures IsPass(rows, cols, 8, 0, rows - 1, 0, cols - 1, 1, 1, WEIGHT_CORNER)
  {
  }

  // ---- row by row ----

  method InitRows(oldImage: array2<int>, newImage: array2<int>, weight: array2<int>, rows: nat, cols: nat)
    requires oldImage != newImage && weight != oldImage && weight != newImage
    requires rows <= oldImage.Length0 && cols <= oldImage.Length1
    requires rows <= newImage.Length0 == weight.Length0 && cols <= newImage.Length1 == weight.Length1
    modifies newImage, weight
    ensures Counted(Pixels(oldImage), rows, cols, 1, old(Pixels(newImage)), Pixels(newImage), Pixels(weight))
  {
    hide *;
    ghost var img, px, wt := Pixels(oldImage), Pixels(newImage), Pixels(weight);
    ghost var f, g := Centre(img), Constant(WEIGHT_CENTRE);
    Shapes(newImage, weight);
    NothingChanged(f, 0, 0, 0, cols, px);
    NothingChanged(g, 0, 0, 0, cols, wt);
    var i := 0;
    while i < rows
      invariant i <= rows && Pixels(oldImage) == img
      invariant Changed(f, 0, i, 0, cols, px, Pixels(newImage)) && Changed(g, 0, i, 0, cols, wt, Pixels(weight))
    {
      ghost var px1, wt1 := Pixels(newImage), Pixels(weight);
      NothingChanged(f, i, i + 1, 0, 0, px1);
      NothingChanged(g, i, i + 1, 0, 0, wt1);
      var j := 0;
      while j < cols
        invariant j <= cols && Pixels(oldImage) == img
        invariant Changed(f, i, i + 1, 0, j, px1, Pixels(newImage)) && Changed(g, i, i + 1, 0, j, wt1, Pixels(weight))
      {
        Reading(oldImage, i, j);
        Reading(newImage, i, j);
        Reading(weight, i, j);
        PutBeside(f, i, 0, j, px1, Pixels(newImage));
        PutBeside(g, i, 0, j, wt1, Pixels(weight));
        InitValues(img, i, j);
        Write(newImage, i, j, WEIGHT_CENTRE * oldImage[i, j]);
        Write(weight, i, j, WEIGHT_CENTRE);
        j := j + 1;
      }
      RowJoins(f, 0, i, 0, cols, px, px1, Pixels(newImage));
      RowJoins(g, 0, i, 0, cols, wt, wt1, Pixels(weight));
      i := i + 1;
    }
    FirstPass(img, rows, cols, px, Pixels(newImage), wt, Pixels(weight));
  }

  method AddRows(oldImage: array2<int>, newImage: array2<int>, weight: array2<int>,
                 rowFrom: int, rowTo: int, colFrom: int, colTo: int, down: int, right: int, w: int,
                 ghost rows: nat, ghost cols: nat, ghost k: nat, ghost before: Image)
    requires oldImage != newImage && weight != oldImage && weight != newImage
    requires rows <= oldImage.Length0 && cols <= oldImage.Length1
    requires rows <= newImage.Length0 == weight.Length0 && cols <= newImage.Length1 == weight.Length1
    requires IsPass(rows, cols, k, rowFrom, rowTo, colFrom, colTo, down, right, w)
    requires Counted(Pixels(oldImage), rows, cols, k, before, Pixels(newImage), Pixels(weight))
    modifies newImage, weight
    ensures Counted(Pixels(oldImage), rows, cols, k + 1, before, Pixels(newImage), Pixels(weight))
  {
    hide *;
    ghost var img, px, wt := Pixels(oldImage), Pixels(newImage), Pixels(weight);
    ghost var f, g := PlusShifted(px, img, down, right, w), Plus(wt, w);
    PassBounds(rows, cols, k, rowFrom, rowTo, colFrom, colTo, down, right, w);
    NothingChanged(f, rowFrom, rowFrom, colFrom, colTo, px);
    NothingChanged(g, rowFrom, rowFrom, colFrom, colTo, wt);
    var i := rowFrom;
    while i < rowTo
      invariant rowFrom <= i && (i <= rowTo || i == rowFrom) && Pixels(oldImage) == img
      invariant Changed(f, rowFrom, i, colFrom, colTo, px, Pixels(newImage))
      invariant Changed(g, rowFrom, i, colFrom, colTo, wt, Pixels(weight))
    {
      ghost var px1, wt1 := Pixels(newImage), Pixels(weight);
      NothingChanged(f, i, i + 1, colFrom, colFrom, px1);
      NothingChanged(g, i, i + 1, colFrom, colFrom, wt1);
      var j := colFrom;
      while j < colTo
        invariant colFrom <= j && (j <= colTo || j == colFrom) && Pixels(oldImage) == img
        invariant Changed(f, i, i + 1, colFrom, j, px1, Pixels(newImage))
        invariant Changed(g, i, i + 1, colFrom, j, wt1, Pixels(weight))
      {
        Reading(oldImage, i + down, j + right);
        Reading(newImage, i, j);
        Reading(weight, i, j);
        NotYet(f, rowFrom, i, colFrom, colTo, px, px1, i, j);
        NotYet(g, rowFrom, i, colFrom, colTo, wt, wt1, i, j);
        NotYet(f, i, i + 1, colFrom, j, px1, Pixels(newImage), i, j);
        NotYet(g, i, i + 1, colFrom, j, wt1, Pixels(weight), i, j);
        AddedValues(px, wt, img, down, right, w, i, j);
        PutBeside(f, i, colFrom, j, px1, Pixels(newImage));
        PutBeside(g, i, colFrom, j, wt1, Pixels(weight));
        Write(newImage, i, j, newImage[i, j] + w * oldImage[i + down, j + right]);
        Write(weight, i, j, weight[i, j] + w);
        j := j + 1;
      }
      ColsReached(f, i, i + 1, colFrom, j, colTo, px1, Pixels(newImage));
      ColsReached(g, i, i + 1, colFrom, j, colTo, wt1, Pixels(weight));
      RowJoins(f, rowFrom, i, colFrom, colTo, px, px1, Pixels(newImage));
      RowJoins(g, rowFrom, i, colFrom, colTo, wt, wt1, Pixels(weight));
      i := i + 1;
    }
    RowsReached(f, rowFrom, i, rowTo, colFrom, colTo, px, Pixels(newImage));
    RowsReached(g, rowFrom, i, rowTo, colFrom, colTo, wt, Pixels(weight));
    NextPass(img, rows, cols, k, before, px, wt, Pixels(newImage), Pixels(weight),
             rowFrom, rowTo, colFrom, colTo, down, right, w);
  }

  method FinishRows(newImage: array2<int>, weight: array2<int>, rows: nat, cols: nat, ghost img: Image,
                    ghost before: Image)
    returns (check: int)
    requires weight != newImage
    requires rows <= newImage.Length0 == weight.Length0 && cols <= newImage.Length1 == weight.Length1
    requires Counted(img, rows, cols, 9, before, Pixels(newImage), Pixels(weight))
    modifies newImage
    ensures Masked(img, rows, cols, before, Pixels(newImage), check)
  {
    hide *;
    ghost var px, wt := Pixels(newImage), Pixels(weight);
    ghost var f := Divided(px, wt);
    NothingChanged(f, 0, 0, 0, cols, px);
    TotalsGrow(f, 0, cols);
    check := 0;
    var i := 0;
    while i < rows
      invariant i <= rows && Pixels(weight) == wt && check == Rows(f, i, cols)
      invariant Changed(f, 0, i, 0, cols, px, Pixels(newImage))
    {
      ghost var px1 := Pixels(newImage);
      NothingChanged(f, i, i + 1, 0, 0, px1);
      PartsGrow(f, i, 0);
      var j := 0;
      while j < cols
        invariant j <= cols && Pixels(weight) == wt && check == Rows(f, i, cols) + RowPart(f, i, j)
        invariant Changed(f, i, i + 1, 0, j, px1, Pixels(newImage))
      {
        Reading(newImage, i, j);
        Reading(weight, i, j);
        NotYet(f, 0, i, 0, cols, px, px1, i, j);
        NotYet(f, i, i + 1, 0, j, px1, Pixels(newImage), i, j);
        DividedValue(img, rows, cols, before, px, wt, i, j);
        PutBeside(f, i, 0, j, px1, Pixels(newImage));
        PartsGrow(f, i, j);
        Write(newImage, i, j, Quotient(newImage[i, j], weight[i, j]));
        Reading(newImage, i, j);
        PutAt(px1, f, i, i + 1, 0, j + 1, Pixels(newImage), i, j);
        check := check + newImage[i, j];
        j := j + 1;
      }
      TotalsGrow(f, i, cols);
      RowJoins(f, 0, i, 0, cols, px, px1, Pixels(newImage));
      i := i + 1;
    }
    LastPass(img, rows, cols, before, px, wt, Pixels(newImage), check);
  }

  /** lab6/mask.c: the passes re-ordered. */
  method Mask1(oldImage: array2<int>, newImage: array2<int>, rows: nat, cols: nat) returns (check: int)
    requires oldImage != newImage
    requires rows <= oldImage.Length0 && cols <= oldImage.Length1
    requires rows <= newImage.Length0 && cols <= newImage.Length1
    modifies newImage
    ensures Pixels(oldImage) == old(Pixels(oldImage))
    ensures Masked(Pixels(oldImage), rows, cols, old(Pixels(newImage)), Pixels(newImage), check)
  {
    hide *;
    ghost var img, before := Pixels(oldImage), Pixels(newImage);
    PassesAre(rows, cols);
    var weight := new int[newImage.Length0, newImage.Length1];
    InitRows(oldImage, newImage, weight, rows, cols);
    AddRows(oldImage, newImage, weight, 1, rows, 1, cols, -1, -1, WEIGHT_CORNER, rows, cols, 1, before);
    AddRows(oldImage, newImage, weight, 1, rows, 0, cols, -1, 0, WEIGHT_SIDE, rows, cols, 2, before);
    AddRows(oldImage, newImage, weight, 1, rows, 0, cols - 1, -1, 1, WEIGHT_CORNER, rows, cols, 3, before);
    AddRows(oldImage, newImage, weight, 0, rows, 1, cols, 0, -1, WEIGHT_SIDE, rows, cols, 4, before);
    AddRows(oldImage, newImage, weight, 0, rows, 0, cols - 1, 0, 1, WEIGHT_SIDE, rows, cols, 5, before);
    AddRows(oldImage, newImage, weight, 0, rows - 1, 1, cols, 1, -1, WEIGHT_CORNER, rows, cols, 6, before);
    AddRows(oldImage, newImage, weight, 0, rows - 1, 0, cols, 1, 0, WEIGHT_SIDE, rows, cols, 7, before);
    AddRows(oldImage, newImage, weight, 0, rows - 1, 0, cols - 1, 1, 1, WEIGHT_CORNER, rows, cols, 8, before);
    check := FinishRows(newImage, weight, rows, cols, img, before);
  }

  // ---- fused ----

  /** The first half of the body of the loops of mask2: the pixel and the four beside it. */
  method MaskSides(oldImage: array2<int>, newImage: array2<int>, rows: nat, cols: nat, i: nat, j: nat)
    returns (weight: nat)
    requires oldImage != newImage && i < rows && j < cols
    requires rows <= oldImage.Length0 && cols <= oldImage.Length1
    requires rows <= newImage.Length0 && cols <= newImage.Length1
    modifies newImage
    ensures forall x, y | 0 <= x < newImage.Length0 && 0 <= y < newImage.Length1 && (x != i || y != j) ::
              newImage[x, y] == old(newImage[x, y])
    ensures var img := Pixels(oldImage);
            newImage[i, j] == Share(img, rows, cols, i, j, 0) + Share(img, rows, cols, i, j, 4)
              + Share(img, rows, cols, i, j, 5) + Share(img, rows, cols, i, j, 2) + Share(img, rows, cols, i, j, 7)
    ensures weight == Part(rows, cols, i, j, 0) + Part(rows, cols, i, j, 4) + Part(rows, cols, i, j, 5)
                      + Part(rows, cols, i, j, 2) + Part(rows, cols, i, j, 7)
  {
    hide Pixels;
    newImage[i, j] := 4 * oldImage[i, j];
    weight := 4;
    if 1 <= j < cols {
      newImage[i, j] := newImage[i, j] + 2 * oldImage[i, j - 1];
      weight := weight + 2;
    }
    if 0 <= j < cols - 1 {
      newImage[i, j] := newImage[i, j] + 2 * oldImage[i, j + 1];
      weight := weight + 2;
    }
    if 1 <= i < rows {
      newImage[i, j] := newImage[i, j] + 2 * oldImage[i - 1, j];
      weight := weight + 2;
    }
    if 0 <= i < rows - 1 {
      newImage[i, j] := newImage[i, j] + 2 * oldImage[i + 1, j];
      weight := weight + 2;
    }
  }

  /** The body of the loops of mask2, with its weight in a variable. */
  method MaskPixel(oldImage: array2<int>, newImage: array2<int>, rows: nat, cols: nat, i: nat, j: nat)
    requires oldImage != newImage && i < rows && j < cols
    requires rows <= oldImage.Length0 && cols <= oldImage.Length1
    requires rows <= newImage.Length0 && cols <= newImage.Length1
    modifies newImage
    ensures i < |old(Pixels(newImage))| && j < |old(Pixels(newImage))[i]|
    ensures Pixels(newImage) == Put(old(Pixels(newImage)), i, j, NewPixel(Pixels(oldImage), rows, cols, i, j))
  {
    hide Quotient, Sum, Weight, Pixels;
    ghost var img, before := Pixels(oldImage), Pixels(newImage);
    var weight := MaskSides(oldImage, newImage, rows, cols, i, j);
    if 1 <= i < rows && 1 <= j < cols {
      newImage[i, j] := newImage[i, j] + 1 * oldImage[i - 1, j - 1];
      weight := weight + 1;
    }
    if 1 <= i < rows && 0 <= j < cols - 1 {
      newImage[i, j] := newImage[i, j] + 1 * oldImage[i - 1, j + 1];
      weight := weight + 1;
    }
    if 0 <= i < rows - 1 && 1 <= j < cols {
      newImage[i, j] := newImage[i, j] + 1 * oldImage[i + 1, j - 1];
      weight := weight + 1;
    }
    if 0 <= i < rows - 1 && 0 <= j < cols - 1 {
      newImage[i, j] := newImage[i, j] + 1 * oldImage[i + 1, j + 1];
      weight := weight + 1;
    }
    AllNine(img, rows, cols, i, j);
    assert newImage[i, j] == Sum(img, rows, cols, i, j, 9) && weight == Weight(rows, cols, i, j, 9);
    newImage[i, j] := Quotient(newImage[i, j], weight);
    OnlyOne(before, newImage, i, j);
  }

  lemma OnlyOne(before: Image, a: array2<int>, r: nat, c: nat)
    requires |before| == a.Length0 && forall x | 0 <= x < a.Length0 :: |before[x]| == a.Length1
    requires r < a.Length0 && c < a.Length1
    requires forall x, y | 0 <= x < a.Length0 && 0 <= y < a.Length1 && (x != r || y != c) :: a[x, y] == before[x][y]
    ensures Pixels(a) == Put(before, r, c, a[r, c])
  {
    forall x | 0 <= x < a.Length0 ensures Pixels(a)[x] == Put(before, r, c, a[r, c])[x] {
    }
  }

  ghost function Answers(img: Image, rows: nat, cols: nat): Entry
  {
    (r: nat, c: nat) => if r < rows && c < cols then NewPixel(img, rows, cols, r, c) else 0
  }

  lemma AnswerAt(img: Image, rows: nat, cols: nat, r: nat, c: nat)
    requires r < rows && c < cols
    ensures Answers(img, rows, cols)(r, c) == NewPixel(img, rows, cols, r, c)
  {
  }

  lemma AnswersMask(img: Image, rows: nat, cols: nat, before: Image, after: Image, check: int)
    requires Changed(Answers(img, rows, cols), 0, rows, 0, cols, before, after)
    requires check == Rows(Answers(img, rows, cols), rows, cols)
    ensures Masked(img, rows, cols, before, after, check)
  {
    hide NewPixel, At, Rows;
    TotalsAgree(Answers(img, rows, cols), Entries(after), rows, cols);
  }

  /** lab6/mask.c: the passes fused into one. */
  method Mask2(oldImage: array2<int>, newImage: array2<int>, rows: nat, cols: nat) returns (check: int)
    requires oldImage != newImage
    requires rows <= oldImage.Length0 && cols <= oldImage.Length1
    requires rows <= newImage.Length0 && cols <= newImage.Length1
    modifies newImage
    ensures Pixels(oldImage) == old(Pixels(oldImage))
    ensures Masked(Pixels(oldImage), rows, cols, old(Pixels(newImage)), Pixels(newImage), check)
  {
    hide *;
    ghost var img, px := Pixels(oldImage), Pixels(newImage);
    ghost var f := Answers(img, rows, cols);
    NothingChanged(f, 0, 0, 0, cols, px);
    TotalsGrow(f, 0, cols);
    check := 0;
    var i := 0;
    while i < rows
      invariant i <= rows && Pixels(oldImage) == img && check == Rows(f, i, cols)
      invariant Changed(f, 0, i, 0, cols, px, Pixels(newImage))
    {
      ghost var px1 := Pixels(newImage);
      NothingChanged(f, i, i + 1, 0, 0, px1);
      PartsGrow(f, i, 0);
      var j := 0;
      while j < cols
        invariant j <= cols && Pixels(oldImage) == img && check == Rows(f, i, cols) + RowPart(f, i, j)
        invariant Changed(f, i, i + 1, 0, j, px1, Pixels(newImage))
      {
        Reading(newImage, i, j);
        PutBeside(f, i, 0, j, px1, Pixels(newImage));
        PartsGrow(f, i, j);
        AnswerAt(img, rows, cols, i, j);
        MaskPixel(oldImage, newImage, rows, cols, i, j);
        Reading(newImage, i, j);
        PutAt(px1, f, i, i + 1, 0, j + 1, Pixels(newImage), i, j);
        check := check + newImage[i, j];
        j := j + 1;
      }
      TotalsGrow(f, i, cols);
      RowJoins(f, 0, i, 0, cols, px, px1, Pixels(newImage));
      i := i + 1;
    }
    AnswersMask(img, rows, cols, px, Pixels(newImage), check);
  }
}
