/** Walks over a table in memory, and exactly which of their reads miss (the traversals of lab6/cache-test.c). */
module CacheWalks {
  import opened Bits
  import opened CacheAddresses
  import opened CacheLru
  import opened CacheTraces
  import opened Products
  import opened Sums

  /** A row and a column. */
  type Cell = (nat, nat)

  /** The address of entry (i, j) of an array of longs at base, cols to a row. */
  function Place(base: nat, cols: nat, i: nat, j: nat): nat
  {
    base + 8 * (i * cols + j)
  }

  function Addresses(base: nat, cols: nat, walk: seq<Cell>): (trace: seq<nat>)
    ensures |trace| == |walk| && forall k | 0 <= k < |walk| :: trace[k] == Place(base, cols, walk[k].0, walk[k].1)
  {
    seq(|walk|, k requires 0 <= k < |walk| => Place(base, cols, walk[k].0, walk[k].1))
  }

  /** Rows from lo to hi of column j. */
  function Down(j: nat, lo: nat, hi: nat): (walk: seq<Cell>)
    requires lo <= hi
    ensures |walk| == hi - lo && forall t | 0 <= t < hi - lo :: walk[t] == (lo + t, j)
  {
    seq(hi - lo, t requires 0 <= t => (lo + t, j))
  }

  /** The first n columns, one after the other. */
  function ColumnWalk(rows: nat, n: nat): seq<Cell>
  {
    if n == 0 then [] else ColumnWalk(rows, n - 1) + Down(n - 1, 0, rows)
  }

  // ---- tables whose rows begin with a block ----

  /** Blocks hold q longs, rows w blocks, and the table begins with the given block. */
  ghost predicate Aligned(g: Geometry, base: nat, cols: nat, block: nat, q: nat, w: nat)
  {
    Pow2(g.offsetBits) == 8 * q && q > 0 && w > 0 && base == 8 * (q * block) && cols == q * w
  }

  /** Cells of rows i and i2, block column by block column, compete for one set. */
  ghost predicate Together(g: Geometry, w: nat, i: nat, i2: nat)
  {
    (w * i) % Pow2(g.indexBits) == (w * i2) % Pow2(g.indexBits)
  }

  lemma BlockOfCell(g: Geometry, base: nat, cols: nat, block: nat, q: nat, w: nat, i: nat, j: nat)
    requires Aligned(g, base, cols, block, q, w)
    ensures Shr(Place(base, cols, i, j), g.offsetBits) == block + w * i + j / q
  {
    hide Shr, Pow2;
    var c, r := w * i + j / q, j % q;
    assert i * (q * w) == q * (w * i);
    assert j == q * (j / q) + r;
    assert q * (block + c) == q * block + q * (w * i) + q * (j / q);
    SameBlock(g.offsetBits, q, block, Place(base, cols, i, j), c, r);
  }

  /** Index and tag of an address are remainder and quotient of its block number. */
  lemma SetAndTag(g: Geometry, a: nat)
    ensures IndexOf(g, a) == Shr(a, g.offsetBits) % Pow2(g.indexBits)
    ensures TagOf(g, a) == Shr(a, g.offsetBits) / Pow2(g.indexBits)
  {
    hide *;
    BlockNumber(g, a);
    var n, b := Pow2(g.indexBits), Shr(a, g.offsetBits);
    assert b == n * (b / n) + b % n;
    SameQuotient(n, TagOf(g, a), IndexOf(g, a), b / n, b % n);
  }

  // ---- the tags since the last read of a block ----

  lemma {:induction false} SinceLast(before: seq<int>, t: int, rest: seq<int>)
    requires t !in rest
    ensures Since(before + [t] + rest, t) == Elements(rest)
  {
    var trace := before + [t] + rest;
    if rest == [] {
      assert trace[|trace| - 1] == t;
    } else {
      var last := |rest| - 1;
      SinceLast(before, t, rest[..last]);
      assert trace[..|trace| - 1] == before + [t] + rest[..last];
      assert trace[|trace| - 1] == rest[last] && rest[last] in rest;
      assert rest == rest[..last] + [rest[last]];
    }
  }

  lemma {:induction false} TagsConcat(g: Geometry, x: seq<nat>, y: seq<nat>, k: nat)
    ensures TagsIn(g, x + y, k) == TagsIn(g, x, k) + TagsIn(g, y, k)
  {
    hide IndexOf, TagOf;
    if y == [] {
      assert x + y == x;
    } else {
      var last := |y| - 1;
      TagsConcat(g, x, y[..last], k);
      assert (x + y)[..|x + y| - 1] == x + y[..last];
    }
  }

  lemma TagOfOne(g: Geometry, b: nat, k: nat)
    ensures TagsIn(g, [b], k) == if IndexOf(g, b) == k then [TagOf(g, b)] else []
  {
    assert [b][..0] == [];
    assert TagsIn(g, [], k) == [];
    hide IndexOf, TagOf;
  }

  lemma {:induction false} ReadTagIn(g: Geometry, trace: seq<nat>, i: nat)
    requires i < |trace|
    ensures TagOf(g, trace[i]) in TagsIn(g, trace, IndexOf(g, trace[i]))
  {
    hide IndexOf, TagOf;
    if i < |trace| - 1 {
      ReadTagIn(g, trace[..|trace| - 1], i);
    }
  }

  /** A read whose block was read before: it hits exactly if fewer blocks of its set were read since
      than the set has lines. */
  lemma LaterRead(g: Geometry, m: Memory, blockSize: nat, sets: Sets, before: seq<nat>, b: nat, rest: seq<nat>, a: nat)
    requires FreshCache(g, sets, before + [b] + rest + [a]) && Shr(b, g.offsetBits) == Shr(a, g.offsetBits)
    requires forall x | x in rest :: Shr(x, g.offsetBits) != Shr(a, g.offsetBits)
    ensures Usable(g, sets) && IndexOf(g, a) < |sets|
    ensures HitsAt(g, RunTrace(g, m, blockSize, sets, before + [b] + rest), a) <==>
            |Elements(TagsIn(g, rest, IndexOf(g, a)))| < |sets[IndexOf(g, a)]|
  {
    hide RunTrace, HitsAt, IndexOf, TagOf, Shr, Elements, Since;
    var trace, k, t := before + [b] + rest, IndexOf(g, a), TagOf(g, a);
    ReadHitsIff(g, m, blockSize, sets, trace, a);
    SameBlockSameSet(g, a, b);
    TagsConcat(g, before + [b], rest, k);
    TagsConcat(g, before, [b], k);
    TagOfOne(g, b, k);
    NotReadSince(g, rest, a);
    SinceLast(TagsIn(g, before, k), t, TagsIn(g, rest, k));
  }

  lemma NotReadSince(g: Geometry, rest: seq<nat>, a: nat)
    requires forall x | x in rest :: Shr(x, g.offsetBits) != Shr(a, g.offsetBits)
    ensures TagOf(g, a) !in TagsIn(g, rest, IndexOf(g, a))
  {
    hide IndexOf, TagOf, Shr, TagsIn;
    if TagOf(g, a) in TagsIn(g, rest, IndexOf(g, a)) {
      var i := TagFromTrace(g, rest, IndexOf(g, a), TagOf(g, a));
      assert rest[i] in rest;
      BlockNumber(g, rest[i]);
      BlockNumber(g, a);
    }
  }

  // ---- the rivals of a row ----

  function RowsOf(walk: seq<Cell>): set<nat>
  {
    set k | 0 <= k < |walk| :: walk[k].0
  }

  ghost predicate InBlockColumn(walk: seq<Cell>, q: nat, column: nat)
    requires q > 0
  {
    forall k | 0 <= k < |walk| :: walk[k].1 / q == column
  }

  /** The rows among the given ones that compete with row i. */
  ghost function Rivals(g: Geometry, w: nat, i: nat, rows: set<nat>): set<nat>
  {
    set x | x in rows && Together(g, w, i, x)
  }

  lemma {:induction false} ImageCount(s: set<nat>, f: nat -> int)
    requires forall x, y | x in s && y in s && f(x) == f(y) :: x == y
    ensures |set x | x in s :: f(x)| == |s|
  {
    if s != {} {
      var x :| x in s;
      ImageCount(s - {x}, f);
      assert (set y | y in s :: f(y)) == (set y | y in s - {x} :: f(y)) + {f(x)};
    }
  }

  /** The tag of row x in a block column. */
  function RowTag(g: Geometry, block: nat, w: nat, column: nat): nat -> int
  {
    x => (block + w * x + column) / Pow2(g.indexBits)
  }

  lemma CellFacts(g: Geometry, base: nat, cols: nat, block: nat, q: nat, w: nat, i: nat, j: nat, x: nat, y: nat)
    requires Aligned(g, base, cols, block, q, w) && j / q == y / q
    ensures IndexOf(g, Place(base, cols, i, j)) == IndexOf(g, Place(base, cols, x, y)) <==> Together(g, w, i, x)
    ensures TagOf(g, Place(base, cols, i, j)) == RowTag(g, block, w, j / q)(i)
    ensures Shr(Place(base, cols, i, j), g.offsetBits) == Shr(Place(base, cols, x, y), g.offsetBits) <==> i == x
  {
    hide IndexOf, TagOf, Shr, Pow2, Place;
    BlockOfCell(g, base, cols, block, q, w, i, j);
    BlockOfCell(g, base, cols, block, q, w, x, y);
    SetAndTag(g, Place(base, cols, i, j));
    SetAndTag(g, Place(base, cols, x, y));
    ShiftedRemainders(Pow2(g.indexBits), w * i, w * x, block + j / q);
    if w * i == w * x { MulInjective(w, i, x); }
  }

  lemma RowTagsDiffer(g: Geometry, block: nat, w: nat, column: nat, i: nat, x: nat, y: nat)
    requires w > 0 && Together(g, w, i, x) && Together(g, w, i, y)
    requires RowTag(g, block, w, column)(x) == RowTag(g, block, w, column)(y)
    ensures x == y
  {
    hide Pow2;
    var n := Pow2(g.indexBits);
    ShiftedRemainders(n, w * x, w * y, block + column);
    var qx, dx := Remains(block + w * x + column, n);
    var qy, dy := Remains(block + w * y + column, n);
    MulInjective(w, x, y);
  }

  /** A walk inside a block column reads as many tags in row i's set as it visits rivals of row i. */
  lemma TagsOfRivals(g: Geometry, base: nat, cols: nat, block: nat, q: nat, w: nat, walk: seq<Cell>, i: nat, j: nat)
    requires Aligned(g, base, cols, block, q, w) && InBlockColumn(walk, q, j / q)
    ensures |Elements(TagsIn(g, Addresses(base, cols, walk), IndexOf(g, Place(base, cols, i, j))))|
         == |Rivals(g, w, i, RowsOf(walk))|
  {
    hide IndexOf, TagOf, Pow2, Shr, Place, TagsIn, RowTag, Together;
    var trace, k, f := Addresses(base, cols, walk), IndexOf(g, Place(base, cols, i, j)), RowTag(g, block, w, j / q);
    var rivals := Rivals(g, w, i, RowsOf(walk));
    forall x, y | x in rivals && y in rivals && f(x) == f(y) ensures x == y {
      RowTagsDiffer(g, block, w, j / q, i, x, y);
    }
    ImageCount(rivals, f);
    var image := set x | x in rivals :: f(x);
    forall t | t in TagsIn(g, trace, k) ensures t in image {
      var p := TagFromTrace(g, trace, k, t);
      CellFacts(g, base, cols, block, q, w, walk[p].0, walk[p].1, i, j);
      CellFacts(g, base, cols, block, q, w, i, j, walk[p].0, walk[p].1);
      assert walk[p].0 in RowsOf(walk);
    }
    forall x | x in rivals ensures f(x) in TagsIn(g, trace, k) {
      var p :| 0 <= p < |walk| && walk[p].0 == x;
      CellFacts(g, base, cols, block, q, w, walk[p].0, walk[p].1, i, j);
      CellFacts(g, base, cols, block, q, w, i, j, walk[p].0, walk[p].1);
      ReadTagIn(g, trace, p);
    }
    assert Elements(TagsIn(g, trace, k)) == image;
  }

  // ---- one cell of a walk ----

  lemma AddressesConcat(base: nat, cols: nat, x: seq<Cell>, y: seq<Cell>)
    ensures Addresses(base, cols, x + y) == Addresses(base, cols, x) + Addresses(base, cols, y)
  {
  }

  lemma AddressesOfOne(base: nat, cols: nat, c: Cell)
    ensures Addresses(base, cols, [c]) == [Place(base, cols, c.0, c.1)]
  {
  }

  /** The block of cell d was read before, at c; since then the walk stayed in its block column and off its row. */
  lemma LaterCell(g: Geometry, m: Memory, blockSize: nat, sets: Sets, base: nat, cols: nat, block: nat, q: nat, w: nat,
                  before: seq<Cell>, c: Cell, rest: seq<Cell>, d: Cell)
    requires Aligned(g, base, cols, block, q, w) && c.0 == d.0 && c.1 / q == d.1 / q
    requires InBlockColumn(rest, q, d.1 / q) && d.0 !in RowsOf(rest)
    requires FreshCache(g, sets, Addresses(base, cols, before + [c] + rest + [d]))
    ensures var a := Place(base, cols, d.0, d.1);
            && Usable(g, sets) && IndexOf(g, a) < |sets|
            && (HitsAt(g, RunTrace(g, m, blockSize, sets, Addresses(base, cols, before + [c] + rest)), a) <==>
                |Rivals(g, w, d.0, RowsOf(rest))| < |sets[IndexOf(g, a)]|)
  {
    hide IndexOf, TagOf, Pow2, Shr, Place, TagsIn, Together, RunTrace, HitsAt, FreshCache, Elements, Rivals;
    var a, b, r := Place(base, cols, d.0, d.1), Place(base, cols, c.0, c.1), Addresses(base, cols, rest);
    AddressesConcat(base, cols, before + [c] + rest, [d]);
    AddressesConcat(base, cols, before + [c], rest);
    AddressesConcat(base, cols, before, [c]);
    AddressesOfOne(base, cols, c);
    AddressesOfOne(base, cols, d);
    CellFacts(g, base, cols, block, q, w, c.0, c.1, d.0, d.1);
    forall x | x in r ensures Shr(x, g.offsetBits) != Shr(a, g.offsetBits) {
      var p :| 0 <= p < |r| && r[p] == x;
      assert rest[p].0 in RowsOf(rest);
      CellFacts(g, base, cols, block, q, w, rest[p].0, rest[p].1, d.0, d.1);
    }
    LaterRead(g, m, blockSize, sets, Addresses(base, cols, before), b, r, a);
    TagsOfRivals(g, base, cols, block, q, w, rest, d.0, d.1);
  }

  ghost predicate NotVisited(walk: seq<Cell>, cols: nat, q: nat, d: Cell)
    requires q > 0
  {
    forall k | 0 <= k < |walk| :: walk[k].1 < cols && (walk[k].0 != d.0 || walk[k].1 / q != d.1 / q)
  }

  /** The block of cell d was not read before. */
  lemma NewCell(g: Geometry, m: Memory, blockSize: nat, sets: Sets, base: nat, cols: nat, block: nat, q: nat, w: nat,
                walk: seq<Cell>, d: Cell)
    requires Aligned(g, base, cols, block, q, w) && UnusedCache(g, sets) && d.1 < cols && NotVisited(walk, cols, q, d)
    ensures var a := Place(base, cols, d.0, d.1);
            && Usable(g, sets) && IndexOf(g, a) < |sets|
            && !HitsAt(g, RunTrace(g, m, blockSize, sets, Addresses(base, cols, walk)), a)
  {
    hide IndexOf, TagOf, Pow2, Shr, Place, RunTrace, HitsAt, UnusedCache;
    UnusedIsUsable(g, sets);
    var a, trace := Place(base, cols, d.0, d.1), Addresses(base, cols, walk);
    forall x | x in trace ensures Shr(x, g.offsetBits) != Shr(a, g.offsetBits) {
      var p :| 0 <= p < |trace| && trace[p] == x;
      BlocksDiffer(g, base, cols, block, q, w, walk[p], d);
    }
    NewBlockMisses(g, m, blockSize, sets, trace, a);
  }

  lemma BlocksDiffer(g: Geometry, base: nat, cols: nat, block: nat, q: nat, w: nat, c: Cell, d: Cell)
    requires Aligned(g, base, cols, block, q, w) && c.1 < cols && d.1 < cols && (c.0 != d.0 || c.1 / q != d.1 / q)
    ensures Shr(Place(base, cols, c.0, c.1), g.offsetBits) != Shr(Place(base, cols, d.0, d.1), g.offsetBits)
  {
    hide *;
    AlignedBlock(g, base, cols, block, q, w);
    BlockOfCell(g, base, cols, block, q, w, c.0, c.1);
    BlockOfCell(g, base, cols, block, q, w, d.0, d.1);
    ColumnBelow(c.1, q, w);
    ColumnBelow(d.1, q, w);
    PairsDiffer(w, c.0, c.1 / q, d.0, d.1 / q);
  }

  lemma PairsDiffer(w: nat, x: nat, y: nat, x': nat, y': nat)
    requires y < w && y' < w && (x != x' || y != y')
    ensures w * x + y != w * x' + y'
  {
    if w * x + y == w * x' + y' {
      SameQuotient(w, x, y, x', y');
    }
  }

  lemma ColumnBelow(j: nat, q: nat, w: nat)
    requires q > 0 && j < q * w
    ensures j / q < w
  {
    var x, r := Remains(j, q);
    Cancels(q, x, w);
  }

  // ---- column by column ----

  function AllRows(rows: nat): (s: set<nat>)
    ensures forall x :: x in s <==> 0 <= x < rows
  {
    if rows == 0 then {} else AllRows(rows - 1) + {rows - 1}
  }

  ghost predicate Wide(sets: Sets, lines: nat)
  {
    forall k | 0 <= k < |sets| :: |sets[k]| == lines
  }

  /** A row is crowded out if, in its block column, more rows than a set has lines compete for its set. */
  ghost predicate Crowded(g: Geometry, w: nat, lines: nat, rows: nat, i: nat)
  {
    |Rivals(g, w, i, AllRows(rows))| > lines
  }

  lemma RivalsWithout(g: Geometry, w: nat, rows: nat, i: nat)
    requires i < rows
    ensures |Rivals(g, w, i, AllRows(rows) - {i})| == |Rivals(g, w, i, AllRows(rows))| - 1
  {
    hide Pow2;
    var r := Rivals(g, w, i, AllRows(rows));
    assert i in r && Rivals(g, w, i, AllRows(rows) - {i}) == r - {i};
  }

  /** Column by column, a read hits if it is not the first of its block and its row is not crowded out. */
  ghost predicate ColumnHit(g: Geometry, q: nat, w: nat, lines: nat, rows: nat, i: nat, j: nat)
    requires q > 0
  {
    j % q != 0 && !Crowded(g, w, lines, rows, i)
  }

  lemma SameBlockColumn(j: nat, q: nat)
    requires q > 0 && j % q != 0
    ensures j > 0 && (j - 1) / q == j / q
  {
    var x, r := Remains(j, q);
    var y, s := Remains(j - 1, q);
    SameQuotient(q, x, r - 1, y, s);
  }

  lemma EarlierBlockColumn(j: nat, q: nat, y: nat)
    requires q > 0 && j % q == 0 && y < j
    ensures y / q < j / q
  {
    var x, r := Remains(j, q);
    var z, s := Remains(y, q);
    Cancels(q, z, x);
  }

  lemma {:induction false} ColumnsBelow(rows: nat, n: nat)
    ensures forall k | 0 <= k < |ColumnWalk(rows, n)| :: ColumnWalk(rows, n)[k].1 < n
  {
    if n > 0 {
      ColumnsBelow(rows, n - 1);
    }
  }

  lemma ColumnsNotYet(rows: nat, i: nat, j: nat, cols: nat, q: nat)
    requires q > 0 && i < rows && j < cols && j % q == 0
    ensures NotVisited(ColumnWalk(rows, j) + Down(j, 0, i), cols, q, (i, j))
  {
    ColumnsBelow(rows, j);
    var walk := ColumnWalk(rows, j) + Down(j, 0, i);
    forall k | 0 <= k < |walk| ensures walk[k].1 < cols && (walk[k].0 != i || walk[k].1 / q != j / q) {
      if k < |ColumnWalk(rows, j)| { EarlierBlockColumn(j, q, walk[k].1); }
    }
  }

  lemma ColumnSplits(rows: nat, i: nat, j: nat)
    requires i < rows && j > 0
    ensures ColumnWalk(rows, j) + Down(j, 0, i)
         == ColumnWalk(rows, j - 1) + Down(j - 1, 0, i) + [(i, j - 1)] + (Down(j - 1, i + 1, rows) + Down(j, 0, i))
  {
    assert Down(j - 1, 0, rows) == Down(j - 1, 0, i) + [(i, j - 1)] + Down(j - 1, i + 1, rows);
  }

  lemma DownInColumn(rows: nat, i: nat, j: nat, q: nat)
    requires q > 0 && i < rows && j > 0 && (j - 1) / q == j / q
    ensures InBlockColumn(Down(j - 1, i + 1, rows) + Down(j, 0, i), q, j / q)
  {
  }

  lemma ColumnCell(g: Geometry, m: Memory, blockSize: nat, sets: Sets, base: nat, cols: nat, block: nat, q: nat, w: nat,
                   lines: nat, rows: nat, i: nat, j: nat)
    requires Aligned(g, base, cols, block, q, w) && Wide(sets, lines) && i < rows && j < cols
    requires FreshCache(g, sets, Addresses(base, cols, ColumnWalk(rows, j) + Down(j, 0, i) + [(i, j)]))
    ensures q > 0 && Usable(g, sets) && IndexOf(g, Place(base, cols, i, j)) < |sets|
    ensures HitsAt(g, RunTrace(g, m, blockSize, sets, Addresses(base, cols, ColumnWalk(rows, j) + Down(j, 0, i))),
                   Place(base, cols, i, j))
            <==> ColumnHit(g, q, w, lines, rows, i, j)
  {
    hide *;
    AlignedBlock(g, base, cols, block, q, w);
    ColumnHitIs(g, q, w, lines, rows, i, j);
    var walk := ColumnWalk(rows, j) + Down(j, 0, i);
    if j % q == 0 {
      ColumnsNotYet(rows, i, j, cols, q);
      FreshIsUnused(g, sets, Addresses(base, cols, walk + [(i, j)]));
      NewCell(g, m, blockSize, sets, base, cols, block, q, w, walk, (i, j));
    } else {
      SameBlockColumn(j, q);
      var before, c := ColumnWalk(rows, j - 1) + Down(j - 1, 0, i), (i, j - 1);
      var rest := Down(j - 1, i + 1, rows) + Down(j, 0, i);
      ColumnSplits(rows, i, j);
      DownInColumn(rows, i, j, q);
      RestOfColumn(rows, i, j);
      LaterCell(g, m, blockSize, sets, base, cols, block, q, w, before, c, rest, (i, j));
      RivalsWithout(g, w, rows, i);
      WideIs(sets, lines, IndexOf(g, Place(base, cols, i, j)));
    }
  }

  lemma ColumnHitIs(g: Geometry, q: nat, w: nat, lines: nat, rows: nat, i: nat, j: nat)
    requires q > 0
    ensures ColumnHit(g, q, w, lines, rows, i, j) <==> j % q != 0 && |Rivals(g, w, i, AllRows(rows))| <= lines
  {
  }

  lemma AlignedBlock(g: Geometry, base: nat, cols: nat, block: nat, q: nat, w: nat)
    requires Aligned(g, base, cols, block, q, w)
    ensures q > 0 && w > 0 && cols == q * w
  {
  }

  lemma CrowdedIs(g: Geometry, w: nat, lines: nat, rows: nat, i: nat)
    ensures Crowded(g, w, lines, rows, i) <==> |Rivals(g, w, i, AllRows(rows))| > lines
  {
  }

  lemma WideIs(sets: Sets, lines: nat, k: nat)
    requires Wide(sets, lines) && k < |sets|
    ensures |sets[k]| == lines
  {
  }

  lemma RestOfColumn(rows: nat, i: nat, j: nat)
    requires i < rows && j > 0
    ensures RowsOf(Down(j - 1, i + 1, rows) + Down(j, 0, i)) == AllRows(rows) - {i}
  {
    var rest := Down(j - 1, i + 1, rows) + Down(j, 0, i);
    forall x | x in AllRows(rows) - {i} ensures x in RowsOf(rest) {
      var k := if x > i then x - i - 1 else rows - i - 1 + x;
      assert rest[k].0 == x;
    }
  }

  lemma FreshIsUnused(g: Geometry, sets: Sets, trace: seq<nat>)
    requires FreshCache(g, sets, trace)
    ensures UnusedCache(g, sets)
  {
  }

  ghost function ColumnMisses(g: Geometry, q: nat, w: nat, lines: nat, rows: nat): Entry
    requires q > 0
  {
    (i: nat, j: nat) => if ColumnHit(g, q, w, lines, rows, i, j) then 0 else 1
  }

  /** One more cell of a walk. */
  lemma WalkGrows(g: Geometry, m: Memory, blockSize: nat, sets: Sets, base: nat, cols: nat, walk: seq<Cell>, d: Cell)
    requires FreshCache(g, sets, Addresses(base, cols, walk + [d]))
    ensures var a, trace := Place(base, cols, d.0, d.1), Addresses(base, cols, walk);
            && Usable(g, sets) && IndexOf(g, a) < |sets| && FreshCache(g, sets, trace)
            && MissCount(g, m, blockSize, sets, Addresses(base, cols, walk + [d]))
               == MissCount(g, m, blockSize, sets, trace) +
                   if HitsAt(g, RunTrace(g, m, blockSize, sets, trace), a) then 0 else 1
  {
    hide *;
    var a, trace := Place(base, cols, d.0, d.1), Addresses(base, cols, walk);
    AddressesConcat(base, cols, walk, [d]);
    AddressesOfOne(base, cols, d);
    FreshIsUnused(g, sets, trace + [a]);
    UnusedIsUsable(g, sets);
    FreshBefore(g, sets, trace, a);
    TraceGrows(g, m, blockSize, sets, trace, a);
  }

  lemma DownGrows(rows: nat, j: nat, i: nat)
    requires 0 < i
    ensures ColumnWalk(rows, j) + Down(j, 0, i) == ColumnWalk(rows, j) + Down(j, 0, i - 1) + [(i - 1, j)]
  {
  }

  lemma NextColumn(rows: nat, j: nat)
    requires j > 0
    ensures ColumnWalk(rows, j) + Down(j, 0, 0) == ColumnWalk(rows, j - 1) + Down(j - 1, 0, rows)
  {
  }

  lemma ColumnMissIs(g: Geometry, q: nat, w: nat, lines: nat, rows: nat, i: nat, j: nat)
    requires q > 0
    ensures ColumnMisses(g, q, w, lines, rows)(i, j) == if ColumnHit(g, q, w, lines, rows, i, j) then 0 else 1
  {
    hide ColumnHit;
  }

  lemma {:induction false} CountColumns(g: Geometry, m: Memory, blockSize: nat, sets: Sets, base: nat, cols: nat,
                                        block: nat, q: nat, w: nat, lines: nat, rows: nat, j: nat, i: nat)
    requires Aligned(g, base, cols, block, q, w) && Wide(sets, lines) && i <= rows && j <= cols
             && (j == cols ==> i == 0)
    requires FreshCache(g, sets, Addresses(base, cols, ColumnWalk(rows, j) + Down(j, 0, i)))
    ensures q > 0 && Usable(g, sets)
    ensures MissCount(g, m, blockSize, sets, Addresses(base, cols, ColumnWalk(rows, j) + Down(j, 0, i)))
         == Cols(ColumnMisses(g, q, w, lines, rows), rows, j) + ColPart(ColumnMisses(g, q, w, lines, rows), j, i)
    decreases j, i
  {
    hide *;
    AlignedBlock(g, base, cols, block, q, w);
    var f, walk := ColumnMisses(g, q, w, lines, rows), ColumnWalk(rows, j) + Down(j, 0, i);
    FreshIsUnused(g, sets, Addresses(base, cols, walk));
    UnusedIsUsable(g, sets);
    if i > 0 {
      var before, d := ColumnWalk(rows, j) + Down(j, 0, i - 1), (i - 1, j);
      DownGrows(rows, j, i);
      WalkGrows(g, m, blockSize, sets, base, cols, before, d);
      CountColumns(g, m, blockSize, sets, base, cols, block, q, w, lines, rows, j, i - 1);
      ColumnCell(g, m, blockSize, sets, base, cols, block, q, w, lines, rows, i - 1, j);
      ColumnMissIs(g, q, w, lines, rows, i - 1, j);
      PartsGrow(f, i - 1, j);
    } else if j > 0 {
      NextColumn(rows, j);
      CountColumns(g, m, blockSize, sets, base, cols, block, q, w, lines, rows, j - 1, rows);
      TotalsGrow(f, rows, j - 1);
      PartsGrow(f, 0, j);
    } else {
      NoWalk(rows, base, cols);
      NoReads(g, m, blockSize, sets);
      TotalsGrow(f, rows, 0);
      PartsGrow(f, 0, 0);
    }
  }

  lemma NoWalk(rows: nat, base: nat, cols: nat)
    ensures Addresses(base, cols, ColumnWalk(rows, 0) + Down(0, 0, 0)) == []
  {
  }

  lemma NoReads(g: Geometry, m: Memory, blockSize: nat, sets: Sets)
    requires Usable(g, sets)
    ensures MissCount(g, m, blockSize, sets, []) == 0
  {
  }

  lemma {:induction false} RowOfColumnMisses(g: Geometry, q: nat, w: nat, lines: nat, rows: nat, i: nat, c: nat, r: nat)
    requires q > 0 && r <= q
    ensures RowPart(ColumnMisses(g, q, w, lines, rows), i, q * c + r)
         == if Crowded(g, w, lines, rows, i) then q * c + r else c + if r > 0 then 1 else 0
    decreases c, r
  {
    hide Crowded;
    var f := ColumnMisses(g, q, w, lines, rows);
    if r > 0 {
      RowOfColumnMisses(g, q, w, lines, rows, i, c, r - 1);
      var j := q * c + (r - 1);
      PartsGrow(f, i, j);
      var x, d := Remains(j, q);
      SameQuotient(q, c, r - 1, x, d);
    } else if c > 0 {
      RowOfColumnMisses(g, q, w, lines, rows, i, c - 1, q);
      assert q * (c - 1) + q == q * c;
    } else {
      PartsGrow(f, i, 0);
    }
  }

  /** One miss a block for the rows that fit, one a long for those that are crowded out. */
  ghost function ColumnTotal(g: Geometry, q: nat, w: nat, lines: nat, rows: nat, n: nat): nat
  {
    if n == 0 then 0 else
      ColumnTotal(g, q, w, lines, rows, n - 1) + if Crowded(g, w, lines, rows, n - 1) then q * w else w
  }

  lemma {:induction false} ColumnTotalIs(g: Geometry, q: nat, w: nat, lines: nat, rows: nat, n: nat)
    requires q > 0
    ensures Rows(ColumnMisses(g, q, w, lines, rows), n, q * w) == ColumnTotal(g, q, w, lines, rows, n)
  {
    hide Crowded, ColumnMisses;
    TotalsGrow(ColumnMisses(g, q, w, lines, rows), 0, q * w);
    if n > 0 {
      ColumnTotalIs(g, q, w, lines, rows, n - 1);
      TotalsGrow(ColumnMisses(g, q, w, lines, rows), n - 1, q * w);
      RowOfColumnMisses(g, q, w, lines, rows, n - 1, w, 0);
    }
  }

  /** The misses of a walk column by column over a table whose rows begin with a block: a row that competes with at
      most as many rows as a set has lines misses once a block, any other row misses every time. */
  lemma ColumnWalkMisses(g: Geometry, m: Memory, blockSize: nat, sets: Sets, base: nat, cols: nat, block: nat,
                         q: nat, w: nat, lines: nat, rows: nat)
    requires Aligned(g, base, cols, block, q, w) && Wide(sets, lines)
    requires FreshCache(g, sets, Addresses(base, cols, ColumnWalk(rows, cols)))
    ensures Usable(g, sets)
    ensures MissCount(g, m, blockSize, sets, Addresses(base, cols, ColumnWalk(rows, cols)))
         == ColumnTotal(g, q, w, lines, rows, rows)
  {
    hide Pow2, Place, FreshCache, MissCount, Wide, ColumnTotal, Crowded, ColumnMisses;
    var f := ColumnMisses(g, q, w, lines, rows);
    assert ColumnWalk(rows, cols) + Down(cols, 0, 0) == ColumnWalk(rows, cols);
    CountColumns(g, m, blockSize, sets, base, cols, block, q, w, lines, rows, cols, 0);
    PartsGrow(f, 0, cols);
    SameTotal(f, rows, cols);
    ColumnTotalIs(g, q, w, lines, rows, rows);
  }

  // ---- two by two ----

  function Quad(h: nat, j: nat): (cells: seq<Cell>)
    ensures |cells| == 4
  {
    [(2 * h, j), (2 * h + 1, j), (2 * h, j + 1), (2 * h + 1, j + 1)]
  }

  /** The pairs of rows from lo to hi in columns j and j + 1. */
  function Quads(j: nat, lo: nat, hi: nat): seq<Cell>
    requires lo <= hi
    decreases hi
  {
    if lo == hi then [] else Quads(j, lo, hi - 1) + Quad(hi - 1, j)
  }

  /** n pairs of columns over h pairs of rows. */
  function PairWalk(h: nat, n: nat): seq<Cell>
  {
    if n == 0 then [] else PairWalk(h, n - 1) + Quads(2 * (n - 1), 0, h)
  }

  lemma {:induction false} QuadsSplit(j: nat, lo: nat, h: nat, hi: nat)
    requires lo <= h < hi
    ensures Quads(j, lo, hi) == Quads(j, lo, h) + Quad(h, j) + Quads(j, h + 1, hi)
    decreases hi
  {
    hide Quad;
    if h + 1 == hi {
      assert Quads(j, h + 1, hi) == [];
    } else {
      QuadsSplit(j, lo, h, hi - 1);
      assert Quads(j, lo, hi) == Quads(j, lo, hi - 1) + Quad(hi - 1, j);
    }
  }

  /** Every row of the pairs is visited, in these two columns and no other. */
  lemma {:induction false} QuadsVisit(j: nat, lo: nat, hi: nat)
    requires lo <= hi
    ensures forall k | 0 <= k < |Quads(j, lo, hi)| ::
              2 * lo <= Quads(j, lo, hi)[k].0 < 2 * hi && j <= Quads(j, lo, hi)[k].1 <= j + 1
    ensures forall x: nat | 2 * lo <= x < 2 * hi :: x in RowsOf(Quads(j, lo, hi))
    decreases hi
  {
    if lo < hi {
      QuadsVisit(j, lo, hi - 1);
      var w, r := Quads(j, lo, hi), Quads(j, lo, hi - 1);
      forall x: nat | 2 * lo <= x < 2 * hi ensures x in RowsOf(w) {
        if x < 2 * hi - 2 {
          assert x in RowsOf(r);
          var k :| 0 <= k < |r| && r[k].0 == x;
          assert w[k].0 == x;
        } else {
          assert w[|r| + (x - (2 * hi - 2))].0 == x;
        }
      }
    }
  }

  lemma {:induction false} PairColumnsBelow(h: nat, n: nat)
    ensures forall k | 0 <= k < |PairWalk(h, n)| :: PairWalk(h, n)[k].1 < 2 * n
  {
    if n > 0 {
      PairColumnsBelow(h, n - 1);
      QuadsVisit(2 * (n - 1), 0, h);
    }
  }

  function Partner(i: nat): nat { if i % 2 == 0 then i + 1 else i - 1 }

  /** Two by two, a read in an odd column is disturbed by the other row of its pair only. */
  ghost predicate PairHit(g: Geometry, q: nat, w: nat, lines: nat, rows: nat, i: nat, j: nat)
    requires q > 0
  {
    && j % q != 0
    && if j % 2 == 0 then !Crowded(g, w, lines, rows, i) else lines > 1 || !Together(g, w, i, Partner(i))
  }

  /** A block holds one long or an even number of longs. */
  lemma EvenBlock(g: Geometry, q: nat)
    requires Pow2(g.offsetBits) == 8 * q
    ensures q == 1 || q % 2 == 0
  {
    assert Pow2(0) == 1 && Pow2(1) == 2 && Pow2(2) == 4 && Pow2(3) == 8;
    if g.offsetBits > 3 {
      LowOfEights(0, g.offsetBits - 1);
    }
  }

  /** No block begins in column j. */
  predicate InsideBlock(j: nat, q: nat)
    requires q > 0
  {
    j % q != 0
  }

  lemma PairBlockColumn(j: nat, q: nat)
    requires q > 0 && q % 2 == 0 && j % 2 == 0
    ensures (j + 1) / q == j / q && (j + 1) % q != 0
    ensures InsideBlock(j, q) ==> j >= 2 && (j - 1) / q == j / q && (j - 2) / q == j / q
  {
    var x, r := Remains(j, q);
    var p := q / 2;
    assert q * x == 2 * (p * x);
    var y, s := Remains(j + 1, q);
    SameQuotient(q, x, r + 1, y, s);
    if r != 0 {
      SameBlockColumn(j, q);
      var z, u := Remains(j - 2, q);
      SameQuotient(q, x, r - 2, z, u);
    }
  }

  /** The walk before the k-th cell of pair h in columns 2 n and 2 n + 1. */
  function PairsBefore(pairs: nat, n: nat, h: nat, k: nat): seq<Cell>
    requires h <= pairs && k <= 4
  {
    PairWalk(pairs, n) + Quads(2 * n, 0, h) + Quad(h, 2 * n)[..k]
  }

  /** What was read since cell (2 h + k, 2 n - 1). */
  function PairsSince(pairs: nat, n: nat, h: nat, k: nat): seq<Cell>
    requires n > 0 && h < pairs && k < 2
  {
    Quad(h, 2 * n - 2)[3 + k..] + Quads(2 * n - 2, h + 1, pairs) + Quads(2 * n, 0, h) + Quad(h, 2 * n)[..k]
  }

  lemma PairsBeforeSplits(pairs: nat, n: nat, h: nat, k: nat)
    requires n > 0 && h < pairs && k < 2
    ensures PairsBefore(pairs, n, h, k) == PairWalk(pairs, n - 1) + Quads(2 * n - 2, 0, h) + Quad(h, 2 * n - 2)[..2 + k]
                                           + [(2 * h + k, 2 * n - 1)] + PairsSince(pairs, n, h, k)
  {
    hide Quads, PairWalk;
    QuadsSplit(2 * n - 2, 0, h, pairs);
    PairWalkUnfolds(pairs, n);
    var q := Quad(h, 2 * n - 2);
    Regroup(PairWalk(pairs, n - 1), Quads(2 * n - 2, 0, h), q, 2 + k, Quads(2 * n - 2, h + 1, pairs),
            Quads(2 * n, 0, h), Quad(h, 2 * n)[..k]);
  }

  lemma Regroup(a: seq<Cell>, b: seq<Cell>, q: seq<Cell>, k: nat, c: seq<Cell>, d: seq<Cell>, e: seq<Cell>)
    requires k < |q|
    ensures a + (b + q + c) + d + e == a + b + q[..k] + [q[k]] + (q[k + 1..] + c + d + e)
  {
    assert q == q[..k] + [q[k]] + q[k + 1..];
  }

  lemma PairWalkUnfolds(pairs: nat, n: nat)
    requires n > 0
    ensures PairWalk(pairs, n) == PairWalk(pairs, n - 1) + Quads(2 * n - 2, 0, pairs)
  {
  }

  ghost predicate ColumnsWithin(walk: seq<Cell>, lo: nat, hi: nat)
  {
    forall k | 0 <= k < |walk| :: lo <= walk[k].1 <= hi
  }

  lemma ColumnsWithinConcat(x: seq<Cell>, y: seq<Cell>, lo: nat, hi: nat)
    requires ColumnsWithin(x, lo, hi) && ColumnsWithin(y, lo, hi)
    ensures ColumnsWithin(x + y, lo, hi)
  {
  }

  lemma QuadsWithin(j: nat, lo: nat, hi: nat, from: nat, to: nat)
    requires lo <= hi && from <= j && j + 1 <= to
    ensures ColumnsWithin(Quads(j, lo, hi), from, to)
  {
    QuadsVisit(j, lo, hi);
    hide Quads;
  }

  lemma PairsSinceWithin(pairs: nat, n: nat, h: nat, k: nat)
    requires n > 0 && h < pairs && k < 2
    ensures ColumnsWithin(PairsSince(pairs, n, h, k), 2 * n - 2, 2 * n + 1)
  {
    var a, b := Quad(h, 2 * n - 2)[3 + k..], Quads(2 * n - 2, h + 1, pairs);
    var c, d := Quads(2 * n, 0, h), Quad(h, 2 * n)[..k];
    hide Quads;
    QuadsWithin(2 * n - 2, h + 1, pairs, 2 * n - 2, 2 * n + 1);
    QuadsWithin(2 * n, 0, h, 2 * n - 2, 2 * n + 1);
    ColumnsWithinConcat(a, b, 2 * n - 2, 2 * n + 1);
    ColumnsWithinConcat(a + b, c, 2 * n - 2, 2 * n + 1);
    ColumnsWithinConcat(a + b + c, d, 2 * n - 2, 2 * n + 1);
  }

  lemma OneBlockColumn(walk: seq<Cell>, n: nat, q: nat)
    requires q > 0
    requires n > 0 && q % 2 == 0 && InsideBlock(2 * n, q) && ColumnsWithin(walk, 2 * n - 2, 2 * n + 1)
    ensures InBlockColumn(walk, q, 2 * n / q)
  {
    hide InsideBlock;
    PairBlockColumn(2 * n, q);
    forall k | 0 <= k < |walk| ensures walk[k].1 / q == 2 * n / q {
      var y := walk[k].1;
      assert y == 2 * n - 2 || y == 2 * n - 1 || y == 2 * n || y == 2 * n + 1;
    }
  }

  lemma QuadsRows(j: nat, lo: nat, hi: nat)
    requires lo <= hi
    ensures forall x: nat :: x in RowsOf(Quads(j, lo, hi)) <==> 2 * lo <= x < 2 * hi
  {
    QuadsVisit(j, lo, hi);
    hide Quads;
  }

  lemma PairsSinceRows(pairs: nat, n: nat, h: nat, k: nat)
    requires n > 0 && h < pairs && k < 2
    ensures RowsOf(PairsSince(pairs, n, h, k)) == AllRows(2 * pairs) - {2 * h + k}
  {
    var a, b := Quad(h, 2 * n - 2)[3 + k..], Quads(2 * n - 2, h + 1, pairs);
    var c, d := Quads(2 * n, 0, h), Quad(h, 2 * n)[..k];
    hide Quads, RowsOf;
    QuadsRows(2 * n - 2, h + 1, pairs);
    QuadsRows(2 * n, 0, h);
    RowsOfConcat(a + b + c, d);
    RowsOfConcat(a + b, c);
    RowsOfConcat(a, b);
    assert k == 0 ==> a == [(2 * h + 1, 2 * n - 1)] && d == [];
    assert k == 1 ==> a == [] && d == [(2 * h, 2 * n)];
    RowsOfOne((2 * h + 1, 2 * n - 1));
    RowsOfOne((2 * h, 2 * n));
  }

  lemma RowsOfConcat(x: seq<Cell>, y: seq<Cell>)
    ensures RowsOf(x + y) == RowsOf(x) + RowsOf(y)
  {
    forall r | r in RowsOf(x) + RowsOf(y) ensures r in RowsOf(x + y) {
      if r in RowsOf(x) {
        var k :| 0 <= k < |x| && x[k].0 == r;
        assert (x + y)[k].0 == r;
      } else {
        var k :| 0 <= k < |y| && y[k].0 == r;
        assert (x + y)[|x| + k].0 == r;
      }
    }
  }

  lemma RowsOfOne(c: Cell)
    ensures RowsOf([c]) == {c.0} && RowsOf([]) == {}
  {
    assert [c][0].0 == c.0;
  }

  /** The cells in the even column of a pair. */
  lemma FirstColumnCell(g: Geometry, m: Memory, blockSize: nat, sets: Sets, base: nat, cols: nat, block: nat,
                        q: nat, w: nat, lines: nat, pairs: nat, n: nat, h: nat, k: nat)
    requires Aligned(g, base, cols, block, q, w) && Wide(sets, lines) && h < pairs && 2 * n + 1 < cols && k < 2
    requires FreshCache(g, sets, Addresses(base, cols, PairsBefore(pairs, n, h, k) + [(2 * h + k, 2 * n)]))
    ensures var a := Place(base, cols, 2 * h + k, 2 * n);
            && Usable(g, sets) && IndexOf(g, a) < |sets|
            && (HitsAt(g, RunTrace(g, m, blockSize, sets, Addresses(base, cols, PairsBefore(pairs, n, h, k))), a)
                <==> PairHit(g, q, w, lines, 2 * pairs, 2 * h + k, 2 * n))
  {
    hide IndexOf, Pow2, Place, RunTrace, HitsAt, FreshCache, Rivals, UnusedCache, Together, PairsBefore, AllRows;
    var i, j, walk := 2 * h + k, 2 * n, PairsBefore(pairs, n, h, k);
    if j % q == 0 {
      NotYetRead(pairs, n, h, k, q);
      FreshIsUnused(g, sets, Addresses(base, cols, walk + [(i, j)]));
      NewCell(g, m, blockSize, sets, base, cols, block, q, w, walk, (i, j));
    } else {
      EvenBlock(g, q);
      FirstColumnLater(g, m, blockSize, sets, base, cols, block, q, w, lines, pairs, n, h, k);
    }
  }

  lemma FirstColumnLater(g: Geometry, m: Memory, blockSize: nat, sets: Sets, base: nat, cols: nat, block: nat,
                         q: nat, w: nat, lines: nat, pairs: nat, n: nat, h: nat, k: nat)
    requires Aligned(g, base, cols, block, q, w) && Wide(sets, lines) && h < pairs && k < 2
    requires q > 0 && q % 2 == 0 && InsideBlock(2 * n, q)
    requires FreshCache(g, sets, Addresses(base, cols, PairsBefore(pairs, n, h, k) + [(2 * h + k, 2 * n)]))
    ensures var a := Place(base, cols, 2 * h + k, 2 * n);
            && Usable(g, sets) && IndexOf(g, a) < |sets|
            && (HitsAt(g, RunTrace(g, m, blockSize, sets, Addresses(base, cols, PairsBefore(pairs, n, h, k))), a)
                <==> !Crowded(g, w, lines, 2 * pairs, 2 * h + k))
  {
    hide *;
    AlignedBlock(g, base, cols, block, q, w);
    var i, j := 2 * h + k, 2 * n;
    PairBlockColumn(j, q);
    var rest := PairsSince(pairs, n, h, k);
    var before := PairWalk(pairs, n - 1) + Quads(2 * n - 2, 0, h) + Quad(h, 2 * n - 2)[..2 + k];
    PairsBeforeSplits(pairs, n, h, k);
    PairsSinceRows(pairs, n, h, k);
    PairsSinceWithin(pairs, n, h, k);
    OneBlockColumn(rest, n, q);
    LaterCell(g, m, blockSize, sets, base, cols, block, q, w, before, (i, j - 1), rest, (i, j));
    RivalsWithout(g, w, 2 * pairs, i);
    CrowdedIs(g, w, lines, 2 * pairs, i);
    WideIs(sets, lines, IndexOf(g, Place(base, cols, i, j)));
  }

  lemma NotYetRead(pairs: nat, n: nat, h: nat, k: nat, q: nat)
    requires h < pairs && k < 2 && q > 0 && (2 * n) % q == 0
    ensures NotVisited(PairsBefore(pairs, n, h, k), 2 * n + 2, q, (2 * h + k, 2 * n))
  {
    PairColumnsBelow(pairs, n);
    QuadsVisit(2 * n, 0, h);
    forall y: nat | y < 2 * n ensures y / q < 2 * n / q { EarlierBlockColumn(2 * n, q, y); }
  }

  /** The cells in the odd column of a pair: since their block was read, only their partner's was. */
  lemma SecondColumnCell(g: Geometry, m: Memory, blockSize: nat, sets: Sets, base: nat, cols: nat, block: nat,
                         q: nat, w: nat, lines: nat, pairs: nat, n: nat, h: nat, k: nat)
    requires Aligned(g, base, cols, block, q, w) && Wide(sets, lines) && h < pairs && 2 * n + 1 < cols && k < 2
    requires FreshCache(g, sets, Addresses(base, cols, PairsBefore(pairs, n, h, 2 + k) + [(2 * h + k, 2 * n + 1)]))
    ensures var a := Place(base, cols, 2 * h + k, 2 * n + 1);
            && Usable(g, sets) && IndexOf(g, a) < |sets|
            && (HitsAt(g, RunTrace(g, m, blockSize, sets, Addresses(base, cols, PairsBefore(pairs, n, h, 2 + k))), a)
                <==> PairHit(g, q, w, lines, 2 * pairs, 2 * h + k, 2 * n + 1))
  {
    hide IndexOf, Pow2, Place, RunTrace, HitsAt, FreshCache, Rivals, UnusedCache, Together, PairsBefore, AllRows;
    var i, j, walk := 2 * h + k, 2 * n + 1, PairsBefore(pairs, n, h, 2 + k);
    EvenBlock(g, q);
    if q == 1 {
      NotYetReadSingle(pairs, n, h, k);
      FreshIsUnused(g, sets, Addresses(base, cols, walk + [(i, j)]));
      NewCell(g, m, blockSize, sets, base, cols, block, q, w, walk, (i, j));
    } else {
      PairBlockColumn(2 * n, q);
      SecondColumnLater(g, m, blockSize, sets, base, cols, block, q, w, lines, pairs, n, h, k);
    }
  }

  lemma NotYetReadSingle(pairs: nat, n: nat, h: nat, k: nat)
    requires h < pairs && k < 2
    ensures NotVisited(PairsBefore(pairs, n, h, 2 + k), 2 * n + 2, 1, (2 * h + k, 2 * n + 1))
  {
    PairColumnsBelow(pairs, n);
    QuadsVisit(2 * n, 0, h);
  }

  lemma SecondColumnLater(g: Geometry, m: Memory, blockSize: nat, sets: Sets, base: nat, cols: nat, block: nat,
                          q: nat, w: nat, lines: nat, pairs: nat, n: nat, h: nat, k: nat)
    requires Aligned(g, base, cols, block, q, w) && Wide(sets, lines) && h < pairs && k < 2 && q % 2 == 0
    requires FreshCache(g, sets, Addresses(base, cols, PairsBefore(pairs, n, h, 2 + k) + [(2 * h + k, 2 * n + 1)]))
    ensures var a := Place(base, cols, 2 * h + k, 2 * n + 1);
            && Usable(g, sets) && IndexOf(g, a) < |sets|
            && (HitsAt(g, RunTrace(g, m, blockSize, sets, Addresses(base, cols, PairsBefore(pairs, n, h, 2 + k))), a)
                <==> lines > 1 || !Together(g, w, 2 * h + k, Partner(2 * h + k)))
  {
    hide *;
    AlignedBlock(g, base, cols, block, q, w);
    var i, j := 2 * h + k, 2 * n + 1;
    PartnerIs(h, k);
    var c, rest := (i, 2 * n), [(Partner(i), if k == 0 then 2 * n else 2 * n + 1)];
    var before := PairWalk(pairs, n) + Quads(2 * n, 0, h) + Quad(h, 2 * n)[..k];
    QuadPrefix(pairs, n, h, k);
    PairBlockColumn(2 * n, q);
    OneCell(rest[0], q, j / q);
    LaterCell(g, m, blockSize, sets, base, cols, block, q, w, before, c, rest, (i, j));
    OneRival(g, w, i, Partner(i));
    WideIs(sets, lines, IndexOf(g, Place(base, cols, i, j)));
    UsableIs(g, sets, IndexOf(g, Place(base, cols, i, j)));
  }

  lemma PartnerIs(h: nat, k: nat)
    requires k < 2
    ensures Partner(2 * h + k) == 2 * h + 1 - k
  {
  }

  lemma QuadPrefix(pairs: nat, n: nat, h: nat, k: nat)
    requires h <= pairs && k < 2
    ensures PairsBefore(pairs, n, h, 2 + k) == PairWalk(pairs, n) + Quads(2 * n, 0, h) + Quad(h, 2 * n)[..k]
              + [(2 * h + k, 2 * n)] + [(2 * h + 1 - k, if k == 0 then 2 * n else 2 * n + 1)]
  {
    var q := Quad(h, 2 * n);
    assert q[..2 + k] == q[..k] + [(2 * h + k, 2 * n)] + [(2 * h + 1 - k, if k == 0 then 2 * n else 2 * n + 1)];
  }

  lemma OneCell(c: Cell, q: nat, column: nat)
    requires q > 0 && c.1 / q == column
    ensures InBlockColumn([c], q, column) && RowsOf([c]) == {c.0}
  {
    RowsOfOne(c);
  }

  lemma OneRival(g: Geometry, w: nat, i: nat, x: nat)
    ensures |Rivals(g, w, i, {x})| == if Together(g, w, i, x) then 1 else 0
  {
    hide Pow2, Together;
    assert Rivals(g, w, i, {x}) == if Together(g, w, i, x) then {x} else {};
  }

  lemma UsableIs(g: Geometry, sets: Sets, k: nat)
    requires Usable(g, sets) && k < |sets|
    ensures |sets[k]| > 0
  {
  }

  ghost function PairMisses(g: Geometry, q: nat, w: nat, lines: nat, rows: nat): Entry
    requires q > 0
  {
    (i: nat, j: nat) => if PairHit(g, q, w, lines, rows, i, j) then 0 else 1
  }

  lemma PairMissIs(g: Geometry, q: nat, w: nat, lines: nat, rows: nat, i: nat, j: nat)
    requires q > 0
    ensures PairMisses(g, q, w, lines, rows)(i, j) == if PairHit(g, q, w, lines, rows, i, j) then 0 else 1
  {
    hide PairHit;
  }

  lemma QuadCell(pairs: nat, n: nat, h: nat, k: nat)
    requires h < pairs && k < 4
    ensures PairsBefore(pairs, n, h, k + 1) == PairsBefore(pairs, n, h, k) + [(2 * h + k % 2, 2 * n + k / 2)]
  {
    var q := Quad(h, 2 * n);
    assert q[..k + 1] == q[..k] + [q[k]];
  }

  lemma NextPair(pairs: nat, n: nat, h: nat)
    requires h < pairs
    ensures PairsBefore(pairs, n, h, 4) == PairsBefore(pairs, n, h + 1, 0)
  {
    var q := Quad(h, 2 * n);
    assert q[..4] == q && Quad(h + 1, 2 * n)[..0] == [];
  }

  lemma NextPairColumn(pairs: nat, n: nat)
    requires n > 0
    ensures PairsBefore(pairs, n, 0, 0) == PairsBefore(pairs, n - 1, pairs, 0)
  {
    assert Quad(0, 2 * n)[..0] == [] && Quad(pairs, 2 * (n - 1))[..0] == [];
    assert Quads(2 * n, 0, 0) == [];
  }

  /** The k-th read of a pair. */
  lemma CountCell(g: Geometry, m: Memory, blockSize: nat, sets: Sets, base: nat, cols: nat, block: nat,
                  q: nat, w: nat, lines: nat, pairs: nat, n: nat, h: nat, k: nat)
    requires Aligned(g, base, cols, block, q, w) && Wide(sets, lines) && h < pairs && 2 * n + 1 < cols && k < 4
    requires FreshCache(g, sets, Addresses(base, cols, PairsBefore(pairs, n, h, k + 1)))
    ensures q > 0 && Usable(g, sets) && FreshCache(g, sets, Addresses(base, cols, PairsBefore(pairs, n, h, k)))
    ensures MissCount(g, m, blockSize, sets, Addresses(base, cols, PairsBefore(pairs, n, h, k + 1)))
         == MissCount(g, m, blockSize, sets, Addresses(base, cols, PairsBefore(pairs, n, h, k)))
            + PairMisses(g, q, w, lines, 2 * pairs)(2 * h + k % 2, 2 * n + k / 2)
  {
    hide *;
    AlignedBlock(g, base, cols, block, q, w);
    var d := (2 * h + k % 2, 2 * n + k / 2);
    QuadCell(pairs, n, h, k);
    WalkGrows(g, m, blockSize, sets, base, cols, PairsBefore(pairs, n, h, k), d);
    PairMissIs(g, q, w, lines, 2 * pairs, d.0, d.1);
    if k < 2 {
      FirstColumnCell(g, m, blockSize, sets, base, cols, block, q, w, lines, pairs, n, h, k);
    } else {
      SecondColumnCell(g, m, blockSize, sets, base, cols, block, q, w, lines, pairs, n, h, k - 2);
    }
  }

  lemma {:induction false} CountPairs(g: Geometry, m: Memory, blockSize: nat, sets: Sets, base: nat, cols: nat,
                                      block: nat, q: nat, w: nat, lines: nat, pairs: nat, n: nat, h: nat)
    requires Aligned(g, base, cols, block, q, w) && Wide(sets, lines) && h <= pairs
    requires cols % 2 == 0 && 2 * n <= cols && (2 * n == cols ==> h == 0)
    requires FreshCache(g, sets, Addresses(base, cols, PairsBefore(pairs, n, h, 0)))
    ensures q > 0 && Usable(g, sets)
    ensures var f := PairMisses(g, q, w, lines, 2 * pairs);
            MissCount(g, m, blockSize, sets, Addresses(base, cols, PairsBefore(pairs, n, h, 0)))
            == Cols(f, 2 * pairs, 2 * n) + ColPart(f, 2 * n, 2 * h) + ColPart(f, 2 * n + 1, 2 * h)
    decreases n, h
  {
    hide *;
    AlignedBlock(g, base, cols, block, q, w);
    FreshIsUnused(g, sets, Addresses(base, cols, PairsBefore(pairs, n, h, 0)));
    UnusedIsUsable(g, sets);
    var f := PairMisses(g, q, w, lines, 2 * pairs);
    PartsGrow(f, 0, 2 * n);
    PartsGrow(f, 0, 2 * n + 1);
    if h > 0 {
      NextPair(pairs, n, h - 1);
      CountCell(g, m, blockSize, sets, base, cols, block, q, w, lines, pairs, n, h - 1, 3);
      CountCell(g, m, blockSize, sets, base, cols, block, q, w, lines, pairs, n, h - 1, 2);
      CountCell(g, m, blockSize, sets, base, cols, block, q, w, lines, pairs, n, h - 1, 1);
      CountCell(g, m, blockSize, sets, base, cols, block, q, w, lines, pairs, n, h - 1, 0);
      CountPairs(g, m, blockSize, sets, base, cols, block, q, w, lines, pairs, n, h - 1);
      PartsGrow(f, 2 * h - 2, 2 * n);
      PartsGrow(f, 2 * h - 1, 2 * n);
      PartsGrow(f, 2 * h - 2, 2 * n + 1);
      PartsGrow(f, 2 * h - 1, 2 * n + 1);
    } else if n > 0 {
      NextPairColumn(pairs, n);
      CountPairs(g, m, blockSize, sets, base, cols, block, q, w, lines, pairs, n - 1, pairs);
      TotalsGrow(f, 2 * pairs, 2 * n - 2);
      TotalsGrow(f, 2 * pairs, 2 * n - 1);
    } else {
      NoPairs(pairs, base, cols);
      NoReads(g, m, blockSize, sets);
      TotalsGrow(f, 2 * pairs, 0);
    }
  }

  lemma NoPairs(pairs: nat, base: nat, cols: nat)
    ensures Addresses(base, cols, PairsBefore(pairs, 0, 0, 0)) == []
  {
    assert Quad(0, 0)[..0] == [] && Quads(0, 0, 0) == [] && PairWalk(pairs, 0) == [];
  }

  ghost predicate Clashes(g: Geometry, w: nat, lines: nat, i: nat)
  {
    lines <= 1 && Together(g, w, i, Partner(i))
  }

  /** The misses of a row in the first r pairs of columns of a block. */
  ghost function PairRow(g: Geometry, w: nat, lines: nat, rows: nat, i: nat, r: nat): nat
  {
    if r == 0 then 0 else
      1 + (if Crowded(g, w, lines, rows, i) then r - 1 else 0) + if Clashes(g, w, lines, i) then r else 0
  }

  lemma PairPlaces(q: nat, c: nat, r: nat)
    requires q > 0 && q % 2 == 0 && 0 < r && 2 * r <= q
    ensures var j := q * c + 2 * (r - 1);
            j % 2 == 0 && j % q == 2 * (r - 1) && (j + 1) % 2 == 1 && (j + 1) % q == 2 * r - 1
  {
    var j := q * c + 2 * (r - 1);
    EvenProduct(q, c);
    PlaceIn(q, c, 2 * (r - 1));
    PlaceIn(q, c, 2 * (r - 1) + 1);
  }

  lemma EvenProduct(q: nat, c: nat)
    requires q % 2 == 0
    ensures (q * c) % 2 == 0
  {
    var p := q / 2;
    assert q * c == 2 * (p * c);
  }

  lemma PlaceIn(q: nat, c: nat, r: nat)
    requires r < q
    ensures (q * c + r) % q == r
  {
    var x, d := Remains(q * c + r, q);
    SameQuotient(q, c, r, x, d);
  }

  lemma PairStep(g: Geometry, q: nat, w: nat, lines: nat, rows: nat, i: nat, c: nat, r: nat)
    requires q > 0 && q % 2 == 0 && 0 < r && 2 * r <= q
    ensures var f, j := PairMisses(g, q, w, lines, rows), q * c + 2 * (r - 1);
            && f(i, j) == (if r == 1 || Crowded(g, w, lines, rows, i) then 1 else 0)
            && f(i, j + 1) == if Clashes(g, w, lines, i) then 1 else 0
  {
    hide Crowded, Together;
    PairPlaces(q, c, r);
  }

  lemma {:induction false} RowOfPairMisses(g: Geometry, q: nat, w: nat, lines: nat, rows: nat, i: nat, c: nat, r: nat)
    requires q > 0 && q % 2 == 0 && 2 * r <= q
    ensures RowPart(PairMisses(g, q, w, lines, rows), i, q * c + 2 * r)
         == PairRow(g, w, lines, rows, i, q / 2) * c + PairRow(g, w, lines, rows, i, r)
    decreases c, r
  {
    hide Crowded, Clashes, PairHit, PairMisses;
    var f := PairMisses(g, q, w, lines, rows);
    if r > 0 {
      RowOfPairMisses(g, q, w, lines, rows, i, c, r - 1);
      var j := q * c + 2 * (r - 1);
      PairStep(g, q, w, lines, rows, i, c, r);
      PartsGrow(f, i, j);
      PartsGrow(f, i, j + 1);
    } else if c > 0 {
      RowOfPairMisses(g, q, w, lines, rows, i, c - 1, q / 2);
      Distributes(q, c - 1);
      Distributes(PairRow(g, w, lines, rows, i, q / 2), c - 1);
    } else {
      PartsGrow(f, i, 0);
    }
  }

  /** A block of one long cannot be read twice. */
  lemma {:induction false} RowOfSingles(g: Geometry, w: nat, lines: nat, rows: nat, i: nat, n: nat)
    ensures RowPart(PairMisses(g, 1, w, lines, rows), i, n) == n
  {
    PartsGrow(PairMisses(g, 1, w, lines, rows), i, if n > 0 then n - 1 else 0);
    if n > 0 {
      RowOfSingles(g, w, lines, rows, i, n - 1);
    }
  }

  /** The misses of n rows: once a block, once more a pair of columns for a row that is crowded out, and every time
      in odd columns for a row that clashes with its partner in a set of one line. */
  ghost function PairTotal(g: Geometry, q: nat, w: nat, lines: nat, rows: nat, n: nat): nat
  {
    if n == 0 then 0 else
      PairTotal(g, q, w, lines, rows, n - 1) + (if q == 1 then 1 else PairRow(g, w, lines, rows, n - 1, q / 2)) * w
  }

  lemma {:induction false} PairTotalIs(g: Geometry, q: nat, w: nat, lines: nat, rows: nat, n: nat)
    requires Pow2(g.offsetBits) == 8 * q && q > 0
    ensures Rows(PairMisses(g, q, w, lines, rows), n, q * w) == PairTotal(g, q, w, lines, rows, n)
  {
    hide PairMisses, PairRow, Pow2;
    TotalsGrow(PairMisses(g, q, w, lines, rows), 0, q * w);
    if n > 0 {
      PairTotalIs(g, q, w, lines, rows, n - 1);
      TotalsGrow(PairMisses(g, q, w, lines, rows), n - 1, q * w);
      EvenBlock(g, q);
      if q == 1 {
        RowOfSingles(g, w, lines, rows, n - 1, w);
      } else {
        RowOfPairMisses(g, q, w, lines, rows, n - 1, w, 0);
        NoPairRow(g, w, lines, rows, n - 1);
      }
    }
  }

  lemma NoPairRow(g: Geometry, w: nat, lines: nat, rows: nat, i: nat)
    ensures PairRow(g, w, lines, rows, i, 0) == 0
  {
  }

  lemma WholePairWalk(pairs: nat, n: nat)
    ensures PairsBefore(pairs, n, 0, 0) == PairWalk(pairs, n)
  {
    assert Quads(2 * n, 0, 0) == [] && Quad(0, 2 * n)[..0] == [];
  }

  lemma AlignedBytes(g: Geometry, base: nat, cols: nat, block: nat, q: nat, w: nat)
    requires Aligned(g, base, cols, block, q, w)
    ensures Pow2(g.offsetBits) == 8 * q && q > 0
  {
  }

  /** The misses of a walk two by two over an even table whose rows begin with a block. */
  lemma PairWalkMisses(g: Geometry, m: Memory, blockSize: nat, sets: Sets, base: nat, cols: nat, block: nat,
                       q: nat, w: nat, lines: nat, pairs: nat)
    requires Aligned(g, base, cols, block, q, w) && Wide(sets, lines) && cols % 2 == 0
    requires FreshCache(g, sets, Addresses(base, cols, PairWalk(pairs, cols / 2)))
    ensures Usable(g, sets)
    ensures MissCount(g, m, blockSize, sets, Addresses(base, cols, PairWalk(pairs, cols / 2)))
         == PairTotal(g, q, w, lines, 2 * pairs, 2 * pairs)
  {
    hide *;
    AlignedBlock(g, base, cols, block, q, w);
    AlignedBytes(g, base, cols, block, q, w);
    var f := PairMisses(g, q, w, lines, 2 * pairs);
    WholePairWalk(pairs, cols / 2);
    CountPairs(g, m, blockSize, sets, base, cols, block, q, w, lines, pairs, cols / 2, 0);
    PartsGrow(f, 0, cols);
    PartsGrow(f, 0, cols + 1);
    SameTotal(f, 2 * pairs, cols);
    PairTotalIs(g, q, w, lines, 2 * pairs, 2 * pairs);
  }
}
