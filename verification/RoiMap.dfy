/**
 Region maps of utils/mpp_enc_roi_utils.c: regions painted on a padded grid of 16x16 blocks
 and the grid reordered from raster to CTU order.
 */
module RoiMap {

  // ---- Rounding

  /** `MPP_ALIGN(x, a)` for a power of two a. */
  function Align(x: nat, a: nat): nat
    requires a > 0
  {
    (x + a - 1) / a * a
  }

  /** The number of blocks of size a that x pixels reach into. */
  function Blocks(x: nat, a: nat): nat
    requires a > 0
  {
    Align(x, a) / a
  }

  lemma BlocksIs(x: nat, a: nat)
    requires a == 16 || a == 64
    ensures Blocks(x, a) == (x + a - 1) / a
  {
    if a == 16 {
      assert (x + 15) / 16 * 16 / 16 == (x + 15) / 16;
    } else {
      assert (x + 63) / 64 * 64 / 64 == (x + 63) / 64;
    }
  }

  /** Columns (or rows) of the padded grid. */
  function Stride(pixels: nat): nat {
    Align(Blocks(pixels, 16), 4)
  }

  /** The painter's stride and the one the reorder uses agree for every size. */
  lemma StridesAgree(pixels: nat)
    ensures Stride(pixels) == 4 * Blocks(pixels, 64)
    ensures Blocks(pixels, 16) <= Stride(pixels)
  {
    BlocksIs(pixels, 16);
    BlocksIs(pixels, 64);
  }

  // ---- Regions

  datatype Region = Region(x: nat, y: nat, w: nat, h: nat, forceIntra: int, qpMode: int, qpVal: int)

  /** One entry of the map; the fields are bit fields of 1, 3, 1, 7 (signed) and 1 bits. */
  datatype Cfg = Cfg(forceIntra: int, qpAreaIdx: int, qpAreaEn: int, qpAdj: int, qpAdjMode: int)

  const DEFAULT := Cfg(0, 0, 1, 0, 0)

  /** What a 7-bit signed bit field keeps of a value. */
  function Signed7(v: int): int {
    (v + 64) % 128 - 64
  }

  function CfgOf(r: Region): Cfg {
    Cfg(r.forceIntra % 2, 0, 1, Signed7(r.qpVal), r.qpMode % 2)
  }

  /** The region check. */
  predicate Accepted(r: Region, w: nat, h: nat) {
    && r.x + r.w <= w && r.y + r.h <= h
    && r.forceIntra <= 1 && r.qpMode <= 1
    && (if r.qpMode != 0 then r.qpVal <= 51 else -51 <= r.qpVal <= 51)
  }

  predicate AllAccepted(regions: seq<Region>, w: nat, h: nat) {
    w > 0 && h > 0 && forall i | 0 <= i < |regions| :: Accepted(regions[i], w, h)
  }

  /** The bit fields keep an accepted configuration exactly when its flags are not negative and
      the quantizer fits 7 bits; the check itself lets negative flags through. */
  lemma CfgKept(r: Region, w: nat, h: nat)
    requires Accepted(r, w, h)
    ensures CfgOf(r) == Cfg(r.forceIntra, 0, 1, r.qpVal, r.qpMode)
            <==> r.forceIntra >= 0 && r.qpMode >= 0 && r.qpVal >= -64
  {
  }

  /** A negative flag that passes the check and is stored as one. */
  lemma NegativeFlag()
    ensures var r := Region(0, 0, 16, 16, -1, 0, 0); Accepted(r, 64, 64) && CfgOf(r).forceIntra == 1
  {
  }

  /** A relative quantizer is always kept. */
  lemma RelativeKept(r: Region, w: nat, h: nat)
    requires Accepted(r, w, h) && r.qpMode == 0
    ensures CfgOf(r).qpAdj == r.qpVal && CfgOf(r).qpAdjMode == 0
  {
  }

  /** `(x + 15) / 16`: pixels rounded up to blocks. */
  function Cells(x: nat): nat {
    (x + 15) / 16
  }

  /** The blocks the painter means to touch: `pos_init` to `pos_end`, for one direction. */
  predicate Spans(at: nat, size: nat, b: nat) {
    Cells(at) <= b < Cells(at) + Cells(size)
  }

  predicate Covers(r: Region, col: nat, row: nat) {
    Spans(r.x, r.w, col) && Spans(r.y, r.h, row)
  }

  /** For an origin on the block grid these are the blocks that share a pixel with the region. */
  lemma CoversIntersects(r: Region, col: nat, row: nat)
    requires r.x % 16 == 0 && r.y % 16 == 0
    ensures Covers(r, col, row) <==>
            exists px: nat, py: nat :: px / 16 == col && py / 16 == row && r.x <= px < r.x + r.w && r.y <= py < r.y + r.h
  {
    SpanShares(r.x, r.w, col);
    SpanShares(r.y, r.h, row);
    if Covers(r, col, row) {
      var px: nat :| px / 16 == col && r.x <= px < r.x + r.w;
      var py: nat :| py / 16 == row && r.y <= py < r.y + r.h;
    }
  }

  lemma SpanShares(at: nat, size: nat, b: nat)
    requires at % 16 == 0
    ensures Spans(at, size, b) <==> exists p: nat :: p / 16 == b && at <= p < at + size
  {
    if Spans(at, size, b) {
      assert (16 * b) / 16 == b && at <= 16 * b < at + size;
    }
  }

  /** The upper bounds that are asserted before painting. */
  predicate InGrid(r: Region, w: nat, h: nat) {
    && Cells(r.x) + Cells(r.w) <= Blocks(w, 16)
    && Cells(r.y) + Cells(r.h) <= Blocks(h, 16)
  }

  /** All the asserted bounds. */
  predicate Asserted(r: Region, w: nat, h: nat) {
    InGrid(r, w, h) && Cells(r.x) < Blocks(w, 16) && Cells(r.y) < Blocks(h, 16)
  }

  /** For an accepted region with its origin on the block grid the upper bounds follow, and all
      asserted bounds hold exactly when the origin lies inside the picture. */
  lemma AlignedBounds(r: Region, w: nat, h: nat)
    requires Accepted(r, w, h) && r.x % 16 == 0 && r.y % 16 == 0
    ensures InGrid(r, w, h)
    ensures Asserted(r, w, h) <==> r.x < w && r.y < h
  {
    hide Cells, Blocks;
    AlignedSpan(r.x, r.w, w);
    AlignedSpan(r.y, r.h, h);
  }

  lemma AlignedSpan(at: nat, size: nat, pixels: nat)
    requires at + size <= pixels && at % 16 == 0
    ensures Cells(at) + Cells(size) <= Blocks(pixels, 16)
    ensures Cells(at) < Blocks(pixels, 16) <==> at < pixels
  {
    hide Cells, Blocks;
    StaysInGrid(at, size, pixels);
    OriginInside(at, pixels);
  }

  lemma OriginInside(at: nat, pixels: nat)
    requires at % 16 == 0
    ensures Cells(at) < Blocks(pixels, 16) <==> at < pixels
  {
    hide Blocks;
    BlocksIs(pixels, 16);
    var a := at / 16;
    assert at == 16 * a && Cells(at) == a;
  }

  /** Origin and size both lie off the block grid, what they have beyond it fits one block
      together, and the far edge lies in the last of n blocks. */
  predicate Overhangs(at: nat, size: nat, n: nat) {
    at % 16 != 0 && size % 16 != 0 && at % 16 + size % 16 <= 16 && Cells(at + size) == n
  }

  /** What rounding origin and size up separately costs: at most one block, and that one exactly
      when the two remainders fit one block. */
  lemma RoundingCost(at: nat, size: nat)
    ensures Cells(at) + Cells(size) == Cells(at + size) + if Overhangs(at, size, Cells(at + size)) then 1 else 0
  {
    var (a, b, c, d) := (at / 16, at % 16, size / 16, size % 16);
    assert Cells(at) == a + (b + 15) / 16 && Cells(size) == c + (d + 15) / 16 && Cells(at + size) == a + c + (b + d + 15) / 16;
  }

  /** An accepted region breaks an asserted upper bound exactly when it overhangs the last block
      of a row or of a column. */
  lemma InGridIff(r: Region, w: nat, h: nat)
    requires Accepted(r, w, h)
    ensures InGrid(r, w, h) <==> !Overhangs(r.x, r.w, Blocks(w, 16)) && !Overhangs(r.y, r.h, Blocks(h, 16))
  {
    StaysInGrid(r.x, r.w, w);
    StaysInGrid(r.y, r.h, h);
  }

  lemma StaysInGrid(at: nat, size: nat, pixels: nat)
    requires at + size <= pixels
    ensures Cells(at) + Cells(size) <= Blocks(pixels, 16) <==> !Overhangs(at, size, Blocks(pixels, 16))
    ensures Cells(at) <= Blocks(pixels, 16) && Cells(at + size) <= Blocks(pixels, 16)
  {
    BlocksIs(pixels, 16);
    RoundingCost(at, size);
  }

  /** A region of one block or more off the grid can break the asserted bounds although it
      passes the check: the check compares pixels, the painter rounds origin and size up
      separately. */
  lemma UnalignedBounds()
    ensures var r := Region(1, 0, 63, 16, 0, 0, 0); Accepted(r, 64, 64) && !InGrid(r, 64, 64)
  {
    BlocksIs(64, 16);
  }

  // ---- The grid in its buffer

  /** The position of a block in a grid buffer. */
  function Index(x: nat, y: nat, stride: nat): nat {
    x + y * stride
  }

  /** The number of blocks of a grid. */
  function Area(stride: nat, rows: nat): nat {
    stride * rows
  }

  lemma Mono(a: nat, b: nat, c: nat)
    requires a <= b
    ensures a * c <= b * c
  {
  }

  lemma NextRow(y: nat, stride: nat)
    ensures (y + 1) * stride == y * stride + stride
  {
  }

  lemma GridIndex(x: nat, y: nat, x': nat, y': nat, stride: nat)
    requires x < stride && x' < stride
    ensures Index(x, y, stride) == Index(x', y', stride) <==> x == x' && y == y'
  {
    NextRow(y, stride);
    NextRow(y', stride);
    if y < y' {
      Mono(y + 1, y', stride);
    } else if y' < y {
      Mono(y' + 1, y, stride);
    }
  }

  lemma GridBound(x: nat, y: nat, stride: nat, rows: nat)
    requires x < stride && y < rows
    ensures Index(x, y, stride) < Area(stride, rows)
  {
    NextRow(y, stride);
    Mono(y + 1, rows, stride);
  }

  /** The buffer has room for the grid. */
  predicate Fits<T>(a: array<T>, stride: nat, rows: nat) {
    Area(stride, rows) <= a.Length
  }

  function At(a: array<Cfg>, stride: nat, rows: nat, x: nat, y: nat): Cfg
    requires Fits(a, stride, rows) && x < stride && y < rows
    reads a
  {
    GridBound(x, y, stride, rows);
    a[Index(x, y, stride)]
  }

  // ---- Rectangles in a buffer

  /** Cell k is one of the width cells from p on, or of one of the next rows below them. Nothing
      keeps such a rectangle inside the rows of the grid. */
  predicate InRect(k: nat, p: nat, stride: nat, width: nat, height: nat) {
    exists y: nat :: y < height && Index(p, y, stride) <= k < Index(p, y, stride) + width
  }

  /** Its last cell lies in a buffer of n cells. */
  predicate RectFits(n: nat, p: nat, stride: nat, width: nat, height: nat) {
    width > 0 && height > 0 ==> Index(p, height - 1, stride) + width <= n
  }

  lemma RowFits(n: nat, p: nat, stride: nat, width: nat, height: nat, y: nat)
    requires RectFits(n, p, stride, width, height) && y < height
    ensures width > 0 ==> Index(p, y, stride) + width <= n
  {
    Mono(y, height - 1, stride);
  }

  lemma RectGrows(k: nat, p: nat, stride: nat, width: nat, y: nat)
    ensures InRect(k, p, stride, width, y + 1) <==>
              InRect(k, p, stride, width, y) || Index(p, y, stride) <= k < Index(p, y, stride) + width
  {
    hide Index;
    if InRect(k, p, stride, width, y + 1) {
      var z: nat :| z < y + 1 && Index(p, z, stride) <= k < Index(p, z, stride) + width;
      assert z < y || z == y;
    }
  }

  /** In a buffer with rows of `stride` cells, the cells of a rectangle that starts at column x0,
      row y0 and is one cell too wide at most: its own ones and, when it is too wide, the first
      of the row below each of its rows. */
  lemma RectCells(x: nat, y: nat, x0: nat, y0: nat, stride: nat, width: nat, height: nat)
    requires x < stride && x0 <= stride && x0 + width <= stride + 1
    ensures InRect(Index(x, y, stride), Index(x0, y0, stride), stride, width, height) <==>
              || (x0 <= x < x0 + width && y0 <= y < y0 + height)
              || (x0 + width == stride + 1 && x == 0 && y0 < y <= y0 + height)
  {
    var (k, p) := (Index(x, y, stride), Index(x0, y0, stride));
    forall d: nat | d < height
      ensures Index(p, d, stride) <= k < Index(p, d, stride) + width <==>
                || (y == y0 + d && x0 <= x < x0 + width)
                || (y == y0 + d + 1 && x == 0 && x0 + width == stride + 1)
    {
      RowCells(x, y, x0, y0 + d, stride, width);
      assert (y0 + d) * stride == y0 * stride + d * stride;
      assert Index(p, d, stride) == Index(x0, y0 + d, stride);
    }
    hide Index;
    if x0 <= x < x0 + width && y0 <= y < y0 + height {
      assert Index(p, y - y0, stride) <= k < Index(p, y - y0, stride) + width;
    }
    if x0 + width == stride + 1 && x == 0 && y0 < y <= y0 + height {
      assert Index(p, y - y0 - 1, stride) <= k < Index(p, y - y0 - 1, stride) + width;
    }
  }

  lemma RowCells(x: nat, y: nat, x0: nat, row: nat, stride: nat, width: nat)
    requires x < stride && x0 <= stride && x0 + width <= stride + 1
    ensures Index(x0, row, stride) <= Index(x, y, stride) < Index(x0, row, stride) + width <==>
              || (y == row && x0 <= x < x0 + width)
              || (y == row + 1 && x == 0 && x0 + width == stride + 1)
  {
    NextRow(row, stride);
    if y < row {
      NextRow(y, stride);
      Mono(y + 1, row, stride);
    } else if y > row + 1 {
      NextRow(row + 1, stride);
      Mono(row + 2, y, stride);
    }
  }

  // ---- What is painted

  /** `p`, and `map` as well, at the start of the painting loop. */
  function Origin(r: Region, stride: nat): nat {
    Index(Cells(r.x), Cells(r.y), stride)
  }

  /** Cell k of the buffer is written for the region. */
  predicate Hits(r: Region, stride: nat, k: nat) {
    InRect(k, Origin(r, stride), stride, Cells(r.w), Cells(r.h))
  }

  /** The configuration of the last of the first n regions that writes cell k. */
  function FlatConfig(regions: seq<Region>, n: nat, stride: nat, k: nat): Cfg
    requires n <= |regions|
  {
    if n == 0 then DEFAULT
    else if Hits(regions[n - 1], stride, k) then CfgOf(regions[n - 1])
    else FlatConfig(regions, n - 1, stride, k)
  }

  /** The configuration of the last of the first n regions that covers a block. */
  function ConfigAt(regions: seq<Region>, n: nat, col: nat, row: nat): Cfg
    requires n <= |regions|
  {
    if n == 0 then DEFAULT
    else if Covers(regions[n - 1], col, row) then CfgOf(regions[n - 1])
    else ConfigAt(regions, n - 1, col, row)
  }

  /** A block that no region covers has the default. */
  lemma {:induction false} ConfigAtUncovered(regions: seq<Region>, n: nat, col: nat, row: nat)
    requires n <= |regions|
    requires forall i | 0 <= i < n :: !Covers(regions[i], col, row)
    ensures ConfigAt(regions, n, col, row) == DEFAULT
  {
    if n > 0 {
      assert !Covers(regions[n - 1], col, row);
      ConfigAtUncovered(regions, n - 1, col, row);
    }
  }

  /** The last region that covers a block decides. */
  lemma {:induction false} ConfigAtLast(regions: seq<Region>, n: nat, last: nat, col: nat, row: nat)
    requires last < n <= |regions| && Covers(regions[last], col, row)
    requires forall i | last < i < n :: !Covers(regions[i], col, row)
    ensures ConfigAt(regions, n, col, row) == CfgOf(regions[last])
  {
    hide Covers, CfgOf;
    if last < n - 1 {
      assert !Covers(regions[n - 1], col, row);
      ConfigAtLast(regions, n - 1, last, col, row);
    }
  }

  /** The blocks an accepted region writes: those it covers, and the first block of the row below
      each of its rows exactly when it overhangs a full row of the buffer. */
  lemma HitsCovers(r: Region, w: nat, h: nat, col: nat, row: nat)
    requires Accepted(r, w, h) && col < Stride(w)
    ensures Hits(r, Stride(w), Index(col, row, Stride(w))) <==>
              || Covers(r, col, row)
              || (Overhangs(r.x, r.w, Stride(w)) && col == 0 && row > 0 && Spans(r.y, r.h, row - 1))
  {
    WidthBound(r.x, r.w, w);
    hide Stride, Index, Overhangs;
    RectCells(col, row, Cells(r.x), Cells(r.y), Stride(w), Cells(r.w), Cells(r.h));
  }

  lemma WidthBound(at: nat, size: nat, pixels: nat)
    requires at + size <= pixels
    ensures Cells(at) <= Stride(pixels) && Cells(at) + Cells(size) <= Stride(pixels) + 1
    ensures Cells(at) + Cells(size) == Stride(pixels) + 1 <==> Overhangs(at, size, Stride(pixels))
  {
    StridesAgree(pixels);
    StaysInGrid(at, size, pixels);
    RoundingCost(at, size);
    hide Stride, Blocks;
  }

  /** An accepted region stays in the buffer exactly when its rows do, with one row more if it
      overhangs a full row. */
  lemma FitsIff(r: Region, w: nat, h: nat)
    requires Accepted(r, w, h) && r.w > 0 && r.h > 0
    ensures RectFits(Area(Stride(w), Stride(h)), Origin(r, Stride(w)), Stride(w), Cells(r.w), Cells(r.h)) <==>
              Cells(r.y) + Cells(r.h) + (if Overhangs(r.x, r.w, Stride(w)) then 1 else 0) <= Stride(h)
  {
    WidthBound(r.x, r.w, w);
    BlocksIs(w, 16);
    assert Stride(w) > 0;
    hide Stride, Overhangs;
    LastRow(Cells(r.x), Cells(r.y), Stride(w), Cells(r.w), Cells(r.h), Stride(h));
  }

  lemma LastRow(x0: nat, y0: nat, stride: nat, width: nat, height: nat, rows: nat)
    requires stride > 0 && width > 0 && height > 0 && x0 + width <= stride + 1
    ensures Index(Index(x0, y0, stride), height - 1, stride) + width <= Area(stride, rows) <==>
              y0 + height + (if x0 + width == stride + 1 then 1 else 0) <= rows
  {
    var last := y0 + height - 1;
    assert last * stride == y0 * stride + (height - 1) * stride;
    EndOfRow(last, stride, x0 + width, rows);
  }

  lemma EndOfRow(last: nat, stride: nat, end: nat, rows: nat)
    requires stride > 0 && 0 < end <= stride + 1
    ensures last * stride + end <= Area(stride, rows) <==> last + 1 + (if end == stride + 1 then 1 else 0) <= rows
  {
    NextRow(last, stride);
    NextRow(last + 1, stride);
    if last + 1 < rows {
      Mono(last + 2, rows, stride);
    } else if last + 1 == rows {
      assert Area(stride, rows) == last * stride + stride;
    } else {
      Mono(rows, last, stride);
    }
  }

  /** Regions inside the grid are painted where they should be. */
  lemma {:induction false} FlatIsGrid(regions: seq<Region>, n: nat, w: nat, h: nat, col: nat, row: nat)
    requires n <= |regions| && col < Stride(w)
    requires forall i | 0 <= i < n :: Accepted(regions[i], w, h) && InGrid(regions[i], w, h)
    ensures FlatConfig(regions, n, Stride(w), Index(col, row, Stride(w))) == ConfigAt(regions, n, col, row)
  {
    hide Stride, Index, Hits, Covers, CfgOf, Overhangs, Accepted, InGrid;
    if n > 0 {
      var r := regions[n - 1];
      assert Accepted(r, w, h) && InGrid(r, w, h);
      HitsCovers(r, w, h, col, row);
      NoOverhang(r, w, h);
      FlatIsGrid(regions, n - 1, w, h, col, row);
    }
  }

  lemma NoOverhang(r: Region, w: nat, h: nat)
    requires Accepted(r, w, h) && InGrid(r, w, h)
    ensures !Overhangs(r.x, r.w, Stride(w))
  {
    WidthBound(r.x, r.w, w);
    StridesAgree(w);
    hide Stride, Blocks, Overhangs;
  }

  /** Regions inside the grid stay in the buffer. */
  lemma InGridFits(r: Region, w: nat, h: nat)
    requires Accepted(r, w, h) && InGrid(r, w, h)
    ensures RectFits(Area(Stride(w), Stride(h)), Origin(r, Stride(w)), Stride(w), Cells(r.w), Cells(r.h))
  {
    if r.w > 0 && r.h > 0 {
      NoOverhang(r, w, h);
      FitsIff(r, w, h);
      StridesAgree(h);
      hide Stride, Blocks, Overhangs, Area, Origin, RectFits;
    } else {
      hide Stride, Blocks, Area, Origin;
    }
  }

  lemma Grid64()
    ensures Stride(64) == 4
  {
    StridesAgree(64);
    BlocksIs(64, 64);
  }

  /** An accepted region whose fourth block lands in the next row. */
  lemma RegionSpills()
    ensures var r := Region(1, 0, 63, 16, 0, 0, 0);
            && Accepted(r, 64, 64) && !Covers(r, 0, 1)
            && Hits(r, Stride(64), Index(0, 1, Stride(64)))
  {
    var r := Region(1, 0, 63, 16, 0, 0, 0);
    Grid64();
    assert Overhangs(r.x, r.w, 4) && Spans(r.y, r.h, 0);
    assert Accepted(r, 64, 64) && !Covers(r, 0, 1);
    hide *;
    HitsCovers(r, 64, 64, 0, 1);
  }

  /** An accepted region that would be painted below the buffer. */
  lemma RegionLeavesBuffer()
    ensures var r := Region(0, 1, 64, 63, 0, 0, 0);
            && Accepted(r, 64, 64)
            && !RectFits(Area(Stride(64), Stride(64)), Origin(r, Stride(64)), Stride(64), Cells(r.w), Cells(r.h))
  {
    var r := Region(0, 1, 64, 63, 0, 0, 0);
    Grid64();
    assert Cells(r.y) + Cells(r.h) == 5 && Accepted(r, 64, 64);
    hide *;
    FitsIff(r, 64, 64);
  }

  // ---- What is marked

  datatype Coding = Avc | Hevc | Other

  /** `stride_cu64_h`. */
  function Cu64Stride(stride: nat): nat {
    stride * 16 / 64
  }

  /** For HEVC the map has one cell per CTU: the first CTU that is marked, in one direction. */
  function CtuStart(at: nat): nat {
    if at < 64 then 0 else if at % 64 != 0 then (at - 64) / 64 else at / 64
  }

  /** And how many are. */
  function CtusMarked(at: nat, size: nat): nat {
    (size + 64) / 64 + if at < 64 || at % 64 != 0 then 2 else 0
  }

  function MarkOrigin(r: Region, stride: nat): nat {
    Index(CtuStart(r.x), CtuStart(r.y), stride)
  }

  /** Cell k of `cu_map` is marked for the region. */
  predicate Marks(coding: Coding, r: Region, stride: nat, k: nat) {
    match coding
    case Avc => Hits(r, stride, k)
    case Hevc =>
      InRect(k, MarkOrigin(r, Cu64Stride(stride)), Cu64Stride(stride), CtusMarked(r.x, r.w), CtusMarked(r.y, r.h))
    case Other => false
  }

  predicate MarkedBy(coding: Coding, regions: seq<Region>, n: nat, stride: nat, k: nat)
    requires n <= |regions|
  {
    exists i :: 0 <= i < n && Marks(coding, regions[i], stride, k)
  }

  /** The region is painted inside the buffer and marked inside the map. */
  predicate InBuffers(coding: Coding, r: Region, stride: nat, cells: nat, mapCells: nat) {
    && RectFits(cells, Origin(r, stride), stride, Cells(r.w), Cells(r.h))
    && match coding
       case Avc => RectFits(mapCells, Origin(r, stride), stride, Cells(r.w), Cells(r.h))
       case Hevc =>
         RectFits(mapCells, MarkOrigin(r, Cu64Stride(stride)), Cu64Stride(stride), CtusMarked(r.x, r.w), CtusMarked(r.y, r.h))
       case Other => true
  }

  /** The CTU of a block, as an index of the map. */
  function CtuOf(col: nat, row: nat, ctus: nat): nat {
    Index(col / 4, row / 4, ctus)
  }

  /** Every CTU with a block that the region covers is marked. */
  lemma MarksCover(r: Region, ctus: nat, col: nat, row: nat)
    requires Covers(r, col, row)
    ensures Marks(Hevc, r, 4 * ctus, CtuOf(col, row, ctus))
  {
    assert Cu64Stride(4 * ctus) == ctus;
    CtuSpans(r.x, r.w, col);
    CtuSpans(r.y, r.h, row);
    hide CtuStart, CtusMarked;
    InsideRect(col / 4, row / 4, CtuStart(r.x), CtuStart(r.y), ctus, CtusMarked(r.x, r.w), CtusMarked(r.y, r.h));
  }

  /** The marks of a region stay in a map of ctus by rows cells exactly when the cell marked last
      lies in one of its rows. */
  lemma MarksFitIff(r: Region, ctus: nat, rows: nat)
    requires ctus > 0
    ensures RectFits(Area(ctus, rows), MarkOrigin(r, ctus), ctus, CtusMarked(r.x, r.w), CtusMarked(r.y, r.h)) <==>
              CtuStart(r.y) + CtusMarked(r.y, r.h) - 1 + (CtuStart(r.x) + CtusMarked(r.x, r.w) - 1) / ctus < rows
  {
    var (x0, y0, width, height) := (CtuStart(r.x), CtuStart(r.y), CtusMarked(r.x, r.w), CtusMarked(r.y, r.h));
    assert width > 0 && height > 0;
    hide CtuStart, CtusMarked;
    var (last, end) := (y0 + height - 1, x0 + width - 1);
    assert last * ctus == y0 * ctus + (height - 1) * ctus;
    DivIndex(end, ctus);
    CellRow(last, end / ctus, end % ctus, ctus, rows);
  }

  /** An accepted region whose marks leave the map of a picture of one CTU. */
  lemma MarksLeaveMap()
    ensures var r := Region(0, 0, 16, 16, 0, 0, 0);
            && Accepted(r, 64, 64)
            && !RectFits(Area(1, 1), MarkOrigin(r, 1), 1, CtusMarked(r.x, r.w), CtusMarked(r.y, r.h))
  {
    var r := Region(0, 0, 16, 16, 0, 0, 0);
    assert CtuStart(0) == 0 && CtusMarked(0, 16) == 3 && Accepted(r, 64, 64);
    hide *;
    MarksFitIff(r, 1, 1);
  }

  lemma DivIndex(n: nat, d: nat)
    requires d > 0
    ensures n == Index(n % d, n / d, d) && n % d < d
  {
  }

  lemma CellRow(last: nat, more: nat, rest: nat, stride: nat, rows: nat)
    requires rest < stride
    ensures last * stride + more * stride + rest < Area(stride, rows) <==> last + more < rows
  {
    assert (last + more) * stride == last * stride + more * stride;
    if last + more < rows {
      GridBound(rest, last + more, stride, rows);
    } else {
      Mono(rows, last + more, stride);
      assert Area(stride, rows) == rows * stride;
    }
  }

  lemma CtuSpans(at: nat, size: nat, b: nat)
    requires Spans(at, size, b)
    ensures CtuStart(at) <= b / 4 < CtuStart(at) + CtusMarked(at, size)
  {
  }

  lemma InsideRect(x: nat, y: nat, x0: nat, y0: nat, stride: nat, width: nat, height: nat)
    requires x0 <= x < x0 + width && y0 <= y < y0 + height
    ensures InRect(Index(x, y, stride), Index(x0, y0, stride), stride, width, height)
  {
    assert y * stride == y0 * stride + (y - y0) * stride;
    var p := Index(Index(x0, y0, stride), y - y0, stride);
    assert p <= Index(x, y, stride) < p + width;
  }

  // ---- The painter

  /** `for (x = 0; x < roi_width; x++)`: one row of blocks and, for AVC, of marks. */
  method PaintRow(a: array<Cfg>, cuMap: array<nat>, p: nat, width: nat, cfg: Cfg, coding: Coding)
    requires a as object != cuMap
    requires width > 0 ==> p + width <= a.Length && (coding.Avc? ==> p + width <= cuMap.Length)
    modifies a, cuMap
    ensures forall k | 0 <= k < a.Length :: a[k] == if p <= k < p + width then cfg else old(a[k])
    ensures forall k | 0 <= k < cuMap.Length :: cuMap[k] == if coding.Avc? && p <= k < p + width then 1 else old(cuMap[k])
  {
    for x := 0 to width
      invariant forall k | 0 <= k < a.Length :: a[k] == if p <= k < p + x then cfg else old(a[k])
      invariant forall k | 0 <= k < cuMap.Length :: cuMap[k] == if coding.Avc? && p <= k < p + x then 1 else old(cuMap[k])
    {
      a[p + x] := cfg;
      if coding == Avc {
        cuMap[p + x] := 1;
      }
    }
  }

  /** The painting loops of one region. */
  method PaintRect(a: array<Cfg>, cuMap: array<nat>, origin: nat, stride: nat, width: nat, height: nat, cfg: Cfg, coding: Coding)
    requires a as object != cuMap
    requires RectFits(a.Length, origin, stride, width, height)
    requires coding.Avc? ==> RectFits(cuMap.Length, origin, stride, width, height)
    modifies a, cuMap
    ensures forall k | 0 <= k < a.Length :: a[k] == if InRect(k, origin, stride, width, height) then cfg else old(a[k])
    ensures forall k | 0 <= k < cuMap.Length ::
              cuMap[k] == if coding.Avc? && InRect(k, origin, stride, width, height) then 1 else old(cuMap[k])
  {
    hide RectFits, InRect;
    var p := origin;
    RectEmpty(origin, stride, width);
    for y := 0 to height
      invariant p == Index(origin, y, stride)
      invariant forall k | 0 <= k < a.Length :: a[k] == if InRect(k, origin, stride, width, y) then cfg else old(a[k])
      invariant forall k | 0 <= k < cuMap.Length ::
                  cuMap[k] == if coding.Avc? && InRect(k, origin, stride, width, y) then 1 else old(cuMap[k])
    {
      RowFits(a.Length, origin, stride, width, height, y);
      if coding.Avc? {
        RowFits(cuMap.Length, origin, stride, width, height, y);
      }
      PaintRow(a, cuMap, p, width, cfg, coding);
      forall k: nat
        ensures InRect(k, origin, stride, width, y + 1) <==> InRect(k, origin, stride, width, y) || p <= k < p + width
      {
        RectGrows(k, origin, stride, width, y);
      }
      NextRow(y, stride);
      p := p + stride;
    }
  }

  lemma RectEmpty(p: nat, stride: nat, width: nat)
    ensures forall k: nat :: !InRect(k, p, stride, width, 0)
  {
  }

  /** The marking loops of one region, for HEVC. */
  method MarkRect(cuMap: array<nat>, origin: nat, stride: nat, width: nat, height: nat)
    requires RectFits(cuMap.Length, origin, stride, width, height)
    modifies cuMap
    ensures forall k | 0 <= k < cuMap.Length :: cuMap[k] == if InRect(k, origin, stride, width, height) then 1 else old(cuMap[k])
  {
    hide RectFits, InRect;
    var p := origin;
    RectEmpty(origin, stride, width);
    for y := 0 to height
      invariant p == Index(origin, y, stride)
      invariant forall k | 0 <= k < cuMap.Length :: cuMap[k] == if InRect(k, origin, stride, width, y) then 1 else old(cuMap[k])
    {
      RowFits(cuMap.Length, origin, stride, width, height, y);
      for x := 0 to width
        invariant forall k | 0 <= k < cuMap.Length ::
                    cuMap[k] == if InRect(k, origin, stride, width, y) || p <= k < p + x then 1 else old(cuMap[k])
      {
        cuMap[p + x] := 1;
      }
      forall k: nat
        ensures InRect(k, origin, stride, width, y + 1) <==> InRect(k, origin, stride, width, y) || p <= k < p + width
      {
        RectGrows(k, origin, stride, width, y);
      }
      NextRow(y, stride);
      p := p + stride;
    }
  }

  /** Step 2 for one region. */
  method PaintRegion(a: array<Cfg>, cuMap: array<nat>, stride: nat, r: Region, coding: Coding)
    requires a as object != cuMap && InBuffers(coding, r, stride, a.Length, cuMap.Length)
    modifies a, cuMap
    ensures forall k: nat | k < a.Length :: a[k] == if Hits(r, stride, k) then CfgOf(r) else old(a[k])
    ensures forall k: nat | k < cuMap.Length :: cuMap[k] == if Marks(coding, r, stride, k) then 1 else old(cuMap[k])
  {
    hide InRect, RectFits, CfgOf;
    var width, height := (r.w + 15) / 16, (r.h + 15) / 16;
    var posX, posY := (r.x + 15) / 16, (r.y + 15) / 16;
    PaintRect(a, cuMap, posY * stride + posX, stride, width, height, CfgOf(r), coding);
    if coding == Hevc {
      var strideCu64 := stride * 16 / 64;
      width, height := (r.w + 64) / 64, (r.h + 64) / 64;
      if r.x < 64 {
        posX := 0;
        width := width + 2;
      } else if r.x % 64 != 0 {
        posX := (r.x - 64) / 64;
        width := width + 2;
      } else {
        posX := r.x / 64;
      }
      if r.y < 64 {
        posY := 0;
        height := height + 2;
      } else if r.y % 64 != 0 {
        posY := (r.y - 64) / 64;
        height := height + 2;
      } else {
        posY := r.y / 64;
      }
      MarkRect(cuMap, posY * strideCu64 + posX, strideCu64, width, height);
    }
  }

  /** The loop "check region config". */
  method CheckRegions(regions: seq<Region>, w: nat, h: nat) returns (ok: bool)
    requires w > 0 && h > 0
    ensures ok <==> AllAccepted(regions, w, h)
  {
    ok := true;
    var i := 0;
    while i < |regions|
      invariant i <= |regions| && ok && forall k | 0 <= k < i :: Accepted(regions[k], w, h)
    {
      var r := regions[i];
      if r.x + r.w > w || r.y + r.h > h {
        ok := false;
      }
      if r.forceIntra > 1 || r.qpMode > 1 {
        ok := false;
      }
      if (r.qpMode != 0 && r.qpVal > 51) || (r.qpMode == 0 && (r.qpVal > 51 || r.qpVal < -51)) {
        ok := false;
      }
      if !ok {
        return;
      }
      i := i + 1;
    }
  }

  /** The buffer shows, at every cell of the padded grid, the configuration of the last of n
      regions that writes it. */
  ghost predicate Painted(a: array<Cfg>, stride: nat, rows: nat, regions: seq<Region>, n: nat)
    requires n <= |regions|
    reads a
  {
    a.Length == Area(stride, rows) && forall k: nat | k < a.Length :: a[k] == FlatConfig(regions, n, stride, k)
  }

  /** The map holds a one exactly at the cells that one of the n regions marks. */
  ghost predicate Marked(cuMap: array<nat>, coding: Coding, regions: seq<Region>, n: nat, stride: nat)
    requires n <= |regions|
    reads cuMap
  {
    forall k: nat | k < cuMap.Length :: cuMap[k] == if MarkedBy(coding, regions, n, stride, k) then 1 else 0
  }

  /** The clearing of the map and step 1: all blocks get the default. */
  method ResetMap(a: array<Cfg>, cuMap: array<nat>, stride: nat, rows: nat, ghost regions: seq<Region>, ghost coding: Coding)
    requires a as object != cuMap && a.Length == Area(stride, rows)
    modifies a, cuMap
    ensures Painted(a, stride, rows, regions, 0) && Marked(cuMap, coding, regions, 0, stride)
  {
    for i := 0 to cuMap.Length
      invariant forall k | 0 <= k < i :: cuMap[k] == 0
    {
      cuMap[i] := 0;
    }
    hide Area;
    AreaProduct(stride, rows);
    for i := 0 to stride * rows
      invariant forall k | 0 <= k < i :: a[k] == DEFAULT
      invariant forall k | 0 <= k < cuMap.Length :: cuMap[k] == 0
    {
      a[i] := DEFAULT;
    }
  }

  lemma AreaProduct(stride: nat, rows: nat)
    ensures Area(stride, rows) == stride * rows
  {
  }

  /** One region on top of n others. */
  method PaintNext(dst: array<Cfg>, cuMap: array<nat>, stride: nat, rows: nat, regions: seq<Region>, n: nat, coding: Coding)
    requires dst as object != cuMap && n < |regions| && InBuffers(coding, regions[n], stride, dst.Length, cuMap.Length)
    requires Painted(dst, stride, rows, regions, n) && Marked(cuMap, coding, regions, n, stride)
    modifies dst, cuMap
    ensures Painted(dst, stride, rows, regions, n + 1) && Marked(cuMap, coding, regions, n + 1, stride)
  {
    hide Hits, Marks, CfgOf, InBuffers, Area;
    PaintRegion(dst, cuMap, stride, regions[n], coding);
    forall k: nat
      ensures MarkedBy(coding, regions, n + 1, stride, k) <==>
                MarkedBy(coding, regions, n, stride, k) || Marks(coding, regions[n], stride, k)
    {
      MarkedStep(coding, regions, n, stride, k);
    }
  }

  lemma MarkedStep(coding: Coding, regions: seq<Region>, n: nat, stride: nat, k: nat)
    requires n < |regions|
    ensures MarkedBy(coding, regions, n + 1, stride, k) <==>
              MarkedBy(coding, regions, n, stride, k) || Marks(coding, regions[n], stride, k)
  {
    hide Marks;
    if MarkedBy(coding, regions, n + 1, stride, k) {
      var i :| 0 <= i < n + 1 && Marks(coding, regions[i], stride, k);
      assert i < n || i == n;
    }
  }

  /** `gen_vepu54x_roi`: every cell of the padded grid gets the configuration of the last region
      that writes it, and the map is marked; everything is left at the default and unmarked when a
      region is rejected. */
  method GenVepu54xRoi(regions: seq<Region>, w: nat, h: nat, coding: Coding, dst: array<Cfg>, cuMap: array<nat>)
    returns (ok: bool)
    requires dst as object != cuMap && dst.Length == Area(Stride(w), Stride(h))
    requires AllAccepted(regions, w, h) ==>
               forall i | 0 <= i < |regions| :: InBuffers(coding, regions[i], Stride(w), dst.Length, cuMap.Length)
    modifies dst, cuMap
    ensures ok <==> AllAccepted(regions, w, h)
    ensures Painted(dst, Stride(w), Stride(h), regions, if ok then |regions| else 0)
    ensures Marked(cuMap, coding, regions, if ok then |regions| else 0, Stride(w))
  {
    hide Accepted, Stride, Area, Painted, Marked, InBuffers;
    var strideH, strideV := Stride(w), Stride(h);
    ResetMap(dst, cuMap, strideH, strideV, regions, coding);
    if w <= 0 || h <= 0 {
      return false;
    }
    ok := CheckRegions(regions, w, h);
    if !ok {
      return;
    }
    for i := 0 to |regions|
      invariant Painted(dst, strideH, strideV, regions, i) && Marked(cuMap, coding, regions, i, strideH)
    {
      PaintNext(dst, cuMap, strideH, strideV, regions, i, coding);
    }
  }

  // ---- Raster to CTU order

  /** The column of the block that slot k of the reordered map shows: its CTU's column, and its
      place in the CTU. */
  function Col(k: nat, ctus: nat): nat
    requires ctus > 0
  {
    k / 16 % ctus * 4 + k % 16 % 4
  }

  function Row(k: nat, ctus: nat): nat
    requires ctus > 0
  {
    k / 16 / ctus * 4 + k % 16 / 4
  }

  /** The slot of CTU (i, j) and its block c. */
  function Slot(i: nat, j: nat, c: nat, ctus: nat): nat {
    Index(i, j, ctus) * 16 + c
  }

  /** `cu16_addr_in_frame`. */
  function RasterOf(k: nat, ctus: nat): nat
    requires ctus > 0
  {
    Index(Col(k, ctus), Row(k, ctus), ctus * 4)
  }

  lemma DivMod(q: nat, r: nat, d: nat)
    requires r < d
    ensures var n := Index(r, q, d); n / d == q && n % d == r
  {
    var n := Index(r, q, d);
    assert n == Index(n % d, n / d, d);
    GridIndex(r, q, n % d, n / d, d);
  }

  lemma DivBound(n: nat, d: nat, rows: nat)
    requires d > 0 && n < Area(d, rows)
    ensures 0 <= n / d < rows && 0 <= n % d < d && n == Index(n % d, n / d, d)
  {
    if n / d >= rows {
      Mono(rows, n / d, d);
    }
  }

  lemma CtuCount(k: nat, ctus: nat, ctuRows: nat)
    requires k < Area(ctus * 4, ctuRows * 4)
    ensures k / 16 < Area(ctus, ctuRows)
    ensures Area(ctus * 4, ctuRows * 4) == 16 * Area(ctus, ctuRows)
  {
  }

  /** Every slot shows a block of the grid, and is that block's slot. */
  lemma SlotParts(k: nat, ctus: nat, ctuRows: nat)
    requires ctus > 0 && k < Area(ctus * 4, ctuRows * 4)
    ensures Col(k, ctus) < ctus * 4 && Row(k, ctus) < ctuRows * 4
    ensures Slot(Col(k, ctus) / 4, Row(k, ctus) / 4, Row(k, ctus) % 4 * 4 + Col(k, ctus) % 4, ctus) == k
  {
    hide Area, Index;
    CtuCount(k, ctus, ctuRows);
    DivBound(k / 16, ctus, ctuRows);
    var (r, q) := (k / 16 % ctus, k / 16 / ctus);
    assert r < ctus && q < ctuRows;
    assert Col(k, ctus) / 4 == r && Col(k, ctus) % 4 == k % 16 % 4;
    assert Row(k, ctus) / 4 == q && Row(k, ctus) % 4 == k % 16 / 4;
  }

  /** Every block of the grid has a slot that shows it. */
  lemma SlotShows(i: nat, j: nat, c: nat, ctus: nat, ctuRows: nat)
    requires i < ctus && j < ctuRows && c < 16
    ensures var k := Slot(i, j, c, ctus);
            && k < Area(ctus * 4, ctuRows * 4)
            && Col(k, ctus) == i * 4 + c % 4 && Row(k, ctus) == j * 4 + c / 4
  {
    GridBound(i, j, ctus, ctuRows);
    CtuCount(0, ctus, ctuRows);
    DivMod(j, i, ctus);
    hide Area, Index;
    var k := Slot(i, j, c, ctus);
    assert k / 16 == Index(i, j, ctus) && k % 16 == c;
  }

  /** The reorder reads inside the grid and reads no block twice. */
  lemma RasterInjective(k: nat, k': nat, ctus: nat, ctuRows: nat)
    requires ctus > 0 && k < Area(ctus * 4, ctuRows * 4) && k' < Area(ctus * 4, ctuRows * 4)
    ensures RasterOf(k, ctus) < Area(ctus * 4, ctuRows * 4)
    ensures RasterOf(k, ctus) == RasterOf(k', ctus) ==> k == k'
  {
    SlotParts(k, ctus, ctuRows);
    SlotParts(k', ctus, ctuRows);
    GridBound(Col(k, ctus), Row(k, ctus), ctus * 4, ctuRows * 4);
    GridIndex(Col(k, ctus), Row(k, ctus), Col(k', ctus), Row(k', ctus), ctus * 4);
    hide Area, Index, Col, Row, Slot;
  }

  /** The reorder reads every block of the grid. */
  lemma RasterOnto(p: nat, ctus: nat, ctuRows: nat) returns (k: nat)
    requires ctus > 0 && p < Area(ctus * 4, ctuRows * 4)
    ensures k < Area(ctus * 4, ctuRows * 4) && RasterOf(k, ctus) == p
  {
    hide *;
    FourCtus(ctus);
    DivBound(p, ctus * 4, ctuRows * 4);
    var (x, y) := (p % (ctus * 4), p / (ctus * 4));
    Quarters(x, y, ctus, ctuRows);
    var (i, j, c) := (x / 4, y / 4, y % 4 * 4 + x % 4);
    k := Slot(i, j, c, ctus);
    SlotShows(i, j, c, ctus, ctuRows);
    RasterIs(k, ctus);
  }

  lemma FourCtus(ctus: nat)
    requires ctus > 0
    ensures ctus * 4 > 0
  {
  }

  lemma Quarters(x: nat, y: nat, ctus: nat, ctuRows: nat)
    requires x < ctus * 4 && y < ctuRows * 4
    ensures x / 4 < ctus && y / 4 < ctuRows
    ensures var c := y % 4 * 4 + x % 4; c < 16 && x / 4 * 4 + c % 4 == x && y / 4 * 4 + c / 4 == y
  {
  }

  lemma RasterIs(k: nat, ctus: nat)
    requires ctus > 0
    ensures RasterOf(k, ctus) == Index(Col(k, ctus), Row(k, ctus), ctus * 4)
  {
    hide Index, Col, Row;
  }

  /** The first `upto` slots of the reordered map are in place. */
  ghost predicate Reordered(dst: array<Cfg>, src: array<Cfg>, ctus: nat, upto: nat)
    requires ctus > 0
    reads dst, src
  {
    forall k: nat | k < upto :: k < dst.Length && RasterOf(k, ctus) < src.Length && dst[k] == src[RasterOf(k, ctus)]
  }

  /** `vepu54x_h265_set_roi`: slot 16 * ctu + c of the result is block c of that CTU. */
  method Vepu54xH265SetRoi(dst: array<Cfg>, src: array<Cfg>, w: nat, h: nat)
    requires dst != src && w > 0
    requires Fits(dst, Blocks(w, 64) * 4, Blocks(h, 64) * 4) && Fits(src, Blocks(w, 64) * 4, Blocks(h, 64) * 4)
    requires Blocks(w, 64) > 0
    modifies dst
    ensures Reordered(dst, src, Blocks(w, 64), Area(Blocks(w, 64) * 4, Blocks(h, 64) * 4))
  {
    hide Blocks, Area, RasterOf;
    var mbW, mbH := Blocks(w, 64), Blocks(h, 64);
    var ctuLine := mbW;
    for j := 0 to mbH
      invariant Reordered(dst, src, mbW, Slot(0, j, 0, mbW))
    {
      for i := 0 to mbW
        invariant Reordered(dst, src, mbW, Slot(i, j, 0, mbW))
      {
        var ctuAddr := j * ctuLine + i;
        var cu16NumLine := ctuLine * 4;
        for cu16cnt := 0 to 16
          invariant Reordered(dst, src, mbW, Slot(i, j, cu16cnt, mbW))
        {
          var cu16x, cu16y := cu16cnt % 4, cu16cnt / 4;
          cu16x := cu16x + i * 4;
          cu16y := cu16y + j * 4;
          var cu16AddrInFrame := cu16x + cu16y * cu16NumLine;
          ReorderStep(i, j, cu16cnt, mbW, mbH);
          dst[ctuAddr * 16 + cu16cnt] := src[cu16AddrInFrame];
        }
      }
      NextRow(j, mbW);
    }
    AllSlots(mbW, mbH);
  }

  lemma ReorderStep(i: nat, j: nat, c: nat, ctus: nat, ctuRows: nat)
    requires i < ctus && j < ctuRows && c < 16
    ensures var k := (j * ctus + i) * 16 + c;
            && k == Slot(i, j, c, ctus) < Area(ctus * 4, ctuRows * 4)
            && RasterOf(k, ctus) == c % 4 + i * 4 + (c / 4 + j * 4) * (ctus * 4) < Area(ctus * 4, ctuRows * 4)
  {
    SlotShows(i, j, c, ctus, ctuRows);
    RasterInjective(Slot(i, j, c, ctus), Slot(i, j, c, ctus), ctus, ctuRows);
    hide Area, Col, Row;
  }

  lemma AllSlots(ctus: nat, ctuRows: nat)
    ensures Slot(0, ctuRows, 0, ctus) == Area(ctus * 4, ctuRows * 4)
  {
  }

  /** Painting and reordering together, as `mpp_enc_roi_setup_meta` chains them for HEVC: slot
      16 * ctu + c holds what was painted at block c of the CTU. */
  method RoiMapH265(regions: seq<Region>, w: nat, h: nat, tmp: array<Cfg>, cuMap: array<nat>, dst: array<Cfg>) returns (ok: bool)
    requires tmp != dst && tmp as object != cuMap && w > 0 && h > 0
    requires tmp.Length == Area(Stride(w), Stride(h)) && Fits(dst, Stride(w), Stride(h))
    requires AllAccepted(regions, w, h) ==>
               forall i | 0 <= i < |regions| :: InBuffers(Hevc, regions[i], Stride(w), tmp.Length, cuMap.Length)
    modifies tmp, cuMap, dst
    ensures ok <==> AllAccepted(regions, w, h)
    ensures forall i: nat, j: nat, c: nat | i < Blocks(w, 64) && j < Blocks(h, 64) && c < 16 ::
              ShowsBlock(dst, Slot(i, j, c, Blocks(w, 64)), regions, if ok then |regions| else 0, Stride(w),
                         i * 4 + c % 4, j * 4 + c / 4)
  {
    hide Blocks, Stride, Area, Index, RasterOf, Slot, Col, Row, Painted, Marked, AllAccepted, InBuffers;
    StridesAgree(w);
    StridesAgree(h);
    SomeBlocks(w);
    var (ctus, ctuRows) := (Blocks(w, 64), Blocks(h, 64));
    ok := GenVepu54xRoi(regions, w, h, Hevc, tmp, cuMap);
    ghost var n := if ok then |regions| else 0;
    Vepu54xH265SetRoi(dst, tmp, w, h);
    forall i: nat, j: nat, c: nat | i < ctus && j < ctuRows && c < 16
      ensures ShowsBlock(dst, Slot(i, j, c, ctus), regions, n, ctus * 4, i * 4 + c % 4, j * 4 + c / 4)
    {
      ReorderedBlock(tmp, regions, n, i, j, c, ctus, ctuRows);
    }
  }

  /** Slot k shows the configuration painted last at the block. */
  ghost predicate ShowsBlock(dst: array<Cfg>, k: nat, regions: seq<Region>, n: nat, stride: nat, col: nat, row: nat)
    requires n <= |regions|
    reads dst
  {
    k < dst.Length && dst[k] == FlatConfig(regions, n, stride, Index(col, row, stride))
  }

  /** For regions inside the grid that is the last region over the block. */
  lemma ShowsLast(dst: array<Cfg>, k: nat, regions: seq<Region>, n: nat, w: nat, h: nat, col: nat, row: nat)
    requires n <= |regions| && col < Stride(w)
    requires forall i | 0 <= i < n :: Accepted(regions[i], w, h) && InGrid(regions[i], w, h)
    ensures ShowsBlock(dst, k, regions, n, Stride(w), col, row) <==>
              k < dst.Length && dst[k] == ConfigAt(regions, n, col, row)
  {
    hide Accepted, InGrid, FlatConfig, ConfigAt, Stride, Index;
    FlatIsGrid(regions, n, w, h, col, row);
  }

  lemma SomeBlocks(w: nat)
    requires w > 0
    ensures Blocks(w, 64) > 0
  {
    BlocksIs(w, 64);
  }

  lemma ReorderedBlock(tmp: array<Cfg>, regions: seq<Region>, n: nat, i: nat, j: nat, c: nat, ctus: nat, ctuRows: nat)
    requires i < ctus && j < ctuRows && c < 16 && n <= |regions|
    requires Painted(tmp, ctus * 4, ctuRows * 4, regions, n)
    ensures var k := Slot(i, j, c, ctus);
            && k < Area(ctus * 4, ctuRows * 4) && RasterOf(k, ctus) < tmp.Length
            && tmp[RasterOf(k, ctus)] == FlatConfig(regions, n, ctus * 4, Index(i * 4 + c % 4, j * 4 + c / 4, ctus * 4))
  {
    SlotShows(i, j, c, ctus, ctuRows);
    GridBound(i * 4 + c % 4, j * 4 + c / 4, ctus * 4, ctuRows * 4);
    hide Area, Index, Slot, Col, Row, FlatConfig;
  }
}
