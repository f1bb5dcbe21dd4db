/**
 `gen_vepu580_roi_h265` (utils/mpp_enc_roi_utils.c:355-632): per CTU one 512-bit record of flags
 for the 85 nodes of a quadtree (64 + 16 + 4 + 1, in z-order) and a table of quantizer entries.
 */
module RoiRecord {
  import opened RoiBits
  import opened RoiMap

  // ---- Z-order

  const RASTER_2_ZSCAN_16: seq<nat> := [
    0, 1, 4, 5,
    2, 3, 6, 7,
    8, 9, 12, 13,
    10, 11, 14, 15
  ]

  /** The table `raster2scan8`, one row of eight blocks at a time. */
  const RASTER_2_SCAN_8: seq<seq<nat>> := [
    [0, 1, 4, 5, 16, 17, 20, 21],
    [2, 3, 6, 7, 18, 19, 22, 23],
    [8, 9, 12, 13, 24, 25, 28, 29],
    [10, 11, 14, 15, 26, 27, 30, 31],
    [32, 33, 36, 37, 48, 49, 52, 53],
    [34, 35, 38, 39, 50, 51, 54, 55],
    [40, 41, 44, 45, 56, 57, 60, 61],
    [42, 43, 46, 47, 58, 59, 62, 63]
  ]

  /** `raster2scan8[i]`. */
  function Scan8(i: nat): nat
    requires i < 64
  {
    assert |RASTER_2_SCAN_8[i / 8]| == 8 by {
      TableRows(i / 8);
    }
    RASTER_2_SCAN_8[i / 8][i % 8]
  }

  lemma TableRows(r: nat)
    requires r < 8
    ensures |RASTER_2_SCAN_8| == 8 && |RASTER_2_SCAN_8[r]| == 8
  {
  }

  /** The z-order number of column x and row y in a square of 2^levels blocks a side: the bits of
      the two coordinates interleaved. */
  function ZOrder(x: nat, y: nat, levels: nat): nat {
    if levels == 0 then 0 else x % 2 + 2 * (y % 2) + 4 * ZOrder(x / 2, y / 2, levels - 1)
  }

  /** The z-order number of block c, in raster order, of the 4x4 blocks of a CTU. */
  function Z16(c: nat): nat {
    ZOrder(c % 4, c / 4, 2)
  }

  /** Interleaving written out: the coordinate bits of c are x0, x1, y0, y1. */
  lemma Z16Is(x0: nat, x1: nat, y0: nat, y1: nat)
    requires x0 < 2 && x1 < 2 && y0 < 2 && y1 < 2
    ensures Z16(x0 + 2 * x1 + 4 * y0 + 8 * y1) == x0 + 2 * y0 + 4 * x1 + 8 * y1
  {
    var (x, y) := (x0 + 2 * x1, y0 + 2 * y1);
    var c := x + 4 * y;
    assert c % 4 == x && c / 4 == y;
    assert x / 2 == x1 && y / 2 == y1 && x % 2 == x0 && y % 2 == y0;
    assert ZOrder(x1, y1, 1) == x1 + 2 * y1 + 4 * ZOrder(x1 / 2, y1 / 2, 0);
  }

  lemma CoordinateBits(c: nat) returns (x0: nat, x1: nat, y0: nat, y1: nat)
    requires c < 16
    ensures x0 < 2 && x1 < 2 && y0 < 2 && y1 < 2 && c == x0 + 2 * x1 + 4 * y0 + 8 * y1
  {
    x0, x1, y0, y1 := c % 2, c / 2 % 2, c / 4 % 2, c / 8;
  }

  /** The map between raster order and z-order is its own inverse. */
  lemma Z16Involution(c: nat)
    requires c < 16
    ensures Z16(c) < 16 && Z16(Z16(c)) == c
  {
    hide Z16;
    var x0, x1, y0, y1 := CoordinateBits(c);
    Z16Is(x0, x1, y0, y1);
    Z16Is(x0, y0, x1, y1);
  }

  /** The first table is the z-order of the 16x16 blocks. */
  lemma Zscan16IsZOrder(c: nat)
    requires c < 16
    ensures |RASTER_2_ZSCAN_16| == 16 && RASTER_2_ZSCAN_16[c] == Z16(c)
  {
    hide Z16;
    var x0, x1, y0, y1 := CoordinateBits(c);
    Z16Is(x0, x1, y0, y1);
  }

  /** One row of the second table. */
  lemma Scan8Row(r: nat)
    requires r < 8
    ensures var z := 2 * (r % 2) + 8 * (r / 2 % 2) + 32 * (r / 4);
            RASTER_2_SCAN_8[r] == [z, z + 1, z + 4, z + 5, z + 16, z + 17, z + 20, z + 21]
  {
    if r < 4 {
      if r == 0 {
      } else if r == 1 {
      } else if r == 2 {
      } else {
      }
    } else {
      if r == 4 {
      } else if r == 5 {
      } else if r == 6 {
      } else {
      }
    }
  }

  lemma Scan8At(r: nat, x: nat)
    requires r < 8 && x < 8
    ensures |RASTER_2_SCAN_8| == 8 && |RASTER_2_SCAN_8[r]| == 8 && Scan8(r * 8 + x) == RASTER_2_SCAN_8[r][x]
  {
    TableRows(r);
    hide *;
    assert (r * 8 + x) / 8 == r && (r * 8 + x) % 8 == x;
    Scan8Is(r * 8 + x);
  }

  lemma Scan8Is(i: nat)
    requires i < 64
    ensures |RASTER_2_SCAN_8| == 8 && |RASTER_2_SCAN_8[i / 8]| == 8 && Scan8(i) == RASTER_2_SCAN_8[i / 8][i % 8]
  {
    TableRows(i / 8);
  }

  /** An entry of the second table, from the coordinate bits of its block. */
  lemma Scan8Entry(x0: nat, x1: nat, x2: nat, y0: nat, y1: nat, y2: nat)
    requires x0 < 2 && x1 < 2 && x2 < 2 && y0 < 2 && y1 < 2 && y2 < 2
    ensures Scan8((y0 + 2 * y1 + 4 * y2) * 8 + (x0 + 2 * x1 + 4 * x2))
         == x0 + 2 * y0 + 4 * x1 + 8 * y1 + 16 * x2 + 32 * y2
  {
    hide *;
    var (r, x) := (y0 + 2 * y1 + 4 * y2, x0 + 2 * x1 + 4 * x2);
    RowBits(y0, y1, y2);
    ScanRowEntry(r, x);
    RowEntry(2 * y0 + 8 * y1 + 32 * y2, x0, x1, x2);
  }

  lemma ScanRowEntry(r: nat, x: nat)
    requires r < 8 && x < 8
    ensures var z := 2 * (r % 2) + 8 * (r / 2 % 2) + 32 * (r / 4);
            Scan8(r * 8 + x) == [z, z + 1, z + 4, z + 5, z + 16, z + 17, z + 20, z + 21][x]
  {
    hide *;
    Scan8Row(r);
    Scan8At(r, x);
  }

  lemma RowBits(y0: nat, y1: nat, y2: nat)
    requires y0 < 2 && y1 < 2 && y2 < 2
    ensures var r := y0 + 2 * y1 + 4 * y2; r % 2 == y0 && r / 2 % 2 == y1 && r / 4 == y2
  {
  }

  lemma RowEntry(z: nat, x0: nat, x1: nat, x2: nat)
    requires x0 < 2 && x1 < 2 && x2 < 2
    ensures [z, z + 1, z + 4, z + 5, z + 16, z + 17, z + 20, z + 21][x0 + 2 * x1 + 4 * x2] == z + x0 + 4 * x1 + 16 * x2
  {
  }

  /** The second table is the z-order of the 8x8 blocks: the four of block c are numbered in
      raster order from four times c's own number. */
  lemma Scan8IsZOrder(c: nat, k: nat)
    requires c < 16 && k < 4
    ensures Scan8((c / 4 * 2 + k / 2) * 8 + c % 4 * 2 + k % 2) == 4 * Z16(c) + k
  {
    hide Z16, Scan8;
    var x0, x1, y0, y1 := CoordinateBits(c);
    Z16Is(x0, x1, y0, y1);
    Scan8Entry(k % 2, x0, x1, k / 2, y0, y1);
    assert c / 4 == y0 + 2 * y1 && c % 4 == x0 + 2 * x1;
  }

  // ---- The fields of a record

  /** The flags of one node; the two-bit intra and inter fields only ever receive 0 or 1. */
  datatype Flags = Flags(qpAdj: bool, forceSplit: bool, forceIntra: bool, forceInter: bool)

  function FlagsOf(cfg: Cfg): Flags {
    Flags(cfg.qpAdj != 0, false, cfg.forceIntra != 0, false)
  }

  datatype Field = QpAdj | ForceSplit | ForceIntra | ForceInter

  /** Where the field of a node starts. */
  function Offset(f: Field, slot: nat): nat {
    match f
    case QpAdj => 425 + slot
    case ForceSplit => 340 + slot
    case ForceIntra => 170 + slot * 2
    case ForceInter => slot * 2
  }

  function Width(f: Field): nat {
    if f.ForceIntra? || f.ForceInter? then 2 else 1
  }

  /** No field straddles a word or leaves the record, and no two fields overlap. */
  lemma FieldsDisjoint(f: Field, slot: nat, g: Field, other: nat)
    requires slot < 85 && other < 85 && (f, slot) != (g, other)
    ensures Offset(f, slot) % 32 + Width(f) <= 32 && Offset(f, slot) + Width(f) <= RECORD_BITS
    ensures Offset(f, slot) + Width(f) <= Offset(g, other) || Offset(g, other) + Width(g) <= Offset(f, slot)
  {
  }

  predicate Value(v: Flags, f: Field) {
    match f
    case QpAdj => v.qpAdj
    case ForceSplit => v.forceSplit
    case ForceIntra => v.forceIntra
    case ForceInter => v.forceInter
  }

  function FieldOnes(slot: nat, v: Flags): set<nat> {
    Pos(Offset(QpAdj, slot), v.qpAdj) + Pos(Offset(ForceSplit, slot), v.forceSplit)
    + Pos(Offset(ForceIntra, slot), v.forceIntra) + Pos(Offset(ForceInter, slot), v.forceInter)
  }

  /** The bits that the same flags for nodes lo to hi set. */
  function RangeOnes(lo: nat, hi: nat, v: Flags): set<nat> {
    if hi <= lo then {} else RangeOnes(lo, hi - 1, v) + FieldOnes(hi - 1, v)
  }

  /** The node whose field starts at bit p, negative if there is none. */
  function NodeAt(f: Field, p: nat): int {
    match f
    case QpAdj => p - 425
    case ForceSplit => p - 340
    case ForceIntra => if p >= 170 && p % 2 == 0 then (p - 170) / 2 else -1
    case ForceInter => if p % 2 == 0 then p / 2 else -1
  }

  lemma FieldHas(p: nat, slot: nat, v: Flags)
    ensures p in FieldOnes(slot, v) <==>
              || (v.qpAdj && NodeAt(QpAdj, p) == slot) || (v.forceSplit && NodeAt(ForceSplit, p) == slot)
              || (v.forceIntra && NodeAt(ForceIntra, p) == slot) || (v.forceInter && NodeAt(ForceInter, p) == slot)
  {
  }

  lemma {:induction false} RangeHas(p: nat, lo: nat, hi: nat, v: Flags)
    ensures p in RangeOnes(lo, hi, v) <==>
              || (v.qpAdj && lo <= NodeAt(QpAdj, p) < hi)
              || (v.forceSplit && lo <= NodeAt(ForceSplit, p) < hi)
              || (v.forceIntra && lo <= NodeAt(ForceIntra, p) < hi)
              || (v.forceInter && lo <= NodeAt(ForceInter, p) < hi)
  {
    hide FieldOnes, NodeAt;
    if hi > lo {
      RangeHas(p, lo, hi - 1, v);
      FieldHas(p, hi - 1, v);
    }
  }

  /** The words outside the record. */
  ghost predicate OthersKept(was: seq<bv32>, buf: array<bv32>, base: nat)
    requires |was| == buf.Length
    reads buf
  {
    forall k | 0 <= k < buf.Length && !(base <= k < base + RECORD_WORDS) :: buf[k] == was[k]
  }

  /** `set_roi_cu8_base_cfg` and its siblings for the larger nodes, which add 64, 80 and 84 to
      the index. */
  method SetRoiBaseCfg(buf: array<bv32>, base: nat, slot: nat, v: Flags)
    requires base + RECORD_WORDS <= buf.Length && slot < 85
    modifies buf
    ensures Ones(buf, base) == old(Ones(buf, base)) + FieldOnes(slot, v)
    ensures OthersKept(old(buf[..]), buf, base)
  {
    hide Ones, Pos, Flag, Or, Shifted;
    FlagBound(v.qpAdj);
    FlagBound(v.forceSplit);
    FlagBound(v.forceIntra);
    FlagBound(v.forceInter);
    SetRoiPosVal(buf, base, Offset(QpAdj, slot), Flag(v.qpAdj));
    SetRoiPosVal(buf, base, Offset(ForceSplit, slot), Flag(v.forceSplit));
    SetRoiPosVal(buf, base, Offset(ForceIntra, slot), Flag(v.forceIntra));
    SetRoiPosVal(buf, base, Offset(ForceInter, slot), Flag(v.forceInter));
  }

  /** The loops that give nodes lo to hi the same flags. */
  method SetRoiRange(buf: array<bv32>, base: nat, lo: nat, hi: nat, v: Flags)
    requires base + RECORD_WORDS <= buf.Length && lo <= hi <= 85
    modifies buf
    ensures Ones(buf, base) == old(Ones(buf, base)) + RangeOnes(lo, hi, v)
    ensures OthersKept(old(buf[..]), buf, base)
  {
    hide Ones, FieldOnes;
    for i := lo to hi
      invariant Ones(buf, base) == old(Ones(buf, base)) + RangeOnes(lo, i, v)
      invariant OthersKept(old(buf[..]), buf, base)
    {
      SetRoiBaseCfg(buf, base, i, v);
    }
  }

  /** `set_roi_cu16_split_cu8`: the flags of block c for its four 8x8 blocks. */
  method SetRoiCu16SplitCu8(buf: array<bv32>, base: nat, cu16index: nat, v: Flags)
    requires base + RECORD_WORDS <= buf.Length && cu16index < 16
    modifies buf
    ensures var z := 4 * Z16(cu16index);
            Ones(buf, base) == old(Ones(buf, base)) + RangeOnes(z, z + 4, v)
    ensures OthersKept(old(buf[..]), buf, base)
  {
    hide Ones, FieldOnes, Z16, Scan8;
    var cu16x, cu16y := cu16index % 4, cu16index / 4;
    ghost var z := 4 * Z16(cu16index);
    Z16Involution(cu16index);
    for cu8cnt := 0 to 4
      invariant Ones(buf, base) == old(Ones(buf, base)) + RangeOnes(z, z + cu8cnt, v)
      invariant OthersKept(old(buf[..]), buf, base)
    {
      var cu8x, cu8y := cu8cnt % 2, cu8cnt / 2;
      var cu8rasterIndex := (cu16y * 2 + cu8y) * 8 + cu16x * 2 + cu8x;
      Scan8IsZOrder(cu16index, cu8cnt);
      var zindex := Scan8(cu8rasterIndex);
      SetRoiBaseCfg(buf, base, zindex, v);
    }
  }

  const SPLIT := Flags(false, true, false, false)

  /** `set_roi_force_split(.., 1)` for nodes lo to hi. */
  method SetForceSplit(buf: array<bv32>, base: nat, lo: nat, hi: nat)
    requires base + RECORD_WORDS <= buf.Length && lo <= hi <= 85
    modifies buf
    ensures Ones(buf, base) == old(Ones(buf, base)) + RangeOnes(lo, hi, SPLIT)
    ensures OthersKept(old(buf[..]), buf, base)
  {
    hide Ones, Or, Shifted;
    for i := lo to hi
      invariant Ones(buf, base) == old(Ones(buf, base)) + RangeOnes(lo, i, SPLIT)
      invariant OthersKept(old(buf[..]), buf, base)
    {
      SetRoiPosVal(buf, base, Offset(ForceSplit, i), 1);
    }
  }

  // ---- What a record says

  predicate Adjusted(cfg: Cfg) {
    cfg.forceIntra != 0 || cfg.qpAdj != 0
  }

  /** `adjust_cnt` after the first n blocks. */
  function AdjustCount(cfgs: seq<Cfg>, n: nat): (r: nat)
    requires n <= |cfgs|
    ensures r <= n
  {
    if n == 0 then 0 else AdjustCount(cfgs, n - 1) + if Adjusted(cfgs[n - 1]) then 1 else 0
  }

  lemma {:induction false} AdjustCountBounds(cfgs: seq<Cfg>, n: nat)
    requires n <= |cfgs|
    ensures AdjustCount(cfgs, n) == n <==> forall c | 0 <= c < n :: Adjusted(cfgs[c])
    ensures AdjustCount(cfgs, n) == 0 <==> forall c | 0 <= c < n :: !Adjusted(cfgs[c])
  {
    if n > 0 {
      AdjustCountBounds(cfgs, n - 1);
    }
  }

  /** The 16x16 block, in raster order, that one of the smaller nodes lies in. */
  function BlockOf(slot: nat): nat
    requires slot < 80
  {
    if slot < 64 then Z16(slot / 4) else Z16(slot - 64)
  }

  /** A flag of a node. When every block is adjusted, the larger nodes carry the flags of the
      last block, and so do the 8x8 blocks on top of their own. */
  predicate NodeFlag(cfgs: seq<Cfg>, f: Field, slot: nat)
    requires |cfgs| == 16 && slot < 85
  {
    var count := AdjustCount(cfgs, 16);
    if f == ForceSplit then slot >= 64 && 0 < count < 16
    else
      || (slot < 80 && BlockOf(slot) < 16 && Value(FlagsOf(cfgs[BlockOf(slot)]), f))
      || (count == 16 && !(64 <= slot < 80) && Value(FlagsOf(cfgs[15]), f))
  }

  /** The bits of a whole record. */
  predicate RecordBit(cfgs: seq<Cfg>, p: nat)
    requires |cfgs| == 16 && p < RECORD_BITS
  {
    if p < 340 then
      p >= 170 && p % 2 == 0 && NodeFlag(cfgs, ForceIntra, (p - 170) / 2)
    else if p < 425 then NodeFlag(cfgs, ForceSplit, p - 340)
    else
      p < 510 && NodeFlag(cfgs, QpAdj, p - 425)
  }

  /** Decoding: the bit at the start of every field is the node's flag. */
  lemma RecordDecodes(cfgs: seq<Cfg>, f: Field, slot: nat)
    requires |cfgs| == 16 && slot < 85
    ensures Offset(f, slot) < RECORD_BITS && RecordBit(cfgs, Offset(f, slot)) == NodeFlag(cfgs, f, slot)
  {
    hide AdjustCount, BlockOf;
    if f == ForceInter {
      assert !NodeFlag(cfgs, f, slot);
    }
  }

  /** Node 64 + z(c) carries the intra and adjust flags of source block c. */
  lemma BlockDecodes(cfgs: seq<Cfg>, c: nat)
    requires |cfgs| == 16 && c < 16
    ensures var slot := 64 + Z16(c);
            && slot < 80
            && (RecordBit(cfgs, Offset(ForceIntra, slot)) <==> cfgs[c].forceIntra != 0)
            && (RecordBit(cfgs, Offset(QpAdj, slot)) <==> cfgs[c].qpAdj != 0)
  {
    hide AdjustCount, Z16, RecordBit, Offset;
    Z16Involution(c);
    RecordDecodes(cfgs, ForceIntra, 64 + Z16(c));
    RecordDecodes(cfgs, QpAdj, 64 + Z16(c));
  }

  /** The split bits of nodes 64 to 84 are set exactly when some but not all blocks are adjusted;
      those of the 8x8 blocks never are. */
  lemma SplitDecodes(cfgs: seq<Cfg>, slot: nat)
    requires |cfgs| == 16 && slot < 85
    ensures RecordBit(cfgs, Offset(ForceSplit, slot)) <==>
              && slot >= 64
              && (exists c :: 0 <= c < 16 && Adjusted(cfgs[c])) && (exists c :: 0 <= c < 16 && !Adjusted(cfgs[c]))
  {
    hide Adjusted, RecordBit, Offset;
    RecordDecodes(cfgs, ForceSplit, slot);
    AdjustCountBounds(cfgs, 16);
    hide AdjustCount;
  }

  predicate AllAdjusted(cfgs: seq<Cfg>)
    requires |cfgs| == 16
  {
    forall c | 0 <= c < 16 :: Adjusted(cfgs[c])
  }

  /** An 8x8 node carries the flag of the block it lies in, unless every block is adjusted and the
      last one has the flag: then all 8x8 nodes have it, also where their own block does not. */
  lemma SmallNodeDecodes(cfgs: seq<Cfg>, f: Field, slot: nat)
    requires |cfgs| == 16 && slot < 64 && (f == QpAdj || f == ForceIntra)
    ensures BlockOf(slot) < 16 && Offset(f, slot) < RECORD_BITS
    ensures var own := Value(FlagsOf(cfgs[BlockOf(slot)]), f);
            (RecordBit(cfgs, Offset(f, slot)) <==> own)
            <==> !(AllAdjusted(cfgs) && Value(FlagsOf(cfgs[15]), f) && !own)
  {
    hide RecordBit, Offset, Value, FlagsOf;
    Z16Involution(slot / 4);
    RecordDecodes(cfgs, f, slot);
    AdjustCountBounds(cfgs, 16);
    hide AdjustCount, Z16, Adjusted;
  }

  /** The 32x32 nodes and the 64x64 node carry the flags of the last block when every block is
      adjusted, and none otherwise. */
  lemma LargeNodeDecodes(cfgs: seq<Cfg>, f: Field, slot: nat)
    requires |cfgs| == 16 && 80 <= slot < 85 && (f == QpAdj || f == ForceIntra)
    ensures Offset(f, slot) < RECORD_BITS
    ensures RecordBit(cfgs, Offset(f, slot)) <==> AllAdjusted(cfgs) && Value(FlagsOf(cfgs[15]), f)
  {
    hide RecordBit, Offset, Value, FlagsOf;
    RecordDecodes(cfgs, f, slot);
    AdjustCountBounds(cfgs, 16);
    hide AdjustCount, BlockOf, Adjusted;
  }

  /** Fifteen blocks with a quantizer only and a last one with intra only: the 8x8 nodes of the
      first block ask for intra although the block does not. */
  lemma StrayIntra()
    ensures var cfgs := seq(16, c => if c == 15 then Cfg(1, 0, 1, 0, 0) else Cfg(0, 0, 1, 5, 0));
            && cfgs[0].forceIntra == 0 && BlockOf(0) == 0
            && RecordBit(cfgs, Offset(ForceIntra, 0))
  {
    var cfgs := seq(16, c => if c == 15 then Cfg(1, 0, 1, 0, 0) else Cfg(0, 0, 1, 5, 0));
    Z16Is(0, 0, 0, 0);
    hide Z16;
    assert AllAdjusted(cfgs) && Value(FlagsOf(cfgs[15]), ForceIntra) && !Value(FlagsOf(cfgs[0]), ForceIntra);
    SmallNodeDecodes(cfgs, ForceIntra, 0);
    hide RecordBit, Offset;
  }

  // ---- From the writes to the record

  lemma BlockOfIs(slot: nat, c: nat)
    requires slot < 80 && c < 16
    ensures BlockOf(slot) < 16
    ensures BlockOf(slot) == c <==> 4 * Z16(c) <= slot < 4 * Z16(c) + 4 || slot == 64 + Z16(c)
  {
    hide Z16;
    var z := if slot < 64 then slot / 4 else slot - 64;
    Z16Involution(c);
    Z16Involution(z);
  }

  /** The bits written while the first n blocks are visited. */
  function BlockOnes(cfgs: seq<Cfg>, n: nat): set<nat>
    requires n <= |cfgs|
  {
    if n == 0 then {}
    else
      var (z, v) := (Z16(n - 1), FlagsOf(cfgs[n - 1]));
      BlockOnes(cfgs, n - 1) + RangeOnes(4 * z, 4 * z + 4, v) + FieldOnes(64 + z, v)
  }

  predicate FromBlocks(cfgs: seq<Cfg>, n: nat, f: Field, slot: int)
    requires n <= |cfgs|
  {
    0 <= slot < 80 && BlockOf(slot) < n && Value(FlagsOf(cfgs[BlockOf(slot)]), f)
  }

  predicate BlockBit(cfgs: seq<Cfg>, n: nat, p: nat)
    requires n <= |cfgs|
  {
    || FromBlocks(cfgs, n, QpAdj, NodeAt(QpAdj, p))
    || FromBlocks(cfgs, n, ForceIntra, NodeAt(ForceIntra, p))
  }

  lemma FromBlocksStep(cfgs: seq<Cfg>, n: nat, f: Field, slot: int)
    requires n < |cfgs| == 16
    ensures var z := Z16(n);
            FromBlocks(cfgs, n + 1, f, slot) <==>
              FromBlocks(cfgs, n, f, slot)
              || (Value(FlagsOf(cfgs[n]), f) && (4 * z <= slot < 4 * z + 4 || slot == 64 + z))
  {
    hide BlockOf, Z16, Value;
    Z16Involution(n);
    if 0 <= slot < 80 {
      BlockOfIs(slot, n);
    }
  }

  lemma BlockBitStep(cfgs: seq<Cfg>, n: nat, p: nat)
    requires n < |cfgs| == 16
    ensures var (z, v) := (Z16(n), FlagsOf(cfgs[n]));
            BlockBit(cfgs, n + 1, p) <==>
              BlockBit(cfgs, n, p) || p in RangeOnes(4 * z, 4 * z + 4, v) || p in FieldOnes(64 + z, v)
  {
    hide FromBlocks, RangeOnes, FieldOnes, Z16, NodeAt;
    var (z, v) := (Z16(n), FlagsOf(cfgs[n]));
    RangeHas(p, 4 * z, 4 * z + 4, v);
    FieldHas(p, 64 + z, v);
    FromBlocksStep(cfgs, n, QpAdj, NodeAt(QpAdj, p));
    FromBlocksStep(cfgs, n, ForceIntra, NodeAt(ForceIntra, p));
  }

  lemma {:induction false} BlockOnesHas(cfgs: seq<Cfg>, n: nat, p: nat)
    requires n <= |cfgs| == 16
    ensures p in BlockOnes(cfgs, n) <==> BlockBit(cfgs, n, p)
  {
    hide Z16, RangeOnes, FieldOnes, BlockBit;
    if n == 0 {
      NoBlocks(cfgs, p);
    } else {
      BlockOnesHas(cfgs, n - 1, p);
      BlockBitStep(cfgs, n - 1, p);
    }
  }

  lemma NoBlocks(cfgs: seq<Cfg>, p: nat)
    ensures !BlockBit(cfgs, 0, p)
  {
  }

  /** The bits written after the last block. */
  function LastOnes(cfgs: seq<Cfg>): set<nat>
    requires |cfgs| == 16
  {
    var (count, v) := (AdjustCount(cfgs, 16), FlagsOf(cfgs[15]));
    if count == 16 then FieldOnes(84, v) + RangeOnes(80, 84, v) + RangeOnes(0, 64, v)
    else if count > 0 then RangeOnes(64, 85, SPLIT)
    else {}
  }

  /** What a node gets after the last block. */
  predicate FromLast(cfgs: seq<Cfg>, f: Field, slot: int)
    requires |cfgs| == 16
  {
    AdjustCount(cfgs, 16) == 16 && Outer(slot) && Value(FlagsOf(cfgs[15]), f)
  }

  predicate LastBit(cfgs: seq<Cfg>, p: nat)
    requires |cfgs| == 16
  {
    || FromLast(cfgs, QpAdj, NodeAt(QpAdj, p))
    || FromLast(cfgs, ForceIntra, NodeAt(ForceIntra, p))
    || (64 <= NodeAt(ForceSplit, p) < 85 && 0 < AdjustCount(cfgs, 16) < 16)
  }

  predicate Outer(slot: int) {
    0 <= slot < 85 && !(64 <= slot < 80)
  }

  lemma OuterOnes(p: nat, v: Flags)
    requires !v.forceSplit && !v.forceInter
    ensures p in FieldOnes(84, v) + RangeOnes(80, 84, v) + RangeOnes(0, 64, v) <==>
              (v.qpAdj && Outer(NodeAt(QpAdj, p))) || (v.forceIntra && Outer(NodeAt(ForceIntra, p)))
  {
    hide RangeOnes, FieldOnes, NodeAt;
    FieldHas(p, 84, v);
    RangeHas(p, 80, 84, v);
    RangeHas(p, 0, 64, v);
  }

  lemma SplitOnes(p: nat)
    ensures p in RangeOnes(64, 85, SPLIT) <==> 64 <= NodeAt(ForceSplit, p) < 85
  {
    hide RangeOnes, NodeAt;
    RangeHas(p, 64, 85, SPLIT);
  }

  lemma LastOnesHas(cfgs: seq<Cfg>, p: nat)
    requires |cfgs| == 16
    ensures p in LastOnes(cfgs) <==> LastBit(cfgs, p)
  {
    hide RangeOnes, FieldOnes, AdjustCount, NodeAt;
    OuterOnes(p, FlagsOf(cfgs[15]));
    SplitOnes(p);
  }

  lemma RecordBitIs(cfgs: seq<Cfg>, p: nat)
    requires |cfgs| == 16
    ensures BlockBit(cfgs, 16, p) || LastBit(cfgs, p) <==> p < RECORD_BITS && RecordBit(cfgs, p)
  {
    hide AdjustCount, BlockOf, Value;
    var (adj, intra) := (NodeAt(QpAdj, p), NodeAt(ForceIntra, p));
    if 0 <= adj < 85 {
      NodeFlagIs(cfgs, QpAdj, adj);
    } else {
      OutOfRange(cfgs, QpAdj, adj);
    }
    if 0 <= intra < 85 {
      NodeFlagIs(cfgs, ForceIntra, intra);
    } else {
      OutOfRange(cfgs, ForceIntra, intra);
    }
    hide NodeFlag;
    SplitFlagIs(cfgs);
    hide FromBlocks, FromLast;
  }

  lemma NodeFlagIs(cfgs: seq<Cfg>, f: Field, slot: nat)
    requires |cfgs| == 16 && slot < 85 && f != ForceSplit
    ensures NodeFlag(cfgs, f, slot) <==> FromBlocks(cfgs, 16, f, slot) || FromLast(cfgs, f, slot)
  {
    hide AdjustCount, BlockOf, Value;
  }

  lemma SplitFlagIs(cfgs: seq<Cfg>)
    requires |cfgs| == 16
    ensures forall slot: nat | slot < 85 ::
              NodeFlag(cfgs, ForceSplit, slot) <==> slot >= 64 && 0 < AdjustCount(cfgs, 16) < 16
  {
    hide AdjustCount;
  }

  lemma OutOfRange(cfgs: seq<Cfg>, f: Field, slot: int)
    requires |cfgs| == 16 && !(0 <= slot < 85)
    ensures !FromBlocks(cfgs, 16, f, slot) && !FromLast(cfgs, f, slot)
  {
    hide AdjustCount, BlockOf, Value;
  }

  /** Together the writes make exactly the record. */
  lemma RecordIs(cfgs: seq<Cfg>, p: nat)
    requires |cfgs| == 16
    ensures p in BlockOnes(cfgs, 16) + LastOnes(cfgs) <==> p < RECORD_BITS && RecordBit(cfgs, p)
  {
    BlockOnesHas(cfgs, 16, p);
    LastOnesHas(cfgs, p);
    RecordBitIs(cfgs, p);
    hide RecordBit, BlockBit, LastBit, BlockOnes, LastOnes;
  }

  // ---- The quantizer table

  datatype QpCfg = QpCfg(qpAreaIdx: int, qpAdj: int, qpAdjMode: int)

  const NO_QP := QpCfg(0, 0, 0)

  /** Entries a record's table is apart: CU_QP_CFG_BYTE over the two bytes of an entry. */
  const QP_ENTRIES: nat := 96

  function QpOf(cfg: Cfg): QpCfg {
    QpCfg(cfg.qpAreaIdx, cfg.qpAdj, cfg.qpAdjMode)
  }

  /** The block whose quantizer entry k is, if any. */
  function BlockOfEntry(k: nat): nat {
    if 64 <= k < 80 then Z16(k - 64) else 16
  }

  /** The quantizer entry of a node: 16x16 blocks have their own; all other nodes have the last
      block's when every block is adjusted, and none otherwise. */
  function NodeQp(cfgs: seq<Cfg>, k: nat): QpCfg
    requires |cfgs| == 16
  {
    if BlockOfEntry(k) < 16 then QpOf(cfgs[BlockOfEntry(k)])
    else if k < 85 && AdjustCount(cfgs, 16) == 16 then QpOf(cfgs[15])
    else NO_QP
  }

  /** Node 64 + z(c) carries the quantizer of source block c. */
  lemma QpDecodes(cfgs: seq<Cfg>, c: nat)
    requires |cfgs| == 16 && c < 16
    ensures NodeQp(cfgs, 64 + Z16(c)) == QpCfg(cfgs[c].qpAreaIdx, cfgs[c].qpAdj, cfgs[c].qpAdjMode)
  {
    hide Z16;
    Z16Involution(c);
  }

  /** No other node has a quantizer of its own: it is the last block's when every block is
      adjusted, and none otherwise. */
  lemma OtherQpDecodes(cfgs: seq<Cfg>, k: nat)
    requires |cfgs| == 16 && (k < 64 || 80 <= k < 85)
    ensures NodeQp(cfgs, k) == if AllAdjusted(cfgs) then QpCfg(cfgs[15].qpAreaIdx, cfgs[15].qpAdj, cfgs[15].qpAdjMode) else NO_QP
  {
    hide Adjusted;
    AdjustCountBounds(cfgs, 16);
    hide AdjustCount;
  }

  function Entry(q: seq<QpCfg>, at: nat, k: nat): QpCfg
    requires at + QP_ENTRIES <= |q| && k < QP_ENTRIES
  {
    q[at + k]
  }

  /** The table after the first n blocks. */
  ghost predicate QpBlocks(qp: array<QpCfg>, at: nat, cfgs: seq<Cfg>, n: nat)
    requires at + QP_ENTRIES <= qp.Length && n <= |cfgs| == 16
    reads qp
  {
    forall k: nat | k < QP_ENTRIES ::
      Entry(qp[..], at, k) == if BlockOfEntry(k) < n then QpOf(cfgs[BlockOfEntry(k)]) else NO_QP
  }

  ghost predicate QpRecord(q: seq<QpCfg>, at: nat, cfgs: seq<Cfg>)
    requires at + QP_ENTRIES <= |q| && |cfgs| == 16
  {
    forall k: nat | k < QP_ENTRIES :: Entry(q, at, k) == NodeQp(cfgs, k)
  }

  ghost predicate OtherQpKept(was: seq<QpCfg>, qp: array<QpCfg>, at: nat)
    requires |was| == qp.Length
    reads qp
  {
    forall k | 0 <= k < qp.Length && !(at <= k < at + QP_ENTRIES) :: qp[k] == was[k]
  }

  lemma EntryOfBlock(k: nat, n: nat)
    requires n < 16
    ensures BlockOfEntry(k) == n <==> k == 64 + Z16(n)
  {
    hide Z16;
    Z16Involution(n);
    if 64 <= k < 80 {
      Z16Involution(k - 64);
    }
  }

  /** `set_roi_qp_cfg`: one entry of the table. */
  method SetRoiQpCfg(qp: array<QpCfg>, at: nat, index: nat, cfg: Cfg)
    requires at + QP_ENTRIES <= qp.Length && index < QP_ENTRIES
    modifies qp
    ensures forall k: nat | k < QP_ENTRIES ::
              Entry(qp[..], at, k) == if k == index then QpOf(cfg) else old(Entry(qp[..], at, k))
    ensures OtherQpKept(old(qp[..]), qp, at)
  {
    qp[at + index] := QpOf(cfg);
    forall k: nat | k < QP_ENTRIES && k != index
      ensures Entry(qp[..], at, k) == old(Entry(qp[..], at, k))
    {
    }
  }

  /** `set_roi_cu16_qp_cfg` for block n. */
  method SetBlockQp(qp: array<QpCfg>, at: nat, ghost cfgs: seq<Cfg>, n: nat, zindex: nat, cfg: Cfg)
    requires at + QP_ENTRIES <= qp.Length && n < |cfgs| == 16 && zindex == Z16(n) && cfg == cfgs[n]
    requires QpBlocks(qp, at, cfgs, n)
    modifies qp
    ensures QpBlocks(qp, at, cfgs, n + 1) && OtherQpKept(old(qp[..]), qp, at)
  {
    Z16Involution(n);
    hide Z16, BlockOfEntry, QpOf, Entry;
    SetRoiQpCfg(qp, at, 64 + zindex, cfg);
    forall k: nat | k < QP_ENTRIES
      ensures Entry(qp[..], at, k) == if BlockOfEntry(k) < n + 1 then QpOf(cfgs[BlockOfEntry(k)]) else NO_QP
    {
      EntryOfBlock(k, n);
    }
  }

  /** The table entries of nodes lo to hi, all the same. */
  method SetQpRange(qp: array<QpCfg>, at: nat, lo: nat, hi: nat, cfg: Cfg)
    requires at + QP_ENTRIES <= qp.Length && lo <= hi <= 85
    modifies qp
    ensures forall k: nat | k < QP_ENTRIES ::
              Entry(qp[..], at, k) == if lo <= k < hi then QpOf(cfg) else old(Entry(qp[..], at, k))
    ensures OtherQpKept(old(qp[..]), qp, at)
  {
    hide Entry, QpOf;
    for i := lo to hi
      invariant forall k: nat | k < QP_ENTRIES ::
                  Entry(qp[..], at, k) == if lo <= k < i then QpOf(cfg) else old(Entry(qp[..], at, k))
      invariant OtherQpKept(old(qp[..]), qp, at)
    {
      SetRoiQpCfg(qp, at, i, cfg);
    }
  }

  // ---- One CTU

  /** The 16 blocks of CTU (i, j) in the raster map. */
  ghost predicate Sources(src: array<Cfg>, ctus: nat, ctuRows: nat, i: nat, j: nat, cfgs: seq<Cfg>)
    requires Fits(src, ctus * 4, ctuRows * 4) && i < ctus && j < ctuRows
    reads src
  {
    |cfgs| == 16 && forall c: nat | c < 16 :: At(src, ctus * 4, ctuRows * 4, i * 4 + c % 4, j * 4 + c / 4) == cfgs[c]
  }

  /** What is written for one of the 16 blocks. */
  method VisitBlock(buf: array<bv32>, base: nat, qp: array<QpCfg>, at: nat, ghost cfgs: seq<Cfg>, cu16cnt: nat, cfg: Cfg)
    requires base + RECORD_WORDS <= buf.Length && at + QP_ENTRIES <= qp.Length && buf as object != qp
    requires cu16cnt < |cfgs| == 16 && cfg == cfgs[cu16cnt]
    requires Ones(buf, base) == BlockOnes(cfgs, cu16cnt) && QpBlocks(qp, at, cfgs, cu16cnt)
    modifies buf, qp
    ensures Ones(buf, base) == BlockOnes(cfgs, cu16cnt + 1) && QpBlocks(qp, at, cfgs, cu16cnt + 1)
    ensures OthersKept(old(buf[..]), buf, base) && OtherQpKept(old(qp[..]), qp, at)
  {
    hide Ones, QpBlocks, RangeOnes, FieldOnes, Z16;
    Zscan16IsZOrder(cu16cnt);
    Z16Involution(cu16cnt);
    var zindex := RASTER_2_ZSCAN_16[cu16cnt];
    var val := FlagsOf(cfg);
    SetRoiCu16SplitCu8(buf, base, cu16cnt, val);
    SetRoiBaseCfg(buf, base, 64 + zindex, val);
    SetBlockQp(qp, at, cfgs, cu16cnt, zindex, cfg);
  }

  /** The writes after the last block when every block is adjusted. */
  method AdjustAll(buf: array<bv32>, base: nat, qp: array<QpCfg>, at: nat, cfg: Cfg)
    requires base + RECORD_WORDS <= buf.Length && at + QP_ENTRIES <= qp.Length && buf as object != qp
    modifies buf, qp
    ensures var v := FlagsOf(cfg);
            Ones(buf, base) == old(Ones(buf, base)) + (FieldOnes(84, v) + RangeOnes(80, 84, v) + RangeOnes(0, 64, v))
    ensures forall k: nat | k < QP_ENTRIES ::
              Entry(qp[..], at, k) == if k < 64 || 80 <= k < 85 then QpOf(cfg) else old(Entry(qp[..], at, k))
    ensures OthersKept(old(buf[..]), buf, base) && OtherQpKept(old(qp[..]), qp, at)
  {
    hide Ones, RangeOnes, FieldOnes, Entry;
    var val := FlagsOf(cfg);
    SetRoiBaseCfg(buf, base, 84, val);
    SetQpRange(qp, at, 84, 85, cfg);
    SetRoiRange(buf, base, 80, 84, val);
    SetQpRange(qp, at, 80, 84, cfg);
    SetRoiRange(buf, base, 0, 64, val);
    SetQpRange(qp, at, 0, 64, cfg);
  }

  lemma QpFinished(qp: array<QpCfg>, at: nat, cfgs: seq<Cfg>)
    requires at + QP_ENTRIES <= qp.Length && |cfgs| == 16
    requires forall k: nat | k < QP_ENTRIES ::
               Entry(qp[..], at, k) == if BlockOfEntry(k) < 16 then QpOf(cfgs[BlockOfEntry(k)])
                                   else if (k < 64 || 80 <= k < 85) && AdjustCount(cfgs, 16) == 16 then QpOf(cfgs[15])
                                   else NO_QP
    ensures QpRecord(qp[..], at, cfgs)
  {
    hide Entry, AdjustCount, Z16;
    forall k: nat | 64 <= k < 80
      ensures BlockOfEntry(k) < 16
    {
      Z16Involution(k - 64);
    }
  }

  /** The record's bits are those of the 16 blocks. */
  ghost predicate BitsRecord(words: seq<bv32>, base: nat, cfgs: seq<Cfg>)
    requires base + RECORD_WORDS <= |words| && |cfgs| == 16
  {
    forall p: nat | p < RECORD_BITS :: p in OnesIn(words, base) <==> RecordBit(cfgs, p)
  }

  lemma BitsFinished(buf: array<bv32>, base: nat, cfgs: seq<Cfg>)
    requires base + RECORD_WORDS <= buf.Length && |cfgs| == 16
    requires Ones(buf, base) == BlockOnes(cfgs, 16) + LastOnes(cfgs)
    ensures BitsRecord(buf[..], base, cfgs)
  {
    hide OnesIn, BlockOnes, LastOnes, RecordBit;
    forall p: nat | p < RECORD_BITS
      ensures p in OnesIn(buf[..], base) <==> RecordBit(cfgs, p)
    {
      RecordIs(cfgs, p);
    }
  }

  lemma LastOnesIs(cfgs: seq<Cfg>)
    requires |cfgs| == 16
    ensures var (count, v) := (AdjustCount(cfgs, 16), FlagsOf(cfgs[15]));
            LastOnes(cfgs) == if count == 16 then FieldOnes(84, v) + RangeOnes(80, 84, v) + RangeOnes(0, 64, v)
                              else if count > 0 then RangeOnes(64, 85, SPLIT)
                              else {}
  {
  }

  /** The branch on `adjust_cnt` after the last block. */
  method FinishCtu(buf: array<bv32>, base: nat, qp: array<QpCfg>, at: nat, ghost cfgs: seq<Cfg>, cfg: Cfg, adjustCnt: nat)
    requires base + RECORD_WORDS <= buf.Length && at + QP_ENTRIES <= qp.Length && buf as object != qp
    requires |cfgs| == 16 && cfg == cfgs[15] && adjustCnt == AdjustCount(cfgs, 16)
    requires Ones(buf, base) == BlockOnes(cfgs, 16) && QpBlocks(qp, at, cfgs, 16)
    modifies buf, qp
    ensures BitsRecord(buf[..], base, cfgs) && QpRecord(qp[..], at, cfgs)
    ensures OthersKept(old(buf[..]), buf, base) && OtherQpKept(old(qp[..]), qp, at)
  {
    hide Ones, RangeOnes, FieldOnes, Entry, BlockOnes, LastOnes, AdjustCount, BitsRecord, QpRecord, BlockOfEntry, RecordBit, QpOf, FlagsOf;
    LastOnesIs(cfgs);
    if adjustCnt == 16 {
      AdjustAll(buf, base, qp, at, cfg);
      AllEntries();
    } else if adjustCnt > 0 {
      SetForceSplit(buf, base, 64, 85);
    } else {
      assert BlockOnes(cfgs, 16) + {} == BlockOnes(cfgs, 16);
    }
    BitsFinished(buf, base, cfgs);
    QpFinished(qp, at, cfgs);
  }

  lemma AllEntries()
    ensures forall k: nat | k < 64 || 80 <= k :: BlockOfEntry(k) == 16
    ensures forall k: nat | 64 <= k < 80 :: BlockOfEntry(k) < 16
  {
    hide Z16;
    forall k: nat | 64 <= k < 80
      ensures BlockOfEntry(k) < 16
    {
      Z16Involution(k - 64);
    }
  }

  /** One marked CTU: its record and its quantizer table, from cleared memory. */
  method GenCtu(src: array<Cfg>, buf: array<bv32>, base: nat, qp: array<QpCfg>, at: nat,
                i: nat, j: nat, ctuLine: nat, ghost ctuRows: nat, ghost cfgs: seq<Cfg>)
    requires Fits(src, ctuLine * 4, ctuRows * 4) && i < ctuLine && j < ctuRows
    requires Sources(src, ctuLine, ctuRows, i, j, cfgs)
    requires base + RECORD_WORDS <= buf.Length && at + QP_ENTRIES <= qp.Length
    requires buf as object != qp && buf as object != src && qp as object != src
    requires Ones(buf, base) == {} && QpBlocks(qp, at, cfgs, 0)
    modifies buf, qp
    ensures BitsRecord(buf[..], base, cfgs) && QpRecord(qp[..], at, cfgs)
    ensures OthersKept(old(buf[..]), buf, base) && OtherQpKept(old(qp[..]), qp, at)
  {
    hide Ones, QpBlocks, BlockOnes, BitsRecord, QpRecord, Area, Index, AdjustCount, Adjusted, Sources;
    SourcesCount(src, ctuLine, ctuRows, i, j, cfgs);
    var cu16NumLine := ctuLine * 4;
    var adjustCnt := 0;
    NoBlockOnes(cfgs);
    NoneAdjusted(cfgs);
    for cu16cnt := 0 to 16
      invariant adjustCnt == AdjustCount(cfgs, cu16cnt)
      invariant cu16cnt < 16 ==> Ones(buf, base) == BlockOnes(cfgs, cu16cnt) && QpBlocks(qp, at, cfgs, cu16cnt)
      invariant cu16cnt == 16 ==> BitsRecord(buf[..], base, cfgs) && QpRecord(qp[..], at, cfgs)
      invariant OthersKept(old(buf[..]), buf, base) && OtherQpKept(old(qp[..]), qp, at)
    {
      var cu16x, cu16y := cu16cnt % 4, cu16cnt / 4;
      cu16x := cu16x + i * 4;
      cu16y := cu16y + j * 4;
      var cu16AddrInFrame := cu16x + cu16y * cu16NumLine;
      SourceAt(src, ctuLine, ctuRows, i, j, cfgs, cu16cnt);
      var cfg := src[cu16AddrInFrame];
      AdjustNext(cfgs, cu16cnt);
      if Adjusted(cfg) {
        adjustCnt := adjustCnt + 1;
      }
      VisitBlock(buf, base, qp, at, cfgs, cu16cnt, cfg);
      if cu16cnt == 15 {
        FinishCtu(buf, base, qp, at, cfgs, cfg, adjustCnt);
      }
    }
  }

  lemma SourcesCount(src: array<Cfg>, ctus: nat, ctuRows: nat, i: nat, j: nat, cfgs: seq<Cfg>)
    requires Fits(src, ctus * 4, ctuRows * 4) && i < ctus && j < ctuRows && Sources(src, ctus, ctuRows, i, j, cfgs)
    ensures |cfgs| == 16
  {
  }

  lemma NoneAdjusted(cfgs: seq<Cfg>)
    ensures AdjustCount(cfgs, 0) == 0
  {
  }

  lemma AdjustNext(cfgs: seq<Cfg>, n: nat)
    requires n < |cfgs|
    ensures AdjustCount(cfgs, n + 1) == AdjustCount(cfgs, n) + if Adjusted(cfgs[n]) then 1 else 0
  {
    hide Adjusted;
  }

  lemma NoBlockOnes(cfgs: seq<Cfg>)
    ensures BlockOnes(cfgs, 0) == {}
  {
  }

  lemma SourceAt(src: array<Cfg>, ctus: nat, ctuRows: nat, i: nat, j: nat, cfgs: seq<Cfg>, c: nat)
    requires Fits(src, ctus * 4, ctuRows * 4) && i < ctus && j < ctuRows && c < 16
    requires Sources(src, ctus, ctuRows, i, j, cfgs)
    ensures var p := c % 4 + i * 4 + (c / 4 + j * 4) * (ctus * 4); p < src.Length && src[p] == cfgs[c]
  {
    hide Area;
    GridBound(i * 4 + c % 4, j * 4 + c / 4, ctus * 4, ctuRows * 4);
    assert At(src, ctus * 4, ctuRows * 4, i * 4 + c % 4, j * 4 + c / 4) == cfgs[c];
  }

  // ---- The whole frame

  /** The 16 blocks of CTU t, counted along the rows. */
  ghost function BlocksOf(src: array<Cfg>, ctus: nat, ctuRows: nat, t: nat): seq<Cfg>
    requires ctus > 0 && Fits(src, ctus * 4, ctuRows * 4) && t / ctus < ctuRows
    reads src
  {
    CtuBlocks(src, ctus, ctuRows, t % ctus, t / ctus)
  }

  /** The 16 blocks of the CTU in column i of row j. */
  ghost function CtuBlocks(src: array<Cfg>, ctus: nat, ctuRows: nat, i: nat, j: nat): seq<Cfg>
    requires Fits(src, ctus * 4, ctuRows * 4) && i < ctus && j < ctuRows
    reads src
  {
    seq(16, c requires 0 <= c < 16 reads src => At(src, ctus * 4, ctuRows * 4, i * 4 + c % 4, j * 4 + c / 4))
  }

  /** The buffers have room for n CTUs: 64 bytes of flags and, of the 256 bytes per CTU that are
      cleared, 192 bytes of quantizers. */
  predicate Room(words: nat, entries: nat, n: nat) {
    n * RECORD_WORDS <= words && n * 128 <= entries
  }

  lemma RoomFor(words: nat, entries: nat, n: nat, t: nat)
    requires Room(words, entries, n) && t < n
    ensures t * RECORD_WORDS + RECORD_WORDS <= words && t * QP_ENTRIES + QP_ENTRIES <= entries
  {
  }

  /** CTU t as memory was cleared. */
  ghost predicate Blank(words: seq<bv32>, q: seq<QpCfg>, n: nat, t: nat)
    requires Room(|words|, |q|, n) && t < n
  {
    RoomFor(|words|, |q|, n, t);
    && OnesIn(words, t * RECORD_WORDS) == {}
    && (forall k: nat | k < QP_ENTRIES :: Entry(q, t * QP_ENTRIES, k) == NO_QP)
  }

  /** CTU t as it should be: the record of its blocks if it is marked, nothing otherwise. */
  ghost predicate Done(words: seq<bv32>, q: seq<QpCfg>, n: nat, t: nat, marked: bool, cfgs: seq<Cfg>)
    requires Room(|words|, |q|, n) && t < n && |cfgs| == 16
  {
    RoomFor(|words|, |q|, n, t);
    if marked then BitsRecord(words, t * RECORD_WORDS, cfgs) && QpRecord(q, t * QP_ENTRIES, cfgs)
    else Blank(words, q, n, t)
  }

  lemma Apart(t: nat, u: nat, size: nat, k: nat)
    requires t != u && u * size <= k < u * size + size
    ensures !(t * size <= k < t * size + size)
  {
    NextRow(t, size);
    NextRow(u, size);
    if t < u {
      Mono(t + 1, u, size);
    } else {
      Mono(u + 1, t, size);
    }
  }

  /** Writing CTU t leaves every other CTU alone. */
  lemma OtherKept(words: seq<bv32>, words': seq<bv32>, q: seq<QpCfg>, q': seq<QpCfg>, n: nat, t: nat, u: nat)
    requires |words| == |words'| && |q| == |q'| && Room(|words|, |q|, n) && t < n && u < n && u != t
    requires forall k | 0 <= k < |words| && !(t * RECORD_WORDS <= k < t * RECORD_WORDS + RECORD_WORDS) :: words[k] == words'[k]
    requires forall k | 0 <= k < |q| && !(t * QP_ENTRIES <= k < t * QP_ENTRIES + QP_ENTRIES) :: q[k] == q'[k]
    ensures u * RECORD_WORDS + RECORD_WORDS <= |words| && u * QP_ENTRIES + QP_ENTRIES <= |q|
    ensures OnesIn(words, u * RECORD_WORDS) == OnesIn(words', u * RECORD_WORDS)
    ensures forall k: nat | k < QP_ENTRIES :: Entry(q, u * QP_ENTRIES, k) == Entry(q', u * QP_ENTRIES, k)
  {
    hide OnesIn;
    RoomFor(|words|, |q|, n, u);
    forall k | u * RECORD_WORDS <= k < u * RECORD_WORDS + RECORD_WORDS
      ensures words[k] == words'[k]
    {
      Apart(t, u, RECORD_WORDS, k);
    }
    forall k | u * QP_ENTRIES <= k < u * QP_ENTRIES + QP_ENTRIES
      ensures q[k] == q'[k]
    {
      Apart(t, u, QP_ENTRIES, k);
    }
    SameRecord(words, words', u * RECORD_WORDS);
  }

  lemma BlankKept(words: seq<bv32>, words': seq<bv32>, q: seq<QpCfg>, q': seq<QpCfg>, n: nat, t: nat, u: nat)
    requires |words| == |words'| && |q| == |q'| && Room(|words|, |q|, n) && t < n && u < n && u != t
    requires forall k | 0 <= k < |words| && !(t * RECORD_WORDS <= k < t * RECORD_WORDS + RECORD_WORDS) :: words[k] == words'[k]
    requires forall k | 0 <= k < |q| && !(t * QP_ENTRIES <= k < t * QP_ENTRIES + QP_ENTRIES) :: q[k] == q'[k]
    requires Blank(words, q, n, u)
    ensures Blank(words', q', n, u)
  {
    hide OnesIn, Entry, Room;
    OtherKept(words, words', q, q', n, t, u);
  }

  lemma DoneKept(words: seq<bv32>, words': seq<bv32>, q: seq<QpCfg>, q': seq<QpCfg>, n: nat, t: nat, u: nat,
                 marked: bool, cfgs: seq<Cfg>)
    requires |words| == |words'| && |q| == |q'| && Room(|words|, |q|, n) && t < n && u < n && u != t && |cfgs| == 16
    requires forall k | 0 <= k < |words| && !(t * RECORD_WORDS <= k < t * RECORD_WORDS + RECORD_WORDS) :: words[k] == words'[k]
    requires forall k | 0 <= k < |q| && !(t * QP_ENTRIES <= k < t * QP_ENTRIES + QP_ENTRIES) :: q[k] == q'[k]
    requires Done(words, q, n, u, marked, cfgs)
    ensures Done(words', q', n, u, marked, cfgs)
  {
    hide OnesIn, Entry, Room, RecordBit, NodeQp;
    OtherKept(words, words', q, q', n, t, u);
  }

  /** Cleared memory is blank. */
  lemma ClearedBlank(words: seq<bv32>, q: seq<QpCfg>, n: nat, t: nat)
    requires Room(|words|, |q|, n) && t < n
    requires forall k | 0 <= k < n * RECORD_WORDS :: words[k] == 0
    requires forall k | 0 <= k < n * 128 :: q[k] == NO_QP
    ensures Blank(words, q, n, t)
  {
    hide OnesIn;
    RoomFor(|words|, |q|, n, t);
    ZeroRecord(words, t * RECORD_WORDS);
  }

  /** The two `memset` calls. */
  method Clear(buf: array<bv32>, qp: array<QpCfg>, n: nat)
    requires Room(buf.Length, qp.Length, n) && buf as object != qp
    modifies buf, qp
    ensures forall t: nat | t < n :: Blank(buf[..], qp[..], n, t)
  {
    hide Blank;
    for k := 0 to n * RECORD_WORDS
      invariant forall j | 0 <= j < k :: buf[j] == 0
    {
      buf[k] := 0;
    }
    for k := 0 to n * 128
      invariant forall j | 0 <= j < n * RECORD_WORDS :: buf[j] == 0
      invariant forall j | 0 <= j < k :: qp[j] == NO_QP
    {
      qp[k] := NO_QP;
    }
    forall t: nat | t < n
      ensures Blank(buf[..], qp[..], n, t)
    {
      ClearedBlank(buf[..], qp[..], n, t);
    }
  }

  /** The state of the frame loop: the first `done` CTUs are written, the others still blank. */
  ghost predicate Progress(words: seq<bv32>, q: seq<QpCfg>, n: nat, done: nat, cuMap: seq<nat>, blocks: seq<seq<Cfg>>)
    requires Room(|words|, |q|, n) && |blocks| == n <= |cuMap| && done <= n && forall b | b in blocks :: |b| == 16
  {
    && (forall t: nat | t < done :: Done(words, q, n, t, cuMap[t] != 0, blocks[t]))
    && (forall t: nat | done <= t < n :: Blank(words, q, n, t))
  }

  lemma ProgressStep(words: seq<bv32>, words': seq<bv32>, q: seq<QpCfg>, q': seq<QpCfg>, n: nat, t: nat,
                     cuMap: seq<nat>, blocks: seq<seq<Cfg>>)
    requires |words| == |words'| && |q| == |q'| && Room(|words|, |q|, n) && t < n
    requires |blocks| == n <= |cuMap| && forall b | b in blocks :: |b| == 16
    requires forall k | 0 <= k < |words| && !(t * RECORD_WORDS <= k < t * RECORD_WORDS + RECORD_WORDS) :: words[k] == words'[k]
    requires forall k | 0 <= k < |q| && !(t * QP_ENTRIES <= k < t * QP_ENTRIES + QP_ENTRIES) :: q[k] == q'[k]
    requires Progress(words, q, n, t, cuMap, blocks) && Done(words', q', n, t, cuMap[t] != 0, blocks[t])
    ensures Progress(words', q', n, t + 1, cuMap, blocks)
  {
    hide Done, Blank, Room;
    forall u: nat | u < t
      ensures Done(words', q', n, u, cuMap[u] != 0, blocks[u])
    {
      DoneKept(words, words', q, q', n, t, u, cuMap[u] != 0, blocks[u]);
    }
    forall u: nat | t < u < n
      ensures Blank(words', q', n, u)
    {
      BlankKept(words, words', q, q', n, t, u);
    }
  }

  ghost function AllBlocks(src: array<Cfg>, ctus: nat, ctuRows: nat): (r: seq<seq<Cfg>>)
    requires ctus > 0 && Fits(src, ctus * 4, ctuRows * 4)
    reads src
    ensures |r| == Area(ctus, ctuRows) && forall b | b in r :: |b| == 16
  {
    seq(Area(ctus, ctuRows), t requires 0 <= t < Area(ctus, ctuRows) reads src =>
      DivBound(t, ctus, ctuRows); BlocksOf(src, ctus, ctuRows, t))
  }

  lemma BlocksAt(src: array<Cfg>, ctus: nat, ctuRows: nat, i: nat, j: nat)
    requires i < ctus && j < ctuRows && Fits(src, ctus * 4, ctuRows * 4)
    ensures var t := Index(i, j, ctus);
            && t < Area(ctus, ctuRows)
            && Sources(src, ctus, ctuRows, i, j, AllBlocks(src, ctus, ctuRows)[t])
  {
    GridBound(i, j, ctus, ctuRows);
    DivMod(j, i, ctus);
    hide Area, Index, At;
    var t := Index(i, j, ctus);
    assert AllBlocks(src, ctus, ctuRows)[t] == BlocksOf(src, ctus, ctuRows, t);
  }

  lemma BlankStart(buf: array<bv32>, qp: array<QpCfg>, n: nat, t: nat, cfgs: seq<Cfg>)
    requires Room(buf.Length, qp.Length, n) && t < n && |cfgs| == 16 && Blank(buf[..], qp[..], n, t)
    ensures t * RECORD_WORDS + RECORD_WORDS <= buf.Length && t * QP_ENTRIES + QP_ENTRIES <= qp.Length
    ensures Ones(buf, t * RECORD_WORDS) == {} && QpBlocks(qp, t * QP_ENTRIES, cfgs, 0)
  {
    RoomFor(buf.Length, qp.Length, n, t);
    hide OnesIn, Entry, Room;
  }

  lemma DoneIs(words: seq<bv32>, q: seq<QpCfg>, n: nat, t: nat, cfgs: seq<Cfg>)
    requires Room(|words|, |q|, n) && t < n && |cfgs| == 16
    requires t * RECORD_WORDS + RECORD_WORDS <= |words| && t * QP_ENTRIES + QP_ENTRIES <= |q|
    ensures BitsRecord(words, t * RECORD_WORDS, cfgs) && QpRecord(q, t * QP_ENTRIES, cfgs) ==> Done(words, q, n, t, true, cfgs)
    ensures Blank(words, q, n, t) ==> Done(words, q, n, t, false, cfgs)
  {
    hide BitsRecord, QpRecord, Blank, Room;
  }

  /** One turn of the frame loops: a marked CTU is written, an unmarked one stays blank. */
  method StepCtu(src: array<Cfg>, cuMap: array<nat>, buf: array<bv32>, base: nat, qp: array<QpCfg>, at: nat,
                 k: nat, j: nat, ctuW: nat, ctuH: nat, ghost blocks: seq<seq<Cfg>>)
    requires k < ctuW && j < ctuH && Fits(src, ctuW * 4, ctuH * 4) && blocks == AllBlocks(src, ctuW, ctuH)
    requires Area(ctuW, ctuH) <= cuMap.Length && Room(buf.Length, qp.Length, Area(ctuW, ctuH))
    requires buf as object != qp && buf as object != src && qp as object != src
    requires buf as object != cuMap && qp as object != cuMap
    requires base == Index(k, j, ctuW) * RECORD_WORDS && at == Index(k, j, ctuW) * QP_ENTRIES
    requires Index(k, j, ctuW) < Area(ctuW, ctuH)
    requires Progress(buf[..], qp[..], Area(ctuW, ctuH), Index(k, j, ctuW), cuMap[..], blocks)
    modifies buf, qp
    ensures Progress(buf[..], qp[..], Area(ctuW, ctuH), Index(k, j, ctuW) + 1, cuMap[..], blocks)
  {
    hide Ones, QpBlocks, BitsRecord, QpRecord, Area, Room, Blank, Done, Fits, AllBlocks, Sources;
    ghost var n, t := Area(ctuW, ctuH), Index(k, j, ctuW);
    ghost var words, q := buf[..], qp[..];
    BlocksAt(src, ctuW, ctuH, k, j);
    assert cuMap[..][t] == cuMap[t];
    BlankStart(buf, qp, n, t, blocks[t]);
    if cuMap[j * ctuW + k] != 0 {
      GenCtu(src, buf, base, qp, at, k, j, ctuW, ctuH, blocks[t]);
    }
    DoneIs(buf[..], qp[..], n, t, blocks[t]);
    ProgressStep(words, buf[..], q, qp[..], n, t, cuMap[..], blocks);
  }

  /** The loops over a frame of ctuW by ctuH CTUs. */
  method GenRecords(src: array<Cfg>, cuMap: array<nat>, buf: array<bv32>, qp: array<QpCfg>, ctuW: nat, ctuH: nat)
    requires ctuW > 0 && Fits(src, ctuW * 4, ctuH * 4)
    requires Area(ctuW, ctuH) <= cuMap.Length && Room(buf.Length, qp.Length, Area(ctuW, ctuH))
    requires buf as object != qp && buf as object != src && qp as object != src
    requires buf as object != cuMap && qp as object != cuMap
    modifies buf, qp
    ensures Progress(buf[..], qp[..], Area(ctuW, ctuH), Area(ctuW, ctuH), cuMap[..], AllBlocks(src, ctuW, ctuH))
  {
    hide Area, Room, Blank, Done, Fits, AllBlocks, Index;
    ghost var n, blocks := Area(ctuW, ctuH), AllBlocks(src, ctuW, ctuH);
    BlocksShape(src, ctuW, ctuH);
    AreaIs(ctuW, ctuH);
    Clear(buf, qp, ctuW * ctuH);
    IndexStart(ctuW);
    var base, at := 0, 0;
    for j := 0 to ctuH
      invariant Index(0, j, ctuW) <= n && Progress(buf[..], qp[..], n, Index(0, j, ctuW), cuMap[..], blocks)
      invariant base == Index(0, j, ctuW) * RECORD_WORDS && at == Index(0, j, ctuW) * QP_ENTRIES
    {
      for k := 0 to ctuW
        invariant Index(k, j, ctuW) <= n && Progress(buf[..], qp[..], n, Index(k, j, ctuW), cuMap[..], blocks)
        invariant base == Index(k, j, ctuW) * RECORD_WORDS && at == Index(k, j, ctuW) * QP_ENTRIES
      {
        IndexNext(k, j, ctuW, ctuH);
        StepCtu(src, cuMap, buf, base, qp, at, k, j, ctuW, ctuH, blocks);
        base := base + RECORD_WORDS;
        at := at + QP_ENTRIES;
      }
      IndexRow(j, ctuW);
    }
    IndexEnd(ctuW, ctuH);
  }

  /** `gen_vepu580_roi_h265`: every marked CTU gets the record and the table of its 16 source
      blocks, every other CTU is all zero. */
  method GenVepu580RoiH265(src: array<Cfg>, cuMap: array<nat>, buf: array<bv32>, qp: array<QpCfg>, w: nat, h: nat)
    requires Blocks(w, 64) > 0 && Fits(src, Blocks(w, 64) * 4, Blocks(h, 64) * 4)
    requires var n := Area(Blocks(w, 64), Blocks(h, 64)); n <= cuMap.Length && Room(buf.Length, qp.Length, n)
    requires buf as object != qp && buf as object != src && qp as object != src
    requires buf as object != cuMap && qp as object != cuMap
    modifies buf, qp
    ensures var (ctus, ctuRows) := (Blocks(w, 64), Blocks(h, 64));
            forall t: nat | t < Area(ctus, ctuRows) ::
              Done(buf[..], qp[..], Area(ctus, ctuRows), t, cuMap[t] != 0, AllBlocks(src, ctus, ctuRows)[t])
  {
    hide Blocks, Area, Room, Blank, Done, Fits, AllBlocks;
    GenRecords(src, cuMap, buf, qp, Blocks(w, 64), Blocks(h, 64));
  }

  lemma BlocksShape(src: array<Cfg>, ctus: nat, ctuRows: nat)
    requires ctus > 0 && Fits(src, ctus * 4, ctuRows * 4)
    ensures var r := AllBlocks(src, ctus, ctuRows); |r| == Area(ctus, ctuRows) && forall b | b in r :: |b| == 16
  {
  }

  lemma AreaIs(ctus: nat, ctuRows: nat)
    ensures Area(ctus, ctuRows) == ctus * ctuRows
  {
  }

  lemma IndexStart(ctus: nat)
    ensures Index(0, 0, ctus) == 0
  {
  }

  lemma IndexNext(k: nat, j: nat, ctus: nat, ctuRows: nat)
    requires k < ctus && j < ctuRows
    ensures Index(k, j, ctus) < Area(ctus, ctuRows) && Index(k + 1, j, ctus) == Index(k, j, ctus) + 1
  {
    GridBound(k, j, ctus, ctuRows);
  }

  lemma IndexRow(j: nat, ctus: nat)
    ensures Index(ctus, j, ctus) == Index(0, j + 1, ctus)
  {
    NextRow(j, ctus);
  }

  lemma IndexEnd(ctus: nat, ctuRows: nat)
    ensures Index(0, ctuRows, ctus) == Area(ctus, ctuRows)
  {
  }

  // ---- From regions to records

  /** Record and table of CTU t carry, at node 64 + z(c), this configuration. */
  ghost predicate Carries(words: seq<bv32>, q: seq<QpCfg>, t: nat, c: nat, cfg: Cfg)
    requires t * RECORD_WORDS + RECORD_WORDS <= |words| && t * QP_ENTRIES + QP_ENTRIES <= |q|
  {
    var (bits, slot) := (OnesIn(words, t * RECORD_WORDS), 64 + Z16(c));
    && (Offset(ForceIntra, slot) in bits <==> cfg.forceIntra != 0)
    && (Offset(QpAdj, slot) in bits <==> cfg.qpAdj != 0)
    && slot < QP_ENTRIES && Entry(q, t * QP_ENTRIES, slot) == QpOf(cfg)
  }

  lemma DoneCarries(words: seq<bv32>, q: seq<QpCfg>, n: nat, t: nat, cfgs: seq<Cfg>, c: nat)
    requires Room(|words|, |q|, n) && t < n && |cfgs| == 16 && c < 16
    requires Done(words, q, n, t, true, cfgs)
    ensures t * RECORD_WORDS + RECORD_WORDS <= |words| && t * QP_ENTRIES + QP_ENTRIES <= |q|
    ensures Carries(words, q, t, c, cfgs[c])
  {
    RoomFor(|words|, |q|, n, t);
    BlockDecodes(cfgs, c);
    QpDecodes(cfgs, c);
    RecordDecodes(cfgs, ForceIntra, 64 + Z16(c));
    RecordDecodes(cfgs, QpAdj, 64 + Z16(c));
    hide OnesIn, RecordBit, NodeQp, Entry, Z16, NodeFlag, Offset, Room;
  }

  /** What `mpp_enc_roi_setup_meta` does for HEVC on the newer chips: in every CTU that some
      region marks, the node of each 16x16 block carries what was painted there; the other CTUs
      stay empty. */
  method RoiRecordsH265(regions: seq<Region>, w: nat, h: nat, tmp: array<Cfg>, cuMap: array<nat>,
                        buf: array<bv32>, qp: array<QpCfg>)
    returns (ok: bool)
    requires w > 0 && h > 0 && tmp.Length == Area(Stride(w), Stride(h)) && Blocks(w, 64) > 0
    requires AllAccepted(regions, w, h) ==>
               forall i | 0 <= i < |regions| :: InBuffers(Hevc, regions[i], Stride(w), tmp.Length, cuMap.Length)
    requires var n := Area(Blocks(w, 64), Blocks(h, 64)); n <= cuMap.Length && Room(buf.Length, qp.Length, n)
    requires buf as object != qp && buf as object != tmp && qp as object != tmp && cuMap as object != tmp
    requires buf as object != cuMap && qp as object != cuMap
    modifies tmp, cuMap, buf, qp
    ensures ok <==> AllAccepted(regions, w, h)
    ensures var n := if ok then |regions| else 0;
            forall i: nat, j: nat, c: nat | i < Blocks(w, 64) && j < Blocks(h, 64) && c < 16 ::
              BlockShown(buf[..], qp[..], regions, n, Blocks(w, 64), i, j, c)
  {
    hide Stride, Blocks, Area, Index, Room, Painted, Marked, MarkedBy, AllAccepted, InBuffers, AllBlocks, Done, FlatConfig, Shown;
    StridesAgree(w);
    StridesAgree(h);
    ok := GenVepu54xRoi(regions, w, h, Hevc, tmp, cuMap);
    ghost var n := if ok then |regions| else 0;
    GenVepu580RoiH265(tmp, cuMap, buf, qp, w, h);
    forall i: nat, j: nat, c: nat | i < Blocks(w, 64) && j < Blocks(h, 64) && c < 16
      ensures BlockShown(buf[..], qp[..], regions, n, Blocks(w, 64), i, j, c)
    {
      PaintedSource(tmp, regions, n, Blocks(w, 64), Blocks(h, 64), i, j, c);
      ghost var (t, cfgs) := (Index(i, j, Blocks(w, 64)), AllBlocks(tmp, Blocks(w, 64), Blocks(h, 64))[Index(i, j, Blocks(w, 64))]);
      MarkedAt(cuMap, regions, n, Blocks(w, 64) * 4, t);
      DoneShown(cuMap[t] != 0, buf[..], qp[..], Area(Blocks(w, 64), Blocks(h, 64)), t, cfgs, c);
    }
  }

  lemma MarkedAt(cuMap: array<nat>, regions: seq<Region>, n: nat, stride: nat, t: nat)
    requires n <= |regions| && Marked(cuMap, Hevc, regions, n, stride) && t < cuMap.Length
    ensures cuMap[t] != 0 <==> MarkedBy(Hevc, regions, n, stride, t)
  {
    hide MarkedBy;
  }

  /** A marked CTU carries the configuration; an unmarked one has neither flags nor quantizers. */
  ghost predicate Shown(marked: bool, words: seq<bv32>, q: seq<QpCfg>, t: nat, c: nat, cfg: Cfg) {
    && t * RECORD_WORDS + RECORD_WORDS <= |words| && t * QP_ENTRIES + QP_ENTRIES <= |q|
    && (if marked then Carries(words, q, t, c, cfg) else NothingShown(words, q, t))
  }

  ghost predicate NothingShown(words: seq<bv32>, q: seq<QpCfg>, t: nat) {
    && t * RECORD_WORDS + RECORD_WORDS <= |words| && t * QP_ENTRIES + QP_ENTRIES <= |q|
    && OnesIn(words, t * RECORD_WORDS) == {} && forall k: nat | k < QP_ENTRIES :: Entry(q, t * QP_ENTRIES, k) == NO_QP
  }

  /** Block c of CTU (i, j) is shown as painted and marked by the first n regions. */
  ghost predicate BlockShown(words: seq<bv32>, q: seq<QpCfg>, regions: seq<Region>, n: nat, ctus: nat, i: nat, j: nat, c: nat)
    requires n <= |regions|
  {
    Shown(MarkedBy(Hevc, regions, n, ctus * 4, Index(i, j, ctus)), words, q, Index(i, j, ctus), c,
          FlatConfig(regions, n, ctus * 4, Index(i * 4 + c % 4, j * 4 + c / 4, ctus * 4)))
  }

  /** Regions inside the grid: every block that one of them covers is carried by the record of its
      CTU, with the configuration of the last region over it. */
  lemma CarriesLast(words: seq<bv32>, q: seq<QpCfg>, regions: seq<Region>, n: nat, w: nat, h: nat, i: nat, j: nat, c: nat)
    requires n <= |regions| && i < Blocks(w, 64) && c < 16
    requires forall k | 0 <= k < n :: Accepted(regions[k], w, h) && InGrid(regions[k], w, h)
    requires exists k :: 0 <= k < n && Covers(regions[k], i * 4 + c % 4, j * 4 + c / 4)
    requires BlockShown(words, q, regions, n, Blocks(w, 64), i, j, c)
    ensures var t := Index(i, j, Blocks(w, 64));
            && t * RECORD_WORDS + RECORD_WORDS <= |words| && t * QP_ENTRIES + QP_ENTRIES <= |q|
            && Carries(words, q, t, c, ConfigAt(regions, n, i * 4 + c % 4, j * 4 + c / 4))
  {
    hide *;
    StridesAgree(w);
    var (col, row, ctus) := (i * 4 + c % 4, j * 4 + c / 4, Blocks(w, 64));
    BlockPlace(i, j, c, ctus);
    var k :| 0 <= k < n && Covers(regions[k], col, row);
    MarksCover(regions[k], ctus, col, row);
    MarkedByOne(regions, n, k, 4 * ctus, CtuOf(col, row, ctus));
    CtuOfIs(i, j, col, row, ctus);
    FlatIsGrid(regions, n, w, h, col, row);
    ShownCarries(words, q, regions, n, ctus, i, j, c);
  }

  lemma BlockPlace(i: nat, j: nat, c: nat, ctus: nat)
    requires i < ctus && c < 16
    ensures (i * 4 + c % 4) / 4 == i && (j * 4 + c / 4) / 4 == j && i * 4 + c % 4 < 4 * ctus
  {
  }

  lemma MarkedByOne(regions: seq<Region>, n: nat, k: nat, stride: nat, t: nat)
    requires k < n <= |regions| && Marks(Hevc, regions[k], stride, t)
    ensures MarkedBy(Hevc, regions, n, stride, t)
  {
    hide Marks;
  }

  lemma CtuOfIs(i: nat, j: nat, col: nat, row: nat, ctus: nat)
    requires col / 4 == i && row / 4 == j
    ensures CtuOf(col, row, ctus) == Index(i, j, ctus)
  {
    hide Index;
  }

  lemma ShownCarries(words: seq<bv32>, q: seq<QpCfg>, regions: seq<Region>, n: nat, ctus: nat, i: nat, j: nat, c: nat)
    requires n <= |regions| && BlockShown(words, q, regions, n, ctus, i, j, c)
    requires MarkedBy(Hevc, regions, n, ctus * 4, Index(i, j, ctus))
    ensures var t := Index(i, j, ctus);
            && t * RECORD_WORDS + RECORD_WORDS <= |words| && t * QP_ENTRIES + QP_ENTRIES <= |q|
            && Carries(words, q, t, c, FlatConfig(regions, n, ctus * 4, Index(i * 4 + c % 4, j * 4 + c / 4, ctus * 4)))
  {
    hide MarkedBy, Index, FlatConfig, Carries, NothingShown;
  }

  lemma DoneShown(marked: bool, words: seq<bv32>, q: seq<QpCfg>, n: nat, t: nat, cfgs: seq<Cfg>, c: nat)
    requires Room(|words|, |q|, n) && t < n && |cfgs| == 16 && c < 16
    requires Done(words, q, n, t, marked, cfgs)
    ensures Shown(marked, words, q, t, c, cfgs[c])
  {
    RoomFor(|words|, |q|, n, t);
    if marked {
      DoneCarries(words, q, n, t, cfgs, c);
    }
    hide Carries, OnesIn, Entry, Room, BitsRecord, QpRecord;
  }

  lemma PaintedSource(tmp: array<Cfg>, regions: seq<Region>, n: nat, ctus: nat, ctuRows: nat, i: nat, j: nat, c: nat)
    requires i < ctus && j < ctuRows && c < 16 && n <= |regions|
    requires Painted(tmp, ctus * 4, ctuRows * 4, regions, n)
    ensures Fits(tmp, ctus * 4, ctuRows * 4)
    ensures var (t, blocks) := (Index(i, j, ctus), AllBlocks(tmp, ctus, ctuRows));
            && t < Area(ctus, ctuRows) == |blocks| && |blocks[t]| == 16
            && blocks[t][c] == FlatConfig(regions, n, ctus * 4, Index(i * 4 + c % 4, j * 4 + c / 4, ctus * 4))
  {
    BlocksAt(tmp, ctus, ctuRows, i, j);
    BlocksShape(tmp, ctus, ctuRows);
    PaintedAt(tmp, regions, n, ctus * 4, ctuRows * 4, i * 4 + c % 4, j * 4 + c / 4);
    hide Area, Index, At, FlatConfig, AllBlocks, Painted;
  }

  lemma PaintedAt(tmp: array<Cfg>, regions: seq<Region>, n: nat, stride: nat, rows: nat, col: nat, row: nat)
    requires n <= |regions| && col < stride && row < rows && Painted(tmp, stride, rows, regions, n)
    ensures Fits(tmp, stride, rows) && At(tmp, stride, rows, col, row) == FlatConfig(regions, n, stride, Index(col, row, stride))
  {
    GridBound(col, row, stride, rows);
    hide Area, Index, FlatConfig;
  }
}
