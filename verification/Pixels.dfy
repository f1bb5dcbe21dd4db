/**
 The 10-bit unpackers: `rearrange_pix` (the same code in mpp/mpp_impl.c and utils/utils.c), which
 unpacks eight pixels from five 16-bit words, and `fetch_data` (mpp/mpp_impl.c:124-139), which
 picks one pixel from two bytes and drops its two low bits.
 */
module Pixels {

  // ---- Pixels as bits of a line

  /** Bit b of a byte. */
  predicate ByteBit(x: bv8, b: nat)
    requires b < 8
  {
    (x >> b) & 1 == 1
  }

  /** Bit i of a line of bytes, low bits first. */
  predicate LineBit(line: seq<bv8>, i: nat)
    requires i / 8 < |line|
  {
    ByteBit(line[i / 8], i % 8)
  }

  predicate PixelBit(p: bv16, b: nat)
    requires b < 16
  {
    (p >> b) & 1 == 1
  }

  /** Two bytes as a little-endian word. */
  function Word(lo: bv8, hi: bv8): bv16 {
    (lo as bv16) | ((hi as bv16) << 8)
  }

  /** The ten bits of a word from bit 2 * quarter on. */
  function TenBits(w: bv16, quarter: nat): bv16
    requires quarter < 4
  {
    if quarter == 0 then w & 0x3FF
    else if quarter == 1 then (w >> 2) & 0x3FF
    else if quarter == 2 then (w >> 4) & 0x3FF
    else (w >> 6) & 0x3FF
  }

  /** Pixel j of a line; its ten bits never reach into a third byte. */
  function Pixel(line: seq<bv8>, j: nat): bv16
    requires j * 10 / 8 + 1 < |line|
  {
    TenBits(Word(line[j * 10 / 8], line[j * 10 / 8 + 1]), j % 4)
  }

  lemma WordBit(lo: bv8, hi: bv8, b: nat)
    requires b < 16
    ensures PixelBit(Word(lo, hi), b) == if b < 8 then ByteBit(lo, b) else ByteBit(hi, b - 8)
  {
    if b < 8 {
      WordBitLow(lo, hi, b);
    } else {
      WordBitHigh(lo, hi, b - 8);
    }
  }

  lemma WordBitLow(lo: bv8, hi: bv8, b: nat)
    requires b < 8
    ensures PixelBit(Word(lo, hi), b) == ByteBit(lo, b)
  {
    if b < 4 {
      if b == 0 {} else if b == 1 {} else if b == 2 {} else {}
    } else {
      if b == 4 {} else if b == 5 {} else if b == 6 {} else {}
    }
  }

  lemma WordBitHigh(lo: bv8, hi: bv8, b: nat)
    requires b < 8
    ensures PixelBit(Word(lo, hi), b + 8) == ByteBit(hi, b)
  {
    if b < 4 {
      if b == 0 {} else if b == 1 {} else if b == 2 {} else {}
    } else {
      if b == 4 {} else if b == 5 {} else if b == 6 {} else {}
    }
  }

  lemma TenBitsLow(w: bv16, quarter: nat, b: nat)
    requires quarter < 4 && b < 8
    ensures PixelBit(TenBits(w, quarter), b) == PixelBit(w, b + 2 * quarter)
  {
    hide PixelBit, TenBits;
    if b < 4 {
      TenBitsLow0(w, quarter, b);
    } else if b < 6 {
      TenBitsLow4(w, quarter, b);
    } else {
      TenBitsLow6(w, quarter, b);
    }
  }

  lemma TenBitsLow0(w: bv16, quarter: nat, b: nat)
    requires quarter < 4 && b < 4
    ensures PixelBit(TenBits(w, quarter), b) == PixelBit(w, b + 2 * quarter)
  {
    if b == 0 {} else if b == 1 {} else if b == 2 {} else {}
  }

  lemma TenBitsLow4(w: bv16, quarter: nat, b: nat)
    requires quarter < 4 && 4 <= b < 6
    ensures PixelBit(TenBits(w, quarter), b) == PixelBit(w, b + 2 * quarter)
  {
    if b == 4 {} else {}
  }

  lemma TenBitsLow6(w: bv16, quarter: nat, b: nat)
    requires quarter < 4 && 6 <= b < 8
    ensures PixelBit(TenBits(w, quarter), b) == PixelBit(w, b + 2 * quarter)
  {
    if b == 6 {} else {}
  }

  lemma TenBitsHigh(w: bv16, quarter: nat, b: nat)
    requires quarter < 4 && 8 <= b < 16
    ensures PixelBit(TenBits(w, quarter), b) == (b < 10 && PixelBit(w, (b + 2 * quarter) % 16))
  {
    hide PixelBit, TenBits;
    if b < 12 {
      TenBitsHigh8(w, quarter, b);
    } else {
      TenBitsHigh12(w, quarter, b);
    }
  }

  lemma TenBitsHigh8(w: bv16, quarter: nat, b: nat)
    requires quarter < 4 && 8 <= b < 12
    ensures PixelBit(TenBits(w, quarter), b) == (b < 10 && PixelBit(w, (b + 2 * quarter) % 16))
  {
    if b == 8 {} else if b == 9 {} else if b == 10 {} else {}
  }

  lemma TenBitsHigh12(w: bv16, quarter: nat, b: nat)
    requires quarter < 4 && 12 <= b < 16
    ensures !PixelBit(TenBits(w, quarter), b)
  {
    if b == 12 {} else if b == 13 {} else if b == 14 {} else {}
  }

  lemma TenBitsBit(w: bv16, quarter: nat, b: nat)
    requires quarter < 4 && b < 16
    ensures PixelBit(TenBits(w, quarter), b) == (b < 10 && PixelBit(w, (b + 2 * quarter) % 16))
  {
    hide PixelBit, TenBits;
    if b < 8 {
      TenBitsLow(w, quarter, b);
    } else {
      TenBitsHigh(w, quarter, b);
    }
  }

  lemma BitPlace(j: nat, b: nat)
    requires b < 10
    ensures var (k, c) := (j * 10 / 8, b + 2 * (j % 4));
            c < 16 && (j * 10 + b) / 8 == (if c < 8 then k else k + 1) && (j * 10 + b) % 8 == (if c < 8 then c else c - 8)
  {
    var (q, r) := (j / 4, j % 4);
    assert j * 10 == 8 * (5 * q + r) + 2 * r;
    EighthsOf(5 * q + r, 2 * r);
    EighthsOf(5 * q + r, b + 2 * r);
  }

  lemma EighthsOf(k: nat, c: nat)
    requires c < 16
    ensures (8 * k + c) / 8 == (if c < 8 then k else k + 1) && (8 * k + c) % 8 == (if c < 8 then c else c - 8)
  {
  }

  /** Pixel j is made of the bits 10 j to 10 j + 9 of the line, and nothing else. */
  lemma PixelIsTenBits(line: seq<bv8>, j: nat, b: nat)
    requires j * 10 / 8 + 1 < |line| && b < 16
    ensures b < 10 ==> (j * 10 + b) / 8 < |line|
    ensures PixelBit(Pixel(line, j), b) <==> b < 10 && LineBit(line, j * 10 + b)
  {
    hide TenBits, Word, PixelBit, ByteBit;
    var w := Word(line[j * 10 / 8], line[j * 10 / 8 + 1]);
    TenBitsBit(w, j % 4, b);
    if b < 10 {
      BitPlace(j, b);
      WordBit(line[j * 10 / 8], line[j * 10 / 8 + 1], b + 2 * (j % 4));
    }
  }

  // ---- Unpacking eight pixels

  /** The eight expressions of `rearrange_pix` over five words. */
  function Unpack(u0: bv16, u1: bv16, u2: bv16, u3: bv16, u4: bv16, k: nat): bv16
    requires k < 8
  {
    if k == 0 then u0 & 0x03FF
    else if k == 1 then ((u0 & 0xFC00) >> 10) | ((u1 & 0x000F) << 6)
    else if k == 2 then (u1 & 0x3FF0) >> 4
    else if k == 3 then ((u1 & 0xC000) >> 14) | ((u2 & 0x00FF) << 2)
    else if k == 4 then ((u2 & 0xFF00) >> 8) | ((u3 & 0x0003) << 8)
    else if k == 5 then (u3 & 0x0FFC) >> 2
    else if k == 6 then ((u3 & 0xF000) >> 12) | ((u4 & 0x003F) << 4)
    else (u4 & 0xFFC0) >> 6
  }

  lemma UnpackLow(b0: bv8, b1: bv8, b2: bv8, b3: bv8, b4: bv8, b5: bv8, b6: bv8, b7: bv8, b8: bv8, b9: bv8)
    ensures var (u0, u1, u2, u3, u4) := (Word(b0, b1), Word(b2, b3), Word(b4, b5), Word(b6, b7), Word(b8, b9));
            && Unpack(u0, u1, u2, u3, u4, 0) == TenBits(Word(b0, b1), 0)
            && Unpack(u0, u1, u2, u3, u4, 1) == TenBits(Word(b1, b2), 1)
            && Unpack(u0, u1, u2, u3, u4, 2) == TenBits(Word(b2, b3), 2)
            && Unpack(u0, u1, u2, u3, u4, 3) == TenBits(Word(b3, b4), 3)
  {
  }

  lemma UnpackMiddle(b0: bv8, b1: bv8, b2: bv8, b3: bv8, b4: bv8, b5: bv8, b6: bv8, b7: bv8, b8: bv8, b9: bv8)
    ensures var (u0, u1, u2, u3, u4) := (Word(b0, b1), Word(b2, b3), Word(b4, b5), Word(b6, b7), Word(b8, b9));
            && Unpack(u0, u1, u2, u3, u4, 4) == TenBits(Word(b5, b6), 0)
            && Unpack(u0, u1, u2, u3, u4, 5) == TenBits(Word(b6, b7), 1)
  {
  }

  lemma UnpackHigh(b0: bv8, b1: bv8, b2: bv8, b3: bv8, b4: bv8, b5: bv8, b6: bv8, b7: bv8, b8: bv8, b9: bv8)
    ensures var (u0, u1, u2, u3, u4) := (Word(b0, b1), Word(b2, b3), Word(b4, b5), Word(b6, b7), Word(b8, b9));
            && Unpack(u0, u1, u2, u3, u4, 6) == TenBits(Word(b7, b8), 2)
            && Unpack(u0, u1, u2, u3, u4, 7) == TenBits(Word(b8, b9), 3)
  {
  }

  /** `base_u16[i]` of group n. */
  function Word16(line: seq<bv8>, n: nat, i: nat): bv16
    requires n * 10 + 2 * i + 1 < |line|
  {
    Word(line[n * 10 + 2 * i], line[n * 10 + 2 * i + 1])
  }

  /** Where pixel k of group n is. */
  lemma GroupPlace(n: nat, k: nat)
    requires k < 8
    ensures var at := (n * 8 + k) * 10 / 8;
            && (n * 8 + k) % 4 == k % 4
            && at == n * 10 + (if k < 4 then k else k + 1) && at + 1 < n * 10 + 10
  {
  }

  lemma PixelAt(line: seq<bv8>, j: nat, at: nat, quarter: nat)
    requires at == j * 10 / 8 && at + 1 < |line| && quarter == j % 4
    ensures Pixel(line, j) == TenBits(Word(line[at], line[at + 1]), quarter)
  {
  }

  /** The eight pixels of the ten bytes from `at` on. */
  lemma UnpackAt(line: seq<bv8>, at: nat, k: nat)
    requires at + 10 <= |line| && k < 8
    ensures var b := at + (if k < 4 then k else k + 1);
            TenBits(Word(line[b], line[b + 1]), k % 4)
            == Unpack(Word(line[at], line[at + 1]), Word(line[at + 2], line[at + 3]), Word(line[at + 4], line[at + 5]),
                      Word(line[at + 6], line[at + 7]), Word(line[at + 8], line[at + 9]), k)
  {
    hide Unpack, Word, TenBits;
    if k < 4 {
      UnpackLow(line[at], line[at + 1], line[at + 2], line[at + 3], line[at + 4],
                line[at + 5], line[at + 6], line[at + 7], line[at + 8], line[at + 9]);
      if k == 0 {} else if k == 1 {} else if k == 2 {} else {}
    } else if k < 6 {
      UnpackMiddle(line[at], line[at + 1], line[at + 2], line[at + 3], line[at + 4],
                   line[at + 5], line[at + 6], line[at + 7], line[at + 8], line[at + 9]);
      if k == 4 {} else {}
    } else {
      UnpackHigh(line[at], line[at + 1], line[at + 2], line[at + 3], line[at + 4],
                 line[at + 5], line[at + 6], line[at + 7], line[at + 8], line[at + 9]);
      if k == 6 {} else {}
    }
  }

  lemma Word16At(line: seq<bv8>, n: nat, i: nat)
    requires n * 10 + 2 * i + 1 < |line|
    ensures Word16(line, n, i) == Word(line[n * 10 + 2 * i], line[n * 10 + 2 * i + 1])
  {
    hide Word;
  }

  lemma UnpackIs(line: seq<bv8>, n: nat, k: nat)
    requires n * 10 + 10 <= |line| && k < 8
    ensures (n * 8 + k) * 10 / 8 + 1 < |line|
    ensures Unpack(Word16(line, n, 0), Word16(line, n, 1), Word16(line, n, 2), Word16(line, n, 3), Word16(line, n, 4), k)
         == Pixel(line, n * 8 + k)
  {
    hide *;
    var at := n * 10;
    GroupPlace(n, k);
    PixelAt(line, n * 8 + k, at + (if k < 4 then k else k + 1), k % 4);
    UnpackAt(line, at, k);
    Word16At(line, n, 0);
    Word16At(line, n, 1);
    Word16At(line, n, 2);
    Word16At(line, n, 3);
    Word16At(line, n, 4);
  }

  /** The value is pixel j of the line. */
  predicate Shows(x: bv16, line: seq<bv8>, j: nat) {
    j * 10 / 8 + 1 < |line| && x == Pixel(line, j)
  }

  /** `rearrange_pix`: group n of eight pixels. */
  method RearrangePix(tmpLine: array<bv16>, line: seq<bv8>, n: nat)
    requires n * 10 + 10 <= |line| && n * 8 + 8 <= tmpLine.Length
    modifies tmpLine
    ensures forall j | n * 8 <= j < n * 8 + 8 :: Shows(tmpLine[j], line, j)
    ensures forall j | 0 <= j < tmpLine.Length && !(n * 8 <= j < n * 8 + 8) :: tmpLine[j] == old(tmpLine[j])
  {
    hide Unpack, Pixel, Word;
    var u0, u1, u2, u3, u4 := Word16(line, n, 0), Word16(line, n, 1), Word16(line, n, 2), Word16(line, n, 3), Word16(line, n, 4);
    for k := 0 to 8
      invariant forall j | n * 8 <= j < n * 8 + k :: Shows(tmpLine[j], line, j)
      invariant forall j | 0 <= j < tmpLine.Length && !(n * 8 <= j < n * 8 + 8) :: tmpLine[j] == old(tmpLine[j])
    {
      UnpackIs(line, n, k);
      tmpLine[n * 8 + k] := Unpack(u0, u1, u2, u3, u4, k);
    }
  }

  /** `MPP_ALIGN(width, 8) / 8`: the groups of eight that are unpacked for a line. */
  function Groups(width: nat): nat {
    (width + 7) / 8 * 8 / 8
  }

  /** The loop over a line in the full dump: the pixels of all groups, those beyond the width
      included, and no others. */
  method UnpackLine(tmpLine: array<bv16>, line: seq<bv8>, width: nat)
    requires Groups(width) * 10 <= |line| && Groups(width) * 8 <= tmpLine.Length
    modifies tmpLine
    ensures forall j | 0 <= j < Groups(width) * 8 :: Shows(tmpLine[j], line, j)
    ensures forall j | Groups(width) * 8 <= j < tmpLine.Length :: tmpLine[j] == old(tmpLine[j])
    ensures width <= Groups(width) * 8
  {
    hide Shows;
    for n := 0 to Groups(width)
      invariant forall j | 0 <= j < n * 8 :: Shows(tmpLine[j], line, j)
      invariant forall j | n * 8 <= j < tmpLine.Length :: tmpLine[j] == old(tmpLine[j])
    {
      RearrangePix(tmpLine, line, n);
    }
  }

  /** A line buffer of `width` pixels, which is what the dump allocates, holds the groups exactly
      when the width is a multiple of eight. */
  lemma GroupsFit(width: nat)
    ensures Groups(width) * 8 <= width <==> width % 8 == 0
  {
    var (q, r) := (width / 8, width % 8);
    assert Groups(width) == if r == 0 then q else q + 1;
  }

  // ---- Fetching one pixel

  datatype Format = Yuv420Sp | Yuv420Sp10Bit | OtherFormat

  /** The 10-bit branch of `fetch_data` on its two bytes. */
  function Fetched(lo: bv8, hi: bv8, quarter: nat): bv8
    requires quarter < 4
  {
    var (x, y) := (lo as bv32, hi as bv32);
    var value :=
      if quarter == 0 then x | (y << 8)
      else if quarter == 1 then (x >> 2) | (y << 6)
      else if quarter == 2 then (x >> 4) | (y << 4)
      else (x >> 6) | (y << 2);
    Low8((value & 0x3FF) >> 2)
  }

  /** The cast to RK_U8. */
  function Low8(v: bv32): bv8 {
    (v & 0xFF) as bv8
  }

  /** A pixel without its two low bits. */
  function Top8(p: bv16): bv8 {
    ((p >> 2) & 0xFF) as bv8
  }

  lemma FetchedIs(lo: bv8, hi: bv8, quarter: nat)
    requires quarter < 4
    ensures Fetched(lo, hi, quarter) == Top8(TenBits(Word(lo, hi), quarter))
  {
    if quarter == 0 {
      Fetched0(lo, hi);
    } else if quarter == 1 {
      Fetched1(lo, hi);
    } else if quarter == 2 {
      Fetched2(lo, hi);
    } else {
      Fetched3(lo, hi);
    }
    hide Fetched, Top8, TenBits, Word;
  }

  lemma Fetched0(lo: bv8, hi: bv8)
    ensures Fetched(lo, hi, 0) == Top8(TenBits(Word(lo, hi), 0))
  {
  }

  lemma Fetched1(lo: bv8, hi: bv8)
    ensures Fetched(lo, hi, 1) == Top8(TenBits(Word(lo, hi), 1))
  {
  }

  lemma Fetched2(lo: bv8, hi: bv8)
    ensures Fetched(lo, hi, 2) == Top8(TenBits(Word(lo, hi), 2))
  {
  }

  lemma Fetched3(lo: bv8, hi: bv8)
    ensures Fetched(lo, hi, 3) == Top8(TenBits(Word(lo, hi), 3))
  {
  }

  /** The value `fetch_data` returns. */
  function Sample(fmt: Format, line: seq<bv8>, num: nat): bv8
    requires fmt == Yuv420Sp10Bit ==> num * 10 / 8 + 1 < |line|
    requires fmt == Yuv420Sp ==> num < |line|
  {
    match fmt
    case Yuv420Sp10Bit => Fetched(line[num * 10 / 8], line[num * 10 / 8 + 1], num % 4)
    case Yuv420Sp => line[num]
    case OtherFormat => 0
  }

  /** The sampled value of a 10-bit pixel is that pixel shifted right by two. */
  lemma SampleIsPixel(line: seq<bv8>, j: nat)
    requires j * 10 / 8 + 1 < |line|
    ensures Sample(Yuv420Sp10Bit, line, j) == Top8(Pixel(line, j))
  {
    hide Fetched, Top8, TenBits, Word;
    FetchedIs(line[j * 10 / 8], line[j * 10 / 8 + 1], j % 4);
  }

  /** The loop over a line in the sampled dump: every step-th pixel of the line that the full dump
      would unpack, without its two low bits. */
  method SampleLine(dst: array<bv8>, line: seq<bv8>, imgW: nat, step: nat)
    requires imgW <= dst.Length && forall j | 0 <= j < imgW :: InLine(line, j * step)
    modifies dst
    ensures forall j | 0 <= j < imgW :: InLine(line, j * step) && dst[j] == Top8(Pixel(line, j * step))
    ensures forall j | imgW <= j < dst.Length :: dst[j] == old(dst[j])
  {
    hide Fetched, Pixel, Top8;
    for j := 0 to imgW
      invariant forall k | 0 <= k < j :: InLine(line, k * step) && dst[k] == Top8(Pixel(line, k * step))
      invariant forall k | imgW <= k < dst.Length :: dst[k] == old(dst[k])
    {
      assert InLine(line, j * step);
      SampleIsPixel(line, j * step);
      dst[j] := Sample(Yuv420Sp10Bit, line, j * step);
    }
  }

  /** Both bytes of pixel j lie in the line. */
  predicate InLine(line: seq<bv8>, j: nat) {
    j * 10 / 8 + 1 < |line|
  }
}
