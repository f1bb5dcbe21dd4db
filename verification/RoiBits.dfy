/**
 The bit packer under the CTU records of utils/mpp_enc_roi_utils.c: 16 words of 32 bits per
 record, fields of one or two bits OR-ed in at computed positions.
 */
module RoiBits {

  const RECORD_BITS: nat := 512
  const RECORD_WORDS: nat := 16

  /** `1 << b`. */
  function Bit(b: nat): bv32
    requires b < 32
  {
    1 << b
  }

  function Or(w: bv32, v: bv32): bv32 {
    w | v
  }

  function And(w: bv32, v: bv32): bv32 {
    w & v
  }

  predicate Hits(w: bv32, mask: bv32) {
    And(w, mask) != 0
  }

  /** Bit b of a word. */
  predicate Test(w: bv32, b: nat)
    requires b < 32
  {
    Hits(w, Bit(b))
  }

  lemma OrDistributes(w: bv32, v: bv32, m: bv32)
    ensures And(Or(w, v), m) == Or(And(w, m), And(v, m))
  {
  }

  lemma OrZero(x: bv32, y: bv32)
    ensures Or(x, y) == 0 <==> x == 0 && y == 0
  {
  }

  lemma OrMask(w: bv32, v: bv32, m: bv32)
    ensures Hits(Or(w, v), m) <==> Hits(w, m) || Hits(v, m)
  {
    OrDistributes(w, v, m);
    OrZero(And(w, m), And(v, m));
    hide And, Or;
  }

  lemma TestOr(w: bv32, v: bv32, b: nat)
    requires b < 32
    ensures Test(Or(w, v), b) == (Test(w, b) || Test(v, b))
  {
    OrMask(w, v, Bit(b));
    hide Bit, Or, Hits;
  }

  lemma TestZero(b: nat)
    requires b < 32
    ensures !Test(0, b)
  {
  }

  /** `value << bits`. */
  function Shifted(value: bv32, b: nat): bv32
    requires b < 32
  {
    value << b
  }

  lemma TestShifted(value: bv32, b: nat, k: nat)
    requires b < 32 && k < 32 && value <= 1
    ensures Test(Shifted(value, b), k) <==> value == 1 && k == b
  {
    TestShifted0(b, k);
    TestShifted1(b, k);
    ZeroOrOne(value);
    hide Test, Shifted;
  }

  lemma ZeroOrOne(value: bv32)
    requires value <= 1
    ensures value == 0 || value == 1
  {
  }

  lemma TestShifted0(b: nat, k: nat)
    requires b < 32 && k < 32
    ensures !Test(Shifted(0, b), k)
  {
  }

  lemma TestShifted1(b: nat, k: nat)
    requires b < 32 && k < 32
    ensures Test(Shifted(1, b), k) <==> k == b
  {
    hide Test, Shifted;
    if b < 16 {
      if b < 8 {
        TestShifted1To8(b, k);
      } else {
        TestShifted1To16(b, k);
      }
    } else if b < 24 {
      TestShifted1To24(b, k);
    } else {
      TestShifted1To32(b, k);
    }
  }

  lemma TestShifted1To8(b: nat, k: nat)
    requires 0 <= b < 8 && k < 32
    ensures Test(Shifted(1, b), k) <==> k == b
  {
    if b == 0 {} else if b == 1 {} else if b == 2 {} else if b == 3 {} else if b == 4 {} else if b == 5 {} else if b == 6 {} else {}
  }

  lemma TestShifted1To16(b: nat, k: nat)
    requires 8 <= b < 16 && k < 32
    ensures Test(Shifted(1, b), k) <==> k == b
  {
    if b == 8 {} else if b == 9 {} else if b == 10 {} else if b == 11 {} else if b == 12 {} else if b == 13 {} else if b == 14 {} else {}
  }

  lemma TestShifted1To24(b: nat, k: nat)
    requires 16 <= b < 24 && k < 32
    ensures Test(Shifted(1, b), k) <==> k == b
  {
    if b == 16 {} else if b == 17 {} else if b == 18 {} else if b == 19 {} else if b == 20 {} else if b == 21 {} else if b == 22 {} else {}
  }

  lemma TestShifted1To32(b: nat, k: nat)
    requires 24 <= b < 32 && k < 32
    ensures Test(Shifted(1, b), k) <==> k == b
  {
    if b == 24 {} else if b == 25 {} else if b == 26 {} else if b == 27 {} else if b == 28 {} else if b == 29 {} else if b == 30 {} else {}
  }

  // ---- Records

  /** The set bits of the record that starts at word `base`. */
  ghost function OnesIn(words: seq<bv32>, base: nat): set<nat>
    requires base + RECORD_WORDS <= |words|
  {
    set p: nat | p < RECORD_BITS && Test(words[base + p / 32], p % 32)
  }

  ghost function Ones(buf: array<bv32>, base: nat): set<nat>
    requires base + RECORD_WORDS <= buf.Length
    reads buf
  {
    OnesIn(buf[..], base)
  }

  function Flag(b: bool): bv32 {
    if b then 1 else 0
  }

  function Pos(pos: nat, b: bool): set<nat> {
    if b then {pos} else {}
  }

  lemma WordOr(w: bv32, value: bv32, pos: nat, p: nat)
    requires value <= 1
    ensures Test(Or(w, Shifted(value, pos % 32)), p % 32) == (Test(w, p % 32) || (value == 1 && p % 32 == pos % 32))
  {
    TestOr(w, Shifted(value, pos % 32), p % 32);
    TestShifted(value, pos % 32, p % 32);
    hide Test, Or, Shifted;
  }

  lemma FlagBound(b: bool)
    ensures Flag(b) <= 1 && (Flag(b) == 1 <==> b)
  {
  }

  lemma SameBit(p: nat, pos: nat)
    ensures p / 32 == pos / 32 && p % 32 == pos % 32 <==> p == pos
  {
  }

  /** `set_roi_pos_val`: the value shifted to its place is OR-ed into one word and no other word
      changes; the values 0 and 1 set exactly that bit, or nothing, and disturb no other bit. */
  method SetRoiPosVal(buf: array<bv32>, base: nat, pos: nat, value: bv32)
    requires base + RECORD_WORDS <= buf.Length && pos < RECORD_BITS
    modifies buf
    ensures buf[base + pos / 32] == Or(old(buf[base + pos / 32]), Shifted(value, pos % 32))
    ensures forall k | 0 <= k < buf.Length && k != base + pos / 32 :: buf[k] == old(buf[k])
    ensures value <= 1 ==> Ones(buf, base) == old(Ones(buf, base)) + Pos(pos, value == 1)
  {
    hide Test, Or, Shifted, Flag;
    var index, bits := pos / 32, pos % 32;
    ghost var was := buf[base + index];
    buf[base + index] := Or(buf[base + index], Shifted(value, bits));
    if value <= 1 {
      forall p: nat | p < RECORD_BITS
        ensures p in Ones(buf, base) <==> p in old(Ones(buf, base)) || p in Pos(pos, value == 1)
      {
        WordOr(was, value, pos, p);
        SameBit(p, pos);
      }
    }
  }

  lemma ZeroRecord(words: seq<bv32>, base: nat)
    requires base + RECORD_WORDS <= |words|
    requires forall k | base <= k < base + RECORD_WORDS :: words[k] == 0
    ensures OnesIn(words, base) == {}
  {
    hide Test;
    forall p: nat | p < RECORD_BITS
      ensures p !in OnesIn(words, base)
    {
      TestZero(p % 32);
    }
  }

  /** Records with the same words have the same bits. */
  lemma SameRecord(words: seq<bv32>, words': seq<bv32>, base: nat)
    requires base + RECORD_WORDS <= |words| == |words'|
    requires forall k | base <= k < base + RECORD_WORDS :: words[k] == words'[k]
    ensures OnesIn(words, base) == OnesIn(words', base)
  {
    hide Test;
  }
}
