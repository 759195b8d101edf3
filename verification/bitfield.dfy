/** Bytes and the read-modify-write bit-field codec used for every IMU
    configuration register (WriteIMURegBits). A field is named, as in the
    MPU-6050 register map, by its highest bit `start` and its width `len`:
    it occupies bits start-len+1 .. start of one byte. */
module BitField {

  type Byte = bv8

  const UInt32Modulus: int := 0x1_0000_0000

  /** An unsigned int of the 32-bit target. */
  type UInt32 = x: int | 0 <= x < UInt32Modulus

  /** Bit `i` (0 = least significant) of a byte. */
  predicate Bit(b: Byte, i: bv8)
    requires i < 8
  {
    (b >> i) & 1 == 1
  }

  /** Shifting a bit in below a byte's bits doubles its value and adds the bit. */
  lemma ShiftInBit(h: Byte, c: Byte)
    requires h as int < 128 && c as int < 2
    ensures ((h << 1) | c) as int == 2 * h as int + c as int
  {
  }

  /** A byte is determined by its value. */
  lemma SameValue(a: Byte, b: Byte)
    requires a as int == b as int
    ensures a == b
  {
  }

  /** The byte holding a number below 256, built from its binary digits. */
  function ToByte(x: int): (b: Byte)
    requires 0 <= x < 256
    ensures b as int == x
    decreases x
  {
    if x == 0 then 0
    else
      var h := ToByte(x / 2);
      var c: Byte := if x % 2 == 1 then 1 else 0;
      ShiftInBit(h, c);
      (h << 1) | c
  }

  /** A byte survives the trip through its value. */
  lemma ToByteOf(b: Byte)
    ensures ToByte(b as int) == b
  {
    SameValue(ToByte(b as int), b);
  }

  /** 2^n as an integer. */
  function Pow2(n: nat): (p: nat)
    ensures p >= 1
  {
    if n == 0 then 1 else 2 * Pow2(n - 1)
  }

  /** A field of `len` bits whose most significant bit is `start`. */
  datatype Field = Field(start: bv8, len: bv8) {

    /** The caller contract of WriteIMURegBits: the field lies inside one byte. */
    predicate Fits() {
      1 <= len && start <= 7 && len <= start + 1
    }

    /** The lowest bit of the field, start - len + 1. */
    function Lo(): (lo: bv8)
      requires Fits()
      ensures lo + len == start + 1
    {
      start + 1 - len
    }

    predicate Covers(i: bv8)
      requires Fits()
    {
      Lo() <= i <= start
    }
  }

  /** Two fields of the same byte that share no bit. */
  predicate Disjoint(f: Field, g: Field)
    requires f.Fits() && g.Fits()
  {
    f.start < g.Lo() || g.start < f.Lo()
  }

  /** The low `len` bits set: (1 << len) - 1. For len = 8 the shift gives 0
      and the subtraction wraps to 0xFF, as the truncation to uint8_t does in
      C. */
  function LowMask(len: bv8): (m: Byte)
    requires 1 <= len <= 8
  {
    (1 << len) - 1
  }

  /** ((1 << len) - 1) << (start - len + 1). The C code computes this in
      32-bit int and stores it into a uint8_t; for a field that fits, no bit
      above bit 7 is ever set, so 8 bits compute it exactly. */
  function Mask(f: Field): (m: Byte)
    requires f.Fits()
  {
    LowMask(f.len) << f.Lo()
  }

  /** The field mask has exactly the bits of the field set. */
  lemma MaskBits(f: Field)
    requires f.Fits()
    ensures forall i: bv8 :: i < 8 ==> (Bit(Mask(f), i) <==> f.Covers(i))
  {
  }

  /** Shifting the field mask back down to bit 0 loses no bit: no bit of
      the low mask is pushed out above bit 7. */
  lemma MaskIsShiftedLowMask(f: Field)
    requires f.Fits()
    ensures (LowMask(f.len) << f.Lo()) >> f.Lo() == LowMask(f.len)
  {
  }

  /** The merge step of a read-modify-write, on an arbitrary mask: the bits
      outside the mask keep their value. */
  lemma MergeKeepsOutside(reg: Byte, m: Byte, s: Byte)
    ensures ((reg & !m) | (s & m)) & !m == reg & !m
  {
  }

  /** ... and reading the masked bits back and shifting them down recovers the
      shifted-in data, cut to the mask's width. */
  lemma MergeThenExtract(reg: Byte, lm: Byte, lo: bv8, data: Byte)
    requires lo < 8 && (lm << lo) >> lo == lm
    ensures (((reg & !(lm << lo)) | ((data << lo) & (lm << lo))) & (lm << lo)) >> lo == data & lm
  {
  }

  /** WriteIMURegBits applied to the byte `reg` read back from the device:
      shift the data into place (truncating to 8 bits), keep only the masked
      bits of it, clear the masked bits of the register and merge. Every bit
      outside the field keeps its value, and the field holds the low `len`
      bits of `data`. */
  function WriteBits(reg: Byte, f: Field, data: Byte): (r: Byte)
    requires f.Fits()
    ensures r & !Mask(f) == reg & !Mask(f)
    ensures ReadBits(r, f) == data & LowMask(f.len)
  {
    var r := (reg & !Mask(f)) | ((data << f.Lo()) & Mask(f));
    MergeFacts(reg, f, data, r);
    r
  }

  lemma MergeFacts(reg: Byte, f: Field, data: Byte, r: Byte)
    requires f.Fits()
    requires r == (reg & !Mask(f)) | ((data << f.Lo()) & Mask(f))
    ensures r & !Mask(f) == reg & !Mask(f)
    ensures ReadBits(r, f) == data & LowMask(f.len)
  {
    var lm, lo := LowMask(f.len), f.Lo();
    MaskIsShiftedLowMask(f);
    MergeKeepsOutside(reg, lm << lo, data << lo);
    MergeThenExtract(reg, lm, lo, data);
  }

  /** The value currently held in field `f` of a byte: it never has a bit set
      above the field's width. */
  function ReadBits(reg: Byte, f: Field): (v: Byte)
    requires f.Fits()
    ensures v & LowMask(f.len) == v
  {
    MaskIsShiftedLowMask(f);
    ExtractFitsLowMask(reg, LowMask(f.len), f.Lo());
    (reg & Mask(f)) >> f.Lo()
  }

  lemma ExtractFitsLowMask(reg: Byte, lm: Byte, lo: bv8)
    requires lo < 8 && (lm << lo) >> lo == lm
    ensures ((reg & (lm << lo)) >> lo) & lm == (reg & (lm << lo)) >> lo
  {
  }

  /** Disjoint fields have no mask bit in common. */
  lemma DisjointMasks(f: Field, g: Field)
    requires f.Fits() && g.Fits() && Disjoint(f, g)
    ensures Mask(f) & Mask(g) == 0
  {
  }

  lemma MergeOverMerge(reg: Byte, m: Byte, lo: bv8, d1: Byte, d2: Byte)
    requires lo < 8
    ensures ((((reg & !m) | ((d1 << lo) & m)) & !m) | ((d2 << lo) & m)) == (reg & !m) | ((d2 << lo) & m)
  {
  }

  lemma MergesCommute(reg: Byte, mf: Byte, sf: Byte, mg: Byte, sg: Byte)
    requires mf & mg == 0
    ensures ((((reg & !mf) | (sf & mf)) & !mg) | (sg & mg)) == ((((reg & !mg) | (sg & mg)) & !mf) | (sf & mf))
  {
  }

  lemma MergeExtracted(reg: Byte, lm: Byte, lo: bv8)
    requires lo < 8 && (lm << lo) >> lo == lm
    ensures (reg & !(lm << lo)) | ((((reg & (lm << lo)) >> lo) << lo) & (lm << lo)) == reg
  {
  }

  /** The low-bit masks are one less than the powers of two they cut at. */
  lemma LowMaskPlusOne(len: bv8)
    requires 1 <= len <= 8
    ensures LowMask(len) as int + 1 == Pow2(len as int)
    ensures var p := Pow2(len as int);
      p == 2 || p == 4 || p == 8 || p == 16 || p == 32 || p == 64 || p == 128 || p == 256
  {
    if len == 1 { assert Pow2(1) == 2; }
    else if len == 2 { assert Pow2(2) == 4; }
    else if len == 3 { assert Pow2(3) == 8; }
    else if len == 4 { assert Pow2(4) == 16; }
    else if len == 5 { assert Pow2(5) == 32; }
    else if len == 6 { assert Pow2(6) == 64; }
    else if len == 7 { assert Pow2(7) == 128; }
    else { assert Pow2(8) == 256; }
  }

  lemma AndOneIsMod(x: Byte) ensures (x & 1) as int == x as int % 2 {}
  lemma AndThreeIsMod(x: Byte) ensures (x & 3) as int == x as int % 4 {}
  lemma AndSevenIsMod(x: Byte) ensures (x & 7) as int == x as int % 8 {}
  lemma And15IsMod(x: Byte) ensures (x & 15) as int == x as int % 16 {}
  lemma And31IsMod(x: Byte) ensures (x & 31) as int == x as int % 32 {}
  lemma And63IsMod(x: Byte) ensures (x & 63) as int == x as int % 64 {}
  lemma And127IsMod(x: Byte) ensures (x & 127) as int == x as int % 128 {}
  lemma And255IsMod(x: Byte) ensures (x & 255) as int == x as int % 256 {}

  lemma AndMaskIsMod(x: Byte, m: Byte, p: nat)
    requires m as int + 1 == p
    requires p == 2 || p == 4 || p == 8 || p == 16 || p == 32 || p == 64 || p == 128 || p == 256
    ensures (x & m) as int == x as int % p
  {
    if p == 2 { AndOneIsMod(x); }
    else if p == 4 { AndThreeIsMod(x); }
    else if p == 8 { AndSevenIsMod(x); }
    else if p == 16 { And15IsMod(x); }
    else if p == 32 { And31IsMod(x); }
    else if p == 64 { And63IsMod(x); }
    else if p == 128 { And127IsMod(x); }
    else { And255IsMod(x); }
  }

  /** Keeping the low `len` bits of a byte is reduction modulo 2^len. */
  lemma LowMaskIsMod(x: Byte, len: bv8)
    requires 1 <= len <= 8
    ensures (x & LowMask(len)) as int == x as int % Pow2(len as int)
  {
    LowMaskPlusOne(len);
    AndMaskIsMod(x, LowMask(len), Pow2(len as int));
  }

  /** The same, as arithmetic: the field ends up holding data mod 2^len. */
  lemma ReadAfterWriteIsMod(reg: Byte, f: Field, data: Byte)
    requires f.Fits()
    ensures ReadBits(WriteBits(reg, f, data), f) as int == data as int % Pow2(f.len as int)
  {
    LowMaskIsMod(data, f.len);
  }

  /** Writing back the value just read leaves the register unchanged. */
  lemma WriteWhatWasRead(reg: Byte, f: Field)
    requires f.Fits()
    ensures WriteBits(reg, f, ReadBits(reg, f)) == reg
  {
    var lm, lo := LowMask(f.len), f.Lo();
    MaskIsShiftedLowMask(f);
    MergeExtracted(reg, lm, lo);
  }

  /** A second write of the same field overrides the first. */
  lemma LastWriteWins(reg: Byte, f: Field, d1: Byte, d2: Byte)
    requires f.Fits()
    ensures WriteBits(WriteBits(reg, f, d1), f, d2) == WriteBits(reg, f, d2)
  {
    MergeOverMerge(reg, Mask(f), f.Lo(), d1, d2);
  }

  /** Writing the same field twice is the same as writing it once. */
  lemma WriteTwiceIsWriteOnce(reg: Byte, f: Field, data: Byte)
    requires f.Fits()
    ensures WriteBits(WriteBits(reg, f, data), f, data) == WriteBits(reg, f, data)
  {
    LastWriteWins(reg, f, data, data);
  }

  /** Writes to disjoint fields of one register commute. */
  lemma DisjointWritesCommute(reg: Byte, f: Field, d: Byte, g: Field, e: Byte)
    requires f.Fits() && g.Fits() && Disjoint(f, g)
    ensures WriteBits(WriteBits(reg, f, d), g, e) == WriteBits(WriteBits(reg, g, e), f, d)
  {
    DisjointMasks(f, g);
    MergesCommute(reg, Mask(f), d << f.Lo(), Mask(g), e << g.Lo());
  }

  /** A write leaves the value of every disjoint field as it was. */
  lemma WritePreservesDisjointField(reg: Byte, f: Field, d: Byte, g: Field)
    requires f.Fits() && g.Fits() && Disjoint(f, g)
    ensures ReadBits(WriteBits(reg, f, d), g) == ReadBits(reg, g)
  {
    DisjointMasks(f, g);
    MergeKeepsDisjoint(reg, Mask(f), d << f.Lo(), Mask(g), g.Lo());
  }

  /** A merge under one mask leaves the bits under a disjoint mask, and so
      their value shifted down, as they were. */
  lemma MergeKeepsDisjoint(reg: Byte, mf: Byte, sf: Byte, mg: Byte, lo: bv8)
    requires mf & mg == 0 && lo < 8
    ensures (((reg & !mf) | (sf & mf)) & mg) >> lo == (reg & mg) >> lo
  {
  }
}
