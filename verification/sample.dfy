/** Assembly of a signed 16-bit sensor sample from its high and low register
    bytes, as GetIMUAccel, GetIMUGyro and GetIMUTemp do with
    `int16_t v = h << 8 | l;` on a 32-bit ARM target: the byte operands are
    promoted to a 32-bit int, combined, and the value is narrowed to int16_t
    by keeping its low 16 bits (two's complement wrap). */
module Sample {
  import opened BitField

  const Int16Min: int := -0x8000
  const Int16Max: int := 0x7FFF

  predicate IsInt16(v: int) {
    Int16Min <= v <= Int16Max
  }

  /** Narrowing an int to int16_t: the value congruent to it modulo 2^16 that
      lies in the int16_t range. */
  function WrapInt16(x: int): (v: int)
    ensures IsInt16(v)
    ensures v % 0x1_0000 == x % 0x1_0000
    ensures 0 <= x < 0x1_0000 ==> (v < 0 <==> x >= 0x8000)
  {
    var low := x % 0x1_0000;
    if low < 0x8000 then low else low - 0x1_0000
  }

  /** `h << 8 | l`. The C code computes it in 32-bit int, but no bit above
      bit 15 can be set, so 16 bits hold it exactly. */
  function Combine(h: Byte, l: Byte): (w: bv16)
  {
    (h as bv16 << 8) | l as bv16
  }

  /** The combined word is the byte pair read as a base-256 numeral, and its
      top bit is the top bit of the high byte. */
  lemma CombineValue(h: Byte, l: Byte)
    ensures Combine(h, l) as int == h as int * 256 + l as int
    ensures Combine(h, l) as int >= 0x8000 <==> Bit(h, 7)
  {
    ShiftOrIsMulAdd(h, l);
    TopBit(h);
  }

  lemma ShiftOrIsMulAdd(h: Byte, l: Byte)
    ensures ((h as bv16 << 8) | l as bv16) as int == h as int * 256 + l as int
  {
  }

  /** Bit 7 of a byte is set exactly when the byte is at least 128. */
  lemma TopBit(h: Byte)
    ensures Bit(h, 7) <==> h as int >= 0x80
  {
  }

  /** The int16_t sample held by high byte `h` and low byte `l`. */
  function Int16Of(h: Byte, l: Byte): (v: int)
    ensures IsInt16(v)
    ensures v % 0x1_0000 == h as int * 256 + l as int
    ensures v < 0 <==> Bit(h, 7)
  {
    CombineValue(h, l);
    WrapInt16(Combine(h, l) as int)
  }

  /** The high and low bytes of a 16-bit two's complement value: the partner
      of Int16Of. */
  function Int16Bytes(v: int): (hl: (Byte, Byte))
    requires IsInt16(v)
    ensures hl.0 as int * 256 + hl.1 as int == v % 0x1_0000
  {
    var u := v % 0x1_0000;
    var hi := u / 256;
    var lo := u % 256;
    (ToByte(hi), ToByte(lo))
  }

  /** Splitting a sample into bytes and reassembling it gives it back. */
  lemma AssembleSplit(v: int)
    requires IsInt16(v)
    ensures Int16Of(Int16Bytes(v).0, Int16Bytes(v).1) == v
  {
    var hl := Int16Bytes(v);
    SameResidue(Int16Of(hl.0, hl.1), v);
  }

  /** Two int16 values congruent modulo 2^16 are equal. */
  lemma SameResidue(a: int, b: int)
    requires IsInt16(a) && IsInt16(b) && a % 0x1_0000 == b % 0x1_0000
    ensures a == b
  {
  }

  /** Reassembling a pair of bytes and splitting the sample gives them back. */
  lemma SplitAssemble(h: Byte, l: Byte)
    ensures Int16Bytes(Int16Of(h, l)) == (h, l)
  {
    var u := Int16Of(h, l) % 0x1_0000;
    assert u == h as int * 256 + l as int;
    DivMod256(h as int, l as int);
    ToByteOf(h);
    ToByteOf(l);
  }

  lemma DivMod256(h: int, l: int)
    requires 0 <= l < 256
    ensures (h * 256 + l) / 256 == h && (h * 256 + l) % 256 == l
  {
  }

  /** Distinct byte pairs give distinct samples. */
  lemma Int16OfInjective(h: Byte, l: Byte, h': Byte, l': Byte)
    requires Int16Of(h, l) == Int16Of(h', l')
    ensures h == h' && l == l'
  {
    SplitAssemble(h, l);
    SplitAssemble(h', l');
  }
}
