/** The MPU-6050 register file and the header constants the driver uses
    (register addresses, bit-field positions and the enumerated range and
    filter codes). The header that defines them, am982lorav1.h, is not part
    of this model: its values are a parameter, constrained only by what the
    driver relies on. */
module Mpu6050 {
  import opened BitField

  /** A register address, the uint8_t the driver sends on the bus. */
  type Addr = a: int | 0 <= a < 256

  /** The device's 256 one-byte registers, indexed by register address. */
  type RegFile = s: seq<Byte> | |s| == 256 witness seq(256, _ => 0)

  function Read(rf: RegFile, addr: Addr): Byte {
    rf[addr]
  }

  /** WriteIMUReg: replace one whole register. */
  function Write(rf: RegFile, addr: Addr, v: Byte): (r: RegFile)
    ensures Read(r, addr) == v
    ensures forall a: Addr :: a != addr ==> Read(r, a) == Read(rf, a)
  {
    rf[addr := v]
  }

  /** WriteIMURegBits: read the register, replace field `f` with `data`, and
      write it back. */
  function WriteField(rf: RegFile, addr: Addr, f: Field, data: Byte): (r: RegFile)
    requires f.Fits()
    ensures ReadBits(Read(r, addr), f) == data & LowMask(f.len)
    ensures forall a: Addr :: a != addr ==> Read(r, a) == Read(rf, a)
    ensures forall g: Field :: g.Fits() && Disjoint(f, g) ==> ReadBits(Read(r, addr), g) == ReadBits(Read(rf, addr), g)
  {
    forall g: Field | g.Fits() && Disjoint(f, g)
      ensures ReadBits(WriteBits(Read(rf, addr), f, data), g) == ReadBits(Read(rf, addr), g)
    {
      WritePreservesDisjointField(Read(rf, addr), f, data, g);
    }
    Write(rf, addr, WriteBits(Read(rf, addr), f, data))
  }

  function ReadField(rf: RegFile, addr: Addr, f: Field): Byte
    requires f.Fits()
  {
    ReadBits(Read(rf, addr), f)
  }

  /** The high and low output register addresses of a three-axis sensor. */
  datatype AxisRegs = AxisRegs(xh: Addr, xl: Addr, yh: Addr, yl: Addr, zh: Addr, zl: Addr)

  /** MPU6050_RA_* register addresses and the MPU6050_*_BIT / _LENGTH field
      positions. */
  datatype RegisterMap = RegisterMap(
    pwrMgmt1: Addr, clksel: Field, sleepBit: bv8,
    accelConfig: Addr, afsSel: Field,
    gyroConfig: Addr, fsSel: Field,
    config: Addr, dlpfCfg: Field,
    smplrtDiv: Addr,
    accelOut: AxisRegs, gyroOut: AxisRegs, tempOutH: Addr, tempOutL: Addr)
  {
    /** The one-bit SLEEP field of PWR_MGMT_1. */
    function Sleep(): Field {
      Field(sleepBit, 1)
    }
  }

  /** MPU6050_ACCEL_FS_2 .. MPU6050_ACCEL_FS_16 (full scale +-2 g .. +-16 g). */
  datatype AccelCodes = AccelCodes(fs2: Byte, fs4: Byte, fs8: Byte, fs16: Byte)

  /** MPU6050_GYRO_FS_250 .. MPU6050_GYRO_FS_2000 (+-250 .. +-2000 deg/s). */
  datatype GyroCodes = GyroCodes(fs250: Byte, fs500: Byte, fs1000: Byte, fs2000: Byte)

  /** MPU6050_DLPF_BW_256 .. MPU6050_DLPF_BW_5 (bandwidth in Hz). */
  datatype DlpfCodes = DlpfCodes(bw256: Byte, bw188: Byte, bw98: Byte, bw42: Byte, bw20: Byte, bw10: Byte, bw5: Byte)

  datatype Header = Header(regs: RegisterMap, accel: AccelCodes, gyro: GyroCodes, dlpf: DlpfCodes)

  predicate AccelDistinct(c: AccelCodes) {
    c.fs2 != c.fs4 && c.fs2 != c.fs8 && c.fs2 != c.fs16 &&
    c.fs4 != c.fs8 && c.fs4 != c.fs16 && c.fs8 != c.fs16
  }

  predicate GyroDistinct(c: GyroCodes) {
    c.fs250 != c.fs500 && c.fs250 != c.fs1000 && c.fs250 != c.fs2000 &&
    c.fs500 != c.fs1000 && c.fs500 != c.fs2000 && c.fs1000 != c.fs2000
  }

  predicate DlpfDistinct(c: DlpfCodes) {
    var s := [c.bw256, c.bw188, c.bw98, c.bw42, c.bw20, c.bw10, c.bw5];
    forall i, j :: 0 <= i < j < |s| ==> s[i] != s[j]
  }

  /** A code that a field of `f`'s width holds without truncation. */
  predicate FitsField(code: Byte, f: Field)
    requires f.Fits()
  {
    code & LowMask(f.len) == code
  }

  /** What the driver relies on: every field lies inside one byte, the clock
      and sleep fields of PWR_MGMT_1 do not overlap, the five configuration
      registers are distinct, the labels of each switch are distinct (C
      requires it), and every accelerometer and gyroscope range code fits in
      the field it is written to. */
  predicate WellFormed(h: Header) {
    var m := h.regs;
    && m.clksel.Fits() && m.Sleep().Fits() && m.afsSel.Fits() && m.fsSel.Fits() && m.dlpfCfg.Fits()
    && Disjoint(m.clksel, m.Sleep())
    && m.pwrMgmt1 != m.accelConfig && m.pwrMgmt1 != m.gyroConfig && m.pwrMgmt1 != m.config
    && m.pwrMgmt1 != m.smplrtDiv && m.accelConfig != m.gyroConfig && m.accelConfig != m.config
    && m.accelConfig != m.smplrtDiv && m.gyroConfig != m.config && m.gyroConfig != m.smplrtDiv
    && m.config != m.smplrtDiv
    && AccelDistinct(h.accel) && GyroDistinct(h.gyro) && DlpfDistinct(h.dlpf)
    && FitsField(h.accel.fs2, m.afsSel) && FitsField(h.accel.fs4, m.afsSel)
    && FitsField(h.accel.fs8, m.afsSel) && FitsField(h.accel.fs16, m.afsSel)
    && FitsField(h.gyro.fs250, m.fsSel) && FitsField(h.gyro.fs500, m.fsSel)
    && FitsField(h.gyro.fs1000, m.fsSel) && FitsField(h.gyro.fs2000, m.fsSel)
  }

  /** The values of the InvenSense MPU-6000/6050 register map: they meet
      every assumption above, so the assumptions are consistent. */
  function RegisterMapValues(): (h: Header)
    ensures WellFormed(h)
  {
    Header(
      RegisterMap(
        0x6B, Field(2, 3), 6,
        0x1C, Field(4, 2),
        0x1B, Field(4, 2),
        0x1A, Field(2, 3),
        0x19,
        AxisRegs(0x3B, 0x3C, 0x3D, 0x3E, 0x3F, 0x40),
        AxisRegs(0x43, 0x44, 0x45, 0x46, 0x47, 0x48),
        0x41, 0x42),
      AccelCodes(0, 1, 2, 3),
      GyroCodes(0, 1, 2, 3),
      DlpfCodes(0, 1, 2, 3, 4, 5, 6))
  }
}
