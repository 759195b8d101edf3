/** The IMU half of the driver: InitIMU, SetIMUDigitalLowPassFilter,
    SetIMUSampleRate and the raw sample reads of GetIMUAccel, GetIMUGyro and
    GetIMUTemp, over the driver's globals and the device's register file. */
module Imu {
  import opened BitField
  import opened Mpu6050
  import opened Sample
  import opened Arith

  /** The IMU globals of the driver next to the device's registers.
      imuAccelSensitivity holds whole LSB per g; imuGyroSensitivity holds LSB
      per deg/s with one decimal, kept here in tenths; imuGyroFs is the gyroscope
      output rate in Hz that the sample-rate divider is computed from. */
  datatype ImuState = ImuState(regs: RegFile, accelSensitivity: nat, gyroSensitivityTenths: nat, gyroOutputRate: nat)

  /** The initial values of the globals: no sensitivity recorded yet, and
      the 1 kHz output rate, so the rate invariant every call keeps holds from
      power-up. */
  function Boot(regs: RegFile): (st: ImuState)
    ensures st.regs == regs && RateKnown(st) && st.gyroOutputRate == 1000
    ensures st.accelSensitivity == 0 && st.gyroSensitivityTenths == 0
  {
    ImuState(regs, 0, 0, 1000)
  }

  /** The range code InitIMU writes and the sensitivity it records. */
  datatype RangeSetting = RangeSetting(code: Byte, sensitivity: nat)

  predicate IsAccelCode(c: AccelCodes, x: Byte) {
    x == c.fs2 || x == c.fs4 || x == c.fs8 || x == c.fs16
  }

  /** The full-scale range, in g, that an accelerometer code selects. */
  function AccelFullScale(c: AccelCodes, x: Byte): nat
    requires IsAccelCode(c, x)
  {
    if x == c.fs2 then 2 else if x == c.fs4 then 4 else if x == c.fs8 then 8 else 16
  }

  predicate IsGyroCode(c: GyroCodes, x: Byte) {
    x == c.fs250 || x == c.fs500 || x == c.fs1000 || x == c.fs2000
  }

  /** The full-scale range, in deg/s, that a gyroscope code selects. */
  function GyroFullScale(c: GyroCodes, x: Byte): nat
    requires IsGyroCode(c, x)
  {
    if x == c.fs250 then 250 else if x == c.fs500 then 500 else if x == c.fs1000 then 1000 else 2000
  }

  /** The accelerometer switch of InitIMU: a known code is kept, anything
      else falls back to +-16 g; the sensitivity is exactly the 2^15 counts of
      a half-range over the full scale. */
  function AccelSetting(c: AccelCodes, range: Byte): (s: RangeSetting)
    requires AccelDistinct(c)
    ensures IsAccelCode(c, s.code)
    ensures IsAccelCode(c, range) ==> s.code == range
    ensures !IsAccelCode(c, range) ==> s.code == c.fs16
    ensures s.sensitivity * AccelFullScale(c, s.code) == 32768
  {
    if range == c.fs2 then RangeSetting(range, 16384)
    else if range == c.fs4 then RangeSetting(range, 8192)
    else if range == c.fs8 then RangeSetting(range, 4096)
    else if range == c.fs16 then RangeSetting(range, 2048)
    else RangeSetting(c.fs16, 2048)
  }

  /** `tenths` is within one tenth of 2^15 / dps. */
  predicate GyroSensitivityClose(tenths: nat, dps: nat) {
    tenths * dps < 327680 + dps && 327680 < tenths * dps + dps
  }

  /** The gyroscope switch of InitIMU: a known code is kept, anything else
      falls back to +-2000 deg/s; the sensitivity, in tenths of LSB per deg/s,
      is within one tenth of 2^15 counts over the full scale. */
  function GyroSetting(c: GyroCodes, range: Byte): (s: RangeSetting)
    requires GyroDistinct(c)
    ensures IsGyroCode(c, s.code)
    ensures IsGyroCode(c, range) ==> s.code == range
    ensures !IsGyroCode(c, range) ==> s.code == c.fs2000
    ensures GyroSensitivityClose(s.sensitivity, GyroFullScale(c, s.code))
  {
    if range == c.fs250 then RangeSetting(range, 1310)
    else if range == c.fs500 then RangeSetting(range, 655)
    else if range == c.fs1000 then RangeSetting(range, 328)
    else if range == c.fs2000 then RangeSetting(range, 164)
    else RangeSetting(c.fs2000, 164)
  }

  /** The table entries themselves: 131.0, 65.5, 32.8 and 16.4 LSB per deg/s,
      the datasheet's table values, which InitIMU records. */
  lemma GyroSensitivityValues(c: GyroCodes, range: Byte)
    requires GyroDistinct(c)
    ensures var s := GyroSetting(c, range);
      match GyroFullScale(c, s.code)
      case 250 => s.sensitivity == 1310
      case 500 => s.sensitivity == 655
      case 1000 => s.sensitivity == 328
      case _ => s.sensitivity == 164
  {
  }

  /** The register file after each of InitIMU's four read-modify-writes:
      clock source, accelerometer range, gyroscope range, and last the sleep
      bit. The device keeps the sleep state it had until the final write,
      which clears it. */
  function InitSteps(h: Header, rf: RegFile, clk: Byte, accelRange: Byte, gyroRange: Byte): (rs: seq<RegFile>)
    requires WellFormed(h)
    ensures |rs| == 5 && rs[0] == rf
    ensures forall i :: 0 <= i < 4 ==>
      ReadField(rs[i], h.regs.pwrMgmt1, h.regs.Sleep()) == ReadField(rf, h.regs.pwrMgmt1, h.regs.Sleep())
    ensures ReadField(rs[4], h.regs.pwrMgmt1, h.regs.Sleep()) == 0
  {
    var m := h.regs;
    var r1 := WriteField(rf, m.pwrMgmt1, m.clksel, clk);
    var r2 := WriteField(r1, m.accelConfig, m.afsSel, AccelSetting(h.accel, accelRange).code);
    var r3 := WriteField(r2, m.gyroConfig, m.fsSel, GyroSetting(h.gyro, gyroRange).code);
    var r4 := WriteField(r3, m.pwrMgmt1, m.Sleep(), 0);
    [rf, r1, r2, r3, r4]
  }

  /** The clock source written first survives the later writes. */
  lemma InitClockField(h: Header, rf: RegFile, clk: Byte, accelRange: Byte, gyroRange: Byte)
    requires WellFormed(h)
    ensures ReadField(InitSteps(h, rf, clk, accelRange, gyroRange)[4], h.regs.pwrMgmt1, h.regs.clksel)
      == clk & LowMask(h.regs.clksel.len)
  {
  }

  /** The accelerometer range field holds the code its switch chose. */
  lemma InitAccelField(h: Header, rf: RegFile, clk: Byte, accelRange: Byte, gyroRange: Byte)
    requires WellFormed(h)
    ensures ReadField(InitSteps(h, rf, clk, accelRange, gyroRange)[4], h.regs.accelConfig, h.regs.afsSel)
      == AccelSetting(h.accel, accelRange).code
  {
  }

  /** The gyroscope range field holds the code its switch chose. */
  lemma InitGyroField(h: Header, rf: RegFile, clk: Byte, accelRange: Byte, gyroRange: Byte)
    requires WellFormed(h)
    ensures ReadField(InitSteps(h, rf, clk, accelRange, gyroRange)[4], h.regs.gyroConfig, h.regs.fsSel)
      == GyroSetting(h.gyro, gyroRange).code
  {
  }

  /** Registers other than the three written keep their value. */
  lemma InitOtherRegisters(h: Header, rf: RegFile, clk: Byte, accelRange: Byte, gyroRange: Byte)
    requires WellFormed(h)
    ensures forall a: Addr :: a != h.regs.pwrMgmt1 && a != h.regs.accelConfig && a != h.regs.gyroConfig ==>
      Read(InitSteps(h, rf, clk, accelRange, gyroRange)[4], a) == Read(rf, a)
  {
  }

  /** In the three registers written, every bit outside the written fields
      keeps its value, each write being a read-modify-write of one field:
      PWR_MGMT_1 outside the clock and sleep fields, ... */
  lemma InitPowerBits(h: Header, rf: RegFile, clk: Byte, accelRange: Byte, gyroRange: Byte)
    requires WellFormed(h)
    ensures var r := InitSteps(h, rf, clk, accelRange, gyroRange)[4];
      forall f: Field :: f.Fits() && Disjoint(h.regs.clksel, f) && Disjoint(h.regs.Sleep(), f) ==>
        ReadField(r, h.regs.pwrMgmt1, f) == ReadField(rf, h.regs.pwrMgmt1, f)
  {
  }

  /** ... ACCEL_CONFIG outside the range field ... */
  lemma InitAccelBits(h: Header, rf: RegFile, clk: Byte, accelRange: Byte, gyroRange: Byte)
    requires WellFormed(h)
    ensures var r := InitSteps(h, rf, clk, accelRange, gyroRange)[4];
      forall f: Field :: f.Fits() && Disjoint(h.regs.afsSel, f) ==>
        ReadField(r, h.regs.accelConfig, f) == ReadField(rf, h.regs.accelConfig, f)
  {
  }

  /** ... and GYRO_CONFIG outside the range field. */
  lemma InitGyroBits(h: Header, rf: RegFile, clk: Byte, accelRange: Byte, gyroRange: Byte)
    requires WellFormed(h)
    ensures var r := InitSteps(h, rf, clk, accelRange, gyroRange)[4];
      forall f: Field :: f.Fits() && Disjoint(h.regs.fsSel, f) ==>
        ReadField(r, h.regs.gyroConfig, f) == ReadField(rf, h.regs.gyroConfig, f)
  {
  }

  /** The recorded sensitivities agree with the range codes in the
      configuration registers. */
  predicate SensitivityMatchesRegisters(h: Header, st: ImuState)
    requires WellFormed(h)
  {
    var a := ReadField(st.regs, h.regs.accelConfig, h.regs.afsSel);
    var g := ReadField(st.regs, h.regs.gyroConfig, h.regs.fsSel);
    && IsAccelCode(h.accel, a) && st.accelSensitivity * AccelFullScale(h.accel, a) == 32768
    && IsGyroCode(h.gyro, g) && GyroSensitivityClose(st.gyroSensitivityTenths, GyroFullScale(h.gyro, g))
  }

  /** InitIMU: the clock field holds the clock source cut to the field's width
      (it is not checked against the known sources), each range field holds
      the requested code or its fallback, the device is awake, the recorded
      sensitivities match the ranges, and nothing else changes: neither the
      other registers nor the bits of the three written registers outside
      their fields. */
  function InitIMU(h: Header, st: ImuState, clk: Byte, accelRange: Byte, gyroRange: Byte): (r: ImuState)
    requires WellFormed(h)
    ensures ReadField(r.regs, h.regs.pwrMgmt1, h.regs.clksel) == clk & LowMask(h.regs.clksel.len)
    ensures ReadField(r.regs, h.regs.pwrMgmt1, h.regs.Sleep()) == 0
    ensures var a := ReadField(r.regs, h.regs.accelConfig, h.regs.afsSel);
      (IsAccelCode(h.accel, accelRange) ==> a == accelRange) && (!IsAccelCode(h.accel, accelRange) ==> a == h.accel.fs16)
    ensures var g := ReadField(r.regs, h.regs.gyroConfig, h.regs.fsSel);
      (IsGyroCode(h.gyro, gyroRange) ==> g == gyroRange) && (!IsGyroCode(h.gyro, gyroRange) ==> g == h.gyro.fs2000)
    ensures SensitivityMatchesRegisters(h, r)
    ensures r.accelSensitivity == AccelSetting(h.accel, accelRange).sensitivity
    ensures r.gyroSensitivityTenths == GyroSetting(h.gyro, gyroRange).sensitivity
    ensures forall a: Addr :: a != h.regs.pwrMgmt1 && a != h.regs.accelConfig && a != h.regs.gyroConfig ==>
      Read(r.regs, a) == Read(st.regs, a)
    ensures forall f: Field :: f.Fits() && Disjoint(h.regs.clksel, f) && Disjoint(h.regs.Sleep(), f) ==>
      ReadField(r.regs, h.regs.pwrMgmt1, f) == ReadField(st.regs, h.regs.pwrMgmt1, f)
    ensures forall f: Field :: f.Fits() && Disjoint(h.regs.afsSel, f) ==>
      ReadField(r.regs, h.regs.accelConfig, f) == ReadField(st.regs, h.regs.accelConfig, f)
    ensures forall f: Field :: f.Fits() && Disjoint(h.regs.fsSel, f) ==>
      ReadField(r.regs, h.regs.gyroConfig, f) == ReadField(st.regs, h.regs.gyroConfig, f)
    ensures r.gyroOutputRate == st.gyroOutputRate
  {
    var rs := InitSteps(h, st.regs, clk, accelRange, gyroRange);
    InitClockField(h, st.regs, clk, accelRange, gyroRange);
    InitAccelField(h, st.regs, clk, accelRange, gyroRange);
    InitGyroField(h, st.regs, clk, accelRange, gyroRange);
    InitOtherRegisters(h, st.regs, clk, accelRange, gyroRange);
    InitPowerBits(h, st.regs, clk, accelRange, gyroRange);
    InitAccelBits(h, st.regs, clk, accelRange, gyroRange);
    InitGyroBits(h, st.regs, clk, accelRange, gyroRange);
    ImuState(rs[4], AccelSetting(h.accel, accelRange).sensitivity, GyroSetting(h.gyro, gyroRange).sensitivity, st.gyroOutputRate)
  }

  /** The six codes that select a filter bandwidth below 256 Hz. */
  predicate IsFilterCode(c: DlpfCodes, bw: Byte) {
    bw == c.bw5 || bw == c.bw10 || bw == c.bw20 || bw == c.bw42 || bw == c.bw98 || bw == c.bw188
  }

  /** SetIMUDigitalLowPassFilter: the raw bandwidth code, cut to the field's
      width, is written whatever it is, and the rest of CONFIG is kept; the recorded gyroscope output rate
      becomes 8 kHz for the 256 Hz code and for any unknown code, and is left
      as it was for the six filtering codes (it is never set back to 1 kHz). */
  function SetDlpf(h: Header, st: ImuState, bw: Byte): (r: ImuState)
    requires WellFormed(h)
    ensures ReadField(r.regs, h.regs.config, h.regs.dlpfCfg) == bw & LowMask(h.regs.dlpfCfg.len)
    ensures forall a: Addr :: a != h.regs.config ==> Read(r.regs, a) == Read(st.regs, a)
    ensures forall f: Field :: f.Fits() && Disjoint(h.regs.dlpfCfg, f) ==>
      ReadField(r.regs, h.regs.config, f) == ReadField(st.regs, h.regs.config, f)
    ensures bw == h.dlpf.bw256 ==> r.gyroOutputRate == 8000
    ensures IsFilterCode(h.dlpf, bw) ==> r.gyroOutputRate == st.gyroOutputRate
    ensures !IsFilterCode(h.dlpf, bw) ==> r.gyroOutputRate == 8000
    ensures r.accelSensitivity == st.accelSensitivity && r.gyroSensitivityTenths == st.gyroSensitivityTenths
  {
    var c := h.dlpf;
    var rate :=
      if bw == c.bw5 || bw == c.bw10 || bw == c.bw20 || bw == c.bw42 || bw == c.bw98 || bw == c.bw188 then st.gyroOutputRate
      else if bw == c.bw256 then 8000
      else 8000;
    Bw256IsNotFilter(c);
    var regs := WriteField(st.regs, h.regs.config, h.regs.dlpfCfg, bw);
    assert forall f: Field :: f.Fits() && Disjoint(h.regs.dlpfCfg, f) ==>
      ReadField(regs, h.regs.config, f) == ReadField(st.regs, h.regs.config, f);
    ImuState(regs, st.accelSensitivity, st.gyroSensitivityTenths, rate)
  }

  lemma Bw256IsNotFilter(c: DlpfCodes)
    requires DlpfDistinct(c)
    ensures !IsFilterCode(c, c.bw256)
  {
    var s := [c.bw256, c.bw188, c.bw98, c.bw42, c.bw20, c.bw10, c.bw5];
    assert s[0] != s[1] && s[0] != s[2] && s[0] != s[3] && s[0] != s[4] && s[0] != s[5] && s[0] != s[6];
  }

  /** The SMPLRT_DIV value of SetIMUSampleRate, `(uint8_t)(imuGyroFs / rate - 1)`
      in unsigned int arithmetic: a requested rate above the output rate
      makes the quotient 0, which wraps to 0xFF; otherwise the divider plus
      one is the quotient as long as the quotient fits in a byte, and in
      every case the divider is the quotient minus one, modulo 256. */
  function SampleDivider(gyroRate: nat, rate: nat): (d: Byte)
    requires 0 < rate < UInt32Modulus && gyroRate < UInt32Modulus
    ensures rate > gyroRate ==> d == 0xFF
    ensures 1 <= gyroRate / rate <= 256 ==> d as int + 1 == gyroRate / rate
    ensures d as int == (gyroRate / rate - 1) % 256
  {
    QuotientZero(gyroRate, rate);
    DividerOf(gyroRate / rate)
  }

  /** `(uint8_t)(q - 1)` for an unsigned int quotient `q`: the subtraction
      wraps modulo 2^32, the narrowing keeps the low eight bits, so the
      divider is q - 1 modulo 256 whatever the quotient. */
  function DividerOf(q: nat): (d: Byte)
    requires q < UInt32Modulus
    ensures q == 0 ==> d == 0xFF
    ensures 1 <= q <= 256 ==> d as int + 1 == q
    ensures d as int == (q - 1) % 256
  {
    var u := (q - 1) % UInt32Modulus;
    assert q == 0 ==> u % 256 == 255;
    assert 1 <= q <= 256 ==> u % 256 == q - 1;
    assert u % 256 == (q - 1) % 256;
    ToByte(u % 256)
  }

  lemma QuotientZero(n: nat, k: nat)
    requires k > 0
    ensures k > n ==> n / k == 0
    ensures n / k <= n
  {
    var q, r := n / k, n % k;
    assert n == k * q + r;
    MulMono(q, 1, k);
    if q >= 1 {
      MulMono(k, 1, q);
    }
  }

  /** The rate the device then samples at, output rate / (1 + SMPLRT_DIV),
      is never below the requested one while the quotient fits in a byte,
      and is exactly the requested one when that divides the output rate. */
  lemma EffectiveSampleRate(gyroRate: nat, rate: nat)
    requires 0 < rate < UInt32Modulus && gyroRate < UInt32Modulus
    requires 1 <= gyroRate / rate <= 256
    ensures gyroRate / (SampleDivider(gyroRate, rate) as int + 1) >= rate
    ensures gyroRate % rate == 0 ==> gyroRate / (SampleDivider(gyroRate, rate) as int + 1) == rate
  {
    var q := gyroRate / rate;
    assert SampleDivider(gyroRate, rate) as int + 1 == q;
    QuotientBound(gyroRate, rate, q);
  }

  /** Dividing by the quotient gives back at least the divisor, and exactly
      the divisor when it divides evenly. */
  lemma QuotientBound(n: nat, k: nat, q: nat)
    requires k > 0 && q == n / k && q > 0
    ensures n / q >= k
    ensures n % k == 0 ==> n / q == k
  {
    var d, m := n / q, n % q;
    assert q * k <= n == q * d + m;
    MulStrictCancel(q, k, d + 1);
    if n % k == 0 {
      assert n == q * k;
      MulCancel(q, k, d, m);
    }
  }

  /** A requested rate so low that the quotient does not fit in a byte is
      cut to its low eight bits: 1 Hz from the 8 kHz output asks for 125 Hz. */
  lemma DividerWrapsForLowRates()
    ensures SampleDivider(8000, 1) as int == 63
    ensures 8000 / (SampleDivider(8000, 1) as int + 1) == 125
  {
  }

  /** SetIMUSampleRate: only SMPLRT_DIV changes, and it receives the divider
      for the recorded gyroscope output rate. */
  function SetSampleRate(h: Header, st: ImuState, rate: nat): (r: ImuState)
    requires WellFormed(h)
    requires 0 < rate < UInt32Modulus && st.gyroOutputRate < UInt32Modulus
    ensures rate > st.gyroOutputRate ==> Read(r.regs, h.regs.smplrtDiv) == 0xFF
    ensures 1 <= st.gyroOutputRate / rate <= 256 ==> Read(r.regs, h.regs.smplrtDiv) as int + 1 == st.gyroOutputRate / rate
    ensures Read(r.regs, h.regs.smplrtDiv) as int == (st.gyroOutputRate / rate - 1) % 256
    ensures forall a: Addr :: a != h.regs.smplrtDiv ==> Read(r.regs, a) == Read(st.regs, a)
    ensures r.accelSensitivity == st.accelSensitivity && r.gyroSensitivityTenths == st.gyroSensitivityTenths
    ensures r.gyroOutputRate == st.gyroOutputRate
  {
    st.(regs := Write(st.regs, h.regs.smplrtDiv, SampleDivider(st.gyroOutputRate, rate)))
  }

  /** A signed sample for each axis. */
  datatype Axes = Axes(x: int, y: int, z: int)

  /** The three int16_t samples of a sensor's output registers; each is
      negative exactly when the top bit of its high register is set. */
  function ReadAxes(rf: RegFile, o: AxisRegs): (v: Axes)
    ensures IsInt16(v.x) && IsInt16(v.y) && IsInt16(v.z)
    ensures v.x < 0 <==> Bit(Read(rf, o.xh), 7)
    ensures v.y < 0 <==> Bit(Read(rf, o.yh), 7)
    ensures v.z < 0 <==> Bit(Read(rf, o.zh), 7)
  {
    Axes(Int16Of(Read(rf, o.xh), Read(rf, o.xl)),
         Int16Of(Read(rf, o.yh), Read(rf, o.yl)),
         Int16Of(Read(rf, o.zh), Read(rf, o.zl)))
  }

  /** Registers that hold the two's complement bytes of three samples read
      back as those samples. */
  lemma ReadAxesOfStored(rf: RegFile, o: AxisRegs, v: Axes)
    requires IsInt16(v.x) && IsInt16(v.y) && IsInt16(v.z)
    requires (Read(rf, o.xh), Read(rf, o.xl)) == Int16Bytes(v.x)
    requires (Read(rf, o.yh), Read(rf, o.yl)) == Int16Bytes(v.y)
    requires (Read(rf, o.zh), Read(rf, o.zl)) == Int16Bytes(v.z)
    ensures ReadAxes(rf, o) == v
  {
    AssembleSplit(v.x);
    AssembleSplit(v.y);
    AssembleSplit(v.z);
  }

  /** The raw samples behind GetIMUAccel, GetIMUGyro and GetIMUTemp. Each
      accelerometer sample is the int16 whose two's complement bytes are
      exactly its ACCEL_*OUT_H and ACCEL_*OUT_L registers ... */
  function RawAccel(h: Header, st: ImuState): (v: Axes)
    ensures IsInt16(v.x) && IsInt16(v.y) && IsInt16(v.z)
    ensures var o := h.regs.accelOut;
      && Int16Bytes(v.x) == (Read(st.regs, o.xh), Read(st.regs, o.xl))
      && Int16Bytes(v.y) == (Read(st.regs, o.yh), Read(st.regs, o.yl))
      && Int16Bytes(v.z) == (Read(st.regs, o.zh), Read(st.regs, o.zl))
  {
    RegistersOfAxes(st.regs, h.regs.accelOut);
    ReadAxes(st.regs, h.regs.accelOut)
  }

  /** ... and each gyroscope sample those of its GYRO_*OUT_H and
      GYRO_*OUT_L registers. */
  function RawGyro(h: Header, st: ImuState): (v: Axes)
    ensures IsInt16(v.x) && IsInt16(v.y) && IsInt16(v.z)
    ensures var o := h.regs.gyroOut;
      && Int16Bytes(v.x) == (Read(st.regs, o.xh), Read(st.regs, o.xl))
      && Int16Bytes(v.y) == (Read(st.regs, o.yh), Read(st.regs, o.yl))
      && Int16Bytes(v.z) == (Read(st.regs, o.zh), Read(st.regs, o.zl))
  {
    RegistersOfAxes(st.regs, h.regs.gyroOut);
    ReadAxes(st.regs, h.regs.gyroOut)
  }

  /** The samples read from a sensor's output registers split back into the
      bytes those registers hold. */
  lemma RegistersOfAxes(rf: RegFile, o: AxisRegs)
    ensures var v := ReadAxes(rf, o);
      && Int16Bytes(v.x) == (Read(rf, o.xh), Read(rf, o.xl))
      && Int16Bytes(v.y) == (Read(rf, o.yh), Read(rf, o.yl))
      && Int16Bytes(v.z) == (Read(rf, o.zh), Read(rf, o.zl))
  {
    SplitAssemble(Read(rf, o.xh), Read(rf, o.xl));
    SplitAssemble(Read(rf, o.yh), Read(rf, o.yl));
    SplitAssemble(Read(rf, o.zh), Read(rf, o.zl));
  }

  function RawTemp(h: Header, st: ImuState): (t: int)
    ensures IsInt16(t)
    ensures t < 0 <==> Bit(Read(st.regs, h.regs.tempOutH), 7)
    ensures Int16Bytes(t) == (Read(st.regs, h.regs.tempOutH), Read(st.regs, h.regs.tempOutL))
  {
    SplitAssemble(Read(st.regs, h.regs.tempOutH), Read(st.regs, h.regs.tempOutL));
    Int16Of(Read(st.regs, h.regs.tempOutH), Read(st.regs, h.regs.tempOutL))
  }

  /** The configuring calls of the IMU half. */
  datatype ImuOp = Init(clk: Byte, accelRange: Byte, gyroRange: Byte) | Dlpf(bandwidth: Byte) | SampleRate(rate: nat)

  /** What the C code demands of a call: SetIMUSampleRate divides by a
      non-zero unsigned int. */
  predicate ValidOp(op: ImuOp) {
    op.SampleRate? ==> 0 < op.rate < UInt32Modulus
  }

  /** The recorded gyroscope output rate is one of the two values the driver
      ever stores. */
  predicate RateKnown(st: ImuState) {
    st.gyroOutputRate == 1000 || st.gyroOutputRate == 8000
  }

  function Step(h: Header, st: ImuState, op: ImuOp): (r: ImuState)
    requires WellFormed(h) && ValidOp(op) && RateKnown(st)
    ensures RateKnown(r)
  {
    match op
    case Init(clk, a, g) => InitIMU(h, st, clk, a, g)
    case Dlpf(bw) => SetDlpf(h, st, bw)
    case SampleRate(rate) => SetSampleRate(h, st, rate)
  }

  /** A sequence of calls, in order, from state `st`. */
  function Run(h: Header, st: ImuState, ops: seq<ImuOp>): (r: ImuState)
    requires WellFormed(h) && RateKnown(st)
    requires forall i :: 0 <= i < |ops| ==> ValidOp(ops[i])
    ensures RateKnown(r)
    decreases |ops|
  {
    if ops == [] then st else Run(h, Step(h, st, ops[0]), ops[1..])
  }

  /** A call that does not select a filter leaves the 8 kHz output rate
      recorded for good. */
  predicate SetsUnfiltered(h: Header, op: ImuOp) {
    op.Dlpf? && !IsFilterCode(h.dlpf, op.bandwidth)
  }

  /** The recorded gyroscope output rate after any sequence of calls: 8 kHz
      once any call has selected no filter, and otherwise the starting rate. */
  lemma {:induction false} RunGyroRate(h: Header, st: ImuState, ops: seq<ImuOp>)
    requires WellFormed(h) && RateKnown(st)
    requires forall i :: 0 <= i < |ops| ==> ValidOp(ops[i])
    ensures Run(h, st, ops).gyroOutputRate ==
      if exists i :: 0 <= i < |ops| && SetsUnfiltered(h, ops[i]) then 8000 else st.gyroOutputRate
    decreases |ops|
  {
    if ops != [] {
      var next := Step(h, st, ops[0]);
      RunGyroRate(h, next, ops[1..]);
      if exists i :: 0 <= i < |ops| - 1 && SetsUnfiltered(h, ops[1..][i]) {
        var i :| 0 <= i < |ops| - 1 && SetsUnfiltered(h, ops[1..][i]);
        assert SetsUnfiltered(h, ops[i + 1]);
      } else if SetsUnfiltered(h, ops[0]) {
      } else {
        forall i | 0 <= i < |ops| ensures !SetsUnfiltered(h, ops[i]) {
          if i > 0 { assert ops[i] == ops[1..][i - 1]; }
        }
      }
    }
  }

  /** Once the ranges are configured, no later call makes the recorded
      sensitivities disagree with the range registers. */
  lemma {:induction false} RunKeepsSensitivity(h: Header, st: ImuState, ops: seq<ImuOp>)
    requires WellFormed(h) && RateKnown(st)
    requires forall i :: 0 <= i < |ops| ==> ValidOp(ops[i])
    requires SensitivityMatchesRegisters(h, st)
    ensures SensitivityMatchesRegisters(h, Run(h, st, ops))
    decreases |ops|
  {
    if ops != [] {
      var next := Step(h, st, ops[0]);
      StepKeepsSensitivity(h, st, ops[0]);
      RunKeepsSensitivity(h, next, ops[1..]);
    }
  }

  /** One call keeps the recorded sensitivities in agreement with the range
      registers: InitIMU sets both together, and the other two calls touch
      neither. */
  lemma StepKeepsSensitivity(h: Header, st: ImuState, op: ImuOp)
    requires WellFormed(h) && ValidOp(op) && RateKnown(st)
    requires SensitivityMatchesRegisters(h, st)
    ensures SensitivityMatchesRegisters(h, Step(h, st, op))
  {
    match op
    case Init(clk, a, g) =>
    case Dlpf(bw) => KeepsRanges(h, st, SetDlpf(h, st, bw));
    case SampleRate(rate) => KeepsRanges(h, st, SetSampleRate(h, st, rate));
  }

  /** A state whose range registers and sensitivities are those of `st`
      agrees with its registers as `st` does. */
  lemma KeepsRanges(h: Header, st: ImuState, r: ImuState)
    requires WellFormed(h) && SensitivityMatchesRegisters(h, st)
    requires Read(r.regs, h.regs.accelConfig) == Read(st.regs, h.regs.accelConfig)
    requires Read(r.regs, h.regs.gyroConfig) == Read(st.regs, h.regs.gyroConfig)
    requires r.accelSensitivity == st.accelSensitivity && r.gyroSensitivityTenths == st.gyroSensitivityTenths
    ensures SensitivityMatchesRegisters(h, r)
  {
  }
}
