# am982lorav1 driver model

A Dafny model of the board driver `Core/Src/am982lorav1.c`. The board carries
three peripherals, and the driver talks to each one:

- an MPU-6050 inertial unit on I2C;
- an AM982 RTK GNSS receiver configured over a UART;
- a LoRa radio module with M0/M1 mode pins and a UART.

The model covers the driver's logic. The hardware access layer is left out.

- **BitField** models the read-modify-write of one bit field of an 8-bit
  register (`WriteIMURegBits`). A field is named by its highest bit and its
  length, as in the driver.
- **Mpu6050** models the device's 256 registers and the register map the
  driver relies on. The header that defines the register addresses, field
  positions and range codes (`am982lorav1.h`) is not part of this model, so
  its constants are parameters. `WellFormed` states what the driver assumes
  of them, and `RegisterMapValues` shows the InvenSense values meet it.
- **Imu** models the driver globals `imuAccelSensitivity`,
  `imuGyroSensitivity` and `imuGyroFs` next to the register file. It covers
  `InitIMU`, `SetIMUDigitalLowPassFilter` (`SetDlpf`), `SetIMUSampleRate`
  (`SetSampleRate`), and the int16 samples behind `GetIMUAccel`, `GetIMUGyro`
  and `GetIMUTemp`. Sequences of these calls are modelled by `Run`.
- **Sample** models the two's complement assembly `h << 8 | l` into an
  `int16_t`.
- **Decimal** models the `%d` conversion and the fixed-point period texts.
- **Rtk** models the three receiver configuration sequences as traces of
  lines sent and `osDelay` pauses.
- **Lora** models the mode pins, the configuration frame, and the query
  handshake between `GetLoraConf` and `LoraConfCallback`. The handshake is
  split into `BeginQuery` (up to the wait), `Callback`, and `EndQuery`
  (after the wait).
- **Arith** holds a few multiplication facts the proofs use.

Where the code and its comments disagree, the model follows the code. The
last write of `InitIMU` is commented "set sleep enabled", but it writes 0 to
the SLEEP bit, so the device ends up awake.

## Model

| member | source | states |
|---|---|---|
| BitField.WriteBits | Core/Src/am982lorav1.c:214-224 | bits outside the field keep their value; the field reads back as the data cut to the field's width |
| BitField.MaskBits | Core/Src/am982lorav1.c:218 | the mask has a bit set exactly at the positions from start-len+1 to start |
| BitField.MaskIsShiftedLowMask | Core/Src/am982lorav1.c:218 | shifting the field mask back down to bit 0 loses no bit: no bit of the len ones is pushed out above bit 7 |
| BitField.ReadAfterWriteIsMod | Core/Src/am982lorav1.c:218-222 | the field reads back as the data modulo 2^len |
| BitField.WriteWhatWasRead | Core/Src/am982lorav1.c:214-224 | writing a field's current contents back leaves the register unchanged |
| BitField.LastWriteWins | Core/Src/am982lorav1.c:214-224 | of two writes to one field, only the second is visible |
| BitField.WriteTwiceIsWriteOnce | Core/Src/am982lorav1.c:214-224 | writing the same data twice is the same as writing it once |
| BitField.DisjointWritesCommute | Core/Src/am982lorav1.c:214-224 | writes to non-overlapping fields of one register can be done in either order |
| BitField.WritePreservesDisjointField | Core/Src/am982lorav1.c:214-224 | a write leaves every non-overlapping field's value unchanged |
| Mpu6050.Write | Core/Src/am982lorav1.c:205-212 | the addressed register reads back the value; every other register is unchanged |
| Mpu6050.WriteField | Core/Src/am982lorav1.c:214-224 | the field reads back the data cut to its width; non-overlapping fields of that register and all other registers are unchanged |
| Sample.CombineValue | Core/Src/am982lorav1.c:339-341 | h shifted left by 8 and OR-ed with l equals h*256+l, and is at least 0x8000 exactly when bit 7 of h is set |
| Sample.Int16Of | Core/Src/am982lorav1.c:339-341 | the sample lies in the int16 range, equals h*256+l modulo 2^16, and is negative exactly when bit 7 of h is set |
| Sample.AssembleSplit | Core/Src/am982lorav1.c:357-359 | splitting an int16 into its two's complement bytes and assembling them gives the value back |
| Sample.SplitAssemble | Core/Src/am982lorav1.c:371 | assembling two bytes and splitting the sample gives the bytes back |
| Sample.Int16OfInjective | Core/Src/am982lorav1.c:339-341 | different register pairs give different samples |
| Imu.Boot | Core/Src/am982lorav1.c:9-13 | the globals start with no sensitivity recorded and a 1 kHz output rate, so the rate invariant of Run holds from power-up |
| Imu.AccelSetting | Core/Src/am982lorav1.c:250-267 | a known accelerometer code is kept and any other falls back to +-16 g; the sensitivity times the range in g is 32768 |
| Imu.GyroSetting | Core/Src/am982lorav1.c:270-287 | a known gyroscope code is kept and any other falls back to +-2000 deg/s; the sensitivity is within 0.1 of 32768 over the range |
| Imu.GyroSensitivityValues | Core/Src/am982lorav1.c:272-286 | the sensitivity for the 250, 500, 1000 and 2000 deg/s ranges is 131.0, 65.5, 32.8 and 16.4 |
| Imu.InitSteps | Core/Src/am982lorav1.c:245-291 | the SLEEP bit keeps its old value through the first three writes and is cleared by the fourth |
| Imu.InitClockField | Core/Src/am982lorav1.c:248 | after InitIMU the clock field holds the clock source cut to the field's width, unvalidated, despite the later writes to the same register |
| Imu.InitAccelField | Core/Src/am982lorav1.c:250-268 | the accelerometer range field holds the code chosen by the switch |
| Imu.InitGyroField | Core/Src/am982lorav1.c:270-288 | the gyroscope range field holds the code chosen by the switch |
| Imu.InitOtherRegisters | Core/Src/am982lorav1.c:245-291 | no register other than PWR_MGMT_1, ACCEL_CONFIG and GYRO_CONFIG changes |
| Imu.InitPowerBits | Core/Src/am982lorav1.c:248-290 | every bit of PWR_MGMT_1 outside the clock and sleep fields keeps its value |
| Imu.InitAccelBits | Core/Src/am982lorav1.c:250-268 | every bit of ACCEL_CONFIG outside the range field keeps its value |
| Imu.InitGyroBits | Core/Src/am982lorav1.c:270-288 | every bit of GYRO_CONFIG outside the range field keeps its value |
| Imu.InitIMU | Core/Src/am982lorav1.c:245-291 | the clock field holds the clock source; the device is awake; each range field holds the requested code or its fallback; the recorded sensitivities are exactly the switch's table entries for the chosen ranges; no other register and no bit of the three written registers outside their fields changes |
| Imu.SetDlpf | Core/Src/am982lorav1.c:303-321 | the raw bandwidth code is written whatever it is, and every other bit of CONFIG and every other register keeps its value; the output rate becomes 8000 for the 256 Hz code or any unknown code, and is unchanged for the six filtering codes |
| Imu.DividerOf | Core/Src/am982lorav1.c:325 | the divider is the quotient minus one modulo 256 for every quotient: 0 wraps to 0xFF, 1 to 256 give one less, larger quotients keep their low eight bits |
| Imu.SampleDivider | Core/Src/am982lorav1.c:325 | the divider is output rate / requested rate minus one, modulo 256: a requested rate above the output rate gives 0xFF, and divider plus one is the quotient while that fits a byte |
| Imu.EffectiveSampleRate | Core/Src/am982lorav1.c:323-327 | the device samples at output rate / (divider + 1), which, while output rate / requested rate is between 1 and 256, is never below the requested rate and equals it when the rate divides the output rate |
| Imu.DividerWrapsForLowRates | Core/Src/am982lorav1.c:325 | 1 Hz requested from the 8 kHz output gives divider 63 and a 125 Hz sample rate |
| Imu.SetSampleRate | Core/Src/am982lorav1.c:323-327 | only SMPLRT_DIV changes, and it receives the recorded output rate / requested rate minus one, modulo 256 |
| Imu.RawAccel | Core/Src/am982lorav1.c:329-342 | each accelerometer sample is the int16 whose two's complement bytes are exactly its ACCEL_*OUT_H and ACCEL_*OUT_L registers |
| Imu.RawGyro | Core/Src/am982lorav1.c:347-360 | each gyroscope sample is the int16 whose two's complement bytes are exactly its GYRO_*OUT_H and GYRO_*OUT_L registers |
| Imu.ReadAxes | Core/Src/am982lorav1.c:339-341 | each axis is an int16, negative exactly when bit 7 of its high register is set |
| Imu.ReadAxesOfStored | Core/Src/am982lorav1.c:357-359 | registers that hold the two's complement bytes of three samples read back as those samples |
| Imu.RawTemp | Core/Src/am982lorav1.c:365-371 | the temperature sample is the int16 whose two's complement bytes are exactly TEMP_OUT_H and TEMP_OUT_L, negative exactly when bit 7 of TEMP_OUT_H is set |
| Imu.Step | Core/Src/am982lorav1.c:303-327 | one call leaves the recorded output rate at 1000 or 8000 |
| Imu.Run | Core/Src/am982lorav1.c:303-327 | the recorded output rate is 1000 or 8000 after any sequence of calls |
| Imu.RunGyroRate | Core/Src/am982lorav1.c:303-321 | after a sequence of calls the output rate is 8000 if some filter call selected no filter, and otherwise the starting rate; it is never restored |
| Imu.StepKeepsSensitivity | Core/Src/am982lorav1.c:245-327 | no single call makes the recorded sensitivities disagree with the range registers |
| Imu.RunKeepsSensitivity | Core/Src/am982lorav1.c:245-327 | once configured, no sequence of calls makes the recorded sensitivities disagree with the range registers |
| Decimal.Digits | Core/Src/am982lorav1.c:98 | the decimal rendering of a number has no leading zero, and starts with 0 only for 0 |
| Decimal.ValueOfDigits | Core/Src/am982lorav1.c:98 | the rendered digits denote the number |
| Decimal.DigitsOfValue | Core/Src/am982lorav1.c:98 | every numeral without a leading zero is the rendering of the number it denotes |
| Decimal.FormatInt | Core/Src/am982lorav1.c:98 | the %d text is a numeral without leading zero, with a minus sign exactly for a negative int |
| Decimal.FormatThenParse | Core/Src/am982lorav1.c:98 | the %d text of an int reads back as that int |
| Decimal.ParseThenFormat | Core/Src/am982lorav1.c:98 | every text %d can produce is the %d text of the int it denotes |
| Decimal.Int32Of | Core/Src/am982lorav1.c:98 | %d reads an unsigned int's bits as the int32 congruent to it modulo 2^32, negative exactly from 2^31 on |
| Decimal.SplitAtPoint | Core/Src/am982lorav1.c:132-143 | a period text is its whole part, a point and its fraction; a text without a point is all whole part |
| Rtk.Settled | Core/Src/am982lorav1.c:101-116 | every command is sent and followed by exactly one 100 ms pause, in order |
| Rtk.SettledLines | Core/Src/am982lorav1.c:101-116 | the lines sent are the commands, and the pauses add up to 100 ms per command |
| Rtk.ConfigureLines | Core/Src/am982lorav1.c:99-116 | a sequence sends freset first and then its commands, and lasts 10 s plus 100 ms per command |
| Rtk.BaseSequence | Core/Src/am982lorav1.c:57-84 | a base sequence sends freset, the mode line, RTCM 1006, 1033, 1074, 1124, 1084 and 1094, and saveconfig, and lasts 10.8 s |
| Rtk.SnprintfBuffer | Core/Src/am982lorav1.c:58-66 | the zero-initialised buffer holds the line's first characters, at most one fewer than its size, and NULs after them; its last byte is always NUL |
| Rtk.Buffered | Core/Src/am982lorav1.c:58-69 | the first cmd_1_len bytes of that buffer, cmd_1_len being the whole line's length: a line shorter than the 128-byte buffer is sent whole, and a line of exactly 128 characters goes out with its last character replaced by the NUL |
| Rtk.PositionLine | Core/Src/am982lorav1.c:66 | the line is "mode base ", the three renderings and CR LF, 14 characters longer than the renderings, and fits the buffer exactly when they total at most 114 characters |
| Rtk.SetRTKBaseWithPosition | Core/Src/am982lorav1.c:55-85 | the position line, as the buffer holds it, is the only variable command of the base sequence |
| Rtk.IntTextLength | Core/Src/am982lorav1.c:98 | the %d text of a 32-bit int has at most 11 characters |
| Rtk.TimeLine | Core/Src/am982lorav1.c:98 | the line starts "mode base time ", ends in CR LF, and has 18 to 28 characters, so it always fits the buffer |
| Rtk.TimeLineValue | Core/Src/am982lorav1.c:98 | the time line always fits the buffer; its number reads back as the seconds below 2^31 and as seconds - 2^32 from 2^31 on |
| Rtk.SetRTKBaseWithTime | Core/Src/am982lorav1.c:87-117 | the time line is the only variable command of the base sequence |
| Rtk.BaseVariantsDifferOnlyInModeLine | Core/Src/am982lorav1.c:55-117 | the two base sequences have equal length and differ only in the mode line |
| Rtk.RoverPeriod | Core/Src/am982lorav1.c:132-186 | the period text is a fixed-point numeral whose value is the reciprocal of the rate the code names; an unknown code gets a period of 1 s |
| Rtk.RateOfPeriod | Core/Src/am982lorav1.c:132-143 | the rate can be recovered from its period text |
| Rtk.SetRTKRover | Core/Src/am982lorav1.c:128-190 | the rover sequence sends freset, mode rover, gpgga and gpths at the period of the requested rate, and saveconfig, with 10.4 s of pauses |
| Rtk.RoverSequence | Core/Src/am982lorav1.c:128-190 | the rover sequence sends freset, mode rover, gpgga and gpths at one shared period, and saveconfig, and lasts 10.4 s |
| Rtk.UnknownRateIsOneHz | Core/Src/am982lorav1.c:181-185 | an unknown rate code gives exactly the 1 Hz sequence |
| Rtk.RoverRatesDiffer | Core/Src/am982lorav1.c:149-186 | different rate codes give different sequences |
| Lora.SetLoraMode | Core/Src/am982lorav1.c:382-407 | M0 is driven high exactly for the wake and configuration modes, M1 exactly for the sleep and configuration modes; both are low for normal mode and any unknown code |
| Lora.ModeRoundTrip | Core/Src/am982lorav1.c:382-407 | the pins select the requested mode; an unknown code selects normal mode |
| Lora.ModePinsDistinct | Core/Src/am982lorav1.c:384-401 | different modes drive different pin levels |
| Lora.ConfFrame | Core/Src/am982lorav1.c:421-424 | the frame has six bytes, 0xC0, 0x1D and 0x40 at positions 0, 3 and 5; the address LoraConfCallback assembles from bytes 1-2 is the address, and byte 4 is the channel |
| Lora.Boot | Core/Src/am982lorav1.c:14-16 | the flag starts lowered, so a frame that arrives before any query is ignored |
| Lora.SetLoraConf | Core/Src/am982lorav1.c:419-431 | the radio enters configuration mode, the six-byte configuration frame carrying the address and channel is sent, and the radio returns to normal mode, with a 100 ms pause after each step |
| Lora.BeginQuery | Core/Src/am982lorav1.c:433-440 | configuration mode is entered, and after a 100 ms pause the flag is raised before the three 0xC1 bytes are sent, followed by another 100 ms pause |
| Lora.Callback | Core/Src/am982lorav1.c:451-460 | the state changes only for a six-byte frame while the flag is 1; then address and channel come from bytes 1, 2 and 4, and the flag drops |
| Lora.EndQuery | Core/Src/am982lorav1.c:441-449 | the driver waits exactly while the flag is raised; it then returns the stored address and channel and returns to normal mode, followed by a 100 ms pause |
| Lora.QueryAnswered | Core/Src/am982lorav1.c:433-460 | a query answered by a six-byte frame returns the address and channel of that frame |
| Lora.ConfThenQuery | Core/Src/am982lorav1.c:419-460 | a query answered with the frame SetLoraConf sends returns the address and channel that were set |
| Lora.WrongSizeKeepsWaiting | Core/Src/am982lorav1.c:453 | a frame of any other length leaves the query waiting |
| Lora.AnswerTakenOnce | Core/Src/am982lorav1.c:453-458 | once a query is answered, later frames are ignored |
| Lora.FlagIsBoolean | Core/Src/am982lorav1.c:433-460 | the query flag only ever holds 0 or 1 |
| Lora.NoQueryNoChange | Core/Src/am982lorav1.c:451-460 | with no query begun, received frames change nothing |

## Left out

- The LED switches (lines 18-36), ResetRTK (38-43), ResetIMU (192-197),
  SetRTKConf and SetRTKBaseData (45-53), GetAUX (409-412) and SetLoraData
  (414-417) are each one HAL call or a pin pulse. They have no logic of their
  own.
- ReadIMUReg and WriteIMUReg (199-212) become reads and writes of the
  register file. The I2C transfer, its timeout, the HAL status and the
  `malloc` are left out. A failed transfer is not modelled.
- Floating point is left out. This covers the division of samples by the
  sensitivities, `gravity`, and the temperature formula (342-344, 360-362,
  372). The model stops at the raw int16 samples.
- Imu.GyroSetting: states the sensitivity only to within a tenth of 2^15
  over the range. The four exact table entries are stated separately by
  Imu.GyroSensitivityValues. The sensitivity is held in tenths because the
  table is not an integer.
- Imu.SetSampleRate: requires a non-zero rate, because the C code divides by
  it.
- `imuAccelFs` (line 12) is never read, so it is not modelled.
- The `%.9f`/`%.9f`/`%.2f` renderings of latitude, longitude and altitude are
  left out. They are floating point, so the model takes them as given text.
- Rtk.SetRTKBaseWithPosition: requires the formatted line to be at most
  128 characters. A longer line makes the driver transmit bytes past the end
  of its buffer.
- Sending one of the driver's RTK or LoRa commands is modelled as a single
  event. The DMA transfer that may still be running during the following
  pause is left out.
- SetLoraMode's two pin writes are modelled as one `Drive` event.
- The interrupt context of LoraConfCallback and its concurrency with the
  waiting task are left out. The `osDelay(1)` busy-wait becomes `EndQuery`
  answering `Waiting` for as long as the flag is raised. A radio that never
  answers leaves GetLoraConf waiting forever, which the model shows as
  `Waiting` after any number of non-matching frames.
- Lora.Callback: its `size` argument is taken to be the length of the
  received data.
- The order in which the low and high sample registers are read is not
  modelled. The register file is a snapshot, so a sample that changes
  between the two reads is not represented.
- WriteIMURegBits with a field that does not fit one byte (len above 8, or
  start+1 below len, where the shift count wraps) is excluded by
  `Field.Fits`. Every field the driver uses fits.
