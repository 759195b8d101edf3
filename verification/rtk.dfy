/** The RTK receiver configuration sequences SetRTKBaseWithPosition,
    SetRTKBaseWithTime and SetRTKRover. Each one sends a fixed series of
    command lines to the receiver's COM1 port with a pause after each; the
    model is that series as a trace of transmissions and delays. */
module Rtk {
  import opened BitField
  import opened Decimal
  import opened Arith

  /** One step of a sequence: a command line sent on COM1 (without the
      string's terminating NUL) or an osDelay of some milliseconds. */
  datatype Event = Tx(line: string) | Delay(ms: nat)

  const Freset: string := "freset\r\n"
  const SaveConfig: string := "saveconfig\r\n"

  /** The pause after the factory reset, while the receiver restarts. */
  const ResetDelay: nat := 10000

  /** The pause after every other command. */
  const CommandDelay: nat := 100

  /** Each command followed by its pause. */
  function Settled(cmds: seq<string>): (es: seq<Event>)
    ensures |es| == 2 * |cmds|
    ensures forall i :: 0 <= i < |cmds| ==> es[2 * i] == Tx(cmds[i]) && es[2 * i + 1] == Delay(CommandDelay)
    decreases |cmds|
  {
    if cmds == [] then [] else [Tx(cmds[0]), Delay(CommandDelay)] + Settled(cmds[1..])
  }

  /** The shape all three sequences share: a factory reset, the long pause,
      then the commands, each with its pause. */
  function Configure(cmds: seq<string>): seq<Event> {
    [Tx(Freset), Delay(ResetDelay)] + Settled(cmds)
  }

  /** The lines a trace transmits, in order. */
  function Lines(es: seq<Event>): seq<string>
    decreases |es|
  {
    if es == [] then []
    else (if es[0].Tx? then [es[0].line] else []) + Lines(es[1..])
  }

  /** The time a trace spends waiting, in milliseconds. */
  function TotalDelay(es: seq<Event>): nat
    decreases |es|
  {
    if es == [] then 0
    else (if es[0].Delay? then es[0].ms else 0) + TotalDelay(es[1..])
  }

  lemma {:induction false} LinesAppend(a: seq<Event>, b: seq<Event>)
    ensures Lines(a + b) == Lines(a) + Lines(b)
    ensures TotalDelay(a + b) == TotalDelay(a) + TotalDelay(b)
    decreases |a|
  {
    if a == [] {
      assert a + b == b;
    } else {
      assert (a + b)[0] == a[0];
      assert (a + b)[1..] == a[1..] + b;
      LinesAppend(a[1..], b);
    }
  }

  /** The commands are sent in order, and 100 ms are spent on each. */
  lemma {:induction false} SettledLines(cmds: seq<string>)
    ensures Lines(Settled(cmds)) == cmds
    ensures TotalDelay(Settled(cmds)) == CommandDelay * |cmds|
    decreases |cmds|
  {
    if cmds != [] {
      LinesAppend([Tx(cmds[0]), Delay(CommandDelay)], Settled(cmds[1..]));
      SettledLines(cmds[1..]);
      SentThenWait(cmds[0], CommandDelay);
      assert cmds == [cmds[0]] + cmds[1..];
    }
  }

  /** A sequence sends the reset and then exactly its commands, and lasts
      10 s plus 100 ms per command. */
  lemma ConfigureLines(cmds: seq<string>)
    ensures Lines(Configure(cmds)) == [Freset] + cmds
    ensures TotalDelay(Configure(cmds)) == ResetDelay + CommandDelay * |cmds|
  {
    LinesAppend([Tx(Freset), Delay(ResetDelay)], Settled(cmds));
    SettledLines(cmds);
    SentThenWait(Freset, ResetDelay);
  }

  lemma SentThenWait(line: string, ms: nat)
    ensures Lines([Tx(line), Delay(ms)]) == [line]
    ensures TotalDelay([Tx(line), Delay(ms)]) == ms
  {
    var e: seq<Event> := [Tx(line), Delay(ms)];
    var tail: seq<Event> := [Delay(ms)];
    assert e[1..] == tail && tail[1..] == [];
    assert Lines(tail) == [] && TotalDelay(tail) == ms;
  }

  /** The RTCM messages a base station is told to emit on COM3: station
      position (1006) and antenna description (1033) every 10 s, and the
      MSM4 observations of GPS, BeiDou, GLONASS and Galileo every second. */
  const RtcmCommands: seq<string> := [
    "rtcm1006 com3 10\r\n", "rtcm1033 com3 10\r\n", "rtcm1074 com3 1\r\n",
    "rtcm1124 com3 1\r\n", "rtcm1084 com3 1\r\n", "rtcm1094 com3 1\r\n"]

  /** The commands of either base-station sequence, after its mode line. */
  function BaseCommands(mode: string): seq<string> {
    [mode] + RtcmCommands + [SaveConfig]
  }

  /** The size of the buffer the mode line is formatted into. */
  const ModeBufferSize: nat := 128

  /** "mode base %.9f %.9f %.2f\r\n" with the three renderings of latitude,
      longitude and altitude given as text. */
  function PositionLine(latitude: string, longitude: string, altitude: string): (l: string)
    ensures |l| == 14 + |latitude| + |longitude| + |altitude|
    ensures l[..10] == "mode base " && l[|l| - 2..] == "\r\n"
    ensures |l| <= ModeBufferSize <==> |latitude| + |longitude| + |altitude| <= 114
  {
    "mode base " + latitude + " " + longitude + " " + altitude + "\r\n"
  }

  /** The buffer `uint8_t cmd_1[size] = {0}` after snprintf has formatted
      `line` into it: the first characters of the line, as many as fit in
      front of the terminating NUL, then NULs to the end. */
  function SnprintfBuffer(size: nat, line: string): (buf: string)
    requires size >= 1
    ensures |buf| == size && buf[size - 1] == '\0'
    ensures forall i :: 0 <= i < size - 1 && i < |line| ==> buf[i] == line[i]
    ensures forall i :: |line| <= i < size ==> buf[i] == '\0'
  {
    seq(size, i requires 0 <= i < size => if i < size - 1 && i < |line| then line[i] else '\0')
  }

  /** The bytes the driver sends for the mode line: snprintf returns the
      length of the whole line, and that many bytes of the buffer go out. A
      line shorter than the buffer is sent as is; a line of exactly the
      buffer's size lost its last character to the terminating NUL, which is
      sent in its place. A longer line would be read past the buffer's end. */
  function Buffered(line: string): (sent: string)
    requires |line| <= ModeBufferSize
    ensures |sent| == |line|
    ensures |line| < ModeBufferSize ==> sent == line
    ensures |line| == ModeBufferSize ==> sent == line[..ModeBufferSize - 1] + ['\0']
  {
    var sent := SnprintfBuffer(ModeBufferSize, line)[..|line|];
    assert |line| == ModeBufferSize ==> sent == line[..ModeBufferSize - 1] + ['\0'] by {
      if |line| == ModeBufferSize {
        var cut := line[..ModeBufferSize - 1] + ['\0'];
        assert forall i :: 0 <= i < |line| ==> sent[i] == cut[i];
      }
    }
    sent
  }

  /** SetRTKBaseWithPosition: the base-station sequence with the position as
      its mode line. */
  function SetRTKBaseWithPosition(latitude: string, longitude: string, altitude: string): (es: seq<Event>)
    requires |PositionLine(latitude, longitude, altitude)| <= ModeBufferSize
    ensures |es| == 18 && es[2] == Tx(Buffered(PositionLine(latitude, longitude, altitude)))
    ensures Lines(es) == [Freset, Buffered(PositionLine(latitude, longitude, altitude))] + RtcmCommands + [SaveConfig]
  {
    BaseSequence(Buffered(PositionLine(latitude, longitude, altitude)));
    Configure(BaseCommands(Buffered(PositionLine(latitude, longitude, altitude))))
  }

  /** "mode base time %d\r\n": the unsigned seconds are printed by %d, that
      is, as the signed int their bits denote. */
  function TimeLine(seconds: UInt32): (l: string)
    ensures 18 <= |l| <= 28 && |l| < ModeBufferSize
    ensures l[..15] == "mode base time " && l[|l| - 2..] == "\r\n"
  {
    IntTextLength(Int32Of(seconds));
    "mode base time " + FormatInt(Int32Of(seconds)) + "\r\n"
  }

  /** The number in a "mode base time" line. */
  function TimeField(line: string): string
    requires |line| >= 17
  {
    line[15..|line| - 2]
  }

  /** The time line always fits in the buffer, and its number reads back as
      the requested seconds below 2^31 and as seconds - 2^32 from there on. */
  lemma TimeLineValue(seconds: UInt32)
    ensures |TimeLine(seconds)| < ModeBufferSize
    ensures IsIntText(TimeField(TimeLine(seconds)))
    ensures seconds < 0x8000_0000 ==> ParseInt(TimeField(TimeLine(seconds))) == seconds
    ensures seconds >= 0x8000_0000 ==> ParseInt(TimeField(TimeLine(seconds))) == seconds - UInt32Modulus
  {
    var d := FormatInt(Int32Of(seconds));
    assert TimeField(TimeLine(seconds)) == d;
    FormatThenParse(Int32Of(seconds));
    IntTextLength(Int32Of(seconds));
  }

  /** A %d of a 32-bit int has at most 11 characters. */
  lemma IntTextLength(i: int)
    requires -0x8000_0000 <= i < 0x8000_0000
    ensures |FormatInt(i)| <= 11
  {
    if i < 0 {
      DigitsLength(-i, 10);
    } else {
      DigitsLength(i, 10);
    }
  }

  lemma {:induction false} DigitsLength(n: nat, k: nat)
    requires n < Pow10(k)
    ensures |Digits(n)| <= if k == 0 then 1 else k
    decreases k
  {
    if n >= 10 {
      assert k >= 2;
      DigitsLength(n / 10, k - 1);
    }
  }

  /** SetRTKBaseWithTime: the base-station sequence with the time line as its
      mode line, which always fits the buffer whole. */
  function SetRTKBaseWithTime(seconds: UInt32): (es: seq<Event>)
    ensures |es| == 18 && es[2] == Tx(TimeLine(seconds))
    ensures Lines(es) == [Freset, TimeLine(seconds)] + RtcmCommands + [SaveConfig]
  {
    BaseSequence(TimeLine(seconds));
    Configure(BaseCommands(TimeLine(seconds)))
  }

  /** Either base sequence sends reset, mode line, the six RTCM messages and
      saveconfig, in that order, and lasts 10.8 s. */
  lemma BaseSequence(mode: string)
    ensures Lines(Configure(BaseCommands(mode))) == [Freset, mode] + RtcmCommands + [SaveConfig]
    ensures TotalDelay(Configure(BaseCommands(mode))) == ResetDelay + 8 * CommandDelay
  {
    ConfigureLines(BaseCommands(mode));
  }

  /** The two base sequences differ only in the mode line. */
  lemma BaseVariantsDifferOnlyInModeLine(a: string, b: string)
    ensures |Configure(BaseCommands(a))| == |Configure(BaseCommands(b))|
    ensures forall i :: 0 <= i < |Configure(BaseCommands(a))| && i != 2 ==>
      Configure(BaseCommands(a))[i] == Configure(BaseCommands(b))[i]
  {
    BaseUnfolds(a);
    BaseUnfolds(b);
  }

  lemma BaseUnfolds(mode: string)
    ensures Configure(BaseCommands(mode))
      == [Tx(Freset), Delay(ResetDelay), Tx(mode), Delay(CommandDelay)] + Settled(RtcmCommands + [SaveConfig])
  {
    assert BaseCommands(mode)[1..] == RtcmCommands + [SaveConfig];
  }

  /** RTK_ROVER_FREQ_1HZ .. RTK_ROVER_FREQ_50HZ. */
  datatype RoverFreqCodes = RoverFreqCodes(hz1: UInt32, hz2: UInt32, hz5: UInt32, hz10: UInt32, hz20: UInt32, hz50: UInt32)

  /** The switch labels are distinct, as C requires. */
  predicate RoverDistinct(c: RoverFreqCodes) {
    var s := [c.hz1, c.hz2, c.hz5, c.hz10, c.hz20, c.hz50];
    forall i, j :: 0 <= i < j < |s| ==> s[i] != s[j]
  }

  predicate IsRoverCode(c: RoverFreqCodes, f: UInt32) {
    f == c.hz1 || f == c.hz2 || f == c.hz5 || f == c.hz10 || f == c.hz20 || f == c.hz50
  }

  /** The output rate, in Hz, a rover code names. */
  function RoverHz(c: RoverFreqCodes, f: UInt32): nat
    requires IsRoverCode(c, f)
  {
    if f == c.hz1 then 1 else if f == c.hz2 then 2 else if f == c.hz5 then 5
    else if f == c.hz10 then 10 else if f == c.hz20 then 20 else 50
  }

  /** The output period, in seconds, SetRTKRover puts in its gpgga and gpths
      commands: a fixed-point numeral whose value is the reciprocal of the
      requested rate, and 1 s for an unknown code. */
  function RoverPeriod(c: RoverFreqCodes, freq: UInt32): (p: string)
    ensures IsFixedText(p)
    ensures IsRoverCode(c, freq) ==> FixedValue(p).0 * RoverHz(c, freq) == FixedValue(p).1
    ensures !IsRoverCode(c, freq) ==> FixedValue(p) == (1, 1)
  {
    PeriodOne();
    PeriodHalf();
    PeriodFifth();
    PeriodTenth();
    PeriodTwentieth();
    PeriodFiftieth();
    if freq == c.hz1 then "1"
    else if freq == c.hz2 then "0.5"
    else if freq == c.hz5 then "0.2"
    else if freq == c.hz10 then "0.1"
    else if freq == c.hz20 then "0.05"
    else if freq == c.hz50 then "0.02"
    else "1"
  }

  lemma PeriodHalf()
    ensures IsFixedText("0.5") && FixedValue("0.5") == (5, 10)
  {
    PeriodTenths('5');
  }

  lemma PeriodFifth()
    ensures IsFixedText("0.2") && FixedValue("0.2") == (2, 10)
  {
    PeriodTenths('2');
  }

  lemma PeriodTenth()
    ensures IsFixedText("0.1") && FixedValue("0.1") == (1, 10)
  {
    PeriodTenths('1');
  }

  lemma PeriodTwentieth()
    ensures IsFixedText("0.05") && FixedValue("0.05") == (5, 100)
  {
    PeriodHundredths('5');
  }

  lemma PeriodFiftieth()
    ensures IsFixedText("0.02") && FixedValue("0.02") == (2, 100)
  {
    PeriodHundredths('2');
  }

  lemma PeriodOne()
    ensures IsFixedText("1") && FixedValue("1") == (1, 1)
  {
    assert SplitAtPoint("1") == ("1", "");
    assert ['1'][..0] == [];
  }

  /** "0.d" is d / 10. */
  lemma PeriodTenths(d: char)
    requires IsDigit(d)
    ensures IsFixedText(['0', '.', d]) && FixedValue(['0', '.', d]) == (DigitValue(d), 10)
  {
    FixedValueOf("0", [d]);
    assert "0" + "." + [d] == ['0', '.', d];
    assert "0" + [d] == ['0', d];
    assert ['0', d][..1] == ['0'];
    assert ['0'][..0] == [];
  }

  /** "0.0d" is d / 100. */
  lemma PeriodHundredths(d: char)
    requires IsDigit(d)
    ensures IsFixedText(['0', '.', '0', d]) && FixedValue(['0', '.', '0', d]) == (DigitValue(d), 100)
  {
    FixedValueOf("0", ['0', d]);
    assert "0" + "." + ['0', d] == ['0', '.', '0', d];
    assert "0" + ['0', d] == ['0', '0', d];
    assert ['0', '0', d][..2] == ['0', '0'];
    assert ['0', '0'][..1] == ['0'];
    assert ['0'][..0] == [];
  }

  /** The commands of SetRTKRover after the reset. */
  function RoverCommands(c: RoverFreqCodes, freq: UInt32): seq<string> {
    var p := RoverPeriod(c, freq);
    ["mode rover\r\n", "gpgga com3 " + p + "\r\n", "gpths com3 " + p + "\r\n", SaveConfig]
  }

  /** SetRTKRover: the reset, rover mode, GGA and THS output at the period
      of the requested rate, and saveconfig, with 10.4 s of pauses in all. */
  function SetRTKRover(c: RoverFreqCodes, freq: UInt32): (es: seq<Event>)
    ensures var p := RoverPeriod(c, freq);
      Lines(es) == [Freset, "mode rover\r\n", "gpgga com3 " + p + "\r\n", "gpths com3 " + p + "\r\n", SaveConfig]
    ensures TotalDelay(es) == ResetDelay + 4 * CommandDelay
  {
    ConfigureLines(RoverCommands(c, freq));
    Configure(RoverCommands(c, freq))
  }

  /** The rover sequence switches to rover mode, asks for GGA and THS output
      at one and the same period, saves, and lasts 10.4 s. */
  lemma RoverSequence(c: RoverFreqCodes, freq: UInt32)
    ensures exists p :: (IsFixedText(p) &&
      Lines(SetRTKRover(c, freq)) == [Freset, "mode rover\r\n", "gpgga com3 " + p + "\r\n", "gpths com3 " + p + "\r\n", SaveConfig])
    ensures TotalDelay(SetRTKRover(c, freq)) == ResetDelay + 4 * CommandDelay
  {
    var p := RoverPeriod(c, freq);
    assert Lines(SetRTKRover(c, freq)) == [Freset, "mode rover\r\n", "gpgga com3 " + p + "\r\n", "gpths com3 " + p + "\r\n", SaveConfig];
  }

  /** An unknown rate code configures 1 Hz output. */
  lemma UnknownRateIsOneHz(c: RoverFreqCodes, freq: UInt32)
    requires !IsRoverCode(c, freq)
    ensures SetRTKRover(c, freq) == SetRTKRover(c, c.hz1)
  {
  }

  /** Distinct rate codes configure distinct output: the period text
      determines the rate. */
  lemma RoverRatesDiffer(c: RoverFreqCodes, f: UInt32, g: UInt32)
    requires RoverDistinct(c) && IsRoverCode(c, f) && IsRoverCode(c, g) && f != g
    ensures SetRTKRover(c, f) != SetRTKRover(c, g)
  {
    var p, q := RoverPeriod(c, f), RoverPeriod(c, g);
    RateOfPeriod(c, f);
    RateOfPeriod(c, g);
    RoverHzDistinct(c, f, g);
    GgaLine(c, f);
    GgaLine(c, g);
  }

  /** The rate can be read back from the period text. */
  lemma RateOfPeriod(c: RoverFreqCodes, f: UInt32)
    requires IsRoverCode(c, f)
    ensures var v := FixedValue(RoverPeriod(c, f)); v.0 > 0 && RoverHz(c, f) == v.1 / v.0
  {
    var v := FixedValue(RoverPeriod(c, f));
    assert v.0 > 0;
    DivOfMultiple(v.0, RoverHz(c, f));
  }

  lemma RoverHzDistinct(c: RoverFreqCodes, f: UInt32, g: UInt32)
    requires RoverDistinct(c) && IsRoverCode(c, f) && IsRoverCode(c, g) && f != g
    ensures RoverHz(c, f) != RoverHz(c, g)
  {
    var s := [c.hz1, c.hz2, c.hz5, c.hz10, c.hz20, c.hz50];
    assert s[0] != s[1] && s[0] != s[2] && s[0] != s[3] && s[0] != s[4] && s[0] != s[5];
    assert s[1] != s[2] && s[1] != s[3] && s[1] != s[4] && s[1] != s[5];
    assert s[2] != s[3] && s[2] != s[4] && s[2] != s[5];
    assert s[3] != s[4] && s[3] != s[5] && s[4] != s[5];
  }

  /** The period can be read back from the trace's GGA command. */
  lemma GgaLine(c: RoverFreqCodes, f: UInt32)
    ensures var e := SetRTKRover(c, f)[4];
      e.Tx? && |e.line| >= 13 && e.line[11..|e.line| - 2] == RoverPeriod(c, f)
  {
    var p := RoverPeriod(c, f);
    assert ("gpgga com3 " + p + "\r\n")[11..|p| + 11] == p;
  }
}
