/** The LoRa radio half of the driver: the M0/M1 mode pins (SetLoraMode),
    writing the radio's address and channel (SetLoraConf), and reading them
    back through a query answered from the UART receive callback
    (GetLoraConf with LoraConfCallback). */
module Lora {
  import opened BitField

  /** LORA_MODE_NORMAL, LORA_MODE_WAKE, LORA_MODE_SLEEP and LORA_MODE_CONF. */
  datatype ModeCodes = ModeCodes(normal: Byte, wake: Byte, sleep: Byte, conf: Byte)

  /** The switch labels are distinct, as C requires. */
  predicate ModeDistinct(c: ModeCodes) {
    c.normal != c.wake && c.normal != c.sleep && c.normal != c.conf &&
    c.wake != c.sleep && c.wake != c.conf && c.sleep != c.conf
  }

  predicate IsModeCode(c: ModeCodes, m: Byte) {
    m == c.normal || m == c.wake || m == c.sleep || m == c.conf
  }

  datatype Level = Low | High

  /** The levels driven on the radio's M0 and M1 pins. */
  datatype Pins = Pins(m0: Level, m1: Level)

  /** SetLoraMode: M0 high for wake and configuration, M1 high for sleep and
      configuration; normal and every unknown code drive both low. */
  function SetLoraMode(c: ModeCodes, mode: Byte): (p: Pins)
    ensures ModeDistinct(c) ==> (p.m0 == High <==> mode == c.wake || mode == c.conf)
    ensures ModeDistinct(c) ==> (p.m1 == High <==> mode == c.sleep || mode == c.conf)
  {
    if mode == c.normal then Pins(Low, Low)
    else if mode == c.wake then Pins(High, Low)
    else if mode == c.sleep then Pins(Low, High)
    else if mode == c.conf then Pins(High, High)
    else Pins(Low, Low)
  }

  /** The mode the radio reads from its pins. */
  function ModeOfPins(c: ModeCodes, p: Pins): (m: Byte)
    ensures IsModeCode(c, m)
  {
    match (p.m0, p.m1)
    case (Low, Low) => c.normal
    case (High, Low) => c.wake
    case (Low, High) => c.sleep
    case (High, High) => c.conf
  }

  /** The radio ends up in the requested mode, and in normal mode for an
      unknown code. */
  lemma ModeRoundTrip(c: ModeCodes, mode: Byte)
    requires ModeDistinct(c)
    ensures IsModeCode(c, mode) ==> ModeOfPins(c, SetLoraMode(c, mode)) == mode
    ensures !IsModeCode(c, mode) ==> ModeOfPins(c, SetLoraMode(c, mode)) == c.normal
  {
  }

  /** Distinct modes drive distinct pin levels. */
  lemma ModePinsDistinct(c: ModeCodes, a: Byte, b: Byte)
    requires ModeDistinct(c) && IsModeCode(c, a) && IsModeCode(c, b) && a != b
    ensures SetLoraMode(c, a) != SetLoraMode(c, b)
  {
    ModeRoundTrip(c, a);
    ModeRoundTrip(c, b);
  }

  /** One step of a radio sequence: driving the mode pins, a frame sent on
      the radio's UART, an osDelay, or the query flag being raised. */
  datatype Event = Drive(pins: Pins) | Send(frame: seq<Byte>) | Delay(ms: nat) | Arm

  /** The pause after every mode change and every frame. */
  const SettleDelay: nat := 100

  /** The address LoraConfCallback assembles from a parameter frame. */
  function AddrOf(frame: seq<Byte>): bv16
    requires |frame| == 6
  {
    (frame[1] as bv16 << 8) | frame[2] as bv16
  }

  /** The configuration frame: the command byte 0xC0, the address's high and
      low byte, the fixed byte 0x1D, the channel, and the fixed byte 0x40. The
      address LoraConfCallback assembles from it and the channel it takes
      from it are the ones it was built from. */
  function ConfFrame(addr: bv16, channel: Byte): (f: seq<Byte>)
    ensures |f| == 6 && f[0] == 0xC0 && f[3] == 0x1D && f[5] == 0x40
    ensures AddrOf(f) == addr && f[4] == channel
  {
    SplitJoin(addr);
    [0xC0, ((addr >> 8) & 0xFF) as Byte, (addr & 0xFF) as Byte, 0x1D, channel, 0x40]
  }

  lemma SplitJoin(w: bv16)
    ensures ((((w >> 8) & 0xFF) as Byte) as bv16 << 8) | ((w & 0xFF) as Byte) as bv16 == w
  {
  }

  /** SetLoraConf: configuration mode, the parameter frame, back to normal
      mode, with a pause after each step. */
  function SetLoraConf(c: ModeCodes, addr: bv16, channel: Byte): (es: seq<Event>)
    requires ModeDistinct(c)
    ensures |es| == 6 && es[2].Send? && |es[2].frame| == 6
    ensures es[0].Drive? && ModeOfPins(c, es[0].pins) == c.conf
    ensures es[4].Drive? && ModeOfPins(c, es[4].pins) == c.normal
    ensures AddrOf(es[2].frame) == addr && es[2].frame[4] == channel
    ensures es[2] == Send(ConfFrame(addr, channel))
    ensures es[1] == Delay(SettleDelay) && es[3] == Delay(SettleDelay) && es[5] == Delay(SettleDelay)
  {
    ModeRoundTrip(c, c.conf);
    ModeRoundTrip(c, c.normal);
    [Drive(SetLoraMode(c, c.conf)), Delay(SettleDelay), Send(ConfFrame(addr, channel)), Delay(SettleDelay),
     Drive(SetLoraMode(c, c.normal)), Delay(SettleDelay)]
  }

  /** The radio's query for its parameters: three bytes 0xC1. */
  const ReadParams: seq<Byte> := [0xC1, 0xC1, 0xC1]

  /** The globals loraConfFlag, loraAddr and loraChannel. */
  datatype LoraState = LoraState(flag: Byte, addr: bv16, channel: Byte)

  /** All three start at zero, so a frame that arrives before any query is
      ignored. */
  function Boot(): (st: LoraState)
    ensures st.flag == 0
    ensures forall data :: Callback(st, data) == st
  {
    LoraState(0, 0, 0)
  }

  /** The first half of GetLoraConf: configuration mode, a pause, the flag
      raised, the query sent, a pause. */
  function BeginQuery(c: ModeCodes, st: LoraState): (r: (LoraState, seq<Event>))
    requires ModeDistinct(c)
    ensures r.0 == st.(flag := 1)
    ensures |r.1| == 5 && r.1[0].Drive? && ModeOfPins(c, r.1[0].pins) == c.conf
    ensures r.1[2] == Arm && r.1[3] == Send(ReadParams)
    ensures r.1[1] == Delay(SettleDelay) && r.1[4] == Delay(SettleDelay)
  {
    ModeRoundTrip(c, c.conf);
    (st.(flag := 1), [Drive(SetLoraMode(c, c.conf)), Delay(SettleDelay), Arm, Send(ReadParams), Delay(SettleDelay)])
  }

  /** LoraConfCallback: a frame of exactly six bytes received while the flag
      is raised sets the address from bytes 1 and 2 and the channel from
      byte 4, and lowers the flag; anything else changes nothing. */
  function Callback(st: LoraState, data: seq<Byte>): (r: LoraState)
    ensures r != st ==> st.flag == 1 && |data| == 6
    ensures st.flag == 1 && |data| == 6 ==> r.flag == 0 && r.addr == AddrOf(data) && r.channel == data[4]
  {
    if st.flag == 1 && |data| == 6 then
      LoraState(0, (data[1] as bv16 << 8) | data[2] as bv16, data[4])
    else st
  }

  /** What GetLoraConf hands back, with the events that follow the wait. */
  datatype Answer = Answer(addr: bv16, channel: Byte, events: seq<Event>)

  datatype Poll = Waiting | Done(answer: Answer)

  /** The second half of GetLoraConf: while the flag is raised the driver is
      still waiting; once it is lowered the stored address and channel are
      returned, and the radio goes back to normal mode with a pause. */
  function EndQuery(c: ModeCodes, st: LoraState): (r: Poll)
    requires ModeDistinct(c)
    ensures r.Waiting? <==> st.flag != 0
    ensures r.Done? ==> r.answer.addr == st.addr && r.answer.channel == st.channel
    ensures r.Done? ==> (|r.answer.events| == 2 && r.answer.events[0].Drive?
      && ModeOfPins(c, r.answer.events[0].pins) == c.normal && r.answer.events[1] == Delay(SettleDelay))
  {
    ModeRoundTrip(c, c.normal);
    if st.flag != 0 then Waiting
    else Done(Answer(st.addr, st.channel, [Drive(SetLoraMode(c, c.normal)), Delay(SettleDelay)]))
  }

  /** A query answered by a six-byte frame returns the address and channel
      that frame carries. */
  lemma QueryAnswered(c: ModeCodes, st: LoraState, data: seq<Byte>)
    requires ModeDistinct(c) && |data| == 6
    ensures var p := EndQuery(c, Callback(BeginQuery(c, st).0, data));
      p.Done? && p.answer.addr == AddrOf(data) && p.answer.channel == data[4]
  {
  }

  /** What SetLoraConf writes, a query reads back, when the radio answers
      with the parameter frame. */
  lemma ConfThenQuery(c: ModeCodes, st: LoraState, addr: bv16, channel: Byte)
    requires ModeDistinct(c)
    ensures var p := EndQuery(c, Callback(BeginQuery(c, st).0, ConfFrame(addr, channel)));
      p.Done? && p.answer.addr == addr && p.answer.channel == channel
  {
    QueryAnswered(c, st, ConfFrame(addr, channel));
  }

  /** A received frame of any other length leaves the query waiting. */
  lemma WrongSizeKeepsWaiting(c: ModeCodes, st: LoraState, data: seq<Byte>)
    requires ModeDistinct(c) && |data| != 6
    ensures EndQuery(c, Callback(BeginQuery(c, st).0, data)).Waiting?
  {
  }

  /** Once a query has been answered, later frames are ignored until the
      next query. */
  lemma AnswerTakenOnce(st: LoraState, d1: seq<Byte>, d2: seq<Byte>)
    requires st.flag == 1 && |d1| == 6
    ensures Callback(Callback(st, d1), d2) == Callback(st, d1)
  {
  }

  /** The events that can reach the radio state: a query begun, a frame
      received, a finished query collected. */
  datatype LoraOp = Query | Receive(data: seq<Byte>) | Collect

  function Step(c: ModeCodes, st: LoraState, op: LoraOp): LoraState
    requires ModeDistinct(c)
  {
    match op
    case Query => BeginQuery(c, st).0
    case Receive(data) => Callback(st, data)
    case Collect => st
  }

  function Run(c: ModeCodes, st: LoraState, ops: seq<LoraOp>): LoraState
    requires ModeDistinct(c)
    decreases |ops|
  {
    if ops == [] then st else Run(c, Step(c, st, ops[0]), ops[1..])
  }

  /** The flag only ever holds 0 or 1 ... */
  lemma {:induction false} FlagIsBoolean(c: ModeCodes, st: LoraState, ops: seq<LoraOp>)
    requires ModeDistinct(c) && (st.flag == 0 || st.flag == 1)
    ensures var r := Run(c, st, ops); r.flag == 0 || r.flag == 1
    decreases |ops|
  {
    if ops != [] {
      FlagIsBoolean(c, Step(c, st, ops[0]), ops[1..]);
    }
  }

  /** ... and with no query begun, nothing received changes the state. */
  lemma {:induction false} NoQueryNoChange(c: ModeCodes, st: LoraState, ops: seq<LoraOp>)
    requires ModeDistinct(c) && st.flag == 0
    requires forall i :: 0 <= i < |ops| ==> !ops[i].Query?
    ensures Run(c, st, ops) == st
    decreases |ops|
  {
    if ops != [] {
      assert Step(c, st, ops[0]) == st;
      NoQueryNoChange(c, st, ops[1..]);
    }
  }
}
