/** The MCP3428 configuration register: the four settings and their bit
    patterns, the control byte the driver writes, and the status byte it
    reads back.

    Layout of both bytes (bit 7 first):
      7    not ready (status) / start a conversion (one-shot command)
      6-5  channel
      4    mode: 0 one-shot, 1 continuous
      3-2  resolution and sample rate
      1-0  gain */
module Registers {
  import opened Ints

  const NOT_READY: bv8 := 0x80
  const MODE: bv8 := 0x10
  const SAMPLE_RATE_H: bv8 := 0x08
  const SAMPLE_RATE_L: bv8 := 0x04
  const GAIN_H: bv8 := 0x02
  const GAIN_L: bv8 := 0x01
  const ALL: bv8 := NOT_READY | MODE | SAMPLE_RATE_H | SAMPLE_RATE_L | GAIN_H | GAIN_L

  /** Field masks; the driver names the channel field nowhere, only its patterns. */
  const CHANNEL_FIELD: bv8 := 0x60
  const RESOLUTION_FIELD: bv8 := SAMPLE_RATE_H | SAMPLE_RATE_L
  const GAIN_FIELD: bv8 := GAIN_H | GAIN_L

  datatype Option<+T> = None | Some(value: T)

  datatype Mode = OneShot | Continuous {
    function Bits(): (b: bv8)
      ensures b & !MODE == 0
      ensures b == MODE <==> this == Continuous
    {
      match this
      case OneShot => 0x00
      case Continuous => 0x10
    }
  }

  /** Conversion resolution, paired with its sample rate. */
  datatype Resolution = Bits16Sps15 | Bits14Sps60 | Bits12Sps240 {
    function Bits(): (b: bv8)
      ensures b & !RESOLUTION_FIELD == 0
      ensures b != RESOLUTION_FIELD
    {
      match this
      case Bits16Sps15 => 0x08
      case Bits14Sps60 => 0x04
      case Bits12Sps240 => 0x00
    }

    /** Bits of accuracy: each step of the select field adds two. */
    function ResBits(): (n: nat)
      ensures n == 12 + 2 * ((Bits() >> 2) as nat)
    {
      match this
      case Bits16Sps15 => 16
      case Bits14Sps60 => 14
      case Bits12Sps240 => 12
    }

    /** Largest output code: the largest value of a `ResBits()`-bit signed integer. */
    function Max(): (code: I16)
      ensures code == Pow2(ResBits() - 1) - 1
    {
      Pow2Table();
      match this
      case Bits16Sps15 => 32767
      case Bits14Sps60 => 8191
      case Bits12Sps240 => 2047
    }

    /** Smallest output code: the smallest value of a `ResBits()`-bit signed integer. */
    function Min(): (code: I16)
      ensures code + Pow2(ResBits() - 1) == 0
    {
      Pow2Table();
      match this
      case Bits16Sps15 => -32768
      case Bits14Sps60 => -8192
      case Bits12Sps240 => -2048
    }

    /** Samples per second, as the variant names say: two more bits cost a factor four. */
    function SamplesPerSecond(): (sps: nat)
      ensures sps * Pow2(ResBits() - 12) == 240
    {
      Pow2Table();
      match this
      case Bits16Sps15 => 15
      case Bits14Sps60 => 60
      case Bits12Sps240 => 240
    }

    /** The device's power-on setting: 12 bits at 240 samples per second. */
    static function Default(): (resolution: Resolution)
      ensures resolution.ResBits() == 12 && resolution.SamplesPerSecond() == 240
      ensures resolution.Bits() == 0
    {
      Bits12Sps240
    }
  }

  /** Programmable gain amplifier setting. */
  datatype Gain = Gain1 | Gain2 | Gain4 | Gain8 {
    function Bits(): (b: bv8)
      ensures b & !GAIN_FIELD == 0
    {
      match this
      case Gain1 => 0x00
      case Gain2 => 0x01
      case Gain4 => 0x02
      case Gain8 => 0x03
    }

    /** The device's power-on setting: no amplification, gain bits clear. */
    static function Default(): (gain: Gain)
      ensures gain.Bits() == 0
    {
      Gain1
    }
  }

  datatype Channel = Channel1 | Channel2 | Channel3 | Channel4 {
    function Bits(): (b: bv8)
      ensures b & !CHANNEL_FIELD == 0
    {
      match this
      case Channel1 => 0x00
      case Channel2 => 0x20
      case Channel3 => 0x40
      case Channel4 => 0x60
    }

    /** The first channel, selected by clear channel bits. */
    static function Default(): (channel: Channel)
      ensures channel.Bits() == 0
    {
      Channel1
    }
  }

  /** Milliseconds to wait for one conversion at a resolution
      (`get_sleep_ms`); each is below one nominal sample period. */
  function SleepMs(resolution: Resolution): (ms: nat)
    ensures ms * resolution.SamplesPerSecond() < 1000
  {
    match resolution
    case Bits12Sps240 => 4
    case Bits14Sps60 => 15
    case Bits16Sps15 => 57
  }

  /** Slower sample rates wait strictly longer. */
  lemma SleepMsIncreasesAsRateDrops(fast: Resolution, slow: Resolution)
    requires fast.SamplesPerSecond() > slow.SamplesPerSecond()
    ensures SleepMs(fast) < SleepMs(slow)
  {
  }

  /** The channel, resolution and gain fields of the control byte (`config_flag`). */
  function ConfigFlag(channel: Channel, resolution: Resolution, gain: Gain): (b: bv8)
    ensures b & (NOT_READY | MODE) == 0
    ensures b & CHANNEL_FIELD == channel.Bits()
    ensures b & RESOLUTION_FIELD == resolution.Bits()
    ensures b & GAIN_FIELD == gain.Bits()
  {
    channel.Bits() | resolution.Bits() | gain.Bits()
  }

  /** The control byte written to the device (`command`): every field holds
      its setting, and the start bit is set exactly in one-shot mode. */
  function Command(mode: Mode, channel: Channel, resolution: Resolution, gain: Gain): (b: bv8)
    ensures b & NOT_READY != 0 <==> mode == OneShot
    ensures b & MODE == mode.Bits()
    ensures b & CHANNEL_FIELD == channel.Bits()
    ensures b & RESOLUTION_FIELD == resolution.Bits()
    ensures b & GAIN_FIELD == gain.Bits()
  {
    match mode
    case OneShot => NOT_READY | mode.Bits() | ConfigFlag(channel, resolution, gain)
    case Continuous => mode.Bits() | ConfigFlag(channel, resolution, gain)
  }

  /** Reading the fields back out of a control or status byte. */
  function ModeOf(b: bv8): (mode: Mode)
    ensures mode.Bits() == b & MODE
  {
    if b & MODE == 0 then OneShot else Continuous
  }

  function ChannelOf(b: bv8): (channel: Channel)
    ensures channel.Bits() == b & CHANNEL_FIELD
  {
    var f := b & CHANNEL_FIELD;
    if f == 0x00 then Channel1
    else if f == 0x20 then Channel2
    else if f == 0x40 then Channel3
    else Channel4
  }

  /** The select pattern 0b11 names no resolution. */
  function ResolutionOf(b: bv8): (resolution: Option<Resolution>)
    ensures resolution.None? <==> b & RESOLUTION_FIELD == RESOLUTION_FIELD
    ensures resolution.Some? ==> resolution.value.Bits() == b & RESOLUTION_FIELD
  {
    var f := b & RESOLUTION_FIELD;
    if f == 0x00 then Some(Bits12Sps240)
    else if f == 0x04 then Some(Bits14Sps60)
    else if f == 0x08 then Some(Bits16Sps15)
    else None
  }

  function GainOf(b: bv8): (gain: Gain)
    ensures gain.Bits() == b & GAIN_FIELD
  {
    var f := b & GAIN_FIELD;
    if f == 0x00 then Gain1
    else if f == 0x01 then Gain2
    else if f == 0x02 then Gain4
    else Gain8
  }

  /** Distinct settings have distinct bit patterns. */
  lemma BitsInjective(m1: Mode, m2: Mode, c1: Channel, c2: Channel,
                      r1: Resolution, r2: Resolution, g1: Gain, g2: Gain)
    ensures m1.Bits() == m2.Bits() ==> m1 == m2
    ensures c1.Bits() == c2.Bits() ==> c1 == c2
    ensures r1.Bits() == r2.Bits() ==> r1 == r2
    ensures g1.Bits() == g2.Bits() ==> g1 == g2
  {
  }

  /** The four fields are disjoint: decoding the control byte recovers every
      setting, for all 2 x 4 x 3 x 4 combinations. */
  lemma CommandRoundTrip(mode: Mode, channel: Channel, resolution: Resolution, gain: Gain)
    ensures var b := Command(mode, channel, resolution, gain);
      && ModeOf(b) == mode
      && ChannelOf(b) == channel
      && ResolutionOf(b) == Some(resolution)
      && GainOf(b) == gain
  {
    var b := Command(mode, channel, resolution, gain);
    BitsInjective(ModeOf(b), mode, ChannelOf(b), channel,
                  resolution, resolution, GainOf(b), gain);
    var r := ResolutionOf(b);
    BitsInjective(mode, mode, channel, channel, r.value, resolution, gain, gain);
  }

  /** The value of the configuration register read back with a sample. */
  datatype ConfigRegister = ConfigRegister(value: bv8) {
    /** The conversion is complete exactly when bit 7 is clear. */
    function IsReady(): (ready: bool)
      ensures ready <==> value < 0x80
    {
      value & NOT_READY != NOT_READY
    }
  }

  /** Masking the status byte with `ALL`, as the driver does, keeps its readiness. */
  lemma MaskKeepsReadiness(status: bv8)
    ensures ConfigRegister(ALL & status).IsReady() == ConfigRegister(status).IsReady()
    ensures ConfigRegister(status & ALL).IsReady() == ConfigRegister(status).IsReady()
  {
  }
}
