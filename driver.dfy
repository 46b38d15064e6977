/** The MCP3428 driver (`ThermostatConfig`): its settings, the control byte it
    writes, and the ready-polling conversion protocol, run against the
    scripted bus and timer of module Hal. */
module Driver {
  import opened Ints
  import opened Errors
  import opened Registers
  import opened Voltage
  import opened Hal

  /** Extra wait after the settle time before the first one-shot read. */
  const ONE_SHOT_MARGIN_MS: nat := 2
  /** Wait between two reads whose status is not ready. */
  const POLL_INTERVAL_MS: nat := 1
  /** Bytes in every read: sample high, sample low, status. */
  const READ_LENGTH: nat := 3

  // ---------------------------------------------------------------------
  // Specification of one read and of the polling loop

  /** `read_i2c` on one scripted reply: the big-endian sample and the status
      masked with `ALL`. */
  function DecodeReply(reply: ReadReply): (r: Result<(I16, ConfigRegister)>)
    ensures r.Err? <==> reply.ReadFailed?
    ensures r.Err? ==> r.error == I2c
    ensures r.Ok? ==> (r.value.0 - Word(reply.hi, reply.lo)) % 0x1_0000 == 0
    ensures r.Ok? ==> (r.value.1.IsReady() <==> reply.status < 0x80)
    ensures r.Ok? ==> (r.value.1.IsReady() <==> EndsPolling(reply))
  {
    match reply
    case ReadFailed => Err(I2c)
    case ReadOk(hi, lo, status) =>
      MaskKeepsReadiness(status);
      Ok((FromBeBytes(hi, lo), ConfigRegister(status & ALL)))
  }

  /** The exit test of both polling loops: a failed read, or a status whose
      masked value reports ready, which is a status with bit 7 clear. */
  predicate EndsPolling(reply: ReadReply): (ends: bool)
    ensures ends <==> reply.ReadFailed? || reply.status < 0x80
  {
    reply.ReadFailed? || (MaskKeepsReadiness(reply.status); ConfigRegister(ALL & reply.status).IsReady())
  }

  /** The scripted device eventually fails a read or reports ready. */
  ghost predicate Answers(replies: seq<ReadReply>) {
    exists i :: 0 <= i < |replies| && EndsPolling(replies[i])
  }

  lemma AnswersTail(replies: seq<ReadReply>)
    requires Answers(replies) && !EndsPolling(replies[0])
    ensures Answers(replies[1..])
  {
    var i :| 0 <= i < |replies| && EndsPolling(replies[i]);
    assert replies[1..][i - 1] == replies[i];
  }

  /** The index of the read at which polling stops: every earlier read
      succeeded with a not-ready status. */
  function StopIndex(replies: seq<ReadReply>): (k: nat)
    requires Answers(replies)
    ensures k < |replies| && EndsPolling(replies[k])
    ensures forall j :: 0 <= j < k ==> replies[j].ReadOk? && replies[j].status >= 0x80
    decreases |replies|
  {
    if EndsPolling(replies[0]) then
      0
    else
      AnswersTail(replies);
      MaskKeepsReadiness(replies[0].status);
      1 + StopIndex(replies[1..])
  }

  /** What `get_measurement` returns once it stops at `reply`: the bus error
      exactly for a failed read, otherwise the voltage of the reply's sample. */
  function MeasurementOf(resolution: Resolution, reply: ReadReply): (r: Result<I32>)
    ensures r == Err(I2c) <==> reply.ReadFailed?
    ensures reply.ReadOk? ==> r == CalculateVoltage(resolution, FromBeBytes(reply.hi, reply.lo))
  {
    match DecodeReply(reply)
    case Err(e) => Err(e)
    case Ok(read) => CalculateVoltage(resolution, read.0)
  }

  /** `n` rounds of a read whose status is not ready followed by the 1 ms sleep. */
  function Polls(address: bv8, n: nat): (t: seq<Event>)
    ensures |t| == 2 * n
    ensures forall i :: 0 <= i < |t| ==>
      t[i] == if i % 2 == 0 then Read(address, READ_LENGTH) else Event.Sleep(POLL_INTERVAL_MS)
  {
    if n == 0 then [] else Polls(address, n - 1) + [Read(address, READ_LENGTH), Event.Sleep(POLL_INTERVAL_MS)]
  }

  /** The events of a polling loop that stops at its read number `k`. */
  function PollTrace(address: bv8, k: nat): seq<Event> {
    Polls(address, k) + [Read(address, READ_LENGTH)]
  }

  /** One more not-ready round extends the trace by a read and a sleep. */
  lemma PollsStep(start: seq<Event>, address: bv8, n: nat)
    ensures start + Polls(address, n) + [Read(address, READ_LENGTH)] + [Event.Sleep(POLL_INTERVAL_MS)]
            == start + Polls(address, n + 1)
  {
  }

  /** The trace of a loop that stops at read `k`. */
  lemma PollsEnd(start: seq<Event>, address: bv8, k: nat)
    ensures start + Polls(address, k) + [Read(address, READ_LENGTH)] == start + PollTrace(address, k)
  {
  }

  /** The loop's view of the scripted replies after reading reply `n`: it
      stops there exactly when `n` is the stop index, and otherwise has not
      passed it. */
  lemma PollsAdvance(replies: seq<ReadReply>, n: nat)
    requires Answers(replies) && n <= StopIndex(replies)
    ensures EndsPolling(replies[n]) ==> n == StopIndex(replies)
    ensures !EndsPolling(replies[n]) ==> n + 1 <= StopIndex(replies)
    ensures replies[n..][1..] == replies[n + 1..]
  {
  }

  /** Polling reads and sleeps alternately, beginning and ending with a read:
      `k + 1` reads of three bytes, each of the first `k` followed by exactly
      one 1 ms sleep, and no write. */
  lemma PollTraceShape(address: bv8, k: nat)
    ensures |PollTrace(address, k)| == 2 * k + 1
    ensures forall i :: 0 <= i < 2 * k + 1 ==>
      PollTrace(address, k)[i] == if i % 2 == 0 then Read(address, READ_LENGTH) else Event.Sleep(POLL_INTERVAL_MS)
    ensures forall e :: e in PollTrace(address, k) ==> !e.Write?
  {
    var t := PollTrace(address, k);
    forall e | e in t
      ensures !e.Write?
    {
      var i :| 0 <= i < |t| && t[i] == e;
    }
  }

  /** No not-ready reading escapes: a polling result other than a bus error
      comes from a read with a ready status, decoded from its first two bytes;
      a bus error comes from a failed read; every read before it was not ready. */
  lemma PollingOutcome(resolution: Resolution, replies: seq<ReadReply>)
    requires Answers(replies)
    ensures var k := StopIndex(replies); var r := MeasurementOf(resolution, replies[k]);
      && (r == Err(I2c) <==> replies[k].ReadFailed?)
      && (r != Err(I2c) ==>
            && replies[k].status < 0x80
            && r == CalculateVoltage(resolution, FromBeBytes(replies[k].hi, replies[k].lo)))
  {
    var k := StopIndex(replies);
    if replies[k].ReadOk? {
      MaskKeepsReadiness(replies[k].status);
    }
  }

  // ---------------------------------------------------------------------
  // The driver object

  class ThermostatConfig {
    var address: bv8
    var mode: Mode
    const i2c: Board
    var resolution: Resolution
    var gain: Gain
    var channel: Channel

    /** `new`: power-on defaults, and no bus traffic. */
    constructor (address: bv8, i2c: Board, mode: Mode)
      ensures this.address == address && this.i2c == i2c && this.mode == mode
      ensures resolution == Resolution.Default() && gain == Gain.Default()
      ensures channel == Channel.Default()
      ensures unchanged(i2c)
    {
      this.address := address;
      this.mode := mode;
      this.i2c := i2c;
      resolution := Resolution.Default();
      gain := Gain.Default();
      channel := Channel.Default();
    }

    method WithResolution(resolution: Resolution) returns (self: ThermostatConfig)
      modifies this
      ensures self == this && this.resolution == resolution
      ensures address == old(address) && mode == old(mode)
      ensures gain == old(gain) && channel == old(channel)
    {
      this.resolution := resolution;
      self := this;
    }

    method WithGain(gain: Gain) returns (self: ThermostatConfig)
      modifies this
      ensures self == this && this.gain == gain
      ensures address == old(address) && mode == old(mode)
      ensures resolution == old(resolution) && channel == old(channel)
    {
      this.gain := gain;
      self := this;
    }

    method WithChannel(channel: Channel) returns (self: ThermostatConfig)
      modifies this
      ensures self == this && this.channel == channel
      ensures address == old(address) && mode == old(mode)
      ensures resolution == old(resolution) && gain == old(gain)
    {
      this.channel := channel;
      self := this;
    }

    method SetChannel(channel: Channel)
      modifies this
      ensures this.channel == channel
      ensures address == old(address) && mode == old(mode)
      ensures resolution == old(resolution) && gain == old(gain)
    {
      this.channel := channel;
    }

    method SetMode(mode: Mode)
      modifies this
      ensures this.mode == mode
      ensures address == old(address) && channel == old(channel)
      ensures resolution == old(resolution) && gain == old(gain)
    {
      this.mode := mode;
    }

    /** `one_shot_measurement`: write the control byte once; if the write
        fails, stop with a bus error before any sleep or read; otherwise sleep
        the settle time plus the margin and poll. */
    method OneShotMeasurement() returns (r: Result<I32>)
      requires |i2c.writeAcks| > 0
      requires i2c.writeAcks[0] ==> Answers(i2c.readReplies)
      modifies i2c
      ensures i2c.writeAcks == old(i2c.writeAcks[1..])
      ensures var written := [Write(address, [Command(mode, channel, resolution, gain)])];
        if old(i2c.writeAcks[0]) then
          var replies := old(i2c.readReplies);
          var k := StopIndex(replies);
          && r == MeasurementOf(resolution, replies[k])
          && i2c.readReplies == replies[k + 1..]
          && i2c.trace == old(i2c.trace) + written
                          + [Event.Sleep(SleepMs(resolution) + ONE_SHOT_MARGIN_MS)]
                          + PollTrace(address, k)
        else
          && r == Err(I2c)
          && i2c.readReplies == old(i2c.readReplies)
          && i2c.trace == old(i2c.trace) + written
    {
      var ok := i2c.I2cWrite(address, [Command(mode, channel, resolution, gain)]);
      if !ok {
        return Err(I2c);
      }
      i2c.Sleep(SleepMs(resolution) + ONE_SHOT_MARGIN_MS);
      var voltage :- GetMeasurement();
      return Ok(voltage);
    }

    /** `write_config`: write the control byte, sleep the settle time, then
        read until the status is ready (sleeping 1 ms after each not-ready
        read) or a read fails. */
    method WriteConfig() returns (r: Result<()>)
      requires |i2c.writeAcks| > 0
      requires i2c.writeAcks[0] ==> Answers(i2c.readReplies)
      modifies i2c
      ensures i2c.writeAcks == old(i2c.writeAcks[1..])
      ensures var written := [Write(address, [Command(mode, channel, resolution, gain)])];
        if old(i2c.writeAcks[0]) then
          var replies := old(i2c.readReplies);
          var k := StopIndex(replies);
          && r == (if replies[k].ReadFailed? then Err(I2c) else Ok(()))
          && i2c.readReplies == replies[k + 1..]
          && i2c.trace == old(i2c.trace) + written + [Event.Sleep(SleepMs(resolution))]
                          + PollTrace(address, k)
        else
          && r == Err(I2c)
          && i2c.readReplies == old(i2c.readReplies)
          && i2c.trace == old(i2c.trace) + written
    {
      var ok := i2c.I2cWrite(address, [Command(mode, channel, resolution, gain)]);
      if !ok {
        return Err(I2c);
      }
      i2c.Sleep(SleepMs(resolution));

      var buf := new bv8[READ_LENGTH];
      ghost var replies := i2c.readReplies;
      ghost var start := i2c.trace;
      assert start == old(i2c.trace) + [Write(address, [Command(mode, channel, resolution, gain)])]
                      + [Event.Sleep(SleepMs(resolution))];
      assert replies == old(i2c.readReplies);
      ghost var k := StopIndex(replies);
      ghost var n := 0;
      while true
        invariant n <= k
        invariant i2c.readReplies == replies[n..]
        invariant i2c.trace == start + Polls(address, n)
        invariant i2c.writeAcks == old(i2c.writeAcks[1..])
        decreases |i2c.readReplies|
      {
        PollsAdvance(replies, n);
        PollsEnd(start, address, n);
        var read := i2c.I2cRead(address, buf);
        if !read {
          return Err(I2c);
        }
        var configReg := ConfigRegister(ALL & buf[2]);
        if configReg.IsReady() {
          return Ok(());
        } else {
          i2c.Sleep(POLL_INTERVAL_MS);
          PollsStep(start, address, n);
          n := n + 1;
        }
      }
    }

    /** `get_measurement`: read until the status is ready (sleeping 1 ms after
        each not-ready read), then convert the sample; a failed read or a
        saturated sample ends it with that error. */
    method GetMeasurement() returns (r: Result<I32>)
      requires Answers(i2c.readReplies)
      modifies i2c
      ensures var replies := old(i2c.readReplies);
        var k := StopIndex(replies);
        && r == MeasurementOf(resolution, replies[k])
        && i2c.readReplies == replies[k + 1..]
        && i2c.trace == old(i2c.trace) + PollTrace(address, k)
      ensures i2c.writeAcks == old(i2c.writeAcks)
    {
      ghost var replies := i2c.readReplies;
      ghost var start := i2c.trace;
      ghost var k := StopIndex(replies);
      ghost var n := 0;
      while true
        invariant n <= k
        invariant i2c.readReplies == replies[n..]
        invariant i2c.trace == start + Polls(address, n)
        invariant i2c.writeAcks == old(i2c.writeAcks)
        decreases |i2c.readReplies|
      {
        PollsAdvance(replies, n);
        var read :- ReadI2c();
        var measurement, configReg := read.0, read.1;
        if configReg.IsReady() {
          var voltage :- CalculateVoltage(resolution, measurement);
          return Ok(voltage);
        } else {
          i2c.Sleep(POLL_INTERVAL_MS);
          PollsStep(start, address, n);
          n := n + 1;
        }
      }
    }

    /** `read_i2c`: one 3-byte read, decoded. */
    method ReadI2c() returns (r: Result<(I16, ConfigRegister)>)
      requires |i2c.readReplies| > 0
      modifies i2c
      ensures r == DecodeReply(old(i2c.readReplies[0]))
      ensures i2c.readReplies == old(i2c.readReplies[1..])
      ensures i2c.writeAcks == old(i2c.writeAcks)
      ensures i2c.trace == old(i2c.trace) + [Read(address, READ_LENGTH)]
    {
      var buf := new bv8[READ_LENGTH];
      var ok := i2c.I2cRead(address, buf);
      if !ok {
        return Err(I2c);
      }
      var measurement := FromBeBytes(buf[0], buf[1]);
      var configReg := ConfigRegister(buf[2] & ALL);
      return Ok((measurement, configReg));
    }
  }
}
