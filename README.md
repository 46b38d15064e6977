# MCP3428 ADC driver — a Dafny model

This project models the `mcp3428` driver of `esp-hal-drivers`. The driver
talks over I2C to a Microchip MCP3428, a four-channel delta-sigma ADC. A
`ThermostatConfig` holds:

- the device address;
- the conversion mode (one-shot or continuous);
- the bus;
- the resolution, gain and channel settings.

It packs those settings into a one-byte control word and writes it to the
device. It then polls the device's 3-byte reply: a big-endian signed sample
and a status byte. Polling continues until bit 7 of the status byte
("not ready") is clear. Finally the raw code is turned into millivolts,
using a 2048 mV reference and rejecting the two saturation codes.

Files and modules:

- `ints.dfy` (`Ints`): the Rust integer types, `i16::from_be_bytes` and
  powers of two.
- `errors.dfy` (`Errors`): the error enum and `Result`, whose `:-` stands
  for Rust's `?`.
- `registers.dfy` (`Registers`): the register constants and the four
  setting enums with their bit patterns. Also the settle delay, the
  control byte, decoders that read the fields back out, and the status
  register.
- `voltage.dfy` (`Voltage`): `calculate_voltage`, including Rust's `i32`
  division, which truncates toward zero.
- `hal.dfy` (`Hal`): the I2C bus and the embassy timer, as one scripted
  `Board` object. Each write takes its acknowledgement from a queue and
  each read takes its reply from a queue. Every write, read and sleep is
  appended to a trace.
- `driver.dfy` (`Driver`): the `ThermostatConfig` class and its methods.
  The async methods are sequential methods on the board.
- `scenarios.dfy` (`Scenarios`): three scenarios with particular scripted
  devices. Their results and traces follow from the driver's contracts
  alone.

The polling loops in the source are unbounded. In the model they are
`while true` loops that consume the reply queue. They are proved under the
condition `Answers`: some scripted reply is a failed read or a ready
status. Under that condition, each measuring method's result and trace are
determined exactly by the script, as follows.

- `StopIndex` finds the first reply that ends the poll.
- The trace is:
  1. the write of `Command(...)`;
  2. the settle sleep;
  3. `PollTrace`: `k` rounds of a 3-byte read followed by a 1 ms sleep,
     then one final read.
- The result is the decoded final reply.

The source declares the settle delay (`get_sleep_ms`) as 4, 15 and 57 ms
for 240, 60 and 15 samples per second. Each of these is shorter than one
nominal conversion period (about 4.17, 16.7 and 66.7 ms). The one-shot wait
of 57 + 2 ms at 16 bits is also shorter than 66.7 ms. So the delay does not
bound the conversion time from above. The model keeps the code's values
(`Registers.SleepMs` states the bound they actually satisfy). The polling
loop is what waits out the remainder.

## Model

| member | source | states |
|---|---|---|
| Registers.Mode.Bits | esp-hal-drivers/src/mcp3428.rs:265-274 | the pattern lies in the mode bit only, and sets it exactly for continuous mode |
| Registers.Resolution.Bits | esp-hal-drivers/src/mcp3428.rs:287-300 | the pattern lies in the two sample-rate bits and is never the unused pattern 0b11 |
| Registers.Resolution.ResBits | esp-hal-drivers/src/mcp3428.rs:302-309 | the number of bits is 12 plus two per step of the sample-rate field |
| Registers.Resolution.Max | esp-hal-drivers/src/mcp3428.rs:311-318 | the maximum output code is 2^(bits-1) - 1 |
| Registers.Resolution.Min | esp-hal-drivers/src/mcp3428.rs:320-327 | the minimum output code is -2^(bits-1) |
| Registers.Resolution.SamplesPerSecond | esp-hal-drivers/src/mcp3428.rs:276-294 | the sample rate named by each variant is 240 / 4^((bits-12)/2): two more bits cost a factor four |
| Registers.Resolution.Default | esp-hal-drivers/src/mcp3428.rs:330-335 | the power-on resolution is 12 bits at 240 samples per second, with a clear select field |
| Registers.Gain.Default | esp-hal-drivers/src/mcp3428.rs:362-367 | the power-on gain has clear gain bits (no amplification) |
| Registers.Channel.Default | esp-hal-drivers/src/mcp3428.rs:395-399 | the default channel has clear channel bits |
| Registers.Gain.Bits | esp-hal-drivers/src/mcp3428.rs:344-360 | the pattern lies in the two gain bits only |
| Registers.Channel.Bits | esp-hal-drivers/src/mcp3428.rs:375-406 | the pattern lies in bits 6-5 only |
| Registers.SleepMs | esp-hal-drivers/src/mcp3428.rs:101-107 | the settle delay times the sample rate stays below one second: the delay is shorter than one nominal sample period |
| Registers.SleepMsIncreasesAsRateDrops | esp-hal-drivers/src/mcp3428.rs:101-107 | a slower sample rate waits strictly longer |
| Registers.ConfigFlag | esp-hal-drivers/src/mcp3428.rs:109-111 | the channel, resolution and gain fields each hold their setting, and bits 7 and 4 are clear |
| Registers.Command | esp-hal-drivers/src/mcp3428.rs:113-118 | every field holds its setting, and the start bit 7 is set exactly in one-shot mode |
| Registers.ModeOf | esp-hal-drivers/src/mcp3428.rs:265-274 | the decoded mode has the byte's mode bit as its pattern |
| Registers.ChannelOf | esp-hal-drivers/src/mcp3428.rs:375-406 | the decoded channel has the byte's bits 6-5 as its pattern |
| Registers.ResolutionOf | esp-hal-drivers/src/mcp3428.rs:287-300 | decoding fails exactly on the pattern 0b11; otherwise the decoded resolution has the byte's field as its pattern |
| Registers.GainOf | esp-hal-drivers/src/mcp3428.rs:344-360 | the decoded gain has the byte's bits 1-0 as its pattern |
| Registers.BitsInjective | esp-hal-drivers/src/mcp3428.rs:265-406 | distinct settings of each enum have distinct bit patterns |
| Registers.CommandRoundTrip | esp-hal-drivers/src/mcp3428.rs:109-118 | the control byte determines all four settings: decoding it recovers mode, channel, resolution and gain |
| Registers.ConfigRegister.IsReady | esp-hal-drivers/src/mcp3428.rs:256-259 | the register reports ready exactly when bit 7 is clear |
| Registers.MaskKeepsReadiness | esp-hal-drivers/src/mcp3428.rs:239-250 | masking the status byte with ALL, on either side, does not change readiness |
| Ints.Pow2 | esp-hal-drivers/src/mcp3428.rs:202 | `1 << n` is positive and larger than n |
| Ints.FromBeBytes | esp-hal-drivers/src/mcp3428.rs:186 | the sample is the 16-bit big-endian word modulo 2^16, and negative exactly when the high byte's top bit is set |
| Ints.FromBeBytesInjective | esp-hal-drivers/src/mcp3428.rs:186 | distinct byte pairs give distinct samples |
| Voltage.TruncDiv | esp-hal-drivers/src/mcp3428.rs:202 | the quotient is rounded toward zero and no larger in magnitude than the dividend |
| Voltage.TruncatedQuotientUnique | esp-hal-drivers/src/mcp3428.rs:202 | there is only one quotient rounded toward zero, so TruncDiv is Rust's `/` |
| Voltage.TruncDivOdd | esp-hal-drivers/src/mcp3428.rs:202 | dividing the negated dividend negates the quotient |
| Voltage.TruncDivMonotone | esp-hal-drivers/src/mcp3428.rs:202 | the quotient is monotone in the dividend |
| Voltage.CalculateVoltage | esp-hal-drivers/src/mcp3428.rs:194-203 | the maximum code is VoltageTooHigh, the minimum code is VoltageTooLow, and every other code gives code * 4096 / 2^bits mV rounded toward zero |
| Voltage.VoltageAt12BitsIsCode | esp-hal-drivers/src/mcp3428.rs:194-203 | at 12 bits one code is one millivolt |
| Voltage.VoltageWithinReference | esp-hal-drivers/src/mcp3428.rs:194-207 | a code strictly between Min and Max reads strictly between -2048 and 2048 mV |
| Voltage.VoltageOdd | esp-hal-drivers/src/mcp3428.rs:194-203 | negating a non-saturated code negates the voltage |
| Voltage.VoltageMonotone | esp-hal-drivers/src/mcp3428.rs:194-203 | a larger code never reads as a lower voltage |
| Driver.DecodeReply | esp-hal-drivers/src/mcp3428.rs:181-189 | a failed read is the bus error; otherwise the sample is the big-endian word of the first two bytes, and the register is ready exactly when the third byte's bit 7 is clear |
| Driver.EndsPolling | esp-hal-drivers/src/mcp3428.rs:153-155 | a poll stops at a reply exactly when the read failed or the status has bit 7 clear, whatever the ALL mask removes |
| Driver.MeasurementOf | esp-hal-drivers/src/mcp3428.rs:167-173 | the final reply gives the bus error exactly when the read failed; otherwise the voltage of its big-endian sample |
| Driver.StopIndex | esp-hal-drivers/src/mcp3428.rs:149-161 | polling stops at the first reply that is a failed read or reports ready, and every earlier reply was a successful not-ready read |
| Driver.Polls | esp-hal-drivers/src/mcp3428.rs:165-178 | n not-ready rounds are 2n events alternating a 3-byte read and a 1 ms sleep |
| Driver.PollTraceShape | esp-hal-drivers/src/mcp3428.rs:149-161 | a poll that stops at read k makes k + 1 reads, with exactly one 1 ms sleep between each two, and writes nothing |
| Driver.PollingOutcome | esp-hal-drivers/src/mcp3428.rs:164-189 | a polling result is a bus error exactly when the final read failed; otherwise the final status was ready and the result is the voltage of that reply's sample |
| Driver.ThermostatConfig.constructor | esp-hal-drivers/src/mcp3428.rs:67-76 | keeps address, bus and mode, takes the power-on resolution, gain and channel, and touches no bus |
| Driver.ThermostatConfig.WithResolution | esp-hal-drivers/src/mcp3428.rs:78-81 | sets the resolution only and returns the same object |
| Driver.ThermostatConfig.WithGain | esp-hal-drivers/src/mcp3428.rs:83-86 | sets the gain only and returns the same object |
| Driver.ThermostatConfig.WithChannel | esp-hal-drivers/src/mcp3428.rs:88-91 | sets the channel only and returns the same object |
| Driver.ThermostatConfig.SetChannel | esp-hal-drivers/src/mcp3428.rs:93-95 | sets the channel only |
| Driver.ThermostatConfig.SetMode | esp-hal-drivers/src/mcp3428.rs:97-99 | sets the mode only |
| Driver.ThermostatConfig.OneShotMeasurement | esp-hal-drivers/src/mcp3428.rs:120-133 | one write of the control byte; on a failed write, the bus error and nothing more; otherwise a sleep of the settle delay + 2 ms, then the polling of get_measurement, with its result and trace |
| Driver.ThermostatConfig.WriteConfig | esp-hal-drivers/src/mcp3428.rs:135-162 | one write of the control byte; on a failed write, the bus error; otherwise the settle sleep, then reads every 1 ms until a read fails (bus error) or reports ready (success) |
| Driver.ThermostatConfig.GetMeasurement | esp-hal-drivers/src/mcp3428.rs:164-179 | reads every 1 ms until a read fails or reports ready; the result is the decoded voltage of that final reply, and nothing is written |
| Driver.ThermostatConfig.ReadI2c | esp-hal-drivers/src/mcp3428.rs:181-189 | one 3-byte read, whose reply decodes as DecodeReply states |
| Scenarios.OneShotAfterTwoNotReady | esp-hal-drivers/src/mcp3428.rs:120-179 | with default settings, a device that is not ready twice and then returns 0x0400 gives 1024 mV after write, 6 ms sleep, and three reads separated by 1 ms sleeps |
| Scenarios.OneShotWriteFails | esp-hal-drivers/src/mcp3428.rs:120-128 | an unacknowledged one-shot write gives the bus error, with the write as the only event |
| Scenarios.ContinuousConfigReadyAtOnce | esp-hal-drivers/src/mcp3428.rs:135-162 | at 16 bits in continuous mode, the control byte is 0x18, followed by a 57 ms sleep and one read |

## Left out

- The real I2C peripheral, the async executor and the embassy timer. The
  `Board` script and its trace stand in for them. Time passes only as
  recorded sleeps.
- Driver.ThermostatConfig.WriteConfig, Driver.ThermostatConfig.GetMeasurement
  and Driver.ThermostatConfig.OneShotMeasurement: the source polls forever
  on a device that never answers. The model proves these methods only for
  scripts in which some reply ends the poll (`Answers`). A device that
  stays not-ready forever is not modelled.
- Ints.FromBeBytes: only `i16::from_be_bytes` is modelled. The inverse,
  encoding a sample back to bytes, does not appear in the driver.
- The device address is taken as any byte; the source does not validate it
  either.
- The `NotInitialized` and `NotReady` errors are declared but the driver
  never produces them; the model declares them and never produces them.
- A failed read leaves the buffer unchanged. The source does not say what
  a failed `I2c::read` leaves in it, and the driver never looks at it.
- The module's documentation example (lines 9-51) and `defmt` formatting.
- The doc comments on `Channel2`-`Channel4` mention the `dual_channel` and
  `quad_channel` cargo features. Only those notes are left out: the code
  gates nothing, and all four channels are modelled.
- The `esp-hal-pwm` crate and the application in `src/main.rs` are not
  part of this model.
