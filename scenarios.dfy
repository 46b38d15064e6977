/** Scenarios: the driver against particular scripted devices, with results
    and traces derived from the contracts of module Driver alone. */
module Scenarios {
  import opened Ints
  import opened Errors
  import opened Registers
  import opened Hal
  import opened Driver

  /** A one-shot conversion at the power-on settings on a device that reports
      not ready twice, then ready with the code 0x0400: one write of the
      control byte with the start bit, the 4 + 2 ms settle sleep, three reads
      with a 1 ms sleep between each two, and the code 1024 read as 1024 mV. */
  method OneShotAfterTwoNotReady() returns (r: Result<I32>, trace: seq<Event>)
    ensures r == Ok(1024)
    ensures trace == [Write(0x68, [0x80]), Event.Sleep(6),
                      Read(0x68, 3), Event.Sleep(1),
                      Read(0x68, 3), Event.Sleep(1),
                      Read(0x68, 3)]
  {
    var busy := ReadOk(0x04, 0x00, 0x80);
    var ready := ReadOk(0x04, 0x00, 0x00);
    var replies := [busy, busy, ready];
    var board := new Board([true], replies);
    var adc := new ThermostatConfig(0x68, board, OneShot);
    assert !EndsPolling(busy) && EndsPolling(ready);
    assert replies[2] == ready;
    assert StopIndex(replies) == 2;
    var voltage := adc.OneShotMeasurement();
    Voltage.VoltageAt12BitsIsCode(1024);
    r := voltage;
    trace := board.trace;
  }

  /** A one-shot conversion whose write is not acknowledged: a bus error, and
      nothing after the write. */
  method OneShotWriteFails() returns (r: Result<I32>, trace: seq<Event>)
    ensures r == Err(I2c)
    ensures trace == [Write(0x68, [0x80])]
  {
    var board := new Board([false], []);
    var adc := new ThermostatConfig(0x68, board, OneShot);
    r := adc.OneShotMeasurement();
    trace := board.trace;
  }

  /** A continuous-mode configuration write at 16 bits on a device that is
      ready at once: no start bit in the control byte 0x18, the 57 ms settle
      sleep, then a single read. */
  method ContinuousConfigReadyAtOnce() returns (r: Result<()>, trace: seq<Event>)
    ensures r == Ok(())
    ensures trace == [Write(0x68, [0x18]), Event.Sleep(57), Read(0x68, 3)]
  {
    var reply := ReadOk(0x12, 0x34, 0x18);
    var board := new Board([true], [reply]);
    assert EndsPolling(reply) && [reply][0] == reply;
    var adc := new ThermostatConfig(0x68, board, Continuous);
    var _ := adc.WithResolution(Bits16Sps15);
    r := adc.WriteConfig();
    trace := board.trace;
  }
}
