/** The driver's two collaborators, the I2C bus and the async timer, as one
    scripted object: writes and reads take their outcomes from queues fixed
    in advance, and every bus transaction and sleep is appended to a trace. */
module Hal {

  /** What one 3-byte read returns: a failure, or the sample's high and low
      bytes and the status byte. */
  datatype ReadReply = ReadFailed | ReadOk(hi: bv8, lo: bv8, status: bv8)

  /** One observable action of the driver. */
  datatype Event =
    | Write(address: bv8, bytes: seq<bv8>)
    | Read(address: bv8, count: nat)
    | Sleep(ms: nat)

  class Board {
    /** Outcome of each coming write, in order: true when acknowledged. */
    var writeAcks: seq<bool>
    /** Outcome of each coming read, in order. */
    var readReplies: seq<ReadReply>
    /** Everything done so far. */
    var trace: seq<Event>

    constructor (writeAcks: seq<bool>, readReplies: seq<ReadReply>)
      ensures this.writeAcks == writeAcks && this.readReplies == readReplies
      ensures trace == []
    {
      this.writeAcks := writeAcks;
      this.readReplies := readReplies;
      trace := [];
    }

    /** `I2c::write`: send `bytes` to the device at `address`. */
    method I2cWrite(address: bv8, bytes: seq<bv8>) returns (ok: bool)
      requires |writeAcks| > 0
      modifies this
      ensures ok == old(writeAcks[0])
      ensures writeAcks == old(writeAcks[1..]) && readReplies == old(readReplies)
      ensures trace == old(trace) + [Write(address, bytes)]
    {
      ok := writeAcks[0];
      writeAcks := writeAcks[1..];
      trace := trace + [Write(address, bytes)];
    }

    /** `I2c::read`: fill the 3-byte `buf` from the device at `address`; a
        failed read leaves `buf` as it was. */
    method I2cRead(address: bv8, buf: array<bv8>) returns (ok: bool)
      requires |readReplies| > 0 && buf.Length == 3
      modifies this, buf
      ensures ok == old(readReplies[0]).ReadOk?
      ensures ok ==> buf[0] == old(readReplies[0]).hi && buf[1] == old(readReplies[0]).lo
                     && buf[2] == old(readReplies[0]).status
      ensures !ok ==> unchanged(buf)
      ensures readReplies == old(readReplies[1..]) && writeAcks == old(writeAcks)
      ensures trace == old(trace) + [Read(address, buf.Length)]
    {
      var reply := readReplies[0];
      ok := reply.ReadOk?;
      if ok {
        buf[0], buf[1], buf[2] := reply.hi, reply.lo, reply.status;
      }
      readReplies := readReplies[1..];
      trace := trace + [Read(address, buf.Length)];
    }

    /** `Timer::after(Duration::from_millis(ms))`. */
    method Sleep(ms: nat)
      modifies this
      ensures writeAcks == old(writeAcks) && readReplies == old(readReplies)
      ensures trace == old(trace) + [Event.Sleep(ms)]
    {
      trace := trace + [Event.Sleep(ms)];
    }
  }
}
