/** The serial side of `AquilaBridge`: checksum routines over a buffer, and the object that frames what it
    sends and checks what it receives. */
module Bridge {
  import opened SlipModel
  import opened SlipLink
  import opened CrcModel
  import opened BridgeModel

  method CalcCrc(data: array<byte>, size: nat) returns (crc: bv16)
    requires size <= data.Length
    ensures crc == Crc(data[..size])
  {
    hide BitStep, High;
    crc := 0;
    var k := 0;
    while k < size
      invariant k <= size && CrcFrom(crc, data[k..size]) == Crc(data[..size])
    {
      ghost var was := crc;
      assert data[k..size][0] == data[k] && data[k..size][1..] == data[k + 1..size];
      crc := crc ^ High(data[k]);
      var i := 8;
      while i > 0
        invariant 0 <= i <= 8 && Bits(crc, i) == ByteStep(was, data[k])
      {
        crc := ShiftBit(crc);
        i := i - 1;
      }
      k := k + 1;
    }
  }

  method ShiftBit(crc: bv16) returns (r: bv16)
    ensures r == BitStep(crc)
  {
    if crc & 0x8000 != 0 { r := (crc << 1) ^ 0x1021; } else { r := crc << 1; }
  }

  method AppendCrc(buffer: array<byte>, size: nat) returns (newSize: nat)
    requires size + 2 <= buffer.Length
    modifies buffer
    ensures newSize == size + 2
    ensures buffer[..] == WithCrc(old(buffer[..size])) + old(buffer[..])[size + 2..]
  {
    hide Crc, LowByte, HighByte;
    var crc := CalcCrc(buffer, size);
    buffer[size] := LowByte(crc);
    buffer[size + 1] := HighByte(crc);
    return size + 2;
  }

  method CheckCrc(data: array<byte>, size: nat) returns (ok: bool)
    requires 2 <= size <= data.Length
    ensures ok == Checks(data[..size])
  {
    hide Crc, Joined;
    var crc := Joined(data[size - 2], data[size - 1]);
    var calcdCrc := CalcCrc(data, size - 2);
    assert data[..size][..size - 2] == data[..size - 2];
    return crc == calcdCrc;
  }

  class AquilaBridge {
    const slip: Slip
    const comTxBuffer: array<byte>
    ghost var commands: seq<seq<byte>>   // what `parseCommand` was given
    ghost var sent: seq<seq<byte>>       // the payloads of `sendComBuffer`

    ghost predicate Valid()
      reads this, slip
    {
      slip.Valid() && comTxBuffer.Length == MAX_SIZE &&
      comTxBuffer != slip.buffer && comTxBuffer != slip.bufCopy &&
      commands == Commands(slip.log) && slip.output == Wire(sent)
    }

    constructor ()
      ensures Valid() && Ready(slip.State()) && commands == [] && sent == []
    {
      slip := new Slip();
      comTxBuffer := new byte[MAX_SIZE];
      commands, sent := [], [];
    }

    /** Sends the first `size` bytes of the buffer, behind which the checksum must fit. */
    method SendComBuffer(size: nat)
      requires Valid() && size + 2 <= MAX_SIZE
      modifies this`sent, comTxBuffer, slip`output
      ensures Valid() && sent == old(sent) + [old(comTxBuffer[..size])]
    {
      hide Crc, LowByte, HighByte, Frame, Commands, Wire;
      ghost var payload := comTxBuffer[..size];
      var n := AppendCrc(comTxBuffer, size);
      assert comTxBuffer[..n] == WithCrc(payload);
      slip.Send(comTxBuffer, n);
      WireAppend(sent, payload);
      sent := sent + [payload];
    }

    method OnData(data: array<byte>, size: nat)
      requires 2 <= size <= data.Length
      modifies this`commands
      ensures commands == old(commands) + Commands([data[..size]])
    {
      hide Checks;
      assert [data[..size]][1..] == [];
      var ok := CheckCrc(data, size);
      if ok {
        assert data[..size][..size - 2] == data[..size - 2];
        commands := commands + [data[..size - 2]];
      }
    }

    /** One received byte. */
    method Loop(recv: byte)
      requires Valid()
      modifies this`commands, slip`bufIndex, slip`receiving, slip`log, slip.buffer, slip.bufCopy
      ensures Valid() && slip.State() == Feed(old(slip.State()), recv)
    {
      hide Checks, Wire;
      ghost var before := slip.log;
      var received := slip.Loop(recv);
      if received.Some? {
        CommandsAppend(before, [slip.buffer[..received.value]]);
        if received.value >= 2 {
          OnData(slip.buffer, received.value);
        } else {
          assert [slip.buffer[..received.value]][1..] == [];
        }
      }
    }
  }
}
