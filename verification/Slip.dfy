/** The `Slip` object: a receive buffer that is rewritten in place when a frame ends. */
module SlipLink {
  import opened Wrappers
  import opened SlipModel

  class Slip {
    const buffer: array<byte>
    const bufCopy: array<byte>
    var bufIndex: nat
    var receiving: bool
    ghost var log: seq<seq<byte>>   // what the callback was given
    ghost var output: seq<byte>     // what was written to the serial port

    ghost predicate Valid()
      reads this`bufIndex
    {
      buffer.Length == MAX_SIZE && bufCopy.Length == MAX_SIZE && bufIndex < MAX_SIZE && buffer != bufCopy
    }

    ghost function State(): Rx
      reads this, buffer, bufCopy
    {
      Rx(buffer[..], bufCopy[..], bufIndex, receiving, log)
    }

    constructor ()
      ensures Valid() && Ready(State()) && log == [] && output == []
      ensures fresh(buffer) && fresh(bufCopy)
    {
      buffer, bufCopy := new byte[MAX_SIZE], new byte[MAX_SIZE];
      bufIndex, receiving, log, output := 0, false, [], [];
    }

    /** The `memcpy` into the static copy; what lies behind `size` is from earlier frames. */
    method CopyBuffer(size: nat)
      requires Valid() && size <= MAX_SIZE
      modifies bufCopy
      ensures bufCopy[..] == buffer[..size] + old(bufCopy[..])[size..]
    {
      var k := 0;
      while k < size
        invariant k <= size
        invariant forall j | 0 <= j < MAX_SIZE :: bufCopy[j] == if j < k then buffer[j] else old(bufCopy[j])
      {
        bufCopy[k] := buffer[k];
        k := k + 1;
      }
    }

    method ParseEscapes()
      requires Valid() && bufIndex < MAX_SIZE - 1
      modifies this`bufIndex, buffer, bufCopy
      ensures Valid()
      ensures var copy := old(buffer[..])[..old(bufIndex) + 1] + old(bufCopy[..])[old(bufIndex) + 1..];
        var out := Parse(copy, 0, old(bufIndex) + 1);
        bufCopy[..] == copy && bufIndex == |out| && buffer[..] == out + old(buffer[..])[|out|..]
    {
      hide Parse;
      var size := bufIndex + 1;
      CopyBuffer(size);
      ghost var copy := bufCopy[..];
      ghost var out := Parse(copy, 0, size);
      bufIndex := 0;
      var i := 0;
      while i < size
        invariant bufCopy[..] == copy && bufIndex <= i <= size + 1 && bufIndex <= |out| <= size
        invariant forall j | 0 <= j < MAX_SIZE :: buffer[j] == if j < bufIndex then out[j] else old(buffer[j])
        invariant out[bufIndex..] == Parse(copy, i, size)
      {
        ParseTurn(copy, i, size);
        assert out[bufIndex] == out[bufIndex..][0] && out[bufIndex + 1..] == out[bufIndex..][1..];
        assert bufCopy[i] == copy[i] && bufCopy[i + 1] == copy[i + 1];
        var b := bufCopy[i];
        if b == ESC {
          i := i + 1;
          b := bufCopy[i];
          if b == ESC_END { b := END; } else if b == ESC_ESC { b := ESC; }
        }
        buffer[bufIndex] := b;
        bufIndex := bufIndex + 1;
        i := i + 1;
      }
    }

    /** `loop` with a byte at hand; `received` is the size passed to the callback. */
    method Loop(recv: byte) returns (received: Option<nat>)
      requires Valid()
      modifies this`bufIndex, this`receiving, this`log, buffer, bufCopy
      ensures Valid() && State() == Feed(old(State()), recv)
      ensures match received
              case None => log == old(log)
              case Some(size) => size < MAX_SIZE && log == old(log) + [buffer[..size]]
    {
      hide Parse;
      received := None;
      if !receiving {
        if recv == END {
          bufIndex := 0;
          receiving := true;
        }
      }
      if receiving {
        if bufIndex >= MAX_SIZE - 1 {
          receiving := false;
          return;
        }
        if recv == END {
          if bufIndex == 0 { return; }
          ghost var out := Deliver(State()).buffer[..Deliver(State()).index];
          ParseEscapes();
          assert buffer[..][..bufIndex] == out;
          assert buffer[..bufIndex - 1] == out[..bufIndex - 1];
          received := Some(bufIndex - 1);
          log := log + [buffer[..bufIndex - 1]];
          receiving := false;
        } else {
          buffer[bufIndex] := recv;
          bufIndex := bufIndex + 1;
        }
      }
    }

    method Write(b: byte)
      modifies this`output
      ensures output == old(output) + [b]
    {
      output := output + [b];
    }

    method SendByte(b: byte)
      modifies this`output
      ensures output == old(output) + EscapedByte(b)
    {
      if b == END {
        Write(ESC);
        Write(ESC_END);
      } else if b == ESC {
        Write(ESC);
        Write(ESC_ESC);
      } else {
        Write(b);
      }
    }

    method Send(data: array<byte>, size: nat)
      requires size <= data.Length
      modifies this`output
      ensures output == old(output) + Frame(data[..size])
    {
      hide EscapedByte;
      Write(END);
      var i := 0;
      while i < size
        invariant i <= size && output + Escaped(data[i..size]) == old(output) + [END] + Escaped(data[..size])
      {
        ghost var rest, was := data[i..size], output;
        assert rest[0] == data[i] && rest[1..] == data[i + 1..size];
        SendByte(data[i]);
        assert output + Escaped(rest[1..]) == was + Escaped(rest);
        i := i + 1;
      }
      ghost var sent := output;
      assert sent + Escaped(data[size..size]) == sent;
      Write(END);
      assert sent + [END] == old(output) + Frame(data[..size]);
    }
  }
}
