/** Event frames of the protocol: what `emit` and `send` put into a packet, and what `parsePacket` makes of it.
    A frame holds version, control byte, event, parameter, address, and the name behind its length. */
module EventFrame {
  import opened Wrappers

  type byte = bv8

  const VERSION: byte := 3
  const EVENT: byte := 6
  const MAX_PAYLOAD: nat := 105
  const EUI_LENGTH: nat := 8
  const MAX_EVENTS: nat := 100
  const NAME_SIZE: nat := MAX_PAYLOAD - (4 + EUI_LENGTH)

  /** A name is a C string of at most 92 characters. */
  predicate NameOk(name: seq<byte>) { |name| < NAME_SIZE && 0 !in name }

  function Control(hasParam: bool): byte { EVENT | (if hasParam then 8 else 0) | 16 }

  /** The fields of fixed size: control, event, parameter, address. */
  function Fixed(eui: seq<byte>, event: byte, param: byte, hasParam: bool): seq<byte> {
    [Control(hasParam), event] + (if hasParam then [param] else []) + eui
  }

  /** The name behind its length. */
  function NameBytes(name: Option<seq<byte>>): seq<byte> {
    match name
    case None => []
    case Some(n) => [(|n| % 256) as byte] + n
  }

  /** The packet for an event. */
  function Frame(eui: seq<byte>, event: byte, param: byte, hasParam: bool, name: Option<seq<byte>>): seq<byte> {
    [VERSION] + Fixed(eui, event, param, hasParam) + NameBytes(name)
  }

  /** What `parsePacket` does with a packet; events are passed on, other well-formed commands are not part of
      this model. */
  datatype Outcome =
    | Nack
    | Ignored
    | Command(kind: byte)
    | CheckEvent(eui: seq<byte>, event: byte, param: byte, hasParam: bool, name: seq<byte>)

  /** A buffer as the C string it holds. */
  function CString(s: seq<byte>): seq<byte> { if s == [] || s[0] == 0 then [] else [s[0]] + CString(s[1..]) }

  predicate HasParam(control: byte) { (control >> 3) & 1 != 0 }

  /** The name field of an event packet whose fields before it are `size` bytes long. */
  function NameField(data: seq<byte>, size: nat): seq<byte> {
    if |data| <= size then []
    else if data[size] as nat <= |data| - size - 1 then data[size + 1..][..data[size] as nat]
    else []
  }

  function EventSize(hasParam: bool): nat { 3 + (if hasParam then 1 else 0) + EUI_LENGTH }

  function Parse(data: seq<byte>): Outcome {
    if |data| < 2 || data[0] != VERSION then Nack
    else
      var kind := data[1] & 7;
      var hasParam := HasParam(data[1]);
      if kind == 0 || kind == 1 then Ignored
      else if kind == 5 || kind == 7 then Nack
      else if kind != EVENT then Command(kind)
      else if |data| < EventSize(hasParam) then Ignored
      else
        var at := if hasParam then 4 else 3;
        CheckEvent(data[at..at + EUI_LENGTH], data[2], if hasParam then data[3] else 0, hasParam,
                   CString(NameField(data, EventSize(hasParam))))
  }

  // ---- decoding undoes encoding ----

  lemma ControlIs(hasParam: bool)
    ensures Control(hasParam) & 7 == EVENT && HasParam(Control(hasParam)) == hasParam
  {
  }

  lemma {:induction false} CStringIs(s: seq<byte>)
    requires 0 !in s
    ensures CString(s) == s
    decreases |s|
  {
    if s != [] { CStringIs(s[1..]); }
  }

  lemma FixedIs(eui: seq<byte>, event: byte, param: byte, hasParam: bool)
    requires |eui| == EUI_LENGTH
    ensures var f, at := Fixed(eui, event, param, hasParam), if hasParam then 3 else 2;
      |f| + 1 == EventSize(hasParam) && f[0] == Control(hasParam) && f[1] == event && (hasParam ==> f[2] == param) &&
      f[at..] == eui
  {
    hide Control;
  }

  lemma NameIs(head: seq<byte>, name: Option<seq<byte>>)
    requires name.Some? ==> NameOk(name.value)
    ensures NameField(head + NameBytes(name), |head|) == if name.Some? then name.value else []
  {
    if name.Some? {
      var n := name.value;
      var b := (|n| % 256) as byte;
      assert b as nat == |n|;
      BehindLength(head, b, n);
    }
  }

  lemma BehindLength(head: seq<byte>, b: byte, n: seq<byte>)
    ensures var f := head + ([b] + n); f[|head|] == b && f[|head| + 1..][..|n|] == n
  {
  }

  /** An event frame comes out as it was put in, a missing name as the empty one; it fits the payload. */
  lemma FrameParses(eui: seq<byte>, event: byte, param: byte, hasParam: bool, name: Option<seq<byte>>)
    requires |eui| == 8 && (name.Some? ==> |name.value| <= 92 && 0 !in name.value)
    ensures |Frame(eui, event, param, hasParam, name)| <= 105
    ensures Parse(Frame(eui, event, param, hasParam, name)) ==
      CheckEvent(eui, event, if hasParam then param else 0, hasParam, if name.Some? then name.value else [])
  {
    hide Control, HasParam, Fixed, NameField, CString;
    var fixed := Fixed(eui, event, param, hasParam);
    var head := [VERSION] + fixed;
    ControlIs(hasParam);
    FixedIs(eui, event, param, hasParam);
    NameIs(head, name);
    CStringIs(if name.Some? then name.value else []);
    var f := Frame(eui, event, param, hasParam, name);
    var at := if hasParam then 4 else 3;
    assert f[at..at + EUI_LENGTH] == fixed[at - 1..];
    assert f[1] == fixed[0] && f[2] == fixed[1] && (hasParam ==> f[3] == fixed[2]);
  }

  /** The bytes of an event frame. */
  lemma FrameBytes(eui: seq<byte>, event: byte, param: byte, name: seq<byte>)
    requires |name| < 256
    ensures Frame(eui, event, param, true, Some(name)) == [3, 0x1E, event, param] + eui + ([|name| as byte] + name)
    ensures Frame(eui, event, param, false, Some(name)) == [3, 0x16, event] + eui + ([|name| as byte] + name)
    ensures Frame(eui, event, param, true, None) == [3, 0x1E, event, param] + eui
    ensures Frame(eui, event, param, false, None) == [3, 0x16, event] + eui
  {
    hide Fixed, NameBytes;
    FixedBytes(eui, event, param);
    NameOf(name);
    NoName();
  }

  lemma FixedBytes(eui: seq<byte>, event: byte, param: byte)
    ensures [VERSION] + Fixed(eui, event, param, true) == [3, 0x1E, event, param] + eui
    ensures [VERSION] + Fixed(eui, event, param, false) == [3, 0x16, event] + eui
  {
    ControlBytes();
    hide Control;
  }

  lemma NameOf(name: seq<byte>)
    requires |name| < 256
    ensures NameBytes(Some(name)) == [|name| as byte] + name
  {
  }

  lemma ControlBytes()
    ensures Control(true) == 0x1E && Control(false) == 0x16
  {
  }

  /** A packet is taken for an event exactly if it is of version 3 and kind 6 and long enough for the fields its
      control byte announces. */
  lemma EventIff(data: seq<byte>)
    ensures Parse(data).CheckEvent? <==>
      |data| >= 11 && data[0] == 3 && data[1] & 7 == 6 && (data[1] & 8 == 0 || |data| >= 12)
  {
    if |data| >= 2 { ParamBit(data[1]); }
    hide HasParam;
  }

  /** Where the fields of an event packet are; a name that is missing or cut off is empty, and so is one that begins
      with a zero byte. */
  lemma EventFields(data: seq<byte>)
    requires Parse(data).CheckEvent?
    ensures |data| >= 11 && (data[1] & 8 != 0 ==> |data| >= 12)
    ensures var p, at := Parse(data), if data[1] & 8 != 0 then 12 else 11;
      p.event == data[2] && p.hasParam == (at == 12) && p.param == (if at == 12 then data[3] else 0) &&
      p.eui == data[at - 8..at] &&
      (|data| == at || |data| < at + 1 + data[at] as nat || |data| == at + 1 || data[at + 1] == 0 ==> p.name == []) &&
      (|data| > at && |data| == at + 1 + data[at] as nat && 0 !in data[at + 1..] ==> p.name == data[at + 1..])
  {
    EventIff(data);
    ParamBit(data[1]);
    hide HasParam, CString;
    var at := if data[1] & 8 != 0 then 12 else 11;
    CStringHead(NameField(data, at));
    if |data| > at && |data| == at + 1 + data[at] as nat {
      assert data[at + 1..][..data[at] as nat] == data[at + 1..];
      if 0 !in data[at + 1..] { CStringIs(data[at + 1..]); }
    }
  }

  lemma CStringHead(s: seq<byte>)
    ensures s == [] || s[0] == 0 ==> CString(s) == []
  {
  }

  lemma ParamBit(control: byte)
    ensures HasParam(control) <==> control & 8 != 0
  {
  }

  /** The other packets: another version is refused, so are kinds 5 and 7; kinds 0 and 1 and events that are cut
      off are ignored. */
  lemma OtherPackets(data: seq<byte>)
    ensures |data| < 2 || data[0] != 3 ==> Parse(data) == Nack
    ensures |data| >= 2 && data[0] == 3 ==>
      (Parse(data) == Nack <==> data[1] & 7 == 5 || data[1] & 7 == 7) &&
      (Parse(data).Command? <==> data[1] & 7 == 2 || data[1] & 7 == 3 || data[1] & 7 == 4) &&
      (data[1] & 7 == 0 || data[1] & 7 == 1 ==> Parse(data) == Ignored)
  {
    hide HasParam;
    if |data| >= 2 { KindIs(data[1]); }
  }

  lemma KindIs(control: byte)
    ensures var k := control & 7; k == 0 || k == 1 || k == 2 || k == 3 || k == 4 || k == 5 || k == 6 || k == 7
  {
  }

  // ---- the routines ----

  method Copy(dest: array<byte>, at: nat, src: seq<byte>)
    requires at + |src| <= dest.Length
    modifies dest
    ensures dest[..] == old(dest[..])[..at] + src + old(dest[..])[at + |src|..]
  {
    var k := 0;
    while k < |src|
      invariant k <= |src|
      invariant forall j | 0 <= j < k :: dest[at + j] == src[j]
      invariant forall j | 0 <= j < at || at + k <= j < dest.Length :: dest[j] == old(dest[j])
    {
      dest[at + k] := src[k];
      k := k + 1;
    }
  }

  class AquilaProtocol {
    const euiAddress: seq<byte>
    const events: array<Option<seq<byte>>>
    ghost var sent: seq<seq<byte>>

    constructor (euiAddress: seq<byte>)
      ensures this.euiAddress == euiAddress && sent == []
      ensures fresh(events) && events.Length == MAX_EVENTS && forall i | 0 <= i < MAX_EVENTS :: events[i] == None
    {
      this.euiAddress := euiAddress;
      events := new Option<seq<byte>>[MAX_EVENTS](_ => None);
      sent := [];
    }

    /** `send`: the version in front of a command. */
    method Send(command: array<byte>, size: nat)
      requires size <= command.Length && size < MAX_PAYLOAD
      modifies this`sent
      ensures sent == old(sent) + [[VERSION] + command[..size]]
    {
      var data := new byte[MAX_PAYLOAD];
      data[0] := VERSION;
      Copy(data, 1, command[..size]);
      assert data[..size + 1] == [VERSION] + command[..size];
      sent := sent + [data[..size + 1]];
    }

    /** The first half of `emit`. */
    method PutFixed(packet: array<byte>, event: byte, param: byte, hasParam: bool) returns (index: nat)
      requires packet.Length == MAX_PAYLOAD && |euiAddress| == EUI_LENGTH
      modifies packet
      ensures index + 1 == EventSize(hasParam) && packet[..index] == Fixed(euiAddress, event, param, hasParam)
    {
      hide Control;
      index := 2;
      packet[0] := Control(hasParam);
      packet[1] := event;
      if hasParam {
        packet[index] := param;
        index := index + 1;
      }
      Copy(packet, index, euiAddress);
      index := index + EUI_LENGTH;
    }

    /** The second half: returns where the name begins and its length. */
    method PutName(packet: array<byte>, start: nat, name: seq<byte>) returns (index: nat, descLen: nat)
      requires packet.Length == MAX_PAYLOAD && NameOk(name) && start + 1 + |name| < MAX_PAYLOAD
      modifies packet
      ensures index + descLen == start + 1 + |name|
      ensures packet[..index + descLen] == old(packet[..start]) + NameBytes(Some(name))
    {
      index, descLen := start, |name| % 256;
      assert descLen == |name|;
      if descLen < MAX_PAYLOAD - (index + 1) {
        packet[index] := descLen as byte;
        index := index + 1;
        Copy(packet, index, name);
      }
    }

    /** `emit`, without the check of the sender's own subscriptions. */
    method Emit(event: byte, param: byte, hasParam: bool)
      requires |euiAddress| == EUI_LENGTH && event as nat < events.Length
      requires events[event as nat].Some? ==> NameOk(events[event as nat].value)
      modifies this`sent
      ensures sent == old(sent) + [Frame(euiAddress, event, param, hasParam, events[event as nat])]
    {
      hide Fixed, NameBytes;
      var packet := new byte[MAX_PAYLOAD];
      var index := PutFixed(packet, event, param, hasParam);
      var descLen := 0;
      ghost var fixed := packet[..index];
      NoName();
      if events[event as nat].Some? {
        index, descLen := PutName(packet, index, events[event as nat].value);
      }
      ghost var command := packet[..index + descLen];
      assert [VERSION] + command == [VERSION] + fixed + NameBytes(events[event as nat]);
      Send(packet, index + descLen);
    }
  }

  lemma NoName()
    ensures NameBytes(None) == []
  {
  }

  lemma Slice(s: seq<byte>, n: nat, i: nat, j: nat)
    requires i <= j <= n <= |s|
    ensures s[..n][i..j] == s[i..j]
  {
  }

  /** `parsePacket`; a name must leave room for its terminator. */
  method ParsePacket(data: array<byte>, dataLen: nat) returns (r: Outcome)
    requires dataLen <= data.Length && dataLen <= MAX_PAYLOAD
    requires dataLen >= 2 ==> |NameField(data[..dataLen], EventSize(HasParam(data[1])))| < NAME_SIZE
    ensures r == Parse(data[..dataLen])
  {
    hide HasParam, CString, NameField;
    ghost var bytes := data[..dataLen];
    if dataLen < 2 { return Nack; }
    if data[0] != VERSION { return Nack; }
    var kind := data[1] & 7;
    var hasParam := HasParam(data[1]);
    if kind != EVENT {
      return if kind == 0 || kind == 1 then Ignored else if kind == 5 || kind == 7 then Nack else Command(kind);
    }
    if dataLen < 3 + (if hasParam then 1 else 0) + EUI_LENGTH { return Ignored; }
    var param, index := 0, 2;
    var command := data[index];
    index := index + 1;
    if hasParam {
      param := data[index];
      index := index + 1;
    }
    var rxEui := data[index..index + EUI_LENGTH];
    Slice(data[..], dataLen, index, index + EUI_LENGTH);
    assert bytes == data[..][..dataLen];
    assert rxEui == data[..][index..index + EUI_LENGTH];
    index := index + EUI_LENGTH;
    var name := ReadName(data, dataLen, index);
    return CheckEvent(rxEui, command, param, hasParam, name);
  }

  /** The name behind the fixed fields, copied to a buffer of its own and terminated. */
  method ReadName(data: array<byte>, dataLen: nat, start: nat) returns (name: seq<byte>)
    requires start <= dataLen <= data.Length && |NameField(data[..dataLen], start)| < NAME_SIZE
    ensures name == CString(NameField(data[..dataLen], start))
  {
    hide CString, NameField;
    NamePart(data[..dataLen], start);
    var index := start;
    if dataLen > index {
      var eNameLen := data[index] as nat;
      index := index + 1;
      if eNameLen <= dataLen - index {
        Slice(data[..], dataLen, index, index + eNameLen);
        assert data[..dataLen] == data[..][..dataLen];
        name := CopyName(data[..][index..index + eNameLen]);
        return;
      }
    }
    name := CopyName([]);
  }

  /** Through a buffer of its own, with a terminator. */
  method CopyName(part: seq<byte>) returns (name: seq<byte>)
    requires |part| < NAME_SIZE
    ensures name == CString(part)
  {
    hide CString;
    var eName := new byte[NAME_SIZE];
    Copy(eName, 0, part);
    eName[|part|] := 0;
    assert eName[..|part|] == part;
    CStringStops(eName[..], part);
    name := CString(eName[..]);
  }

  lemma NamePart(data: seq<byte>, start: nat)
    requires start <= |data|
    ensures start == |data| ==> NameField(data, start) == []
    ensures start < |data| && data[start] as nat <= |data| - start - 1 ==>
      NameField(data, start) == data[start + 1..start + 1 + data[start] as nat]
    ensures start < |data| && data[start] as nat > |data| - start - 1 ==> NameField(data, start) == []
  {
  }

  /** The terminator ends the name, whatever lies behind it. */
  lemma {:induction false} CStringStops(buffer: seq<byte>, s: seq<byte>)
    requires |s| < |buffer| && buffer[..|s|] == s && buffer[|s|] == 0
    ensures CString(buffer) == CString(s)
    decreases |s|
  {
    if s != [] {
      assert buffer[0] == s[0];
      assert buffer[1..][..|s| - 1] == s[1..];
      CStringStops(buffer[1..], s[1..]);
    }
  }
}
