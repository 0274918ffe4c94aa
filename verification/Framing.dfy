/** How deviceTransaction and sendData of software/usb_ir/device-interface.c cut a request
    into a control packet and data packets. */
module Framing {
  import opened Bytes
  import opened Protocol
  import opened IdBlock
  import opened Runs

  /** The device settings that enter a control packet. */
  datatype Device = Device(version: nat, channels: Byte, delay7: Byte, delay4: Byte)

  function Sum(s: seq<Byte>): nat {
    if s == [] then 0 else Sum(s[..|s| - 1]) + s[|s| - 1]
  }

  /** The code that goes on the wire before translation. */
  function WireCode(code: Byte): Byte {
    if code == GETID then EXECUTE else if code == SETID then WRITEBLOCK else code
  }

  /** Bytes 2 and 3 of a block hold the sum of its 64 code bytes. */
  function WithChecksum(data: seq<Byte>): (r: seq<Byte>)
    requires |data| == BLOCK_SIZE
    ensures |r| == BLOCK_SIZE
  {
    var sum := Sum(data[4..]);
    data[2 := sum / 256 % 256][3 := sum % 256]
  }

  /** The guard of the checksum: the translated code is WRITEBLOCK and the size fits. */
  predicate Checksummed(code: Byte, data: seq<Byte>, version: nat) {
    DeviceCode(WireCode(code), version, true) == WRITEBLOCK && |data| == BLOCK_SIZE
  }

  /** The data that is transmitted. */
  function Payload(code: Byte, data: seq<Byte>, version: nat): (r: seq<Byte>)
    ensures |r| == |data|
  {
    if Checksummed(code, data, version) then WithChecksum(data) else data
  }

  /** Requests whose data never goes into the control packet. */
  predicate Streams(code: Byte) {
    code == SEND || code == PINBURST || code == REPEATER
  }

  /** How much of the data the control packet carries. */
  function Inlined(code: Byte, size: nat): (n: nat)
    ensures n <= 4 && n <= size
  {
    if Streams(code) || code == SETPINCONFIG then 0 else if size > 4 then 4 else size
  }

  predicate HasBody(version: nat) {
    version % 256 != 0 && version / 256 % 256 != 0
  }

  /** The arguments of a streaming request: length, channels and carrier delays. */
  function StreamArguments(code: Byte, size: nat, dev: Device): seq<Byte> {
    var channels := if code == PINBURST then [] else [dev.channels];
    var delays := if code == PINBURST || !HasBody(dev.version) then [] else [dev.delay7, dev.delay4];
    if dev.version < 3 then [] else [size % 256] + channels + delays
  }

  function Control(code: Byte, payload: seq<Byte>, dev: Device): seq<Byte> {
    [CTL_START, CTL_START, CTL_TODEV, DeviceCode(WireCode(code), dev.version, true)]
      + payload[..Inlined(code, |payload|)]
      + if Streams(code) then StreamArguments(code, |payload|, dev) else []
  }

  /** The zero byte that closes a send on the oldest devices. */
  function Terminator(code: Byte, size: nat, version: nat): seq<Byte> {
    if version < 3 && code == SEND && size > 0 then [0] else []
  }

  /** Every data packet is non-empty and fits. */
  ghost predicate WellSized(packets: seq<Packet>, max: nat) {
    forall i | 0 <= i < |packets| :: 0 < |packets[i]| <= max
  }

  /** sendData: full packets, then the rest with the terminator. */
  method SendData(buffer: seq<Byte>, max: nat, addTerminator: bool) returns (packets: seq<Packet>)
    requires max >= 1
    ensures Concat(packets) == buffer + if addTerminator then [0] else []
    ensures WellSized(packets, max)
  {
    var count, lastSize := |buffer| / max, |buffer| % max;
    ghost var whole := count * max;
    assert whole + lastSize == |buffer|;
    packets := [];
    var at := 0;
    for x := 0 to count
      invariant at == x * max <= whole
      invariant WellSized(packets, max)
      invariant Concat(packets) == buffer[..at]
    {
      StepFits(x, count, max);
      ConcatLast(packets, buffer[at..at + max]);
      assert buffer[..at + max] == buffer[..at] + buffer[at..at + max];
      packets := packets + [buffer[at..at + max]];
      at := at + max;
    }
    var last := buffer[at..] + if addTerminator then [0] else [];
    assert |last| == lastSize + if addTerminator then 1 else 0;
    assert buffer == buffer[..at] + buffer[at..];
    if last != [] {
      ConcatLast(packets, last);
      Assoc(buffer[..at], buffer[at..], if addTerminator then [0] else []);
      packets := packets + [last];
    }
  }

  lemma StepFits(x: nat, count: nat, max: nat)
    requires x < count
    ensures (x + 1) * max == x * max + max && (x + 1) * max <= count * max
  {
    assert count * max == (x + 1) * max + (count - x - 1) * max;
  }

  /** The checksum loop, in place on the request data. */
  method AddChecksum(data: array<Byte>)
    requires data.Length == BLOCK_SIZE
    modifies data
    ensures data[..] == WithChecksum(old(data[..]))
  {
    ghost var was := data[..];
    var chksum: nat := 0;
    for x := 4 to BLOCK_SIZE
      invariant chksum == Sum(was[4..x])
      invariant data[..] == was
    {
      assert was[4..x + 1][..x - 4] == was[4..x];
      chksum := chksum + data[x];
    }
    assert was[4..BLOCK_SIZE] == was[4..];
    data[2] := chksum / 256 % 256;
    data[3] := chksum % 256;
  }

  /** The first four bytes of every control packet: the start, the direction, and the code
      that the device knows the request by. A label is read by executing its block and
      written as a block. */
  lemma ControlHeader(code: Byte, payload: seq<Byte>, dev: Device)
    ensures |Control(code, payload, dev)| >= 4
    ensures var control, early := Control(code, payload, dev), dev.version <= 4;
      && control[..3] == [0, 0, 0xCD]
      && (code == 0x20 ==> control[3] == if early then 0x0D else 0x1F)
      && (code == 0x21 ==> control[3] == if early then 0x0C else 0x02)
      && (code == 0x15 ==> control[3] == if early then 0x02 else 0x15)
      && (code != 0x20 && code != 0x21 && !early ==> control[3] == code)
  {
    TranslatedCodes(dev.version);
    TranslateAt(CODE_MAP_0, EXECUTE, true, 0, 13);
  }

  /** What follows them: nothing for a pin configuration; length, channels and delays for what
      is streamed, from version 3 on; and up to four bytes of the data for the rest. */
  lemma ControlArguments(code: Byte, payload: seq<Byte>, dev: Device)
    ensures var control, v := Control(code, payload, dev), dev.version;
      if code == 0x1B || (code in {0x15, 0x1E, 0x25} && v < 3) then |control| == 4
      else if code == 0x1E then control[4..] == [|payload| % 256]
      else if code in {0x15, 0x25} then
        control[4..] == [|payload| % 256, dev.channels]
          + if v % 256 == 0 || v / 256 % 256 == 0 then [] else [dev.delay7, dev.delay4]
      else control[4..] == if |payload| < 4 then payload else payload[..4]
  {
    assert payload[..0] == [] && payload[..|payload|] == payload;
  }

  /** A device below version 3 waits for a zero byte after the data of every send. */
  function Awaited(code: Byte, version: nat): seq<Byte> {
    if version < 3 && code == SEND then [0] else []
  }

  /** The data packets that Transmit produces for a request. */
  ghost predicate Transmitted(packets: seq<Packet>, max: nat, code: Byte, payload: seq<Byte>, version: nat) {
    && WellSized(packets, max)
    && Concat(packets) == payload[Inlined(code, |payload|)..] + Terminator(code, |payload|, version)
  }

  /** The control packet, and how much of the data it carries. */
  method BuildControl(code: Byte, wire: Byte, data: array<Byte>, dev: Device) returns (control: seq<Byte>, sent: nat)
    requires code != RESEND && wire == DeviceCode(WireCode(code), dev.version, true)
    ensures sent == Inlined(code, data.Length) && control == Control(code, data[..], dev)
  {
    control, sent := [CTL_START, CTL_START, CTL_TODEV, wire], 0;
    if !Streams(code) {
      if code != SETPINCONFIG {
        sent := if data.Length > 4 then 4 else data.Length;
        control := control + data[..sent];
      }
    } else if dev.version >= 3 {
      control := control + [data.Length % 256];
      if code != PINBURST {
        control := control + [dev.channels];
        if HasBody(dev.version) {
          control := control + [dev.delay7, dev.delay4];
        }
      }
    }
    assert data[..][..sent] == data[..sent];
  }

  /** The transmitting half of deviceTransaction, for every request except RESEND. The data
      has already been replaced by the generated block when the request is SETID. */
  method Transmit(code: Byte, data: array<Byte>, dev: Device, max: nat)
    returns (control: seq<Byte>, packets: seq<Packet>)
    requires code != RESEND && max >= 1
    modifies data
    ensures data[..] == Payload(code, old(data[..]), dev.version)
    ensures control == Control(code, data[..], dev)
    ensures Transmitted(packets, max, code, data[..], dev.version)
    ensures Concat(packets) == data[Inlined(code, data.Length)..] + Awaited(code, dev.version) <==>
      !(dev.version < 3 && code == SEND && data.Length == 0)
  {
    var ok, wire := TranslateDevice(WireCode(code), dev.version, true);
    if wire == WRITEBLOCK && data.Length == BLOCK_SIZE {
      AddChecksum(data);
    }
    var sent;
    control, sent := BuildControl(code, wire, data, dev);
    packets := [];
    if data.Length > sent {
      packets := SendData(data[sent..], max, dev.version < 3 && code == SEND);
    }
    TerminatedExactly(packets, max, code, data[..], dev.version);
  }

  /** The control packet fits in eight bytes, and the data it carries followed by all data
      packets is the payload, with the terminator of the oldest sends. */
  lemma FrameCarriesPayload(code: Byte, payload: seq<Byte>, dev: Device)
    ensures var n := Inlined(code, |payload|);
      var control, rest := Control(code, payload, dev), payload[n..] + Terminator(code, |payload|, dev.version);
      && MIN_CTL_LENGTH + n <= |control| <= MAX_PACKET_SIZE
      && control[MIN_CTL_LENGTH..MIN_CTL_LENGTH + n] + rest == payload + Terminator(code, |payload|, dev.version)
  {
    var n := Inlined(code, |payload|);
    var term := Terminator(code, |payload|, dev.version);
    assert Control(code, payload, dev)[MIN_CTL_LENGTH..MIN_CTL_LENGTH + n] == payload[..n];
    assert payload == payload[..n] + payload[n..];
    Assoc(payload[..n], payload[n..], term);
  }

  /** The packets are what the device waits for unless a send to the oldest devices has no
      data. */
  lemma TerminatedExactly(packets: seq<Packet>, max: nat, code: Byte, payload: seq<Byte>, version: nat)
    requires Transmitted(packets, max, code, payload, version)
    ensures Concat(packets) == payload[Inlined(code, |payload|)..] + Awaited(code, version) <==>
      !(version < 3 && code == SEND && payload == [])
  {
  }

  /** For example, a send without data on version 2 is followed by no data packet at all. */
  lemma EmptySendUnterminated(packets: seq<Packet>, max: nat, dev: Device)
    requires dev.version == 2 && Transmitted(packets, max, SEND, [], 2)
    ensures packets == [] && |Control(SEND, [], dev)| == MIN_CTL_LENGTH
  {
    PacketsCarryBytes(packets, max);
  }

  lemma {:induction false} PacketsCarryBytes(packets: seq<Packet>, max: nat)
    requires WellSized(packets, max)
    ensures |packets| <= |Concat(packets)|
  {
    if packets != [] {
      PacketsCarryBytes(packets[..|packets| - 1], max);
    }
  }

  /** The firmware finds length, channels and delays where it looks for them: at the first
      four data bytes of the control packet. The length is right exactly below 256. */
  lemma StreamFields(code: Byte, payload: seq<Byte>, dev: Device)
    requires (code == SEND || code == REPEATER) && dev.version >= 3
    ensures var control := Control(code, payload, dev);
      && (control[4] == |payload| <==> |payload| < 256) && control[5] == dev.channels
      && if dev.version % 256 == 0 || dev.version / 256 % 256 == 0 then |control| == 6
         else |control| == 8 && control[6] == dev.delay7 && control[7] == dev.delay4
  {
    assert payload[..0] == [];
  }

  /** The sum is additive, over single bytes. */
  lemma {:induction false} SumLaws(a: seq<Byte>, b: seq<Byte>, x: Byte)
    ensures Sum([]) == 0 && Sum([x]) == x && Sum(a + b) == Sum(a) + Sum(b)
    decreases |b|
  {
    assert [x][..0] == [];
    if b == [] {
      assert a + b == a;
    } else {
      SumLaws(a, b[..|b| - 1], x);
      assert (a + b)[..|a + b| - 1] == a + b[..|b| - 1];
    }
  }

  lemma {:induction false} SumBound(s: seq<Byte>)
    ensures Sum(s) <= 255 * |s|
  {
    if s != [] {
      SumBound(s[..|s| - 1]);
    }
  }

  /** The two checksum bytes hold the exact sum, and nothing else changes. */
  lemma ChecksumExact(data: seq<Byte>)
    requires |data| == BLOCK_SIZE
    ensures var r := WithChecksum(data);
      r[..2] == data[..2] && r[4..] == data[4..] && 256 * (r[2] as int) + r[3] == Sum(r[4..])
  {
    SumBound(data[4..]);
    assert WithChecksum(data)[4..] == data[4..];
  }

  /** When the checksum code runs: for blocks on the current protocol, never for blocks on
      protocol 0, but also for a signal of 68 bytes on protocol 0, because SEND translates
      to the value of WRITEBLOCK there. */
  lemma ChecksumGuard(code: Byte, data: seq<Byte>, version: nat)
    ensures Checksummed(code, data, version) <==>
      |data| == BLOCK_SIZE && (if version <= 4 then code == SEND else code == WRITEBLOCK || code == SETID)
  {
    if version <= 4 {
      OnlySendBecomesTwo(WireCode(code));
    }
  }

  lemma OnlySendBecomesTwo(code: Byte)
    ensures DeviceCode(code, 0, true) == WRITEBLOCK <==> code == SEND
    ensures forall v: nat | v <= 4 :: DeviceCode(code, v, true) == DeviceCode(code, 0, true)
  {
    TranslatedCodes(0);
    TranslatedFromTable(CODE_MAP_0, code, 0);
  }

  lemma {:induction false} TranslatedFromTable(codes: seq<(Byte, Byte)>, code: Byte, x: nat)
    requires x <= |codes|
    ensures var r := Translate(codes, code, true, x);
      r.Translated? ==> exists i | x <= i < |codes| :: codes[i] == (code, r.code)
    decreases |codes| - x
  {
    if x < |codes| {
      TranslatedFromTable(codes, code, x + 1);
    }
  }

  /** The data arrives unchanged exactly when it is not checksummed, or already holds its
      checksum. */
  lemma PayloadUnchanged(code: Byte, data: seq<Byte>, version: nat)
    ensures Payload(code, data, version) == data <==>
      (Checksummed(code, data, version) ==> 256 * (data[2] as int) + data[3] == Sum(data[4..]))
  {
    if Checksummed(code, data, version) {
      ChecksumExact(data);
      var r := WithChecksum(data);
      if 256 * (data[2] as int) + data[3] == Sum(data[4..]) {
        assert r[2] == data[2] && r[3] == data[3];
        assert r == data;
      }
    }
  }

  /** A signal of 68 equal bytes is damaged on the way to a device of protocol 0. */
  lemma OldSendDamaged(version: nat)
    requires version <= 4
    ensures var signal := seq(BLOCK_SIZE, i => 5 as Byte); Payload(SEND, signal, version) != signal
  {
    var signal := seq(BLOCK_SIZE, i => 5 as Byte);
    ChecksumGuard(SEND, signal, version);
    SumOf5(signal[4..]);
    PayloadUnchanged(SEND, signal, version);
  }

  lemma {:induction false} SumOf5(s: seq<Byte>)
    requires forall i | 0 <= i < |s| :: s[i] == 5
    ensures Sum(s) == 5 * |s|
  {
    if s != [] {
      SumOf5(s[..|s| - 1]);
    }
  }
}
