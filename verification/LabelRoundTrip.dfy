/** The life of a label: SETID compiles it and transmits the block, the device stores and
    later executes it, the reader reassembles the reply, and getID reads the text. */
module LabelRoundTrip {
  import opened Bytes
  import opened Protocol
  import opened IdBlock
  import opened Framing
  import Runs

  /** The bytes of a C string: everything before the first zero. */
  function CString(data: seq<Byte>): (text: seq<Byte>)
    ensures forall i | 0 <= i < |text| :: text[i] != 0
  {
    if data == [] || data[0] == 0 then [] else [data[0]] + CString(data[1..])
  }

  /** A packet as the reader queues it; fromDev says which queue it goes to. */
  datatype DataPacket = DataPacket(code: Byte, data: seq<Byte>, fromDev: bool)

  predicate IsControl(p: seq<Byte>) {
    |p| >= MIN_CTL_LENGTH && p[0] == CTL_START && p[1] == CTL_START && p[2] == CTL_FROMDEV
  }

  /** The code and data of the first USB packet; without a header it is received signal
      data whose last byte is the fill level. */
  function FirstPart(p: seq<Byte>, version: nat): (Byte, seq<Byte>)
    requires p != []
  {
    if IsControl(p) then (DeviceCode(p[CODE_OFFSET], version, false), p[MIN_CTL_LENGTH..])
    else (RECV, p[..|p| - 1])
  }

  /** The data after reading further packets until it is complete or one is invalid. */
  function Collected(data: seq<Byte>, wanted: nat, input: seq<seq<Byte>>, max: nat): seq<Byte>
    decreases |input|
  {
    if wanted <= |data| || input == [] || !(0 < |input[0]| <= max) then data
    else Collected(data + input[0], wanted, input[1..], max)
  }

  /** The payload size that the type of a code demands from the device. */
  function Wanted(code: Byte, version: nat): nat {
    match TypeOf(code, version)
    case Unknown => 0
    case PacketType(_, _, _, inData) => if inData == NO_PAYLOAD then 0 else inData
  }

  function Assembled(input: seq<seq<Byte>>, version: nat, max: nat): DataPacket
    requires input != [] && input[0] != []
  {
    var (code, data) := FirstPart(input[0], version);
    var t := TypeOf(code, version);
    DataPacket(code, Collected(data, Wanted(code, version), input[1..], max), t.Unknown? || t.direction != CTL_TODEV)
  }

  /** The part of handleIncomingPackets that handles one received packet; input holds what
      the device sends, and the end of input is a timeout. */
  method ReadPacket(input: seq<seq<Byte>>, version: nat, max: nat) returns (packet: DataPacket, used: nat)
    requires input != [] && input[0] != []
    ensures packet == Assembled(input, version, max)
    ensures 0 < used <= |input|
    ensures used > 1 ==> |FirstPart(input[0], version).1| < Wanted(packet.code, version)
  {
    var buffer := input[0];
    var code: Byte, data: seq<Byte> := RECV, buffer[..|buffer| - 1];
    if IsControl(buffer) {
      var ok, translated := TranslateDevice(buffer[CODE_OFFSET], version, false);
      code, data := translated, buffer[MIN_CTL_LENGTH..];
    }
    var t := TypeOf(code, version);
    used := 1;
    if t.PacketType? && t.inData != NO_PAYLOAD {
      ghost var start := data;
      while t.inData > |data|
        invariant 1 <= used <= |input|
        invariant if used == 1 then data == start else |start| < t.inData
        invariant Collected(start, t.inData, input[1..], max) == Collected(data, t.inData, input[used..], max)
        decreases |input| - used
      {
        if used == |input| || !(0 < |input[used]| <= max) {
          break;
        }
        assert input[used..][0] == input[used] && input[used..][1..] == input[used + 1..];
        data := data + input[used];
        used := used + 1;
      }
    }
    packet := DataPacket(code, data, t.Unknown? || t.direction != CTL_TODEV);
  }

  /** getID: the text of a GETID reply. */
  function LabelOf(reply: DataPacket): seq<Byte> {
    CString(if |reply.data| <= LABEL_SIZE then reply.data else reply.data[..LABEL_SIZE])
  }

  lemma {:induction false} CStringPadded(text: seq<Byte>, n: nat)
    requires forall i | 0 <= i < |text| :: text[i] != 0
    ensures CString(text + Zeros(n)) == text
  {
    if text == [] {
      assert text + Zeros(n) == Zeros(n);
    } else {
      CStringPadded(text[1..], n);
      assert (text + Zeros(n))[1..] == text[1..] + Zeros(n);
    }
  }

  lemma ShownNonZero(text: seq<Byte>)
    requires forall i | 0 <= i < |text| :: text[i] != 0
    ensures forall i | 0 <= i < |Shown(text)| :: Shown(text)[i] != 0
  {
    SanitizeAllAt(if |text| <= LABEL_SIZE then text else text[..LABEL_SIZE]);
  }

  /** The two reply packets are reassembled into the answer to GETID. */
  lemma ReplyReassembled(text: seq<Byte>, version: nat, max: nat)
    requires max >= 8
    ensures var buf := Reply(text, version);
      Assembled([buf[..8], buf[8..]], version, max) == DataPacket(GETID, buf[4..], false)
  {
    var buf := Reply(text, version);
    var input: seq<seq<Byte>> := [buf[..8], buf[8..]];
    TranslatedCodes(version);
    assert IsControl(buf[..8]) && buf[..8][CODE_OFFSET] == DeviceCode(GETID, version, true);
    assert FirstPart(input[0], version) == (GETID, buf[..8][4..]);
    assert Wanted(GETID, version) == 12;
    assert input[1..] == [buf[8..]];
    var later: seq<seq<Byte>> := input[1..];
    assert buf[..8][4..] + buf[8..] == buf[4..];
    assert Collected(buf[..8][4..], 12, later, max) == Collected(buf[4..], 12, later[1..], max) == buf[4..];
  }

  /** What a device of the given version answers to GETID when the flash page holds block. */
  ghost predicate Answers(block: seq<Byte>, version: nat, packets: seq<seq<Byte>>) {
    |block| == BLOCK_SIZE && forall cpu: Cpu, left: seq<Cpu> | cpu.sent == [] ::
      Execute(block[4..], cpu, FirmwareOf(version), left) == Returned(packets)
  }

  /** The packets in which a labelled device answers GETID. */
  function ReplyPackets(text: seq<Byte>, version: nat): seq<seq<Byte>> {
    [Reply(text, version)[..8], Reply(text, version)[8..]]
  }

  /** SETID: compiles the label and transmits the block. What the device collects from the
      control packet and the data packets makes it answer GETID with the reply. */
  method SetLabel(data: seq<Byte>, dev: Device, max: nat) returns (control: seq<Byte>, packets: seq<seq<Byte>>)
    requires CString(data) != [] && max >= 1
    ensures |control| == MAX_PACKET_SIZE && WellSized(packets, max)
    ensures control[..3] == [0, 0, 0xCD] && control[3] == if dev.version <= 4 then 0x0C else 0x02
    ensures Answers(control[MIN_CTL_LENGTH..] + Concat(packets), dev.version, ReplyPackets(CString(data), dev.version))
  {
    var block := GenerateIdBlock(CString(data), dev.version);
    ghost var generated := block[..];
    control, packets := Transmit(SETID, block, dev, max);
    ghost var stored := block[..];
    FrameCarriesPayload(SETID, stored, dev);
    assert stored + [] == stored && control[MIN_CTL_LENGTH..] == stored[..4];
    BlockAnswers(CString(data), dev.version);
    ControlHeader(SETID, stored, dev);
  }

  /** The stored block answers, with or without its checksum. */
  lemma BlockAnswers(text: seq<Byte>, version: nat)
    requires text != []
    ensures Answers(Payload(SETID, Block(text, version), version), version, ReplyPackets(text, version))
  {
    var block := Block(text, version);
    ChecksumExact(block);
    forall cpu: Cpu, left: seq<Cpu> | cpu.sent == []
      ensures Execute(block[4..], cpu, FirmwareOf(version), left) == Returned(ReplyPackets(text, version))
    {
      ProgramSendsReply(text, version, cpu, left);
    }
  }

  /** The round trip: on every device version, whatever answers GETID with a reply for a
      label reads back as the first twelve bytes of the label, with '|' and newline shown
      as '_', and reaches the thread that asked. */
  lemma LabelReadsBack(text: seq<Byte>, version: nat, max: nat)
    requires text != [] && max >= 8
    requires forall i | 0 <= i < |text| :: text[i] != 0
    ensures var packet := Assembled(ReplyPackets(text, version), version, max);
      packet.code == GETID && !packet.fromDev && |packet.data| == 12 && LabelOf(packet) == Shown(text)
  {
    ReplyReassembled(text, version, max);
    ReplyText(text, version);
  }

  /** What a device keeps on its label page, if it has a label. */
  datatype Page = Blank | Labelled(block: seq<Byte>)

  /** The device stores the data of a write request, and nothing else. */
  function Stored(page: Page, control: seq<Byte>, packets: seq<Packet>, version: nat): Page {
    if |control| >= 4 && control[..3] == [0, 0, 0xCD] && control[3] == (if version <= 4 then 0x0C else 0x02)
    then Labelled(control[4..] + Concat(packets))
    else page
  }

  /** The device runs the code of the page for an execute request, and for nothing else. */
  function Answered(page: Page, control: seq<Byte>, version: nat, cpu: Cpu, left: seq<Cpu>): Outcome {
    if |control| >= 4 && control[..3] == [0, 0, 0xCD] && control[3] == (if version <= 4 then 0x0D else 0x1F)
       && page.Labelled? && |page.block| >= 4
    then Execute(page.block[4..], cpu, FirmwareOf(version), left)
    else Failed
  }

  /** The text that users see for a label: its bytes up to the first zero and up to the
      twelfth, with '_' for bars and newlines. */
  ghost predicate ReadsAs(name: seq<Byte>, text: seq<Byte>) {
    && |text| <= 12 && |text| <= |name|
    && (|text| < 12 ==> |text| == |name| || name[|text|] == 0)
    && forall i | 0 <= i < |text| ::
      name[i] != 0 && text[i] == if name[i] == 0x7C || name[i] == 0x0A then 0x5F else name[i]
  }

  lemma {:induction false} CStringIsPrefix(data: seq<Byte>)
    ensures var n := |CString(data)|;
      n <= |data| && CString(data) == data[..n] && (n < |data| ==> data[n] == 0)
  {
    if data != [] && data[0] != 0 {
      CStringIsPrefix(data[1..]);
    }
  }

  lemma ShownReadsAs(data: seq<Byte>)
    ensures ReadsAs(data, Shown(CString(data)))
  {
    var name := CString(data);
    CStringIsPrefix(data);
    SanitizeAllAt(if |name| <= LABEL_SIZE then name else name[..LABEL_SIZE]);
  }

  /** A label set and read back: SETID and the block that the device stores, GETID and the
      code that it runs, the reader, and getID. page, cpu and left are any state of the device
      and any effect of its send routine. */
  method SetAndGetLabel(data: seq<Byte>, dev: Device, max: nat, page: Page, cpu: Cpu, left: seq<Cpu>)
    returns (text: seq<Byte>)
    requires data != [] && data[0] != 0 && max >= 8 && cpu.sent == []
    ensures text == Shown(CString(data)) && ReadsAs(data, text)
  {
    var control, packets := SetLabel(data, dev, max);
    var labelled := Stored(page, control, packets, dev.version);
    var ask := AskLabel(dev, max);
    var outcome := Answered(labelled, ask, dev.version, cpu, left);
    assert outcome == Returned(ReplyPackets(CString(data), dev.version));
    LabelReadsBack(CString(data), dev.version, max);
    var packet, _ := ReadPacket(outcome.sent, dev.version, max);
    text := LabelOf(packet);
    ShownReadsAs(data);
  }

  /** The GETID request, which has no data. */
  method AskLabel(dev: Device, max: nat) returns (control: seq<Byte>)
    requires max >= 1
    ensures control == [0, 0, 0xCD, if dev.version <= 4 then 0x0D else 0x1F]
  {
    var none := new Byte[0];
    var packets;
    control, packets := Transmit(GETID, none, dev, max);
    ControlHeader(GETID, none[..], dev);
    ControlArguments(GETID, none[..], dev);
    assert control == control[..3] + [control[3]] + control[4..];
  }

  /** Packet i is read: it is valid, and data is missing before it. */
  ghost predicate IsRead(data: seq<Byte>, wanted: nat, input: seq<seq<Byte>>, max: nat, i: nat)
    requires i < |input|
  {
    0 < |input[i]| <= max && |data + Concat(input[..i])| < wanted
  }

  /** The continuation packets that are read: valid ones, as long as data is missing. */
  lemma {:induction false} CollectedExactly(data: seq<Byte>, wanted: nat, input: seq<seq<Byte>>, max: nat)
    returns (k: nat)
    ensures k <= |input| && Collected(data, wanted, input, max) == data + Concat(input[..k])
    ensures forall i | 0 <= i < k :: IsRead(data, wanted, input, max, i)
    ensures k < |input| ==> !IsRead(data, wanted, input, max, k)
    decreases |input|
  {
    assert data + Concat(input[..0]) == data;
    if input == [] || !IsRead(data, wanted, input, max, 0) {
      k := 0;
    } else {
      var j := CollectedExactly(data + input[0], wanted, input[1..], max);
      k := j + 1;
      ReadLater(data, wanted, input, max, j);
      forall i | 0 < i < k
        ensures IsRead(data, wanted, input, max, i)
      {
        ReadLater(data, wanted, input, max, i - 1);
      }
    }
  }

  /** The packets behind the first, seen from behind it. */
  lemma ReadLater(data: seq<Byte>, wanted: nat, input: seq<seq<Byte>>, max: nat, i: nat)
    requires i < |input|
    ensures data + input[0] + Concat(input[1..][..i]) == data + Concat(input[..i + 1])
    ensures i + 1 < |input| ==>
      IsRead(data, wanted, input, max, i + 1) == IsRead(data + input[0], wanted, input[1..], max, i)
  {
    var later := input[1..][..i];
    ConcatFirst(input[0], later);
    assert [input[0]] + later == input[..i + 1];
    Runs.Assoc(data, input[0], Concat(later));
  }

  /** An acknowledgement ends with its packet, and reaches the thread that asked. */
  lemma AckPacket(input: seq<seq<Byte>>, version: nat, max: nat)
    requires version > 4
    ensures Assembled([[0, 0, 0xDC, 0x15]] + input, version, max) == DataPacket(0x15, [], false)
  {
    var p: seq<Byte> := [0, 0, 0xDC, 0x15];
    assert ([p] + input)[0] == p && p[4..] == [];
  }

  /** A packet of an unknown code goes to the receive queue, as it is. */
  lemma UnknownPacket(p: seq<Byte>, input: seq<seq<Byte>>, version: nat, max: nat)
    requires |p| >= 4 && p[..3] == [0, 0, 0xDC] && version > 4 && TypeOf(p[3], version).Unknown?
    ensures Assembled([p] + input, version, max) == DataPacket(p[3], p[4..], true)
  {
    assert ([p] + input)[0] == p && p[..3] == [p[0], p[1], p[2]];
  }

  /** A packet without a header is received signal data: all of it but the fill level at its
      end goes to the receive queue, and no further packet is read. */
  lemma SignalPacket(p: seq<Byte>, input: seq<seq<Byte>>, version: nat, max: nat)
    requires p != [] && !(|p| >= 4 && p[..3] == [0, 0, 0xDC])
    ensures Assembled([p] + input, version, max) == DataPacket(0x30, p[..|p| - 1], true)
  {
    assert ([p] + input)[0] == p;
    assert |p| >= 4 ==> p[..3] == [p[0], p[1], p[2]];
  }

  lemma ReplyText(text: seq<Byte>, version: nat)
    requires forall i | 0 <= i < |text| :: text[i] != 0
    ensures LabelOf(DataPacket(GETID, Reply(text, version)[4..], false)) == Shown(text)
  {
    ShownNonZero(text);
    CStringPadded(Shown(text), LABEL_SIZE - |Shown(text)|);
    ReplyBody(text, version);
  }

  lemma ReplyBody(text: seq<Byte>, version: nat)
    ensures Reply(text, version)[4..] == Shown(text) + Zeros(LABEL_SIZE - |Shown(text)|)
  {
  }
}
