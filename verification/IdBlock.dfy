/** The label compiler of software/usb_ir/device-interface.c: generateIDBlock emits
    microcontroller code that, when the device executes it, sends the label to the host. */
module IdBlock {
  import opened Bytes
  import opened Protocol
  import opened Runs

  const BLOCK_SIZE := 68
  const LABEL_SIZE := 12

  /** The instructions of the M8C microcontroller that the generator uses. */
  const MOV_MEM: Byte := 0x55
  const MOV_A: Byte := 0x50
  const MOV_X: Byte := 0x57
  const LCALL: Byte := 0x7C
  const RET: Byte := 0x7F
  const HALT: Byte := 0x30

  /** Where the send routine of a firmware is, which register holds the packet size (the
      other one holds the packet location), and where packets are built. */
  datatype Firmware = Firmware(sendAddress: Byte, sizeInA: bool, packetStart: Byte)

  function FirmwareOf(version: nat): Firmware {
    if version >= 0x101 then Firmware(0x94, false, 0xF8) else Firmware(0x68, true, 0x7C)
  }

  type Memory = m: seq<Byte> | |m| == 256 witness seq(256, i => 0)

  datatype Cpu = Cpu(a: Byte, x: Byte, mem: Memory, sent: seq<seq<Byte>>)

  datatype Outcome = Returned(sent: seq<seq<Byte>>) | Failed

  /** The machine after a call of the send routine: a packet is on the wire, and registers
      and memory are as the next element of left says, or unchanged past its end. */
  function Called(cpu: Cpu, packet: seq<Byte>, left: seq<Cpu>): Cpu {
    var n := |cpu.sent|;
    (if n < |left| then left[n] else cpu).(sent := cpu.sent + [packet])
  }

  /** Executes straight-line code; left is what the calls of the send routine leave in the
      registers and in memory. */
  function Execute(code: seq<Byte>, cpu: Cpu, fw: Firmware, left: seq<Cpu>): Outcome
    decreases |code|
  {
    if code == [] then Failed
    else if code[0] == RET then Returned(cpu.sent)
    else if code[0] == MOV_MEM && |code| >= 3 then
      Execute(code[3..], cpu.(mem := cpu.mem[code[1] := code[2]]), fw, left)
    else if code[0] == MOV_A && |code| >= 2 then Execute(code[2..], cpu.(a := code[1]), fw, left)
    else if code[0] == MOV_X && |code| >= 2 then Execute(code[2..], cpu.(x := code[1]), fw, left)
    else if code[0] == LCALL && |code| >= 3 && code[1] == 0 && code[2] == fw.sendAddress then
      var size, start := if fw.sizeInA then cpu.a else cpu.x, if fw.sizeInA then cpu.x else cpu.a;
      if start + size > 256 then Failed
      else Execute(code[3..], Called(cpu, cpu.mem[start..start + size], left), fw, left)
    else Failed // HALT and everything else
  }

  /** The code that stores bytes in memory from start on. */
  function Stores(start: nat, bytes: seq<Byte>): (code: seq<Byte>)
    requires start + |bytes| <= 256
    ensures |code| == 3 * |bytes|
    decreases |bytes|
  {
    if bytes == [] then [] else [MOV_MEM, start, bytes[0]] + Stores(start + 1, bytes[1..])
  }

  /** The code that sends the eight bytes in the packet buffer. */
  function SendCode(fw: Firmware): (code: seq<Byte>)
    ensures |code| == 7
  {
    [if fw.sizeInA then MOV_A else MOV_X, 8,
     if fw.sizeInA then MOV_X else MOV_A, fw.packetStart,
     LCALL, 0, fw.sendAddress]
  }

  function PacketCode(fw: Firmware, bytes: seq<Byte>): (code: seq<Byte>)
    requires |bytes| == 8 && fw.packetStart <= 0xF8
    ensures |code| == 31
  {
    Stores(fw.packetStart, bytes) + SendCode(fw)
  }

  /** '|' and newline become underscores. */
  function Sanitize(b: Byte): Byte {
    if b == 0x7C || b == 0x0A then 0x5F else b
  }

  function SanitizeAll(text: seq<Byte>): (r: seq<Byte>)
    ensures |r| == |text|
  {
    if text == [] then [] else SanitizeAll(text[..|text| - 1]) + [Sanitize(text[|text| - 1])]
  }

  function Zeros(n: nat): (r: seq<Byte>)
    ensures |r| == n
  {
    if n == 0 then [] else [0] + Zeros(n - 1)
  }

  /** The first twelve bytes of the label, as they are shown to users. */
  function Shown(text: seq<Byte>): (r: seq<Byte>)
    ensures |r| <= LABEL_SIZE
  {
    SanitizeAll(if |text| <= LABEL_SIZE then text else text[..LABEL_SIZE])
  }

  /** The sixteen bytes that travel over the wire. */
  function Reply(text: seq<Byte>, version: nat): (buf: seq<Byte>)
    ensures |buf| == 16
  {
    [CTL_START, CTL_START, CTL_FROMDEV, DeviceCode(GETID, version, true)]
      + Shown(text) + Zeros(LABEL_SIZE - |Shown(text)|)
  }

  /** The generated code, up to and including the final ret. */
  function Program(text: seq<Byte>, version: nat): seq<Byte> {
    var fw, buf := FirmwareOf(version), Reply(text, version);
    if text == [] then [RET]
    else PacketCode(fw, buf[..8]) + PacketCode(fw, buf[8..]) + [RET]
  }

  function Halts(n: nat): (r: seq<Byte>)
    ensures |r| == n
  {
    if n == 0 then [] else [HALT] + Halts(n - 1)
  }

  /** The whole block: page number, three cleared bytes, the code, and halts. */
  function Block(text: seq<Byte>, version: nat): (block: seq<Byte>)
    ensures |block| == BLOCK_SIZE
  {
    [0x7F, 0, 0, 0] + Program(text, version) + Halts(64 - |Program(text, version)|)
  }

  /** Storing a list of bytes writes them to consecutive addresses. */
  lemma {:induction false} ExecuteStores(
    start: nat, bytes: seq<Byte>, rest: seq<Byte>, cpu: Cpu, fw: Firmware, left: seq<Cpu>)
    requires start + |bytes| <= 256
    ensures Execute(Stores(start, bytes) + rest, cpu, fw, left)
         == Execute(rest, cpu.(mem := Overwritten(cpu.mem, start, bytes)), fw, left)
    decreases |bytes|
  {
    if bytes == [] {
      assert Stores(start, bytes) + rest == rest;
      NothingWritten(cpu.mem, start);
    } else {
      var later := Stores(start + 1, bytes[1..]);
      StoresFirst(start, bytes, rest);
      ExecuteStore(start, bytes[0], later + rest, cpu, fw, left);
      ExecuteStores(start + 1, bytes[1..], rest, cpu.(mem := cpu.mem[start := bytes[0]]), fw, left);
      StoredBytes(cpu.mem, start, bytes);
    }
  }

  function Overwritten(mem: Memory, start: nat, bytes: seq<Byte>): Memory
    requires start + |bytes| <= 256
  {
    mem[..start] + bytes + mem[start + |bytes|..]
  }

  lemma NothingWritten(mem: Memory, start: nat)
    requires start <= 256
    ensures Overwritten(mem, start, []) == mem
  {
  }

  lemma StoresFirst(start: nat, bytes: seq<Byte>, rest: seq<Byte>)
    requires bytes != [] && start + |bytes| <= 256
    ensures Stores(start, bytes) + rest == [MOV_MEM, start, bytes[0]] + (Stores(start + 1, bytes[1..]) + rest)
  {
    Assoc([MOV_MEM, start, bytes[0]], Stores(start + 1, bytes[1..]), rest);
  }

  lemma ExecuteStore(address: Byte, b: Byte, rest: seq<Byte>, cpu: Cpu, fw: Firmware, left: seq<Cpu>)
    ensures Execute([MOV_MEM, address, b] + rest, cpu, fw, left)
         == Execute(rest, cpu.(mem := cpu.mem[address := b]), fw, left)
  {
    assert ([MOV_MEM, address, b] + rest)[3..] == rest;
  }

  lemma StoredBytes(mem: Memory, start: nat, bytes: seq<Byte>)
    requires bytes != [] && start + |bytes| <= 256
    ensures Overwritten(mem[start := bytes[0]], start + 1, bytes[1..]) == Overwritten(mem, start, bytes)
  {
  }

  lemma ExecuteLoad(intoA: bool, v: Byte, rest: seq<Byte>, cpu: Cpu, fw: Firmware, left: seq<Cpu>)
    ensures Execute([if intoA then MOV_A else MOV_X, v] + rest, cpu, fw, left)
         == Execute(rest, if intoA then cpu.(a := v) else cpu.(x := v), fw, left)
  {
    assert ([if intoA then MOV_A else MOV_X, v] + rest)[2..] == rest;
  }

  lemma ExecuteCall(rest: seq<Byte>, cpu: Cpu, fw: Firmware, left: seq<Cpu>)
    requires fw.packetStart <= 0xF8
    requires if fw.sizeInA then cpu.a == 8 && cpu.x == fw.packetStart else cpu.x == 8 && cpu.a == fw.packetStart
    ensures Execute([LCALL, 0, fw.sendAddress] + rest, cpu, fw, left)
         == Execute(rest, Called(cpu, cpu.mem[fw.packetStart..fw.packetStart + 8], left), fw, left)
  {
    var code := [LCALL, 0, fw.sendAddress] + rest;
    assert code[0] == LCALL && code[1] == 0 && code[2] == fw.sendAddress && code[3..] == rest;
    var packet := cpu.mem[fw.packetStart..fw.packetStart + 8];
    assert Execute(code, cpu, fw, left) == Execute(code[3..], Called(cpu, packet, left), fw, left);
  }

  /** Loading the registers and calling the send routine sends the packet buffer. */
  lemma ExecuteSend(rest: seq<Byte>, cpu: Cpu, fw: Firmware, left: seq<Cpu>) returns (after: Cpu)
    requires fw.packetStart <= 0xF8
    ensures after.sent == cpu.sent + [cpu.mem[fw.packetStart..fw.packetStart + 8]]
    ensures Execute(SendCode(fw) + rest, cpu, fw, left) == Execute(rest, after, fw, left)
  {
    var call := [LCALL, 0, fw.sendAddress] + rest;
    var loads := [if fw.sizeInA then MOV_X else MOV_A, fw.packetStart] + call;
    assert SendCode(fw) + rest == [if fw.sizeInA then MOV_A else MOV_X, 8] + loads;
    var cpu1 := if fw.sizeInA then cpu.(a := 8) else cpu.(x := 8);
    var cpu2 := if fw.sizeInA then cpu1.(x := fw.packetStart) else cpu1.(a := fw.packetStart);
    ExecuteLoad(fw.sizeInA, 8, loads, cpu, fw, left);
    ExecuteLoad(!fw.sizeInA, fw.packetStart, call, cpu1, fw, left);
    ExecuteCall(rest, cpu2, fw, left);
    after := Called(cpu2, cpu.mem[fw.packetStart..fw.packetStart + 8], left);
  }

  /** The code for one packet sends exactly that packet. */
  lemma ExecutePacket(bytes: seq<Byte>, rest: seq<Byte>, cpu: Cpu, fw: Firmware, left: seq<Cpu>)
    returns (after: Cpu)
    requires |bytes| == 8 && fw.packetStart <= 0xF8
    ensures after.sent == cpu.sent + [bytes]
    ensures Execute(PacketCode(fw, bytes) + rest, cpu, fw, left) == Execute(rest, after, fw, left)
  {
    var start := fw.packetStart;
    var mem := Overwritten(cpu.mem, start, bytes);
    Assoc(Stores(start, bytes), SendCode(fw), rest);
    ExecuteStores(start, bytes, SendCode(fw) + rest, cpu, fw, left);
    after := ExecuteSend(rest, cpu.(mem := mem), fw, left);
    assert mem[start..start + 8] == bytes;
  }

  lemma ExecuteTwoPackets(a: seq<Byte>, b: seq<Byte>, pad: seq<Byte>, cpu: Cpu, fw: Firmware, left: seq<Cpu>)
    requires |a| == |b| == 8 && fw.packetStart <= 0xF8 && cpu.sent == []
    ensures Execute(PacketCode(fw, a) + PacketCode(fw, b) + [RET] + pad, cpu, fw, left) == Returned([a, b])
  {
    var first, second, last := PacketCode(fw, a), PacketCode(fw, b), [RET] + pad;
    Assoc(first + second, [RET], pad);
    Assoc(first, second, last);
    var cpu1 := ExecutePacket(a, second + last, cpu, fw, left);
    var cpu2 := ExecutePacket(b, last, cpu1, fw, left);
    assert cpu2.sent == [a, b];
  }

  /** Compiler correctness: for every text and version, the block fits, and executing its
      code from any machine state returns after sending the reply in two packets (or
      nothing for an empty text), whatever the send routine does to the machine. */
  lemma ProgramSendsReply(text: seq<Byte>, version: nat, cpu: Cpu, left: seq<Cpu>)
    requires cpu.sent == []
    ensures Execute(Block(text, version)[4..], cpu, FirmwareOf(version), left) ==
      Returned(if text == [] then [] else [Reply(text, version)[..8], Reply(text, version)[8..]])
  {
    var pad := Halts(64 - |Program(text, version)|);
    BlockCode(text, version);
    if text != [] {
      var fw, buf := FirmwareOf(version), Reply(text, version);
      ExecuteTwoPackets(buf[..8], buf[8..], pad, cpu, fw, left);
    }
  }

  lemma BlockCode(text: seq<Byte>, version: nat)
    ensures Block(text, version)[4..] == Program(text, version) + Halts(64 - |Program(text, version)|)
  {
  }

  lemma {:induction false} StoresAt(start: nat, bytes: seq<Byte>, i: nat)
    requires start + |bytes| <= 256 && i < |bytes|
    ensures var code := Stores(start, bytes);
      code[3 * i] == 0x55 && code[3 * i + 1] == start + i && code[3 * i + 2] == bytes[i]
    decreases |bytes|
  {
    if i > 0 {
      StoresAt(start + 1, bytes[1..], i - 1);
    }
  }

  /** The code for one packet, byte by byte: eight stores, two loads and the call. */
  ghost predicate SendsFrom(code: seq<Byte>, packet: seq<Byte>, version: nat) {
    && |code| == 31 && |packet| == 8
    && (forall i | 0 <= i < 8 ::
      code[3 * i] == 0x55 && code[3 * i + 2] == packet[i]
      && code[3 * i + 1] == i + if version >= 0x101 then 0xF8 else 0x7C)
    && code[24..] == if version >= 0x101
      then [0x57, 8, 0x50, 0xF8, 0x7C, 0, 0x94]
      else [0x50, 8, 0x57, 0x7C, 0x7C, 0, 0x68]
  }

  lemma PacketCodeBytes(packet: seq<Byte>, version: nat)
    requires |packet| == 8
    ensures SendsFrom(PacketCode(FirmwareOf(version), packet), packet, version)
  {
    var fw := FirmwareOf(version);
    var code := PacketCode(fw, packet);
    forall i | 0 <= i < 8
      ensures code[3 * i] == 0x55 && code[3 * i + 1] == fw.packetStart + i && code[3 * i + 2] == packet[i]
    {
      StoresAt(fw.packetStart, packet, i);
    }
    assert code[24..] == SendCode(fw);
  }

  /** The generated block, byte by byte: the page, the code for both packets of the reply, the
      return, and halts. */
  lemma BlockBytes(text: seq<Byte>, version: nat)
    requires text != []
    ensures var block, reply := Block(text, version), Reply(text, version);
      && block[..4] == [0x7F, 0, 0, 0] && block[66..] == [0x7F, 0x30]
      && SendsFrom(block[4..35], reply[..8], version) && SendsFrom(block[35..66], reply[8..], version)
  {
    var fw, reply := FirmwareOf(version), Reply(text, version);
    PacketCodeBytes(reply[..8], version);
    PacketCodeBytes(reply[8..], version);
    assert Halts(1) == [0x30] + Halts(0);
    BlockParts([0x7F, 0, 0, 0], PacketCode(fw, reply[..8]), PacketCode(fw, reply[8..]), [RET], Halts(1));
  }

  /** The block for no label: it returns at once. */
  lemma EmptyBlockBytes(version: nat)
    ensures var block := Block([], version);
      block[..4] == [0x7F, 0, 0, 0] && block[4] == 0x7F && forall i | 5 <= i < 68 :: block[i] == 0x30
  {
    HaltsAreHalts(63);
  }

  lemma BlockParts(head: seq<Byte>, a: seq<Byte>, b: seq<Byte>, ret: seq<Byte>, pad: seq<Byte>)
    requires |head| == 4 && |a| == |b| == 31
    ensures var block := head + (a + b + ret) + pad;
      block[..4] == head && block[4..35] == a && block[35..66] == b && block[66..] == ret + pad
  {
  }

  lemma {:induction false} StoresSnoc(start: nat, bytes: seq<Byte>, b: Byte)
    requires start + |bytes| < 256
    ensures Stores(start, bytes + [b]) == Stores(start, bytes) + [MOV_MEM, start + |bytes|, b]
    decreases |bytes|
  {
    if bytes == [] {
      assert [b][1..] == [];
    } else {
      StoresSnoc(start + 1, bytes[1..], b);
      assert (bytes + [b])[1..] == bytes[1..] + [b];
      Assoc([MOV_MEM, start, bytes[0]], Stores(start + 1, bytes[1..]), [MOV_MEM, start + |bytes|, b]);
    }
  }

  /** Puts bytes after pre, over the start of rest; returns the index after them. */
  method Put(data: array<Byte>, len: nat, bytes: seq<Byte>, ghost pre: seq<Byte>, ghost rest: seq<Byte>)
    returns (len': nat)
    requires data[..] == pre + rest && |pre| == len && |bytes| <= |rest|
    modifies data
    ensures len' == len + |bytes|
    ensures data[..] == pre + bytes + rest[|bytes|..]
  {
    len' := len;
    for k := 0 to |bytes|
      invariant len' == len + k
      invariant forall i | 0 <= i < k :: data[len + i] == bytes[i]
      invariant forall i | 0 <= i < data.Length && !(len <= i < len + k) :: data[i] == (pre + rest)[i]
    {
      data[len'] := bytes[k];
      len' := len' + 1;
    }
  }

  /** The inner loops of generateIDBlock for one packet, over n halts. */
  method PutPacket(data: array<Byte>, start: nat, fw: Firmware, buf: seq<Byte>, ghost pre: seq<Byte>, ghost n: nat)
    returns (len: nat)
    requires |buf| == 8 && fw.packetStart <= 0xF8 && n >= 31
    requires data[..] == pre + Halts(n) && |pre| == start
    modifies data
    ensures len == start + 31
    ensures data[..] == pre + PacketCode(fw, buf) + Halts(n - 31)
  {
    len := start;
    ghost var code := [];
    assert pre + [] == pre;
    for y := 0 to 8
      invariant len == start + 3 * y
      invariant code == Stores(fw.packetStart, buf[..y])
      invariant data[..] == pre + code + Halts(n - 3 * y)
    {
      StoresSnoc(fw.packetStart, buf[..y], buf[y]);
      assert buf[..y + 1] == buf[..y] + [buf[y]];
      HaltsTail(n - 3 * y, 3);
      ghost var store := [MOV_MEM, fw.packetStart + y, buf[y]];
      len := Put(data, len, [MOV_MEM, fw.packetStart + y, buf[y]], pre + code, Halts(n - 3 * y));
      Assoc(pre, code, store);
      code := code + store;
    }
    assert buf[..8] == buf;
    HaltsTail(n - 24, 7);
    len := Put(data, len, SendCode(fw), pre + code, Halts(n - 24));
    Assoc(pre, code, SendCode(fw));
  }

  /** The reply, byte by byte. */
  function ReplyByte(text: seq<Byte>, version: nat, i: nat): Byte {
    if i < 4 then [CTL_START, CTL_START, CTL_FROMDEV, DeviceCode(GETID, version, true)][i]
    else if i - 4 < |text| && i < 16 then Sanitize(text[i - 4])
    else 0
  }

  lemma ReplyAt(text: seq<Byte>, version: nat)
    ensures forall i | 0 <= i < 16 :: Reply(text, version)[i] == ReplyByte(text, version, i)
  {
    var kept := if |text| <= LABEL_SIZE then text else text[..LABEL_SIZE];
    SanitizeAllAt(kept);
    ZerosAreZero(LABEL_SIZE - |kept|);
  }

  lemma {:induction false} SanitizeAllAt(text: seq<Byte>)
    ensures forall i | 0 <= i < |text| :: SanitizeAll(text)[i] == Sanitize(text[i])
  {
    if text != [] {
      SanitizeAllAt(text[..|text| - 1]);
    }
  }

  /** The reply bytes, built as generateIDBlock builds them. */
  method BuildReply(text: seq<Byte>, version: nat) returns (buf: array<Byte>)
    ensures fresh(buf) && buf[..] == Reply(text, version)
  {
    var _, code := TranslateDevice(GETID, version, true);
    buf := new Byte[16](_ => 0);
    buf[0], buf[1], buf[2], buf[3] := CTL_START, CTL_START, CTL_FROMDEV, code;
    var x := 0;
    while x < LABEL_SIZE && x < |text|
      invariant 0 <= x <= LABEL_SIZE && x <= |text|
      invariant forall i | 0 <= i < 4 + x :: buf[i] == ReplyByte(text, version, i)
      invariant forall i | 4 + x <= i < 16 :: buf[i] == 0
    {
      if text[x] == 0x7C || text[x] == 0x0A {
        buf[4 + x] := 0x5F;
      } else {
        buf[4 + x] := text[x];
      }
      x := x + 1;
    }
    ReplyAt(text, version);
  }

  lemma {:induction false} ZerosAreZero(n: nat)
    ensures forall i | 0 <= i < n :: Zeros(n)[i] == 0
  {
    if n > 0 {
      ZerosAreZero(n - 1);
    }
  }

  lemma {:induction false} HaltsAreHalts(n: nat)
    ensures forall i | 0 <= i < n :: Halts(n)[i] == HALT
  {
    if n > 0 {
      HaltsAreHalts(n - 1);
    }
  }

  lemma {:induction false} HaltsTail(n: nat, k: nat)
    requires k <= n
    ensures Halts(n)[k..] == Halts(n - k)
  {
    if k > 0 {
      HaltsTail(n - 1, k - 1);
      assert Halts(n)[k..] == Halts(n - 1)[k - 1..];
    }
  }

  /** The outer loop of generateIDBlock: the code for both packets, over the halts. */
  method PutReply(data: array<Byte>, fw: Firmware, buf: seq<Byte>) returns (len: nat)
    requires |buf| == 16 && fw.packetStart <= 0xF8
    requires data[..] == [0x7F, 0, 0, 0] + Halts(64)
    modifies data
    ensures len == 66
    ensures data[..] == [0x7F, 0, 0, 0] + (PacketCode(fw, buf[..8]) + PacketCode(fw, buf[8..])) + Halts(2)
  {
    ghost var head, a, b := [0x7F, 0, 0, 0], PacketCode(fw, buf[..8]), PacketCode(fw, buf[8..]);
    len := PutPacket(data, 4, fw, buf[..8], head, 64);
    len := PutPacket(data, len, fw, buf[8..], head + a, 33);
    Assoc(head, a, b);
  }

  /** The trailing ret. */
  method PutRet(data: array<Byte>, ghost head: seq<Byte>, ghost body: seq<Byte>, len: nat)
    requires |head + body| == len < data.Length && data[..] == head + body + Halts(data.Length - len)
    modifies data
    ensures data[..] == head + (body + [RET]) + Halts(data.Length - len - 1)
  {
    data[len] := RET;
    assert data[..] == head + body + [RET] + Halts(data.Length - len - 1);
    Assoc(head, body, [RET]);
  }

  /** The page before any code: halts behind the first packet. */
  method HaltPage() returns (data: array<Byte>)
    ensures fresh(data) && data[..] == [0x7F, 0, 0, 0] + Halts(64)
  {
    data := new Byte[BLOCK_SIZE](_ => HALT);
    data[0], data[1], data[2], data[3] := 0x7F, 0, 0, 0;
    HaltsAreHalts(64);
  }

  /** The code for a label, and the trailing ret. */
  method PutLabel(data: array<Byte>, text: seq<Byte>, version: nat)
    requires text != [] && data[..] == [0x7F, 0, 0, 0] + Halts(64)
    modifies data
    ensures data[..] == Block(text, version)
  {
    var buf := BuildReply(text, version);
    ghost var fw, reply := FirmwareOf(version), buf[..];
    var len := PutReply(data, FirmwareOf(version), buf[..]);
    PutRet(data, [0x7F, 0, 0, 0], PacketCode(fw, reply[..8]) + PacketCode(fw, reply[8..]), len);
  }

  /** Nothing but the trailing ret. */
  method PutNoLabel(data: array<Byte>, version: nat)
    requires data[..] == [0x7F, 0, 0, 0] + Halts(64)
    modifies data
    ensures data[..] == Block([], version)
  {
    EmptyBlock([0x7F, 0, 0, 0], data.Length - 4, version);
    PutRet(data, [0x7F, 0, 0, 0], [], 4);
  }

  lemma EmptyBlock(head: seq<Byte>, n: nat, version: nat)
    requires head == [0x7F, 0, 0, 0] && n == 64
    ensures head + Halts(n) == head + [] + Halts(n)
    ensures Block([], version) == head + ([] + [RET]) + Halts(n - 1)
  {
    assert head + [] == head && [] + [RET] == [RET];
  }

  /** generateIDBlock. */
  method GenerateIdBlock(text: seq<Byte>, version: nat) returns (data: array<Byte>)
    ensures fresh(data) && data[..] == Block(text, version)
  {
    data := HaltPage();
    if text == [] {
      PutNoLabel(data, version);
    } else {
      PutLabel(data, text, version);
    }
  }
}
