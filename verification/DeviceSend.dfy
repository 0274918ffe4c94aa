/** A send request as the device carries it out: read_buffer of
    firmware/usb_ir_loader/usb_ir_loader/pc.asm fills the signal buffer, and transmit_code of
    firmware/usb_ir_body/usb_ir_body/ir.asm plays it, counting the bytes in eight bits. */
module DeviceSend {
  import opened Bytes
  import opened SendFormat
  import opened Transmitter
  import opened Protocol
  import opened SendDecode
  import Framing

  const BUFFER_SIZE := 150

  /** What the reads of the playing loop find from the start of the buffer on, in the order
      of the reads: the buffer and whatever lies behind it. */
  type Memory = m: seq<Byte> | |m| == 255 witness seq(255, i => 0)

  /** The number of bytes that read_buffer copies: the length byte, or a full buffer. */
  function Copied(length: Byte): (n: nat)
    ensures n <= BUFFER_SIZE && n <= length
  {
    if length > BUFFER_SIZE then BUFFER_SIZE else length
  }

  /** The number of bytes that transmit_code plays: it counts down from n and stops at zero,
      but for n = 0 it counts before it tests. */
  function Turns(n: nat): (turns: nat)
    requires n <= BUFFER_SIZE
    ensures n <= turns <= 255 && turns > 0
  {
    if n == 0 then 255 else n
  }

  /** The bytes that are played for a length byte and the data that follows it. */
  function PlayedBytes(length: Byte, data: seq<Byte>, memory: Memory): seq<Byte>
    requires length <= |data|
  {
    var n := Copied(length);
    (data[..n] + memory[n..])[..Turns(n)]
  }

  /** The state after a send: transmit_code clears tx_state before it plays. */
  function Sent(t: Tx, length: Byte, data: seq<Byte>, memory: Memory): Tx
    requires length <= |data|
  {
    Transmit(t.(on := false), PlayedBytes(length, data, memory))
  }

  /** What a device of version 1 encodings receives: a control packet and data packets. */
  datatype Delivery = Delivery(dev: Framing.Device, control: seq<Byte>, packets: seq<Packet>, max: nat)

  /** The delivery of encoded bytes, as the daemon transmits them. */
  ghost predicate Delivered(bytes: seq<Byte>, d: Delivery) {
    var payload := Framing.Payload(SEND, bytes, d.dev.version);
    && d.dev.version % 256 >= 8
    && d.control == Framing.Control(SEND, payload, d.dev)
    && Framing.Transmitted(d.packets, d.max, SEND, payload, d.dev.version)
  }

  /** The device gets the bytes and their length modulo 256. */
  lemma DeliveredBytes(bytes: seq<Byte>, d: Delivery)
    requires Delivered(bytes, d)
    ensures |d.control| > 4 && d.control[4] == |bytes| % 256 && Concat(d.packets) == bytes
  {
    Framing.ChecksumGuard(SEND, bytes, d.dev.version);
    assert bytes[..0] == [] && bytes[0..] + [] == bytes;
  }

  /** Whatever the memory held before, the device plays the plain bytes. */
  ghost predicate Plays(t: Tx, plain: seq<Byte>, length: Byte, data: seq<Byte>)
    requires length <= |data|
  {
    forall memory: Memory :: Sent(t, length, data, memory).sent == t.sent + plain
  }

  /** Playing more bytes only adds to what is sent. */
  lemma {:induction false} TransmitGrows(t: Tx, bytes: seq<Byte>, n: nat)
    requires n <= |bytes|
    ensures Transmit(t, bytes[..n]).sent <= Transmit(t, bytes).sent
    ensures |Transmit(t, bytes).sent| >= |Transmit(t, bytes[..n]).sent| + |bytes| - n
    decreases |bytes| - n
  {
    if n < |bytes| {
      TransmitGrows(t, bytes, n + 1);
      assert bytes[..n + 1][..n] == bytes[..n];
    } else {
      assert bytes[..n] == bytes;
    }
  }

  /** A signal with an element that is not zero has an encoding. */
  lemma {:induction false} SoundHasBytes(cs: seq<nat>, x: nat)
    requires x < |cs| && cs[x] > 0
    ensures |Encoded(cs, |cs|, COMPRESS_VER1)| > 0
  {
    if Elided(cs, x) {
      RememberedPulse(Tx(0, false, 0, []), cs, x);
      SoundHasBytes(cs, x - 2);
    } else {
      ChunkStates(cs[x], Odd(x));
      PieceCounts(cs, |cs|, x);
    }
  }

  lemma {:induction false} PieceCounts(cs: seq<nat>, n: nat, x: nat)
    requires x < n <= |cs|
    ensures |Encoded(cs, n, COMPRESS_VER1)| >= |Piece(cs, x, COMPRESS_VER1)|
  {
    if x < n - 1 {
      PieceCounts(cs, n - 1, x);
    }
  }

  /** The encoding of a signal and its plain form. */
  ghost predicate Forms(cs: seq<nat>, bytes: seq<Byte>, plain: seq<Byte>) {
    bytes == Encoded(cs, |cs|, COMPRESS_VER1) && plain == Encoded(cs, |cs|, COMPRESS_VER0)
  }

  /** No proper part of an encoding plays the whole signal. */
  lemma PartIsNotAll(t: Tx, cs: seq<nat>, bytes: seq<Byte>, plain: seq<Byte>, n: nat)
    requires !IsSpace(t.pulse) && Forms(cs, bytes, plain) && n < |bytes|
    ensures Transmit(t, bytes[..n]).sent != t.sent + plain
  {
    TransmitGrows(t, bytes, n);
    NeverBeyond(t, cs);
    PartDiffers(Transmit(t, bytes[..n]).sent, Transmit(t, bytes).sent, t.sent + plain);
  }

  lemma PartDiffers(part: seq<Byte>, all: seq<Byte>, plain: seq<Byte>)
    requires part <= all && |part| < |all|
    requires all == plain || |all| < |plain| || Differ(all, plain)
    ensures part != plain
  {
    if Differ(all, plain) {
      var i: nat :| i < |all| && i < |plain| && all[i] != plain[i];
      assert i < |part| ==> part[i] == all[i];
    }
  }

  const ZEROS: Memory := seq(255, i => 0)

  /** A length byte of zero plays the memory: 255 bytes of it, */
  lemma PlaysMemory(t: Tx, data: seq<Byte>, memory: Memory)
    ensures |Sent(t, 0, data, memory).sent| >= |t.sent| + 255
    ensures memory[0] < STATE_MASK ==> t.sent + [memory[0]] <= Sent(t, 0, data, memory).sent
  {
    var t0 := t.(on := false);
    assert PlayedBytes(0, data, memory) == memory;
    TransmitGrows(t0, memory, 0);
    TransmitGrows(t0, memory, 1);
    assert memory[..0] == [] && memory[..1] == [memory[0]];
    TransmitOne(t0, memory[0]);
  }

  /** which is not the signal for every memory. */
  lemma MemoryIsNoSignal(t: Tx, plain: seq<Byte>, data: seq<Byte>)
    ensures !Plays(t, plain, 0, data)
  {
    var b: Byte := if plain != [] && plain[0] == 0 then 1 else 0;
    var memory: Memory := ZEROS[0 := b];
    PlaysMemory(t, data, memory);
    if plain != [] {
      assert (t.sent + [b])[|t.sent|] != (t.sent + plain)[|t.sent|];
    }
  }

  /** Any other length byte plays that many bytes of the data, up to 150. */
  lemma PlaysData(t: Tx, plain: seq<Byte>, length: Byte, data: seq<Byte>)
    requires 0 < length <= |data|
    ensures Plays(t, plain, length, data) <==>
      Transmit(t.(on := false), data[..Copied(length)]).sent == t.sent + plain
  {
    forall memory: Memory
      ensures PlayedBytes(length, data, memory) == data[..Copied(length)]
    {
    }
    assert PlayedBytes(length, data, ZEROS) == data[..Copied(length)];
    assert Sent(t, length, data, ZEROS) == Transmit(t.(on := false), data[..Copied(length)]);
  }

  /** The condition under which a signal is played: its encoding has 1 to 150 bytes, every
      element is kept, and no pulse is pending at the end. */
  ghost predicate Playable(t: Tx, cs: seq<nat>) {
    && 0 < |Encoded(cs, |cs|, COMPRESS_VER1)| <= BUFFER_SIZE
    && AllKept(t.(on := false), cs, |cs|) && !Pending(cs, |cs|)
  }

  lemma PlaysExactly(t: Tx, cs: seq<nat>, bytes: seq<Byte>, plain: seq<Byte>, length: Byte)
    requires !IsSpace(t.pulse) && Forms(cs, bytes, plain) && length == |bytes| % 256
    ensures length <= |bytes| && (Plays(t, plain, length, bytes) <==> Playable(t, cs))
  {
    if length == 0 {
      MemoryIsNoSignal(t, plain, bytes);
    } else if |bytes| <= BUFFER_SIZE {
      ShortSignal(t, cs, bytes, plain);
    } else {
      PlaysData(t, plain, length, bytes);
      PartIsNotAll(t.(on := false), cs, bytes, plain, Copied(length));
    }
  }

  /** An encoding that fits the buffer is played as a whole. */
  lemma ShortSignal(t: Tx, cs: seq<nat>, bytes: seq<Byte>, plain: seq<Byte>)
    requires !IsSpace(t.pulse) && Forms(cs, bytes, plain) && 0 < |bytes| <= BUFFER_SIZE
    ensures Plays(t, plain, |bytes|, bytes) <==> Playable(t, cs)
  {
    PlaysData(t, plain, |bytes|, bytes);
    assert bytes[..Copied(|bytes|)] == bytes;
    CompressionFaithful(t.(on := false), cs);
  }

  /** For every signal, device and packet size: whatever its memory held before, the device
      plays the signal exactly when it is playable. */
  lemma SendPlayedExactly(t: Tx, cs: seq<nat>, bytes: seq<Byte>, plain: seq<Byte>, d: Delivery)
    requires !IsSpace(t.pulse) && Forms(cs, bytes, plain) && Delivered(bytes, d)
    ensures |d.control| > 4 && d.control[4] <= |Concat(d.packets)|
    ensures Plays(t, plain, d.control[4], Concat(d.packets)) <==> Playable(t, cs)
  {
    DeliveredBytes(bytes, d);
    PlaysExactly(t, cs, Concat(d.packets), plain, d.control[4]);
  }

  /** Without zero elements: if and only if the encoding has 1 to 150 bytes and the pulses
      left out fit one byte and follow a space that is no multiple of 127. */
  lemma NonZeroPlayable(t: Tx, cs: seq<nat>)
    requires NonZero(cs) && !IsSpace(t.pulse)
    ensures Playable(t, cs) <==> cs != [] && |Encoded(cs, |cs|, COMPRESS_VER1)| <= BUFFER_SIZE && Replayable(cs)
  {
    NonZeroFaithful(t.(on := false), cs);
    CompressionFaithful(t.(on := false), cs);
    if cs != [] {
      SoundHasBytes(cs, 0);
    }
  }

  /** The usual signals, pulses of 1 to 127 cycles and spaces that are no multiple of 127, are
      played if and only if there is one and its encoding fits the buffer. */
  lemma UsualSignalsPlayable(t: Tx, cs: seq<nat>)
    requires !IsSpace(t.pulse) && Usual(cs)
    ensures Playable(t, cs) <==> cs != [] && |Encoded(cs, |cs|, COMPRESS_VER1)| <= BUFFER_SIZE
  {
    UsualReplayable(cs);
    NonZeroPlayable(t, cs);
  }

  /** A send without data plays 255 bytes of memory. */
  lemma EmptySendPlaysMemory(t: Tx, memory: Memory)
    ensures Encoded([], 0, COMPRESS_VER1) == [] && |Sent(t, 0, [], memory).sent| >= |t.sent| + 255
  {
    PlaysMemory(t, [], memory);
  }

  /** Full bytes in front of a chunk are a chunk. */
  lemma {:induction false} ChunkCut(c: nat, n: nat)
    requires MAX_DATA_BYTE * n < c <= MAX_DATA_BYTE * (n + 1)
    ensures |Chunk(c, false)| == n + 1 && Chunk(c, false)[..n] == Chunk(MAX_DATA_BYTE * n, false)
  {
    if n > 0 {
      ChunkCut(c - MAX_DATA_BYTE, n - 1);
    }
  }

  /** A pulse of 19051 to 19177 cycles takes 151 bytes, and its last byte is not played. */
  lemma LongPulseCut(t: Tx, c: nat, memory: Memory)
    requires MAX_DATA_BYTE * BUFFER_SIZE < c <= MAX_DATA_BYTE * (BUFFER_SIZE + 1)
    ensures var bytes := Encoded([c], 1, COMPRESS_VER1);
      |bytes| == 151 && Sent(t, 151, bytes, memory).sent == t.sent + bytes[..150]
  {
    var bytes, n := Chunk(c, false), BUFFER_SIZE;
    assert Encoded([c], 1, COMPRESS_VER1) == Encoded([c], 0, COMPRESS_VER1) + Piece([c], 0, COMPRESS_VER1);
    assert Encoded([c], 1, COMPRESS_VER1) == bytes;
    ChunkCut(c, n);
    assert PlayedBytes(151, bytes, memory) == bytes[..n];
    TransmitPulse(t.(on := false), MAX_DATA_BYTE * n);
  }
}
