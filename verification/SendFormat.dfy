/** The encoder of software/usb_ir/sendFormat.c: microsecond pulse/space lists become
    bytes that hold a state bit and a 7-bit number of carrier cycles. */
module SendFormat {
  import opened Bytes

  const MAX_DATA_BYTE := 127
  const STATE_MASK := 128

  const COMPRESS_VER0 := 0
  const COMPRESS_VER1 := 1

  /** The state bit of a data byte: set for a space, clear for a pulse. */
  predicate IsSpace(b: Byte) {
    b >= STATE_MASK
  }

  /** The low seven bits of a data byte. */
  function Length7(b: Byte): nat {
    if IsSpace(b) then b - STATE_MASK else b
  }

  /** Carrier cycles for one signal: duration times carrier, rounded half up. */
  function Cycles(carrier: nat, signal: nat): nat {
    (2 * ((signal % PULSE_BIT) * carrier) + 1000000) / 2000000
  }

  /** The rounding loses at most half a cycle, and resolves ties upward. */
  lemma CyclesWithinHalf(carrier: nat, signal: nat)
    ensures var exact := (signal % PULSE_BIT) * carrier;
      -1000000 < 2 * (1000000 * Cycles(carrier, signal) - exact) <= 1000000
  {
  }

  /** Reference encoding of one element: subtract full bytes until the rest fits. */
  function Chunk(cycles: nat, space: bool): (bytes: seq<Byte>)
  {
    var tag := if space then STATE_MASK else 0;
    if cycles == 0 then []
    else if cycles <= MAX_DATA_BYTE then [tag + cycles]
    else [tag + MAX_DATA_BYTE] + Chunk(cycles - MAX_DATA_BYTE, space)
  }

  /** The length of the last byte of a chunk; 127 when the chunk is empty. */
  function Tail(cycles: nat): (n: nat)
    ensures 1 <= n <= MAX_DATA_BYTE
  {
    if cycles == 0 then MAX_DATA_BYTE
    else if cycles <= MAX_DATA_BYTE then cycles
    else Tail(cycles - MAX_DATA_BYTE)
  }

  /** The number of bytes of a chunk. */
  function NumBytes(cycles: nat): nat {
    if cycles == 0 then 0
    else if cycles <= MAX_DATA_BYTE then 1
    else 1 + NumBytes(cycles - MAX_DATA_BYTE)
  }

  /** The div/mod form of the split, as the encoder computes it. */
  lemma {:induction false} SplitByDivision(cycles: nat)
    ensures Tail(cycles) == if cycles % MAX_DATA_BYTE == 0 then MAX_DATA_BYTE else cycles % MAX_DATA_BYTE
    ensures NumBytes(cycles) ==
      if cycles % MAX_DATA_BYTE == 0 then cycles / MAX_DATA_BYTE else cycles / MAX_DATA_BYTE + 1
    decreases cycles
  {
    if cycles > MAX_DATA_BYTE {
      SplitByDivision(cycles - MAX_DATA_BYTE);
    }
  }

  /** n copies of one byte. */
  function Fill(b: Byte, n: nat): (bytes: seq<Byte>)
    ensures |bytes| == n
  {
    if n == 0 then [] else [b] + Fill(b, n - 1)
  }

  /** A chunk is NumBytes - 1 full bytes and the tail. */
  lemma {:induction false} ChunkShape(cycles: nat, space: bool)
    requires cycles > 0
    ensures NumBytes(cycles) >= 1
    ensures var tag := if space then STATE_MASK else 0;
      Chunk(cycles, space) == Fill(tag + MAX_DATA_BYTE, NumBytes(cycles) - 1) + [tag + Tail(cycles)]
    decreases cycles
  {
    if cycles > MAX_DATA_BYTE {
      ChunkShape(cycles - MAX_DATA_BYTE, space);
    }
  }

  /** The pulses that version 1 leaves out: same last byte as the pulse before, not a
      multiple of 127, and not the last element. */
  predicate Elided(cs: seq<nat>, x: nat)
    requires x < |cs|
  {
    && !Odd(x) && 2 <= x && x + 1 < |cs|
    && Tail(cs[x]) != MAX_DATA_BYTE
    && Tail(cs[x]) == Tail(cs[x - 2])
  }

  /** The parity of an index: odd elements are spaces. */
  predicate Odd(x: nat) {
    x > 0 && !Odd(x - 1)
  }

  /** The bytes of element x; even elements are pulses, and only version 1 elides. */
  function Piece(cs: seq<nat>, x: nat, compress: int): seq<Byte>
    requires x < |cs|
  {
    if compress == COMPRESS_VER1 && Elided(cs, x) then [] else Chunk(cs[x], Odd(x))
  }

  /** The bytes of the first n elements. */
  function Encoded(cs: seq<nat>, n: nat, compress: int): seq<Byte>
    requires n <= |cs|
  {
    if n == 0 then [] else Encoded(cs, n - 1, compress) + Piece(cs, n - 1, compress)
  }

  /** The cycle counts of a whole list of signals. */
  function AllCycles(carrier: nat, signals: seq<nat>): (cs: seq<nat>)
    ensures |cs| == |signals|
  {
    if signals == [] then []
    else AllCycles(carrier, signals[..|signals| - 1]) + [Cycles(carrier, signals[|signals| - 1])]
  }

  lemma {:induction false} AllCyclesAt(carrier: nat, signals: seq<nat>, x: nat)
    requires x < |signals|
    ensures AllCycles(carrier, signals)[x] == Cycles(carrier, signals[x])
  {
    if x < |signals| - 1 {
      AllCyclesAt(carrier, signals[..|signals| - 1], x);
    }
  }

  method SignalCycles(carrier: nat, signals: seq<nat>, x: nat) returns (cycles: nat)
    requires x < |signals|
    ensures cycles == AllCycles(carrier, signals)[x]
  {
    AllCyclesAt(carrier, signals, x);
    cycles := Cycles(carrier, signals[x]);
  }

  function Encoding(carrier: nat, signals: seq<nat>, compress: int): seq<Byte> {
    var cs := AllCycles(carrier, signals);
    Encoded(cs, |cs|, compress)
  }

  /** The tail of the last pulse before element x, as the encoder remembers it. */
  function LastTail(cs: seq<nat>, x: nat): nat
    requires x <= |cs|
  {
    if Odd(x) then Tail(cs[x - 1]) else if x < 2 then 0 else Tail(cs[x - 2])
  }

  /** Whether the encoder skips a pulse, from the tail it remembers. */
  lemma ElidedByTail(cs: seq<nat>, x: nat)
    requires x < |cs|
    ensures Elided(cs, x) <==>
      !Odd(x) && Tail(cs[x]) != MAX_DATA_BYTE && Tail(cs[x]) == LastTail(cs, x) && x + 1 < |cs|
  {
  }

  /** The size decision for one element: tail, number of bytes, and the tail to
      remember for the next pulse. */
  method SizeElement(total: nat, compress: int, inSpace: nat, lastCycles: nat, more: bool)
    returns (cycles: nat, numBytes: nat, last: nat)
    ensures var candidate := compress == COMPRESS_VER1 && inSpace == 0;
      && cycles == Tail(total)
      && last == (if candidate then cycles else lastCycles)
      && numBytes == (if candidate && cycles != MAX_DATA_BYTE && cycles == lastCycles && more then 0
                      else NumBytes(total))
  {
    SplitByDivision(total);
    last := lastCycles;
    numBytes := total / MAX_DATA_BYTE + 1;
    cycles := total % MAX_DATA_BYTE;
    if cycles == 0 {
      cycles := MAX_DATA_BYTE;
      numBytes := numBytes - 1;
    }
    if compress == COMPRESS_VER1 && inSpace == 0 {
      if cycles != MAX_DATA_BYTE && cycles == lastCycles && more {
        numBytes := 0;
      }
      last := cycles;
    }
  }

  /** The size decision for element x of the signals: its bytes are RunBytes, or none. */
  method SizeNext(carrier: nat, sendCode: seq<nat>, x: nat, compress: int, inSpace: nat, lastCycles: nat)
    returns (cycles: nat, numBytes: nat, last: nat)
    requires x < |sendCode| && inSpace == if Odd(x) then 1 else 0
    requires compress == COMPRESS_VER1 ==> lastCycles == LastTail(AllCycles(carrier, sendCode), x)
    ensures 1 <= cycles <= MAX_DATA_BYTE
    ensures Piece(AllCycles(carrier, sendCode), x, compress) ==
      if numBytes == 0 then [] else RunBytes(cycles, inSpace, numBytes)
    ensures compress == COMPRESS_VER1 ==> last == LastTail(AllCycles(carrier, sendCode), x + 1)
  {
    ghost var cs := AllCycles(carrier, sendCode);
    ElidedByTail(cs, x);
    PieceShape(cs, x, compress, inSpace);
    var total := SignalCycles(carrier, sendCode, x);
    cycles, numBytes, last := SizeElement(total, compress, inSpace, lastCycles, x + 1 < |sendCode|);
  }

  /** A cell of the output buffer: memory that realloc has just added is unwritten. */
  datatype Cell = Unwritten | Written(b: Byte)

  /** Every cell is written, with these bytes. */
  ghost predicate AllWritten(cells: seq<Cell>, bytes: seq<Byte>) {
    |cells| == |bytes| && forall i | 0 <= i < |bytes| :: cells[i] == Written(bytes[i])
  }

  /** A store into the buffer, which is always the first one to its cell. */
  method Write(buffer: array<Cell>, i: nat, b: Byte)
    requires i < buffer.Length && buffer[i] == Unwritten
    modifies buffer
    ensures buffer[..] == old(buffer[..])[i := Written(b)]
  {
    buffer[i] := Written(b);
  }

  /** realloc to a larger size. */
  method Grow(buffer: array<Cell>, size: nat) returns (bigger: array<Cell>)
    requires buffer.Length <= size
    ensures fresh(bigger) && bigger.Length == size
    ensures forall i | 0 <= i < size :: bigger[i] == if i < buffer.Length then buffer[i] else Unwritten
  {
    bigger := new Cell[size](_ => Unwritten);
    for i := 0 to buffer.Length
      invariant forall k | 0 <= k < size :: bigger[k] == if k < i then buffer[k] else Unwritten
    {
      bigger[i] := buffer[i];
    }
  }

  /** The memset: writes n cells from start on. */
  method SetCells(buffer: array<Cell>, start: nat, b: Byte, n: nat)
    requires start + n <= buffer.Length
    requires forall i | start <= i < start + n :: buffer[i] == Unwritten
    modifies buffer
    ensures forall i | 0 <= i < buffer.Length ::
      buffer[i] == if start <= i < start + n then Written(b) else old(buffer[i])
  {
    for k := 0 to n
      invariant forall i | 0 <= i < buffer.Length ::
        buffer[i] == if start <= i < start + k then Written(b) else old(buffer[i])
    {
      Write(buffer, start + k, b);
    }
  }

  /** Stores one element: the buffer grows, the full bytes are set, then the last byte. */
  method StoreElement(buffer: array<Cell>, cycles: nat, inSpace: nat, numBytes: nat, ghost before: seq<Byte>)
    returns (results: array<Cell>)
    requires 1 <= cycles <= MAX_DATA_BYTE && inSpace <= 1 && numBytes > 0
    requires AllWritten(buffer[..], before)
    ensures AllWritten(results[..], before + RunBytes(cycles, inSpace, numBytes))
  {
    var codeLength := buffer.Length;
    results := Grow(buffer, codeLength + numBytes);
    SetCells(results, codeLength, MAX_DATA_BYTE + inSpace * STATE_MASK, numBytes - 1);
    Write(results, codeLength + numBytes - 1, cycles + inSpace * STATE_MASK);
    FillAt(MAX_DATA_BYTE + inSpace * STATE_MASK, numBytes - 1);
  }

  lemma {:induction false} FillAt(b: Byte, n: nat)
    ensures forall i | 0 <= i < n :: Fill(b, n)[i] == b
  {
    if n > 0 {
      FillAt(b, n - 1);
    }
  }

  /** pulsesToIguanaSend. In the end every cell of the buffer is written, and since a store
      is always the first one to its cell, it is written once. The sizing-only call
      (store == false) returns the length of the real call's output. */
  method PulsesToIguanaSend(carrier: nat, sendCode: seq<nat>, store: bool, compress: int)
    returns (codeLength: nat, results: array<Cell>)
    ensures codeLength == |Encoding(carrier, sendCode, compress)|
    ensures AllWritten(results[..], if store then Encoding(carrier, sendCode, compress) else [])
  {
    codeLength, results := 0, new Cell[0];
    var inSpace := 0;
    var lastCycles := 0;
    ghost var cs := AllCycles(carrier, sendCode);

    for x := 0 to |sendCode|
      invariant inSpace == if Odd(x) then 1 else 0
      invariant compress == COMPRESS_VER1 ==> lastCycles == LastTail(cs, x)
      invariant codeLength == |Encoded(cs, x, compress)|
      invariant AllWritten(results[..], if store then Encoded(cs, x, compress) else [])
    {
      var cycles, numBytes;
      cycles, numBytes, lastCycles := SizeNext(carrier, sendCode, x, compress, inSpace, lastCycles);
      assert Encoded(cs, x + 1, compress) == Encoded(cs, x, compress) + Piece(cs, x, compress);
      if numBytes != 0 {
        if store {
          results := StoreElement(results, cycles, inSpace, numBytes, Encoded(cs, x, compress));
        }
        codeLength := codeLength + numBytes;
      }
      inSpace := 1 - inSpace;
    }
  }

  /** The buffer contents stored for one element: full bytes, then the tail. */
  function RunBytes(cycles: nat, inSpace: nat, numBytes: nat): (bytes: seq<Byte>)
    requires 1 <= cycles <= MAX_DATA_BYTE && inSpace <= 1 && numBytes > 0
    ensures |bytes| == numBytes
  {
    Fill(MAX_DATA_BYTE + inSpace * STATE_MASK, numBytes - 1) + [cycles + inSpace * STATE_MASK]
  }

  /** What the encoder stores for element x is the reference piece. */
  lemma PieceShape(cs: seq<nat>, x: nat, compress: int, inSpace: nat)
    requires x < |cs| && inSpace == if Odd(x) then 1 else 0
    ensures Piece(cs, x, compress) ==
      if (compress == COMPRESS_VER1 && Elided(cs, x)) || NumBytes(cs[x]) == 0 then []
      else RunBytes(Tail(cs[x]), inSpace, NumBytes(cs[x]))
  {
    if cs[x] > 0 {
      ChunkShape(cs[x], Odd(x));
    }
  }

  /** Compression never lengthens the output. */
  lemma {:induction false} CompressedNotLonger(cs: seq<nat>, n: nat)
    requires n <= |cs|
    ensures |Encoded(cs, n, COMPRESS_VER1)| <= |Encoded(cs, n, COMPRESS_VER0)|
  {
    if n > 0 {
      CompressedNotLonger(cs, n - 1);
    }
  }
}
