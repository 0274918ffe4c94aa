/** What the device sends for an encoded signal. The decoder is the firmware routine
    transmit_code with its helper send_loop (firmware/usb_ir_body/usb_ir_body/ir.asm). */
module Transmitter {
  import opened Bytes
  import opened SendFormat
  import opened Runs

  /** The firmware variables that matter: tmp3 (last byte sent), tx_state, last_pulse,
      and the bytes put on the LEDs so far. */
  datatype Tx = Tx(last: Byte, on: bool, pulse: Byte, sent: seq<Byte>)

  function SendLoop(t: Tx, b: Byte): Tx {
    Tx(b, !IsSpace(b), if IsSpace(b) then t.pulse else b, t.sent + [b])
  }

  /** One turn of tx_loop: a space after a space whose last byte was not full means that
      a pulse was left out, so the last pulse is sent again first. */
  function TxLoop(t: Tx, b: Byte): Tx {
    if IsSpace(b) && Length7(t.last) != MAX_DATA_BYTE && !t.on
    then SendLoop(SendLoop(t, t.pulse), b)
    else SendLoop(t, b)
  }

  function Transmit(t: Tx, bytes: seq<Byte>): Tx {
    if bytes == [] then t else TxLoop(Transmit(t, bytes[..|bytes| - 1]), bytes[|bytes| - 1])
  }

  lemma {:induction false} TransmitConcat(t: Tx, a: seq<Byte>, b: seq<Byte>)
    ensures Transmit(t, a + b) == Transmit(Transmit(t, a), b)
    decreases |b|
  {
    if b == [] {
      assert a + b == a;
    } else {
      TransmitConcat(t, a, b[..|b| - 1]);
      assert (a + b)[..|a + b| - 1] == a + b[..|b| - 1];
    }
  }

  /** Whether the firmware re-inserts the last pulse when a space byte follows state t. */
  predicate Inserts(t: Tx) {
    !t.on && Length7(t.last) != MAX_DATA_BYTE
  }

  /** A pulse chunk is sent unchanged. */
  lemma {:induction false} TransmitPulse(t: Tx, c: nat)
    requires c > 0
    ensures Transmit(t, Chunk(c, false)) == Tx(Tail(c), true, Tail(c), t.sent + Chunk(c, false))
    decreases c
  {
    if c <= MAX_DATA_BYTE {
      TransmitOne(t, c);
    } else {
      var rest := Chunk(c - MAX_DATA_BYTE, false);
      var t' := TxLoop(t, MAX_DATA_BYTE);
      TransmitConcat(t, [MAX_DATA_BYTE], rest);
      TransmitOne(t, MAX_DATA_BYTE);
      assert t' == Tx(MAX_DATA_BYTE, true, MAX_DATA_BYTE, t.sent + [MAX_DATA_BYTE]);
      TransmitPulse(t', c - MAX_DATA_BYTE);
      Assoc(t.sent, [MAX_DATA_BYTE], rest);
    }
  }

  /** What a space brings on the air before itself. */
  function Inserted(t: Tx): seq<Byte> {
    if Inserts(t) then [t.pulse] else []
  }

  /** A space chunk is sent unchanged after the missing pulse, if there is one. */
  lemma {:induction false} TransmitSpace(t: Tx, c: nat)
    requires c > 0
    ensures Transmit(t, Chunk(c, true)) ==
      Tx(STATE_MASK + Tail(c), false, t.pulse, t.sent + Inserted(t) + Chunk(c, true))
    decreases c
  {
    var full := STATE_MASK + MAX_DATA_BYTE;
    if c <= MAX_DATA_BYTE {
      TransmitOne(t, STATE_MASK + c);
    } else {
      var rest := Chunk(c - MAX_DATA_BYTE, true);
      var t' := TxLoop(t, full);
      TransmitConcat(t, [full], rest);
      TransmitOne(t, full);
      assert t' == Tx(full, false, t.pulse, t.sent + Inserted(t) + [full]);
      TransmitSpace(t', c - MAX_DATA_BYTE);
      assert Inserted(t') == [] && t'.sent + [] == t'.sent;
      Assoc(t.sent + Inserted(t), [full], rest);
    }
  }

  lemma TransmitOne(t: Tx, b: Byte)
    ensures Transmit(t, [b]) == TxLoop(t, b)
  {
    assert Transmit(t, [b]) == TxLoop(Transmit(t, [b][..0]), b);
  }

  /** The firmware state after an element of c cycles; a space may bring a pulse with it. */
  function PlayedElement(s: Tx, c: nat, space: bool): Tx {
    if space then Tx(STATE_MASK + Tail(c), false, s.pulse, s.sent + Inserted(s) + Chunk(c, true))
    else Tx(Tail(c), true, Tail(c), s.sent + Chunk(c, false))
  }

  /** The firmware state after the version 1 bytes of the first n elements: elements that
      are left out or zero change nothing. */
  function Played(t: Tx, cs: seq<nat>, n: nat): Tx
    requires n <= |cs|
  {
    if n == 0 then t
    else if cs[n - 1] == 0 || Elided(cs, n - 1) then Played(t, cs, n - 1)
    else PlayedElement(Played(t, cs, n - 1), cs[n - 1], Odd(n - 1))
  }

  lemma {:induction false} SentSoFar(t: Tx, cs: seq<nat>, n: nat)
    requires n <= |cs|
    ensures Transmit(t, Encoded(cs, n, COMPRESS_VER1)) == Played(t, cs, n)
  {
    if n > 0 {
      var done, piece := Encoded(cs, n - 1, COMPRESS_VER1), Piece(cs, n - 1, COMPRESS_VER1);
      calc {
        Transmit(t, Encoded(cs, n, COMPRESS_VER1));
        { assert Encoded(cs, n, COMPRESS_VER1) == done + piece; }
        Transmit(t, done + piece);
        { TransmitConcat(t, done, piece); }
        Transmit(Transmit(t, done), piece);
        { SentSoFar(t, cs, n - 1); }
        Transmit(Played(t, cs, n - 1), piece);
        { TransmitPiece(t, cs, n - 1); }
        Played(t, cs, n);
      }
    }
  }

  lemma TransmitPiece(t: Tx, cs: seq<nat>, x: nat)
    requires x < |cs|
    ensures Transmit(Played(t, cs, x), Piece(cs, x, COMPRESS_VER1)) == Played(t, cs, x + 1)
  {
    if cs[x] > 0 {
      if Odd(x) { TransmitSpace(Played(t, cs, x), cs[x]); } else { TransmitPulse(Played(t, cs, x), cs[x]); }
    }
  }

  /** A pulse is left out only while the firmware remembers a pulse with its last byte. */
  lemma {:induction false} RememberedPulse(t: Tx, cs: seq<nat>, x: nat)
    requires x < |cs| && Elided(cs, x)
    ensures cs[x - 2] > 0 && Played(t, cs, x).pulse == Tail(cs[x])
  {
    assert Odd(x - 1) && !Odd(x - 2);
    assert Played(t, cs, x).pulse == Played(t, cs, x - 1).pulse;
    if Elided(cs, x - 2) {
      RememberedPulse(t, cs, x - 2);
    }
  }

  lemma {:induction false} PulseStaysPulse(t: Tx, cs: seq<nat>, n: nat)
    requires n <= |cs| && !IsSpace(t.pulse)
    ensures !IsSpace(Played(t, cs, n).pulse)
  {
    if n > 0 {
      PulseStaysPulse(t, cs, n - 1);
    }
  }

  /** The number of elements up to the last one of the first n that is not zero. */
  function Heard(cs: seq<nat>, n: nat): (p: nat)
    requires n <= |cs|
    ensures p <= n && (p > 0 ==> cs[p - 1] > 0)
  {
    if n == 0 || cs[n - 1] > 0 then n else Heard(cs, n - 1)
  }

  /** Whether the last non-zero element among the first n is a pulse left out. */
  predicate Pending(cs: seq<nat>, n: nat)
    requires n <= |cs|
  {
    var p := Heard(cs, n);
    p > 0 && Elided(cs, p - 1)
  }

  /** Element x is played as requested, given what comes before it. Zero elements apart, a
      space must not meet another space that ends in a short byte, a pulse must not meet a
      pulse that was left out, and a pulse that is left out must fit one byte and directly
      follow a space that is no multiple of 127. */
  predicate Kept(t: Tx, cs: seq<nat>, x: nat)
    requires x < |cs|
  {
    var p := Heard(cs, x);
    if cs[x] == 0 then true
    else if Odd(x) then
      if p == 0 then !Inserts(t) else !Odd(p - 1) || Tail(cs[p - 1]) == MAX_DATA_BYTE
    else
      && !Pending(cs, x)
      && ReplayableAt(cs, x)
  }

  ghost predicate AllKept(t: Tx, cs: seq<nat>, n: nat)
    requires n <= |cs|
  {
    forall x | 0 <= x < n :: Kept(t, cs, x)
  }

  /** The plain encoding of the first n elements, after what was sent before. */
  function Plain(t: Tx, cs: seq<nat>, n: nat): seq<Byte>
    requires n <= |cs|
  {
    t.sent + Encoded(cs, n, COMPRESS_VER0)
  }

  lemma PlainStep(t: Tx, cs: seq<nat>, n: nat)
    requires n < |cs|
    ensures Plain(t, cs, n + 1) == Plain(t, cs, n) + Chunk(cs[n], Odd(n))
  {
    Assoc(t.sent, Encoded(cs, n, COMPRESS_VER0), Chunk(cs[n], Odd(n)));
  }

  /** As long as every element is kept, the device is in step with the plain encoding,
      apart from a pending pulse that it is about to insert. */
  ghost predicate InStep(t: Tx, cs: seq<nat>, n: nat)
    requires n <= |cs|
  {
    var s, p := Played(t, cs, n), Heard(cs, n);
    if p == 0 then s == t && Plain(t, cs, n) == t.sent
    else if Elided(cs, p - 1) then Inserts(s) && Plain(t, cs, n) == s.sent + [s.pulse]
    else s.on == !Odd(p - 1) && Length7(s.last) == Tail(cs[p - 1]) && Plain(t, cs, n) == s.sent
  }

  lemma StepZero(t: Tx, cs: seq<nat>, n: nat)
    requires n < |cs| && cs[n] == 0 && InStep(t, cs, n)
    ensures InStep(t, cs, n + 1)
  {
    PlainStep(t, cs, n);
    assert Plain(t, cs, n) + [] == Plain(t, cs, n);
  }

  lemma StepSpace(t: Tx, cs: seq<nat>, n: nat)
    requires n < |cs| && cs[n] > 0 && Odd(n) && Kept(t, cs, n) && InStep(t, cs, n)
    ensures InStep(t, cs, n + 1)
  {
    CaughtUp(t, cs, n);
    PlainStep(t, cs, n);
    assert Played(t, cs, n + 1) == PlayedElement(Played(t, cs, n), cs[n], true);
  }

  /** What a kept space brings with it is the pending pulse, if there is one. */
  lemma CaughtUp(t: Tx, cs: seq<nat>, n: nat)
    requires n < |cs| && cs[n] > 0 && Odd(n) && Kept(t, cs, n) && InStep(t, cs, n)
    ensures Played(t, cs, n).sent + Inserted(Played(t, cs, n)) == Plain(t, cs, n)
  {
    var s := Played(t, cs, n);
    assert s.sent + [] == s.sent;
  }

  lemma StepPulse(t: Tx, cs: seq<nat>, n: nat)
    requires n < |cs| && cs[n] > 0 && !Odd(n) && Kept(t, cs, n) && InStep(t, cs, n)
    ensures InStep(t, cs, n + 1)
  {
    PlainStep(t, cs, n);
    if Elided(cs, n) {
      RememberedPulse(t, cs, n);
      assert Odd(n - 1) && Heard(cs, n) == n;
    }
  }

  /** Two outputs that differ at some place differ for good. */
  ghost predicate Differ(a: seq<Byte>, b: seq<Byte>) {
    exists i: nat :: i < |a| && i < |b| && a[i] != b[i]
  }

  lemma DifferForGood(a: seq<Byte>, a': seq<Byte>, b: seq<Byte>, b': seq<Byte>)
    requires Differ(a, b)
    ensures Differ(a + a', b + b')
  {
    var i: nat :| i < |a| && i < |b| && a[i] != b[i];
    assert (a + a')[i] != (b + b')[i];
  }

  /** The device has sent too little, and what is missing are pulses. */
  ghost predicate Behind(s: Tx, plain: seq<Byte>) {
    && |s.sent| + |Inserted(s)| < |plain|
    && forall i | |s.sent| <= i < |plain| :: !IsSpace(plain[i])
  }

  /** What is sent will never be the plain encoding. */
  ghost predicate Lost(t: Tx, cs: seq<nat>, n: nat)
    requires n <= |cs|
  {
    var s, plain := Played(t, cs, n), Plain(t, cs, n);
    Differ(s.sent, plain) || Behind(s, plain)
  }

  lemma {:induction false} ChunkStates(c: nat, space: bool)
    ensures c > 0 ==> |Chunk(c, space)| > 0
    ensures c > MAX_DATA_BYTE ==> |Chunk(c, space)| > 1
    ensures forall i | 0 <= i < |Chunk(c, space)| :: IsSpace(Chunk(c, space)[i]) == space
  {
    if c > MAX_DATA_BYTE {
      ChunkStates(c - MAX_DATA_BYTE, space);
    }
  }

  /** A space after missing pulses makes the outputs differ. */
  lemma BehindMeetsSpace(s: Tx, plain: seq<Byte>, c: nat)
    requires Behind(s, plain) && c > 0
    ensures Differ(s.sent + Inserted(s) + Chunk(c, true), plain)
  {
    ChunkStates(c, true);
    var i: nat := |s.sent + Inserted(s)|;
    assert (s.sent + Inserted(s) + Chunk(c, true))[i] == Chunk(c, true)[0];
  }

  lemma LostStays(t: Tx, cs: seq<nat>, n: nat)
    requires n < |cs| && Lost(t, cs, n)
    ensures Lost(t, cs, n + 1)
  {
    var s, plain, chunk := Played(t, cs, n), Plain(t, cs, n), Chunk(cs[n], Odd(n));
    PlainStep(t, cs, n);
    if Differ(s.sent, plain) {
      DifferStays(t, cs, n);
    } else if Odd(n) && cs[n] > 0 {
      BehindMeetsSpace(s, plain, cs[n]);
      DifferForGood(s.sent + Inserted(s) + chunk, [], plain, chunk);
    } else {
      ChunkStates(cs[n], Odd(n));
    }
  }

  lemma DifferStays(t: Tx, cs: seq<nat>, n: nat)
    requires n < |cs| && Differ(Played(t, cs, n).sent, Plain(t, cs, n))
    ensures Differ(Played(t, cs, n + 1).sent, Plain(t, cs, n + 1))
  {
    var s, plain, chunk := Played(t, cs, n), Plain(t, cs, n), Chunk(cs[n], Odd(n));
    PlainStep(t, cs, n);
    DifferForGood(s.sent, [], plain, chunk);
    DifferForGood(s.sent, chunk, plain, chunk);
    DifferForGood(s.sent, Inserted(s), plain, []);
    DifferForGood(s.sent + Inserted(s), chunk, plain + [], chunk);
    assert plain + [] == plain && s.sent + [] == s.sent;
  }

  /** The first element that is not kept is a loss: an unwanted pulse before a space, */
  lemma SpaceNotKept(t: Tx, cs: seq<nat>, n: nat)
    requires n < |cs| && Odd(n) && !Kept(t, cs, n) && InStep(t, cs, n) && !IsSpace(t.pulse)
    ensures Lost(t, cs, n + 1)
  {
    var s := Played(t, cs, n);
    PlainStep(t, cs, n);
    PulseStaysPulse(t, cs, n);
    ChunkStates(cs[n], true);
    var i: nat := |s.sent|;
    assert Inserts(s) && Plain(t, cs, n) == s.sent;
    assert (s.sent + Inserted(s) + Chunk(cs[n], true))[i] == s.pulse;
    assert Plain(t, cs, n + 1)[i] == Chunk(cs[n], true)[0];
  }

  /** a pulse after a pending one, */
  lemma PulseAfterPending(t: Tx, cs: seq<nat>, n: nat)
    requires n < |cs| && cs[n] > 0 && !Odd(n) && Pending(cs, n) && InStep(t, cs, n) && !IsSpace(t.pulse)
    ensures Lost(t, cs, n + 1)
  {
    var s, chunk := Played(t, cs, n), Chunk(cs[n], false);
    PlainStep(t, cs, n);
    PulseStaysPulse(t, cs, n);
    ChunkStates(cs[n], false);
    MissingPulses(s.sent, [s.pulse] + chunk);
    Assoc(s.sent, [s.pulse], chunk);
  }

  lemma MissingPulses(sent: seq<Byte>, missing: seq<Byte>)
    requires forall i | 0 <= i < |missing| :: !IsSpace(missing[i])
    ensures forall i | |sent| <= i < |sent + missing| :: !IsSpace((sent + missing)[i])
  {
  }

  /** or a pulse left out that the device cannot make up for. */
  lemma ElidedNotKept(t: Tx, cs: seq<nat>, n: nat)
    requires n < |cs| && Elided(cs, n) && !Pending(cs, n) && !Kept(t, cs, n) && InStep(t, cs, n)
    ensures Lost(t, cs, n + 1)
  {
    var s, chunk := Played(t, cs, n), Chunk(cs[n], false);
    PlainStep(t, cs, n);
    ChunkStates(cs[n], false);
    RememberedPulse(t, cs, n);
    assert Odd(n - 1) && !Odd(n - 2);
    if cs[n - 1] == 0 {
      assert Heard(cs, n) == Heard(cs, n - 1) == n - 1;
      assert s.on;
    } else {
      assert Heard(cs, n) == n;
    }
    assert |Inserted(s)| < |chunk|;
    MissingPulses(s.sent, chunk);
  }

  lemma NotKept(t: Tx, cs: seq<nat>, n: nat)
    requires n < |cs| && !Kept(t, cs, n) && InStep(t, cs, n) && !IsSpace(t.pulse)
    ensures Lost(t, cs, n + 1)
  {
    if Odd(n) {
      SpaceNotKept(t, cs, n);
    } else if Pending(cs, n) {
      PulseAfterPending(t, cs, n);
    } else {
      ElidedNotKept(t, cs, n);
    }
  }

  lemma StepKept(t: Tx, cs: seq<nat>, n: nat)
    requires n < |cs| && Kept(t, cs, n) && InStep(t, cs, n)
    ensures InStep(t, cs, n + 1)
  {
    if cs[n] == 0 {
      StepZero(t, cs, n);
    } else if Odd(n) {
      StepSpace(t, cs, n);
    } else {
      StepPulse(t, cs, n);
    }
  }

  /** The device stays in step as long as every element is kept, */
  lemma {:induction false} InStepWhileKept(t: Tx, cs: seq<nat>, m: nat, n: nat)
    requires m <= n <= |cs| && InStep(t, cs, m) && AllKept(t, cs, n)
    ensures InStep(t, cs, n)
    decreases n - m
  {
    if m < n {
      StepKept(t, cs, m);
      InStepWhileKept(t, cs, m + 1, n);
    }
  }

  lemma InStepAtStart(t: Tx, cs: seq<nat>)
    ensures InStep(t, cs, 0)
  {
  }

  /** and is lost for good after the first one that is not. */
  lemma LostForGood(t: Tx, cs: seq<nat>, m: nat, n: nat)
    requires m <= n <= |cs| && Lost(t, cs, m)
    ensures Lost(t, cs, n)
  {
    var lost := (k: nat) => k <= |cs| && Lost(t, cs, k);
    forall k | m <= k < n && lost(k)
      ensures lost(k + 1)
    {
      LostStays(t, cs, k);
    }
    HoldsAfter(lost, m, n);
  }

  lemma {:induction false} HoldsAfter(p: nat -> bool, m: nat, n: nat)
    requires m <= n && p(m) && forall k | m <= k < n && p(k) :: p(k + 1)
    ensures p(n)
  {
    if m < n {
      HoldsAfter(p, m, n - 1);
    }
  }

  lemma {:induction false} LostUnlessKept(t: Tx, cs: seq<nat>, n: nat)
    requires n <= |cs| && !AllKept(t, cs, n) && !IsSpace(t.pulse)
    ensures Lost(t, cs, |cs|)
  {
    if AllKept(t, cs, n - 1) {
      InStepAtStart(t, cs);
      InStepWhileKept(t, cs, 0, n - 1);
      NotKept(t, cs, n - 1);
      LostForGood(t, cs, n, |cs|);
    } else {
      LostUnlessKept(t, cs, n - 1);
    }
  }

  /** The device sends the uncompressed form of a signal from the compressed one. */
  ghost predicate PlayedFaithfully(t: Tx, cs: seq<nat>) {
    Transmit(t, Encoded(cs, |cs|, COMPRESS_VER1)).sent == t.sent + Encoded(cs, |cs|, COMPRESS_VER0)
  }

  /** For every signal, the device sends the uncompressed form from the compressed one
      exactly when every element is kept and no pulse is pending at the end. */
  lemma CompressionFaithful(t: Tx, cs: seq<nat>)
    requires !IsSpace(t.pulse)
    ensures PlayedFaithfully(t, cs) <==> AllKept(t, cs, |cs|) && !Pending(cs, |cs|)
  {
    SentSoFar(t, cs, |cs|);
    if AllKept(t, cs, |cs|) {
      InStepAtStart(t, cs);
      InStepWhileKept(t, cs, 0, |cs|);
    } else {
      LostUnlessKept(t, cs, |cs|);
    }
  }

  /** What is sent never goes on after the whole uncompressed form. */
  lemma NeverBeyond(t: Tx, cs: seq<nat>)
    requires !IsSpace(t.pulse)
    ensures var sent, plain := Transmit(t, Encoded(cs, |cs|, COMPRESS_VER1)).sent, Plain(t, cs, |cs|);
      sent == plain || |sent| < |plain| || Differ(sent, plain)
  {
    SentSoFar(t, cs, |cs|);
    if AllKept(t, cs, |cs|) {
      InStepAtStart(t, cs);
      InStepWhileKept(t, cs, 0, |cs|);
    } else {
      LostUnlessKept(t, cs, |cs|);
    }
  }

  ghost predicate NonZero(cs: seq<nat>) {
    forall x | 0 <= x < |cs| :: cs[x] > 0
  }

  /** The pulses left out fit one byte and follow a space that is no multiple of 127. */
  ghost predicate Replayable(cs: seq<nat>) {
    forall x | 0 <= x < |cs| :: ReplayableAt(cs, x)
  }

  predicate ReplayableAt(cs: seq<nat>, x: nat)
    requires x < |cs|
  {
    Elided(cs, x) ==> cs[x] < MAX_DATA_BYTE && Tail(cs[x - 1]) != MAX_DATA_BYTE
  }

  /** Without zero elements, that is all it takes. */
  lemma NonZeroFaithful(t: Tx, cs: seq<nat>)
    requires NonZero(cs) && !IsSpace(t.pulse)
    ensures PlayedFaithfully(t, cs) <==> Replayable(cs)
  {
    CompressionFaithful(t, cs);
    assert !Pending(cs, |cs|);
    forall x | 0 <= x < |cs|
      ensures Kept(t, cs, x) <==> ReplayableAt(cs, x)
    {
      KeptNonZero(t, cs, x);
    }
  }

  lemma KeptNonZero(t: Tx, cs: seq<nat>, x: nat)
    requires x < |cs| && cs[x] > 0 && (x > 0 ==> cs[x - 1] > 0)
    ensures Kept(t, cs, x) <==> ReplayableAt(cs, x)
  {
    assert Heard(cs, x) == x;
  }
}
