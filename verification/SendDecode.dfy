/** Reading an encoded signal back: grouping its bytes by state recovers the elements. */
module SendDecode {
  import opened Bytes
  import opened SendFormat
  import opened Runs
  import opened Transmitter

  /** One pair per data byte. */
  function ByteRuns(bytes: seq<Byte>): (rs: seq<Run>)
    ensures |rs| == |bytes|
  {
    if bytes == [] then []
    else ByteRuns(bytes[..|bytes| - 1]) + [Run(IsSpace(bytes[|bytes| - 1]), Length7(bytes[|bytes| - 1]))]
  }

  lemma {:induction false} ByteRunsConcat(a: seq<Byte>, b: seq<Byte>)
    ensures ByteRuns(a + b) == ByteRuns(a) + ByteRuns(b)
    decreases |b|
  {
    if b == [] {
      assert a + b == a;
    } else {
      ByteRunsConcat(a, b[..|b| - 1]);
      assert (a + b)[..|a + b| - 1] == a + b[..|b| - 1];
    }
  }

  /** The first n elements as requested: even pulses, odd spaces. */
  function Elements(cs: seq<nat>, n: nat): (rs: seq<Run>)
    requires n <= |cs|
    ensures |rs| == n
  {
    if n == 0 then [] else Elements(cs, n - 1) + [Run(Odd(n - 1), cs[n - 1])]
  }

  /** The same without the elements of zero cycles, which send nothing. */
  function Audible(cs: seq<nat>, n: nat): seq<Run>
    requires n <= |cs|
  {
    if n == 0 then []
    else Audible(cs, n - 1) + if cs[n - 1] == 0 then [] else [Run(Odd(n - 1), cs[n - 1])]
  }

  function DataByte(space: bool, length: nat): Byte
    requires length <= MAX_DATA_BYTE
  {
    (if space then STATE_MASK else 0) + length
  }

  lemma OneByte(space: bool, c: nat)
    requires c <= MAX_DATA_BYTE
    ensures ByteRuns([DataByte(space, c)]) == [Run(space, c)]
  {
  }

  lemma AppendOne(acc: seq<Run>, r: Run)
    ensures Append(acc, [r]) == Extend(acc, r)
  {
    assert [r][..0] == [];
  }

  /** A chunk reads back as one run with all of its cycles. */
  lemma {:induction false} ChunkGroup(c: nat, space: bool)
    requires c > 0
    ensures Group(ByteRuns(Chunk(c, space))) == [Run(space, c)]
    decreases c
  {
    if c <= MAX_DATA_BYTE {
      OneByteGroup(c, space);
    } else {
      ChunkGroup(c - MAX_DATA_BYTE, space);
      FullByteGroup(c, space);
    }
  }

  lemma OneByteGroup(c: nat, space: bool)
    requires 0 < c <= MAX_DATA_BYTE
    ensures Group(ByteRuns(Chunk(c, space))) == [Run(space, c)]
  {
    assert Chunk(c, space) == [DataByte(space, c)];
    OneByte(space, c);
    GroupAlternating([Run(space, c)]);
  }

  lemma FullByteGroup(c: nat, space: bool)
    requires c > MAX_DATA_BYTE
    requires Group(ByteRuns(Chunk(c - MAX_DATA_BYTE, space))) == [Run(space, c - MAX_DATA_BYTE)]
    ensures Group(ByteRuns(Chunk(c, space))) == [Run(space, c)]
  {
    var first, rest := [DataByte(space, MAX_DATA_BYTE)], Chunk(c - MAX_DATA_BYTE, space);
    assert Chunk(c, space) == first + rest;
    ByteRunsConcat(first, rest);
    OneByte(space, MAX_DATA_BYTE);
    JoinTwo(ByteRuns(rest), space, MAX_DATA_BYTE, c - MAX_DATA_BYTE);
  }

  lemma JoinTwo(rest: seq<Run>, space: bool, a: nat, b: nat)
    requires Group(rest) == [Run(space, b)]
    ensures Group([Run(space, a)] + rest) == [Run(space, a + b)]
  {
    GroupConcat([Run(space, a)], rest);
    GroupAlternating([Run(space, a)]);
    AppendOne([Run(space, a)], Run(space, b));
  }

  lemma ChunkRun(acc: seq<Run>, c: nat, space: bool)
    requires c > 0
    ensures Append(acc, ByteRuns(Chunk(c, space))) == Extend(acc, Run(space, c))
  {
    AppendGroup(acc, ByteRuns(Chunk(c, space)));
    ChunkGroup(c, space);
    AppendOne(acc, Run(space, c));
  }

  /** For every input, the bytes group into exactly the runs of the non-zero elements. */
  lemma {:induction false} GroupsToAudible(cs: seq<nat>, n: nat)
    requires n <= |cs|
    ensures Group(ByteRuns(Encoded(cs, n, COMPRESS_VER0))) == Group(Audible(cs, n))
  {
    if n > 0 {
      GroupsToAudible(cs, n - 1);
      BytesStep(cs, n);
      AudibleStep(cs, n);
    }
  }

  /** Element n - 1 as a step on the runs read so far. */
  function Step(acc: seq<Run>, cs: seq<nat>, n: nat): seq<Run>
    requires 0 < n <= |cs|
  {
    if cs[n - 1] == 0 then acc else Extend(acc, Run(Odd(n - 1), cs[n - 1]))
  }

  lemma BytesStep(cs: seq<nat>, n: nat)
    requires 0 < n <= |cs|
    ensures Group(ByteRuns(Encoded(cs, n, COMPRESS_VER0)))
         == Step(Group(ByteRuns(Encoded(cs, n - 1, COMPRESS_VER0))), cs, n)
  {
    var done, chunk := Encoded(cs, n - 1, COMPRESS_VER0), Chunk(cs[n - 1], Odd(n - 1));
    ByteRunsConcat(done, chunk);
    AppendConcat([], ByteRuns(done), ByteRuns(chunk));
    if cs[n - 1] > 0 {
      ChunkRun(Group(ByteRuns(done)), cs[n - 1], Odd(n - 1));
    }
  }

  lemma AudibleStep(cs: seq<nat>, n: nat)
    requires 0 < n <= |cs|
    ensures Group(Audible(cs, n)) == Step(Group(Audible(cs, n - 1)), cs, n)
  {
    if cs[n - 1] == 0 {
      assert Audible(cs, n) == Audible(cs, n - 1);
    } else {
      AppendConcat([], Audible(cs, n - 1), [Run(Odd(n - 1), cs[n - 1])]);
      AppendOne(Group(Audible(cs, n - 1)), Run(Odd(n - 1), cs[n - 1]));
    }
  }

  lemma {:induction false} ElementsAlternate(cs: seq<nat>, n: nat)
    requires n <= |cs|
    ensures Alternating(Elements(cs, n))
    ensures forall i | 0 <= i < n :: Elements(cs, n)[i] == Run(Odd(i), cs[i])
  {
    if n > 0 {
      ElementsAlternate(cs, n - 1);
    }
  }

  lemma {:induction false} AudibleAll(cs: seq<nat>, n: nat)
    requires n <= |cs| && NonZero(cs)
    ensures Audible(cs, n) == Elements(cs, n)
  {
    if n > 0 {
      AudibleAll(cs, n - 1);
    }
  }

  ghost predicate Positive(rs: seq<Run>) {
    forall i | 0 <= i < |rs| :: rs[i].amount > 0
  }

  lemma {:induction false} AppendPositive(acc: seq<Run>, rs: seq<Run>)
    requires Positive(acc) && Positive(rs)
    ensures Positive(Append(acc, rs))
  {
    if rs != [] {
      AppendPositive(acc, rs[..|rs| - 1]);
    }
  }

  lemma {:induction false} AudiblePositive(cs: seq<nat>, n: nat)
    requires n <= |cs|
    ensures Positive(Audible(cs, n))
  {
    if n > 0 {
      AudiblePositive(cs, n - 1);
    }
  }

  /** Grouping the uncompressed output recovers every cycle count, in order and with its
      state, exactly when no element rounds to zero cycles. */
  lemma DecodeExact(cs: seq<nat>)
    ensures Group(ByteRuns(Encoded(cs, |cs|, COMPRESS_VER0))) == Elements(cs, |cs|) <==> NonZero(cs)
  {
    GroupsToAudible(cs, |cs|);
    if NonZero(cs) {
      AudibleAll(cs, |cs|);
      ElementsAlternate(cs, |cs|);
      GroupAlternating(Elements(cs, |cs|));
    } else {
      AudiblePositive(cs, |cs|);
      AppendPositive([], Audible(cs, |cs|));
      ZeroElement(cs);
    }
  }

  lemma ZeroElement(cs: seq<nat>)
    requires !NonZero(cs)
    ensures !Positive(Elements(cs, |cs|))
  {
    ElementsAlternate(cs, |cs|);
    var x :| 0 <= x < |cs| && cs[x] == 0;
    assert Elements(cs, |cs|)[x].amount == 0;
  }

  /** From microseconds to the air and back: every signal that rounds to at least one
      cycle is read back within half a carrier cycle of the requested time. */
  lemma SignalRoundTrip(carrier: nat, signals: seq<nat>, x: nat)
    requires NonZero(AllCycles(carrier, signals)) && x < |signals|
    ensures var runs := Group(ByteRuns(Encoding(carrier, signals, COMPRESS_VER0)));
      && |runs| == |signals|
      && runs[x].space == Odd(x)
      && -1000000 < 2 * (1000000 * runs[x].amount - (signals[x] % PULSE_BIT) * carrier) <= 1000000
  {
    var cs := AllCycles(carrier, signals);
    DecodeExact(cs);
    ElementsAlternate(cs, |cs|);
    AllCyclesAt(carrier, signals, x);
    CyclesWithinHalf(carrier, signals[x]);
  }

  /** The usual signals: pulses of 1 to 127 cycles, and spaces that are no multiple of 127. */
  ghost predicate Usual(cs: seq<nat>) {
    forall x | 0 <= x < |cs| :: if Odd(x) then cs[x] % MAX_DATA_BYTE != 0 else 1 <= cs[x] <= MAX_DATA_BYTE
  }

  lemma UsualReplayable(cs: seq<nat>)
    requires Usual(cs)
    ensures NonZero(cs) && Replayable(cs)
  {
    forall x | 0 <= x < |cs|
      ensures ReplayableAt(cs, x)
    {
      if Elided(cs, x) {
        SplitByDivision(cs[x - 1]);
        assert Odd(x - 1);
      }
    }
  }

  /** They are played faithfully. */
  lemma UsualSignalsFaithful(t: Tx, cs: seq<nat>)
    requires !IsSpace(t.pulse) && Usual(cs)
    ensures PlayedFaithfully(t, cs)
  {
    UsualReplayable(cs);
    NonZeroFaithful(t, cs);
  }

  /** A pulse after a space of exactly 127 cycles is lost on the air. */
  lemma LostAfterFullSpace(t: Tx)
    requires !IsSpace(t.pulse)
    ensures !PlayedFaithfully(t, [5, 127, 5, 10])
  {
    var cs: seq<nat> := [5, 127, 5, 10];
    assert Elided(cs, 2) by { assert !Odd(2); }
    assert !ReplayableAt(cs, 2);
    NonZeroFaithful(t, cs);
  }

  /** A pulse of 130 cycles after one of 3 cycles is replayed with 3 cycles only. */
  lemma ShortenedLongPulse(t: Tx)
    requires !IsSpace(t.pulse)
    ensures !PlayedFaithfully(t, [3, 10, 130, 10])
  {
    var cs: seq<nat> := [3, 10, 130, 10];
    assert Elided(cs, 2) by { assert !Odd(2); assert Tail(130) == Tail(3); }
    assert !ReplayableAt(cs, 2);
    NonZeroFaithful(t, cs);
  }

  /** A pulse of zero cycles sends nothing, so the spaces around it meet and the firmware
      puts the last pulse between them. */
  lemma ZeroPulseRepeats(last: Byte, pulse: Byte)
    ensures Transmit(Tx(last, false, pulse, []), Encoded([5, 10, 0, 10], 4, COMPRESS_VER1)).sent == [5, 138, 5, 138]
  {
    EncodedZeroPulse();
    var t := Tx(last, false, pulse, []);
    assert Transmit(t, [5, 138, 138][..2][..1][..0]) == t;
    assert Transmit(t, [5, 138, 138][..2][..1]).sent == [5];
    assert Transmit(t, [5, 138, 138][..2]).sent == [5, 138];
  }

  lemma EncodedZeroPulse()
    ensures Encoded([5, 10, 0, 10], 4, COMPRESS_VER1) == [5, 138, 138]
  {
    var cs: seq<nat> := [5, 10, 0, 10];
    assert !Odd(2) && Odd(3) && Odd(1);
    assert Tail(0) == 127 && Chunk(0, false) == [];
    assert Encoded(cs, 1, COMPRESS_VER1) == [5];
    assert Encoded(cs, 2, COMPRESS_VER1) == [5, 138];
    assert Encoded(cs, 3, COMPRESS_VER1) == [5, 138];
  }
}
