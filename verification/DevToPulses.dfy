/** iguanaDevToPulses of software/usb_ir/device-interface.c: received bytes become tagged
    microsecond durations, one per run of equal state. */
module DevToPulses {
  import opened Bytes
  import opened SendFormat
  import opened Runs

  /** The receive timer counts 64/3 microseconds; length zero stands for a full wrap. */
  function Ticks(b: Byte): nat {
    if Length7(b) == 0 then 1024 else Length7(b) + 1
  }

  /** One pair per received byte. */
  function TickRuns(code: seq<Byte>): (rs: seq<Run>)
    ensures |rs| == |code|
  {
    if code == [] then []
    else TickRuns(code[..|code| - 1]) + [Run(IsSpace(code[|code| - 1]), Ticks(code[|code| - 1]))]
  }

  lemma {:induction false} TickRunsConcat(a: seq<Byte>, b: seq<Byte>)
    ensures TickRuns(a + b) == TickRuns(a) + TickRuns(b)
    decreases |b|
  {
    if b == [] {
      assert a + b == a;
    } else {
      TickRunsConcat(a, b[..|b| - 1]);
      assert (a + b)[..|a + b| - 1] == a + b[..|b| - 1];
    }
  }

  /** The runs the decoder forms: it also starts a new one when the tick count would
      leave 24 bits. */
  function CappedRuns(code: seq<Byte>): (rs: seq<Run>)
    ensures |rs| <= |code|
    ensures code != [] ==> rs != [] && rs[|rs| - 1].space == IsSpace(code[|code| - 1])
    ensures code != [] ==> rs[|rs| - 1].amount <= PULSE_MASK + 1024
  {
    if code == [] then []
    else
      var rs, b := CappedRuns(code[..|code| - 1]), code[|code| - 1];
      if rs != [] && Length7(b) + rs[|rs| - 1].amount <= PULSE_MASK
      then Extend(rs, Run(IsSpace(b), Ticks(b)))
      else rs + [Run(IsSpace(b), Ticks(b))]
  }

  /** Setting a bit that may already be set. */
  function SetPulseBit(v: nat): nat {
    if v / PULSE_BIT % 2 == 1 then v else v + PULSE_BIT
  }

  /** The stored value of a finished run: ticks times 64/3, rounded down, and the tag. */
  function Scaled(r: Run): nat {
    var micros := r.amount * 64 / 3;
    if r.space then micros else SetPulseBit(micros)
  }

  function AllScaled(rs: seq<Run>): (vs: seq<nat>)
    ensures |vs| == |rs|
  {
    if rs == [] then [] else AllScaled(rs[..|rs| - 1]) + [Scaled(rs[|rs| - 1])]
  }

  lemma AllScaledSnoc(rs: seq<Run>)
    requires rs != []
    ensures AllScaled(rs) == AllScaled(rs[..|rs| - 1]) + [Scaled(rs[|rs| - 1])]
  {
  }

  /** One more byte joins the open run or opens the next one. */
  lemma CappedStep(code: seq<Byte>, x: nat)
    requires x < |code|
    ensures var rs, b := CappedRuns(code[..x]), code[x];
      CappedRuns(code[..x + 1]) ==
        if rs != [] && rs[|rs| - 1].space == IsSpace(b) && Length7(b) + rs[|rs| - 1].amount <= PULSE_MASK
        then rs[..|rs| - 1] + [Run(IsSpace(b), rs[|rs| - 1].amount + Ticks(b))]
        else rs + [Run(IsSpace(b), Ticks(b))]
  {
    assert code[..x + 1][..x] == code[..x];
  }

  /** The buffer while the last run is still open: it holds unscaled ticks. */
  ghost predicate Open(buffer: seq<nat>, codeLength: nat, inSpace: bool, rs: seq<Run>) {
    && |rs| == codeLength + 1 <= |buffer|
    && buffer[..codeLength] == AllScaled(rs[..codeLength])
    && rs[codeLength] == Run(inSpace, buffer[codeLength])
  }

  /** Finishes the open run in place. */
  method CloseRun(retval: array<nat>, codeLength: nat, inSpace: bool, ghost rs: seq<Run>)
    requires Open(retval[..], codeLength, inSpace, rs)
    requires retval[codeLength] * 64 < UINT32 // the shift does not wrap
    modifies retval
    ensures retval[..codeLength + 1] == AllScaled(rs)
  {
    retval[codeLength] := retval[codeLength] * 64 / 3;
    if !inSpace {
      retval[codeLength] := SetPulseBit(retval[codeLength]);
    }
    AllScaledSnoc(rs);
    assert retval[..codeLength] == old(retval[..codeLength]);
    assert rs[..|rs| - 1] == rs[..codeLength];
  }

  /** Adds one byte to the entry at codeLength. */
  method AddTicks(retval: array<nat>, codeLength: nat, b: Byte, ghost done: seq<Run>)
    requires |done| == codeLength < retval.Length && retval[..codeLength] == AllScaled(done)
    modifies retval
    ensures Open(retval[..], codeLength, IsSpace(b), done + [Run(IsSpace(b), old(retval[codeLength]) + Ticks(b))])
  {
    if Length7(b) == 0 {
      retval[codeLength] := retval[codeLength] + 1024;
    } else {
      retval[codeLength] := retval[codeLength] + Length7(b) + 1;
    }
    assert retval[..codeLength] == old(retval[..codeLength]);
    ghost var rs := done + [Run(IsSpace(b), retval[codeLength])];
    assert rs[..codeLength] == done;
  }

  /** One turn of the loop inside the input: byte x joins the open run, or the open run is
      closed and byte x opens the next entry. */
  method Feed(retval: array<nat>, last: nat, inSpace: bool, code: seq<Byte>, x: nat) returns (codeLength: nat)
    requires 0 < x < |code| == retval.Length && last < x
    requires Open(retval[..], last, inSpace, CappedRuns(code[..x]))
    modifies retval
    ensures codeLength <= x
    ensures Open(retval[..], codeLength, IsSpace(code[x]), CappedRuns(code[..x + 1]))
  {
    codeLength := last;
    CappedStep(code, x);
    ghost var rs := CappedRuns(code[..x]);
    if IsSpace(code[x]) != inSpace || Length7(code[x]) + retval[codeLength] > PULSE_MASK {
      CloseRun(retval, codeLength, inSpace, rs);
      codeLength := codeLength + 1;
      retval[codeLength] := 0;
      AddTicks(retval, codeLength, code[x], rs);
    } else {
      AddTicks(retval, codeLength, code[x], rs[..codeLength]);
    }
  }

  /** The number of maximal runs of bytes with the same top bit. */
  function RunCount(code: seq<Byte>): (n: nat)
    ensures n > 0 <==> code != []
  {
    var last := |code| - 1;
    if code == [] then 0
    else if last == 0 then 1
    else RunCount(code[..last]) + if (code[last] >= 128) == (code[last - 1] >= 128) then 0 else 1
  }

  /** The bytes of the maximal run with number i. */
  function BytesOf(code: seq<Byte>, i: nat): seq<Byte> {
    if code == [] then []
    else BytesOf(code[..|code| - 1], i) + if RunCount(code) == i + 1 then [code[|code| - 1]] else []
  }

  /** The number of bytes whose low seven bits are zero. */
  function Wraps(code: seq<Byte>): (n: nat)
    ensures n <= |code|
  {
    if code == [] then 0 else Wraps(code[..|code| - 1]) + if code[|code| - 1] % 128 == 0 then 1 else 0
  }

  /** The sum of the low seven bits. */
  function LowBits(code: seq<Byte>): nat {
    if code == [] then 0 else LowBits(code[..|code| - 1]) + code[|code| - 1] % 128
  }

  /** The timer ticks that bytes of one state stand for: 1024 for every wrap, and one more
      than the low seven bits for every other byte. */
  function TicksOf(code: seq<Byte>): nat {
    1024 * Wraps(code) + (|code| - Wraps(code)) + LowBits(code)
  }

  lemma TicksOfSnoc(code: seq<Byte>, b: Byte)
    ensures TicksOf(code + [b]) == TicksOf(code) + Ticks(b)
  {
    assert (code + [b])[..|code|] == code;
    assert Length7(b) == b % 128;
  }

  /** One more byte, seen in the runs. */
  lemma BytesOfSnoc(code: seq<Byte>, i: nat)
    requires code != []
    ensures RunCount(code) == RunCount(code[..|code| - 1]) +
      if |code| > 1 && (code[|code| - 1] >= 128) == (code[|code| - 2] >= 128) then 0 else 1
    ensures BytesOf(code, i) ==
      BytesOf(code[..|code| - 1], i) + if RunCount(code) == i + 1 then [code[|code| - 1]] else []
  {
  }

  /** Only the runs that are there have bytes. */
  lemma {:induction false} BytesOfRuns(code: seq<Byte>, i: nat)
    ensures i < RunCount(code) <==> BytesOf(code, i) != []
  {
    if code != [] {
      BytesOfRuns(code[..|code| - 1], i);
      if |code| > 1 {
        BytesOfRuns(code[..|code| - 1], RunCount(code[..|code| - 1]) - 1);
      }
    }
  }

  /** The grouped runs are these runs of bytes, with their state and their ticks. */
  lemma {:induction false} GroupIsExplicit(code: seq<Byte>, i: nat)
    ensures |Group(TickRuns(code))| == RunCount(code)
    ensures code != [] ==> Group(TickRuns(code))[RunCount(code) - 1].space == (code[|code| - 1] >= 128)
    ensures i < RunCount(code) ==> BytesOf(code, i) != [] && Group(TickRuns(code))[i] == RunOf(BytesOf(code, i))
  {
    if code != [] {
      var init, b := code[..|code| - 1], code[|code| - 1];
      GroupIsExplicit(init, i);
      TickRunsSnoc(code);
      BytesOfSnoc(code, i);
      BytesOfRuns(init, i);
      ExplicitStep(Group(TickRuns(init)), |init| > 0 && init[|init| - 1] >= 128, b, BytesOf(init, i), i);
    }
  }

  /** The step of that: the last run of g has the state space, bytes is run i so far, and one
      more byte joins the last run or starts the next one. */
  lemma ExplicitStep(g: seq<Run>, space: bool, b: Byte, bytes: seq<Byte>, i: nat)
    requires g != [] ==> g[|g| - 1].space == space
    requires i < |g| <==> bytes != []
    requires i < |g| ==> g[i] == RunOf(bytes)
    ensures var e, count := Extend(g, Run(IsSpace(b), Ticks(b))), |g| + if g != [] && (b >= 128) == space then 0 else 1;
      var bytes' := bytes + if count == i + 1 then [b] else [];
      && |e| == count && e[count - 1].space == (b >= 128)
      && (i < count ==> bytes' != [] && e[i] == RunOf(bytes'))
  {
    RunOfSnoc(bytes, b);
    assert bytes + [] == bytes;
  }

  /** The run that bytes of one state make. */
  function RunOf(bytes: seq<Byte>): Run
    requires bytes != []
  {
    Run(bytes[0] >= 128, TicksOf(bytes))
  }

  lemma RunOfSnoc(bytes: seq<Byte>, b: Byte)
    ensures bytes == [] ==> RunOf(bytes + [b]) == Run(IsSpace(b), Ticks(b))
    ensures bytes != [] ==> RunOf(bytes + [b]) == Run(RunOf(bytes).space, RunOf(bytes).amount + Ticks(b))
  {
    TicksOfSnoc(bytes, b);
  }

  /** iguanaDevToPulses, for every non-empty input. */
  method Decode(code: seq<Byte>) returns (retval: array<nat>, codeLength: nat)
    requires code != []
    ensures codeLength <= retval.Length == |code|
    ensures retval[..codeLength] == AllScaled(CappedRuns(code))
    ensures Short(code) ==>
      codeLength == RunCount(code) && forall i | 0 <= i < codeLength :: retval[i] == Signal(BytesOf(code, i))
  {
    retval := new nat[|code|];
    codeLength := 0;
    retval[0] := 0;
    AddTicks(retval, 0, code[0], []);
    CappedStep(code, 0);
    for x := 1 to |code|
      invariant codeLength < x
      invariant Open(retval[..], codeLength, IsSpace(code[x - 1]), CappedRuns(code[..x]))
    {
      codeLength := Feed(retval, codeLength, IsSpace(code[x - 1]), code, x);
    }
    assert code[..|code|] == code;
    CloseRun(retval, codeLength, IsSpace(code[|code| - 1]), CappedRuns(code));
    codeLength := codeLength + 1;
    if Short(code) {
      ValuesAreExplicit(code);
      assert forall i | 0 <= i < codeLength :: retval[i] == retval[..codeLength][i];
    }
  }

  /** The value for bytes of one state, as long as it fits: microseconds, and the tag of a
      pulse. */
  function Signal(bytes: seq<Byte>): nat {
    TicksOf(bytes) * 64 / 3 + if bytes != [] && bytes[0] < 128 then 0x1000000 else 0
  }

  /** No run has more ticks than fit. */
  ghost predicate Short(code: seq<Byte>) {
    forall i | 0 <= i < RunCount(code) :: TicksOf(BytesOf(code, i)) <= MOST_TICKS
  }

  lemma ShortIsNoneLong(code: seq<Byte>)
    requires Short(code)
    ensures NoneLong(Group(TickRuns(code)))
  {
    var runs := Group(TickRuns(code));
    forall i | 0 <= i < |runs|
      ensures runs[i].amount <= MOST_TICKS
    {
      GroupIsExplicit(code, i);
    }
  }

  lemma NoneLongIsShort(code: seq<Byte>)
    requires NoneLong(Group(TickRuns(code)))
    ensures Short(code)
  {
    forall i | 0 <= i < RunCount(code)
      ensures TicksOf(BytesOf(code, i)) <= MOST_TICKS
    {
      GroupIsExplicit(code, i);
    }
  }

  /** The decoded values, one for each run of bytes, without the decoder's own counting. */
  lemma ValuesAreExplicit(code: seq<Byte>)
    requires Short(code)
    ensures |AllScaled(CappedRuns(code))| == RunCount(code)
    ensures forall i | 0 <= i < RunCount(code) :: AllScaled(CappedRuns(code))[i] == Signal(BytesOf(code, i))
  {
    ShortIsNoneLong(code);
    NoneLongUncapped(code);
    GroupIsExplicit(code, 0);
    forall i | 0 <= i < RunCount(code)
      ensures AllScaled(CappedRuns(code))[i] == Signal(BytesOf(code, i))
    {
      ValueAt(Group(TickRuns(code)), code, i);
    }
  }

  lemma ValueAt(runs: seq<Run>, code: seq<Byte>, i: nat)
    requires runs == Group(TickRuns(code)) && i < |runs| == RunCount(code) && TicksOf(BytesOf(code, i)) <= MOST_TICKS
    ensures AllScaled(runs)[i] == Signal(BytesOf(code, i))
  {
    GroupIsExplicit(code, i);
    AllScaledAt(runs, i);
    ScaledIsSignal(BytesOf(code, i));
  }

  lemma ScaledIsSignal(bytes: seq<Byte>)
    requires bytes != [] && TicksOf(bytes) <= MOST_TICKS
    ensures Scaled(RunOf(bytes)) == Signal(bytes)
  {
    assert TicksOf(bytes) * 64 / 3 < PULSE_BIT;
  }

  /** Bytes of one state are one run. */
  lemma {:induction false} OneState(code: seq<Byte>)
    requires code != [] && forall i | 0 <= i < |code| :: (code[i] >= 128) == (code[0] >= 128)
    ensures RunCount(code) == 1 && BytesOf(code, 0) == code
  {
    var init := code[..|code| - 1];
    BytesOfSnoc(code, 0);
    assert code == init + [code[|code| - 1]];
    if |code| > 1 {
      OneState(init);
    } else {
      assert BytesOf(init, 0) == [];
    }
  }

  /** A change of state starts the next run, */
  lemma {:induction false} NextState(a: seq<Byte>, b: seq<Byte>)
    requires a != [] && b != [] && (a[|a| - 1] >= 128) != (b[0] >= 128)
    ensures RunCount(a + b) == RunCount(a) + RunCount(b)
    decreases |b|
  {
    var init := b[..|b| - 1];
    assert (a + b)[..|a + b| - 1] == a + init;
    if init == [] {
      assert a + init == a;
    } else {
      NextState(a, init);
    }
  }

  /** leaves the runs before as they are, */
  lemma {:induction false} EarlierRuns(a: seq<Byte>, b: seq<Byte>, i: nat)
    requires a != [] && b != [] && (a[|a| - 1] >= 128) != (b[0] >= 128) && i < RunCount(a)
    ensures BytesOf(a + b, i) == BytesOf(a, i)
    decreases |b|
  {
    var init := b[..|b| - 1];
    assert (a + b)[..|a + b| - 1] == a + init;
    NextState(a, b);
    if init == [] {
      assert a + init == a;
    } else {
      EarlierRuns(a, init, i);
    }
  }

  /** and has the runs behind as its own. */
  lemma {:induction false} LaterRuns(a: seq<Byte>, b: seq<Byte>, i: nat)
    requires a != [] && b != [] && (a[|a| - 1] >= 128) != (b[0] >= 128)
    ensures BytesOf(a + b, RunCount(a) + i) == BytesOf(b, i)
    decreases |b|
  {
    var init := b[..|b| - 1];
    assert (a + b)[..|a + b| - 1] == a + init;
    NextState(a, b);
    if init == [] {
      assert a + init == a;
      BytesOfRuns(a, RunCount(a) + i);
    } else {
      LaterRuns(a, init, i);
    }
  }

  /** The 24-bit guard: a byte of the same state starts a new value exactly when its low bits
      would take the count past 0xFFFFFF. */
  lemma GuardExactly(code: seq<Byte>, b: Byte)
    requires code != [] && (b >= 128) == (code[|code| - 1] >= 128)
    ensures var rs := CappedRuns(code);
      |CappedRuns(code + [b])| == |rs| + if b % 128 + rs[|rs| - 1].amount > 0xFFFFFF then 1 else 0
  {
    assert (code + [b])[..|code|] == code;
    LowSeven(b);
  }

  lemma LowSeven(b: Byte)
    ensures Length7(b) == b % 128
  {
  }

  lemma TickRunsSnoc(code: seq<Byte>)
    requires code != []
    ensures var init, b := code[..|code| - 1], code[|code| - 1];
      Group(TickRuns(code)) == Extend(Group(TickRuns(init)), Run(IsSpace(b), Ticks(b)))
  {
    assert TickRuns(code)[..|code| - 1] == TickRuns(code[..|code| - 1]);
  }

  lemma TickRunsPush(code: seq<Byte>, b: Byte)
    ensures Group(TickRuns(code + [b])) == Extend(Group(TickRuns(code)), Run(IsSpace(b), Ticks(b)))
  {
    TickRunsSnoc(code + [b]);
    assert (code + [b])[..|code|] == code;
  }

  lemma {:induction false} GroupBound(code: seq<Byte>)
    ensures forall i | 0 <= i < |Group(TickRuns(code))| :: 0 < Group(TickRuns(code))[i].amount <= 1024 * |code|
  {
    if code != [] {
      GroupBound(code[..|code| - 1]);
      TickRunsSnoc(code);
    }
  }

  /** Up to 16383 bytes the 24-bit guard never fires: the entries are the maximal runs. */
  lemma {:induction false} CappedIsGroup(code: seq<Byte>)
    requires |code| <= 16383
    ensures CappedRuns(code) == Group(TickRuns(code))
  {
    if code != [] {
      var init := code[..|code| - 1];
      CappedIsGroup(init);
      GroupBound(init);
      TickRunsSnoc(code);
    }
  }

  /** The decoded duration and tag of one entry. */
  function Micros(v: nat): nat {
    v % PULSE_BIT
  }

  predicate HasPulseBit(v: nat) {
    v / PULSE_BIT % 2 == 1
  }

  /** The most ticks whose duration stays inside 24 bits. */
  const MOST_TICKS := 786431

  lemma ScaledFits(r: Run)
    requires r.amount <= MOST_TICKS
    ensures Micros(Scaled(r)) == r.amount * 64 / 3 && HasPulseBit(Scaled(r)) == !r.space
    ensures Scaled(r) < 2 * PULSE_BIT
  {
    assert r.amount * 64 / 3 < PULSE_BIT;
  }

  lemma {:induction false} AllScaledAt(rs: seq<Run>, i: nat)
    requires i < |rs|
    ensures AllScaled(rs)[i] == Scaled(rs[i])
  {
    if i < |rs| - 1 {
      AllScaledAt(rs[..|rs| - 1], i);
    }
  }

  /** For every input of 1 to 767 bytes: one value per maximal run, never more values than
      bytes, strictly alternating, the duration inside 24 bits, bit 24 set for pulses. */
  lemma DecodedShape(code: seq<Byte>, i: nat)
    requires 0 < |code| <= 767 && i < |CappedRuns(code)|
    ensures var runs, vs := Group(TickRuns(code)), AllScaled(CappedRuns(code));
      && |vs| == |runs| <= |code|
      && HasPulseBit(vs[i]) == !runs[i].space
      && Micros(vs[i]) == runs[i].amount * 64 / 3
      && vs[i] < 2 * PULSE_BIT
      && (i > 0 ==> HasPulseBit(vs[i]) != HasPulseBit(vs[i - 1]))
  {
    CappedIsGroup(code);
    GroupBound(code);
    AppendAlternates([], TickRuns(code));
    forall j | 0 <= j <= i
      ensures AllScaled(CappedRuns(code))[j] == Scaled(Group(TickRuns(code))[j])
      ensures Group(TickRuns(code))[j].amount <= 1024 * 767
    {
      AllScaledAt(CappedRuns(code), j);
    }
    ScaledFits(Group(TickRuns(code))[i]);
    if i > 0 {
      ScaledFits(Group(TickRuns(code))[i - 1]);
    }
  }

  /** One value is right: its tag, its duration, and no bit above the tag. */
  predicate Right(v: nat, r: Run) {
    HasPulseBit(v) == !r.space && Micros(v) == r.amount * 64 / 3 && v < 2 * PULSE_BIT
  }

  lemma ScaledRightExactly(r: Run)
    ensures Right(Scaled(r), r) <==> r.amount <= MOST_TICKS
  {
    if r.amount <= MOST_TICKS {
      ScaledFits(r);
    } else {
      assert r.amount * 64 / 3 >= PULSE_BIT;
      assert Micros(Scaled(r)) < PULSE_BIT;
    }
  }

  ghost predicate NoneLong(rs: seq<Run>) {
    forall i | 0 <= i < |rs| :: rs[i].amount <= MOST_TICKS
  }

  /** Without a long run, the 24-bit guard never fires. */
  lemma {:induction false} NoneLongUncapped(code: seq<Byte>)
    requires NoneLong(Group(TickRuns(code)))
    ensures CappedRuns(code) == Group(TickRuns(code))
  {
    if code != [] {
      var init, b := code[..|code| - 1], code[|code| - 1];
      TickRunsSnoc(code);
      ExtendGrows(Group(TickRuns(init)), Run(IsSpace(b), Ticks(b)));
      NoneLongUncapped(init);
    }
  }

  lemma ExtendGrows(rs: seq<Run>, r: Run)
    requires NoneLong(Extend(rs, r))
    ensures NoneLong(rs)
  {
    var e := Extend(rs, r);
    forall i | 0 <= i < |rs|
      ensures rs[i].amount <= MOST_TICKS
    {
      assert rs[i].amount <= e[i].amount;
    }
  }

  /** Every value is right, one per maximal run. */
  ghost predicate AllRight(vs: seq<nat>, rs: seq<Run>) {
    |vs| == |rs| && forall i | 0 <= i < |rs| :: Right(vs[i], rs[i])
  }

  lemma ScaledRight(rs: seq<Run>)
    requires NoneLong(rs)
    ensures AllRight(AllScaled(rs), rs)
  {
    forall i | 0 <= i < |rs|
      ensures Right(AllScaled(rs)[i], rs[i])
    {
      AllScaledAt(rs, i);
      ScaledRightExactly(rs[i]);
    }
  }

  /** For every input, the values are right exactly when no maximal run of bytes stands for
      more than 786431 ticks. */
  lemma DecodedExactly(code: seq<Byte>)
    ensures AllRight(AllScaled(CappedRuns(code)), Group(TickRuns(code))) <==> Short(code)
  {
    var runs, vs := Group(TickRuns(code)), AllScaled(CappedRuns(code));
    if NoneLong(runs) {
      NoneLongIsShort(code);
      NoneLongUncapped(code);
      ScaledRight(runs);
    } else {
      if Short(code) {
        ShortIsNoneLong(code);
      }
      LongIsWrong(vs, runs);
    }
  }

  lemma LongIsWrong(vs: seq<nat>, runs: seq<Run>)
    requires !NoneLong(runs)
    ensures !AllRight(vs, runs)
  {
    var i :| 0 <= i < |runs| && runs[i].amount > MOST_TICKS;
    assert i < |vs| ==> !Right(vs[i], runs[i]);
  }

  lemma {:induction false} WrapBytes(b: Byte, n: nat)
    requires Length7(b) == 0 && n > 0
    ensures Group(TickRuns(Fill(b, n))) == [Run(IsSpace(b), 1024 * n)]
  {
    FillSnoc(b, n - 1);
    TickRunsPush(Fill(b, n - 1), b);
    if n > 1 {
      WrapBytes(b, n - 1);
      ExtendSingle(IsSpace(b), 1024 * (n - 1), 1024);
    }
  }

  lemma ExtendSingle(space: bool, a: nat, b: nat)
    ensures Extend([Run(space, a)], Run(space, b)) == [Run(space, a + b)]
  {
  }

  lemma {:induction false} FillSnoc(b: Byte, n: nat)
    ensures Fill(b, n + 1) == Fill(b, n) + [b]
  {
    if n > 0 {
      FillSnoc(b, n - 1);
    }
  }

  /** The bound is tight: 768 wrap bytes of one state leave the 24-bit duration field, so
      that even a space reads as a pulse of no length. */
  lemma BoundIsTight(b: Byte)
    requires Length7(b) == 0
    ensures AllScaled(CappedRuns(Fill(b, 768))) == [PULSE_BIT]
  {
    CappedIsGroup(Fill(b, 768));
    WrapBytes(b, 768);
    var run := Run(IsSpace(b), 786432);
    assert Scaled(run) == PULSE_BIT;
    assert [run][..0] == [] && AllScaled([]) == [];
    AllScaledSnoc([run]);
  }
}
