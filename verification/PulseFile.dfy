/** The pulse file reader of software/usb_ir/iguanaIR.c, from already tokenised lines. */
module PulseFile {
  import opened Bytes
  import opened Runs
  import opened SendFormat
  import opened DevToPulses

  /** A line of the file; comments and empty lines are blank, anything unreadable is junk. */
  datatype Line = Blank | Junk | Pulse(value: nat) | Space(value: nat) | Number(value: nat)

  predicate InSpace(acc: seq<Run>) {
    acc == [] || acc[|acc| - 1].space
  }

  /** What a line means: pulses and spaces extend the run they belong to, a bare number
      starts the opposite run, and spaces before the first pulse are ignored. */
  function Feed(acc: seq<Run>, line: Line): seq<Run> {
    match line
    case Blank => acc
    case Junk => acc
    case Pulse(v) => Extend(acc, Run(false, v))
    case Space(v) => if acc == [] then acc else Extend(acc, Run(true, v))
    case Number(v) => acc + [Run(!InSpace(acc), v)]
  }

  function Meaning(lines: seq<Line>): seq<Run> {
    if lines == [] then [] else Feed(Meaning(lines[..|lines| - 1]), lines[|lines| - 1])
  }

  function Trimmed(acc: seq<Run>): seq<Run> {
    if acc != [] && acc[|acc| - 1].space then acc[..|acc| - 1] else acc
  }

  /** The stored form of a run: bit 24 marks a pulse. */
  function Encode(r: Run): nat {
    if r.space then r.amount else r.amount + PULSE_BIT
  }

  ghost predicate Fits(acc: seq<Run>) {
    forall i | 0 <= i < |acc| :: acc[i].amount < PULSE_BIT
  }

  ghost predicate Encodes(pulses: seq<nat>, acc: seq<Run>) {
    |pulses| == |acc| && forall i | 0 <= i < |acc| :: pulses[i] == Encode(acc[i])
  }

  /** The runs that fit are stored as they are, whatever happens to the others. */
  ghost predicate EncodesFitting(pulses: seq<nat>, acc: seq<Run>) {
    |pulses| == |acc| && forall i | 0 <= i < |acc| && acc[i].amount < PULSE_BIT :: pulses[i] == Encode(acc[i])
  }

  /** Every stored signal has the tag and the duration of its run. */
  ghost predicate AllTrue(pulses: seq<nat>, acc: seq<Run>) {
    && |pulses| == |acc|
    && forall i | 0 <= i < |acc| :: HasPulseBit(pulses[i]) == !acc[i].space && Micros(pulses[i]) == acc[i].amount
  }

  /** iguanaReadPulseFile; count is -1 for a failure, and for a file without pulses. The
      stored signals are right if and only if every stored run fits 24 bits. */
  method ReadPulseFile(lines: seq<Line>) returns (count: int, pulses: seq<nat>)
    ensures var acc := Meaning(lines);
      if acc == [] then count == -1
      else
        && count == |Trimmed(acc)| && |pulses| >= count
        && EncodesFitting(pulses[..count], Trimmed(acc))
        && (AllTrue(pulses[..count], Trimmed(acc)) <==> Fits(Trimmed(acc)))
  {
    var success, inSpace := false, true;
    count, pulses := 0, [];
    for n := 0 to |lines|
      invariant count == |pulses|
      invariant inSpace == InSpace(Meaning(lines[..n]))
      invariant EncodesFitting(pulses, Meaning(lines[..n]))
      invariant success == (n > 0)
    {
      MeaningStep(lines, n);
      pulses, inSpace := ReadLine(lines[n], pulses, inSpace, Meaning(lines[..n]));
      count := |pulses|;
      success := true;
    }
    assert lines[..|lines|] == lines;
    if !success {
      count := -1;
    } else if inSpace {
      count := count - 1;
    }
    if Meaning(lines) != [] {
      TrueExactly(pulses[..count], Trimmed(Meaning(lines)));
    }
  }

  lemma TrueExactly(pulses: seq<nat>, acc: seq<Run>)
    requires EncodesFitting(pulses, acc)
    ensures AllTrue(pulses, acc) <==> Fits(acc)
    ensures Encodes(pulses, acc) <== Fits(acc)
  {
    if !Fits(acc) {
      var i :| 0 <= i < |acc| && acc[i].amount >= PULSE_BIT;
      assert Micros(pulses[i]) < acc[i].amount;
    }
  }

  /** For example, a pulse of 0x1000000 microseconds does not fit: what is stored for it is a
      pulse of no duration. */
  lemma LongPulseVanishes()
    ensures !Fits(Trimmed(Meaning([Pulse(PULSE_BIT)])))
    ensures HasPulseBit(SetPulseBit(PULSE_BIT)) && Micros(SetPulseBit(PULSE_BIT)) == 0
  {
    assert [Pulse(PULSE_BIT)][..0] == [];
    assert Meaning([Pulse(PULSE_BIT)]) == [Run(false, PULSE_BIT)];
  }

  /** The body of the loop, for one line. */
  method ReadLine(line: Line, pulses: seq<nat>, inSpace: bool, ghost acc: seq<Run>)
    returns (pulses': seq<nat>, inSpace': bool)
    requires EncodesFitting(pulses, acc) && inSpace == InSpace(acc)
    ensures EncodesFitting(pulses', Feed(acc, line)) && inSpace' == InSpace(Feed(acc, line))
  {
    pulses', inSpace' := pulses, inSpace;
    var discard := line.Blank? || line.Junk?;
    if line.Pulse? && !inSpace {
      pulses' := pulses[|pulses| - 1 := (pulses[|pulses| - 1] + line.value) % UINT32];
      discard := true;
    } else if line.Space? && pulses == [] {
      discard := true;
    } else if line.Space? && inSpace {
      pulses' := pulses[|pulses| - 1 := (pulses[|pulses| - 1] + line.value) % UINT32];
      discard := true;
    }
    if !discard {
      pulses' := pulses + [if inSpace then SetPulseBit(line.value) else line.value];
      inSpace' := !inSpace;
    }
  }

  lemma MeaningStep(lines: seq<Line>, n: nat)
    requires n < |lines|
    ensures Meaning(lines[..n + 1]) == Feed(Meaning(lines[..n]), lines[n])
  {
    assert lines[..n + 1][..n] == lines[..n];
  }

  /** The last signal is a pulse, or a space. */
  predicate EndsWith(acc: seq<Run>, space: bool) {
    acc != [] && acc[|acc| - 1].space == space
  }

  /** The last signal grows by v. */
  function Grown(acc: seq<Run>, v: nat): seq<Run>
    requires acc != []
  {
    acc[..|acc| - 1] + [Run(acc[|acc| - 1].space, acc[|acc| - 1].amount + v)]
  }

  /** What one more line does to the signals so far: a pulse joins exactly a pulse, a space
      exactly a space, a number joins nothing, and what does not join is a new signal, except
      for a space before all signals. */
  lemma LineByLine(lines: seq<Line>, line: Line)
    ensures var acc, acc' := Meaning(lines), Meaning(lines + [line]);
      && (line.Blank? || line.Junk? ==> acc' == acc)
      && (line.Pulse? ==>
        acc' == if EndsWith(acc, false) then Grown(acc, line.value) else acc + [Run(false, line.value)])
      && (line.Space? && acc == [] ==> acc' == [])
      && (line.Space? && acc != [] ==>
        acc' == if EndsWith(acc, true) then Grown(acc, line.value) else acc + [Run(true, line.value)])
      && (line.Number? ==> acc' == acc + [Run(EndsWith(acc, false), line.value)])
  {
    assert (lines + [line])[..|lines|] == lines;
  }

  function Numbers(vs: seq<nat>): (lines: seq<Line>)
    ensures |lines| == |vs|
  {
    if vs == [] then [] else Numbers(vs[..|vs| - 1]) + [Number(vs[|vs| - 1])]
  }

  /** Pulses and spaces in turn, with these durations. */
  ghost predicate InTurn(acc: seq<Run>, vs: seq<nat>) {
    |acc| == |vs| && forall i | 0 <= i < |vs| :: acc[i] == Run(i % 2 == 1, vs[i])
  }

  /** Each value in its place, with the pulse bit at even places, and without the last value
      if their number is even. */
  ghost predicate StoredInTurn(pulses: seq<nat>, vs: seq<nat>) {
    && |pulses| == |vs| - (if vs != [] && |vs| % 2 == 0 then 1 else 0)
    && forall i | 0 <= i < |pulses| :: pulses[i] == vs[i] + if i % 2 == 0 then 0x1000000 else 0
  }

  /** A file of numbers: one signal for each, pulses and spaces in turn. */
  lemma {:induction false} NumbersAlternate(vs: seq<nat>)
    ensures InTurn(Meaning(Numbers(vs)), vs)
  {
    if vs != [] {
      var init, v := vs[..|vs| - 1], vs[|vs| - 1];
      NumbersAlternate(init);
      InTurnSnoc(Meaning(Numbers(init)), init, v);
      NumbersSnoc(init, v);
      assert init + [v] == vs;
    }
  }

  lemma NumbersSnoc(vs: seq<nat>, v: nat)
    ensures var acc := Meaning(Numbers(vs)); Meaning(Numbers(vs + [v])) == acc + [Run(EndsWith(acc, false), v)]
  {
    assert (vs + [v])[..|vs|] == vs;
    LineByLine(Numbers(vs), Number(v));
  }

  lemma InTurnSnoc(acc: seq<Run>, vs: seq<nat>, v: nat)
    requires InTurn(acc, vs)
    ensures InTurn(acc + [Run(EndsWith(acc, false), v)], vs + [v])
  {
    if vs != [] {
      assert acc[|vs| - 1].space == ((|vs| - 1) % 2 == 1);
    }
  }

  /** What is stored for a file of numbers. */
  lemma NumbersStored(vs: seq<nat>, pulses: seq<nat>)
    requires AllStored(pulses, Numbers(vs))
    ensures StoredInTurn(pulses, vs)
  {
    NumbersAlternate(vs);
    InTurnStored(Meaning(Numbers(vs)), vs, pulses);
  }

  lemma InTurnStored(acc: seq<Run>, vs: seq<nat>, pulses: seq<nat>)
    requires InTurn(acc, vs) && Encodes(pulses, Trimmed(acc))
    ensures StoredInTurn(pulses, vs)
  {
    if vs != [] {
      var last := |vs| - 1;
      assert acc[last].space == (last % 2 == 1);
    }
    forall i | 0 <= i < |pulses|
      ensures pulses[i] == vs[i] + if i % 2 == 0 then 0x1000000 else 0
    {
      assert Trimmed(acc)[i] == acc[i];
    }
  }

  /** The runs alternate and start with a pulse. */
  lemma {:induction false} MeaningAlternates(lines: seq<Line>)
    ensures Alternating(Meaning(lines))
    ensures Meaning(lines) != [] ==> !Meaning(lines)[0].space
  {
    if lines != [] {
      MeaningAlternates(lines[..|lines| - 1]);
    }
  }

  lemma {:induction false} ParityOfRuns(acc: seq<Run>, i: nat)
    requires Alternating(acc) && i < |acc| && !acc[0].space
    ensures acc[i].space == Odd(i)
  {
    if i > 0 {
      ParityOfRuns(acc, i - 1);
    }
  }

  /** The signals that the reader stores for a file whose stored runs fit. */
  ghost predicate AllStored(pulses: seq<nat>, lines: seq<Line>) {
    Fits(Trimmed(Meaning(lines))) && Encodes(pulses, Trimmed(Meaning(lines)))
  }

  /** A result other than -1 has odd length, starts and ends with a pulse, and has the pulse
      bit exactly at the even positions: the signals as the encoder expects them. */
  lemma ResultShape(lines: seq<Line>, pulses: seq<nat>, i: nat)
    requires Meaning(lines) != [] && AllStored(pulses, lines)
    ensures Odd(|pulses|)
    ensures i < |pulses| ==> pulses[i] / PULSE_BIT == (if Odd(i) then 0 else 1)
    ensures i < |pulses| ==> pulses[i] % PULSE_BIT == Meaning(lines)[i].amount
  {
    var acc := Meaning(lines);
    MeaningAlternates(lines);
    ParityOfRuns(acc, |acc| - 1);
    if i < |pulses| {
      ParityOfRuns(acc, i);
      assert pulses[i] == Encode(acc[i]);
    }
  }

  function Total(acc: seq<Run>): nat {
    if acc == [] then 0 else Total(acc[..|acc| - 1]) + acc[|acc| - 1].amount
  }

  function ValueOf(line: Line): nat {
    if line.Blank? || line.Junk? then 0 else line.value
  }

  function LinesTotal(lines: seq<Line>): nat {
    if lines == [] then 0 else LinesTotal(lines[..|lines| - 1]) + ValueOf(lines[|lines| - 1])
  }

  /** The spaces before the first pulse or number. */
  function LeadingSpaces(lines: seq<Line>): nat {
    if lines == [] || lines[0].Pulse? || lines[0].Number? then 0
    else ValueOf(lines[0]) + LeadingSpaces(lines[1..])
  }

  lemma TotalExtend(acc: seq<Run>, r: Run)
    ensures Total(Extend(acc, r)) == Total(acc) + r.amount
  {
    var e := Extend(acc, r);
    if acc != [] && acc[|acc| - 1].space == r.space {
      assert e[..|e| - 1] == acc[..|acc| - 1];
    } else {
      assert e[..|e| - 1] == acc;
    }
  }

  lemma TotalFeed(acc: seq<Run>, line: Line)
    ensures Total(Feed(acc, line)) == Total(acc) + if acc == [] && line.Space? then 0 else ValueOf(line)
  {
    if line.Number? {
      assert Feed(acc, line)[..|acc|] == acc;
    } else if line.Pulse? || (line.Space? && acc != []) {
      TotalExtend(acc, Run(line.Space?, line.value));
    }
  }

  lemma {:induction false} LeadingSnoc(lines: seq<Line>)
    requires lines != []
    ensures var init, line := lines[..|lines| - 1], lines[|lines| - 1];
      LeadingSpaces(lines) == LeadingSpaces(init) + if Meaning(init) == [] && line.Space? then line.value else 0
    ensures Meaning(lines) == [] <==> forall i | 0 <= i < |lines| :: !lines[i].Pulse? && !lines[i].Number?
    decreases |lines|
  {
    var init, line := lines[..|lines| - 1], lines[|lines| - 1];
    if |lines| > 1 {
      LeadingSnoc(init);
    }
    LeadingPush(init, line);
    assert lines == init + [line];
  }

  lemma {:induction false} LeadingPush(init: seq<Line>, line: Line)
    ensures LeadingSpaces(init + [line]) == LeadingSpaces(init) +
      if (forall i | 0 <= i < |init| :: !init[i].Pulse? && !init[i].Number?) && line.Space? then line.value else 0
  {
    var lines := init + [line];
    if init == [] {
      assert lines[1..] == [];
    } else if !init[0].Pulse? && !init[0].Number? {
      LeadingPush(init[1..], line);
      assert lines[1..] == init[1..] + [line];
      assert (forall i | 0 <= i < |init| :: !init[i].Pulse? && !init[i].Number?)
        <==> (forall i | 0 <= i < |init[1..]| :: !init[1..][i].Pulse? && !init[1..][i].Number?);
    }
  }

  /** Nothing of the duration is lost except leading spaces and one trimmed trailing space. */
  lemma {:induction false} DurationPreserved(lines: seq<Line>)
    ensures Total(Meaning(lines)) + LeadingSpaces(lines) == LinesTotal(lines)
    ensures var acc := Meaning(lines);
      Total(Trimmed(acc)) == Total(acc) - if acc != [] && InSpace(acc) then acc[|acc| - 1].amount else 0
  {
    if lines != [] {
      var init := lines[..|lines| - 1];
      DurationPreserved(init);
      TotalFeed(Meaning(init), lines[|lines| - 1]);
      LeadingSnoc(lines);
    }
  }

  /** The durations in an array of signals. */
  function StoredTotal(pulses: seq<nat>): nat {
    if pulses == [] then 0 else StoredTotal(pulses[..|pulses| - 1]) + pulses[|pulses| - 1] % PULSE_BIT
  }

  lemma {:induction false} StoredTotalOf(pulses: seq<nat>, acc: seq<Run>)
    requires Encodes(pulses, acc) && Fits(acc)
    ensures StoredTotal(pulses) == Total(acc)
  {
    if pulses != [] {
      var last := |pulses| - 1;
      StoredTotalOf(pulses[..last], acc[..last]);
      assert pulses[last] == Encode(acc[last]);
    }
  }

  /** What the reader stores lasts as long as the lines say, except for leading spaces and
      one trailing space. */
  lemma StoredDuration(lines: seq<Line>, pulses: seq<nat>)
    requires AllStored(pulses, lines)
    ensures var acc := Meaning(lines);
      var trailing := if acc != [] && InSpace(acc) then acc[|acc| - 1].amount else 0;
      LeadingSpaces(lines) + StoredTotal(pulses) + trailing == LinesTotal(lines)
  {
    DurationPreserved(lines);
    StoredTotalOf(pulses, Trimmed(Meaning(lines)));
  }
}
