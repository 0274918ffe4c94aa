/** The receive loop of the LIRC driver (software/lirc-drv-iguanair/iguanair.c): runs that
    were split across packets are joined again, with saturation. */
module Lirc {
  import opened Bytes
  import opened Runs
  import opened DevToPulses

  /** A tagged duration as a run. */
  function CodeRun(v: nat): Run {
    Run(!HasPulseBit(v), Micros(v))
  }

  function CodeRuns(vs: seq<nat>): (rs: seq<Run>)
    ensures |rs| == |vs|
  {
    if vs == [] then [] else CodeRuns(vs[..|vs| - 1]) + [CodeRun(vs[|vs| - 1])]
  }

  function Min(a: nat, b: nat): nat {
    if a <= b then a else b
  }

  /** Joins one duration to the last one of the same state, clipping at the mask. */
  function SatExtend(acc: seq<Run>, r: Run): seq<Run> {
    if acc != [] && acc[|acc| - 1].space == r.space
    then acc[|acc| - 1 := Run(r.space, Min(acc[|acc| - 1].amount + r.amount, PULSE_MASK))]
    else acc + [r]
  }

  function SatAppend(acc: seq<Run>, rs: seq<Run>): seq<Run> {
    if rs == [] then acc else SatExtend(SatAppend(acc, rs[..|rs| - 1]), rs[|rs| - 1])
  }

  /** The state that recv_loop carries from packet to packet. */
  class Receiver {
    var prevCode: int

    ghost predicate Valid()
      reads this
    {
      -1 <= prevCode < 2 * PULSE_BIT
    }

    /** The duration that is still being joined. */
    ghost function Pending(): seq<Run>
      requires Valid()
      reads this
    {
      if prevCode == -1 then [] else [CodeRun(prevCode)]
    }

    constructor ()
      ensures Valid() && Pending() == []
    {
      prevCode := -1;
    }

    /** Handles one decoded value; returns the finished duration, or -1. */
    method Push(v: nat) returns (finished: int)
      requires Valid()
      modifies this
      ensures Valid() && Pending() != []
      ensures finished == -1 || 0 <= finished == old(prevCode)
      ensures (if finished == -1 then [] else [CodeRun(finished)]) + Pending() == SatExtend(old(Pending()), CodeRun(v))
    {
      finished := -1;
      if prevCode == -1 {
        prevCode := Micros(v);
        if HasPulseBit(v) {
          prevCode := prevCode + PULSE_BIT;
        }
      } else if HasPulseBit(prevCode) == HasPulseBit(v) {
        if Micros(prevCode) + Micros(v) > PULSE_MASK {
          prevCode := (if HasPulseBit(prevCode) then PULSE_BIT else 0) + PULSE_MASK;
        } else {
          prevCode := prevCode + Micros(v);
        }
      } else {
        finished := prevCode;
        prevCode := Micros(v);
        if HasPulseBit(v) {
          prevCode := prevCode + PULSE_BIT;
        }
      }
    }

    /** Handles one value and stores the finished duration, if any. */
    method Store(buffer: array<nat>, y: nat, v: nat) returns (y': nat)
      requires Valid() && y < buffer.Length && (Pending() == [] ==> y == 0)
      modifies this, buffer
      ensures Valid() && Pending() != [] && y <= y' <= y + 1
      ensures CodeRuns(buffer[..y']) + Pending() == SatExtend(CodeRuns(old(buffer[..y])) + old(Pending()), CodeRun(v))
    {
      ghost var written := buffer[..y];
      SatExtendTail(CodeRuns(written), Pending(), CodeRun(v));
      var finished := Push(v);
      y' := y;
      if finished != -1 {
        buffer[y] := finished;
        y' := y + 1;
        assert buffer[..y'] == written + [finished];
        CodeRunsStep(written + [finished], y);
        assert (written + [finished])[..y] == written;
      } else {
        assert buffer[..y] == written;
      }
    }

    /** One packet: the finished durations go to the eight-entry buffer. */
    method Merge(code: seq<nat>) returns (buffer: array<nat>, y: nat)
      requires Valid() && |code| <= 8
      modifies this
      ensures Valid() && y <= |code| && buffer.Length == 8
      ensures code != [] ==> Pending() != []
      ensures CodeRuns(buffer[..y]) + Pending() == SatAppend(old(Pending()), CodeRuns(code))
    {
      buffer := new nat[8];
      y := 0;
      ghost var start := Pending();
      for x := 0 to |code|
        invariant Valid() && y <= x
        invariant Pending() == [] ==> y == 0
        invariant x > 0 ==> Pending() != []
        invariant CodeRuns(buffer[..y]) + Pending() == SatAppend(start, CodeRuns(code[..x]))
      {
        CodeRunsStep(code, x);
        SatAppendSnoc(start, CodeRuns(code[..x]), CodeRun(code[x]));
        y := Store(buffer, y, code[x]);
      }
      assert code[..|code|] == code;
    }
  }

  /** Only the last duration can still change. */
  lemma SatExtendTail(written: seq<Run>, pending: seq<Run>, r: Run)
    requires pending == [] ==> written == []
    ensures SatExtend(written + pending, r) == written + SatExtend(pending, r)
  {
  }

  lemma SatAppendSnoc(acc: seq<Run>, rs: seq<Run>, r: Run)
    ensures SatAppend(acc, rs + [r]) == SatExtend(SatAppend(acc, rs), r)
  {
    assert (rs + [r])[..|rs|] == rs;
  }

  lemma CodeRunsStep(vs: seq<nat>, x: nat)
    requires x < |vs|
    ensures CodeRuns(vs[..x + 1]) == CodeRuns(vs[..x]) + [CodeRun(vs[x])]
  {
    assert vs[..x + 1][..x] == vs[..x];
  }
}
