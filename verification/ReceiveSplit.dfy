/** The receive path end to end: however the raw stream is cut into packets, decoding each
    packet and joining in the LIRC loop gives the runs of the uncut stream. */
module ReceiveSplit {
  import opened Bytes
  import opened SendFormat
  import opened Runs
  import opened DevToPulses
  import opened Lirc

  /** Everything the LIRC side has written, with the pending duration last. */
  function Received(packets: seq<Packet>): seq<Run> {
    if packets == [] then []
    else SatAppend(Received(packets[..|packets| - 1]), CodeRuns(AllScaled(CappedRuns(packets[|packets| - 1]))))
  }

  /** One device packet of up to eight bytes: the daemon decodes it, the driver joins it. */
  method ReceivePacket(packet: Packet, receiver: Receiver) returns (out: seq<nat>)
    requires 0 < |packet| <= 8 && receiver.Valid()
    modifies receiver
    ensures receiver.Valid() && receiver.Pending() != []
    ensures CodeRuns(out) + receiver.Pending()
         == SatAppend(old(receiver.Pending()), CodeRuns(AllScaled(CappedRuns(packet))))
  {
    var retval, codeLength := Decode(packet);
    var buffer, y := receiver.Merge(retval[..codeLength]);
    out := buffer[..y];
  }

  /** The daemon and the driver over any sequence of device packets. */
  method ReceiveAll(packets: seq<Packet>) returns (written: seq<nat>, receiver: Receiver)
    requires forall i | 0 <= i < |packets| :: 0 < |packets[i]| <= 8
    ensures receiver.Valid()
    ensures CodeRuns(written) + receiver.Pending() == Received(packets)
  {
    written := [];
    receiver := new Receiver();
    for n := 0 to |packets|
      invariant receiver.Valid() && fresh(receiver)
      invariant receiver.Pending() == [] ==> written == []
      invariant CodeRuns(written) + receiver.Pending() == Received(packets[..n])
    {
      ghost var before, rs := CodeRuns(written), CodeRuns(AllScaled(CappedRuns(packets[n])));
      SatAppendTail(before, receiver.Pending(), rs);
      ReceivedStep(packets, n);
      assert Received(packets[..n + 1]) == before + SatAppend(receiver.Pending(), rs);
      var out := ReceivePacket(packets[n], receiver);
      CodeRunsConcat(written, out);
      written := written + out;
      Assoc(before, CodeRuns(out), receiver.Pending());
    }
    assert packets[..|packets|] == packets;
  }

  lemma ReceivedStep(packets: seq<Packet>, n: nat)
    requires n < |packets|
    ensures Received(packets[..n + 1]) == SatAppend(Received(packets[..n]), CodeRuns(AllScaled(CappedRuns(packets[n]))))
  {
    assert packets[..n + 1][..n] == packets[..n];
  }

  lemma {:induction false} SatAppendTail(w: seq<Run>, p: seq<Run>, rs: seq<Run>)
    requires p == [] ==> w == []
    ensures SatAppend(w + p, rs) == w + SatAppend(p, rs)
  {
    if rs != [] {
      SatAppendTail(w, p, rs[..|rs| - 1]);
      SatAppendNonEmpty(p, rs[..|rs| - 1]);
      SatExtendTail(w, SatAppend(p, rs[..|rs| - 1]), rs[|rs| - 1]);
    }
  }

  lemma {:induction false} SatAppendNonEmpty(p: seq<Run>, rs: seq<Run>)
    ensures |SatAppend(p, rs)| >= |p|
    ensures rs != [] ==> SatAppend(p, rs) != []
  {
    if rs != [] {
      SatAppendNonEmpty(p, rs[..|rs| - 1]);
    }
  }

  lemma {:induction false} CodeRunsConcat(a: seq<nat>, b: seq<nat>)
    ensures CodeRuns(a + b) == CodeRuns(a) + CodeRuns(b)
    decreases |b|
  {
    if b == [] {
      assert a + b == a;
    } else {
      CodeRunsConcat(a, b[..|b| - 1]);
      assert (a + b)[..|a + b| - 1] == a + b[..|b| - 1];
    }
  }

  /** The exact microseconds of each run before clipping: one floor per packet. */
  function Floors(rs: seq<Run>): (ms: seq<Run>)
    ensures |ms| == |rs|
  {
    if rs == [] then [] else Floors(rs[..|rs| - 1]) + [Run(rs[|rs| - 1].space, rs[|rs| - 1].amount * 64 / 3)]
  }

  /** A count of one for each run. */
  function Ones(rs: seq<Run>): (os: seq<Run>)
    ensures |os| == |rs|
  {
    if rs == [] then [] else Ones(rs[..|rs| - 1]) + [Run(rs[|rs| - 1].space, 1)]
  }

  function MicroRuns(packets: seq<Packet>): seq<Run> {
    if packets == [] then []
    else Append(MicroRuns(packets[..|packets| - 1]), Floors(Group(TickRuns(packets[|packets| - 1]))))
  }

  function PacketCounts(packets: seq<Packet>): seq<Run> {
    if packets == [] then []
    else Append(PacketCounts(packets[..|packets| - 1]), Ones(Group(TickRuns(packets[|packets| - 1]))))
  }

  /** Same states, and the floors lose less than one microsecond per count. */
  ghost predicate Related(ts: seq<Run>, ms: seq<Run>, os: seq<Run>) {
    && |ts| == |ms| == |os|
    && forall i | 0 <= i < |ts| :: RelatedRun(ts[i], ms[i], os[i])
  }

  ghost predicate RelatedRun(t: Run, m: Run, o: Run) {
    && t.space == m.space == o.space
    && 3 * m.amount <= 64 * t.amount < 3 * (m.amount + o.amount)
  }

  lemma ExtendRelated(ts: seq<Run>, ms: seq<Run>, os: seq<Run>, t: Run, m: Run, o: Run)
    requires Related(ts, ms, os) && RelatedRun(t, m, o)
    ensures Related(Extend(ts, t), Extend(ms, m), Extend(os, o))
  {
  }

  lemma {:induction false} AppendRelated(ts: seq<Run>, ms: seq<Run>, os: seq<Run>, rs: seq<Run>)
    requires Related(ts, ms, os)
    ensures Related(Append(ts, rs), Append(ms, Floors(rs)), Append(os, Ones(rs)))
  {
    if rs != [] {
      var init, r := rs[..|rs| - 1], rs[|rs| - 1];
      AppendRelated(ts, ms, os, init);
      var m, o := Run(r.space, r.amount * 64 / 3), Run(r.space, 1);
      ExtendRelated(Append(ts, init), Append(ms, Floors(init)), Append(os, Ones(init)), r, m, o);
      AppendSnoc(ms, Floors(init), m);
      AppendSnoc(os, Ones(init), o);
    }
  }

  lemma AppendSnoc(acc: seq<Run>, rs: seq<Run>, r: Run)
    ensures Append(acc, rs + [r]) == Extend(Append(acc, rs), r)
  {
    assert (rs + [r])[..|rs|] == rs;
  }

  lemma {:induction false} AllRelated(packets: seq<Packet>)
    ensures Related(Group(TickRuns(Concat(packets))), MicroRuns(packets), PacketCounts(packets))
  {
    if packets != [] {
      var init, p := packets[..|packets| - 1], packets[|packets| - 1];
      AllRelated(init);
      StreamStep(packets);
      AppendRelated(Group(TickRuns(Concat(init))), MicroRuns(init), PacketCounts(init), Group(TickRuns(p)));
    }
  }

  /** The runs of the stream with one more packet. */
  lemma StreamStep(packets: seq<Packet>)
    requires packets != []
    ensures var init, p := packets[..|packets| - 1], packets[|packets| - 1];
      Group(TickRuns(Concat(packets))) == Append(Group(TickRuns(Concat(init))), Group(TickRuns(p)))
  {
    var init, p := packets[..|packets| - 1], packets[|packets| - 1];
    TickRunsConcat(Concat(init), p);
    GroupConcat(TickRuns(Concat(init)), TickRuns(p));
  }

  /** Clipping every amount at the mask. */
  function Clip(rs: seq<Run>): (cs: seq<Run>)
    ensures |cs| == |rs|
  {
    if rs == [] then []
    else Clip(rs[..|rs| - 1]) + [Run(rs[|rs| - 1].space, Min(rs[|rs| - 1].amount, PULSE_MASK))]
  }

  /** Clipping at each joining step is clipping once at the end. */
  lemma ClipExtend(acc: seq<Run>, r: Run)
    requires r.amount <= PULSE_MASK
    ensures SatExtend(Clip(acc), r) == Clip(Extend(acc, r))
  {
    var e := Extend(acc, r);
    if acc != [] && acc[|acc| - 1].space == r.space {
      assert e[..|e| - 1] == acc[..|acc| - 1];
    } else {
      assert e[..|e| - 1] == acc;
    }
  }

  lemma {:induction false} ClipAppend(acc: seq<Run>, rs: seq<Run>)
    requires forall i | 0 <= i < |rs| :: rs[i].amount <= PULSE_MASK
    ensures SatAppend(Clip(acc), rs) == Clip(Append(acc, rs))
  {
    if rs != [] {
      ClipAppend(acc, rs[..|rs| - 1]);
      ClipExtend(Append(acc, rs[..|rs| - 1]), rs[|rs| - 1]);
    }
  }

  /** The values decoded from one packet are the floors of its runs. */
  lemma {:induction false} DecodedFloors(rs: seq<Run>)
    requires forall i | 0 <= i < |rs| :: rs[i].amount <= 1024 * 767
    ensures CodeRuns(AllScaled(rs)) == Floors(rs)
    ensures forall i | 0 <= i < |rs| :: Floors(rs)[i].amount <= PULSE_MASK
  {
    if rs != [] {
      DecodedFloors(rs[..|rs| - 1]);
      ScaledFits(rs[|rs| - 1]);
      CodeRunsStep(AllScaled(rs), |rs| - 1);
    }
  }

  ghost predicate PacketSized(packets: seq<Packet>) {
    forall i | 0 <= i < |packets| :: 0 < |packets[i]| <= 767
  }

  lemma {:induction false} ReceivedIsClipped(packets: seq<Packet>)
    requires PacketSized(packets)
    ensures Received(packets) == Clip(MicroRuns(packets))
  {
    if packets != [] {
      var init, p := packets[..|packets| - 1], packets[|packets| - 1];
      ReceivedIsClipped(init);
      CappedIsGroup(p);
      GroupBound(p);
      DecodedFloors(Group(TickRuns(p)));
      ClipAppend(MicroRuns(init), Floors(Group(TickRuns(p))));
    }
  }

  /** The index of the run that holds the last byte of a stream. */
  function RunIndex(stream: seq<Byte>): int {
    |Group(TickRuns(stream))| - 1
  }

  /** Whether the last packet holds a byte of run i of the whole stream. */
  predicate Touches(packets: seq<Packet>, i: nat)
    requires packets != [] && packets[|packets| - 1] != []
  {
    var before, p := Concat(packets[..|packets| - 1]), packets[|packets| - 1];
    RunIndex(before + [p[0]]) <= i <= RunIndex(before + p)
  }

  /** The number of packets that hold a byte of run i. */
  function Spanned(packets: seq<Packet>, i: nat): nat
    requires PacketSized(packets)
  {
    if packets == [] then 0
    else Spanned(packets[..|packets| - 1], i) + if Touches(packets, i) then 1 else 0
  }

  /** Appending an alternating list changes only the run at the seam. */
  lemma {:induction false} AppendAlternating(acc: seq<Run>, g: seq<Run>)
    requires Alternating(g) && g != []
    ensures Append(acc, g) == Extend(acc, g[0]) + g[1..]
  {
    if |g| == 1 {
      AppendSnoc(acc, [], g[0]);
      assert [] + [g[0]] == g;
    } else {
      var init, r := g[..|g| - 1], g[|g| - 1];
      var s := Extend(acc, g[0]) + init[1..];
      AppendAlternating(acc, init);
      assert s[|s| - 1].space == init[|init| - 1].space;
      Assoc(Extend(acc, g[0]), init[1..], [r]);
      assert init[1..] + [r] == g[1..];
    }
  }

  lemma {:induction false} OnesAt(rs: seq<Run>)
    ensures forall i | 0 <= i < |rs| :: Ones(rs)[i] == Run(rs[i].space, 1)
  {
    if rs != [] {
      OnesAt(rs[..|rs| - 1]);
    }
  }

  /** The first byte of a packet joins the last run exactly when its first run does. */
  lemma FirstByteRun(before: seq<Byte>, p: seq<Byte>)
    requires p != []
    ensures Group(TickRuns(p)) != []
    ensures RunIndex(before + [p[0]]) == |Extend(Group(TickRuns(before)), Group(TickRuns(p))[0])| - 1
  {
    TickRunsPush(before, p[0]);
    FirstRunState(p);
  }

  lemma {:induction false} FirstRunState(p: seq<Byte>)
    requires p != []
    ensures Group(TickRuns(p)) != [] && Group(TickRuns(p))[0].space == IsSpace(p[0])
  {
    TickRunsSnoc(p);
    if |p| > 1 {
      FirstRunState(p[..|p| - 1]);
    }
  }

  /** The counts kept along the way are the packets that hold a byte of each run. */
  lemma {:induction false} CountsAreSpans(packets: seq<Packet>, i: nat)
    requires PacketSized(packets)
    ensures |PacketCounts(packets)| == |Group(TickRuns(Concat(packets)))|
    ensures Spanned(packets, i) == AmountAt(PacketCounts(packets), i)
  {
    AllRelated(packets);
    if packets != [] {
      CountsAreSpans(packets[..|packets| - 1], i);
      CountsStep(packets, i);
    }
  }

  function AmountAt(rs: seq<Run>, i: nat): nat {
    if i < |rs| then rs[i].amount else 0
  }

  /** Extending by a run of one adds one at the end only. */
  lemma ExtendByOne(os: seq<Run>, space: bool, i: nat)
    ensures var e := Extend(os, Run(space, 1));
      i < |e| ==> e[i].amount == AmountAt(os, i) + if i == |e| - 1 then 1 else 0
  {
  }

  /** Appending ones adds one from the seam to the end. */
  lemma AppendOnes(os: seq<Run>, g: seq<Run>, i: nat)
    requires Alternating(g) && g != []
    ensures AmountAt(Append(os, Ones(g)), i)
         == AmountAt(os, i) + if |Extend(os, g[0])| - 1 <= i < |Append(os, Ones(g))| then 1 else 0
  {
    OnesAt(g);
    AppendAlternating(os, Ones(g));
    assert |Extend(os, g[0])| == |Extend(os, Ones(g)[0])|;
    OnesFromSeam(os, g[0].space, Ones(g)[1..], i);
  }

  lemma OnesFromSeam(os: seq<Run>, space: bool, tail: seq<Run>, i: nat)
    requires forall j | 0 <= j < |tail| :: tail[j].amount == 1
    ensures var e := Extend(os, Run(space, 1));
      AmountAt(e + tail, i) == AmountAt(os, i) + if |e| - 1 <= i < |e + tail| then 1 else 0
  {
    ExtendByOne(os, space, i);
    assert |Extend(os, Run(space, 1))| >= |os|;
  }

  /** The last packet's runs, located through the counts. */
  lemma TouchedRuns(packets: seq<Packet>, i: nat)
    requires PacketSized(packets) && packets != []
    ensures var init, p := packets[..|packets| - 1], packets[|packets| - 1];
      var g := Group(TickRuns(p));
      && g != []
      && (Touches(packets, i) <==> |Extend(PacketCounts(init), g[0])| - 1 <= i < |PacketCounts(packets)|)
  {
    var init, p := packets[..|packets| - 1], packets[|packets| - 1];
    AllRelated(init);
    AllRelated(packets);
    FirstByteRun(Concat(init), p);
    SameSeam(Group(TickRuns(Concat(init))), MicroRuns(init), PacketCounts(init), Group(TickRuns(p))[0]);
    assert Concat(packets) == Concat(init) + p;
  }

  /** One more packet adds one to the runs from its first byte's to its last byte's. */
  lemma CountsStep(packets: seq<Packet>, i: nat)
    requires PacketSized(packets) && packets != []
    ensures AmountAt(PacketCounts(packets), i)
         == AmountAt(PacketCounts(packets[..|packets| - 1]), i) + if Touches(packets, i) then 1 else 0
  {
    var init, p := packets[..|packets| - 1], packets[|packets| - 1];
    AppendAlternates([], TickRuns(p));
    TouchedRuns(packets, i);
    AppendOnes(PacketCounts(init), Group(TickRuns(p)), i);
  }

  lemma SameSeam(ts: seq<Run>, ms: seq<Run>, os: seq<Run>, r: Run)
    requires Related(ts, ms, os)
    ensures |Extend(ts, r)| == |Extend(os, r)|
  {
    assert ts != [] ==> RelatedRun(ts[|ts| - 1], ms[|ts| - 1], os[|ts| - 1]);
  }

  /** For every raw stream and every cut into packets of 1 to 767 bytes, the LIRC side sees
      the runs of the uncut stream with their states. No duration exceeds the exact one, and
      one that is not clipped is short by less than a microsecond per packet it spans. */
  lemma SplitInvariant(packets: seq<Packet>, i: nat)
    requires PacketSized(packets)
    ensures |Received(packets)| == RunCount(Concat(packets))
    ensures i < |Received(packets)| ==>
      var bytes, seen := BytesOf(Concat(packets), i), Received(packets)[i];
      var ticks := 1024 * Wraps(bytes) + (|bytes| - Wraps(bytes)) + LowBits(bytes);
      && bytes != [] && seen.space == (bytes[0] >= 128)
      && seen.amount <= PULSE_MASK
      && 3 * seen.amount <= 64 * ticks
      && (seen.amount < PULSE_MASK ==> 64 * ticks < 3 * (seen.amount + Spanned(packets, i)))
  {
    AllRelated(packets);
    ReceivedIsClipped(packets);
    CountsAreSpans(packets, i);
    GroupIsExplicit(Concat(packets), i);
    if i < |Received(packets)| {
      ClipAt(MicroRuns(packets), i);
      assert RelatedRun(Group(TickRuns(Concat(packets)))[i], MicroRuns(packets)[i], PacketCounts(packets)[i]);
    }
  }

  lemma {:induction false} ClipAt(rs: seq<Run>, i: nat)
    requires i < |rs|
    ensures Clip(rs)[i] == Run(rs[i].space, Min(rs[i].amount, PULSE_MASK))
  {
    if i < |rs| - 1 {
      ClipAt(rs[..|rs| - 1], i);
    }
  }
}
