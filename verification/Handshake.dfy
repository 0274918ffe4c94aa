/** The one-slot response handshake between the reader thread and the worker thread of
    software/usb_ir/device-interface.c, as a step system over all interleavings. The reader
    stores a response and announces it under a lock that the flush loop does not take, so
    both actions of the reader and all three of the loop are separate steps. The critical
    section of the worker is one step, because the reader waits for it. */
module Handshake {
  datatype Slot = Empty | Holds(packet: nat)

  /** Where the worker is in deviceTransaction: in the flush loop before reading a
      notification, before freeing, before clearing the slot; then waiting for the answer,
      before its critical section, and behind it with what the slot held. */
  datatype Worker = Idle | Polling | Freeing | Clearing | Waiting | Notified | Got(slot: Slot)

  /** Packets are numbered in the order in which the reader stores them. The reader is
      storing while it is inside its critical section, with a packet stored and not yet
      announced; pipe is the number of unread bytes in the response pipe, freed the packets
      given back. About the last flush, flushedAt is the number of the next packet when it
      ended, and raced tells whether the reader was storing then. */
  datatype State = State(
    worker: Worker, storing: bool, pipe: nat, slot: Slot, queued: nat, flushedAt: nat, raced: bool, freed: set<nat>)

  const START := State(Idle, false, 0, Empty, 0, 0, false, {})

  function PacketsOf(slot: Slot): set<nat> {
    if slot == Empty then {} else {slot.packet}
  }

  /** The two actions of queueDataPacket inside its critical section. */
  function Store(s: State): State {
    s.(storing := true, slot := Holds(s.queued), queued := s.queued + 1)
  }

  function Notify(s: State): State {
    s.(storing := false, pipe := s.pipe + 1)
  }

  function ReaderStep(s: State): State {
    if s.storing then Notify(s) else Store(s)
  }

  /** The poll that finds no notification and ends the flush. */
  function EndFlush(s: State): State {
    s.(worker := Waiting, flushedAt := s.queued, raced := s.storing)
  }

  /** The worker's next action. A wait may also end by timeout or a failed write; the
      critical section of the worker waits for that of the reader; and reading an empty slot
      as a packet is the end of the worker. */
  ghost predicate WorkerStep(s: State, s': State) {
    match s.worker
    case Idle => s' == s.(worker := Polling)
    case Polling => s' == if s.pipe > 0 then s.(worker := Freeing, pipe := s.pipe - 1) else EndFlush(s)
    case Freeing => s' == s.(worker := Clearing, freed := s.freed + PacketsOf(s.slot))
    case Clearing => s' == s.(worker := Polling, slot := Empty)
    case Waiting =>
      s' == s.(worker := Idle) || (s.pipe > 0 && s' == s.(worker := Notified, pipe := s.pipe - 1))
    case Notified => !s.storing && s' == s.(worker := Got(s.slot), slot := Empty)
    case Got(slot) => slot.Holds? && s' == s.(worker := Idle, freed := s.freed + PacketsOf(slot))
  }

  ghost predicate Next(s: State, s': State) {
    s' == ReaderStep(s) || WorkerStep(s, s')
  }

  ghost predicate Steps(run: seq<State>) {
    forall i | 0 < i < |run| :: Next(run[i - 1], run[i])
  }

  /** A run: every state follows from the one before, by either thread. */
  ghost predicate IsRun(run: seq<State>) {
    run != [] && run[0] == START && Steps(run)
  }

  function Count(b: bool): nat {
    if b then 1 else 0
  }

  /** The answer is a packet stored after the last flush. */
  predicate Fresh(s: State, slot: Slot) {
    slot.Holds? && s.flushedAt <= slot.packet < s.queued
  }

  ghost predicate Inv(s: State) {
    && s.flushedAt <= s.queued
    // the slot holds the last packet or nothing
    && (s.slot.Holds? ==> s.slot.packet + 1 == s.queued)
    // since the flush, every packet is announced once, and so is one that raced with it
    && (s.worker == Waiting || s.worker == Notified ==>
      && s.pipe + Count(s.storing) + Count(s.worker == Notified) == s.queued - s.flushedAt + Count(s.raced)
      && (s.queued > s.flushedAt ==> s.slot.Holds?))
    // the worker's packet is older than the slot's and not freed
    && (s.worker.Got? && s.worker.slot.Holds? ==>
      && s.worker.slot.packet < s.queued
      && s.worker.slot != s.slot
      && s.worker.slot.packet !in s.freed)
    // only stored packets are freed, and the slot shows a freed one only just before it is cleared
    && (forall p | p in s.freed :: p < s.queued)
    && (s.worker != Clearing && s.slot.Holds? ==> s.slot.packet !in s.freed)
  }

  lemma StepKeepsInv(s: State, s': State)
    requires Inv(s) && Next(s, s')
    ensures Inv(s')
  {
    if s' != ReaderStep(s) {
      WorkerKeepsInv(s, s');
    }
  }

  lemma WorkerKeepsInv(s: State, s': State)
    requires Inv(s) && WorkerStep(s, s')
    ensures Inv(s')
  {
  }

  lemma {:induction false} RunKeepsInv(run: seq<State>)
    requires IsRun(run)
    ensures Inv(run[|run| - 1])
  {
    if |run| > 1 {
      var init := run[..|run| - 1];
      RunKeepsInv(init);
      StepKeepsInv(init[|init| - 1], run[|run| - 1]);
    }
  }

  /** In every interleaving, the worker reads a packet stored after its flush exactly when
      one was stored since, which is when the reader was outside its critical section at the
      end of the flush or another notification is left in the pipe. Otherwise it reads
      nothing, or the packet that raced with the flush; a freed packet it never reads. */
  lemma AnswerFreshExactly(run: seq<State>, i: nat)
    requires IsRun(run) && 0 < i < |run| && run[i - 1].worker == Notified && run[i].worker.Got?
    ensures var s, slot := run[i - 1], run[i].worker.slot;
      && (Fresh(s, slot) <==> s.queued > s.flushedAt)
      && (Fresh(s, slot) <==> !s.raced || s.pipe > 0)
      && (Fresh(s, slot) || slot == Empty || slot.packet + 1 == s.flushedAt)
      && PacketsOf(slot) !! s.freed
  {
    RunKeepsInv(run[..i]);
    assert Next(run[i - 1], run[i]);
  }

  /** The last poll of every flush finds the reader outside its critical section. */
  ghost predicate FlushesOutside(run: seq<State>) {
    forall i | 0 < i < |run| && run[i] == EndFlush(run[i - 1]) :: !run[i - 1].storing
  }

  /** Every store is followed by its notification at once. */
  ghost predicate QueuesAtomically(run: seq<State>) {
    forall i | 0 < i < |run| && run[i - 1].storing :: run[i] == Notify(run[i - 1])
  }

  lemma AtomicQueuesFlushOutside(run: seq<State>)
    requires QueuesAtomically(run)
    ensures FlushesOutside(run)
  {
    forall i | 0 < i < |run| && run[i] == EndFlush(run[i - 1])
      ensures !run[i - 1].storing
    {
      assert run[i - 1].storing ==> run[i] == Notify(run[i - 1]);
    }
  }

  lemma {:induction false} NeverRaced(run: seq<State>)
    requires IsRun(run) && FlushesOutside(run)
    ensures !run[|run| - 1].raced
  {
    if |run| > 1 {
      var last := |run| - 1;
      NeverRaced(run[..last]);
      assert Next(run[last - 1], run[last]);
    }
  }

  /** If every flush ends outside the reader's critical section, every answer is fresh. */
  lemma AnswerIsFresh(run: seq<State>, i: nat)
    requires IsRun(run) && FlushesOutside(run)
    requires 0 < i < |run| && run[i - 1].worker == Notified && run[i].worker.Got?
    ensures Fresh(run[i], run[i].worker.slot)
  {
    NeverRaced(run[..i]);
    AnswerFreshExactly(run, i);
    assert Next(run[i - 1], run[i]);
  }

  /** And that is needed: from every state in which a flush ends inside the reader's critical
      section, four more steps lead to an answer that is not fresh. */
  lemma RaceLosesAnswer(s: State) returns (run: seq<State>)
    requires Inv(s) && s.worker == Polling && s.pipe == 0 && s.storing
    ensures |run| == 5 && run[0] == s && Steps(run)
    ensures run[4].worker == Got(s.slot) && !Fresh(run[4], s.slot)
  {
    var waiting := EndFlush(s);
    var announced := Notify(waiting);
    var notified := announced.(worker := Notified, pipe := 0);
    run := [s, waiting, announced, notified, notified.(worker := Got(s.slot), slot := Empty)];
  }

  /** A second packet can be stored between the last two actions of the flush loop. */
  lemma StoredWhileClearing() returns (run: seq<State>)
    ensures IsRun(run) && run[|run| - 1] == State(Polling, true, 0, Empty, 2, 0, false, {0})
  {
    var s1 := Store(START);
    var s2 := Notify(s1);
    var s3 := s2.(worker := Polling);
    var s4 := s3.(worker := Freeing, pipe := 0);
    var s5 := s4.(worker := Clearing, freed := {0});
    var s6 := Store(s5);
    run := [START, s1, s2, s3, s4, s5, s6, s6.(worker := Polling, slot := Empty)];
  }

  lemma Continued(run: seq<State>, rest: seq<State>)
    requires IsRun(run) && rest != [] && rest[0] == run[|run| - 1] && Steps(rest)
    ensures IsRun(run + rest[1..])
  {
    var all, n := run + rest[1..], |run|;
    forall i | 0 < i < |all|
      ensures Next(all[i - 1], all[i])
    {
      if i >= n {
        assert all[i] == rest[i - n + 1] && all[i - 1] == rest[i - n];
      }
    }
  }

  /** An interleaving in which the worker finds the slot empty: that second packet is lost,
      and announced only after the flush. */
  lemma EmptyAnswer() returns (run: seq<State>)
    ensures IsRun(run) && run[|run| - 1].worker == Got(Empty)
  {
    run := StoredWhileClearing();
    var rest := RaceLosesAnswer(run[|run| - 1]);
    Continued(run, rest);
    run := run + rest[1..];
  }

  /** An interleaving in which the answer is older than the request: the flush ends between
      the store and the notification. */
  lemma StaleAnswer() returns (run: seq<State>)
    ensures IsRun(run) && run[|run| - 1].worker == Got(Holds(0)) && run[|run| - 1].flushedAt == 1
  {
    var s1 := Store(START);
    var s2 := s1.(worker := Polling);
    var s3 := EndFlush(s2);
    var s4 := Notify(s3);
    var s5 := s4.(worker := Notified, pipe := 0);
    run := [START, s1, s2, s3, s4, s5, s5.(worker := Got(Holds(0)), slot := Empty)];
  }

  /** In every interleaving, no packet is freed twice. */
  lemma NoDoubleFree(run: seq<State>, i: nat)
    requires IsRun(run) && 0 < i < |run|
    requires run[i - 1].worker == Freeing || run[i - 1].worker.Got?
    requires WorkerStep(run[i - 1], run[i])
    ensures var s := run[i - 1];
      PacketsOf(if s.worker == Freeing then s.slot else s.worker.slot) !! s.freed
  {
    RunKeepsInv(run[..i]);
  }
}
