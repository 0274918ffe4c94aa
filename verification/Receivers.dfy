/** Receiver counting in software/usb_ir/client-interface.c: which clients receive, how many
    the daemon counts, and whether the device receiver is on. */
module Receivers {
  import opened Bytes

  type Client = nat

  datatype State = State(clients: set<Client>, receiving: set<Client>, count: nat, deviceOn: bool)

  const START := State({}, {}, 0, false)

  /** What happens to a device's clients; ok is the outcome of the device transaction, if
      one takes place. Dropped is a client that forEach removes because its packet code
      cannot be translated. */
  datatype Event =
    | Connected(client: Client)
    | TurnOn(client: Client, ok: bool)
    | TurnOff(client: Client, ok: bool)
    | Released(client: Client, ok: bool)
    | Dropped(client: Client)

  function Step(s: State, e: Event): State {
    match e
    case Connected(c) => s.(clients := s.clients + {c})
    case TurnOn(c, ok) =>
      if s.count == 0 && !ok then s
      else s.(count := (s.count + 1) % UINT32, receiving := s.receiving + {c}, deviceOn := s.deviceOn || s.count == 0)
    case TurnOff(c, ok) =>
      var count := if s.count > 0 then s.count - 1 else 0;
      s.(receiving := s.receiving - {c}, count := count, deviceOn := s.deviceOn && (count > 0 || !ok))
    case Released(c, ok) =>
      var count := if c in s.receiving then (s.count + UINT32 - 1) % UINT32 else s.count;
      s.(clients := s.clients - {c}, receiving := s.receiving - {c}, count := count,
         deviceOn := s.deviceOn && (c !in s.receiving || count > 0 || !ok))
    case Dropped(c) => s.(clients := s.clients - {c}, receiving := s.receiving - {c})
  }

  /** The daemon's objects: the device's counter and the receiving flag of each client. */
  class Daemon {
    var clients: set<Client>
    var receiving: set<Client>
    var receiverCount: nat
    var deviceOn: bool

    ghost function View(): State
      reads this
    {
      State(clients, receiving, receiverCount, deviceOn)
    }

    constructor ()
      ensures View() == START
    {
      clients, receiving, receiverCount, deviceOn := {}, {}, 0, false;
    }

    /** clientConnected. */
    method Connect(client: Client)
      modifies this
      ensures View() == Step(old(View()), Connected(client))
    {
      clients := clients + {client};
    }

    /** The RECVON and RAWRECVON cases of handleClientRequest. */
    method TurnReceiverOn(client: Client, ok: bool) returns (handled: bool)
      modifies this
      ensures View() == Step(old(View()), TurnOn(client, ok))
      ensures handled == (old(receiverCount) > 0 || ok)
    {
      handled := receiverCount > 0;
      if !handled && ok {
        deviceOn := true;
        handled := true;
      }
      if handled {
        receiverCount := (receiverCount + 1) % UINT32;
        receiving := receiving + {client};
      }
    }

    /** The RECVOFF case of handleClientRequest. */
    method TurnReceiverOff(client: Client, ok: bool) returns (handled: bool)
      modifies this
      ensures View() == Step(old(View()), TurnOff(client, ok))
      ensures handled == (old(receiverCount) > 1 || ok)
    {
      receiving := receiving - {client};
      handled := false;
      if receiverCount > 0 {
        receiverCount := receiverCount - 1;
        handled := receiverCount > 0;
      }
      if !handled && ok {
        deviceOn := false;
        handled := true;
      }
    }

    /** releaseClient. */
    method Release(client: Client, ok: bool)
      modifies this
      ensures View() == Step(old(View()), Released(client, ok))
    {
      if client in receiving {
        receiverCount := (receiverCount + UINT32 - 1) % UINT32;
        if receiverCount == 0 && ok {
          deviceOn := false;
        }
      }
      clients, receiving := clients - {client}, receiving - {client};
    }

    /** A tellReceivers callback that returns false. */
    method Drop(client: Client)
      modifies this
      ensures View() == Step(old(View()), Dropped(client))
    {
      clients, receiving := clients - {client}, receiving - {client};
    }
  }

  /** The count is the number of receiving clients. */
  ghost predicate Counted(s: State) {
    s.receiving <= s.clients && |s.clients| < UINT32 && s.count == |s.receiving|
  }

  /** The device receiver is on exactly when somebody receives. */
  predicate InStep(s: State) {
    s.deviceOn <==> s.count > 0
  }

  /** A connected client asks for what it does not have yet, or gives up what it has. */
  predicate Proper(s: State, e: Event) {
    match e
    case Connected(c) => |s.clients + {c}| < UINT32
    case TurnOn(c, _) => c in s.clients && c !in s.receiving
    case TurnOff(c, _) => c in s.clients && (c in s.receiving || s.receiving == {})
    case Released(c, _) => c in s.clients
    case Dropped(c) => c in s.clients && c !in s.receiving
  }

  /** Events of connected clients within the number of clients that can be counted. */
  predicate Possible(s: State, e: Event) {
    if e.Connected? then |s.clients + {e.client}| < UINT32 else e.client in s.clients
  }

  /** One event keeps the count right exactly when it is proper. */
  lemma CountedExactly(s: State, e: Event)
    requires Counted(s) && Possible(s, e)
    ensures Counted(Step(s, e)) <==> Proper(s, e)
  {
    var s' := Step(s, e);
    SubsetSize(s.receiving, s.clients);
    if e.Connected? {
    } else if e.client in s.receiving {
      var without := s.receiving - {e.client};
      assert |without| == |s.receiving| - 1;
      assert e.TurnOn? ==> s.receiving + {e.client} == s.receiving;
      SubsetSize(s.clients - {e.client}, s.clients);
    } else {
      assert s.receiving - {e.client} == s.receiving;
      assert |s.receiving + {e.client}| == |s.receiving| + 1;
      SubsetSize(s.receiving + {e.client}, s.clients);
      SubsetSize(s.clients - {e.client}, s.clients);
    }
  }

  lemma {:induction false} SubsetSize<A>(a: set<A>, b: set<A>)
    requires a <= b
    ensures |a| <= |b|
    decreases |b|
  {
    if a != {} {
      var x :| x in a;
      SubsetSize(a - {x}, b - {x});
    }
  }

  /** A failed transaction leaves the device as it is; a first receiver-on that fails changes
      nothing at all, and a later one needs no transaction. */
  lemma FailedTransaction(s: State, c: Client)
    ensures Step(s, TurnOn(c, false)).deviceOn == s.deviceOn
    ensures Step(s, TurnOff(c, false)).deviceOn == s.deviceOn
    ensures Step(s, Released(c, false)).deviceOn == s.deviceOn
    ensures s.count == 0 ==> Step(s, TurnOn(c, false)) == s
    ensures s.count > 0 ==> Step(s, TurnOn(c, false)) == Step(s, TurnOn(c, true))
    ensures c in Step(s, TurnOn(c, true)).receiving && Step(s, TurnOn(c, true)).clients == s.clients
    ensures c !in Step(s, TurnOff(c, false)).receiving && Step(s, TurnOff(c, false)).clients == s.clients
  {
  }

  /** The states of a run, one after each event. */
  function Run(events: seq<Event>): State {
    if events == [] then START else Step(Run(events[..|events| - 1]), events[|events| - 1])
  }

  ghost predicate AllProper(events: seq<Event>) {
    forall i | 0 <= i < |events| :: Proper(Run(events[..i]), events[i])
  }

  ghost predicate AllOk(events: seq<Event>) {
    forall e | e in events :: (e.TurnOn? || e.TurnOff? || e.Released?) ==> e.ok
  }

  /** In every run of proper events the count is the number of receiving clients, so that it
      never wraps; and if the transactions succeed, the device receiver is on exactly when
      the count is positive. */
  lemma {:induction false} RunCounts(events: seq<Event>)
    requires AllProper(events)
    ensures Counted(Run(events))
    ensures AllOk(events) ==> InStep(Run(events))
  {
    if events != [] {
      var init, e := events[..|events| - 1], events[|events| - 1];
      assert forall i | 0 <= i < |init| :: init[..i] == events[..i];
      RunCounts(init);
      assert Proper(Run(events[..|events| - 1]), e);
      CountedExactly(Run(init), e);
      if AllOk(events) {
        assert AllOk(init);
        DeviceFollows(Run(init), e);
      }
    }
  }

  lemma DeviceFollows(s: State, e: Event)
    requires Counted(s) && InStep(s) && Proper(s, e)
    requires e.TurnOn? || e.TurnOff? || e.Released? ==> e.ok
    ensures InStep(Step(s, e))
  {
    SubsetSize(s.receiving, s.clients);
    if !e.Connected? && e.client in s.receiving {
      assert |s.receiving| > 0;
    } else if e.TurnOn? {
      SubsetSize(s.receiving + {e.client}, s.clients);
    }
  }

  /** One client that turns off a receiver it never turned on silences another client, and
      the counter wraps when that client leaves. */
  lemma ImproperOffWraps()
    ensures var s := Run([Connected(1), Connected(2), TurnOn(1, true), TurnOff(2, true)]);
      && 1 in s.receiving && !s.deviceOn
      && Step(s, Released(1, true)).count == UINT32 - 1
  {
    var e1, e2, e3, e4 := Connected(1), Connected(2), TurnOn(1, true), TurnOff(2, true);
    RunSnoc([], e1);
    assert Run([e1]) == State({1}, {}, 0, false) by { assert [] + [e1] == [e1]; }
    RunSnoc([e1], e2);
    assert Run([e1, e2]) == State({1, 2}, {}, 0, false) by { assert [e1] + [e2] == [e1, e2]; }
    RunSnoc([e1, e2], e3);
    assert Run([e1, e2, e3]) == State({1, 2}, {1}, 1, true) by { assert [e1, e2] + [e3] == [e1, e2, e3]; }
    RunSnoc([e1, e2, e3], e4);
    assert Run([e1, e2, e3, e4]) == State({1, 2}, {1}, 0, false) by { assert [e1, e2, e3] + [e4] == [e1, e2, e3, e4]; }
  }

  lemma RunSnoc(events: seq<Event>, e: Event)
    ensures Run(events + [e]) == Step(Run(events), e)
  {
    assert (events + [e])[..|events|] == events;
  }
}
