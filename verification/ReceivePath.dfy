/** Received signals from the USB packets of the device to the durations that the LIRC driver
    writes. */
module ReceivePath {
  import opened Bytes
  import opened LabelRoundTrip
  import opened Lirc
  import opened ReceiveSplit

  /** A USB packet of received data: no control header, some data, and the fill level. */
  predicate IsSignal(p: Packet) {
    2 <= |p| <= 8 && !(|p| >= 4 && p[..3] == [0, 0, 0xDC])
  }

  /** A packet without its last byte, the fill level. */
  function Body(p: Packet): Packet {
    if p == [] then [] else p[..|p| - 1]
  }

  function Bodies(packets: seq<Packet>): (bodies: seq<Packet>)
    ensures |bodies| == |packets|
    ensures forall i | 0 <= i < |packets| :: bodies[i] == Body(packets[i])
  {
    seq(|packets|, i requires 0 <= i < |packets| => Body(packets[i]))
  }

  /** The reader, the decoder and the driver over any sequence of signal packets: every packet
      is one received packet for the receiving clients, and all durations are joined. */
  method ReceiveSignals(packets: seq<Packet>, version: nat, max: nat) returns (written: seq<nat>, receiver: Receiver)
    requires forall i | 0 <= i < |packets| :: IsSignal(packets[i])
    ensures receiver.Valid()
    ensures CodeRuns(written) + receiver.Pending() == Received(Bodies(packets))
  {
    var bodies: seq<Packet> := [];
    for n := 0 to |packets|
      invariant bodies == Bodies(packets)[..n]
    {
      SignalPacket(packets[n], packets[n + 1..], version, max);
      assert [packets[n]] + packets[n + 1..] == packets[n..];
      var packet, used := ReadPacket(packets[n..], version, max);
      assert packet.fromDev && used == 1;
      bodies := bodies + [packet.data];
    }
    assert bodies == Bodies(packets);
    written, receiver := ReceiveAll(bodies);
  }
}
