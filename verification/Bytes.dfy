/** The unsigned machine integers of the C sources, as bounded integers, and packets of
    bytes. */
module Bytes {
  type Byte = b: int | 0 <= b < 256

  const UINT32 := 0x1_0000_0000

  /** The tag of a pulse in a signal, and the largest duration below it. */
  const PULSE_BIT := 0x1000000
  const PULSE_MASK := 0xFFFFFF

  type Packet = seq<Byte>

  function Concat(packets: seq<Packet>): seq<Byte> {
    if packets == [] then [] else Concat(packets[..|packets| - 1]) + packets[|packets| - 1]
  }

  /** The first packet comes first. */
  lemma {:induction false} ConcatFirst(p: Packet, packets: seq<Packet>)
    ensures Concat([]) == [] && Concat([p] + packets) == p + Concat(packets)
    decreases |packets|
  {
    if packets == [] {
      assert [p] + packets == [p] && [p][..0] == [];
    } else {
      var init, last := packets[..|packets| - 1], packets[|packets| - 1];
      ConcatFirst(p, init);
      ConcatLast([p] + init, last);
      assert [p] + packets == [p] + init + [last];
      assert p + (Concat(init) + last) == p + Concat(init) + last;
    }
  }

  lemma ConcatLast(packets: seq<Packet>, last: Packet)
    ensures Concat(packets + [last]) == Concat(packets) + last
  {
    assert (packets + [last])[..|packets|] == packets;
  }
}
