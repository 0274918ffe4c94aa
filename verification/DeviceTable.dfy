/** The device list of software/usb_ir/drivers/libusb.c as a sequence, and what every run
    of scans, claims and releases keeps about it. */
module DeviceTable {
  /** A device: where it is plugged in, its id, and whether its release has begun. */
  datatype Entry = Entry(bus: int, port: int, id: nat, removed: bool)

  predicate Less(a: Entry, bus: int, port: int) {
    a.bus < bus || (a.bus == bus && a.port < port)
  }

  ghost predicate Sorted(s: seq<Entry>) {
    forall i, j | 0 <= i < j < |s| :: Less(s[i], s[j].bus, s[j].port)
  }

  /** No two devices that are not being removed share an id. */
  ghost predicate DistinctIds(s: seq<Entry>) {
    forall i, j | 0 <= i < j < |s| && !s[i].removed && !s[j].removed :: s[i].id != s[j].id
  }

  ghost predicate Inv(s: seq<Entry>) {
    Sorted(s) && DistinctIds(s)
  }

  /** The position search of updateDeviceList: the first entry that is not smaller. */
  ghost predicate IsPosition(s: seq<Entry>, bus: int, port: int, k: nat) {
    && k <= |s|
    && (forall i | 0 <= i < k :: Less(s[i], bus, port))
    && (k < |s| ==> !Less(s[k], bus, port))
  }

  predicate Occupied(s: seq<Entry>, bus: int, port: int, k: nat)
    requires k <= |s|
  {
    k < |s| && s[k].bus == bus && s[k].port == port
  }

  ghost predicate Uses(s: seq<Entry>, id: nat) {
    exists i | 0 <= i < |s| :: !s[i].removed && s[i].id == id
  }

  ghost predicate SmallestFree(s: seq<Entry>, id: nat) {
    !Uses(s, id) && forall smaller: nat | smaller < id :: Uses(s, smaller)
  }

  function Inserted(s: seq<Entry>, k: nat, e: Entry): seq<Entry>
    requires k <= |s|
  {
    s[..k] + [e] + s[k..]
  }

  /** A scan meets a device at a location: an unknown one is claimed, if that succeeds, and
      gets the smallest free id. */
  ghost predicate Met(s: seq<Entry>, s': seq<Entry>, bus: int, port: int, k: nat, id: nat, success: bool) {
    && IsPosition(s, bus, port, k)
    && if Occupied(s, bus, port, k) || !success then s' == s
       else SmallestFree(s, id) && s' == Inserted(s, k, Entry(bus, port, id, false))
  }

  /** releaseDevice first sets the flag, and takes the device off the list later. */
  ghost predicate Marked(s: seq<Entry>, s': seq<Entry>, k: nat) {
    k < |s| && !s[k].removed && s' == s[k := s[k].(removed := true)]
  }

  ghost predicate Unlinked(s: seq<Entry>, s': seq<Entry>, k: nat) {
    k < |s| && s[k].removed && s' == s[..k] + s[k + 1..]
  }

  datatype Step = Meet(bus: int, port: int, k: nat, id: nat, success: bool) | Mark(k: nat) | Unlink(k: nat)

  ghost predicate Next(s: seq<Entry>, s': seq<Entry>, step: Step) {
    match step
    case Meet(bus, port, k, id, success) => Met(s, s', bus, port, k, id, success)
    case Mark(k) => Marked(s, s', k)
    case Unlink(k) => Unlinked(s, s', k)
  }

  lemma InsertKeepsSorted(s: seq<Entry>, k: nat, e: Entry)
    requires Sorted(s) && IsPosition(s, e.bus, e.port, k) && !Occupied(s, e.bus, e.port, k)
    ensures Sorted(Inserted(s, k, e))
  {
    var r := Inserted(s, k, e);
    forall i, j | 0 <= i < j < |r|
      ensures Less(r[i], r[j].bus, r[j].port)
    {
      if i == k {
        assert r[j] == s[j - 1];
        assert j - 1 > k ==> Less(s[k], s[j - 1].bus, s[j - 1].port);
      } else if i < k {
        assert r[i] == s[i];
        assert j > k ==> r[j] == s[j - 1];
      } else {
        assert r[i] == s[i - 1] && r[j] == s[j - 1];
      }
    }
  }

  lemma InsertKeepsIds(s: seq<Entry>, k: nat, e: Entry)
    requires DistinctIds(s) && k <= |s| && !Uses(s, e.id)
    ensures DistinctIds(Inserted(s, k, e))
  {
    var r := Inserted(s, k, e);
    forall i, j | 0 <= i < j < |r| && !r[i].removed && !r[j].removed
      ensures r[i].id != r[j].id
    {
      assert i != k ==> r[i] == s[if i < k then i else i - 1];
      assert j != k ==> r[j] == s[if j < k then j else j - 1];
    }
  }

  lemma StepKeepsInv(s: seq<Entry>, s': seq<Entry>, step: Step)
    requires Inv(s) && Next(s, s', step)
    ensures Inv(s')
  {
    if step.Meet? && s' != s {
      var e := Entry(step.bus, step.port, step.id, false);
      InsertKeepsSorted(s, step.k, e);
      InsertKeepsIds(s, step.k, e);
    }
  }

  ghost predicate IsRun(run: seq<seq<Entry>>, steps: seq<Step>) {
    && |run| == |steps| + 1 && run[0] == []
    && forall i | 0 <= i < |steps| :: Next(run[i], run[i + 1], steps[i])
  }

  /** Every run of scans, claims and releases keeps the list strictly sorted by bus and
      port, so that no location appears twice, and the ids in use pairwise distinct. */
  lemma {:induction false} RunKeepsInv(run: seq<seq<Entry>>, steps: seq<Step>)
    requires IsRun(run, steps)
    ensures Inv(run[|steps|]) && Ordered(run[|steps|])
  {
    if steps != [] {
      var n := |steps| - 1;
      RunKeepsInv(run[..n + 1], steps[..n]);
      StepKeepsInv(run[n], run[n + 1], steps[n]);
    }
    SortedIsOrdered(run[|steps|]);
  }

  /** The order, without Less: ascending buses, and ascending ports on a bus. */
  ghost predicate Ordered(s: seq<Entry>) {
    forall i, j | 0 <= i < j < |s| :: s[i].bus < s[j].bus || (s[i].bus == s[j].bus && s[i].port < s[j].port)
  }

  lemma SortedIsOrdered(s: seq<Entry>)
    ensures Sorted(s) <==> Ordered(s)
  {
    if Sorted(s) {
      forall i, j | 0 <= i < j < |s|
        ensures s[i].bus < s[j].bus || (s[i].bus == s[j].bus && s[i].port < s[j].port)
      {
        assert Less(s[i], s[j].bus, s[j].port);
      }
    }
  }
}
