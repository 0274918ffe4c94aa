/** The device list operations of software/usb_ir/drivers/libusb.c on the linked list. */
module DeviceList {
  import opened LinkedList
  import opened DeviceTable

  datatype Device = Device(bus: int, port: int, id: nat)

  /** The entries that a list of items stands for, given which flags are set. */
  ghost function Entries(items: seq<Item<Device>>, removed: set<Item<Device>>): (s: seq<Entry>)
    ensures |s| == |items|
    ensures forall i | 0 <= i < |s| ::
      s[i] == Entry(items[i].data.bus, items[i].data.port, items[i].data.id, items[i] in removed)
  {
    seq(|items|, i requires 0 <= i < |items| =>
      Entry(items[i].data.bus, items[i].data.port, items[i].data.id, items[i] in removed))
  }

  /** findId: increments the candidate when it meets a device that uses it. */
  function FindId(id: nat, item: Item<Device>, removed: set<Item<Device>>): (nat, bool) {
    (if item !in removed && item.data.id == id then id + 1 else id, true)
  }

  /** One pass of forEach with findId. */
  function Pass(removed: set<Item<Device>>, id: nat, items: seq<Item<Device>>): nat {
    FoldState((n: nat, item) => FindId(n, item, removed), id, items)
  }

  /** The number of devices in use with an id of at least id. */
  function AtLeast(items: seq<Item<Device>>, removed: set<Item<Device>>, id: nat): nat {
    if items == [] then 0
    else (if items[0] !in removed && items[0].data.id >= id then 1 else 0) + AtLeast(items[1..], removed, id)
  }

  ghost predicate InUse(items: seq<Item<Device>>, removed: set<Item<Device>>, id: nat) {
    exists i | 0 <= i < |items| :: items[i] !in removed && items[i].data.id == id
  }

  /** A pass only goes up, over ids that are in use; it stays where it is only when the
      candidate is free. */
  lemma {:induction false} PassClimbs(removed: set<Item<Device>>, id: nat, items: seq<Item<Device>>)
    ensures Pass(removed, id, items) >= id
    ensures forall n: nat | id <= n < Pass(removed, id, items) :: InUse(items, removed, n)
    ensures Pass(removed, id, items) == id ==> !InUse(items, removed, id)
    decreases |items|
  {
    if items != [] {
      var next := FindId(id, items[0], removed).0;
      PassClimbs(removed, next, items[1..]);
      assert Pass(removed, id, items) == Pass(removed, next, items[1..]);
      InUseCons(items, removed);
    }
  }

  lemma InUseCons(items: seq<Item<Device>>, removed: set<Item<Device>>)
    requires items != []
    ensures forall id: nat :: InUse(items, removed, id) <==>
      (items[0] !in removed && items[0].data.id == id) || InUse(items[1..], removed, id)
  {
    forall id: nat
      ensures InUse(items, removed, id) <==>
        (items[0] !in removed && items[0].data.id == id) || InUse(items[1..], removed, id)
    {
      if InUse(items[1..], removed, id) {
        var i :| 0 <= i < |items[1..]| && items[1..][i] !in removed && items[1..][i].data.id == id;
        assert items[i + 1] == items[1..][i];
      }
      if InUse(items, removed, id) {
        var i :| 0 <= i < |items| && items[i] !in removed && items[i].data.id == id;
        assert i > 0 ==> items[1..][i - 1] == items[i];
      }
    }
  }

  /** A higher candidate leaves fewer devices at or above it. */
  lemma {:induction false} AtLeastShrinks(items: seq<Item<Device>>, removed: set<Item<Device>>, low: nat, high: nat)
    requires low <= high
    ensures AtLeast(items, removed, high) <= AtLeast(items, removed, low)
    ensures low < high && InUse(items, removed, low) ==> AtLeast(items, removed, high) < AtLeast(items, removed, low)
    decreases |items|
  {
    if items != [] {
      AtLeastShrinks(items[1..], removed, low, high);
      InUseCons(items, removed);
    }
  }

  /** findId never asks for a removal. */
  lemma {:induction false} FindIdKeepsAll(removed: set<Item<Device>>, id: nat, items: seq<Item<Device>>)
    ensures Kept(items, Verdicts((n: nat, item) => FindId(n, item, removed), id, items)) == items
    decreases |items|
  {
    if items != [] {
      FindIdKeepsAll(removed, FindId(id, items[0], removed).0, items[1..]);
    }
  }

  class DeviceList {
    const list: List<Device>
    var removed: set<Item<Device>> // the devices whose removed flag is set

    ghost predicate Valid()
      reads this, list, list.repr
    {
      list.Valid()
    }

    /** The state of the list as a table. */
    ghost function Table(): seq<Entry>
      reads this, list
    {
      Entries(list.items, removed)
    }

    constructor ()
      ensures Valid() && Table() == [] && fresh(list)
    {
      list := new List<Device>();
      removed := {};
    }

    /** The id loop of claimDevice: passes of findId over the whole list until one leaves the
        candidate alone. It ends with the smallest id that no device in use has. */
    method FreeId() returns (id: nat)
      requires Valid()
      modifies list, list.repr
      ensures Valid() && list.items == old(list.items) && list.repr == old(list.repr)
      ensures SmallestFree(Table(), id)
    {
      ghost var items := list.items;
      id := 0;
      var flags := removed;
      while true
        invariant Valid() && list.items == items && list.repr == old(list.repr)
        invariant forall n: nat | n < id :: InUse(items, flags, n)
        decreases AtLeast(items, flags, id)
      {
        var prev := id;
        PassClimbs(flags, prev, items);
        FindIdKeepsAll(flags, prev, items);
        id := list.ForEach((n: nat, item) => FindId(n, item, flags), prev);
        assert id == Pass(flags, prev, items);
        if prev == id {
          break;
        }
        AtLeastShrinks(items, flags, prev, id);
      }
      UsesIsInUse(items, flags, id);
    }

    /** The position search of updateDeviceList, along the next pointers. */
    method FindPosition(bus: int, port: int) returns (pos: Item?<Device>, ghost k: nat)
      requires Valid()
      ensures IsPosition(Table(), bus, port, k)
      ensures forall i | 0 <= i < |Table()| && (i < k || i == k) ::
        var e := Table()[i]; (e.bus < bus || (e.bus == bus && e.port < port)) == (i < k)
      ensures pos == if k == |list.items| then null else list.items[k]
    {
      pos := list.head;
      k := 0;
      while pos != null && (pos.data.bus < bus || (pos.data.bus == bus && pos.data.port < port))
        invariant 0 <= k <= |list.items|
        invariant pos == if k == |list.items| then null else list.items[k]
        invariant forall i | 0 <= i < k :: Less(Table()[i], bus, port)
        decreases |list.items| - k
      {
        pos := pos.next;
        k := k + 1;
      }
    }

    /** claimDevice, when the interface can be claimed: the smallest free id, and insertion
        before pos. */
    method Claim(bus: int, port: int, pos: Item?<Device>, ghost k: nat) returns (id: nat)
      requires Valid() && k <= |list.items| && pos == if k == |list.items| then null else list.items[k]
      modifies list, list.repr
      ensures Valid() && fresh(list.repr - old(list.repr))
      ensures SmallestFree(old(Table()), id)
      ensures Table() == Inserted(old(Table()), k, Entry(bus, port, id, false))
    {
      ghost var items := list.items;
      id := FreeId();
      var device := new Item<Device>(Device(bus, port, id));
      InsertedEntries(items, removed, k, device);
      list.Insert(pos, device, k);
    }

    /** One device met by updateDeviceList; success says whether it can be claimed. */
    method Meet(bus: int, port: int, success: bool) returns (added: bool, ghost k: nat, ghost id: nat)
      requires Valid()
      modifies list, list.repr
      ensures Valid() && fresh(list.repr - old(list.repr))
      ensures Met(old(Table()), Table(), bus, port, k, id, success)
      ensures added == (Table() != old(Table()))
    {
      var pos;
      pos, k := FindPosition(bus, port);
      id := 0;
      added := false;
      if pos == null || pos.data.bus != bus || pos.data.port != port {
        if success {
          id := Claim(bus, port, pos, k);
          added := true;
          assert |Table()| == |old(Table())| + 1;
        }
      }
    }

    /** The first action of releaseDevice: the flag. */
    method MarkRemoved(item: Item<Device>, ghost k: nat)
      requires Valid() && k < |list.items| && list.items[k] == item && item !in removed
      modifies this
      ensures Valid() && Marked(old(Table()), Table(), k)
    {
      removed := removed + {item};
      assert Table() == old(Table())[k := old(Table())[k].(removed := true)];
    }

    /** The last action of releaseDevice: off the list. */
    method Unlink(item: Item<Device>, ghost k: nat)
      requires Valid() && k < |list.items| && list.items[k] == item && item in removed
      modifies list, list.repr
      ensures Valid() && Unlinked(old(Table()), Table(), k) && list.repr == old(list.repr)
    {
      list.Remove(item, k);
      assert Table() == old(Table())[..k] + old(Table())[k + 1..];
    }

    /** updateDeviceList: every matching device of the USB tree, in any order and with any
        outcome of the claims. Nothing leaves the list, and a device that can be claimed is on
        it afterwards, and not being removed, exactly when no device was being removed from
        its place. */
    method Scan(found: seq<(int, int, bool)>)
      requires Valid() && Inv(Table())
      modifies list, list.repr
      ensures Valid() && Inv(Table()) && Ordered(Table())
      ensures forall e | e in old(Table()) :: e in Table()
      ensures forall e | e in Table() && e.removed :: e in old(Table())
      ensures forall i | 0 <= i < |found| && found[i].2 ::
        At(Table(), found[i].0, found[i].1, false) <==> !At(old(Table()), found[i].0, found[i].1, true)
    {
      for n := 0 to |found|
        invariant Valid() && Inv(Table()) && fresh(list.repr - old(list.repr))
        invariant Scanned(old(Table()), Table(), found, n)
      {
        ghost var before := Table();
        var (bus, port, success) := found[n];
        ghost var k, id;
        var added;
        added, k, id := Meet(bus, port, success);
        StepKeepsInv(before, Table(), DeviceTable.Meet(bus, port, k, id, success));
        ScannedStep(old(Table()), before, Table(), found, n, k, id);
      }
      SortedIsOrdered(Table());
      forall i | 0 <= i < |found| && found[i].2
        ensures At(Table(), found[i].0, found[i].1, false) <==> !At(old(Table()), found[i].0, found[i].1, true)
      {
        ScannedExactly(old(Table()), Table(), found, i);
      }
    }
  }

  /** Some device at a place is, or is not, being removed. */
  ghost predicate At(s: seq<Entry>, bus: int, port: int, removed: bool) {
    exists e | e in s :: e.bus == bus && e.port == port && e.removed == removed
  }

  /** What a scan has done after meeting n devices. */
  ghost predicate Scanned(s: seq<Entry>, s': seq<Entry>, found: seq<(int, int, bool)>, n: nat)
    requires n <= |found|
  {
    && (forall e | e in s :: e in s')
    && (forall e | e in s' && e.removed :: e in s)
    && (forall i | 0 <= i < n && found[i].2 ::
      At(s', found[i].0, found[i].1, false) || At(s, found[i].0, found[i].1, true))
  }

  lemma ScannedStep(
    start: seq<Entry>, s: seq<Entry>, s': seq<Entry>, found: seq<(int, int, bool)>, n: nat, k: nat, id: nat)
    requires n < |found| && Scanned(start, s, found, n)
    requires Met(s, s', found[n].0, found[n].1, k, id, found[n].2)
    ensures Scanned(start, s', found, n + 1)
  {
    MetGrows(s, s', found[n].0, found[n].1, k, id, found[n].2);
    forall i | 0 <= i <= n && found[i].2
      ensures At(s', found[i].0, found[i].1, false) || At(start, found[i].0, found[i].1, true)
    {
      if i < n && At(s, found[i].0, found[i].1, false) {
        AtGrows(s, s', found[i].0, found[i].1);
      }
    }
  }

  lemma ScannedExactly(s: seq<Entry>, s': seq<Entry>, found: seq<(int, int, bool)>, i: nat)
    requires i < |found| && found[i].2 && Scanned(s, s', found, |found|) && Sorted(s')
    ensures At(s', found[i].0, found[i].1, false) <==> !At(s, found[i].0, found[i].1, true)
  {
    var (bus, port, _) := found[i];
    if At(s', bus, port, false) && At(s, bus, port, true) {
      OnePerPlace(s', bus, port);
    }
  }

  /** For example, a device that is plugged in again during its release is not claimed. */
  lemma ReplugIgnored(s: seq<Entry>, s': seq<Entry>, k: nat, id: nat)
    requires s == [Entry(1, 4, 0, true)] && Met(s, s', 1, 4, k, id, true)
    ensures s' == s && !At(s', 1, 4, false)
  {
    assert !Less(s[0], 1, 4) && k == 0;
  }

  /** A sorted list has one device at a place. */
  lemma OnePerPlace(s: seq<Entry>, bus: int, port: int)
    requires Sorted(s) && At(s, bus, port, false)
    ensures !At(s, bus, port, true)
  {
    var i :| 0 <= i < |s| && s[i].bus == bus && s[i].port == port && !s[i].removed;
    forall j | 0 <= j < |s| && s[j].bus == bus && s[j].port == port
      ensures !s[j].removed
    {
      assert i < j ==> Less(s[i], s[j].bus, s[j].port);
      assert j < i ==> Less(s[j], s[i].bus, s[i].port);
    }
  }

  lemma AtGrows(s: seq<Entry>, s': seq<Entry>, bus: int, port: int)
    requires (forall e | e in s :: e in s') && At(s, bus, port, false)
    ensures At(s', bus, port, false)
  {
  }

  lemma MetGrows(s: seq<Entry>, s': seq<Entry>, bus: int, port: int, k: nat, id: nat, success: bool)
    requires Met(s, s', bus, port, k, id, success)
    ensures forall e | e in s :: e in s'
    ensures forall e | e in s' && e.removed :: e in s
    ensures success ==> At(s', bus, port, false) || At(s, bus, port, true)
  {
    if s' == s {
      assert success ==> s[k] in s;
    } else {
      forall e | e in s
        ensures e in s'
      {
        var i :| 0 <= i < |s| && s[i] == e;
        assert s'[if i < k then i else i + 1] == e;
      }
      assert s'[k] in s';
    }
  }

  lemma InsertedEntries(items: seq<Item<Device>>, removed: set<Item<Device>>, k: nat, item: Item<Device>)
    requires k <= |items| && item !in removed
    ensures Entries(items[..k] + [item] + items[k..], removed) ==
      Inserted(Entries(items, removed), k, Entry(item.data.bus, item.data.port, item.data.id, false))
  {
  }

  /** The ids of the devices that are not being removed. */
  ghost function IdsInUse(s: seq<Entry>): set<nat> {
    set e | e in s && !e.removed :: e.id
  }

  /** The smallest free id is the smallest number that is not among them. */
  lemma SmallestFreeExactly(s: seq<Entry>, id: nat)
    ensures SmallestFree(s, id) <==> id !in IdsInUse(s) && forall n: nat | n < id :: n in IdsInUse(s)
  {
    forall n: nat
      ensures Uses(s, n) <==> n in IdsInUse(s)
    {
      if Uses(s, n) {
        var i :| 0 <= i < |s| && !s[i].removed && s[i].id == n;
        assert s[i] in s;
      }
    }
  }

  lemma UsesIsInUse(items: seq<Item<Device>>, removed: set<Item<Device>>, id: nat)
    requires !InUse(items, removed, id)
    requires forall n: nat | n < id :: InUse(items, removed, n)
    ensures SmallestFree(Entries(items, removed), id)
  {
    var s := Entries(items, removed);
    forall n: nat | n < id
      ensures Uses(s, n)
    {
      assert InUse(items, removed, n);
      var i :| 0 <= i < |items| && items[i] !in removed && items[i].data.id == n;
      assert !s[i].removed && s[i].id == n;
    }
  }
}
