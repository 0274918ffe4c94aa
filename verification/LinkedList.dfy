/** The intrusive doubly linked list of software/usb_ir/list.c. */
module LinkedList {
  import Runs

  /** An item: the header fields that the list changes, and what the item stands for. */
  class Item<T> {
    var prev: Item?<T>
    var next: Item?<T>
    var list: List?<T>
    const data: T

    constructor (data: T)
      ensures this.data == data && prev == null && next == null && list == null
    {
      this.data := data;
      prev, next, list := null, null, null;
    }
  }

  /** The list header. items is the sequence that the pointers stand for, and repr holds
      every item that has been in the list. */
  class List<T> {
    var head: Item?<T>
    var tail: Item?<T>
    var count: nat
    ghost var items: seq<Item<T>>
    ghost var repr: set<Item<T>>

    ghost predicate Valid()
      reads this, repr
    {
      && count == |items|
      && (forall i | 0 <= i < |items| :: items[i] in repr)
      && (forall i, j | 0 <= i < j < |items| :: items[i] != items[j])
      && (forall i | 0 <= i < |items| :: items[i].list == this)
      && (forall i {:trigger items[i].prev} | 0 <= i < |items| ::
        items[i].prev == if i == 0 then null else items[i - 1])
      && (forall i {:trigger items[i].next} | 0 <= i < |items| ::
        items[i].next == if i == |items| - 1 then null else items[i + 1])
      && head == (if items == [] then null else items[0])
      && tail == (if items == [] then null else items[|items| - 1])
    }

    constructor ()
      ensures Valid() && items == [] && repr == {}
    {
      head, tail, count, items, repr := null, null, 0, [], {};
    }

    /** The pointer updates of insertItem. */
    method Link(pos: Item?<T>, item: Item<T>, ghost k: nat)
      requires Valid() && item !in items && k <= |items|
      requires pos == if k == |items| then null else items[k]
      modifies `head, `tail, `count, repr, item
      ensures count == old(count) + 1
      ensures head == (if k == 0 then item else old(head)) && tail == (if pos == null then item else old(tail))
      ensures item.next == pos && item.prev == (if k == 0 then null else items[k - 1])
      ensures item.list == this
      ensures forall i | 0 <= i < |items| :: items[i].list == this
      ensures forall i {:trigger items[i].next} | 0 <= i < |items| ::
        items[i].next == if i == k - 1 then item else old(items[i].next)
      ensures forall i {:trigger items[i].prev} | 0 <= i < |items| ::
        items[i].prev == if i == k then item else old(items[i].prev)
    {
      item.next := pos;
      item.prev := if pos == null then tail else pos.prev;
      if item.prev == null {
        head := item;
      } else {
        item.prev.next := item;
      }
      if pos == null {
        tail := item;
      } else {
        pos.prev := item;
      }
      count := count + 1;
      item.list := this;
    }

    /** insertItem: before the item at index k, or at the end when pos is null. */
    method Insert(pos: Item?<T>, item: Item<T>, ghost k: nat)
      requires Valid() && item !in items && k <= |items|
      requires pos == if k == |items| then null else items[k]
      modifies this, repr, item
      ensures Valid() && items == old(items)[..k] + [item] + old(items)[k..] && repr == old(repr) + {item}
    {
      Link(pos, item, k);
      ghost var was := items;
      items, repr := was[..k] + [item] + was[k..], repr + {item};
      assert forall i | 0 <= i < k :: items[i] == was[i];
      assert forall i | k < i < |items| :: items[i] == was[i - 1];
    }

    /** The pointer updates of removeObject, for the item at index k. */
    method Unlink(prev: Item?<T>, next: Item?<T>, ghost k: nat)
      requires Valid() && k < |items|
      requires prev == (if k == 0 then null else items[k - 1])
      requires next == (if k == |items| - 1 then null else items[k + 1])
      modifies `head, `tail, `count, repr
      ensures count == old(count) - 1
      ensures head == (if k == 0 then next else old(head)) && tail == (if next == null then prev else old(tail))
      ensures forall i | 0 <= i < |items| :: items[i].list == this
      ensures forall i {:trigger items[i].next} | 0 <= i < |items| ::
        items[i].next == if i == k - 1 then next else old(items[i].next)
      ensures forall i {:trigger items[i].prev} | 0 <= i < |items| ::
        items[i].prev == if i == k + 1 then prev else old(items[i].prev)
    {
      if prev == null {
        head := next;
      } else {
        prev.next := next;
      }
      if next == null {
        tail := prev;
      } else {
        next.prev := prev;
      }
      count := count - 1;
    }

    /** removeObject: the item at index k leaves the list; its own header is not touched. */
    method RemoveObject(prev: Item?<T>, next: Item?<T>, ghost k: nat)
      requires Valid() && k < |items|
      requires prev == (if k == 0 then null else items[k - 1])
      requires next == (if k == |items| - 1 then null else items[k + 1])
      modifies this, repr
      ensures Valid() && items == old(items)[..k] + old(items)[k + 1..] && repr == old(repr)
    {
      Unlink(prev, next, k);
      ghost var was := items;
      items := was[..k] + was[k + 1..];
      assert forall i | 0 <= i < k :: items[i] == was[i];
      assert forall i | k <= i < |items| :: items[i] == was[i + 1];
    }

    /** removeItem: also clears the header of the removed item. */
    method Remove(pos: Item<T>, ghost k: nat)
      requires Valid() && k < |items| && items[k] == pos
      modifies this, repr
      ensures Valid() && items == old(items)[..k] + old(items)[k + 1..] && repr == old(repr)
      ensures pos.list == null && pos.prev == null && pos.next == null
    {
      RemoveObject(pos.prev, pos.next, k);
      assert pos !in items;
      pos.list := null;
      pos.prev := null;
      pos.next := null;
    }

    /** The links of the first item of rest. */
    lemma LinksOf(kept: seq<Item<T>>, rest: seq<Item<T>>)
      requires Valid() && items == kept + rest && rest != []
      ensures var k := |kept|;
        && items[k] == rest[0] && rest[0].next == First(rest[1..])
        && Last(kept) == (if k == 0 then null else items[k - 1])
        && First(rest[1..]) == (if k == |items| - 1 then null else items[k + 1])
    {
      var k := |kept|;
      assert items[k] == rest[0];
      assert k + 1 < |items| ==> items[k + 1] == rest[1..][0];
    }

    /** One turn of forEach after the action: the first item of rest is kept or removed. */
    method Visit(prev: Item?<T>, pos: Item<T>, keep: bool, ghost kept: seq<Item<T>>, ghost rest: seq<Item<T>>)
      returns (prev': Item?<T>, next: Item?<T>)
      requires Valid() && items == kept + rest && rest != [] && pos == rest[0] && prev == Last(kept)
      modifies this, repr
      ensures Valid() && items == (if keep then kept + [pos] else kept) + rest[1..] && repr == old(repr)
      ensures prev' == Last(if keep then kept + [pos] else kept)
      ensures next == First(rest[1..])
    {
      LinksOf(kept, rest);
      next := pos.next;
      if keep {
        prev' := pos;
        assert kept + rest == kept + [pos] + rest[1..];
      } else {
        prev' := prev;
        RemoveBehind(prev, next, kept, rest);
      }
    }

    method RemoveBehind(prev: Item?<T>, next: Item?<T>, ghost kept: seq<Item<T>>, ghost rest: seq<Item<T>>)
      requires Valid() && items == kept + rest && rest != [] && prev == Last(kept) && next == First(rest[1..])
      modifies this, repr
      ensures Valid() && items == kept + rest[1..] && repr == old(repr)
    {
      LinksOf(kept, rest);
      WithoutFirst(kept, rest);
      RemoveObject(prev, next, |kept|);
    }

    /** forEach: visits every item once, in order, carrying the user data along, and leaves
        exactly the items whose action returned true. */
    method ForEach<S>(action: (S, Item<T>) -> (S, bool), start: S) returns (state: S)
      requires Valid()
      modifies this, repr
      ensures Valid() && repr == old(repr)
      ensures state == FoldState(action, start, old(items))
      ensures items == Kept(old(items), Verdicts(action, start, old(items)))
    {
      state := start;
      var prev: Item?<T>, pos: Item?<T> := null, head;
      ghost var kept, rest := [], items;
      ghost var left := Kept(items, Verdicts(action, start, items));
      while pos != null
        invariant Valid() && repr == old(repr) && items == kept + rest
        invariant pos == First(rest) && prev == Last(kept)
        invariant FoldState(action, start, old(items)) == FoldState(action, state, rest)
        invariant left == kept + Kept(rest, Verdicts(action, state, rest))
        decreases |rest|
      {
        var (after, keep) := action(state, pos);
        KeptStep(kept, rest, action, state);
        prev, pos := Visit(prev, pos, keep, kept, rest);
        kept := if keep then kept + [rest[0]] else kept;
        rest, state := rest[1..], after;
      }
    }
  }

  ghost function First<T>(s: seq<Item<T>>): Item?<T> {
    if s == [] then null else s[0]
  }

  ghost function Last<T>(s: seq<Item<T>>): Item?<T> {
    if s == [] then null else s[|s| - 1]
  }

  /** The user data after the action has seen all items. */
  function FoldState<S, A>(action: (S, A) -> (S, bool), start: S, s: seq<A>): S {
    if s == [] then start else FoldState(action, action(start, s[0]).0, s[1..])
  }

  /** What the action returned for each item. */
  function Verdicts<S, A>(action: (S, A) -> (S, bool), start: S, s: seq<A>): (vs: seq<bool>)
    ensures |vs| == |s|
  {
    if s == [] then [] else [action(start, s[0]).1] + Verdicts(action, action(start, s[0]).0, s[1..])
  }

  /** The elements with verdict true, in order. */
  function Kept<A>(s: seq<A>, verdicts: seq<bool>): seq<A>
    requires |s| == |verdicts|
  {
    if s == [] then [] else (if verdicts[0] then [s[0]] else []) + Kept(s[1..], verdicts[1..])
  }

  lemma WithoutFirst<A>(kept: seq<A>, rest: seq<A>)
    requires rest != []
    ensures (kept + rest)[..|kept|] == kept && (kept + rest)[|kept| + 1..] == rest[1..]
  {
  }

  lemma KeptStep<S, A>(kept: seq<A>, rest: seq<A>, action: (S, A) -> (S, bool), state: S)
    requires rest != []
    ensures var (after, keep) := action(state, rest[0]);
      kept + Kept(rest, Verdicts(action, state, rest))
        == (if keep then kept + [rest[0]] else kept) + Kept(rest[1..], Verdicts(action, after, rest[1..]))
  {
    var (after, keep) := action(state, rest[0]);
    var later := Kept(rest[1..], Verdicts(action, after, rest[1..]));
    assert Verdicts(action, state, rest)[1..] == Verdicts(action, after, rest[1..]);
    Runs.Assoc(kept, [rest[0]], later);
    assert [] + later == later;
  }
}
