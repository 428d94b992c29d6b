// The FreeRTOS list: a ring of items and one end marker, with an index that the
// scheduler moves along it to share time among tasks of equal priority.
module SchedulerList {
  import opened Arithmetic

  const MAX_DELAY := 0xFFFF_FFFF  // the greatest item value there is

  class ListItem {
    var xItemValue: Word32
    var pxNext: ListItem?
    var pxPrevious: ListItem?
    var pvOwner: int
    var pxContainer: List?

    constructor (value: Word32, owner: int)
      ensures xItemValue == value && pvOwner == owner && pxContainer == null
    {
      xItemValue := value;
      pvOwner := owner;
      pxNext := null;
      pxPrevious := null;
      pxContainer := null;
    }
  }

  // --- Rings ----------------------------------------------------------------------

  ghost predicate Distinct(ring: seq<ListItem>) {
    forall i, j :: 0 <= i < j < |ring| ==> ring[i] != ring[j]
  }

  // The places around place k of n.
  function After(k: nat, n: nat): (r: nat)
    requires k < n
    ensures r < n
  {
    if k + 1 < n then k + 1 else 0
  }

  function Before(k: nat, n: nat): (r: nat)
    requires k < n
    ensures r < n && After(r, n) == k
  {
    if k == 0 then n - 1 else k - 1
  }

  // The ring with a new item after place `at`, and with the item at place k taken out.
  ghost function Spliced(ring: seq<ListItem>, at: nat, item: ListItem): (r: seq<ListItem>)
    requires at < |ring|
    ensures |r| == |ring| + 1
    ensures forall i :: 0 <= i <= at ==> r[i] == ring[i]
    ensures r[at + 1] == item
    ensures forall i :: at + 1 < i < |r| ==> r[i] == ring[i - 1]
  {
    ring[..at + 1] + [item] + ring[at + 1..]
  }

  ghost function Without(ring: seq<ListItem>, k: nat): (r: seq<ListItem>)
    requires k < |ring|
    ensures |r| == |ring| - 1
    ensures forall i :: 0 <= i < k ==> r[i] == ring[i]
    ensures forall i :: k <= i < |r| ==> r[i] == ring[i + 1]
  {
    ring[..k] + ring[k + 1..]
  }

  lemma SplicedDistinct(ring: seq<ListItem>, at: nat, item: ListItem)
    requires at < |ring| && Distinct(ring) && item !in ring
    ensures Distinct(Spliced(ring, at, item))
  {
  }

  lemma WithoutDistinct(ring: seq<ListItem>, k: nat)
    requires k < |ring| && Distinct(ring)
    ensures Distinct(Without(ring, k))
  {
  }

  // The next (previous) pointer of the item at place k leads to the item after
  // (before) it.
  ghost predicate NextFrom(ring: seq<ListItem>, k: nat)
    requires k < |ring|
    reads {ring[k]}`pxNext
  {
    ring[k].pxNext == ring[After(k, |ring|)]
  }

  ghost predicate PreviousFrom(ring: seq<ListItem>, k: nat)
    requires k < |ring|
    reads {ring[k]}`pxPrevious
  {
    ring[k].pxPrevious == ring[Before(k, |ring|)]
  }

  ghost predicate Linked(ring: seq<ListItem>)
    reads ring`pxNext, ring`pxPrevious
  {
    forall k :: 0 <= k < |ring| ==> NextFrom(ring, k) && PreviousFrom(ring, k)
  }

  // Four pointers changed: the new item stands after place `at`.
  lemma SplicedLinked(ring: seq<ListItem>, at: nat, item: ListItem)
    requires at < |ring|
    requires ring[at].pxNext == item && item.pxNext == ring[After(at, |ring|)]
    requires item.pxPrevious == ring[at] && ring[After(at, |ring|)].pxPrevious == item
    requires forall k :: 0 <= k < |ring| && k != at ==> NextFrom(ring, k)
    requires forall k :: 0 <= k < |ring| && k != After(at, |ring|) ==> PreviousFrom(ring, k)
    ensures Linked(Spliced(ring, at, item))
  {
    var r := Spliced(ring, at, item);
    forall k | 0 <= k < |r|
      ensures NextFrom(r, k) && PreviousFrom(r, k)
    {
      if k < at {
        assert NextFrom(ring, k);
      } else if k > at + 1 {
        assert NextFrom(ring, k - 1);
      }
      if k <= at {
        assert k != After(at, |ring|) ==> PreviousFrom(ring, k);
      } else if k > at + 2 {
        assert PreviousFrom(ring, k - 1);
      }
    }
  }

  // Two pointers changed: the item at place k is passed over.
  lemma WithoutLinked(ring: seq<ListItem>, k: nat)
    requires 1 <= k < |ring|
    requires ring[k - 1].pxNext == ring[After(k, |ring|)]
    requires ring[After(k, |ring|)].pxPrevious == ring[k - 1]
    requires forall i :: 0 <= i < |ring| && i != k - 1 ==> NextFrom(ring, i)
    requires forall i :: 0 <= i < |ring| && i != After(k, |ring|) ==> PreviousFrom(ring, i)
    ensures Linked(Without(ring, k))
  {
    var r := Without(ring, k);
    forall i | 0 <= i < |r|
      ensures NextFrom(r, i) && PreviousFrom(r, i)
    {
      if i < k - 1 {
        assert NextFrom(ring, i);
      } else if i >= k {
        assert NextFrom(ring, i + 1);
      }
      if i < k {
        assert i != After(k, |ring|) ==> PreviousFrom(ring, i);
      } else if i > k {
        assert PreviousFrom(ring, i + 1);
      }
    }
  }

  // All items but the end marker have the list for their container.
  ghost predicate AllIn(ring: seq<ListItem>, list: List)
    reads ring`pxContainer
  {
    forall i :: 1 <= i < |ring| ==> ring[i].pxContainer == list
  }

  lemma SplicedAllIn(ring: seq<ListItem>, at: nat, item: ListItem, list: List)
    requires at < |ring| && AllIn(ring, list) && item.pxContainer == list
    ensures AllIn(Spliced(ring, at, item), list)
  {
  }

  lemma WithoutAllIn(ring: seq<ListItem>, k: nat, list: List)
    requires 1 <= k < |ring| && forall i :: 1 <= i < |ring| && i != k ==> ring[i].pxContainer == list
    ensures AllIn(Without(ring, k), list)
  {
  }

  class List {
    var uxNumberOfItems: nat
    var pxIndex: ListItem
    const xListEnd: ListItem

    // The items in ring order, the end marker first, and where the index points.
    ghost var ring: seq<ListItem>
    ghost var pos: nat

    ghost predicate Valid()
      reads this, ring
    {
      && 1 <= |ring| && ring[0] == xListEnd && xListEnd.xItemValue == MAX_DELAY
      && Distinct(ring) && Linked(ring)
      && AllIn(ring, this)
      && uxNumberOfItems == |ring| - 1
      && pos < |ring| && pxIndex == ring[pos]
    }

    // vListInitialise
    constructor ()
      ensures Valid() && ring == [xListEnd] && pos == 0
      ensures fresh(xListEnd)
    {
      var end := new ListItem(MAX_DELAY, 0);
      end.pxNext := end;
      end.pxPrevious := end;
      xListEnd := end;
      pxIndex := end;
      uxNumberOfItems := 0;
      ring := [end];
      pos := 0;
    }

    // listGET_OWNER_OF_NEXT_ENTRY
    method GetOwnerOfNextEntry() returns (owner: int)
      requires Valid() && uxNumberOfItems > 0
      modifies this`pxIndex, this`pos
      ensures Valid() && ring == old(ring)
      ensures pos == Advance(old(pos), uxNumberOfItems) && owner == ring[pos].pvOwner
    {
      assert NextFrom(ring, pos) && NextFrom(ring, 0);
      pos := After(pos, |ring|);
      pxIndex := pxIndex.pxNext;
      if pxIndex == xListEnd {
        pos := After(pos, |ring|);
        pxIndex := pxIndex.pxNext;
      }
      owner := pxIndex.pvOwner;
    }

    // n uses of the macro in a row.
    method TakeTurns(n: nat) returns (owners: seq<int>)
      requires Valid() && uxNumberOfItems > 0
      modifies this`pxIndex, this`pos
      ensures Valid() && ring == old(ring)
      ensures |owners| == n && pos == Position(old(pos), uxNumberOfItems, n)
      ensures forall j :: 0 <= j < n ==> owners[j] == ring[Position(old(pos), uxNumberOfItems, j + 1)].pvOwner
      ensures n == uxNumberOfItems ==>
                var os := Owners(ring[1..]);
                owners == os[old(pos)..] + os[..old(pos)] && multiset(owners) == multiset(os)
      ensures n == uxNumberOfItems && old(pos) > 0 ==> pos == old(pos)
    {
      owners := [];
      for k := 0 to n
        invariant Valid() && ring == old(ring) && |owners| == k
        invariant pos == Position(old(pos), uxNumberOfItems, k)
        invariant forall j :: 0 <= j < k ==> owners[j] == ring[Position(old(pos), uxNumberOfItems, j + 1)].pvOwner
      {
        var owner := GetOwnerOfNextEntry();
        owners := owners + [owner];
      }
      if n == uxNumberOfItems { EveryItemOnce(Owners(ring[1..]), old(pos), owners); }
    }

    // vListInsertEnd: before the place of the index.
    method InsertEnd(item: ListItem)
      requires Valid() && item !in ring
      modifies this, item`pxContainer, item`pxNext, item`pxPrevious, ring`pxNext, ring`pxPrevious
      ensures Valid() && ring == Spliced(old(ring), Before(old(pos), |old(ring)|), item)
      ensures pos == PosAfterInsertEnd(old(pos)) && pxIndex == old(pxIndex)
    {
      ghost var at := Before(pos, |ring|);
      assert NextFrom(ring, at) && PreviousFrom(ring, pos);
      LinkBefore(item, pxIndex);
      item.pxContainer := this;
      uxNumberOfItems := uxNumberOfItems + 1;
      Adopt(at, item);
    }

    // vListInsert: in the order of values, after the items whose value is no greater.
    method Insert(item: ListItem) returns (ghost at: nat)
      requires Valid() && item !in ring
      modifies this, item`pxContainer, item`pxNext, item`pxPrevious, ring`pxNext, ring`pxPrevious
      ensures old(IsPlaceFor(ring, item.xItemValue, at))
      ensures Valid() && ring == Spliced(old(ring), at, item)
      ensures pos == (if old(pos) <= at then old(pos) else old(pos) + 1) && pxIndex == old(pxIndex)
    {
      var place: ListItem;
      place, at := FindPlace(item.xItemValue);
      InsertAt(item, place, at);
    }

    method FindPlace(value: Word32) returns (place: ListItem, ghost at: nat)
      requires Valid()
      ensures IsPlaceFor(ring, value, at) && place == ring[at]
    {
      assert NextFrom(ring, 0) && PreviousFrom(ring, 0);
      if value == MAX_DELAY {
        return xListEnd.pxPrevious, |ring| - 1;
      }
      place, at := xListEnd, 0;
      while place.pxNext.xItemValue <= value
        invariant at < |ring| && place == ring[at] && NextFrom(ring, at)
        invariant forall i :: 1 <= i <= at ==> ring[i].xItemValue <= value
        decreases |ring| - at
      {
        place := place.pxNext;
        at := at + 1;
        assert NextFrom(ring, at);
      }
    }

    method InsertAt(item: ListItem, place: ListItem, ghost at: nat)
      requires Valid() && item !in ring && at < |ring| && place == ring[at]
      modifies this, item`pxContainer, item`pxNext, item`pxPrevious, ring`pxNext, ring`pxPrevious
      ensures Valid() && ring == Spliced(old(ring), at, item)
      ensures pos == if old(pos) <= at then old(pos) else old(pos) + 1
    {
      assert NextFrom(ring, at) && PreviousFrom(ring, After(at, |ring|));
      LinkAfter(item, place);
      item.pxContainer := this;
      uxNumberOfItems := uxNumberOfItems + 1;
      Adopt(at, item);
    }

    static method LinkAfter(item: ListItem, place: ListItem)
      requires place.pxNext != null && item != place && item != place.pxNext
      modifies item`pxNext, item`pxPrevious, place`pxNext, place.pxNext`pxPrevious
      ensures item.pxNext == old(place.pxNext) && item.pxPrevious == place
      ensures place.pxNext == item && old(place.pxNext).pxPrevious == item
    {
      item.pxNext := place.pxNext;
      item.pxNext.pxPrevious := item;
      item.pxPrevious := place;
      place.pxNext := item;
    }

    static method LinkBefore(item: ListItem, index: ListItem)
      requires index.pxPrevious != null && item != index && item != index.pxPrevious
      modifies item`pxNext, item`pxPrevious, index`pxPrevious, index.pxPrevious`pxNext
      ensures item.pxNext == index && item.pxPrevious == old(index.pxPrevious)
      ensures index.pxPrevious == item && old(index.pxPrevious).pxNext == item
    {
      item.pxNext := index;
      item.pxPrevious := index.pxPrevious;
      index.pxPrevious.pxNext := item;
      index.pxPrevious := item;
    }

    // An item whose links are made joins the ring after place `at`.
    ghost method Adopt(at: nat, item: ListItem)
      requires at < |ring| && pos < |ring| && Distinct(ring) && item !in ring
      requires AllIn(ring, this) && item.pxContainer == this
      requires ring[at].pxNext == item && item.pxNext == ring[After(at, |ring|)]
      requires item.pxPrevious == ring[at] && ring[After(at, |ring|)].pxPrevious == item
      requires forall k :: 0 <= k < |ring| && k != at ==> NextFrom(ring, k)
      requires forall k :: 0 <= k < |ring| && k != After(at, |ring|) ==> PreviousFrom(ring, k)
      modifies this`ring, this`pos
      ensures ring == Spliced(old(ring), at, item) && Distinct(ring) && Linked(ring) && AllIn(ring, this)
      ensures pos == if old(pos) <= at then old(pos) else old(pos) + 1
    {
      SplicedDistinct(ring, at, item);
      SplicedLinked(ring, at, item);
      SplicedAllIn(ring, at, item, this);
      ring := Spliced(ring, at, item);
      pos := if pos <= at then pos else pos + 1;
    }

    // uxListRemove, called on the list that the item is in, at place k.
    method Remove(item: ListItem, ghost k: nat) returns (left: nat)
      requires Valid() && 1 <= k < |ring| && item == ring[k]
      modifies this, item`pxContainer, ring`pxNext, ring`pxPrevious
      ensures Valid() && ring == Without(old(ring), k)
      ensures pos == if old(pos) < k then old(pos) else old(pos) - 1
      ensures item.pxContainer == null && left == uxNumberOfItems
    {
      assert NextFrom(ring, k) && PreviousFrom(ring, k);
      ghost var next, previous := ring[After(k, |ring|)], ring[k - 1];
      assert item.pxNext == next && item.pxPrevious == previous;
      Unlink(item);
      forall i | 0 <= i < |ring|
        ensures i != k - 1 ==> NextFrom(ring, i)
        ensures i != After(k, |ring|) ==> PreviousFrom(ring, i)
      {
        assert old(NextFrom(ring, i) && PreviousFrom(ring, i));
      }
      if pxIndex == item {
        pxIndex := item.pxPrevious;
      }
      item.pxContainer := null;
      uxNumberOfItems := uxNumberOfItems - 1;
      Release(k);
      return uxNumberOfItems;
    }

    // The item at place k, passed over by its neighbours' links, leaves the ring.
    ghost method Release(k: nat)
      requires 1 <= k < |ring| && pos < |ring| && Distinct(ring)
      requires forall i :: 1 <= i < |ring| && i != k ==> ring[i].pxContainer == this
      requires ring[k - 1].pxNext == ring[After(k, |ring|)] && ring[After(k, |ring|)].pxPrevious == ring[k - 1]
      requires forall i :: 0 <= i < |ring| && i != k - 1 ==> NextFrom(ring, i)
      requires forall i :: 0 <= i < |ring| && i != After(k, |ring|) ==> PreviousFrom(ring, i)
      modifies this`ring, this`pos
      ensures ring == Without(old(ring), k) && Distinct(ring) && Linked(ring) && AllIn(ring, this)
      ensures pos == if old(pos) < k then old(pos) else old(pos) - 1
    {
      WithoutDistinct(ring, k);
      WithoutLinked(ring, k);
      WithoutAllIn(ring, k, this);
      ring := Without(ring, k);
      pos := if pos < k then pos else pos - 1;
    }

    static method Unlink(item: ListItem)
      requires item.pxNext != null && item.pxPrevious != null && item.pxNext != item && item.pxPrevious != item
      modifies item.pxNext`pxPrevious, item.pxPrevious`pxNext
      ensures old(item.pxNext).pxPrevious == old(item.pxPrevious)
      ensures old(item.pxPrevious).pxNext == old(item.pxNext)
    {
      item.pxNext.pxPrevious := item.pxPrevious;
      item.pxPrevious.pxNext := item.pxNext;
    }
  }

  // --- The order of turns ---------------------------------------------------------

  // Where the index moves to among n items: place 0 is the end marker.
  function Advance(pos: nat, n: nat): (r: nat)
    requires pos <= n && 0 < n
    ensures 1 <= r <= n
  {
    if pos == n then 1 else pos + 1
  }

  function Position(pos: nat, n: nat, turns: nat): (r: nat)
    requires pos <= n && 0 < n
    ensures r <= n
  {
    if turns == 0 then pos else Advance(Position(pos, n, turns - 1), n)
  }

  // In n turns the index goes once round, from wherever it stands.
  lemma {:induction false} TurnAt(pos: nat, n: nat, j: nat)
    requires pos <= n && 1 <= j <= n
    ensures Position(pos, n, j) == if pos + j <= n then pos + j else pos + j - n
  {
    if j > 1 {
      TurnAt(pos, n, j - 1);
    } else {
      assert Position(pos, n, 1) == Advance(Position(pos, n, 0), n);
    }
  }

  // The turn at which the item at place p is reached.
  function TurnOf(pos: nat, n: nat, p: nat): (j: nat)
    requires pos <= n && 1 <= p <= n
    ensures 1 <= j <= n
  {
    if p > pos then p - pos else p - pos + n
  }

  // In n turns among n items, from wherever the index stands, an item has exactly
  // one turn.
  lemma OneTurnEach(pos: nat, n: nat, p: nat)
    requires pos <= n && 1 <= p <= n
    ensures forall j :: 1 <= j <= n ==> (Position(pos, n, j) == p <==> j == TurnOf(pos, n, p))
  {
    forall j | 1 <= j <= n
      ensures Position(pos, n, j) == p <==> j == TurnOf(pos, n, p)
    {
      TurnAt(pos, n, j);
    }
  }

  // The owners of items, in order.
  ghost function Owners(items: seq<ListItem>): (os: seq<int>)
    reads items`pvOwner
    ensures |os| == |items|
    ensures forall i :: 0 <= i < |items| ==> os[i] == items[i].pvOwner
  {
    if items == [] then [] else Owners(items[..|items| - 1]) + [items[|items| - 1].pvOwner]
  }

  // Fairness: the owners that n turns among the n items with owners os return are
  // os from the index on and then from the start, so every item's owner is returned
  // exactly once, that of the end marker never, and the index comes back to the item
  // it stood on.
  lemma EveryItemOnce(os: seq<int>, pos: nat, owners: seq<int>)
    requires 0 < |os| && pos <= |os| && |owners| == |os|
    requires forall j :: 0 <= j < |os| ==> owners[j] == os[Position(pos, |os|, j + 1) - 1]
    ensures owners == os[pos..] + os[..pos]
    ensures multiset(owners) == multiset(os)
    ensures pos > 0 ==> Position(pos, |os|, |os|) == pos
  {
    Rotation(os, pos, owners);
    assert os == os[..pos] + os[pos..];
    TurnAt(pos, |os|, |os|);
  }

  lemma Rotation(os: seq<int>, pos: nat, owners: seq<int>)
    requires 0 < |os| && pos <= |os| && |owners| == |os|
    requires forall j :: 0 <= j < |os| ==> owners[j] == os[Position(pos, |os|, j + 1) - 1]
    ensures owners == os[pos..] + os[..pos]
  {
    var rotated := os[pos..] + os[..pos];
    forall j | 0 <= j < |os|
      ensures owners[j] == rotated[j]
    {
      TurnAt(pos, |os|, j + 1);
    }
  }

  // Where the index points after vListInsertEnd.
  function PosAfterInsertEnd(pos: nat): nat { if pos == 0 then 0 else pos + 1 }

  // In the ring that vListInsertEnd leaves, the new item has its turn after every
  // other item, except the one that had the last turn before it came.
  lemma NewItemIsLast(ring: seq<ListItem>, pos: nat, item: ListItem, p: nat)
    requires pos < |ring|
    requires var ring' := Spliced(ring, Before(pos, |ring|), item);
             1 <= p < |ring'| && ring'[p] != item && p != PosAfterInsertEnd(pos)
    ensures var ring', place := Spliced(ring, Before(pos, |ring|), item), Before(pos, |ring|) + 1;
            && ring'[place] == item && PosAfterInsertEnd(pos) < |ring'|
            && TurnOf(PosAfterInsertEnd(pos), |ring'| - 1, p) < TurnOf(PosAfterInsertEnd(pos), |ring'| - 1, place)
  {
  }

  // Taking out the item that has just had its turn does not change whose turn is
  // next, nor does taking out any item but that one.
  lemma RemovalKeepsNext(ring: seq<ListItem>, pos: nat, k: nat)
    requires |ring| >= 3 && pos < |ring| && 1 <= k < |ring|
    requires k != Advance(pos, |ring| - 1)
    ensures var pos' := if pos < k then pos else pos - 1;
            Without(ring, k)[Advance(pos', |ring| - 2)] == ring[Advance(pos, |ring| - 1)]
  {
  }

  // A ring whose items stand in the order of their values.
  ghost predicate Ascending(ring: seq<ListItem>)
    reads ring`xItemValue
  {
    forall i, j :: 1 <= i < j < |ring| ==> ring[i].xItemValue <= ring[j].xItemValue
  }

  // A value goes after the items no greater than it that lead the ring, the
  // greatest value of all to the very end.
  ghost predicate IsPlaceFor(ring: seq<ListItem>, value: Word32, at: nat)
    reads ring`xItemValue
  {
    && at < |ring|
    && (value == MAX_DELAY ==> at == |ring| - 1)
    && (value < MAX_DELAY ==>
          && (forall i :: 1 <= i <= at ==> ring[i].xItemValue <= value)
          && (at + 1 < |ring| ==> value < ring[at + 1].xItemValue))
  }

  // vListInsert keeps it so, and the new item comes after those of equal value.
  lemma InsertKeepsOrder(ring: seq<ListItem>, at: nat, item: ListItem)
    requires IsPlaceFor(ring, item.xItemValue, at) && Ascending(ring)
    ensures Ascending(Spliced(ring, at, item))
    ensures forall i :: 1 <= i < |ring| ==> (ring[i].xItemValue <= item.xItemValue <==> i <= at)
  {
    forall i | at + 1 <= i < |ring|
      ensures item.xItemValue < ring[i].xItemValue
    {
      assert ring[at + 1].xItemValue <= ring[i].xItemValue;
    }
  }
}
