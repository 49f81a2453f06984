/**
  One page of a property set: the values stored at the offsets of one page, with the
  page-local occupancy count. Only the behaviour the object store relies on is
  modelled: a read, a write that replaces, a removal, and the size.
  Writing `null` clears the slot, so that a page holds exactly its non-null values.
*/
module PropertyPage {
  import opened Optional

  type Page<V> = map<nat, V>

  /** 1 for a stored value, 0 for `null`: how much a slot adds to a page size. */
  function Occupancy<T>(x: Option<T>): (n: nat)
    ensures n <= 1
    ensures n == 1 <==> x.Some?
  {
    if x.Some? then 1 else 0
  }

  /** The page's count of occupied offsets. */
  function Size<V>(page: Page<V>): nat {
    |page|
  }

  /** The value at `offset`, or `null` when the offset is unoccupied. */
  function GetObject<V>(page: Page<V>, offset: nat): (r: Option<V>)
    ensures r.Some? <==> offset in page.Keys
  {
    if offset in page then Some(page[offset]) else None
  }

  /** Removes the value at `offset`, if any. */
  function RemoveObject<V>(page: Page<V>, offset: nat): (r: Page<V>)
    ensures r.Keys == page.Keys - {offset}
    ensures GetObject(r, offset).None?
    ensures forall o :: o != offset ==> GetObject(r, o) == GetObject(page, o)
    ensures Size(r) == Size(page) - Occupancy(GetObject(page, offset))
  {
    var r := page - {offset};
    assert offset in page.Keys ==> page.Keys == r.Keys + {offset};
    r
  }

  /** Stores `x` at `offset`, replacing what was there. */
  function AddObject<V>(page: Page<V>, offset: nat, x: Option<V>): (r: Page<V>)
    ensures GetObject(r, offset) == x
    ensures forall o :: o != offset ==> GetObject(r, o) == GetObject(page, o)
    ensures Size(r) == Size(page) + Occupancy(x) - Occupancy(GetObject(page, offset))
  {
    match x
    case Some(v) => page[offset := v]
    case None => RemoveObject(page, offset)
  }

  /** A second write at an offset overrides the first completely. */
  lemma {:induction false} AddObjectTwice<V>(page: Page<V>, offset: nat, x: Option<V>, y: Option<V>)
    ensures AddObject(AddObject(page, offset, x), offset, y) == AddObject(page, offset, y)
  {
    match (x, y)
    case (Some(a), Some(b)) =>
      assert page[offset := a][offset := b] == page[offset := b];
    case (None, Some(b)) =>
      var cleared := page - {offset};
      assert cleared[offset := b].Keys == page[offset := b].Keys;
      assert cleared[offset := b] == page[offset := b];
    case (Some(a), None) =>
      var written := page[offset := a];
      assert (written - {offset}).Keys == (page - {offset}).Keys;
      assert written - {offset} == page - {offset};
    case (None, None) =>
      var cleared := page - {offset};
      assert (cleared - {offset}).Keys == cleared.Keys;
      assert cleared - {offset} == cleared;
  }
}
