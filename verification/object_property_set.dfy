/**
  The object-valued property set: values of an arbitrary reference type `V`
  stored at 64-bit indices, on pages created on first write, with the running
  entry count kept in step by the page-size delta of every write.
  A Java `null` is `None`; "nothing stored at i" and "get returns null" are the
  same observable state.
*/
module ObjectPropertySet {
  import opened Optional
  import opened Partition
  import opened PropertyPage
  import opened PropertySet

  /** Rough per-entry footprint reported for size estimates; not a measured size. */
  const NominalEntrySize: int := 20

  /** The reasons a restore can fail: the saved stream ran out. */
  datatype StreamError = EndOfStream

  /** A saved stream: the values written one after another. */
  type Stream<V> = seq<Option<V>>

  /** A new, empty property set with the given name and pages of 2^pageBits slots. */
  function Create<V>(name: string, pageBits: nat): (r: Store<V>)
    ensures Valid(r)
    ensures r.name == name && r.pageBits == pageBits
    ensures r.numProperties == 0
    ensures forall i: Index :: Get(r, i).None?
  {
    Store(name, pageBits, map[], 0)
  }

  /** The estimated size of one entry, whatever the store holds. */
  function DataSize<V>(s: Store<V>): (n: int)
    ensures n == 20
  {
    NominalEntrySize
  }

  /** The value stored at `i`, or `null`; a read creates no page. */
  function Get<V>(s: Store<V>, i: Index): (r: Option<V>)
    ensures PageIdOf(s, i) !in s.pages ==> r.None?
    ensures r.Some? <==> PageIdOf(s, i) in s.pages && OffsetOf(s, i) in s.pages[PageIdOf(s, i)]
    ensures r.Some? ==> r.value == s.pages[PageIdOf(s, i)][OffsetOf(s, i)]
  {
    match GetPage(s, PageIdOf(s, i))
    case Some(page) => GetObject(page, OffsetOf(s, i))
    case None => None
  }

  /**
    Stores `x` at `i`, replacing whatever was there. The count moves by the page's
    size delta: one more for a value put in an empty slot, unchanged for an overwrite.
  */
  function Put<V>(s: Store<V>, i: Index, x: Option<V>): (r: Store<V>)
    ensures Get(r, i) == x
    ensures forall j: Index :: j != i ==> Get(r, j) == Get(s, j)
    ensures r.numProperties == s.numProperties + Occupancy(x) - Occupancy(Get(s, i))
    ensures r.name == s.name && r.pageBits == s.pageBits
  {
    var pid := PageIdOf(s, i);
    var page := GetOrCreatePage(s, pid);
    var n := Size(page);
    var page' := AddObject(page, OffsetOf(s, i), x);
    var r := s.(pages := s.pages[pid := page'], numProperties := s.numProperties + Size(page') - n);
    assert forall j: Index :: j != i ==> Get(r, j) == Get(s, j) by {
      forall j: Index | j != i
        ensures Get(r, j) == Get(s, j)
      {
        if PageIdOf(s, j) == pid && OffsetOf(s, j) == OffsetOf(s, i) {
          SplitInjective(s.pageBits, i, j);
        }
      }
    }
    r
  }

  /**
    The base class's removal, as the object store relies on it: the value at `i`
    is deleted and the count drops by one when there was one.
  */
  function Remove<V>(s: Store<V>, i: Index): (r: Store<V>)
    ensures Get(r, i).None?
    ensures forall j: Index :: j != i ==> Get(r, j) == Get(s, j)
    ensures r.numProperties == s.numProperties - Occupancy(Get(s, i))
    ensures r.name == s.name && r.pageBits == s.pageBits
  {
    var pid := PageIdOf(s, i);
    match GetPage(s, pid)
    case None => s
    case Some(page) =>
      var page' := RemoveObject(page, OffsetOf(s, i));
      var r := s.(pages := s.pages[pid := page'], numProperties := s.numProperties - (Size(page) - Size(page')));
      assert forall j: Index :: j != i ==> Get(r, j) == Get(s, j) by {
        forall j: Index | j != i
          ensures Get(r, j) == Get(s, j)
        {
          if PageIdOf(s, j) == pid && OffsetOf(s, j) == OffsetOf(s, i) {
            SplitInjective(s.pageBits, i, j);
          }
        }
      }
      r
  }

  /**
    Moves the value at `from` to `to`: read, remove at `from`, put at `to`.
    Whatever `from` held (possibly `null`) is what `to` holds afterwards.
  */
  function MoveIndex<V>(s: Store<V>, from: Index, to: Index): (r: Store<V>)
    ensures Get(r, to) == Get(s, from)
    ensures from != to ==> Get(r, from).None?
    ensures forall j: Index :: j != from && j != to ==> Get(r, j) == Get(s, j)
    ensures r.numProperties == s.numProperties - (if from == to then 0 else Occupancy(Get(s, to)))
  {
    var value := Get(s, from);
    Put(Remove(s, from), to, value)
  }

  /** Writes the value at `index` (possibly `null`) to the end of the stream. */
  function SaveProperty<V>(s: Store<V>, out: Stream<V>, index: Index): (r: Stream<V>)
    ensures |r| == |out| + 1 && r[..|out|] == out
    ensures r[|out|] == Get(s, index)
  {
    out + [Get(s, index)]
  }

  /**
    Reads the next value from the stream and stores it at `index`; fails, leaving
    nothing changed, when the stream is exhausted.
  */
  function RestoreProperty<V>(s: Store<V>, input: Stream<V>, index: Index): (r: Result<(Store<V>, Stream<V>), StreamError>)
    ensures r.Failure? <==> |input| == 0
    ensures r.Success? ==> Get(r.value.0, index) == input[0] && r.value.1 == input[1..]
    ensures r.Success? ==> forall j: Index :: j != index ==> Get(r.value.0, j) == Get(s, j)
    ensures r.Success? ==> r.value.0.numProperties == s.numProperties + Occupancy(input[0]) - Occupancy(Get(s, index))
  {
    if |input| == 0 then Failure(EndOfStream)
    else Success((Put(s, index, input[0]), input[1..]))
  }

  /**
    Hands the value at `addr` to the visitor, whose calls are recorded as a trace:
    one call with the value when one is stored, none otherwise.
  */
  function ApplyValue<V>(s: Store<V>, visited: seq<V>, addr: Index): (r: seq<V>)
    ensures Get(s, addr).None? ==> r == visited
    ensures Get(s, addr).Some? ==> r == visited + [Get(s, addr).value]
  {
    var obj := Get(s, addr);
    if obj.Some? then visited + [obj.value] else visited
  }
}
