/**
  The state a property set keeps: its name, its page size, the directory of pages
  keyed by page identifier, and the running entry count `numProperties`.
  The count is never recomputed; `Valid` states the invariant that keeps it honest:
  it equals the sum of the page sizes, which in turn is the number of occupied slots.
*/
module PropertySet {
  import opened Optional
  import opened Partition
  import opened PropertyPage

  datatype Store<V> = Store(
    name: string,
    pageBits: nat,
    pages: map<int, Page<V>>,
    numProperties: int)

  function PageIdOf<V>(s: Store<V>, i: int): int {
    PageId(s.pageBits, i)
  }

  function OffsetOf<V>(s: Store<V>, i: int): (o: nat)
    ensures o < PageSize(s.pageBits)
  {
    PageOffset(s.pageBits, i)
  }

  /** The page with the given identifier, or `null` when it was never created. */
  function GetPage<V>(s: Store<V>, pid: int): (r: Option<Page<V>>)
    ensures r.Some? <==> pid in s.pages
    ensures r.Some? ==> r.value == s.pages[pid]
  {
    if pid in s.pages then Some(s.pages[pid]) else None
  }

  /** The page with the given identifier, a fresh empty one when it does not exist yet. */
  function GetOrCreatePage<V>(s: Store<V>, pid: int): (page: Page<V>)
    ensures pid in s.pages ==> page == s.pages[pid]
    ensures pid !in s.pages ==> Size(page) == 0
  {
    match GetPage(s, pid)
    case Some(page) => page
    case None => map[]
  }

  /** Every stored slot sits inside its page and names a 64-bit index. */
  ghost predicate WellFormed<V>(s: Store<V>) {
    forall pid, o :: pid in s.pages && o in s.pages[pid] ==>
      o < PageSize(s.pageBits) && MinIndex <= Join(s.pageBits, pid, o) <= MaxIndex
  }

  /** Some key of a non-empty map. */
  ghost function PickKey<K, W>(m: map<K, W>): (k: K)
    requires |m| != 0
    ensures k in m
  {
    assert m.Keys != {};
    var k :| k in m.Keys; k
  }

  lemma RemoveCard<K, W>(m: map<K, W>, k: K)
    requires k in m
    ensures |m - {k}| == |m| - 1
  {
    assert (m - {k}).Keys == m.Keys - {k};
  }

  /** The total of the page sizes. */
  ghost function SumSizes<V>(pages: map<int, Page<V>>): nat
    decreases |pages|
  {
    if |pages| == 0 then 0
    else
      var pid := PickKey(pages);
      RemoveCard(pages, pid);
      Size(pages[pid]) + SumSizes(pages - {pid})
  }

  /** The indices of all occupied slots. */
  ghost function SlotsOf<V>(bits: nat, pages: map<int, Page<V>>): set<int> {
    set pid, o | pid in pages && o in pages[pid] :: Join(bits, pid, o)
  }

  ghost function Slots<V>(s: Store<V>): set<int> {
    SlotsOf(s.pageBits, s.pages)
  }

  /** The store's invariant: the running count is the sum of the page sizes. */
  ghost predicate Valid<V>(s: Store<V>) {
    WellFormed(s) && s.numProperties == SumSizes(s.pages)
  }

  /** The sum does not depend on which page it starts from. */
  lemma {:induction false} SumSizesRemove<V>(pages: map<int, Page<V>>, pid: int)
    requires pid in pages
    ensures SumSizes(pages) == Size(pages[pid]) + SumSizes(pages - {pid})
    decreases |pages|
  {
    RemoveCard(pages, pid);
    var first := PickKey(pages);
    if first != pid {
      var rest := pages - {first};
      var others := pages - {pid};
      assert SumSizes(pages) == Size(pages[first]) + SumSizes(rest);
      RemoveCard(pages, first);
      SumSizesRemove(rest, pid);
      SumSizesRemove(others, first);
      RemoveCommutes(pages, first, pid);
    }
  }

  lemma {:induction false} RemoveCommutes<K, W>(m: map<K, W>, a: K, b: K)
    ensures m - {a} - {b} == m - {b} - {a}
  {
    assert (m - {a} - {b}).Keys == (m - {b} - {a}).Keys;
  }

  lemma {:induction false} RemoveAfterUpdate<K, W>(m: map<K, W>, k: K, w: W)
    ensures m[k := w] - {k} == m - {k}
  {
    assert (m[k := w] - {k}).Keys == (m - {k}).Keys;
  }

  lemma {:induction false} RemoveAbsent<K, W>(m: map<K, W>, k: K)
    requires k !in m
    ensures m - {k} == m
  {
    assert (m - {k}).Keys == m.Keys;
  }

  /** Replacing one page changes the sum by exactly that page's size delta. */
  lemma {:induction false} SumSizesUpdate<V>(pages: map<int, Page<V>>, pid: int, page: Page<V>)
    ensures SumSizes(pages[pid := page]) + (if pid in pages then Size(pages[pid]) else 0)
         == SumSizes(pages) + Size(page)
  {
    SumSizesRemove(pages[pid := page], pid);
    RemoveAfterUpdate(pages, pid, page);
    if pid in pages {
      SumSizesRemove(pages, pid);
    } else {
      RemoveAbsent(pages, pid);
    }
  }

  ghost function PageSlots(bits: nat, pid: int, offsets: set<nat>): set<int> {
    set o | o in offsets :: Join(bits, pid, o)
  }

  /** A page contributes one index per occupied offset. */
  lemma {:induction false} PageSlotsCount(bits: nat, pid: int, offsets: set<nat>)
    requires forall o :: o in offsets ==> o < PageSize(bits)
    ensures |PageSlots(bits, pid, offsets)| == |offsets|
    decreases offsets
  {
    if offsets != {} {
      var o :| o in offsets;
      var rest := offsets - {o};
      PageSlotsCount(bits, pid, rest);
      assert PageSlots(bits, pid, offsets) == PageSlots(bits, pid, rest) + {Join(bits, pid, o)};
      assert Join(bits, pid, o) !in PageSlots(bits, pid, rest) by {
        forall o' | o' in rest
          ensures Join(bits, pid, o') != Join(bits, pid, o)
        {
          if Join(bits, pid, o') == Join(bits, pid, o) {
            JoinInjective(bits, pid, o', pid, o);
          }
        }
      }
    }
  }

  /** Removing one page splits its slots off from the others. */
  lemma {:induction false} SlotsSplit<V>(bits: nat, pages: map<int, Page<V>>, pid: int)
    requires pid in pages
    requires forall p, o :: p in pages && o in pages[p] ==> o < PageSize(bits)
    ensures SlotsOf(bits, pages) == SlotsOf(bits, pages - {pid}) + PageSlots(bits, pid, pages[pid].Keys)
    ensures SlotsOf(bits, pages - {pid}) !! PageSlots(bits, pid, pages[pid].Keys)
  {
    var rest := pages - {pid};
    var mine := PageSlots(bits, pid, pages[pid].Keys);
    forall x | x in SlotsOf(bits, pages)
      ensures x in SlotsOf(bits, rest) + mine
    {
      var p, o :| p in pages && o in pages[p] && x == Join(bits, p, o);
      if p != pid {
        assert p in rest && o in rest[p];
      }
    }
    forall x | x in SlotsOf(bits, rest)
      ensures x !in mine
    {
      var p, o :| p in rest && o in rest[p] && x == Join(bits, p, o);
      forall o' | o' in pages[pid]
        ensures Join(bits, pid, o') != x
      {
        if Join(bits, pid, o') == x {
          JoinInjective(bits, pid, o', p, o);
        }
      }
    }
  }

  /** The number of occupied slots is the sum of the page sizes. */
  lemma {:induction false} SlotsCount<V>(bits: nat, pages: map<int, Page<V>>)
    requires forall pid, o :: pid in pages && o in pages[pid] ==> o < PageSize(bits)
    ensures |SlotsOf(bits, pages)| == SumSizes(pages)
    decreases |pages|
  {
    if |pages| != 0 {
      var pid := PickKey(pages);
      var rest := pages - {pid};
      RemoveCard(pages, pid);
      SumSizesRemove(pages, pid);
      SlotsCount(bits, rest);
      PageSlotsCount(bits, pid, pages[pid].Keys);
      SlotsSplit(bits, pages, pid);
      assert |pages[pid].Keys| == Size(pages[pid]);
    }
  }
}
