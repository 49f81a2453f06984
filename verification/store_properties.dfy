/**
  What the object property set means, and the laws its operations keep.
  `View` is the abstract content of a store: the finite map from every index
  holding a value to that value. The operations are shown to act on it as plain
  map updates, and `Valid` (count == sum of page sizes) is shown to be kept by
  every mutation and to make the count equal the number of stored entries.
*/
module StoreProperties {
  import opened Optional
  import opened Partition
  import opened PropertyPage
  import opened PropertySet
  import opened ObjectPropertySet

  /** The abstract content of a store: index to stored value. */
  ghost function View<V>(s: Store<V>): map<Index, V> {
    map i: Index | MinIndex <= i <= MaxIndex && Get(s, i).Some? :: Get(s, i).value
  }

  /** `Get` reads exactly the abstract content. */
  lemma {:induction false} GetIsView<V>(s: Store<V>, i: Index)
    ensures i in View(s) <==> Get(s, i).Some?
    ensures i in View(s) ==> View(s)[i] == Get(s, i).value
  {
  }

  /** Two stores that read the same at every index have the same content. */
  lemma {:induction false} ViewExtensional<V>(s: Store<V>, t: Store<V>)
    requires forall i: Index :: Get(s, i) == Get(t, i)
    ensures View(s) == View(t)
  {
    forall i: Index
      ensures (i in View(t) <==> Get(s, i).Some?) && (i in View(t) ==> View(t)[i] == Get(s, i).value)
    {
      GetIsView(t, i);
    }
    ViewIs(s, View(t));
  }

  /** In a valid store the running count is the number of stored entries. */
  lemma {:induction false} CountIsOccupancy<V>(s: Store<V>)
    requires Valid(s)
    ensures s.numProperties == SumSizes(s.pages) == |View(s)|
  {
    SlotsCount(s.pageBits, s.pages);
    var keys := View(s).Keys;
    forall x | x in Slots(s)
      ensures x in keys
    {
      var pid, o :| pid in s.pages && o in s.pages[pid] && x == Join(s.pageBits, pid, o);
      SplitOfJoin(s.pageBits, pid, o);
      var i: Index := x;
      GetIsView(s, i);
    }
    forall i | i in keys
      ensures i in Slots(s)
    {
      GetIsView(s, i);
      JoinOfSplit(s.pageBits, i);
      assert PageIdOf(s, i) in s.pages && OffsetOf(s, i) in s.pages[PageIdOf(s, i)];
    }
    assert keys == Slots(s);
  }

  /** A map that agrees with `Get` at every index is the store's content. */
  lemma {:induction false} ViewIs<V>(s: Store<V>, m: map<Index, V>)
    requires forall j: Index :: (j in m <==> Get(s, j).Some?)
    requires forall j: Index :: j in m ==> m[j] == Get(s, j).value
    ensures View(s) == m
  {
    forall j: Index
      ensures (j in View(s) <==> j in m) && (j in m ==> View(s)[j] == m[j])
    {
      GetIsView(s, j);
    }
  }

  /** Put acts on the content as a map update (or a deletion for `null`). */
  lemma {:induction false} PutView<V>(s: Store<V>, i: Index, x: Option<V>)
    ensures View(Put(s, i, x)) == if x.Some? then View(s)[i := x.value] else View(s) - {i}
  {
    var r := Put(s, i, x);
    var expected := if x.Some? then View(s)[i := x.value] else View(s) - {i};
    forall j: Index
      ensures (j in expected <==> Get(r, j).Some?)
      ensures j in expected ==> expected[j] == Get(r, j).value
    {
      if j == i {
        assert Get(r, j) == x;
      } else {
        assert Get(r, j) == Get(s, j);
        GetIsView(s, j);
      }
    }
    ViewIs(r, expected);
  }

  /** Remove deletes one entry of the content. */
  lemma {:induction false} RemoveView<V>(s: Store<V>, i: Index)
    ensures View(Remove(s, i)) == View(s) - {i}
  {
    var expected := View(s) - {i};
    forall j: Index
      ensures (j in expected <==> Get(Remove(s, i), j).Some?)
      ensures j in expected ==> expected[j] == Get(Remove(s, i), j).value
    {
      GetIsView(s, j);
    }
    ViewIs(Remove(s, i), expected);
  }

  /** Put keeps the count equal to the sum of page sizes. */
  lemma {:induction false} PutKeepsValid<V>(s: Store<V>, i: Index, x: Option<V>)
    requires Valid(s)
    ensures Valid(Put(s, i, x))
  {
    var r := Put(s, i, x);
    var pid, o := PageIdOf(s, i), OffsetOf(s, i);
    var page' := AddObject(GetOrCreatePage(s, pid), o, x);
    assert r.pages == s.pages[pid := page'];
    SumSizesUpdate(s.pages, pid, page');
    JoinOfSplit(s.pageBits, i);
    forall p, o' | p in r.pages && o' in r.pages[p]
      ensures o' < PageSize(r.pageBits) && MinIndex <= Join(r.pageBits, p, o') <= MaxIndex
    {
      if p == pid && o' == o {
      } else {
        assert p in s.pages && o' in s.pages[p] by {
          if p == pid {
            assert GetObject(page', o') == GetObject(GetOrCreatePage(s, pid), o');
          }
        }
      }
    }
  }

  /** Remove keeps the count equal to the sum of page sizes. */
  lemma {:induction false} RemoveKeepsValid<V>(s: Store<V>, i: Index)
    requires Valid(s)
    ensures Valid(Remove(s, i))
  {
    var pid := PageIdOf(s, i);
    if pid in s.pages {
      var page' := RemoveObject(s.pages[pid], OffsetOf(s, i));
      assert Remove(s, i).pages == s.pages[pid := page'];
      SumSizesUpdate(s.pages, pid, page');
    }
  }

  /** A restore is a put of the value read, so it keeps the invariant too. */
  lemma {:induction false} RestoreKeepsValid<V>(s: Store<V>, input: Stream<V>, index: Index)
    requires Valid(s) && |input| != 0
    ensures Valid(RestoreProperty(s, input, index).value.0)
  {
    PutKeepsValid(s, index, input[0]);
  }

  /** A move is a removal followed by a put, so it keeps the invariant too. */
  lemma {:induction false} MoveKeepsValid<V>(s: Store<V>, from: Index, to: Index)
    requires Valid(s)
    ensures Valid(MoveIndex(s, from, to))
  {
    RemoveKeepsValid(s, from);
    PutKeepsValid(Remove(s, from), to, Get(s, from));
  }

  /**
    A move from an occupied index to a distinct empty one relocates the value and
    leaves the count and every other index as they were.
  */
  lemma {:induction false} MoveRelocates<V>(s: Store<V>, from: Index, to: Index, v: V)
    requires Get(s, from) == Some(v) && Get(s, to).None? && from != to
    ensures Get(MoveIndex(s, from, to), from).None?
    ensures Get(MoveIndex(s, from, to), to) == Some(v)
    ensures MoveIndex(s, from, to).numProperties == s.numProperties
    ensures View(MoveIndex(s, from, to)) == (View(s) - {from})[to := v]
  {
    RemoveView(s, from);
    PutView(Remove(s, from), to, Some(v));
  }

  /** Moving an index onto itself changes nothing observable. */
  lemma {:induction false} MoveToSelf<V>(s: Store<V>, i: Index)
    ensures View(MoveIndex(s, i, i)) == View(s)
    ensures MoveIndex(s, i, i).numProperties == s.numProperties
  {
    ViewExtensional(MoveIndex(s, i, i), s);
  }

  /** Storing twice at one index is the same as storing the second value once. */
  lemma {:induction false} LastPutWins<V>(s: Store<V>, i: Index, x: Option<V>, y: Option<V>)
    ensures Put(Put(s, i, x), i, y) == Put(s, i, y)
  {
    var pid, o := PageIdOf(s, i), OffsetOf(s, i);
    var page := GetOrCreatePage(s, pid);
    AddObjectTwice(page, o, x, y);
  }

  /** The visitor sees exactly the content at the index: once if present, never if not. */
  lemma {:induction false} ApplyValueVisitsContent<V>(s: Store<V>, visited: seq<V>, addr: Index)
    ensures ApplyValue(s, visited, addr) == visited + (if addr in View(s) then [View(s)[addr]] else [])
  {
    GetIsView(s, addr);
  }

  /** Saving at `index` and restoring at `index` into any store reproduces the value there. */
  lemma {:induction false} SaveRestoreRoundTrip<V>(s: Store<V>, t: Store<V>, index: Index)
    ensures RestoreProperty(t, SaveProperty(s, [], index), index).Success?
    ensures Get(RestoreProperty(t, SaveProperty(s, [], index), index).value.0, index) == Get(s, index)
    ensures RestoreProperty(t, SaveProperty(s, [], index), index).value.1 == []
  {
  }
}
