/**
  Splitting a 64-bit index into a page identifier and an offset inside that page.
  Pages hold 2^bits slots; the identifier is the index shifted right arithmetically
  by `bits` and the offset is the index masked with 2^bits - 1. Both are written one
  bit at a time. Everything the store relies on is the pair of lemmas below:
  splitting and joining are inverse, so (page, offset) determines the index.
*/
module Partition {

  const MinIndex: int := -0x8000_0000_0000_0000
  const MaxIndex: int := 0x7FFF_FFFF_FFFF_FFFF

  /** A Java `long`. */
  type Index = i: int | MinIndex <= i <= MaxIndex

  function PageSize(bits: nat): (n: nat)
    ensures n >= 1
  {
    if bits == 0 then 1 else 2 * PageSize(bits - 1)
  }

  /** The index shifted right arithmetically by `bits`, one bit at a time: its floor quotient by 2^bits. */
  function PageId(bits: nat, i: int): int {
    if bits == 0 then i else PageId(bits - 1, i / 2)
  }

  /** The low `bits` bits of the index (its two's-complement mask): the remainder by 2^bits. */
  function PageOffset(bits: nat, i: int): (o: nat)
    ensures o < PageSize(bits)
  {
    if bits == 0 then 0 else 2 * PageOffset(bits - 1, i / 2) + i % 2
  }

  /** The index that lives at `offset` of page `page`: page * 2^bits + offset. */
  function Join(bits: nat, page: int, offset: nat): int {
    if bits == 0 then page else 2 * Join(bits - 1, page, offset / 2) + offset % 2
  }

  lemma {:induction false} JoinOfSplit(bits: nat, i: int)
    ensures Join(bits, PageId(bits, i), PageOffset(bits, i)) == i
  {
    if bits > 0 {
      JoinOfSplit(bits - 1, i / 2);
    }
  }

  lemma {:induction false} SplitOfJoin(bits: nat, page: int, offset: nat)
    requires offset < PageSize(bits)
    ensures PageId(bits, Join(bits, page, offset)) == page
    ensures PageOffset(bits, Join(bits, page, offset)) == offset
  {
    if bits > 0 {
      SplitOfJoin(bits - 1, page, offset / 2);
    }
  }

  /** Distinct indices never share both their page and their offset. */
  lemma SplitInjective(bits: nat, i: int, j: int)
    requires PageId(bits, i) == PageId(bits, j)
    requires PageOffset(bits, i) == PageOffset(bits, j)
    ensures i == j
  {
    JoinOfSplit(bits, i);
    JoinOfSplit(bits, j);
  }

  /** Distinct (page, offset) slots never name the same index. */
  lemma JoinInjective(bits: nat, p1: int, o1: nat, p2: int, o2: nat)
    requires o1 < PageSize(bits) && o2 < PageSize(bits)
    requires Join(bits, p1, o1) == Join(bits, p2, o2)
    ensures p1 == p2 && o1 == o2
  {
    SplitOfJoin(bits, p1, o1);
    SplitOfJoin(bits, p2, o2);
  }
}
