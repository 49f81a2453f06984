/** The worked example of an empty store taking two writes and a move. */
module Scenario {
  import opened Optional
  import opened PropertySet
  import opened ObjectPropertySet
  import opened StoreProperties

  /**
    Empty store; put "a" at 100; put "b" at 100; move 100 to 500. The count goes
    0, 1, 1, 1; the overwrite replaces the value; the move leaves 100 empty and 500
    holding "b". It holds for every page size.
  */
  lemma {:induction false} PutOverwriteMove(pageBits: nat)
    ensures var s0 := Create<string>("example", pageBits);
            var s1 := Put(s0, 100, Some("a"));
            var s2 := Put(s1, 100, Some("b"));
            var s3 := MoveIndex(s2, 100, 500);
            && s0.numProperties == 0
            && s1.numProperties == 1 && Get(s1, 100) == Some("a")
            && s2.numProperties == 1 && Get(s2, 100) == Some("b")
            && s3.numProperties == 1 && Get(s3, 100).None? && Get(s3, 500) == Some("b")
            && Valid(s3) && |View(s3)| == 1
  {
    var s0 := Create<string>("example", pageBits);
    var s1 := Put(s0, 100, Some("a"));
    var s2 := Put(s1, 100, Some("b"));
    var s3 := MoveIndex(s2, 100, 500);
    PutKeepsValid(s0, 100, Some("a"));
    PutKeepsValid(s1, 100, Some("b"));
    MoveKeepsValid(s2, 100, 500);
    CountIsOccupancy(s3);
  }
}
