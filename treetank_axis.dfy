/**
 * Treetank's axis interface (IAxis), reduced to what its users rely on:
 * a cursor over a sequence of node keys, with hasNext and next.
 */
module TreetankAxis {
  /**
   * A Treetank axis as its users see it: the keys it yields, in order,
   * and how many of them it has handed out so far.
   */
  class Axis {
    var keys: seq<int>
    var cursor: nat

    ghost predicate Valid()
      reads this
    {
      cursor <= |keys|
    }

    /** The keys the axis has still to hand out. */
    function Remaining(): seq<int>
      reads this
      requires Valid()
    {
      keys[cursor..]
    }

    constructor (keys: seq<int>)
      ensures Valid() && this.keys == keys && cursor == 0
    {
      this.keys := keys;
      cursor := 0;
    }

    function HasNext(): (b: bool)
      reads this
      requires Valid()
      ensures b <==> Remaining() != []
    {
      cursor < |keys|
    }

    method Next() returns (key: int)
      requires Valid() && HasNext()
      modifies this
      ensures Valid() && keys == old(keys) && cursor == old(cursor) + 1
      ensures [key] + Remaining() == old(Remaining())
    {
      key := keys[cursor];
      cursor := cursor + 1;
      assert old(Remaining()) == [key] + keys[cursor..];
    }
  }
}
