/** A fixed two-dimensional table of entry ids, changed in place. */
module AddrSlots {
  import opened AddrTables

  /** A table of buckets; -1 marks an empty place. Its ghost state is the occupied slots. */
  class SlotTable {
    const cells: array2<int>
    ghost var slots: map<Slot, int>

    ghost predicate Valid()
      reads this, cells
    {
      && (forall b, p {:trigger cells[b, p]} :: 0 <= b < cells.Length0 && 0 <= p < cells.Length1 ==>
            && ((b, p) in slots <==> cells[b, p] != -1)
            && ((b, p) in slots ==> slots[(b, p)] == cells[b, p]))
      && (forall s :: s in slots ==> 0 <= s.0 < cells.Length0 && 0 <= s.1 < cells.Length1)
    }

    constructor (buckets: nat, size: nat)
      ensures Valid() && slots == map[] && fresh(cells)
      ensures cells.Length0 == buckets && cells.Length1 == size
    {
      cells := new int[buckets, size]((b, p) => -1);
      slots := map[];
    }

    method Get(b: int, p: int) returns (v: int)
      requires Valid() && 0 <= b < cells.Length0 && 0 <= p < cells.Length1
      ensures v != -1 <==> (b, p) in slots
      ensures v != -1 ==> slots[(b, p)] == v
    {
      v := cells[b, p];
    }

    method Set(b: int, p: int, v: int)
      requires Valid() && 0 <= b < cells.Length0 && 0 <= p < cells.Length1
      modifies this, cells
      ensures Valid()
      ensures slots == if v == -1 then old(slots) - {(b, p)} else old(slots)[(b, p) := v]
    {
      cells[b, p] := v;
      slots := if v == -1 then slots - {(b, p)} else slots[(b, p) := v];
    }
  }
}
