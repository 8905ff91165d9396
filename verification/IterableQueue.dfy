/** The single-producer single-consumer ring that holds the latency buffer. One slot is always
    kept free, so that equal indices mean "empty". */
module IterableQueueModel {
  import opened Elements

  /** A slot of raw memory: nothing constructed in it, or one element. */
  datatype Slot = Raw | Built(value: Element)

  /** Iterators are small values that are copied around; the past-the-end iterator is the largest
      32-bit index. */
  datatype Iterator = Iterator(index: nat)

  const END_INDEX: nat := 0xFFFF_FFFF
  const MAX_SIZE: nat := 0x8000_0000

  /** The index `k` slots after `from` on a ring of `size` slots. */
  function Hop(from: nat, k: nat, size: nat): (r: nat)
    requires from < size && k <= size
    ensures r < size
  {
    if from + k < size then from + k else from + k - size
  }

  /** How many slots `to` lies after `from` on a ring of `size` slots. */
  function Distance(from: nat, to: nat, size: nat): (r: nat)
    requires from < size && to < size
    ensures r < size && Hop(from, r, size) == to
  {
    if from <= to then to - from else size + to - from
  }

  /** Whether an iterator index stands on a stored element, as the two indices tell it. */
  predicate GoodIndex(index: nat, readIndex: nat, writeIndex: nat) {
    && index != END_INDEX
    && (|| (index >= readIndex && index < writeIndex)
        || (index >= readIndex && writeIndex < readIndex)
        || (writeIndex < readIndex && index < readIndex && index < writeIndex))
  }

  /** The slot after `from`. */
  function After(from: nat, size: nat): (next: nat)
    requires from < size
    ensures next < size
  {
    if from + 1 == size then 0 else from + 1
  }

  /** Counted from one slot later, a slot is one step closer. */
  lemma NextDistance(from: nat, i: nat, size: nat)
    requires from < size && i < size && 2 <= size
    ensures Distance(After(from, size), i, size) == if i == from then size - 1 else Distance(from, i, size) - 1
  {
  }

  lemma NextHop(from: nat, k: nat, size: nat)
    requires from < size && k < size
    ensures Hop(After(from, size), k, size) == Hop(from, k + 1, size)
    ensures k + 1 < size ==> Hop(from, k + 1, size) != from
  {
  }

  class IterableQueue {
    var records: array<Slot>
    var readIndex: nat
    var writeIndex: nat
    var overflowCtr: nat

    ghost predicate Indexed()
      reads this
    {
      2 <= records.Length < MAX_SIZE && readIndex < records.Length && writeIndex < records.Length
    }

    /** An element is constructed in exactly the slots from the read index up to the write index. */
    ghost predicate Valid()
      reads this, records
    {
      && Indexed()
      && forall i | 0 <= i < records.Length ::
           records[i].Built? <==> Distance(readIndex, i, records.Length) < Occupancy()
    }

    /** Number of slots. */
    function Size(): nat
      reads this
    {
      records.Length
    }

    /** Number of usable slots. */
    function Capacity(): int
      reads this
    {
      records.Length - 1
    }

    /** The signed difference of the two indices, wrapped. */
    function Occupancy(): (r: nat)
      requires Indexed()
      reads this
      ensures r < records.Length && Hop(readIndex, r, records.Length) == writeIndex
    {
      var ret: int := writeIndex - readIndex;
      if ret < 0 then ret + records.Length else ret
    }

    /** The slot of the k-th stored element; for k equal to the occupancy, the next free slot. */
    function SlotOf(k: nat): (r: nat)
      requires Indexed() && k <= records.Length
      reads this
      ensures r < records.Length
    {
      Hop(readIndex, k, records.Length)
    }

    /** The stored elements, oldest first. */
    ghost function Contents(): (s: seq<Element>)
      requires Valid()
      reads this, records
      ensures |s| == Occupancy()
      ensures forall k | 0 <= k < |s| :: records[SlotOf(k)] == Built(s[k])
    {
      seq(Occupancy(), k requires Valid() && 0 <= k < Occupancy() reads this, records => records[SlotOf(k)].value)
    }

    /** `c` lies in the ring from the read index to the slot before the write index. */
    ghost predicate Holds(c: seq<Element>)
      reads this, records
    {
      && Indexed()
      && |c| == Occupancy()
      && forall k | 0 <= k < |c| :: records[Hop(readIndex, k, records.Length)] == Built(c[k])
    }

    /** Where the contents lie, and where the oldest and the newest element are. */
    lemma Layout()
      requires Valid()
      ensures Holds(Contents())
      ensures Contents() == [] <==> readIndex == writeIndex
      ensures Contents() != [] ==>
                && records[readIndex] == Built(Contents()[0])
                && Hop(readIndex, |Contents()| - 1, records.Length)
                   == if writeIndex == 0 then records.Length - 1 else writeIndex - 1
    {
      forall k | 0 <= k < |Contents()| ensures records[Hop(readIndex, k, records.Length)] == Built(Contents()[k]) {
        assert records[SlotOf(k)] == Built(Contents()[k]);
      }
      if Contents() != [] {
        assert Hop(readIndex, 0, records.Length) == readIndex;
      }
    }

    lemma ContentsAre(c: seq<Element>)
      requires Valid() && Holds(c)
      ensures Contents() == c
    {
      forall k | 0 <= k < |c| ensures Contents()[k] == c[k] {
        assert records[SlotOf(k)] == Built(c[k]);
      }
    }

    /** The ring held `c`, and then its oldest element was destroyed and the read index moved on. */
    lemma FirstIsGone(c: seq<Element>, first: nat)
      requires Indexed() && first < records.Length && readIndex == After(first, records.Length)
      requires c != [] && |c| == Distance(first, writeIndex, records.Length)
      requires forall k | 1 <= k < |c| :: records[Hop(first, k, records.Length)] == Built(c[k])
      requires forall i | 0 <= i < records.Length ::
                 records[i].Built? <==> i != first && Distance(first, i, records.Length) < |c|
      ensures Valid() && Contents() == c[1..]
    {
      var size := records.Length;
      NextDistance(first, writeIndex, size);
      forall i | 0 <= i < size ensures records[i].Built? <==> Distance(readIndex, i, size) < Occupancy() {
        NextDistance(first, i, size);
      }
      forall k | 0 <= k < |c| - 1 ensures records[Hop(readIndex, k, size)] == Built(c[1..][k]) {
        NextHop(first, k, size);
      }
      ContentsAre(c[1..]);
    }

    /** The ring held `c`, and then an element was constructed in the slot `last` behind it and the write
        index moved on. */
    lemma LastIsNew(c: seq<Element>, e: Element, last: nat)
      requires Indexed() && last < records.Length && writeIndex == After(last, records.Length) != readIndex
      requires |c| == Distance(readIndex, last, records.Length) && records[last] == Built(e)
      requires forall k | 0 <= k < |c| :: records[Hop(readIndex, k, records.Length)] == Built(c[k])
      requires forall i | 0 <= i < records.Length && i != last ::
                 records[i].Built? <==> Distance(readIndex, i, records.Length) < |c|
      ensures Valid() && Contents() == c + [e]
    {
      assert Occupancy() == |c| + 1;
      forall i | 0 <= i < records.Length
        ensures records[i].Built? <==> Distance(readIndex, i, records.Length) < |c| + 1
      {
        assert Distance(readIndex, i, records.Length) == |c| <==> i == last;
      }
      ContentsAre(c + [e]);
    }

    constructor (size: nat)
      requires 2 <= size < MAX_SIZE
      ensures Valid() && fresh(records) && records.Length == size
      ensures Contents() == [] && overflowCtr == 0 && readIndex == 0
    {
      records := new Slot[size](_ => Raw);
      readIndex, writeIndex, overflowCtr := 0, 0, 0;
    }

    /** Adds an element at the back unless only the reserved slot is left. */
    method Write(record: Element) returns (ok: bool)
      requires Valid()
      modifies this, records
      ensures Valid() && records == old(records) && readIndex == old(readIndex)
      ensures ok <==> |old(Contents())| < Capacity()
      ensures Contents() == if ok then old(Contents()) + [record] else old(Contents())
      ensures overflowCtr == old(overflowCtr) + (if ok then 0 else 1)
    {
      var currentWrite := writeIndex;
      var nextRecord := currentWrite + 1;
      if nextRecord == records.Length {
        nextRecord := 0;
      }
      if nextRecord != readIndex {
        ghost var c := Contents();
        Layout();
        assert forall k | 0 <= k < |c| :: Hop(readIndex, k, records.Length) != currentWrite;
        records[currentWrite] := Built(record);
        writeIndex := nextRecord;
        LastIsNew(c, record, currentWrite);
        return true;
      }
      overflowCtr := overflowCtr + 1;
      return false;
    }

    /** Moves the oldest element out, unless the queue is empty. */
    method Read() returns (found: bool, record: Element)
      requires Valid()
      modifies this, records
      ensures Valid() && records == old(records) && overflowCtr == old(overflowCtr)
      ensures found <==> old(Contents()) != []
      ensures found ==> record == old(Contents())[0] && Contents() == old(Contents())[1..]
      ensures !found ==> Contents() == [] && readIndex == old(readIndex)
    {
      record := Element(0, []);
      var currentRead := readIndex;
      if currentRead == writeIndex {
        return false, record;
      }
      var nextRecord := currentRead + 1;
      if nextRecord == records.Length {
        nextRecord := 0;
      }
      ghost var c := Contents();
      Layout();
      record := records[currentRead].value;
      records[currentRead] := Raw;
      readIndex := nextRecord;
      FirstIsGone(c, currentRead);
      return true, record;
    }

    method PopFront()
      requires Valid() && Contents() != []
      modifies this, records
      ensures Valid() && records == old(records) && overflowCtr == old(overflowCtr)
      ensures writeIndex == old(writeIndex)
      ensures Contents() == old(Contents())[1..]
    {
      var currentRead := readIndex;
      assert currentRead != writeIndex;
      var nextRecord := currentRead + 1;
      if nextRecord == records.Length {
        nextRecord := 0;
      }
      ghost var c := Contents();
      Layout();
      records[currentRead] := Raw;
      readIndex := nextRecord;
      FirstIsGone(c, currentRead);
    }

    method Pop(x: nat)
      requires Valid() && x <= |Contents()|
      modifies this, records
      ensures Valid() && records == old(records) && overflowCtr == old(overflowCtr)
      ensures writeIndex == old(writeIndex)
      ensures Contents() == old(Contents())[x..]
    {
      var i := 0;
      while i < x
        invariant i <= x && Valid() && records == old(records) && overflowCtr == old(overflowCtr)
        invariant writeIndex == old(writeIndex)
        invariant Contents() == old(Contents())[i..]
      {
        PopFront();
        i := i + 1;
      }
    }

    method Flush()
      requires Valid()
      modifies this, records
      ensures Valid() && records == old(records) && overflowCtr == old(overflowCtr)
      ensures Contents() == [] && writeIndex == old(writeIndex)
    {
      Pop(Occupancy());
    }

    /** Touches every usable slot once by filling an empty queue and flushing it. */
    method PrefillTask()
      requires Valid() && Contents() == []
      modifies this, records
      ensures Valid() && records == old(records) && Contents() == []
      ensures overflowCtr == old(overflowCtr)
      ensures writeIndex == Hop(old(writeIndex), Capacity(), Size())
    {
      var i := 0;
      while i < records.Length - 1
        invariant i <= records.Length - 1 && Valid() && records == old(records)
        invariant readIndex == old(readIndex) == old(writeIndex) && |Contents()| == i
        invariant overflowCtr == old(overflowCtr)
      {
        var _ := Write(Element(0, []));
        i := i + 1;
      }
      Flush();
    }

    /** Destructs whatever is left in the queue before its memory is released. */
    method FreeMemory()
      requires Valid()
      modifies records
      ensures forall i | 0 <= i < records.Length :: records[i] == Raw
    {
      var read: nat, end := readIndex, writeIndex;
      while read != end
        invariant read < records.Length
        invariant Distance(read, end, records.Length) <= Occupancy()
        invariant forall i | 0 <= i < records.Length ::
                    records[i].Built? <==> Distance(read, i, records.Length) < Distance(read, end, records.Length)
        decreases Distance(read, end, records.Length)
      {
        records[read] := Raw;
        read := read + 1;
        if read == records.Length {
          read := 0;
        }
      }
    }

    /** Replaces the memory by a fresh one of the configured size, optionally touching every page. */
    method Conf(size: nat, preallocation: bool)
      requires Valid() && 2 <= size < MAX_SIZE
      modifies this, records
      ensures Valid() && fresh(records) && records.Length == size
      ensures Contents() == [] && overflowCtr == old(overflowCtr)
      ensures forall i | 0 <= i < old(records.Length) :: old(records)[i] == Raw
    {
      FreeMemory();
      records := new Slot[size](_ => Raw);
      readIndex, writeIndex := 0, 0;
      if preallocation {
        PrefillTask();
      }
    }

    predicate IsEmpty()
      requires Valid()
      reads this, records
      ensures IsEmpty() <==> Contents() == []
    {
      readIndex == writeIndex
    }

    /** True exactly when the next write would fail. */
    predicate IsFull()
      requires Valid()
      reads this, records
      ensures IsFull() <==> |Contents()| == Capacity()
    {
      var nextRecord := if writeIndex + 1 == records.Length then 0 else writeIndex + 1;
      nextRecord == readIndex
    }

    /** The slot of the oldest element, or past-the-end for the null pointer. */
    function Front(): (it: Iterator)
      requires Valid()
      reads this, records
      ensures Contents() == [] <==> it == End()
      ensures Contents() != [] ==> it.index < Size() && Deref(it) == Built(Contents()[0])
    {
      if readIndex == writeIndex then End() else Iterator(readIndex)
    }

    /** The slot of the newest element, or past-the-end for the null pointer. */
    function Back(): (it: Iterator)
      requires Valid()
      reads this, records
      ensures Contents() == [] <==> it == End()
      ensures Contents() != [] ==> it.index < Size() && Deref(it) == Built(Contents()[|Contents()| - 1])
    {
      if writeIndex == readIndex then
        End()
      else
        var last := if writeIndex == 0 then records.Length - 1 else writeIndex - 1;
        assert SlotOf(Occupancy() - 1) == last;
        Iterator(last)
    }

    // Iteration

    function End(): Iterator {
      Iterator(END_INDEX)
    }

    function Begin(): Iterator
      reads this
    {
      if readIndex == writeIndex then End() else Iterator(readIndex)
    }

    predicate Good(it: Iterator)
      reads this
    {
      GoodIndex(it.index, readIndex, writeIndex)
    }

    function Deref(it: Iterator): Slot
      requires it.index < Size()
      reads this, records
    {
      records[it.index]
    }

    /** Pre-increment: a step around the ring from a good position, then past-the-end if the new
        position is not good. */
    function Increment(it: Iterator): Iterator
      requires Indexed()
      reads this
    {
      var next := if Good(it) then
                    if it.index + 1 == records.Length then Iterator(0) else Iterator(it.index + 1)
                  else it;
      if Good(next) then next else End()
    }

    /** The iterator of the k-th stored element, past-the-end after the last one. */
    function Nth(k: nat): Iterator
      requires Indexed() && k <= Occupancy()
      reads this
    {
      if k < Occupancy() then Iterator(SlotOf(k)) else End()
    }

    /** `good` holds exactly on the live circular interval. Beyond the last slot it is wrong on a
        wrapped queue, so no iterator but past-the-end may point there. */
    lemma GoodExactlyWhenLive(it: Iterator)
      requires Indexed()
      ensures it.index < Size() ==> (Good(it) <==> Distance(readIndex, it.index, Size()) < Occupancy())
      ensures it.index < Size() ==> (Good(it) <==> exists k | 0 <= k < Occupancy() :: it.index == SlotOf(k))
      ensures it.index >= Size() ==> (Good(it) <==> it != End() && writeIndex < readIndex)
    {
      if it.index < Size() && Good(it) {
        assert it.index == SlotOf(Distance(readIndex, it.index, records.Length));
      }
    }

    /** Each increment goes to the next position, and the one from the newest element past the end. */
    lemma IncrementIsNext(k: nat)
      requires Indexed() && k < Occupancy()
      ensures Good(Nth(k)) && Nth(k) != End() && Increment(Nth(k)) == Nth(k + 1)
    {
      GoodExactlyWhenLive(Nth(k));
      GoodExactlyWhenLive(Iterator(SlotOf(k + 1)));
      assert Distance(readIndex, SlotOf(k + 1), records.Length) == k + 1;
    }

    /** Iteration is exact: it starts at the oldest element, each increment reaches the element
        after it, and the increment of the newest element reaches past-the-end. */
    lemma IncrementVisitsInOrder(k: nat)
      requires Valid() && k < Occupancy()
      ensures Begin() == Nth(0)
      ensures Good(Nth(k)) && Deref(Nth(k)) == Built(Contents()[k])
      ensures Increment(Nth(k)) == Nth(k + 1)
      ensures Nth(k) != End() && !Good(End()) && Increment(End()) == End()
    {
      IncrementIsNext(k);
      assert records[SlotOf(k)] == Built(Contents()[k]);
    }

    /** An iterator on the k-th position of `c`: good while an element is there, and then on that element. */
    ghost predicate Shows(c: seq<Element>, k: nat, iter: Iterator)
      reads this, records
    {
      && Indexed() && k <= |c| == Occupancy() && iter == Nth(k)
      && (Good(iter) <==> k < |c|)
      && (k < |c| ==> iter.index < Size() && Deref(iter) == Built(c[k]))
    }

    lemma NthShows(c: seq<Element>, k: nat)
      requires Holds(c) && k <= |c|
      ensures Shows(c, k, Nth(k))
    {
      if k < |c| {
        IncrementIsNext(k);
      }
    }

    /** The iterator goes from one stored element to the next. */
    method Advance(iter: Iterator, ghost c: seq<Element>, ghost k: nat) returns (next: Iterator)
      requires Holds(c) && k < |c| && Shows(c, k, iter)
      ensures Shows(c, k + 1, next)
    {
      IncrementIsNext(k);
      next := Increment(iter);
      NthShows(c, k + 1);
    }

    /** Walking from begin() to end() meets every stored element once, oldest first. */
    method Visit() returns (visited: seq<Element>)
      requires Valid()
      ensures visited == Contents()
    {
      visited := [];
      var iter := Begin();
      ghost var c, k := Contents(), 0;
      assert iter == Nth(0);
      while iter != End()
        invariant k <= |c| && iter == Nth(k) && visited == c[..k]
        decreases |c| - k
      {
        IncrementVisitsInOrder(k);
        visited := visited + [Deref(iter).value];
        assert c[..k] + [c[k]] == c[..k + 1];
        iter := Increment(iter);
        k := k + 1;
      }
      assert c[..|c|] == c;
    }
  }
}
