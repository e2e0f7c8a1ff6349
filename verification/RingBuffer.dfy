/** The value of a `SensorEventQueue`: a circular buffer whose readable records are the `size` slots from
    `start` on.  The class in SensorEventQueue.dfy and the thread protocol in PollProtocol.dfy both work on
    this value, so the facts proved here hold for each of them. */
module RingBuffer {

  function Min(a: int, b: int): int {
    if a <= b then a else b
  }

  datatype Ring<T> = Ring(data: seq<T>, start: nat, size: nat) {

    ghost predicate Valid() {
      && size <= |data|
      && (start < |data| || (start == 0 && |data| == 0))
    }

    /** The array index of the i-th record counted from `start`. */
    function Slot(i: nat): nat
      requires |data| > 0
    {
      (start + i) % |data|
    }

    /** The readable records, oldest first. */
    ghost function Contents(): (s: seq<T>)
      requires Valid()
      ensures |s| == size
    {
      seq(size, i requires 0 <= i < size => data[Slot(i)])
    }

    /** `[first, first + length)` lies inside the array, starts right after the last readable record and is
        no longer than the free space.  This is what a writer that has reserved a region relies on. */
    ghost predicate IsWritable(first: nat, length: nat) {
      && |data| > 0
      && first == Slot(size)
      && first + length <= |data|
      && size + length <= |data|
    }

    /** The length of the region a writer gets: the least of the request, the room up to the end of the array and the
        free space, in one piece. */
    function WritableLength(requested: int): nat
      requires size <= |data|
    {
      if size == |data| || requested <= 0 then 0
      else Min(requested, Min(|data| - Slot(size), |data| - size))
    }

    /** Free the oldest record's slot; a no-op on an empty ring. */
    function Dequeued(): Ring<T> {
      if size == 0 || |data| == 0 then this else this.(size := size - 1, start := Slot(1))
    }

    /** Store one record in a slot, without marking it readable. */
    function Filled(slot: nat, x: T): Ring<T>
      requires slot < |data|
    {
      this.(data := data[slot := x])
    }

    /** Make `count` more records readable. */
    function Committed(count: nat): Ring<T> {
      this.(size := size + count)
    }
  }

  lemma ModBelowTwice(x: nat, n: nat)
    requires 0 < n && x < 2 * n
    ensures x % n == if x < n then x else x - n
  {
  }

  /** Slots of different records differ. */
  lemma SlotsInjective<T>(r: Ring<T>, i: nat, j: nat)
    requires r.Valid() && i < j < |r.data|
    ensures r.Slot(i) != r.Slot(j)
  {
    ModBelowTwice(r.start + i, |r.data|);
    ModBelowTwice(r.start + j, |r.data|);
  }

  /** A writable region is the run of slots of the records still to come: no index wraps inside it. */
  lemma RegionSlots<T>(r: Ring<T>, first: nat, length: nat, i: nat)
    requires r.Valid() && r.IsWritable(first, length) && i < length
    ensures r.Slot(r.size + i) == first + i
  {
    ModBelowTwice(r.start + r.size, |r.data|);
    ModBelowTwice(r.start + r.size + i, |r.data|);
  }

  /** The writer's region and the readable records never share a slot. */
  lemma RegionDisjointFromReadable<T>(r: Ring<T>, first: nat, length: nat, i: nat)
    requires r.Valid() && r.IsWritable(first, length) && i < r.size
    ensures !(first <= r.Slot(i) < first + length)
  {
    if first <= r.Slot(i) < first + length {
      var k := r.Slot(i) - first;
      RegionSlots(r, first, length, k);
      SlotsInjective(r, i, r.size + k);
      assert false;
    }
  }

  /** Storing into the writer's region leaves the readable records as they are. */
  lemma FillKeepsContents<T>(r: Ring<T>, first: nat, length: nat, slot: nat, x: T)
    requires r.Valid() && r.IsWritable(first, length) && first <= slot < first + length
    ensures r.Filled(slot, x).Valid() && r.Filled(slot, x).IsWritable(first, length)
    ensures r.Filled(slot, x).Contents() == r.Contents()
  {
    forall i | 0 <= i < r.size
      ensures r.Filled(slot, x).Contents()[i] == r.Contents()[i]
    {
      RegionDisjointFromReadable(r, first, length, i);
    }
  }

  /** Committing the first `count` slots of the region appends exactly the records stored there. */
  lemma CommitAppends<T>(r: Ring<T>, first: nat, length: nat, count: nat)
    requires r.Valid() && r.IsWritable(first, length) && count <= length
    ensures r.Committed(count).Valid()
    ensures r.Committed(count).Contents() == r.Contents() + r.data[first..first + count]
  {
    var r' := r.Committed(count);
    forall i | 0 <= i < r'.size
      ensures r'.Contents()[i] == (r.Contents() + r.data[first..first + count])[i]
    {
      if i >= r.size {
        RegionSlots(r, first, length, i - r.size);
      }
    }
  }

  /** Dequeuing drops the head and leaves the writer's outstanding region where it was. */
  lemma DequeueDropsHead<T>(r: Ring<T>)
    requires r.Valid() && r.size > 0
    ensures r.Dequeued().Valid() && r.Dequeued().data == r.data
    ensures r.Contents()[0] == r.data[r.start]
    ensures r.Dequeued().Contents() == r.Contents()[1..]
    ensures forall first: nat, length: nat ::
              r.IsWritable(first, length) ==> r.Dequeued().IsWritable(first, length)
  {
    var r' := r.Dequeued();
    ModBelowTwice(r.start, |r.data|);
    ModBelowTwice(r.start + 1, |r.data|);
    forall i | 0 <= i <= r'.size
      ensures r'.Slot(i) == r.Slot(i + 1)
    {
      ModBelowTwice(r.start + i + 1, |r.data|);
      ModBelowTwice(r'.start + i, |r.data|);
    }
  }

  /** The closed form of the region's length is the best possible: one slot more would leave the array, exceed
      the request or reach the oldest readable record. */
  lemma RegionIsMaximal<T>(r: Ring<T>, requested: int)
    requires r.Valid() && r.size < |r.data| && requested > 0
    ensures var first, length := r.Slot(r.size), r.WritableLength(requested);
            && 1 <= length <= requested
            && r.IsWritable(first, length)
            && (length == requested || first + length == |r.data| || (r.size > 0 && first + length == r.start))
  {
    ModBelowTwice(r.start + r.size, |r.data|);
  }
}
