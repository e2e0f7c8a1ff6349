/** The fixed-size circular queue between one writer thread and the polling reader
    (sensors/SensorEventQueue.cpp, sensors/SensorEventQueue.h). */
module SensorEventQueues {
  import opened Wrappers
  import opened RingBuffer
  import opened SensorEvents

  class SensorEventQueue {
    const mCapacity: nat
    var mStart: nat
    var mSize: nat
    const mData: array<Event>
    /** How often the space-available condition has been broadcast. */
    var spaceBroadcasts: nat

    /** The queue as a value. */
    ghost function Value(): Ring<Event>
      reads this, mData
    {
      Ring(mData[..], mStart, mSize)
    }

    ghost predicate Valid()
      reads this, mData
    {
      mData.Length == mCapacity && Value().Valid()
    }

    ghost function Contents(): seq<Event>
      reads this, mData
      requires Valid()
    {
      Value().Contents()
    }

    constructor (capacity: nat)
      ensures Valid() && fresh(mData)
      ensures mCapacity == capacity && Contents() == [] && spaceBroadcasts == 0
    {
      mCapacity := capacity;
      mStart, mSize := 0, 0;
      mData := new Event[capacity];
      spaceBroadcasts := 0;
    }

    /** Reserve a contiguous region for the writer.  A NULL region is `None`.  Nothing is marked: the same
        region is returned again until records are committed. */
    method GetWritableRegion(requestedLength: int) returns (out: Option<nat>, length: nat)
      requires Valid()
      ensures out == None <==> length == 0
      ensures length == Value().WritableLength(requestedLength)
      ensures length == 0 <==> mSize == mCapacity || requestedLength <= 0
      ensures requestedLength > 0 ==> length <= requestedLength
      ensures out.Some? ==> Value().IsWritable(out.value, length)
    {
      if mSize == mCapacity || requestedLength <= 0 {
        return None, 0;
      }
      var firstWritable := (mStart + mSize) % mCapacity;
      ModBelowTwice(mStart + mSize, mCapacity);
      var lastWritable := firstWritable + requestedLength - 1;
      if lastWritable > mCapacity - 1 {
        lastWritable := mCapacity - 1;
      }
      if firstWritable < mStart && lastWritable >= mStart {
        lastWritable := mStart - 1;
      }
      return Some(firstWritable), lastWritable - firstWritable + 1;
    }

    /** Commit the first `count` records of the region that starts at `first`: they become readable, in order,
        behind those already there. */
    method MarkAsWritten(count: nat, ghost first: nat)
      requires Valid() && Value().IsWritable(first, count)
      modifies this`mSize
      ensures Valid() && Value() == old(Value()).Committed(count)
      ensures Contents() == old(Contents()) + old(mData[first..first + count])
    {
      CommitAppends(Value(), first, count, count);
      mSize := mSize + count;
    }

    /** The index of the oldest readable record, or `None` when there is none. */
    method Peek() returns (out: Option<nat>)
      requires Valid()
      ensures out == None <==> Contents() == []
      ensures out.Some? ==> out.value < mData.Length && mData[out.value] == Contents()[0]
    {
      if mSize == 0 {
        return None;
      }
      ModBelowTwice(mStart, mCapacity);
      return Some(mStart);
    }

    /** Remove exactly the oldest record, and wake the writer if the queue was full. */
    method Dequeue()
      requires Valid()
      modifies this
      ensures Valid() && Value() == old(Value()).Dequeued()
      ensures Contents() == if old(Contents()) == [] then [] else old(Contents())[1..]
      ensures spaceBroadcasts == old(spaceBroadcasts) + (if 0 < old(mSize) == mCapacity then 1 else 0)
      ensures forall first: nat, length: nat ::
                old(Value()).IsWritable(first, length) ==> Value().IsWritable(first, length)
    {
      if mSize == 0 {
        return;
      }
      DequeueDropsHead(Value());
      if mSize == mCapacity {
        spaceBroadcasts := spaceBroadcasts + 1;
      }
      mSize := mSize - 1;
      mStart := (mStart + 1) % mCapacity;
    }
  }
}
