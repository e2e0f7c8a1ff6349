/** The polling reader over real queues: what `poll` does each time it holds queue_mutex, from taking it (or
    waking up) until it returns or waits (sensors/multihal.cpp:315-363).  The waiting itself, and everything
    the writers do meanwhile, is in PollProtocol.dfy. */
module MultiHal {
  import opened Wrappers
  import opened SensorEvents
  import opened SensorEventQueues
  import opened PollScan

  class SensorsPollContext {
    const queues: seq<SensorEventQueue>
    var nextReadIndex: nat
    const handles: Handles

    ghost predicate Valid()
      reads this, queues, set q | q in queues :: q.mData
    {
      && (nextReadIndex < |queues| || nextReadIndex == |queues| == 0)
      && (forall q :: q in queues ==> q.Valid())
      && (forall i, j :: 0 <= i < j < |queues| ==> queues[i] != queues[j] && queues[i].mData != queues[j].mData)
    }

    ghost function Contents(): (c: seq<seq<Event>>)
      reads this, queues, set q | q in queues :: q.mData
      requires Valid()
      ensures |c| == |queues|
    {
      seq(|queues|, i requires 0 <= i < |queues| reads this, queues, set q | q in queues :: q.mData
                      requires Valid()
                    => queues[i].Contents())
    }

    constructor (queues: seq<SensorEventQueue>, handles: Handles)
      requires forall q :: q in queues ==> q.Valid()
      requires forall i, j :: 0 <= i < j < |queues| ==> queues[i] != queues[j] && queues[i].mData != queues[j].mData
      ensures Valid() && this.queues == queues && this.handles == handles && nextReadIndex == 0
    {
      this.queues := queues;
      this.handles := handles;
      nextReadIndex := 0;
    }

    /** Copy an event into the caller's buffer with its handle made global. */
    method CopyEventRemapHandle(data: array<Event>, at: nat, event: Event, subIndex: int)
      requires at < data.Length
      modifies data
      ensures data[..] == old(data[..])[at := Remapped(handles, subIndex, event)]
      ensures data[at] == if event.kind.MetaData?
                          then event.(metaSensor := GlobalHandle(handles, FullHandle(subIndex, event.metaSensor)))
                          else event.(sensor := GlobalHandle(handles, FullHandle(subIndex, event.sensor)))
    {
      data[at] := event;
      if event.kind == MetaData {
        var full := FullHandle(subIndex, event.metaSensor);
        data[at] := data[at].(metaSensor := GlobalHandle(handles, full));
      } else {
        var full := FullHandle(subIndex, event.sensor);
        data[at] := data[at].(sensor := GlobalHandle(handles, full));
      }
    }

    /** Copy the event; keep it in the buffer only if its sensor is known. */
    method Deliver(data: array<Event>, eventsRead: nat, event: Event, queue: nat) returns (newEventsRead: nat)
      requires eventsRead < data.Length
      modifies data
      ensures eventsRead <= newEventsRead <= data.Length
      ensures data[..newEventsRead] == old(data[..eventsRead]) + Upstream(handles, [Taken(queue, event)])
      ensures forall k :: eventsRead < k < data.Length ==> data[k] == old(data[k])
    {
      hide Remapped;
      hide Upstream;
      UpstreamOfOne(handles, Taken(queue, event));
      CopyEventRemapHandle(data, eventsRead, event, queue);
      newEventsRead := eventsRead;
      if data[eventsRead].sensor != UNKNOWN_HANDLE {
        newEventsRead := newEventsRead + 1;
      }
    }

    /** Remove the head of one queue, leaving the others alone. */
    method DequeueFrom(i: nat)
      requires Valid() && i < |queues| && Contents()[i] != []
      modifies queues[i]
      ensures Valid()
      ensures Contents() == old(Contents())[i := old(Contents())[i][1..]]
    {
      ghost var was := Contents();
      queues[i].Dequeue();
      assert Valid();
      forall k | 0 <= k < |queues|
        ensures Contents()[k] == was[i := was[i][1..]][k]
      {
      }
    }

    /** The body of the inner loop: look at the next queue, take at most one event from it, move on. */
    method Visit(data: array<Event>, empties: nat, eventsRead: nat, ghost s: Scan)
      returns (newEmpties: nat, newEventsRead: nat)
      requires Valid() && nextReadIndex < |queues| && eventsRead < data.Length
      requires forall q :: q in queues ==> q.mData != data
      requires s.queues == Contents() && s.next == nextReadIndex && s.empties == empties
      requires s.delivered == data[..eventsRead]
      modifies this`nextReadIndex, data, queues[nextReadIndex]
      ensures Valid()
      ensures var s' := Step(handles, s);
              && Contents() == s'.queues && nextReadIndex == s'.next && newEmpties == s'.empties
              && eventsRead <= newEventsRead <= data.Length
              && data[..newEventsRead] == s'.delivered
      ensures forall k :: eventsRead < k < data.Length ==> data[k] == old(data[k])
    {
      hide Upstream;
      newEmpties, newEventsRead := empties, eventsRead;
      var queue := queues[nextReadIndex];
      assert queue.Contents() == Contents()[nextReadIndex];
      var event := queue.Peek();
      if event == None {
        newEmpties := newEmpties + 1;
      } else {
        newEmpties := 0;
        newEventsRead := Deliver(data, eventsRead, queue.mData[event.value], nextReadIndex);
        DequeueFrom(nextReadIndex);
      }
      nextReadIndex := (nextReadIndex + 1) % |queues|;
    }

    /** The inner loop of `poll`. */
    method Scan(data: array<Event>, maxReads: int) returns (eventsRead: nat, ghost end: Scan)
      requires Valid() && maxReads <= data.Length
      requires forall q :: q in queues ==> q.mData != data
      modifies this`nextReadIndex, data, queues
      ensures Valid()
      ensures end == Run(handles, PollScan.Scan(old(Contents()), old(nextReadIndex), 0, [], []), maxReads)
      ensures ScanResult(handles, old(Contents()), maxReads, end)
      ensures Contents() == end.queues && nextReadIndex == end.next
      ensures eventsRead <= data.Length && data[..eventsRead] == end.delivered
      ensures forall k :: eventsRead < k < data.Length ==> data[k] == old(data[k])
    {
      ghost var origin := Contents();
      ghost var start := PollScan.Scan(origin, nextReadIndex, 0, [], []);
      ghost var s := start;
      assert ScanProgress(handles, origin, maxReads, start);
      var empties := 0;
      eventsRead := 0;
      while empties < |queues| && eventsRead < maxReads
        invariant Valid()
        invariant s.queues == Contents() && s.next == nextReadIndex && s.empties == empties
        invariant eventsRead <= data.Length && data[..eventsRead] == s.delivered
        invariant forall k :: eventsRead < k < data.Length ==> data[k] == old(data[k])
        invariant ScanProgress(handles, origin, maxReads, s)
        invariant Run(handles, s, maxReads) == Run(handles, start, maxReads)
        decreases Queued(s.queues), |queues| - empties
      {
        StepDecreases(handles, s);
        StepKeepsProgress(handles, origin, maxReads, s);
        empties, eventsRead := Visit(data, empties, eventsRead, s);
        s := Step(handles, s);
      }
      end := s;
      RunMeetsResult(handles, origin, maxReads, s);
    }
  }
}
