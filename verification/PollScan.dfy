/** One scan of the queues, as `poll` does it with queue_mutex held (sensors/multihal.cpp:345-363): the reader
    goes round the queues from `nextReadIndex`, moving at most one event per step, until every queue in a row
    was empty or the caller's buffer is full. */
module PollScan {
  import opened SensorEvents

  /** An event as it left its queue. */
  datatype Taken = Taken(queue: nat, event: Event)

  /** `delivered` is what has been stored in the caller's buffer; `log` is what has left the queues. */
  datatype Scan = Scan(queues: seq<seq<Event>>, next: nat, empties: nat, delivered: seq<Event>, log: seq<Taken>) {

    ghost predicate Valid() {
      && (next < |queues| || next == |queues| == 0)
      && empties <= |queues|
      && forall k :: 1 <= k <= empties ==> queues[Behind(next, k, |queues|)] == []
    }

    predicate Continues(maxReads: int) {
      empties < |queues| && |delivered| < maxReads
    }
  }

  function Advance(next: nat, n: nat): nat
    requires next < n
  {
    (next + 1) % n
  }

  /** The queue visited `k` steps before `next`. */
  function Behind(next: nat, k: nat, n: nat): (i: nat)
    requires next < n && 1 <= k <= n
    ensures i < n
  {
    if k <= next then next - k else next + n - k
  }

  lemma AdvanceIs(next: nat, n: nat)
    requires next < n
    ensures Advance(next, n) == if next + 1 < n then next + 1 else 0
  {
  }

  /** One iteration of the inner loop. */
  function Step(handles: Handles, s: Scan): Scan
    requires s.next < |s.queues|
  {
    var q := s.queues[s.next];
    var next := Advance(s.next, |s.queues|);
    if q == [] then
      s.(empties := s.empties + 1, next := next)
    else
      Scan(s.queues[s.next := q[1..]],
           next,
           0,
           s.delivered + Upstream(handles, [Taken(s.next, q[0])]),
           s.log + [Taken(s.next, q[0])])
  }

  /** What a caller gets of the events taken: all of them remapped, in order, without the dropped ones. */
  function Upstream(handles: Handles, log: seq<Taken>): seq<Event> {
    if log == [] then []
    else
      var last := log[|log| - 1];
      Upstream(handles, log[..|log| - 1])
      + if Dropped(handles, last.queue, last.event) then [] else [Remapped(handles, last.queue, last.event)]
  }

  /** The events taken from one queue, in order. */
  function TakenFrom(log: seq<Taken>, queue: nat): seq<Event> {
    if log == [] then []
    else
      var last := log[|log| - 1];
      TakenFrom(log[..|log| - 1], queue) + if last.queue == queue then [last.event] else []
  }

  function Queued(queues: seq<seq<Event>>): nat {
    if queues == [] then 0 else |queues[0]| + Queued(queues[1..])
  }

  lemma {:induction false} QueuedUpdate(queues: seq<seq<Event>>, i: nat, q: seq<Event>)
    requires i < |queues|
    ensures Queued(queues[i := q]) == Queued(queues) - |queues[i]| + |q|
  {
    if i == 0 {
      assert queues[0 := q][1..] == queues[1..];
    } else {
      assert queues[i := q][1..] == queues[1..][i - 1 := q];
      QueuedUpdate(queues[1..], i - 1, q);
    }
  }

  lemma UpstreamGrows(handles: Handles, log: seq<Taken>, t: Taken)
    ensures Upstream(handles, log + [t]) == Upstream(handles, log) + Upstream(handles, [t])
    ensures |Upstream(handles, [t])| <= 1
  {
  }

  lemma UpstreamOfOne(handles: Handles, t: Taken)
    ensures Upstream(handles, [t])
         == if Dropped(handles, t.queue, t.event) then [] else [Remapped(handles, t.queue, t.event)]
  {
  }

  /** Every step makes progress: it consumes an event or leaves one queue fewer to find empty. */
  lemma StepDecreases(handles: Handles, s: Scan)
    requires s.next < |s.queues| && s.empties < |s.queues|
    ensures var s' := Step(handles, s);
            || Queued(s'.queues) < Queued(s.queues)
            || (s'.queues == s.queues && |s'.queues| - s'.empties < |s.queues| - s.empties)
  {
    if s.queues[s.next] != [] {
      QueuedUpdate(s.queues, s.next, s.queues[s.next][1..]);
    }
  }

  lemma StepKeepsValid(handles: Handles, s: Scan)
    requires s.Valid() && s.empties < |s.queues|
    ensures Step(handles, s).Valid()
  {
    var s' := Step(handles, s);
    AdvanceIs(s.next, |s.queues|);
    forall k | 1 <= k <= s'.empties
      ensures s'.queues[Behind(s'.next, k, |s'.queues|)] == []
    {
      if k > 1 {
        assert Behind(s'.next, k, |s.queues|) == Behind(s.next, k - 1, |s.queues|);
      }
    }
  }

  /** A full round of empty queues means that every queue is empty. */
  lemma FullRoundMeansAllEmpty(s: Scan)
    requires s.Valid() && s.empties == |s.queues|
    ensures forall i :: 0 <= i < |s.queues| ==> s.queues[i] == []
  {
    forall i | 0 <= i < |s.queues|
      ensures s.queues[i] == []
    {
      var k := if i < s.next then s.next - i else s.next + |s.queues| - i;
      assert Behind(s.next, k, |s.queues|) == i;
    }
  }

  /** The whole inner loop. */
  function Run(handles: Handles, s: Scan, maxReads: int): Scan
    requires s.Valid()
    decreases Queued(s.queues), |s.queues| - s.empties
  {
    if !s.Continues(maxReads) then s
    else
      StepDecreases(handles, s);
      StepKeepsValid(handles, s);
      Run(handles, Step(handles, s), maxReads)
  }

  /** Conservation: what was ever in each queue is what has been taken from it followed by what is left. */
  ghost predicate Conserved(origin: seq<seq<Event>>, log: seq<Taken>, queues: seq<seq<Event>>) {
    && |queues| == |origin|
    && forall q :: 0 <= q < |queues| ==> origin[q] == TakenFrom(log, q) + queues[q]
  }

  /** What holds between two steps of a scan. */
  ghost predicate ScanProgress(handles: Handles, origin: seq<seq<Event>>, maxReads: int, s: Scan) {
    && s.Valid()
    && Conserved(origin, s.log, s.queues)
    && s.delivered == Upstream(handles, s.log)
    && (0 <= maxReads ==> |s.delivered| <= maxReads)
  }

  /** What a whole scan started with an empty buffer and log does, said without following its steps: it takes
      a prefix of each queue, hands the caller exactly the undropped ones of those events in the order taken,
      never more than fit, and stops short of that only when nothing is left anywhere. */
  ghost predicate ScanResult(handles: Handles, origin: seq<seq<Event>>, maxReads: int, s: Scan) {
    && ScanProgress(handles, origin, maxReads, s)
    && (|s.delivered| < maxReads ==> forall q :: 0 <= q < |s.queues| ==> s.queues[q] == [])
  }

  /** Taking the head of one queue conserves all of them. */
  lemma TakeConserves(origin: seq<seq<Event>>, log: seq<Taken>, queues: seq<seq<Event>>, q: nat)
    requires Conserved(origin, log, queues) && q < |queues| && queues[q] != []
    ensures Conserved(origin, log + [Taken(q, queues[q][0])], queues[q := queues[q][1..]])
  {
  }

  lemma StepKeepsProgress(handles: Handles, origin: seq<seq<Event>>, maxReads: int, s: Scan)
    requires ScanProgress(handles, origin, maxReads, s) && s.Continues(maxReads)
    ensures ScanProgress(handles, origin, maxReads, Step(handles, s))
  {
    StepKeepsValid(handles, s);
    if s.queues[s.next] != [] {
      TakeConserves(origin, s.log, s.queues, s.next);
      UpstreamGrows(handles, s.log, Taken(s.next, s.queues[s.next][0]));
    }
  }

  lemma {:induction false} RunMeetsResult(handles: Handles, origin: seq<seq<Event>>, maxReads: int, s: Scan)
    requires ScanProgress(handles, origin, maxReads, s)
    ensures ScanResult(handles, origin, maxReads, Run(handles, s, maxReads))
    decreases Queued(s.queues), |s.queues| - s.empties
  {
    if s.Continues(maxReads) {
      StepDecreases(handles, s);
      StepKeepsProgress(handles, origin, maxReads, s);
      RunMeetsResult(handles, origin, maxReads, Step(handles, s));
    } else if |s.delivered| < maxReads {
      FullRoundMeansAllEmpty(s);
    }
  }
}
