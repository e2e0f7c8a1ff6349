/** What a call of `poll` does from the caller's side, however often it waits and whatever the writers do meanwhile
    (sensors/multihal.cpp:337-377). */
module PollCalls {
  import opened Wrappers
  import opened SensorEvents
  import opened PollScan
  import opened PollProtocol
  import opened PollTheorems
  import opened SensorHandles

  /** The `maxReads` of the call the reader is in. */
  function Limit(r: Reader): Option<int> {
    match r
    case Away => None
    case Scanning(maxReads, _, _) => Some(maxReads)
    case Asleep(maxReads, _) => Some(maxReads)
  }

  predicate NoCall(actions: seq<Action>) {
    forall a :: a in actions ==> !a.CallPoll?
  }

  /** Whichever step it is that ends a call, it hands over at least one event and at most as many as the caller has room
      for, and fewer than that only if every queue is empty; every other step gives the caller nothing, and keeps to
      the caller's limit. */
  lemma OnlyFullHandsReturn(handles: Handles, s: State, a: Action)
    requires Inv(handles, s) && !s.reader.Away? && Enabled(s, a) && InBounds(s, a)
    ensures var s' := Next(handles, s, a);
            if s'.reader.Away?
            then exists r :: s'.returned == s.returned + r && 1 <= |r| <= s.reader.maxReads
                             && (|r| < s.reader.maxReads ==> AllEmpty(s))
            else s'.returned == s.returned && Limit(s'.reader) == Limit(s.reader)
  {
    hide Upstream;
    hide Conserved;
    if a == FinishScan && |s.reader.delivered| < s.reader.maxReads {
      FullRoundMeansAllEmpty(View(s));
      assert forall i :: 0 <= i < |s.queues| ==> Contents(s.queues)[i] == s.queues[i].ring.Contents();
    }
  }

  lemma {:induction false} AwayUntilCalled(handles: Handles, s: State, actions: seq<Action>, s': State)
    requires Inv(handles, s) && Execution(handles, s, actions, s') && s.reader.Away? && NoCall(actions)
    ensures s'.reader.Away?
    decreases |actions|
  {
    if actions != [] {
      assert actions[0] in actions;
      StepInv(handles, s, actions[0]);
      AwayUntilCalled(handles, Next(handles, s, actions[0]), actions[1..], s');
    }
  }

  lemma {:induction false} InsideOneCall(handles: Handles, s: State, actions: seq<Action>, s': State)
    requires Inv(handles, s) && Execution(handles, s, actions, s') && NoCall(actions)
    requires !s.reader.Away? && !s'.reader.Away?
    ensures Inv(handles, s') && s'.returned == s.returned && Limit(s'.reader) == Limit(s.reader)
    decreases |actions|
  {
    hide Inv;
    hide Next;
    if actions != [] {
      assert actions[0] in actions;
      StepInv(handles, s, actions[0]);
      OnlyFullHandsReturn(handles, s, actions[0]);
      var s1 := Next(handles, s, actions[0]);
      if s1.reader.Away? {
        AwayUntilCalled(handles, s1, actions[1..], s');
      } else {
        InsideOneCall(handles, s1, actions[1..], s');
      }
    }
  }

  /** A whole call: poll(data, maxReads) is called, any steps of all the threads follow, and at last one of them takes the
      reader out of the call.  Then the caller has been given between 1 and `maxReads` events, all at that moment, and
      fewer than `maxReads` only because every queue is empty. */
  lemma CallHandsOver(handles: Handles, n: nat, s: State, maxReads: int, actions: seq<Action>, s': State, last: Action)
    requires Reachable(handles, n, s) && s.reader.Away?
    requires Execution(handles, Next(handles, s, CallPoll(maxReads)), actions, s') && NoCall(actions)
    ensures !s'.reader.Away? ==> s'.returned == s.returned
    ensures !s'.reader.Away? && Enabled(s', last) && InBounds(s', last) && Next(handles, s', last).reader.Away? ==>
              exists r :: Next(handles, s', last).returned == s.returned + r && 1 <= |r| <= maxReads
                          && (|r| < maxReads ==> AllEmpty(s'))
  {
    hide Next;
    hide Inv;
    ReachableInv(handles, n, s);
    StepInv(handles, s, CallPoll(maxReads));
    CallStarts(handles, s, maxReads);
    if !s'.reader.Away? {
      InsideOneCall(handles, Next(handles, s, CallPoll(maxReads)), actions, s');
      if Enabled(s', last) && InBounds(s', last) {
        OnlyFullHandsReturn(handles, s', last);
      }
    }
  }

  lemma CallStarts(handles: Handles, s: State, maxReads: int)
    requires s.reader.Away?
    ensures var s1 := Next(handles, s, CallPoll(maxReads));
            s1.reader == Scanning(maxReads, 0, []) && s1.returned == s.returned
  {
  }

  // ---------------------------------------------------------------- from the mutex to the next wait

  /** A scan does the same whatever has been taken before. */
  lemma {:induction false} RunIgnoresLog(handles: Handles, s: Scan, earlier: seq<Taken>, maxReads: int)
    requires s.Valid()
    ensures var r := Run(handles, s, maxReads);
            s.(log := earlier + s.log).Valid()
            && Run(handles, s.(log := earlier + s.log), maxReads) == r.(log := earlier + r.log)
    decreases Queued(s.queues), |s.queues| - s.empties
  {
    var t := s.(log := earlier + s.log);
    if s.Continues(maxReads) {
      StepDecreases(handles, s);
      StepKeepsValid(handles, s);
      RunIgnoresLog(handles, Step(handles, s), earlier, maxReads);
      assert Step(handles, t) == Step(handles, s).(log := earlier + Step(handles, s).log);
    }
  }

  /** The step by which the reader comes to hold the mutex: a call, or waking up inside one, with or without a signal. */
  predicate TakesMutex(s: State, a: Action, maxReads: int) {
    || (s.reader.Away? && a == CallPoll(maxReads))
    || (s.reader.Asleep? && s.reader.maxReads == maxReads && a == WakeReader)
  }

  /** The scan of the queues as they are, with nothing delivered yet. */
  ghost function WholeScan(handles: Handles, s: State, maxReads: int): (end: Scan)
    requires Inv(handles, s)
  {
    Run(handles, Scan(Contents(s.queues), s.nextReadIndex, 0, [], []), maxReads)
  }

  /** From there on the reader scans the queues it found, from where it left off, as if alone.  If that delivers
      anything, the call returns it; if not, the reader goes to sleep, and the call has returned nothing. */
  lemma ScansThenReturnsOrSleeps(handles: Handles, n: nat, s: State, a: Action, maxReads: int,
                                 actions: seq<Action>, s': State)
    requires Reachable(handles, n, s) && TakesMutex(s, a, maxReads)
    requires Execution(handles, Next(handles, s, a), actions, s') && FinishScan !in actions
    ensures Inv(handles, s)
    ensures Enabled(s', FinishScan) ==>
              var end, done := WholeScan(handles, s, maxReads), Next(handles, s', FinishScan);
              && done.reader == (if end.delivered == [] then Asleep(maxReads, false) else Away)
              && done.returned == s.returned + end.delivered
              && done.log == s.log + end.log && done.nextReadIndex == end.next
  {
    hide Conserved;
    hide Upstream;
    ReachableInv(handles, n, s);
    StepInv(handles, s, a);
    var s1 := Next(handles, s, a);
    var start := Scan(Contents(s.queues), s.nextReadIndex, 0, [], []);
    assert View(s1) == start.(log := s.log + start.log);
    ScanIsAtomic(handles, s1, actions, s');
    RunIgnoresLog(handles, start, s.log, maxReads);
  }

  lemma {:induction false} NothingUpstreamMeansDropped(handles: Handles, log: seq<Taken>, q: nat)
    requires Upstream(handles, log) == []
    ensures forall e :: e in TakenFrom(log, q) ==> Dropped(handles, q, e)
  {
    if log != [] {
      NothingUpstreamMeansDropped(handles, log[..|log| - 1], q);
    }
  }

  /** A scan with room delivers something whenever some queue holds an event that is not dropped. */
  lemma ScanDeliversWhatIsThere(handles: Handles, s: State, maxReads: int, q: nat, e: Event)
    requires Inv(handles, s) && 0 < maxReads
    requires q < |s.queues| && e in Contents(s.queues)[q] && !Dropped(handles, q, e)
    ensures WholeScan(handles, s, maxReads).delivered != []
  {
    var start, end := Scan(Contents(s.queues), s.nextReadIndex, 0, [], []), WholeScan(handles, s, maxReads);
    RunMeetsResult(handles, Contents(s.queues), maxReads, start);
    assert Contents(s.queues)[q] == TakenFrom(end.log, q) + end.queues[q];
    if end.delivered == [] {
      NothingUpstreamMeansDropped(handles, end.log, q);
      assert false;
    }
  }

  /** So a call that is made, or woken, while a deliverable event is queued returns from that very scan. */
  lemma EventEndsTheCall(handles: Handles, n: nat, s: State, a: Action, maxReads: int,
                         actions: seq<Action>, s': State, q: nat, e: Event)
    requires Reachable(handles, n, s) && TakesMutex(s, a, maxReads) && 0 < maxReads
    requires Execution(handles, Next(handles, s, a), actions, s') && FinishScan !in actions
    requires q < |s.queues| && s.queues[q].ring.Valid()
    requires e in s.queues[q].ring.Contents() && !Dropped(handles, q, e)
    ensures Enabled(s', FinishScan) ==>
              && Next(handles, s', FinishScan).reader.Away?
              && |Next(handles, s', FinishScan).returned| > |s.returned|
  {
    ScansThenReturnsOrSleeps(handles, n, s, a, maxReads, actions, s');
    assert Contents(s.queues)[q] == s.queues[q].ring.Contents();
    ScanDeliversWhatIsThere(handles, s, maxReads, q, e);
  }

  // ---------------------------------------------------------------- no thread is stuck

  /** From a scan, iterations alone lead to its end. */
  lemma {:induction false} ScanCanFinish(handles: Handles, s: State) returns (actions: seq<Action>, s': State)
    requires Inv(handles, s) && s.reader.Scanning?
    ensures Execution(handles, s, actions, s') && (forall a :: a in actions ==> a == ScanStep)
    ensures Enabled(s', FinishScan)
    ensures Execution(handles, s, actions + [FinishScan], Next(handles, s', FinishScan))
    decreases Queued(View(s).queues), |s.queues| - s.reader.empties
  {
    hide Inv;
    hide Next;
    if Enabled(s, ScanStep) {
      EnabledIsInBounds(handles, s, ScanStep);
      ScanTerminates(handles, s);
      var s1 := Next(handles, s, ScanStep);
      var rest;
      rest, s' := ScanCanFinish(handles, s1);
      actions := [ScanStep] + rest;
      OneMoreAction(handles, s, ScanStep, rest, s');
      OneMoreAction(handles, s, ScanStep, rest + [FinishScan], Next(handles, s', FinishScan));
      assert [ScanStep] + (rest + [FinishScan]) == actions + [FinishScan];
    } else {
      actions, s' := [], s;
      assert Execution(handles, Next(handles, s, FinishScan), [], Next(handles, s, FinishScan));
      OneMoreAction(handles, s, FinishScan, [], Next(handles, s, FinishScan));
      assert [FinishScan] + [] == actions + [FinishScan];
    }
  }

  /** Wherever a call stands, the reader's own steps take it to its return once a deliverable event is queued: a call can
      be made, a sleeper can wake, and from then on nobody else is needed. */
  lemma CallCanReturn(handles: Handles, n: nat, s: State, a: Action, maxReads: int, q: nat, e: Event)
    returns (actions: seq<Action>, s': State)
    requires Reachable(handles, n, s) && TakesMutex(s, a, maxReads) && 0 < maxReads
    requires q < |s.queues| && s.queues[q].ring.Valid()
    requires e in s.queues[q].ring.Contents() && !Dropped(handles, q, e)
    ensures Execution(handles, s, [a] + actions, s') && (forall b :: b in actions ==> b == ScanStep || b == FinishScan)
    ensures s'.reader.Away? && |s'.returned| > |s.returned|
  {
    ReachableInv(handles, n, s);
    StepInv(handles, s, a);
    var steps, end := ScanCanFinish(handles, Next(handles, s, a));
    actions, s' := steps + [FinishScan], Next(handles, end, FinishScan);
    OneMoreAction(handles, s, a, actions, s');
    EventEndsTheCall(handles, n, s, a, maxReads, steps, end, q, e);
  }

  /** A writer without a region whose queue has space, asleep or not, can bring one event from its device to its queue, by
      its own steps; a sleeping reader is then signalled. */
  lemma WriterCanCommit(handles: Handles, n: nat, s: State, w: nat, e: Event) returns (s': State)
    requires Reachable(handles, n, s) && !s.reader.Scanning? && w < |s.queues| && s.queues[w].ring.size < 36
    requires s.queues[w].writer.Starting? || s.queues[w].writer.WaitingForSpace?
    ensures Execution(handles, s, [Reserve(w), Store(w, 0, e), DeviceReturns(w, 1), Commit(w)], s')
    ensures w < |s.committed| && s'.committed == s.committed[w := s.committed[w] + [e]]
    ensures s'.reader == if s.reader.Asleep? then s.reader.(signalled := true) else s.reader
  {
    hide Conserved;
    hide Upstream;
    ReachableInv(handles, n, s);
    InvOfQueue(handles, s, w);
    ReservedRegion(handles, n, s, w);
    var s1 := Next(handles, s, Reserve(w));
    var s2 := Next(handles, s1, Store(w, 0, e));
    var s3 := Next(handles, s2, DeviceReturns(w, 1));
    var first := s1.queues[w].writer.first;
    assert s3.queues[w].ring.data[first..first + 1] == [e];
    s' := Next(handles, s3, Commit(w));
    FourActions(handles, s, Reserve(w), Store(w, 0, e), DeviceReturns(w, 1), Commit(w));
  }

  lemma FourActions(handles: Handles, s: State, a: Action, b: Action, c: Action, d: Action)
    requires Enabled(s, a) && InBounds(s, a)
    requires var s1 := Next(handles, s, a);
             Enabled(s1, b) && InBounds(s1, b)
             && var s2 := Next(handles, s1, b);
                Enabled(s2, c) && InBounds(s2, c)
                && var s3 := Next(handles, s2, c); Enabled(s3, d) && InBounds(s3, d)
    ensures Execution(handles, s, [a, b, c, d], Next(handles, Next(handles, Next(handles, Next(handles, s, a), b), c), d))
  {
    hide Next;
    var s1 := Next(handles, s, a);
    var s2 := Next(handles, s1, b);
    var s3 := Next(handles, s2, c);
    var s4 := Next(handles, s3, d);
    assert [a] + [b, c, d] == [a, b, c, d];
    OneMoreAction(handles, s3, d, [], s4);
    OneMoreAction(handles, s2, c, [d], s4);
    OneMoreAction(handles, s1, b, [c, d], s4);
    OneMoreAction(handles, s, a, [b, c, d], s4);
  }

  // ---------------------------------------------------------------- what reaches the caller

  /** Readings of registered sensors reach the caller, and metadata events that do not carry -1 themselves. */
  predicate GoesUpstream(registered: seq<FullHandle>, t: Taken) {
    match t.event.kind
    case Reading => FullHandle(t.queue, t.event.sensor) in registered
    case MetaData => t.event.sensor != -1
  }

  /** `e` is that event with the handle of the sensor it names. */
  ghost predicate ArrivesAs(registered: seq<FullHandle>, t: Taken, e: Event) {
    && e.kind == t.event.kind && e.payload == t.event.payload
    && match t.event.kind
       case Reading =>
         e.metaSensor == t.event.metaSensor && IsHandleOf(registered, FullHandle(t.queue, t.event.sensor), e.sensor)
       case MetaData =>
         e.sensor == t.event.sensor && IsHandleOf(registered, FullHandle(t.queue, t.event.metaSensor), e.metaSensor)
  }

  /** Entry k of what was taken goes behind all that was passed upstream of the entries before it, as itself with its
      handle made global, or nowhere. */
  lemma {:induction false} UpstreamExactly(registered: seq<FullHandle>, log: seq<Taken>, k: nat)
    requires k < |log|
    ensures var handles := FullToGlobal(registered);
            var before, upto, all := Upstream(handles, log[..k]), Upstream(handles, log[..k + 1]), Upstream(handles, log);
            if GoesUpstream(registered, log[k])
            then |upto| == |before| + 1 <= |all| && ArrivesAs(registered, log[k], all[|before|])
            else |upto| == |before|
  {
    hide IsHandleOf;
    hide FullToGlobal;
    var last := |log| - 1;
    if k < last {
      UpstreamExactly(registered, log[..last], k);
      assert log[..last][..k] == log[..k] && log[..last][..k + 1] == log[..k + 1];
    } else {
      assert log[..k + 1] == log;
      RemappedExactly(registered, log[k].queue, log[k].event);
      DroppedExactly(registered, log[k].queue, log[k].event);
    }
  }
}
