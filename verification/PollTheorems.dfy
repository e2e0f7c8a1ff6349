/** What the multi-HAL's threads guarantee in every state they can reach, whatever the interleaving. */
module PollTheorems {
  import opened Wrappers
  import opened RingBuffer
  import opened SensorEvents
  import opened PollScan
  import opened PollProtocol

  /** The region a writer is filling, or has filled and not yet committed. */
  ghost predicate OwnsRegion(q: Queue, first: nat, length: nat) {
    (q.writer.Polling? || q.writer.Polled?) && q.writer.first == first && q.writer.length == length
  }

  /** However far the reader got since a region was reserved, it still starts right behind the readable records,
      fits the array and the free space, and shares no slot with an unread record; so a store changes nothing
      the reader can read, and the reader never looks at a half-written record. */
  lemma NoUnreadEventIsOverwritten(handles: Handles, n: nat, s: State, w: nat, first: nat, length: nat)
    requires Reachable(handles, n, s) && w < |s.queues| && OwnsRegion(s.queues[w], first, length)
    ensures var ring := s.queues[w].ring;
            && ring.size + length <= |ring.data| == QUEUE_CAPACITY
            && first == (ring.start + ring.size) % |ring.data| && first + length <= |ring.data|
            && forall i :: 0 <= i < ring.size ==> !(first <= ring.Slot(i) < first + length)
  {
    ReachableInv(handles, n, s);
    assert QueueInv(s.queues[w]);
    var ring := s.queues[w].ring;
    forall i | 0 <= i < ring.size
      ensures !(first <= ring.Slot(i) < first + length)
    {
      RegionDisjointFromReadable(ring, first, length, i);
    }
  }

  /** Whatever the interleaving, no thread's next step reaches outside its array. */
  lemma NoStepIsOutOfBounds(handles: Handles, n: nat, s: State, a: Action)
    requires Reachable(handles, n, s) && Enabled(s, a)
    ensures InBounds(s, a)
  {
    ReachableInv(handles, n, s);
    EnabledIsInBounds(handles, s, a);
  }

  /** Conservation and order, per module and overall: what module m committed is, in order, what was taken from
      it followed by what is still queued; and what callers of poll have been given, with what the current call
      has collected, is everything taken, in that order, remapped, minus the dropped events. */
  lemma EventsAreConserved(handles: Handles, n: nat, s: State, m: nat)
    requires Reachable(handles, n, s) && m < |s.queues|
    ensures s.queues[m].ring.Valid() && m < |s.committed|
    ensures s.committed[m] == TakenFrom(s.log, m) + s.queues[m].ring.Contents()
    ensures s.returned + InFlight(s.reader) == Upstream(handles, s.log)
  {
    ReachableInv(handles, n, s);
    assert QueueInv(s.queues[m]);
    assert Contents(s.queues)[m] == s.queues[m].ring.Contents();
  }

  /** No lost wake-up: a writer asleep for space has been signalled exactly when its queue has space, and a reader
      asleep in a call that has room for an event has been signalled exactly when some queue has one. */
  lemma NoLostWakeup(handles: Handles, n: nat, s: State)
    requires Reachable(handles, n, s)
    ensures forall w :: 0 <= w < |s.queues| && s.queues[w].writer.WaitingForSpace? ==>
              (s.queues[w].writer.signalled <==> s.queues[w].ring.size < QUEUE_CAPACITY)
    ensures s.reader.Asleep? ==> s.waitingForData
    ensures s.reader.Asleep? && 0 < s.reader.maxReads ==> (s.reader.signalled <==> !AllEmpty(s))
  {
    ReachableInv(handles, n, s);
    forall w | 0 <= w < |s.queues|
      ensures QueueInv(s.queues[w])
    {
    }
  }

  /** The reader and a writer are never both asleep with no signal on its way. */
  lemma NeverBothAsleep(handles: Handles, n: nat, s: State, w: nat)
    requires Reachable(handles, n, s) && w < |s.queues|
    requires s.reader.Asleep? && 0 < s.reader.maxReads && !s.reader.signalled
    ensures s.queues[w].writer != WaitingForSpace(false)
  {
    NoLostWakeup(handles, n, s);
  }

  lemma OneMoreAction(handles: Handles, s: State, a: Action, rest: seq<Action>, s': State)
    requires Enabled(s, a) && InBounds(s, a) && Execution(handles, Next(handles, s, a), rest, s')
    ensures Execution(handles, s, [a] + rest, s')
  {
  }

  /** Without room for an event the law fails: such a call goes to sleep beside a queued event. */
  lemma SleepsBesideDataWithoutRoom(handles: Handles, maxReads: int) returns (s: State)
    requires maxReads <= 0
    ensures Reachable(handles, 1, s)
    ensures s.reader == Asleep(maxReads, false) && !AllEmpty(s)
  {
    var s0 := Init(1);
    var s1 := Next(handles, s0, Reserve(0));
    var s2 := Next(handles, s1, DeviceReturns(0, 1));
    var s3 := Next(handles, s2, Commit(0));
    var s4 := Next(handles, s3, CallPoll(maxReads));
    s := Next(handles, s4, FinishScan);
    assert Execution(handles, s, [], s);
    var actions := [FinishScan] + [];
    OneMoreAction(handles, s4, FinishScan, [], s);
    OneMoreAction(handles, s3, CallPoll(maxReads), actions, s);
    actions := [CallPoll(maxReads)] + actions;
    OneMoreAction(handles, s2, Commit(0), actions, s);
    actions := [Commit(0)] + actions;
    OneMoreAction(handles, s1, DeviceReturns(0, 1), actions, s);
    actions := [DeviceReturns(0, 1)] + actions;
    OneMoreAction(handles, s0, Reserve(0), actions, s);
  }

  /** The reader's wake-up law holds in every reachable state for exactly the calls that have room for an event. */
  lemma WakeupLawNeedsRoom(handles: Handles, maxReads: int)
    ensures (forall n: nat, s :: Reachable(handles, n, s) && s.reader.Asleep? && s.reader.maxReads == maxReads ==>
               (s.reader.signalled <==> !AllEmpty(s)))
            <==> 0 < maxReads
  {
    if 0 < maxReads {
      forall n: nat, s | Reachable(handles, n, s) && s.reader.Asleep? && s.reader.maxReads == maxReads
        ensures s.reader.signalled <==> !AllEmpty(s)
      {
        NoLostWakeup(handles, n, s);
      }
    } else {
      var s := SleepsBesideDataWithoutRoom(handles, maxReads);
    }
  }

  /** A call of poll returns only with at least one event and at most `maxReads`, and with fewer only when every
      queue is empty; otherwise it waits, and then (if it had room) every queue is empty. */
  lemma PollReturns(handles: Handles, n: nat, s: State)
    requires Reachable(handles, n, s) && Enabled(s, FinishScan) && InBounds(s, FinishScan)
    ensures var s' := Next(handles, s, FinishScan);
            && (s'.reader.Away? <==> s.reader.delivered != [])
            && (s'.reader.Away? ==>
                  && 1 <= |s.reader.delivered| <= s.reader.maxReads
                  && s'.returned == s.returned + s.reader.delivered
                  && (|s.reader.delivered| < s.reader.maxReads ==> AllEmpty(s)))
            && (s'.reader.Asleep? && 0 < s.reader.maxReads ==> AllEmpty(s))
  {
    ReachableInv(handles, n, s);
    if |s.reader.delivered| < s.reader.maxReads {
      FullRoundMeansAllEmpty(View(s));
      assert forall i :: 0 <= i < |s.queues| ==> Contents(s.queues)[i] == s.queues[i].ring.Contents();
    }
  }

  // ---------------------------------------------------------------- what a device stores is what is committed

  /** The action stores in this slot of queue w. */
  predicate StoresIn(s: State, a: Action, w: nat, slot: nat) {
    a.Store? && a.w == w && Enabled(s, a) && s.queues[w].writer.first + a.offset == slot
  }

  /** Somewhere in the run queue w's device stores in this slot. */
  predicate SlotRewritten(handles: Handles, s: State, actions: seq<Action>, w: nat, slot: nat)
    decreases |actions|
  {
    && actions != [] && Enabled(s, actions[0]) && InBounds(s, actions[0])
    && (StoresIn(s, actions[0], w, slot)
        || SlotRewritten(handles, Next(handles, s, actions[0]), actions[1..], w, slot))
  }

  /** A record stays as it was stored until its own device stores in that slot again: neither the reader nor any
      other writer touches it.  With CommitAppends, what gets committed is what the device stored. */
  lemma {:induction false} StoredRecordStays(handles: Handles, s: State, actions: seq<Action>, s': State,
                                             w: nat, slot: nat)
    requires Inv(handles, s) && Execution(handles, s, actions, s')
    requires w < |s.queues| && slot < |s.queues[w].ring.data| && !SlotRewritten(handles, s, actions, w, slot)
    ensures |s'.queues| == |s.queues| && |s'.queues[w].ring.data| == |s.queues[w].ring.data|
    ensures s'.queues[w].ring.data[slot] == s.queues[w].ring.data[slot]
    decreases |actions|
  {
    if actions != [] {
      StepInv(handles, s, actions[0]);
      StoredRecordStays(handles, Next(handles, s, actions[0]), actions[1..], s', w, slot);
    }
  }

  /** The event the device of queue w stored last at `offset` of its region. */
  function LastStored(actions: seq<Action>, w: nat, offset: nat): Option<Event> {
    if actions == [] then None
    else
      var later := LastStored(actions[1..], w, offset);
      if later.Some? then later
      else if actions[0].Store? && actions[0].w == w && actions[0].offset == offset then Some(actions[0].event)
      else None
  }

  lemma InvOfQueue(handles: Handles, s: State, w: nat)
    requires Inv(handles, s) && w < |s.queues|
    ensures QueueInv(s.queues[w]) && |s.committed| == |s.queues|
  {
  }

  lemma RegionIsNonempty(q: Queue)
    requires QueueInv(q) && q.writer.Polling?
    ensures q.writer.length > 0
  {
  }

  lemma RegionInArray(q: Queue, first: nat, length: nat)
    requires QueueInv(q) && OwnsRegion(q, first, length)
    ensures first + length <= |q.ring.data| && (q.writer.Polled? ==> q.writer.count <= length)
  {
  }

  /** A writer without a region gets one only by reserving. */
  lemma StartingStep(handles: Handles, s: State, a: Action, w: nat)
    requires Enabled(s, a) && InBounds(s, a) && a != Reserve(w)
    requires w < |s.queues| && s.queues[w].writer.Starting?
    ensures |Next(handles, s, a).queues| == |s.queues| && Next(handles, s, a).queues[w].writer.Starting?
  {
    hide Upstream;
  }

  lemma CommitStep(handles: Handles, s: State, w: nat)
    requires Enabled(s, Commit(w)) && InBounds(s, Commit(w))
    ensures var first, count := s.queues[w].writer.first, s.queues[w].writer.count;
            Next(handles, s, Commit(w)).committed
            == s.committed[w := s.committed[w] + s.queues[w].ring.data[first..first + count]]
  {
  }

  /** What the device of queue w returned last. */
  function LastResult(actions: seq<Action>, w: nat): Option<int> {
    if actions == [] then None
    else
      var later := LastResult(actions[1..], w);
      if later.Some? then later
      else if actions[0].DeviceReturns? && actions[0].w == w then Some(actions[0].result)
      else None
  }

  /** Reserving either finds the queue full and waits, or gives the writer the longest region there is for a whole
      queue's worth of records: up to the end of the array or to the oldest unread record. */
  lemma ReservedRegion(handles: Handles, n: nat, s: State, w: nat)
    requires Reachable(handles, n, s) && Enabled(s, Reserve(w)) && InBounds(s, Reserve(w))
    ensures var q := s.queues[w];
            var q' := Next(handles, s, Reserve(w)).queues[w];
            && q'.ring == q.ring
            && if q.ring.size == 36 then q'.writer == WaitingForSpace(false)
               else
                 && q'.writer.Polling? && 1 <= q'.writer.length
                 && q'.writer.first == (q.ring.start + q.ring.size) % 36
                 && var end := q'.writer.first + q'.writer.length;
                    q'.writer.length == 36 || end == 36 || (q.ring.size > 0 && end == q.ring.start)
  {
    ReachableInv(handles, n, s);
    InvOfQueue(handles, s, w);
    if s.queues[w].ring.size < QUEUE_CAPACITY {
      RegionIsMaximal(s.queues[w].ring, QUEUE_CAPACITY);
    }
  }

  /** A writer whose device has returned stays where it is until it commits or reserves. */
  lemma {:induction false} DoneStaysDone(handles: Handles, s: State, actions: seq<Action>, s': State, w: nat)
    requires Inv(handles, s) && Execution(handles, s, actions, s')
    requires Commit(w) !in actions && Reserve(w) !in actions
    requires w < |s.queues| && (s.queues[w].writer.Starting? || s.queues[w].writer.Polled?)
    ensures |s'.queues| == |s.queues| && s'.queues[w].writer == s.queues[w].writer && LastResult(actions, w) == None
    decreases |actions|
  {
    hide Inv;
    hide Next;
    if actions != [] {
      assert actions[0] in actions;
      StepInv(handles, s, actions[0]);
      DoneStep(handles, s, actions[0], w);
      DoneStaysDone(handles, Next(handles, s, actions[0]), actions[1..], s', w);
    }
  }

  lemma DoneStep(handles: Handles, s: State, a: Action, w: nat)
    requires Enabled(s, a) && InBounds(s, a) && a != Commit(w) && a != Reserve(w)
    requires w < |s.queues| && (s.queues[w].writer.Starting? || s.queues[w].writer.Polled?)
    ensures |Next(handles, s, a).queues| == |s.queues|
    ensures Next(handles, s, a).queues[w].writer == s.queues[w].writer
    ensures !(a.DeviceReturns? && a.w == w)
  {
    hide Upstream;
  }

  lemma PollingStep(handles: Handles, s: State, a: Action, w: nat)
    requires Enabled(s, a) && InBounds(s, a) && a != Commit(w) && a != Reserve(w)
    requires w < |s.queues| && s.queues[w].writer.Polling?
    ensures var s', writer := Next(handles, s, a), s.queues[w].writer;
            && |s'.queues| == |s.queues|
            && if a.DeviceReturns? && a.w == w
               then a.result <= writer.length
                    && s'.queues[w].writer
                       == if a.result <= 0 then Starting else Polled(writer.first, writer.length, a.result)
               else s'.queues[w].writer == writer
  {
    hide Upstream;
  }

  /** Between reserving a region and committing it, the writer stands exactly where its device's last return put it:
      still polling before that, ready to commit as many records as the device reported, or back at the start when it
      reported none. */
  lemma {:induction false} WriterFollowsDevice(handles: Handles, s: State, actions: seq<Action>, s': State, w: nat)
    requires Inv(handles, s) && Execution(handles, s, actions, s')
    requires Commit(w) !in actions && Reserve(w) !in actions
    requires w < |s.queues| && s.queues[w].writer.Polling?
    ensures |s'.queues| == |s.queues|
    ensures var first, length := s.queues[w].writer.first, s.queues[w].writer.length;
            match LastResult(actions, w)
            case None => s'.queues[w].writer == Polling(first, length)
            case Some(r) =>
              r <= length && s'.queues[w].writer == if r <= 0 then Starting else Polled(first, length, r)
    decreases |actions|
  {
    hide Inv;
    hide Next;
    if actions != [] {
      var a := actions[0];
      assert a in actions;
      StepInv(handles, s, a);
      PollingStep(handles, s, a, w);
      if a.DeviceReturns? && a.w == w {
        DoneStaysDone(handles, Next(handles, s, a), actions[1..], s', w);
      } else {
        WriterFollowsDevice(handles, Next(handles, s, a), actions[1..], s', w);
      }
    }
  }

  /** Once a writer has given up its region, it has none until it reserves one. */
  lemma {:induction false} NoRegionWithoutReserve(handles: Handles, s: State, actions: seq<Action>, s': State, w: nat)
    requires Inv(handles, s) && Execution(handles, s, actions, s') && Reserve(w) !in actions
    requires w < |s.queues| && s.queues[w].writer.Starting?
    ensures |s'.queues| == |s.queues| && s'.queues[w].writer.Starting?
    decreases |actions|
  {
    hide Inv;
    hide Next;
    if actions != [] {
      StepInv(handles, s, actions[0]);
      assert actions[0] in actions;
      StartingStep(handles, s, actions[0], w);
      NoRegionWithoutReserve(handles, Next(handles, s, actions[0]), actions[1..], s', w);
    }
  }

  /** What one step does to the region of queue w, which is not being committed or reserved. */
  lemma RegionStep(handles: Handles, s: State, a: Action, w: nat, first: nat, length: nat)
    requires Inv(handles, s) && Enabled(s, a) && InBounds(s, a) && a != Commit(w) && a != Reserve(w)
    requires w < |s.queues| && OwnsRegion(s.queues[w], first, length)
    ensures var s' := Next(handles, s, a);
            && |s'.queues| == |s.queues| && |s'.committed| == |s.committed|
            && (w < |s.committed| ==> s'.committed[w] == s.committed[w])
            && |s'.queues[w].ring.data| == |s.queues[w].ring.data|
            && (OwnsRegion(s'.queues[w], first, length) || s'.queues[w].writer.Starting?)
            && forall slot :: first <= slot < first + length && slot < |s.queues[w].ring.data| ==>
                 s'.queues[w].ring.data[slot]
                 == if a.Store? && a.w == w && a.offset == slot - first then a.event else s.queues[w].ring.data[slot]
  {
    hide Conserved;
    hide Upstream;
  }

  /** Between reserving a region and committing it, each of its slots holds what the device stored there last, or else
      what it held before, and nothing is committed to the queue. */
  lemma {:induction false} RegionHoldsLastStored(handles: Handles, s: State, actions: seq<Action>, s': State,
                                                 w: nat, first: nat, length: nat, offset: nat)
    requires Inv(handles, s) && Execution(handles, s, actions, s')
    requires Commit(w) !in actions && Reserve(w) !in actions
    requires w < |s.queues| && OwnsRegion(s.queues[w], first, length) && offset < length
    ensures |s'.queues| == |s.queues| && w < |s.committed| && w < |s'.committed|
    ensures !s'.queues[w].writer.Starting? ==>
              && OwnsRegion(s'.queues[w], first, length)
              && s'.committed[w] == s.committed[w]
              && first + offset < |s.queues[w].ring.data| && first + offset < |s'.queues[w].ring.data|
              && s'.queues[w].ring.data[first + offset]
                 == match LastStored(actions, w, offset)
                    case Some(e) => e
                    case None => s.queues[w].ring.data[first + offset]
    decreases |actions|
  {
    hide Inv;
    hide Next;
    hide QueueInv;
    InvOfQueue(handles, s, w);
    RegionInArray(s.queues[w], first, length);
    if actions != [] {
      var a := actions[0];
      assert a in actions;
      var s1 := Next(handles, s, a);
      StepInv(handles, s, a);
      RegionStep(handles, s, a, w, first, length);
      if s1.queues[w].writer.Starting? {
        NoRegionWithoutReserve(handles, s1, actions[1..], s', w);
        ExecutionInv(handles, s1, actions[1..], s');
        InvOfQueue(handles, s', w);
      } else {
        RegionHoldsLastStored(handles, s1, actions[1..], s', w, first, length, offset);
      }
    }
  }

  /** The events committed to queue w grew by `count`, each the last one stored at its offset of the region in `q`; only
      an offset never stored at brings up an old record. */
  ghost predicate GrowsByStored(q: Queue, before: seq<seq<Event>>, after: seq<seq<Event>>, actions: seq<Action>, w: nat,
                                count: nat)
    requires q.writer.Polling?
  {
    && w < |before| && w < |after|
    && count <= q.writer.length && q.writer.first + count <= |q.ring.data|
    && |after[w]| == |before[w]| + count && before[w] <= after[w]
    && forall k :: 0 <= k < count ==>
         after[w][|before[w]| + k]
         == match LastStored(actions, w, k)
            case Some(e) => e
            case None => q.ring.data[q.writer.first + k]
  }

  /** What is committed is what the device stored: from any reachable state in which a region has been reserved, over
      any run of all the threads up to its commit, the queue's committed events grow by as many as the device
      reported, each the last one stored at its offset; only an offset never stored at brings up an old record. */
  lemma CommittedIsWhatWasStored(handles: Handles, n: nat, s: State, actions: seq<Action>, s': State, w: nat)
    requires Reachable(handles, n, s) && Execution(handles, s, actions, s')
    requires Commit(w) !in actions && Reserve(w) !in actions
    requires w < |s.queues| && s.queues[w].writer.Polling?
    ensures Enabled(s', Commit(w)) ==>
              && InBounds(s', Commit(w))
              && LastResult(actions, w).Some? && LastResult(actions, w).value > 0
              && GrowsByStored(s.queues[w], s.committed, Next(handles, s', Commit(w)).committed, actions, w,
                               LastResult(actions, w).value)
  {
    hide Inv;
    hide Next;
    hide QueueInv;
    ReachableInv(handles, n, s);
    ExecutionInv(handles, s, actions, s');
    WriterFollowsDevice(handles, s, actions, s', w);
    if Enabled(s', Commit(w)) {
      EnabledIsInBounds(handles, s', Commit(w));
      var first, length := s.queues[w].writer.first, s.queues[w].writer.length;
      InvOfQueue(handles, s, w);
      InvOfQueue(handles, s', w);
      RegionIsNonempty(s.queues[w]);
      RegionHoldsLastStored(handles, s, actions, s', w, first, length, 0);
      RegionInArray(s'.queues[w], first, length);
      CommitStep(handles, s', w);
      forall k | 0 <= k < s'.queues[w].writer.count
        ensures first + k < |s.queues[w].ring.data|
        ensures s'.queues[w].ring.data[first + k]
             == match LastStored(actions, w, k)
                case Some(e) => e
                case None => s.queues[w].ring.data[first + k]
      {
        RegionHoldsLastStored(handles, s, actions, s', w, first, length, k);
      }
      RegionInArray(s.queues[w], first, length);
    }
  }

  // ---------------------------------------------------------------- a scan is atomic

  /** While the reader scans, no other thread's step changes anything the scan looks at. */
  lemma OthersDoNotDisturbTheScan(handles: Handles, s: State, a: Action)
    requires Inv(handles, s) && s.reader.Scanning? && Enabled(s, a) && InBounds(s, a)
    requires a != ScanStep && a != FinishScan
    ensures Inv(handles, Next(handles, s, a))
    ensures Next(handles, s, a).reader == s.reader && Next(handles, s, a).returned == s.returned
    ensures View(Next(handles, s, a)) == View(s)
  {
    hide Upstream;
    hide Conserved;
    StepInv(handles, s, a);
    match a
    case Store(w, offset, event) =>
      var q := s.queues[w];
      FillKeepsContents(q.ring, q.writer.first, q.writer.length, q.writer.first + offset, event);
      QuietStepInv(handles, s, w, q.(ring := q.ring.Filled(q.writer.first + offset, event)));
    case DeviceReturns(w, result) =>
      var q := s.queues[w];
      QuietStepInv(handles, s, w, q.(writer := if result <= 0 then Starting
                                               else Polled(q.writer.first, q.writer.length, result)));
  }

  /** Whatever the writers do in between, the inner loop ends where the uninterrupted scan ends. */
  lemma {:induction false} ScanIsAtomic(handles: Handles, s: State, actions: seq<Action>, s': State)
    requires Inv(handles, s) && s.reader.Scanning?
    requires Execution(handles, s, actions, s') && FinishScan !in actions
    ensures Inv(handles, s') && s'.reader.Scanning? && s'.reader.maxReads == s.reader.maxReads
    ensures s'.returned == s.returned
    ensures Run(handles, View(s'), s.reader.maxReads) == Run(handles, View(s), s.reader.maxReads)
    ensures Enabled(s', FinishScan) ==> View(s') == Run(handles, View(s), s.reader.maxReads)
    decreases |actions|
  {
    if actions != [] {
      var a := actions[0];
      assert a in actions;
      StepInv(handles, s, a);
      if a == ScanStep {
        ScanStepRefines(handles, s);
      } else {
        OthersDoNotDisturbTheScan(handles, s, a);
      }
      ScanIsAtomic(handles, Next(handles, s, a), actions[1..], s');
    }
  }

  /** The inner loop cannot go on for ever: each iteration consumes an event, dropped or not, or brings the round
      of empty queues closer to its end. */
  lemma ScanTerminates(handles: Handles, s: State)
    requires Inv(handles, s) && Enabled(s, ScanStep) && InBounds(s, ScanStep)
    ensures Inv(handles, Next(handles, s, ScanStep)) && Next(handles, s, ScanStep).reader.Scanning?
    ensures var v, v' := View(s), View(Next(handles, s, ScanStep));
            || Queued(v'.queues) < Queued(v.queues)
            || (Queued(v'.queues) == Queued(v.queues) && |v'.queues| - v'.empties < |v.queues| - v.empties)
  {
    StepInv(handles, s, ScanStep);
    ScanStepRefines(handles, s);
    StepDecreases(handles, View(s));
  }

  // ---------------------------------------------------------------- fairness

  /** How many scan steps bring the reader from queue `from` to queue `to`. */
  function Distance(from: nat, to: nat, n: nat): (d: nat)
    requires from < n && to < n
    ensures d < n
  {
    if from <= to then to - from else to + n - from
  }

  /** The events of `log` were taken in one round starting at `from`: their queues come in cyclic order, each at
      most once, and the round has not come to `goal` yet. */
  ghost predicate OneRound(log: seq<Taken>, from: nat, goal: nat, n: nat)
    requires from < n && goal < n
  {
    && (forall k :: 0 <= k < |log| ==>
          log[k].queue < n && Distance(from, log[k].queue, n) < Distance(from, goal, n))
    && (forall k, l :: 0 <= k < l < |log| ==>
          log[k].queue < n && log[l].queue < n &&
          Distance(from, log[k].queue, n) < Distance(from, log[l].queue, n))
  }

  lemma AdvancedDistance(from: nat, to: nat, n: nat)
    requires from < n && to < n
    ensures Advance(from, n) < n
    ensures Distance(Advance(from, n), to, n) == if to == from then n - 1 else Distance(from, to, n) - 1
  {
    AdvanceIs(from, n);
  }

  lemma RoundFromNext(log: seq<Taken>, from: nat, goal: nat, n: nat, t: Taken)
    requires from < n && goal < n && goal != from && t.queue == from
    requires Advance(from, n) < n && OneRound(log, Advance(from, n), goal, n)
    ensures OneRound(log, from, goal, n)
    ensures OneRound([t] + log, from, goal, n)
  {
    var log' := [t] + log;
    AdvancedDistance(from, goal, n);
    forall k | 0 <= k < |log|
      ensures Distance(from, log[k].queue, n) == Distance(Advance(from, n), log[k].queue, n) + 1
    {
      AdvancedDistance(from, log[k].queue, n);
    }
    forall k, l | 0 <= k < l < |log'|
      ensures log'[k].queue < n && log'[l].queue < n
      ensures Distance(from, log'[k].queue, n) < Distance(from, log'[l].queue, n)
    {
      assert log'[l] == log[l - 1];
      if k > 0 {
        assert log'[k] == log[k - 1];
      }
    }
  }

  /** Steps of other threads, calls and returns leave the log and the reader's place alone. */
  lemma OnlyScanStepsTake(handles: Handles, s: State, a: Action)
    requires Inv(handles, s) && Enabled(s, a) && InBounds(s, a)
    ensures var s' := Next(handles, s, a);
            && |s'.queues| == |s.queues|
            && (a != ScanStep ==> s'.log == s.log && s'.nextReadIndex == s.nextReadIndex)
            && (a == ScanStep ==>
                  && s.nextReadIndex < |s.queues| && s'.nextReadIndex == Advance(s.nextReadIndex, |s.queues|)
                  && (s'.log == s.log || exists e :: s'.log == s.log + [Taken(s.nextReadIndex, e)])
                  && (s'.log == s.log <==> s.queues[s.nextReadIndex].ring.size == 0))
            && (forall j :: 0 <= j < |s.queues| && s.queues[j].ring.size > 0 ==>
                  s'.queues[j].ring.size > 0 || (a == ScanStep && j == s.nextReadIndex))
  {
  }

  function ScanSteps(actions: seq<Action>): nat {
    if actions == [] then 0 else (if actions[0] == ScanStep then 1 else 0) + ScanSteps(actions[1..])
  }

  /** Bounded fairness, across any number of poll calls: while the head of a non-empty queue j waits, the reader
      makes no more scan steps than it is away from j, and the events it takes meanwhile come from other queues,
      in one round from where it stood. */
  lemma {:induction false} FairToEveryQueue(handles: Handles, s: State, actions: seq<Action>, s': State, j: nat)
    requires Inv(handles, s) && Execution(handles, s, actions, s')
    requires j < |s.queues| && s.queues[j].ring.size > 0
    requires forall k :: |s.log| <= k < |s'.log| ==> s'.log[k].queue != j
    ensures s.log <= s'.log && |s'.queues| == |s.queues|
    ensures OneRound(s'.log[|s.log|..], s.nextReadIndex, j, |s.queues|)
    ensures ScanSteps(actions) <= Distance(s.nextReadIndex, j, |s.queues|)
    decreases |actions|
  {
    hide Next;
    hide Inv;
    if actions == [] {
      assert s'.log[|s.log|..] == [];
    } else {
      var a := actions[0];
      var n := |s.queues|;
      var s1 := Next(handles, s, a);
      StepInv(handles, s, a);
      OnlyScanStepsTake(handles, s, a);
      ExecutionExtendsLog(handles, s1, actions[1..], s');
      var taken := s'.log[|s.log|..];
      if a != ScanStep {
        FairToEveryQueue(handles, s1, actions[1..], s', j);
      } else {
        var i := s.nextReadIndex;
        var rest := s'.log[|s1.log|..];
        AdvancedDistance(i, j, n);
        if s1.log == s.log {
          assert i != j;
          FairToEveryQueue(handles, s1, actions[1..], s', j);
          RoundFromNext(rest, i, j, n, Taken(i, Event(MetaData, 0, 0, 0)));
        } else {
          var t := s1.log[|s.log|];
          assert t.queue == i && s'.log[|s.log|] == t;
          assert taken == [t] + rest;
          FairToEveryQueue(handles, s1, actions[1..], s', j);
          RoundFromNext(rest, i, j, n, t);
        }
      }
    }
  }

  lemma {:induction false} ExecutionExtendsLog(handles: Handles, s: State, actions: seq<Action>, s': State)
    requires Inv(handles, s) && Execution(handles, s, actions, s')
    ensures s.log <= s'.log
    decreases |actions|
  {
    hide Next;
    hide Inv;
    if actions != [] {
      StepInv(handles, s, actions[0]);
      OnlyScanStepsTake(handles, s, actions[0]);
      ExecutionExtendsLog(handles, Next(handles, s, actions[0]), actions[1..], s');
    }
  }

  /** So before the head of a non-empty queue is read, every other queue is read at most once. */
  lemma AtMostOneFromEachOther(handles: Handles, n: nat, s: State, actions: seq<Action>, s': State, j: nat)
    requires Reachable(handles, n, s) && Execution(handles, s, actions, s')
    requires j < |s.queues| && s.queues[j].ring.size > 0
    requires forall k :: |s.log| <= k < |s'.log| ==> s'.log[k].queue != j
    ensures |s.log| <= |s'.log| < |s.log| + |s.queues| && ScanSteps(actions) < |s.queues|
    ensures forall k, l :: |s.log| <= k < l < |s'.log| ==> s'.log[k].queue != s'.log[l].queue
  {
    ReachableInv(handles, n, s);
    FairToEveryQueue(handles, s, actions, s', j);
    var taken := s'.log[|s.log|..];
    OneRoundLength(taken, s.nextReadIndex, j, |s.queues|);
    forall k, l | |s.log| <= k < l < |s'.log|
      ensures s'.log[k].queue != s'.log[l].queue
    {
      assert taken[k - |s.log|] == s'.log[k] && taken[l - |s.log|] == s'.log[l];
    }
  }

  lemma {:induction false} OneRoundLength(log: seq<Taken>, from: nat, goal: nat, n: nat)
    requires from < n && goal < n && OneRound(log, from, goal, n)
    ensures |log| > 0 ==> |log| - 1 <= Distance(from, log[|log| - 1].queue, n) < Distance(from, goal, n)
  {
    if |log| > 1 {
      var init := log[..|log| - 1];
      assert init[|init| - 1] == log[|log| - 2];
      OneRoundLength(init, from, goal, n);
    }
  }
}
