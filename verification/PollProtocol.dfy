/** The threads of the multi-HAL as a state machine (sensors/multihal.cpp:142-179, 337-377,
    sensors/SensorEventQueue.cpp:39-91): one writer thread per queue, one reader calling `poll`, one mutex shared
    by all queues.

    A writer's section under the mutex is one step, because nobody else may look meanwhile.  Its stores into the
    region it reserved are made with no lock held, so each is a step of its own, and so is each iteration of the
    reader's scan: a store may fall between any two of them.  Either condition wait may end without a signal. */
module PollProtocol {
  import opened RingBuffer
  import opened SensorEvents
  import opened PollScan

  const QUEUE_CAPACITY: nat := 36

  datatype Writer =
    | Starting                                        // about to take the mutex and look for space
    | WaitingForSpace(signalled: bool)                // asleep on the queue's condition
    | Polling(first: nat, length: nat)                // no lock held: the device stores events in the region
    | Polled(first: nat, length: nat, count: nat)     // the device returned; about to retake the mutex

  datatype Reader =
    | Away                                            // not inside poll
    | Scanning(maxReads: int, empties: nat, delivered: seq<Event>)   // holds the mutex
    | Asleep(maxReads: int, signalled: bool)          // asleep on data_available_cond

  datatype Queue = Queue(ring: Ring<Event>, writer: Writer)

  /** `committed`, `log` and `returned` are history: what each writer committed, what left the queues, and what
      finished calls of poll handed to their callers. */
  datatype State = State(
    queues: seq<Queue>,
    reader: Reader,
    waitingForData: bool,
    nextReadIndex: nat,
    committed: seq<seq<Event>>,
    log: seq<Taken>,
    returned: seq<Event>)

  datatype Action =
    | Reserve(w: nat)                                 // lock; wait for space or reserve a region; unlock
    | Store(w: nat, offset: nat, event: Event)        // the device stores one event in its region
    | DeviceReturns(w: nat, result: int)              // device->poll returns
    | Commit(w: nat)                                  // lock; mark as written; broadcast; unlock
    | CallPoll(maxReads: int)                         // poll is called and takes the mutex
    | ScanStep                                        // one iteration of the inner loop
    | FinishScan                                      // the inner loop is over: return, or wait
    | WakeReader                                      // the wait on data_available_cond ends

  /** The mutex is free except while the reader scans. */
  predicate MutexFree(s: State) {
    !s.reader.Scanning?
  }

  /** When a thread can take the step, given where it stands and whether it can have the mutex. */
  predicate Enabled(s: State, a: Action) {
    match a
    case Reserve(w) =>
      w < |s.queues| && MutexFree(s) && (s.queues[w].writer.Starting? || s.queues[w].writer.WaitingForSpace?)
    case Store(w, offset, _) =>
      w < |s.queues| && s.queues[w].writer.Polling? && offset < s.queues[w].writer.length
    case DeviceReturns(w, result) =>
      w < |s.queues| && s.queues[w].writer.Polling? && result <= s.queues[w].writer.length
    case Commit(w) => w < |s.queues| && MutexFree(s) && s.queues[w].writer.Polled?
    case CallPoll(_) => s.reader.Away?
    case ScanStep => s.reader.Scanning? && InnerLoopContinues(s)
    case FinishScan => s.reader.Scanning? && !InnerLoopContinues(s)
    case WakeReader => s.reader.Asleep?
  }

  /** The step touches only storage that exists; `EnabledIsInBounds` shows that every enabled step does. */
  predicate InBounds(s: State, a: Action)
    requires Enabled(s, a)
  {
    match a
    case Reserve(w) => s.queues[w].ring.size <= |s.queues[w].ring.data|
    case Store(w, offset, _) => s.queues[w].writer.first + offset < |s.queues[w].ring.data|
    case Commit(w) =>
      s.queues[w].writer.first + s.queues[w].writer.count <= |s.queues[w].ring.data| && w < |s.committed|
    case ScanStep =>
      && s.nextReadIndex < |s.queues|
      && (s.queues[s.nextReadIndex].ring.size > 0 ==>
            s.queues[s.nextReadIndex].ring.start < |s.queues[s.nextReadIndex].ring.data|)
    case _ => true
  }

  predicate InnerLoopContinues(s: State)
    requires s.reader.Scanning?
  {
    s.reader.empties < |s.queues| && |s.reader.delivered| < s.reader.maxReads
  }

  function WithWriter(s: State, w: nat, writer: Writer): State
    requires w < |s.queues|
  {
    s.(queues := s.queues[w := s.queues[w].(writer := writer)])
  }

  /** What the writer does under the lock before polling its device. */
  function AfterReserve(q: Queue): Writer
    requires q.ring.size <= |q.ring.data|
  {
    if q.ring.size == |q.ring.data| then WaitingForSpace(false)
    else Polling(q.ring.Slot(q.ring.size), q.ring.WritableLength(QUEUE_CAPACITY))
  }

  /** Dequeuing from a full queue wakes its writer if that is asleep. */
  function Dequeue(q: Queue): Queue {
    Queue(q.ring.Dequeued(),
          if q.ring.size == |q.ring.data| && q.writer.WaitingForSpace? then WaitingForSpace(true) else q.writer)
  }

  function Next(handles: Handles, s: State, a: Action): State
    requires Enabled(s, a) && InBounds(s, a)
  {
    match a
    case Reserve(w) => WithWriter(s, w, AfterReserve(s.queues[w]))
    case Store(w, offset, event) =>
      var q := s.queues[w];
      s.(queues := s.queues[w := q.(ring := q.ring.Filled(q.writer.first + offset, event))])
    case DeviceReturns(w, result) =>
      var writer := s.queues[w].writer;
      WithWriter(s, w, if result <= 0 then Starting else Polled(writer.first, writer.length, result))
    case Commit(w) =>
      var q := s.queues[w];
      var written := q.ring.data[q.writer.first..q.writer.first + q.writer.count];
      s.(queues := s.queues[w := Queue(q.ring.Committed(q.writer.count), Starting)],
         committed := s.committed[w := s.committed[w] + written],
         reader := if s.waitingForData && s.reader.Asleep? then s.reader.(signalled := true) else s.reader)
    case CallPoll(maxReads) => s.(reader := Scanning(maxReads, 0, []))
    case ScanStep =>
      var q := s.queues[s.nextReadIndex];
      var next := Advance(s.nextReadIndex, |s.queues|);
      if q.ring.size == 0 then
        s.(reader := s.reader.(empties := s.reader.empties + 1), nextReadIndex := next)
      else
        var taken := Taken(s.nextReadIndex, q.ring.data[q.ring.start]);
        s.(queues := s.queues[s.nextReadIndex := Dequeue(q)],
           reader := s.reader.(empties := 0, delivered := s.reader.delivered + Upstream(handles, [taken])),
           nextReadIndex := next,
           log := s.log + [taken])
    case FinishScan =>
      if s.reader.delivered == [] then
        s.(reader := Asleep(s.reader.maxReads, false), waitingForData := true)
      else
        s.(reader := Away, returned := s.returned + s.reader.delivered)
    case WakeReader => s.(reader := Scanning(s.reader.maxReads, 0, []), waitingForData := false)
  }

  /** `n` sub-HALs opened, every queue empty, every writer about to start. */
  function Init(n: nat): State {
    State(seq(n, _ => Queue(Ring(seq(QUEUE_CAPACITY, _ => Event(MetaData, 0, 0, 0)), 0, 0), Starting)),
          Away, false, 0, seq(n, _ => []), [], [])
  }

  ghost predicate Execution(handles: Handles, s: State, actions: seq<Action>, s': State)
    decreases |actions|
  {
    if actions == [] then s' == s
    else
      && Enabled(s, actions[0]) && InBounds(s, actions[0])
      && Execution(handles, Next(handles, s, actions[0]), actions[1..], s')
  }

  ghost predicate Reachable(handles: Handles, n: nat, s: State) {
    exists actions :: Execution(handles, Init(n), actions, s)
  }

  // ---------------------------------------------------------------- invariant

  ghost predicate QueueInv(q: Queue) {
    && q.ring.Valid()
    && |q.ring.data| == QUEUE_CAPACITY
    && match q.writer
       case Starting => true
       case WaitingForSpace(signalled) => signalled <==> q.ring.size < |q.ring.data|
       case Polling(first, length) => 1 <= length && q.ring.IsWritable(first, length)
       case Polled(first, length, count) => 1 <= count <= length && q.ring.IsWritable(first, length)
  }

  ghost predicate QueuesInv(queues: seq<Queue>) {
    forall i :: 0 <= i < |queues| ==> QueueInv(queues[i])
  }

  ghost function Contents(queues: seq<Queue>): (c: seq<seq<Event>>)
    requires QueuesInv(queues)
    ensures |c| == |queues|
  {
    seq(|queues|, i requires 0 <= i < |queues| && QueueInv(queues[i]) => queues[i].ring.Contents())
  }

  /** The scan in progress, as the value PollScan.dfy reasons about. */
  ghost function View(s: State): Scan
    requires s.reader.Scanning?
    requires QueuesInv(s.queues)
  {
    Scan(Contents(s.queues), s.nextReadIndex, s.reader.empties, s.reader.delivered, s.log)
  }

  ghost predicate AllEmpty(s: State) {
    forall i :: 0 <= i < |s.queues| ==> s.queues[i].ring.size == 0
  }

  ghost predicate ReaderInv(s: State)
    requires QueuesInv(s.queues)
  {
    match s.reader
    case Away => !s.waitingForData
    case Scanning(maxReads, _, delivered) =>
      !s.waitingForData && View(s).Valid() && (0 < maxReads ==> |delivered| <= maxReads)
      && (maxReads <= 0 ==> delivered == [])
    case Asleep(maxReads, signalled) =>
      s.waitingForData
      && (signalled ==> !AllEmpty(s))
      && (!signalled && 0 < maxReads ==> AllEmpty(s))
  }

  function InFlight(r: Reader): seq<Event> {
    if r.Scanning? then r.delivered else []
  }

  ghost predicate Inv(handles: Handles, s: State) {
    && QueuesInv(s.queues)
    && (s.nextReadIndex < |s.queues| || s.nextReadIndex == |s.queues| == 0)
    && ReaderInv(s)
    && Conserved(s.committed, s.log, Contents(s.queues))
    && s.returned + InFlight(s.reader) == Upstream(handles, s.log)
  }

  /** No thread ever reaches outside its array. */
  lemma EnabledIsInBounds(handles: Handles, s: State, a: Action)
    requires Inv(handles, s) && Enabled(s, a)
    ensures InBounds(s, a)
  {
  }

  lemma InitInv(handles: Handles, n: nat)
    ensures Inv(handles, Init(n))
  {
  }

  lemma ReserveKeepsQueueInv(q: Queue)
    requires QueueInv(q)
    ensures QueueInv(q.(writer := AfterReserve(q)))
  {
  }

  lemma DequeueKeepsQueueInv(q: Queue)
    requires QueueInv(q) && q.ring.size > 0
    ensures QueueInv(Dequeue(q))
    ensures q.ring.Contents()[0] == q.ring.data[q.ring.start]
    ensures Dequeue(q).ring.Contents() == q.ring.Contents()[1..]
  {
    DequeueDropsHead(q.ring);
  }

  /** Replacing one queue replaces one entry of the contents. */
  lemma ContentsUpdate(queues: seq<Queue>, w: nat, q: Queue)
    requires w < |queues| && QueueInv(q)
    requires QueuesInv(queues)
    ensures QueuesInv(queues[w := q])
    ensures Contents(queues[w := q]) == Contents(queues)[w := q.ring.Contents()]
  {
  }

  /** A writer step that leaves its queue's contents alone. */
  lemma QuietStepInv(handles: Handles, s: State, w: nat, q: Queue)
    requires Inv(handles, s) && w < |s.queues|
    requires QueueInv(q) && q.ring.Contents() == s.queues[w].ring.Contents()
    ensures Inv(handles, s.(queues := s.queues[w := q]))
    ensures Contents(s.queues[w := q]) == Contents(s.queues)
  {
    ContentsUpdate(s.queues, w, q);
    assert Contents(s.queues)[w := q.ring.Contents()] == Contents(s.queues);
    assert q.ring.size == |q.ring.Contents()| == s.queues[w].ring.size;
    var queues := s.queues[w := q];
    assert forall i :: 0 <= i < |queues| ==> queues[i].ring.size == s.queues[i].ring.size;
  }

  /** Committing to one queue conserves all of them. */
  lemma CommitConserves(committed: seq<seq<Event>>, log: seq<Taken>, queues: seq<seq<Event>>, w: nat, more: seq<Event>)
    requires Conserved(committed, log, queues) && w < |queues|
    ensures Conserved(committed[w := committed[w] + more], log, queues[w := queues[w] + more])
  {
  }

  lemma CommitInv(handles: Handles, s: State, w: nat)
    requires Inv(handles, s) && Enabled(s, Commit(w)) && InBounds(s, Commit(w))
    ensures Inv(handles, Next(handles, s, Commit(w)))
  {
    hide Upstream;
    hide Conserved;
    var q := s.queues[w];
    var q' := Queue(q.ring.Committed(q.writer.count), Starting);
    var written := q.ring.data[q.writer.first..q.writer.first + q.writer.count];
    CommitAppends(q.ring, q.writer.first, q.writer.length, q.writer.count);
    ContentsUpdate(s.queues, w, q');
    CommitConserves(s.committed, s.log, Contents(s.queues), w, written);
    assert Next(handles, s, Commit(w)).queues[w].ring.size > 0;
  }

  /** One iteration of the inner loop is one step of the scan. */
  lemma ScanStepRefines(handles: Handles, s: State)
    requires Inv(handles, s) && Enabled(s, ScanStep) && InBounds(s, ScanStep)
    ensures var s' := Next(handles, s, ScanStep);
            && QueuesInv(s'.queues)
            && View(s') == Step(handles, View(s))
  {
    var q := s.queues[s.nextReadIndex];
    assert Contents(s.queues)[s.nextReadIndex] == q.ring.Contents();
    if q.ring.size > 0 {
      DequeueKeepsQueueInv(q);
      ContentsUpdate(s.queues, s.nextReadIndex, Dequeue(q));
    }
  }

  lemma ScanStepInv(handles: Handles, s: State)
    requires Inv(handles, s) && Enabled(s, ScanStep) && InBounds(s, ScanStep)
    ensures Inv(handles, Next(handles, s, ScanStep))
  {
    var s' := Next(handles, s, ScanStep);
    var i := s.nextReadIndex;
    AdvanceIs(i, |s.queues|);
    ScanStepRefines(handles, s);
    StepKeepsValid(handles, View(s));
    if s.queues[i].ring.size > 0 {
      var taken := Taken(i, Contents(s.queues)[i][0]);
      TakeConserves(s.committed, s.log, Contents(s.queues), i);
      UpstreamGrows(handles, s.log, taken);
      assert s.returned + (s.reader.delivered + Upstream(handles, [taken]))
          == (s.returned + s.reader.delivered) + Upstream(handles, [taken]);
    }
  }

  lemma FinishScanInv(handles: Handles, s: State)
    requires Inv(handles, s) && Enabled(s, FinishScan) && InBounds(s, FinishScan)
    ensures Inv(handles, Next(handles, s, FinishScan))
  {
    if s.reader.empties == |s.queues| {
      FullRoundMeansAllEmpty(View(s));
      assert forall i :: 0 <= i < |s.queues| ==> Contents(s.queues)[i] == s.queues[i].ring.Contents();
    }
  }

  lemma StepInv(handles: Handles, s: State, a: Action)
    requires Inv(handles, s) && Enabled(s, a) && InBounds(s, a)
    ensures Inv(handles, Next(handles, s, a))
  {
    hide Upstream;
    hide Conserved;
    match a
    case Reserve(w) =>
      ReserveKeepsQueueInv(s.queues[w]);
      QuietStepInv(handles, s, w, s.queues[w].(writer := AfterReserve(s.queues[w])));
    case Store(w, offset, event) =>
      var q := s.queues[w];
      FillKeepsContents(q.ring, q.writer.first, q.writer.length, q.writer.first + offset, event);
      QuietStepInv(handles, s, w, q.(ring := q.ring.Filled(q.writer.first + offset, event)));
    case DeviceReturns(w, result) =>
      var q := s.queues[w];
      QuietStepInv(handles, s, w, q.(writer := if result <= 0 then Starting
                                               else Polled(q.writer.first, q.writer.length, result)));
    case Commit(w) => CommitInv(handles, s, w);
    case CallPoll(_) =>
    case ScanStep => ScanStepInv(handles, s);
    case FinishScan => FinishScanInv(handles, s);
    case WakeReader =>
  }

  lemma {:induction false} ExecutionInv(handles: Handles, s: State, actions: seq<Action>, s': State)
    requires Inv(handles, s) && Execution(handles, s, actions, s')
    ensures Inv(handles, s')
    decreases |actions|
  {
    if actions != [] {
      StepInv(handles, s, actions[0]);
      ExecutionInv(handles, Next(handles, s, actions[0]), actions[1..], s');
    }
  }

  lemma ReachableInv(handles: Handles, n: nat, s: State)
    requires Reachable(handles, n, s)
    ensures Inv(handles, s)
  {
    InitInv(handles, n);
    var actions :| Execution(handles, Init(n), actions, s);
    ExecutionInv(handles, Init(n), actions, s);
  }
}
