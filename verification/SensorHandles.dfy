/** Numbering every sub-HAL's sensors with global handles (sensors/multihal.cpp:87-133, 627-698). */
module SensorHandles {
  import opened SensorEvents

  /** A sensor description; everything but its handle is opaque. */
  datatype Sensor = Sensor(handle: int, info: int)

  const FIRST_GLOBAL_HANDLE := 1

  /** `registered[k]` received global handle k + 1. */
  function GlobalToFull(registered: seq<FullHandle>): (r: map<int, FullHandle>)
    ensures forall g :: g in r <==> FIRST_GLOBAL_HANDLE <= g < FIRST_GLOBAL_HANDLE + |registered|
    ensures forall g :: g in r ==> r[g] == registered[g - FIRST_GLOBAL_HANDLE]
  {
    if registered == [] then map[]
    else
      var last := |registered| - 1;
      GlobalToFull(registered[..last])[FIRST_GLOBAL_HANDLE + last := registered[last]]
  }

  /** A sensor registered twice keeps only its latest global handle. */
  function FullToGlobal(registered: seq<FullHandle>): Handles {
    if registered == [] then map[]
    else
      var last := |registered| - 1;
      FullToGlobal(registered[..last])[registered[last] := FIRST_GLOBAL_HANDLE + last]
  }

  ghost predicate Distinct<T>(s: seq<T>) {
    forall i, j :: 0 <= i < j < |s| ==> s[i] != s[j]
  }

  ghost predicate MutuallyInverse(g2f: map<int, FullHandle>, f2g: Handles) {
    && (forall g :: g in g2f ==> g2f[g] in f2g && f2g[g2f[g]] == g)
    && (forall f :: f in f2g ==> f2g[f] in g2f && g2f[f2g[f]] == f)
  }

  /** The full-to-global map always points at an entry for that very sensor, at or after each of its entries. */
  lemma {:induction false} FullToGlobalIsLatest(registered: seq<FullHandle>)
    ensures forall f :: f in FullToGlobal(registered) <==> f in registered
    ensures forall f :: f in registered ==>
              var k := FullToGlobal(registered)[f] - FIRST_GLOBAL_HANDLE;
              0 <= k < |registered| && registered[k] == f && forall i :: k < i < |registered| ==> registered[i] != f
  {
    if registered != [] {
      var last := |registered| - 1;
      FullToGlobalIsLatest(registered[..last]);
      assert registered == registered[..last] + [registered[last]];
    }
  }

  /** The two maps are inverse to each other exactly when no sensor was registered twice. */
  lemma MapsInverseIffDistinct(registered: seq<FullHandle>)
    ensures MutuallyInverse(GlobalToFull(registered), FullToGlobal(registered)) <==> Distinct(registered)
  {
    FullToGlobalIsLatest(registered);
    var g2f, f2g := GlobalToFull(registered), FullToGlobal(registered);
    if MutuallyInverse(g2f, f2g) {
      forall i, j | 0 <= i < j < |registered|
        ensures registered[i] != registered[j]
      {
        assert g2f[FIRST_GLOBAL_HANDLE + i] == registered[i] && g2f[FIRST_GLOBAL_HANDLE + j] == registered[j];
      }
    }
    if Distinct(registered) {
      forall g | g in g2f
        ensures g2f[g] in f2g && f2g[g2f[g]] == g
      {
        assert registered[g - FIRST_GLOBAL_HANDLE] in registered;
      }
    }
  }

  /** A reading is dropped exactly when its sensor is not registered, because no handle handed out is the -1 that
      marks an unknown one.  A metadata event is dropped exactly when it arrived with -1 in its own `sensor` field,
      so one whose nested handle is unknown still goes upstream, with -1 in its payload. */
  lemma DroppedExactly(registered: seq<FullHandle>, subIndex: int, e: Event)
    ensures e.kind.Reading? ==>
              (Dropped(FullToGlobal(registered), subIndex, e) <==> FullHandle(subIndex, e.sensor) !in registered)
    ensures e.kind.MetaData? ==>
              (Dropped(FullToGlobal(registered), subIndex, e) <==> e.sensor == UNKNOWN_HANDLE)
  {
    FullToGlobalIsLatest(registered);
  }

  /** `g` is the handle to be delivered for `full`: -1 exactly for a sensor nobody registered, otherwise the handle of
      its latest registration, handle 1 belonging to the first of all. */
  ghost predicate IsHandleOf(registered: seq<FullHandle>, full: FullHandle, g: int) {
    if full !in registered then g == -1
    else 1 <= g <= |registered| && registered[g - 1] == full && forall i :: g <= i < |registered| ==> registered[i] != full
  }

  /** Of a metadata event only the nested handle changes, of any other event only `sensor`, and each becomes the handle
      of the sensor it named, of the queue the event came from. */
  lemma RemappedExactly(registered: seq<FullHandle>, queue: int, e: Event)
    ensures var r := Remapped(FullToGlobal(registered), queue, e);
            match e.kind
            case MetaData =>
              && r.kind == MetaData && r.sensor == e.sensor && r.payload == e.payload
              && IsHandleOf(registered, FullHandle(queue, e.metaSensor), r.metaSensor)
            case Reading =>
              && r.kind == Reading && r.metaSensor == e.metaSensor && r.payload == e.payload
              && IsHandleOf(registered, FullHandle(queue, e.sensor), r.sensor)
  {
    FullToGlobalIsLatest(registered);
  }

  /** The sensors of all sub-HALs in the order they are numbered; `m` is the first one's module index. */
  function Numbering(lists: seq<seq<Sensor>>): (r: seq<FullHandle>)
    ensures |r| == SensorCount(lists)
  {
    if lists == [] then []
    else
      var last := |lists| - 1;
      Numbering(lists[..last]) + ModuleNumbering(last, lists[last])
  }

  function ModuleNumbering(m: int, sensors: seq<Sensor>): (r: seq<FullHandle>)
    ensures |r| == |sensors|
  {
    seq(|sensors|, i requires 0 <= i < |sensors| => FullHandle(m, sensors[i].handle))
  }

  function SensorCount(lists: seq<seq<Sensor>>): nat {
    if lists == [] then 0 else SensorCount(lists[..|lists| - 1]) + |lists[|lists| - 1]|
  }

  /** Sensors of different modules never clash: all are distinct exactly when each module's own handles are. */
  lemma {:induction false} NumberingDistinctIffModulesAre(lists: seq<seq<Sensor>>)
    ensures Distinct(Numbering(lists)) <==>
            forall m :: 0 <= m < |lists| ==> Distinct(ModuleNumbering(m, lists[m]))
    ensures forall f :: f in Numbering(lists) ==> 0 <= f.moduleIndex < |lists|
  {
    if lists != [] {
      var last := |lists| - 1;
      var init, tail := Numbering(lists[..last]), ModuleNumbering(last, lists[last]);
      NumberingDistinctIffModulesAre(lists[..last]);
      assert Numbering(lists) == init + tail;
      assert forall m :: 0 <= m < last ==> lists[..last][m] == lists[m];
      DistinctConcat(init, tail);
    }
  }

  lemma DistinctConcat<T>(a: seq<T>, b: seq<T>)
    requires forall x :: x in a ==> x !in b
    ensures Distinct(a + b) <==> Distinct(a) && Distinct(b)
  {
    var c := a + b;
    assert forall i :: 0 <= i < |a| ==> c[i] == a[i];
    assert forall i :: 0 <= i < |b| ==> c[|a| + i] == b[i];
    if Distinct(a) && Distinct(b) {
      forall i, j | 0 <= i < j < |c|
        ensures c[i] != c[j]
      {
        if i < |a| <= j {
          assert c[i] in a && c[j] in b;
        }
      }
    }
  }

  /** Entry SensorCount(lists[..m]) + i of the numbering is sensor i of module m. */
  lemma {:induction false} EntryOf(lists: seq<seq<Sensor>>, m: nat, i: nat)
    requires m < |lists| && i < |lists[m]|
    ensures SensorCount(lists[..m]) + i < |Numbering(lists)|
    ensures Numbering(lists)[SensorCount(lists[..m]) + i] == FullHandle(m, lists[m][i].handle)
  {
    var last := |lists| - 1;
    if m < last {
      EntryOf(lists[..last], m, i);
      assert lists[..last][..m] == lists[..m];
    }
  }

  /** Every entry of the numbering is some module's sensor. */
  lemma {:induction false} OwnerOf(lists: seq<seq<Sensor>>, k: nat) returns (m: nat, i: nat)
    requires k < |Numbering(lists)|
    ensures m < |lists| && i < |lists[m]| && k == SensorCount(lists[..m]) + i
    ensures Numbering(lists)[k] == FullHandle(m, lists[m][i].handle)
  {
    var last := |lists| - 1;
    if k < SensorCount(lists[..last]) {
      m, i := OwnerOf(lists[..last], k);
      assert lists[..last][..m] == lists[..m];
    } else {
      m, i := last, k - SensorCount(lists[..last]);
    }
  }

  /** The queue of module m, when `didOpen` says which sub-HALs opened: only those get a queue. */
  function QueueIndex(didOpen: seq<bool>, m: nat): nat
    requires m <= |didOpen|
  {
    if m == 0 then 0 else QueueIndex(didOpen, m - 1) + if didOpen[m - 1] then 1 else 0
  }

  /** An event of sensor i of module m, looked up under its queue's index as poll does, gets the handle advertised for
      that sensor. */
  ghost predicate ArrivesAsListed(lists: seq<seq<Sensor>>, didOpen: seq<bool>, m: nat, i: nat)
    requires m < |lists| == |didOpen| && i < |lists[m]|
  {
    GlobalHandle(FullToGlobal(Numbering(lists)), FullHandle(QueueIndex(didOpen, m), lists[m][i].handle))
    == FIRST_GLOBAL_HANDLE + SensorCount(lists[..m]) + i
  }

  /** No sub-HAL before module m failed to open, and m gave its sensors different handles. */
  ghost predicate Deliverable(lists: seq<seq<Sensor>>, didOpen: seq<bool>, m: nat)
    requires m < |lists| == |didOpen|
  {
    (forall j :: 0 <= j < m ==> didOpen[j]) && Distinct(ModuleNumbering(m, lists[m]))
  }

  /** Every sensor of every sub-HAL that opened is delivered with the handle advertised for it, exactly when each of
      those that has sensors comes after none that failed to open and gave them different handles. */
  lemma DeliveredAsAdvertised(lists: seq<seq<Sensor>>, didOpen: seq<bool>)
    requires |lists| == |didOpen|
    ensures (forall m, i :: 0 <= m < |lists| && didOpen[m] && 0 <= i < |lists[m]| ==>
               ArrivesAsListed(lists, didOpen, m, i))
            <==> (forall m :: 0 <= m < |lists| && didOpen[m] && lists[m] != [] ==> Deliverable(lists, didOpen, m))
  {
    forall m | 0 <= m < |lists| && didOpen[m] && lists[m] != []
      ensures (forall i :: 0 <= i < |lists[m]| ==> ArrivesAsListed(lists, didOpen, m, i))
              <==> Deliverable(lists, didOpen, m)
    {
      ModuleDelivered(lists, didOpen, m);
    }
  }

  lemma ModuleDelivered(lists: seq<seq<Sensor>>, didOpen: seq<bool>, m: nat)
    requires m < |lists| == |didOpen| && lists[m] != []
    ensures (forall i :: 0 <= i < |lists[m]| ==> ArrivesAsListed(lists, didOpen, m, i))
            <==> Deliverable(lists, didOpen, m)
  {
    QueueIndexBound(didOpen, m);
    if forall i :: 0 <= i < |lists[m]| ==> ArrivesAsListed(lists, didOpen, m, i) {
      ArrivalNeedsOwnIndex(lists, didOpen, m, 0);
      forall i, j | 0 <= i < j < |lists[m]|
        ensures lists[m][i].handle != lists[m][j].handle
      {
        assert ArrivesAsListed(lists, didOpen, m, i) && ArrivesAsListed(lists, didOpen, m, j);
      }
    }
    if Deliverable(lists, didOpen, m) {
      forall i | 0 <= i < |lists[m]|
        ensures ArrivesAsListed(lists, didOpen, m, i)
      {
        SensorArrives(lists, didOpen, m, i);
      }
    }
  }

  /** The handle an entry carries was assigned under its own module's index. */
  lemma ArrivalNeedsOwnIndex(lists: seq<seq<Sensor>>, didOpen: seq<bool>, m: nat, i: nat)
    requires m < |lists| == |didOpen| && i < |lists[m]| && ArrivesAsListed(lists, didOpen, m, i)
    ensures QueueIndex(didOpen, m) == m
  {
    hide Numbering;
    hide FullToGlobal;
    hide QueueIndex;
    hide SensorCount;
    var all, full := Numbering(lists), FullHandle(QueueIndex(didOpen, m), lists[m][i].handle);
    FullToGlobalIsLatest(all);
    EntryOf(lists, m, i);
    assert full in FullToGlobal(all);
    assert all[SensorCount(lists[..m]) + i] == full;
  }

  lemma SensorArrives(lists: seq<seq<Sensor>>, didOpen: seq<bool>, m: nat, i: nat)
    requires m < |lists| == |didOpen| && i < |lists[m]| && Deliverable(lists, didOpen, m)
    ensures ArrivesAsListed(lists, didOpen, m, i)
  {
    hide Numbering;
    hide FullToGlobal;
    hide QueueIndex;
    hide SensorCount;
    var all, full := Numbering(lists), FullHandle(m, lists[m][i].handle);
    QueueIndexBound(didOpen, m);
    EntryOf(lists, m, i);
    FullToGlobalIsLatest(all);
    assert full in all;
    var m', i' := OwnerOf(lists, FullToGlobal(all)[full] - FIRST_GLOBAL_HANDLE);
    var own := ModuleNumbering(m, lists[m]);
    assert own[i] == own[i'];
  }

  /** A reading whose sensor arrives as listed is passed upstream, with the handle of the sensor's list entry. */
  lemma ReadingArrivesAsListed(lists: seq<seq<Sensor>>, didOpen: seq<bool>, m: nat, i: nat, e: Event)
    requires m < |lists| == |didOpen| && i < |lists[m]| && Deliverable(lists, didOpen, m)
    requires e.kind.Reading? && e.sensor == lists[m][i].handle
    ensures SensorCount(lists[..m]) + i < SensorCount(lists)
    ensures var handles, queue := FullToGlobal(Numbering(lists)), QueueIndex(didOpen, m);
            && !Dropped(handles, queue, e)
            && Remapped(handles, queue, e).sensor
               == Advertised(lists, FIRST_GLOBAL_HANDLE)[SensorCount(lists[..m]) + i].handle
  {
    EntryOf(lists, m, i);
    SensorArrives(lists, didOpen, m, i);
    AdvertisedEntry(lists, FIRST_GLOBAL_HANDLE, m, i);
  }

  /** A metadata event about a sensor that arrives as listed carries the sensor's list entry's handle in its payload; it
      is passed upstream unless its own `sensor` field was -1, which it keeps. */
  lemma MetaDataArrivesAsListed(lists: seq<seq<Sensor>>, didOpen: seq<bool>, m: nat, i: nat, e: Event)
    requires m < |lists| == |didOpen| && i < |lists[m]| && Deliverable(lists, didOpen, m)
    requires e.kind.MetaData? && e.metaSensor == lists[m][i].handle
    ensures SensorCount(lists[..m]) + i < SensorCount(lists)
    ensures var handles, queue := FullToGlobal(Numbering(lists)), QueueIndex(didOpen, m);
            && (Dropped(handles, queue, e) <==> e.sensor == -1)
            && Remapped(handles, queue, e)
               == e.(metaSensor := Advertised(lists, FIRST_GLOBAL_HANDLE)[SensorCount(lists[..m]) + i].handle)
  {
    EntryOf(lists, m, i);
    SensorArrives(lists, didOpen, m, i);
    AdvertisedEntry(lists, FIRST_GLOBAL_HANDLE, m, i);
  }

  /** A sub-HAL without sensors that fails to open silences the one behind it: every handle is distinct, the list
      advertises the sensor, and each of its readings is looked up under the wrong index and dropped. */
  lemma FailedSubHalSilencesTheNext(s: Sensor, e: Event)
    requires e.kind.Reading? && e.sensor == s.handle
    ensures var lists, didOpen := [[], [s]], [false, true];
            && Numbering(lists) == [FullHandle(1, s.handle)]
            && QueueIndex(didOpen, 1) == 0
            && Dropped(FullToGlobal(Numbering(lists)), QueueIndex(didOpen, 1), e)
  {
    var lists, didOpen := [[], [s]], [false, true];
    assert lists[..1] == [[]] && lists[..1][..0] == [];
    assert Numbering(lists) == Numbering([[]]) + ModuleNumbering(1, [s]);
    assert Numbering([[]]) == [];
    assert QueueIndex(didOpen, 1) == QueueIndex(didOpen, 0);
    DroppedExactly(Numbering(lists), 0, e);
  }

  /** Open the sub-HALs in turn; each that opens gets the next queue.  `owners` says which module each queue serves: the
      opened ones in order, module m at QueueIndex(didOpen, m). */
  method OpenSubHals(didOpen: seq<bool>) returns (owners: seq<nat>)
    ensures forall q :: 0 <= q < |owners| ==> owners[q] < |didOpen| && didOpen[owners[q]]
    ensures forall p, q :: 0 <= p < q < |owners| ==> owners[p] < owners[q]
    ensures forall m :: 0 <= m < |didOpen| && didOpen[m] ==>
              QueueIndex(didOpen, m) < |owners| && owners[QueueIndex(didOpen, m)] == m
  {
    hide QueueIndex;
    owners := [];
    QueueIndexSteps(didOpen, 0);
    for m := 0 to |didOpen|
      invariant |owners| == QueueIndex(didOpen, m)
      invariant forall q :: 0 <= q < |owners| ==> owners[q] < m && didOpen[owners[q]]
      invariant forall p, q :: 0 <= p < q < |owners| ==> owners[p] < owners[q]
      invariant forall k :: 0 <= k < m && didOpen[k] ==>
                  QueueIndex(didOpen, k) < |owners| && owners[QueueIndex(didOpen, k)] == k
    {
      QueueIndexSteps(didOpen, m);
      if didOpen[m] {
        ghost var before := owners;
        owners := owners + [m];
        assert forall q :: 0 <= q < |before| ==> owners[q] == before[q];
      }
    }
  }

  lemma QueueIndexSteps(didOpen: seq<bool>, m: nat)
    requires m <= |didOpen|
    ensures QueueIndex(didOpen, 0) == 0
    ensures m < |didOpen| ==> QueueIndex(didOpen, m + 1) == QueueIndex(didOpen, m) + if didOpen[m] then 1 else 0
  {
  }

  /** Events are remapped with their queue's index, sensors are registered with their module's.  The two agree
      for every sub-HAL that opened exactly when none that failed to open comes before one that did. */
  lemma QueueIndexIsModuleIndex(didOpen: seq<bool>)
    ensures (forall m :: 0 <= m < |didOpen| && didOpen[m] ==> QueueIndex(didOpen, m) == m)
            <==> forall i, j :: 0 <= i < j < |didOpen| && didOpen[j] ==> didOpen[i]
  {
    forall m | 0 <= m <= |didOpen|
      ensures QueueIndex(didOpen, m) <= m
      ensures QueueIndex(didOpen, m) == m <==> forall i :: 0 <= i < m ==> didOpen[i]
    {
      QueueIndexBound(didOpen, m);
    }
  }

  lemma {:induction false} QueueIndexBound(didOpen: seq<bool>, m: nat)
    requires m <= |didOpen|
    ensures QueueIndex(didOpen, m) <= m
    ensures QueueIndex(didOpen, m) == m <==> forall i :: 0 <= i < m ==> didOpen[i]
  {
    if m > 0 {
      QueueIndexBound(didOpen, m - 1);
    }
  }

  /** The list handed to callers: every sub-HAL's sensors in order, handles replaced by `first`, `first` + 1, ... */
  function Advertised(lists: seq<seq<Sensor>>, first: int): (r: seq<Sensor>)
    ensures |r| == SensorCount(lists)
  {
    if lists == [] then []
    else
      var init, last := lists[..|lists| - 1], lists[|lists| - 1];
      Advertised(init, first) + AdvertisedModule(last, first + SensorCount(init))
  }

  function AdvertisedModule(sensors: seq<Sensor>, first: int): (r: seq<Sensor>)
    ensures |r| == |sensors|
  {
    seq(|sensors|, i requires 0 <= i < |sensors| => Sensor(first + i, sensors[i].info))
  }

  /** Entry k of the list carries handle `first` + k, and stands for the k-th sensor numbered. */
  lemma {:induction false} AdvertisedIsConsecutive(lists: seq<seq<Sensor>>, first: int, k: nat)
    requires k < SensorCount(lists)
    ensures Advertised(lists, first)[k].handle == first + k
  {
    var init := lists[..|lists| - 1];
    if k < SensorCount(init) {
      AdvertisedIsConsecutive(init, first, k);
    }
  }

  /** List entry SensorCount(lists[..m]) + i is sensor i of module m, renumbered. */
  lemma {:induction false} AdvertisedEntry(lists: seq<seq<Sensor>>, first: int, m: nat, i: nat)
    requires m < |lists| && i < |lists[m]|
    ensures SensorCount(lists[..m]) + i < SensorCount(lists)
    ensures Advertised(lists, first)[SensorCount(lists[..m]) + i]
         == Sensor(first + SensorCount(lists[..m]) + i, lists[m][i].info)
  {
    var last := |lists| - 1;
    if m < last {
      AdvertisedEntry(lists[..last], first, m, i);
      assert lists[..last][..m] == lists[..m];
    }
  }

  /** The first `m` sub-HALs have been numbered from `first` on and listed. */
  ghost predicate Listed(lists: seq<seq<Sensor>>, m: nat, first: int, numbering: seq<FullHandle>, list: seq<Sensor>) {
    && m <= |lists|
    && numbering == Numbering(lists[..m])
    && list == Advertised(lists[..m], first)
    && |list| <= SensorCount(lists)
  }

  lemma ListOneMore(lists: seq<seq<Sensor>>, m: nat, first: int, numbering: seq<FullHandle>, list: seq<Sensor>)
    requires m < |lists| && Listed(lists, m, first, numbering, list)
    ensures Listed(lists, m + 1, first, numbering + ModuleNumbering(m, lists[m]),
                   list + AdvertisedModule(lists[m], first + |list|))
  {
    var upto := lists[..m + 1];
    assert upto[..m] == lists[..m];
    assert upto[m] == lists[m];
    SensorCountMonotone(lists, m + 1);
  }

  /** Module m is the first sub-HAL that has sensors and did not open. */
  ghost predicate FirstWithoutVersion(lists: seq<seq<Sensor>>, didOpen: seq<bool>, m: nat)
    requires m < |lists| == |didOpen|
  {
    !didOpen[m] && lists[m] != [] && forall j :: 0 <= j < m ==> didOpen[j] || lists[j] == []
  }

  lemma {:induction false} SensorCountMonotone(lists: seq<seq<Sensor>>, m: nat)
    requires m <= |lists|
    ensures SensorCount(lists[..m]) <= SensorCount(lists)
  {
    if m == |lists| {
      assert lists[..m] == lists;
    } else {
      SensorCountMonotone(lists[..|lists| - 1], m);
      assert lists[..|lists| - 1][..m] == lists[..m];
    }
  }

  /** The file's two maps and its counter. */
  class HandleRegistry {
    var globalToFull: map<int, FullHandle>
    var fullToGlobal: Handles
    var nextGlobalHandle: int
    ghost var registered: seq<FullHandle>

    ghost predicate Valid()
      reads this
    {
      && nextGlobalHandle == FIRST_GLOBAL_HANDLE + |registered|
      && globalToFull == GlobalToFull(registered)
      && fullToGlobal == FullToGlobal(registered)
    }

    constructor ()
      ensures Valid() && registered == []
    {
      globalToFull, fullToGlobal, nextGlobalHandle := map[], map[], FIRST_GLOBAL_HANDLE;
      registered := [];
    }

    method AssignGlobalHandle(moduleIndex: int, localHandle: int) returns (globalHandle: int)
      requires Valid()
      modifies this
      ensures Valid()
      ensures registered == old(registered) + [FullHandle(moduleIndex, localHandle)]
      ensures globalHandle == old(nextGlobalHandle)
    {
      globalHandle := nextGlobalHandle;
      nextGlobalHandle := nextGlobalHandle + 1;
      var full := FullHandle(moduleIndex, localHandle);
      fullToGlobal := fullToGlobal[full := globalHandle];
      globalToFull := globalToFull[globalHandle := full];
      registered := registered + [full];
      assert registered[..|registered| - 1] == old(registered);
    }

    /** The local handle behind an advertised one, or -1. */
    function GetLocalHandle(globalHandle: int): (r: int)
      reads this
      requires Valid()
      ensures FIRST_GLOBAL_HANDLE <= globalHandle < nextGlobalHandle ==>
                r == registered[globalHandle - FIRST_GLOBAL_HANDLE].localHandle
      ensures !(FIRST_GLOBAL_HANDLE <= globalHandle < nextGlobalHandle) ==> r == -1
    {
      if globalHandle !in globalToFull then -1 else globalToFull[globalHandle].localHandle
    }

    /** The module behind an advertised handle, or -1. */
    function GetModuleIndex(globalHandle: int): (r: int)
      reads this
      requires Valid()
      ensures FIRST_GLOBAL_HANDLE <= globalHandle < nextGlobalHandle ==>
                r == registered[globalHandle - FIRST_GLOBAL_HANDLE].moduleIndex
      ensures !(FIRST_GLOBAL_HANDLE <= globalHandle < nextGlobalHandle) ==> r == -1
    {
      if globalHandle !in globalToFull then -1 else globalToFull[globalHandle].moduleIndex
    }

    /** Count all sensors, then copy each sub-HAL's list into one array, numbering them consecutively.  Every sensor's
        API version is looked up among the sub-HALs that opened: the first sensor of one that did not ends the
        program, right after it was numbered. */
    method BuildSensorsList(lists: seq<seq<Sensor>>, didOpen: seq<bool>)
      returns (aborted: bool, sensors: array<Sensor>)
      requires Valid() && |lists| == |didOpen|
      modifies this
      ensures Valid() && fresh(sensors)
      ensures aborted <==> exists m :: 0 <= m < |lists| && !didOpen[m] && lists[m] != []
      ensures !aborted ==>
                && registered == old(registered) + Numbering(lists)
                && sensors[..] == Advertised(lists, old(nextGlobalHandle))
      ensures forall m :: 0 <= m < |lists| && FirstWithoutVersion(lists, didOpen, m) ==>
                registered == old(registered) + Numbering(lists[..m]) + [FullHandle(m, lists[m][0].handle)]
    {
      hide GlobalToFull;
      hide FullToGlobal;
      hide Numbering;
      hide Advertised;
      hide ModuleNumbering;
      hide AdvertisedModule;
      aborted := false;
      var count := CountSensors(lists);
      ghost var first, before := nextGlobalHandle, registered;
      ghost var numbering := [];
      sensors := new Sensor[count];
      var index := 0;
      for m := 0 to |lists|
        invariant Valid() && index <= sensors.Length
        invariant nextGlobalHandle == first + index
        invariant registered == before + numbering
        invariant Listed(lists, m, first, numbering, sensors[..index])
        invariant forall j :: 0 <= j < m ==> didOpen[j] || lists[j] == []
      {
        ListOneMore(lists, m, first, numbering, sensors[..index]);
        aborted, index := CopyModule(lists[m], m, didOpen[m], sensors, index);
        if aborted {
          assert FirstWithoutVersion(lists, didOpen, m);
          return;
        }
        numbering := numbering + ModuleNumbering(m, lists[m]);
      }
      assert lists[..|lists|] == lists;
    }

    method CountSensors(lists: seq<seq<Sensor>>) returns (count: nat)
      ensures count == SensorCount(lists)
    {
      count := 0;
      for m := 0 to |lists|
        invariant count == SensorCount(lists[..m])
      {
        assert lists[..m + 1][..m] == lists[..m];
        count := count + |lists[m]|;
      }
      assert lists[..|lists|] == lists;
    }

    /** Append one sub-HAL's sensors to the list. */
    method CopyModule(local: seq<Sensor>, m: nat, didOpen: bool, sensors: array<Sensor>, start: nat)
      returns (aborted: bool, index: nat)
      requires Valid() && start + |local| <= sensors.Length
      modifies this, sensors
      ensures Valid()
      ensures aborted <==> !didOpen && local != []
      ensures aborted ==> registered == old(registered) + [FullHandle(m, local[0].handle)]
      ensures !aborted ==>
                && registered == old(registered) + ModuleNumbering(m, local)
                && index == start + |local| && nextGlobalHandle == old(nextGlobalHandle) + |local|
                && sensors[..index] == old(sensors[..start]) + AdvertisedModule(local, old(nextGlobalHandle))
    {
      hide GlobalToFull;
      hide FullToGlobal;
      index := start;
      for i := 0 to |local|
        invariant Valid() && index == start + i && (i > 0 ==> didOpen)
        invariant registered == old(registered) + ModuleNumbering(m, local)[..i]
        invariant sensors[..index] == old(sensors[..start]) + AdvertisedModule(local, old(nextGlobalHandle))[..i]
      {
        ghost var before := sensors[..index];
        sensors[index] := local[i];
        var globalHandle := AssignGlobalHandle(m, local[i].handle);
        sensors[index] := sensors[index].(handle := globalHandle);
        if !didOpen {
          return true, index;
        }
        index := index + 1;
        assert sensors[..index] == before + [sensors[index - 1]];
      }
      return false, index;
    }
  }
}
