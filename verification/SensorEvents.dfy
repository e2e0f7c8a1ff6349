/** Sensor events and the handles they carry (sensors/multihal.cpp:68-133, 315-335). */
module SensorEvents {
  /** A metadata event names a sensor in its payload; any other event names it in `sensor`.  The payload is
      opaque: no code here looks inside it. */
  datatype EventKind = MetaData | Reading
  datatype Event = Event(kind: EventKind, sensor: int, metaSensor: int, payload: int)

  /** A sensor as its own sub-HAL knows it. */
  datatype FullHandle = FullHandle(moduleIndex: int, localHandle: int)

  type Handles = map<FullHandle, int>

  const UNKNOWN_HANDLE := -1

  /** The advertised handle, or -1 for a sensor nobody registered. */
  function GlobalHandle(handles: Handles, full: FullHandle): int {
    if full in handles then handles[full] else UNKNOWN_HANDLE
  }

  /** The event with its local handle replaced by the global one. */
  function Remapped(handles: Handles, subIndex: int, e: Event): Event {
    match e.kind
    case MetaData => e.(metaSensor := GlobalHandle(handles, FullHandle(subIndex, e.metaSensor)))
    case Reading => e.(sensor := GlobalHandle(handles, FullHandle(subIndex, e.sensor)))
  }

  /** Whether poll drops the event instead of passing it upstream. */
  predicate Dropped(handles: Handles, subIndex: int, e: Event) {
    Remapped(handles, subIndex, e).sensor == UNKNOWN_HANDLE
  }
}
