/** Serialising a graphic buffer into words and file descriptors, and back
    (libshims/ui/GraphicBuffer.cpp:292-414).  `size` counts bytes, with four to an int; size_t has 32 bits. */
module GraphicBuffers {
  import opened Wrappers

  type int32 = x: int | -0x8000_0000 <= x < 0x8000_0000
  type uint64 = x: int | 0 <= x < 0x1_0000_0000_0000_0000

  const TWO_TO_THE_32: nat := 0x1_0000_0000
  /** 'GBFR' */
  const MAGIC: int32 := 0x47424652
  const FIXED_WORDS: nat := 10
  const MAX_NUMBER: nat := 4096

  datatype Status = NoError | NoMemory | BadType | BadValue | RegisterFailed

  /** A native handle: its file descriptors, then its ints. */
  datatype Handle = Handle(fds: seq<int32>, ints: seq<int32>)

  datatype Value = Value(width: int32, height: int32, stride: int32, format: int32, usage: int32,
                         id: uint64, handle: Option<Handle>)
  {
    function Fds(): seq<int32> {
      if handle.Some? then handle.value.fds else []
    }

    function Ints(): seq<int32> {
      if handle.Some? then handle.value.ints else []
    }

    /** What is left when a handle cannot be rebuilt. */
    function Cleared(): Value {
      Value(0, 0, 0, 0, 0, id, None)
    }
  }

  /** static_cast<int32_t> of the low 32 bits */
  function ToInt32(x: nat): int32 {
    var w := x % TWO_TO_THE_32;
    if w < 0x8000_0000 then w else w - TWO_TO_THE_32
  }

  /** static_cast<size_t> and static_cast<uint32_t> */
  function ToUnsigned(w: int32): nat {
    if w < 0 then w + TWO_TO_THE_32 else w
  }

  /** The high word is sign-extended to 64 bits before it is shifted up, which shifts the sign out again.  The low
      half is then zero, so that or-ing the low word in is adding it. */
  function JoinId(high: int32, low: int32): uint64 {
    var extended := (high as int) + if high < 0 then 0x1_0000_0000_0000_0000 else 0;
    extended * TWO_TO_THE_32 % 0x1_0000_0000_0000_0000 + ToUnsigned(low)
  }

  lemma Zero()
    ensures ToInt32(0) == 0
  {
  }

  lemma IdRoundTrip(id: uint64)
    ensures JoinId(ToInt32(id / TWO_TO_THE_32), ToInt32(id)) == id
  {
    var h := id / TWO_TO_THE_32;
    assert h < TWO_TO_THE_32;
    var high := ToInt32(h);
    assert ToUnsigned(high) == h;
    var extended := (high as int) + if high < 0 then 0x1_0000_0000_0000_0000 else 0;
    assert extended == h || extended == h + (TWO_TO_THE_32 - 1) * TWO_TO_THE_32;
    assert extended * TWO_TO_THE_32 % 0x1_0000_0000_0000_0000 == h * TWO_TO_THE_32;
  }

  function FixedWords(v: Value): (w: seq<int32>)
    ensures |w| == FIXED_WORDS
  {
    [MAGIC, v.width, v.height, v.stride, v.format, v.usage,
     ToInt32(v.id / TWO_TO_THE_32), ToInt32(v.id), ToInt32(|v.Fds()|), ToInt32(|v.Ints()|)]
  }

  lemma WordsInOrder(v: Value)
    ensures var w := FixedWords(v);
            && w[0] == 0x47424652 && w[1] == v.width && w[2] == v.height && w[3] == v.stride && w[4] == v.format
            && w[5] == v.usage && ToUnsigned(w[6]) * 0x1_0000_0000 + ToUnsigned(w[7]) == v.id
            && (|v.Fds()| < 0x8000_0000 ==> w[8] == |v.Fds()|)
            && (|v.Ints()| < 0x8000_0000 ==> w[9] == |v.Ints()|)
  {
  }

  /** The words flattening writes. */
  function Words(v: Value): (w: seq<int32>)
    ensures |w| == FIXED_WORDS + |v.Ints()|
  {
    FixedWords(v) + v.Ints()
  }

  /** The words unflattening looks at before it knows how many there are; `memory` is what lies at the address it is
      given, and the input the first `size` bytes of that. */
  function HeadReads(memory: seq<int32>, size: nat): set<nat>
    requires size <= |memory| * 4
  {
    if size < 8 * 4 then {}
    else if memory[0] != MAGIC then {0}
    else {0, 8, 9}
  }

  /** There is memory under all of them. */
  predicate HeadExists(memory: seq<int32>, size: nat) {
    size <= |memory| * 4 && (8 * 4 <= size && memory[0] == MAGIC ==> FIXED_WORDS <= |memory|)
  }

  /** How unflattening judges the words, before it looks at what the system can do. */
  function Verdict(words: seq<int32>, size: nat, count: nat): Status
    requires HeadExists(words, size)
  {
    if size < 8 * 4 then NoMemory
    else if words[0] != MAGIC then BadType
    else if ToUnsigned(words[8]) >= MAX_NUMBER || ToUnsigned(words[9]) >= MAX_NUMBER - 10 then BadValue
    else if size < (FIXED_WORDS + ToUnsigned(words[9])) * 4 then NoMemory
    else if count < ToUnsigned(words[8]) then NoMemory
    else NoError
  }

  /** All the words it looks at. */
  function WordsRead(memory: seq<int32>, size: nat, count: nat, creates: bool): set<nat>
    requires HeadExists(memory, size)
  {
    HeadReads(memory, size) +
    if Verdict(memory, size, count) != NoError then {}
    else
      var numFds, numInts := ToUnsigned(memory[8]), ToUnsigned(memory[9]);
      if numFds == 0 && numInts == 0 then {6, 7}
      else if !creates then {1, 2, 3, 4, 5}
      else {1, 2, 3, 4, 5} + Range(FIXED_WORDS, numInts) + {6, 7}
  }

  function Range(from: nat, n: nat): (r: set<nat>)
    ensures forall w: nat :: w in r <==> from <= w < from + n
  {
    if n == 0 then {} else Range(from, n - 1) + {from + n - 1}
  }

  predicate InInput(word: nat, size: nat) {
    (word + 1) * 4 <= size
  }

  /** The first words read lie within the input exactly when it is refused for its size or its first word, or has all
      ten of the fixed words; eight are enough to get past the test of the size. */
  lemma HeadReadsInside(memory: seq<int32>, size: nat)
    requires size <= |memory| * 4
    ensures (forall w :: w in HeadReads(memory, size) ==> InInput(w, size))
            <==> size < 8 * 4 || memory[0] != MAGIC || FIXED_WORDS * 4 <= size
  {
    if 8 * 4 <= size && memory[0] == MAGIC {
      assert 9 in HeadReads(memory, size);
      assert InInput(9, size) <==> FIXED_WORDS * 4 <= size;
    }
  }

  /** And so for all the words read: nothing later goes beyond the input. */
  lemma AllReadsInside(memory: seq<int32>, size: nat, count: nat, creates: bool)
    requires HeadExists(memory, size)
    ensures (forall w :: w in WordsRead(memory, size, count, creates) ==> InInput(w, size))
            <==> size < 8 * 4 || memory[0] != MAGIC || FIXED_WORDS * 4 <= size
  {
    HeadReadsInside(memory, size);
    forall w | w in WordsRead(memory, size, count, creates) && w !in HeadReads(memory, size)
      ensures InInput(w, size)
    {
    }
  }

  /** Such an input: eight words that start with the right one. */
  lemma EightWordsAreTooFew(rest: seq<int32>)
    requires |rest| == 7
    ensures var input := [MAGIC] + rest; 8 in HeadReads(input, |input| * 4) && 8 >= |input|
  {
  }

  /** The buffer the words and descriptors stand for. */
  function Rebuilt(words: seq<int32>, fds: seq<int32>): Value
    requires FIXED_WORDS <= |words|
    requires ToUnsigned(words[8]) <= |fds| && FIXED_WORDS + ToUnsigned(words[9]) <= |words|
  {
    var numFds, numInts := ToUnsigned(words[8]), ToUnsigned(words[9]);
    var id := JoinId(words[6], words[7]);
    if numFds == 0 && numInts == 0 then Value(0, 0, 0, 0, 0, id, None)
    else Value(words[1], words[2], words[3], words[4], words[5], id,
               Some(Handle(fds[..numFds], words[FIXED_WORDS..FIXED_WORDS + numInts])))
  }

  /** Flattened words are accepted exactly when the handle is within the limits. */
  lemma FlattenedIsAccepted(v: Value, rest: seq<int32>, size: nat, count: nat)
    requires |v.Fds()| < 0x8000_0000 && |v.Ints()| < 0x8000_0000 - FIXED_WORDS
    requires |Words(v)| * 4 <= size <= |Words(v) + rest| * 4 && |v.Fds()| <= count
    ensures Verdict(Words(v) + rest, size, count)
            == if |v.Fds()| < 4096 && |v.Ints()| < 4086 then NoError else BadValue
  {
  }

  /** Flattening and unflattening give back the same buffer exactly when its handle holds something: without one,
      or with an empty one, everything but the id is lost, which shows unless it was all zero already.  Both sides
      move over the same number of words and descriptors. */
  lemma RoundTrip(v: Value, rest: seq<int32>, moreFds: seq<int32>)
    requires |v.Fds()| < MAX_NUMBER && |v.Ints()| < MAX_NUMBER - 10
    ensures var r := Rebuilt(Words(v) + rest, v.Fds() + moreFds);
            && r.id == v.id
            && ToUnsigned(Words(v)[8]) == |v.Fds()| && FIXED_WORDS + ToUnsigned(Words(v)[9]) == |Words(v)|
            && (r == v <==> |v.Fds()| + |v.Ints()| > 0 || v == v.Cleared())
  {
    IdRoundTrip(v.id);
    var words := Words(v) + rest;
    assert ToUnsigned(words[8]) == |v.Fds()| && ToUnsigned(words[9]) == |v.Ints()|;
    assert words[FIXED_WORDS..FIXED_WORDS + |v.Ints()|] == v.Ints();
    assert (v.Fds() + moreFds)[..|v.Fds()|] == v.Fds();
  }

  class GraphicBuffer {
    var width: int32
    var height: int32
    var stride: int32
    var format: int32
    var usage: int32
    var mId: uint64
    var handle: Option<Handle>

    function State(): Value
      reads this
    {
      Value(width, height, stride, format, usage, mId, handle)
    }

    constructor (v: Value)
      ensures State() == v
    {
      width, height, stride, format, usage, mId, handle :=
        v.width, v.height, v.stride, v.format, v.usage, v.id, v.handle;
    }

    function GetFlattenedSize(): (r: nat)
      reads this
      ensures r == |Words(State())| * 4
    {
      (FIXED_WORDS + if handle.Some? then |handle.value.ints| else 0) * 4
    }

    function GetFdCount(): (r: nat)
      reads this
      ensures r == |State().Fds()|
    {
      if handle.Some? then |handle.value.fds| else 0
    }

    /** Write the buffer into `buffer` and `fds` (from `fdsAt` on); the results are the advanced size, position and
        count. */
    method Flatten(buffer: array<int32>, size: nat, fds: array<int32>, fdsAt: nat, count: nat)
      returns (status: Status, newSize: nat, newFdsAt: nat, newCount: nat)
      requires buffer != fds && size <= buffer.Length * 4 && fdsAt + count <= fds.Length
      modifies buffer, fds
      ensures status == if size < GetFlattenedSize() || count < GetFdCount() then NoMemory else NoError
      ensures status != NoError ==>
                && buffer[..] == old(buffer[..]) && fds[..] == old(fds[..])
                && newSize == size && newFdsAt == fdsAt && newCount == count
      ensures status == NoError ==>
                && 10 <= buffer.Length && buffer[0] == 0x47424652
                && buffer[1] == width && buffer[2] == height && buffer[3] == stride && buffer[4] == format
                && buffer[5] == usage
                && ToUnsigned(buffer[6]) * 0x1_0000_0000 + ToUnsigned(buffer[7]) == mId
      ensures status == NoError && |State().Fds()| < 0x8000_0000 && |State().Ints()| < 0x8000_0000 ==>
                buffer[8] == |State().Fds()| && buffer[9] == |State().Ints()|
      ensures status == NoError ==>
                var n, m := |State().Fds()|, |Words(State())|;
                && buffer[..] == Words(State()) + old(buffer[m..])
                && fds[..] == old(fds[..fdsAt]) + State().Fds() + old(fds[fdsAt + n..])
                && newSize == size - m * 4 && newFdsAt == fdsAt + n && newCount == count - n
    {
      hide FixedWords;
      hide ToInt32;
      hide ToUnsigned;
      WordsInOrder(State());
      newSize, newFdsAt, newCount := size, fdsAt, count;
      var sizeNeeded := GetFlattenedSize();
      if size < sizeNeeded {
        return NoMemory, newSize, newFdsAt, newCount;
      }
      var fdCountNeeded := GetFdCount();
      if count < fdCountNeeded {
        return NoMemory, newSize, newFdsAt, newCount;
      }
      WriteFixedWords(buffer);
      if handle.Some? {
        var h := handle.value;
        CopyInto(fds, fdsAt, h.fds);
        CopyInto(buffer, FIXED_WORDS, h.ints);
      }
      newSize := newSize - sizeNeeded;
      if handle.Some? {
        newFdsAt := newFdsAt + |handle.value.fds|;
        newCount := newCount - |handle.value.fds|;
      }
      return NoError, newSize, newFdsAt, newCount;
    }

    method WriteFixedWords(buffer: array<int32>)
      requires buffer.Length >= FIXED_WORDS
      modifies buffer
      ensures buffer[..] == FixedWords(State()) + old(buffer[FIXED_WORDS..])
    {
      hide ToInt32;
      Zero();
      WriteGeometry(buffer);
      buffer[6], buffer[7] := ToInt32(mId / TWO_TO_THE_32), ToInt32(mId);
      buffer[8], buffer[9] := 0, 0;
      if handle.Some? {
        buffer[8], buffer[9] := ToInt32(|handle.value.fds|), ToInt32(|handle.value.ints|);
      }
    }

    method WriteGeometry(buffer: array<int32>)
      requires buffer.Length >= FIXED_WORDS
      modifies buffer
      ensures buffer[..6] == [MAGIC, width, height, stride, format, usage]
      ensures forall i :: FIXED_WORDS <= i < buffer.Length ==> buffer[i] == old(buffer[i])
    {
      buffer[0], buffer[1], buffer[2], buffer[3], buffer[4], buffer[5] := MAGIC, width, height, stride, format, usage;
    }

    /** One word of the input, noted in what has been read. */
    method ReadWord(buffer: array<int32>, i: nat, ghost seen: set<nat>) returns (w: int32, ghost read: set<nat>)
      requires i < buffer.Length
      ensures w == buffer[i] && read == seen + {i}
    {
      return buffer[i], seen + {i};
    }

    /** Rebuild the buffer.  `creates` and `registers` say whether the system can make and register the handle.  There
        must be memory where words 8 and 9 are read; whether that is still input is for HeadReadsInside to say. */
    method Unflatten(buffer: array<int32>, size: nat, fds: array<int32>, fdsAt: nat, count: nat,
                     creates: bool, registers: bool)
      returns (status: Status, newSize: nat, newFdsAt: nat, newCount: nat, ghost read: set<nat>)
      requires HeadExists(buffer[..], size) && fdsAt + count <= fds.Length
      modifies this
      ensures read == WordsRead(buffer[..], size, count, creates)
      ensures size < 32 ==> status == NoMemory
      ensures size >= 32 && buffer[0] != 0x47424652 ==> status == BadType
      ensures size >= 32 && buffer[0] == 0x47424652 ==>
                var fdCount, intCount := ToUnsigned(buffer[8]), ToUnsigned(buffer[9]);
                && (fdCount >= 4096 || intCount >= 4086 ==> status == BadValue)
                && (fdCount < 4096 && intCount < 4086 && (size < (10 + intCount) * 4 || count < fdCount) ==>
                      status == NoMemory && State() == old(State()))
      ensures Verdict(buffer[..], size, count) != NoError ==>
                && status == Verdict(buffer[..], size, count)
                && State() == if status == BadValue then old(State()).Cleared() else old(State())
      ensures Verdict(buffer[..], size, count) == NoError ==>
                var r := Rebuilt(buffer[..], fds[fdsAt..]);
                if r.handle.Some? && !creates then status == NoMemory && State() == old(State()).Cleared()
                else if r.handle.Some? && !registers then status == RegisterFailed && State() == r.Cleared()
                else status == NoError && State() == r
      ensures status != NoError ==> newSize == size && newFdsAt == fdsAt && newCount == count
      ensures status == NoError ==>
                && FIXED_WORDS <= buffer.Length
                && newSize == size - (FIXED_WORDS + ToUnsigned(buffer[9])) * 4
                && newFdsAt == fdsAt + ToUnsigned(buffer[8]) && newCount == count - ToUnsigned(buffer[8])
    {
      hide JoinId;
      hide ToUnsigned;
      newSize, newFdsAt, newCount, read := size, fdsAt, count, {};
      if size < 8 * 4 {
        return NoMemory, newSize, newFdsAt, newCount, read;
      }
      var magic, w8, w9;
      magic, read := ReadWord(buffer, 0, read);
      if magic != MAGIC {
        return BadType, newSize, newFdsAt, newCount, read;
      }
      w8, read := ReadWord(buffer, 8, read);
      w9, read := ReadWord(buffer, 9, read);
      var numFds, numInts := ToUnsigned(w8), ToUnsigned(w9);
      if numFds >= MAX_NUMBER || numInts >= MAX_NUMBER - 10 {
        Clear();
        return BadValue, newSize, newFdsAt, newCount, read;
      }
      var sizeNeeded := (FIXED_WORDS + numInts) * 4;
      if size < sizeNeeded || count < numFds {
        return NoMemory, newSize, newFdsAt, newCount, read;
      }
      status, read := Rebuild(buffer, numFds, numInts, fds, fdsAt, creates, registers, read);
      if status != NoError {
        return status, newSize, newFdsAt, newCount, read;
      }
      return NoError, newSize - sizeNeeded, newFdsAt + numFds, newCount - numFds, read;
    }

    method ReadGeometry(buffer: array<int32>, ghost seen: set<nat>) returns (ghost read: set<nat>)
      requires FIXED_WORDS <= buffer.Length
      modifies this
      ensures State() == Value(buffer[1], buffer[2], buffer[3], buffer[4], buffer[5], old(mId), old(handle))
      ensures read == seen + {1, 2, 3, 4, 5}
    {
      width, read := ReadWord(buffer, 1, seen);
      height, read := ReadWord(buffer, 2, read);
      stride, read := ReadWord(buffer, 3, read);
      format, read := ReadWord(buffer, 4, read);
      usage, read := ReadWord(buffer, 5, read);
    }

    /** What is done with accepted words. */
    method Rebuild(buffer: array<int32>, numFds: nat, numInts: nat, fds: array<int32>, fdsAt: nat,
                   creates: bool, registers: bool, ghost seen: set<nat>)
      returns (status: Status, ghost read: set<nat>)
      requires FIXED_WORDS + numInts <= buffer.Length && fdsAt + numFds <= fds.Length
      requires numFds == ToUnsigned(buffer[8]) && numInts == ToUnsigned(buffer[9])
      modifies this
      ensures var r := Rebuilt(buffer[..], fds[fdsAt..]);
              if r.handle.Some? && !creates then status == NoMemory && State() == old(State()).Cleared()
              else if r.handle.Some? && !registers then status == RegisterFailed && State() == r.Cleared()
              else status == NoError && State() == r
      ensures read == seen + if numFds == 0 && numInts == 0 then {6, 7}
                             else if !creates then {1, 2, 3, 4, 5}
                             else {1, 2, 3, 4, 5} + Range(FIXED_WORDS, numInts) + {6, 7}
    {
      hide JoinId;
      hide ToUnsigned;
      hide Range;
      read := seen;
      if numFds != 0 || numInts != 0 {
        read := ReadGeometry(buffer, read);
        if !creates {
          Clear();
          return NoMemory, read;
        }
        handle := Some(Handle(fds[fdsAt..fdsAt + numFds], buffer[FIXED_WORDS..FIXED_WORDS + numInts]));
        read := read + Range(FIXED_WORDS, numInts);
        assert fds[fdsAt..][..numFds] == fds[fdsAt..fdsAt + numFds];
      } else {
        Clear();
      }
      var w6, w7;
      w6, read := ReadWord(buffer, 6, read);
      w7, read := ReadWord(buffer, 7, read);
      mId := JoinId(w6, w7);
      if handle.Some? && !registers {
        Clear();
        return RegisterFailed, read;
      }
      return NoError, read;
    }

    method Clear()
      modifies this
      ensures State() == old(State()).Cleared()
    {
      width, height, stride, format, usage := 0, 0, 0, 0, 0;
      handle := None;
    }
  }

  /** memcpy */
  method CopyInto(a: array<int32>, at: nat, s: seq<int32>)
    requires at + |s| <= a.Length
    modifies a
    ensures a[..] == old(a[..at]) + s + old(a[at + |s|..])
  {
    forall i | 0 <= i < |s| {
      a[at + i] := s[i];
    }
  }
}
