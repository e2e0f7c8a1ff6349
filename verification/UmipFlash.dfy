/** Writing an image to the two eMMC boot partitions (recovery/recovery_updater.cpp:61-80, 148-241).

    The kernel's answers are given by `Faults`.  Opening a partition for writing is taken to fail while the
    partition is read-only, and a mapping shows the partition's own bytes. */
module UmipFlash {
  import opened Wrappers
  import opened XorAlgebra
  import opened UmipChecksum

  const IFWI_OFFSET: nat := 0
  const TOKEN_UMIP_AREA_OFFSET: nat := 0x4000
  const TOKEN_UMIP_AREA_SIZE: nat := 0x2C00

  /** What open() and write() return when a `force_ro` file is written.  The switch takes effect when write() stores
      the one character it is given. */
  datatype RoCall = RoCall(fd: int, written: int) {
    predicate Switches() {
      fd >= 0 && written > 0
    }

    /** The caller takes 0 for success, and gets write()'s own 0 handed on. */
    predicate Succeeds() {
      fd >= 0 && written >= 0
    }
  }

  /** Reported success without any effect: exactly a write() that stored nothing. */
  predicate SucceedsInVain(c: RoCall) {
    c.fd >= 0 && c.written == 0
  }

  datatype BootFaults = BootFaults(unlock: RoCall, opens: bool, maps: bool, lock: RoCall, retry: RoCall)

  datatype Faults = Faults(malloc: bool, boot0: BootFaults, boot1: BootFaults) {
    function At(i: nat): BootFaults {
      if i == 0 then boot0 else boot1
    }
  }

  predicate Fits(offset: nat, size: nat) {
    offset + size <= BOOT_IFWI_SIZE
  }

  /** Whether a partition gets written at all, when it `was` writable before or not. */
  predicate GetsWritten(f: BootFaults, was: bool, offset: nat, size: nat) {
    (f.unlock.Switches() || (f.unlock.Succeeds() && was)) && f.opens && f.maps && Fits(offset, size)
  }

  /** Whether the loop goes on after it. */
  predicate GoesOn(f: BootFaults, was: bool, offset: nat, size: nat) {
    GetsWritten(f, was, offset, size) && f.lock.Succeeds()
  }

  /** From two read-only partitions: the first is unlocked and written and stays writable because its lock wrote
      nothing, and then the second is unlocked. */
  predicate BothUnlocked(offset: nat, size: nat, faults: Faults) {
    GoesOn(faults.boot0, false, offset, size) && SucceedsInVain(faults.boot0.lock) && faults.boot1.unlock.Switches()
  }

  /** Whether a call leaves a partition that it comes to writable: if it could not even try, as it was; if it went on
      to the next step, exactly after a lock in vain; otherwise unless the retry switched it back. */
  predicate LeftWritable(f: BootFaults, was: bool, offset: nat, size: nat) {
    if !f.unlock.Succeeds() then was
    else if GoesOn(f, was, offset, size) then SucceedsInVain(f.lock)
    else (was || f.unlock.Switches()) && !f.retry.Switches()
  }

  /** Whether the loop is reached: keeping the token area takes a buffer. */
  predicate Starts(offset: nat, faults: Faults) {
    offset == IFWI_OFFSET ==> faults.malloc
  }

  /** The size actually written: a whole image that is too long loses its tail. */
  function WrittenSize(offset: nat, size: nat): nat {
    if offset == IFWI_OFFSET && size > BOOT_IFWI_SIZE then BOOT_IFWI_SIZE else size
  }

  datatype Snapshot = Snapshot(writable: seq<bool>, images: seq<seq<byte>>)

  /** A partition that a power cut would leave unprotected or with wrong checksums. */
  ghost predicate Exposed(s: Snapshot, i: nat)
    requires i < |s.writable| && i < |s.images|
  {
    s.writable[i] || !Consistent(s.images[i])
  }

  /** Nothing is exposed. */
  ghost predicate AtRest(s: Snapshot) {
    |s.writable| == |s.images| == 2 && !Exposed(s, 0) && !Exposed(s, 1)
  }

  ghost predicate AtMostOneExposed(history: seq<Snapshot>) {
    forall k :: 0 <= k < |history| ==>
      |history[k].writable| == |history[k].images| == 2 && !(Exposed(history[k], 0) && Exposed(history[k], 1))
  }

  /** The bytes asked for: `data`, or zeros. */
  function Payload(data: Option<seq<byte>>, size: nat): (r: seq<byte>)
    requires data.Some? ==> size <= |data.value|
    ensures |r| == size
  {
    match data
    case Some(d) => d[..size]
    case None => seq(size, _ => 0)
  }

  predicate InTokenArea(p: nat) {
    TOKEN_UMIP_AREA_OFFSET <= p < TOKEN_UMIP_AREA_OFFSET + TOKEN_UMIP_AREA_SIZE
  }

  /** What belongs on a partition before the checksums: the payload at `offset`, except that writing a whole
      image keeps the partition's own token area. */
  function Spliced(was: seq<byte>, offset: nat, payload: seq<byte>): seq<byte> {
    seq(|was|, p requires 0 <= p < |was| =>
      if offset == IFWI_OFFSET && InTokenArea(p) then was[p]
      else if offset <= p < offset + |payload| then payload[p - offset]
      else was[p])
  }

  /** The partition holds the new image with all three checksum layers right.  By ConsistentImageIsUnique there is
      only one such image. */
  ghost predicate Updated(was: seq<byte>, now: seq<byte>, offset: nat, payload: seq<byte>) {
    Consistent(now) && AgreeOutsideChecksums(Spliced(was, offset, payload), now)
  }

  /** Every snapshot since `from` leaves the other partition as `before` has it, and whenever partition i is not
      writable shows it unchanged or consistent. */
  ghost predicate OnlyTouches(history: seq<Snapshot>, from: nat, i: nat, before: Snapshot)
    requires i < 2 && |before.writable| == |before.images| == 2
  {
    && from <= |history|
    && forall k :: from <= k < |history| ==>
         && |history[k].writable| == |history[k].images| == 2
         && history[k].writable[1 - i] == before.writable[1 - i]
         && history[k].images[1 - i] == before.images[1 - i]
         && (history[k].writable[i] || history[k].images[i] == before.images[i] || Consistent(history[k].images[i]))
  }

  ghost predicate EverWritable(history: seq<Snapshot>, from: nat, i: nat) {
    exists k :: from <= k < |history| && i < |history[k].writable| && history[k].writable[i]
  }

  /** A run that first touches only partition 0 and from `mid` on only partition 1 exposes both exactly when
      partition 0 was still writable while partition 1 was. */
  lemma WhenBothAreExposed(history: seq<Snapshot>, from: nat, mid: nat, was: Snapshot, between: Snapshot)
    requires from <= mid <= |history|
    requires |was.writable| == |was.images| == |between.writable| == |between.images| == 2
    requires OnlyTouches(history[..mid], from, 0, was) && OnlyTouches(history, mid, 1, between)
    requires AtRest(was) && Consistent(between.images[0]) && Consistent(between.images[1])
    ensures AtMostOneExposed(history[from..]) <==> !(between.writable[0] && EverWritable(history, mid, 1))
  {
  }

  lemma NeverBothExposed(history: seq<Snapshot>, from: nat, was: Snapshot)
    requires |was.writable| == |was.images| == 2
    requires OnlyTouches(history, from, 0, was) && AtRest(was)
    ensures AtMostOneExposed(history[from..])
  {
  }

  /** What the loop leaves behind.  Each partition is untouched or completely updated, the second only if the
      first was; success means that both were and that both locks reported success; and which of them can still be
      written is known in every case. */
  ghost predicate FlashResult(offset: nat, payload: seq<byte>, faults: Faults, ok: bool, was: Snapshot, now: Snapshot)
    requires |was.images| == |now.images| == |was.writable| == |now.writable| == 2
  {
    var n := |payload|;
    var first := GetsWritten(faults.boot0, was.writable[0], offset, n);
    var second := GoesOn(faults.boot0, was.writable[0], offset, n)
                  && GetsWritten(faults.boot1, was.writable[1], offset, n);
    && (if first then Updated(was.images[0], now.images[0], offset, payload) else now.images[0] == was.images[0])
    && (if second then Updated(was.images[1], now.images[1], offset, payload) else now.images[1] == was.images[1])
    && (ok <==> second && faults.boot1.lock.Succeeds())
    && now.writable[0] == LeftWritable(faults.boot0, was.writable[0], offset, n)
    && now.writable[1] == (if GoesOn(faults.boot0, was.writable[0], offset, n)
                           then LeftWritable(faults.boot1, was.writable[1], offset, n)
                           else was.writable[1])
  }

  /** What a flash puts on a partition, place by place.  At offset 0: its own token area and everything behind the image
      stay, the rest is the image, or zeros.  At any other offset nothing but the bytes asked for change.  The checksum
      bytes follow from the others. */
  ghost predicate HoldsFlash(was: seq<byte>, now: seq<byte>, offset: nat, data: Option<seq<byte>>, size: nat)
    requires data.Some? ==> |data.value| == size
  {
    && |was| == |now| == 0x400000 && Consistent(now)
    && forall p :: 0 <= p < |now| && !IsChecksumByte(p) ==>
         now[p] == if p < offset || offset + size <= p || (offset == 0 && 0x4000 <= p < 0x6C00) then was[p]
                   else if data.Some? then data.value[p - offset]
                   else 0
  }

  lemma UpdatedHoldsFlash(was: seq<byte>, now: seq<byte>, offset: nat, data: Option<seq<byte>>, size: nat)
    requires data.Some? ==> |data.value| == size
    requires Updated(was, now, offset, Payload(data, WrittenSize(offset, size)))
    ensures HoldsFlash(was, now, offset, data, size)
  {
    var payload := Payload(data, WrittenSize(offset, size));
    forall p | 0 <= p < |now| && !IsChecksumByte(p)
      ensures now[p] == if p < offset || offset + size <= p || (offset == 0 && 0x4000 <= p < 0x6C00) then was[p]
                        else if data.Some? then data.value[p - offset]
                        else 0
    {
      assert now[p] == Spliced(was, offset, payload)[p];
    }
  }

  lemma SplicedHoldsFlash(was: seq<byte>, now: seq<byte>, offset: nat, payload: seq<byte>)
    requires Updated(was, now, offset, payload) && offset + |payload| <= BOOT_IFWI_SIZE
    ensures HoldsFlash(was, now, offset, Some(payload), |payload|)
  {
    assert Payload(Some(payload), WrittenSize(offset, |payload|)) == payload;
    UpdatedHoldsFlash(was, now, offset, Some(payload), |payload|);
  }

  /** Wherever a call writes, it leaves such a flash. */
  lemma FlashResultHoldsFlash(offset: nat, data: Option<seq<byte>>, size: nat, faults: Faults, ok: bool,
                              was: Snapshot, now: Snapshot)
    requires data.Some? ==> |data.value| == size
    requires |was.images| == |now.images| == |was.writable| == |now.writable| == 2
    requires FlashResult(offset, Payload(data, WrittenSize(offset, size)), faults, ok, was, now)
    ensures GetsWritten(faults.boot0, was.writable[0], offset, WrittenSize(offset, size)) ==>
              HoldsFlash(was.images[0], now.images[0], offset, data, size)
    ensures (GoesOn(faults.boot0, was.writable[0], offset, WrittenSize(offset, size))
             && GetsWritten(faults.boot1, was.writable[1], offset, WrittenSize(offset, size))) ==>
              HoldsFlash(was.images[1], now.images[1], offset, data, size)
    ensures forall i :: 0 <= i < 2 ==>
              now.images[i] == was.images[i] || HoldsFlash(was.images[i], now.images[i], offset, data, size)
    ensures ok ==> forall i :: 0 <= i < 2 ==> HoldsFlash(was.images[i], now.images[i], offset, data, size)
  {
    hide Updated;
    hide HoldsFlash;
    hide Payload;
    var payload := Payload(data, WrittenSize(offset, size));
    forall i | 0 <= i < 2 && Updated(was.images[i], now.images[i], offset, payload)
      ensures HoldsFlash(was.images[i], now.images[i], offset, data, size)
    {
      UpdatedHoldsFlash(was.images[i], now.images[i], offset, data, size);
    }
  }

  /** Every call made for a partition works, when it `was` writable before or not. */
  predicate AllWorks(f: BootFaults, was: bool) {
    && f.unlock.fd >= 0 && (f.unlock.written > 0 || (f.unlock.written == 0 && was))
    && f.opens && f.maps && f.lock.fd >= 0 && f.lock.written >= 0
  }

  /** The loop succeeds exactly when every call does and the data fit; at offset 0 they are made to. */
  lemma SucceedsExactly(offset: nat, data: Option<seq<byte>>, size: nat, faults: Faults, ok: bool,
                        was: Snapshot, now: Snapshot)
    requires data.Some? ==> |data.value| == size
    requires |was.images| == |now.images| == |was.writable| == |now.writable| == 2
    requires FlashResult(offset, Payload(data, WrittenSize(offset, size)), faults, ok, was, now)
    ensures ok <==> (offset == 0 || offset + size <= 0x400000)
                    && AllWorks(faults.boot0, was.writable[0]) && AllWorks(faults.boot1, was.writable[1])
  {
    hide Updated;
  }

  /** There is only one way to update a partition. */
  lemma UpdateIsUnique(was: seq<byte>, a: seq<byte>, b: seq<byte>, offset: nat, payload: seq<byte>)
    requires Updated(was, a, offset, payload) && Updated(was, b, offset, payload)
    ensures a == b
  {
    ConsistentImageIsUnique(a, b);
  }

  /** So a call's outcome for given faults leaves one possible content for each partition. */
  lemma FlashResultIsUnique(offset: nat, payload: seq<byte>, faults: Faults, ok: bool, ok': bool,
                            was: Snapshot, now: Snapshot, now': Snapshot)
    requires |was.images| == |now.images| == |now'.images| == 2
    requires |was.writable| == |now.writable| == |now'.writable| == 2
    requires FlashResult(offset, payload, faults, ok, was, now) && FlashResult(offset, payload, faults, ok', was, now')
    ensures ok == ok' && now.images == now'.images && now.writable == now'.writable
  {
    hide Updated;
    hide GetsWritten;
    var n := |payload|;
    if GetsWritten(faults.boot0, was.writable[0], offset, n) {
      UpdateIsUnique(was.images[0], now.images[0], now'.images[0], offset, payload);
    }
    if GoesOn(faults.boot0, was.writable[0], offset, n) && GetsWritten(faults.boot1, was.writable[1], offset, n) {
      UpdateIsUnique(was.images[1], now.images[1], now'.images[1], offset, payload);
    }
  }

  /** A call that reports success has left both partitions read-only exactly when both locks really switched. */
  lemma SuccessLeavesReadOnlyExactly(offset: nat, payload: seq<byte>, faults: Faults, was: Snapshot, now: Snapshot)
    requires |was.images| == |now.images| == |was.writable| == |now.writable| == 2
    requires FlashResult(offset, payload, faults, true, was, now)
    ensures now.writable == [false, false] <==> faults.boot0.lock.Switches() && faults.boot1.lock.Switches()
  {
    hide Updated;
  }

  /** Flashing the same image again changes nothing. */
  lemma FlashingAgainChangesNothing(was: seq<byte>, now: seq<byte>, again: seq<byte>, offset: nat, payload: seq<byte>)
    requires Updated(was, now, offset, payload) && Updated(now, again, offset, payload)
    ensures again == now
  {
    hide Consistent;
    forall p | 0 <= p < |now| && !IsChecksumByte(p)
      ensures now[p] == again[p]
    {
      assert now[p] == Spliced(was, offset, payload)[p];
      assert again[p] == Spliced(now, offset, payload)[p];
    }
    ConsistentImageIsUnique(now, again);
  }

  /** After a whole image has been flashed with success, both partitions hold it, except in their token areas and
      checksums. */
  lemma FlashedPartitionsAgree(payload: seq<byte>, faults: Faults, was: Snapshot, now: Snapshot)
    requires |was.images| == |now.images| == |was.writable| == |now.writable| == 2
    requires FlashResult(IFWI_OFFSET, payload, faults, true, was, now)
    ensures |payload| <= |now.images[0]| && |payload| <= |now.images[1]|
    ensures forall p :: 0 <= p < |payload| && !InTokenArea(p) && !IsChecksumByte(p) ==>
              now.images[0][p] == now.images[1][p] == payload[p]
  {
    forall p | 0 <= p < |payload| && !InTokenArea(p) && !IsChecksumByte(p)
      ensures now.images[0][p] == now.images[1][p] == payload[p]
    {
      assert now.images[0][p] == Spliced(was.images[0], IFWI_OFFSET, payload)[p];
      assert now.images[1][p] == Spliced(was.images[1], IFWI_OFFSET, payload)[p];
    }
  }

  class Emmc {
    const image0: array<byte>
    const image1: array<byte>
    var writable: seq<bool>
    /** How often a partition has been told to be read-only. */
    var lockAttempts: seq<nat>
    var openFds: nat
    var mappings: nat
    var tokenBuffers: nat
    /** The partitions after each operation that could change them. */
    ghost var history: seq<Snapshot>

    ghost predicate Valid()
      reads this
    {
      && image0 != image1 && image0.Length == image1.Length == BOOT_IFWI_SIZE
      && |writable| == |lockAttempts| == 2
    }

    function Image(i: nat): array<byte> {
      if i == 0 then image0 else image1
    }

    ghost function Now(): Snapshot
      reads this, image0, image1
    {
      Snapshot(writable, [image0[..], image1[..]])
    }

    constructor (image0: array<byte>, image1: array<byte>)
      requires image0 != image1 && image0.Length == image1.Length == BOOT_IFWI_SIZE
      ensures Valid() && this.image0 == image0 && this.image1 == image1
      ensures writable == [false, false] && lockAttempts == [0, 0]
      ensures openFds == mappings == tokenBuffers == 0 && history == []
    {
      this.image0, this.image1 := image0, image1;
      writable, lockAttempts := [false, false], [0, 0];
      openFds, mappings, tokenBuffers := 0, 0, 0;
      history := [];
    }

    /** Write "1" or "0" to the partition's `force_ro` file.  The result is 0 exactly when the file opened and write()
        did not fail, which is also when write() stored nothing and so switched nothing. */
    method SetForceRo(i: nat, readOnly: bool, c: RoCall) returns (ret: int)
      requires Valid() && i < 2
      modifies this`writable, this`lockAttempts, this`openFds, this`history
      ensures Valid() && openFds == old(openFds)
      ensures ret == 0 <==> c.Succeeds()
      ensures ret == 0 && !c.Switches() <==> SucceedsInVain(c)
      ensures writable == if c.Switches() then old(writable)[i := !readOnly] else old(writable)
      ensures lockAttempts == if readOnly then old(lockAttempts)[i := old(lockAttempts)[i] + 1] else old(lockAttempts)
      ensures history == old(history) + [Now()]
    {
      if readOnly {
        lockAttempts := lockAttempts[i := lockAttempts[i] + 1];
      }
      if c.fd < 0 {
        history := history + [Now()];
        return c.fd;
      }
      openFds := openFds + 1;
      ret := c.written;
      if ret > 0 {
        writable := writable[i := !readOnly];
      }
      history := history + [Now()];
      if ret <= 0 {
        Close();
        return ret;
      }
      Close();
      return 0;
    }

    method Open(i: nat, works: bool) returns (ok: bool)
      requires Valid() && i < 2
      modifies this`openFds
      ensures ok == (works && writable[i])
      ensures openFds == old(openFds) + if ok then 1 else 0
    {
      ok := works && writable[i];
      if ok {
        openFds := openFds + 1;
      }
    }

    method Close()
      requires openFds > 0
      modifies this`openFds
      ensures openFds == old(openFds) - 1
    {
      openFds := openFds - 1;
    }

    method Map(works: bool) returns (ok: bool)
      requires openFds > 0
      modifies this`mappings
      ensures ok == works && mappings == old(mappings) + if ok then 1 else 0
    {
      ok := works;
      if ok {
        mappings := mappings + 1;
      }
    }

    method Unmap()
      requires mappings > 0
      modifies this`mappings
      ensures mappings == old(mappings) - 1
    {
      mappings := mappings - 1;
    }

    /** memcpy into a mapped, writable partition. */
    method Write(i: nat, at: nat, bytes: seq<byte>)
      requires Valid() && i < 2 && writable[i] && mappings > 0
      requires at + |bytes| <= BOOT_IFWI_SIZE
      modifies Image(i), this`history
      ensures forall p :: 0 <= p < BOOT_IFWI_SIZE ==>
                Image(i)[p] == if at <= p < at + |bytes| then bytes[p - at] else old(Image(i)[p])
      ensures history == old(history) + [Now()]
    {
      var a := Image(i);
      forall k | 0 <= k < |bytes| {
        a[at + k] := bytes[k];
      }
      history := history + [Now()];
    }

    /** Put the new image on the mapped partition and recompute its checksums. */
    method Splice(i: nat, offset: nat, payload: seq<byte>)
      requires Valid() && i < 2 && writable[i] && mappings > 0
      requires offset + |payload| <= BOOT_IFWI_SIZE
      modifies Image(i), this`history
      ensures Updated(old(Image(i)[..]), Image(i)[..], offset, payload) && Consistent(Image(i)[..])
      ensures HoldsFlash(old(Image(i)[..]), Image(i)[..], offset, Some(payload), |payload|)
      ensures OnlyTouches(history, |old(history)|, i, old(Now()))
      ensures old(history) <= history
    {
      hide Consistent;
      hide AgreeOutsideChecksums;
      hide HoldsFlash;
      var a := Image(i);
      ghost var was := a[..];
      var token := [];
      if offset == IFWI_OFFSET {
        token := a[TOKEN_UMIP_AREA_OFFSET..TOKEN_UMIP_AREA_OFFSET + TOKEN_UMIP_AREA_SIZE];
      }
      Write(i, offset, payload);
      if offset == IFWI_OFFSET {
        Write(i, TOKEN_UMIP_AREA_OFFSET, token);
      }
      assert a[..] == Spliced(was, offset, payload);
      XorUpdate(a);
      SplicedHoldsFlash(was, a[..], offset, payload);
      history := history + [Now()];
    }

    /** Open and map the partition, write it, and put everything away again; on failure the descriptor may be
        left open. */
    method WritePartition(i: nat, offset: nat, payload: seq<byte>, f: BootFaults) returns (ok: bool, bootFd: bool)
      requires Valid() && i < 2
      modifies Image(i), this`openFds, this`mappings, this`history
      ensures Valid()
      ensures ok == (writable[i] && f.opens && f.maps && Fits(offset, |payload|))
      ensures mappings == old(mappings) && openFds == old(openFds) + if bootFd then 1 else 0
      ensures ok ==> !bootFd && Updated(old(Image(i)[..]), Image(i)[..], offset, payload)
      ensures ok ==> Consistent(Image(i)[..])
      ensures !ok ==> Image(i)[..] == old(Image(i)[..])
      ensures OnlyTouches(history, |old(history)|, i, old(Now())) && old(history) <= history
      ensures !old(writable[i]) ==> !EverWritable(history, |old(history)|, i)
    {
      hide Consistent;
      hide Updated;
      bootFd := Open(i, f.opens);
      if !bootFd {
        return false, false;
      }
      var mapped := Map(f.maps);
      if !mapped {
        return false, true;
      }
      if offset + |payload| > BOOT_IFWI_SIZE {
        Unmap();
        return false, true;
      }
      Splice(i, offset, payload);
      Unmap();
      Close();
      return true, false;
    }

    /** One turn of the loop over the partitions.  On failure it says which of the two cleanups are due. */
    method FlashPartition(i: nat, offset: nat, payload: seq<byte>, f: BootFaults)
      returns (ok: bool, bootFd: bool, partitionWritable: bool)
      requires Valid() && i < 2
      modifies Image(i), this`writable, this`lockAttempts, this`openFds, this`mappings, this`history
      ensures Valid()
      ensures ok == GoesOn(f, old(writable)[i], offset, |payload|)
      ensures !ok ==> partitionWritable == f.unlock.Succeeds()
      ensures mappings == old(mappings) && openFds == old(openFds) + if bootFd then 1 else 0
      ensures ok ==> !bootFd
      ensures if GetsWritten(f, old(writable)[i], offset, |payload|)
              then Updated(old(Image(i)[..]), Image(i)[..], offset, payload) && Consistent(Image(i)[..])
              else Image(i)[..] == old(Image(i)[..])
      ensures writable == old(writable)[i := (old(writable)[i] || f.unlock.Switches()) &&
                                             !(GetsWritten(f, old(writable)[i], offset, |payload|) && f.lock.Switches())]
      ensures lockAttempts == old(lockAttempts)[i := old(lockAttempts)[i] +
                                                     if GetsWritten(f, old(writable)[i], offset, |payload|) then 1 else 0]
      ensures OnlyTouches(history, |old(history)|, i, old(Now()))
      ensures old(history) <= history
      ensures EverWritable(history, |old(history)|, i) <==> old(writable)[i] || f.unlock.Switches()
    {
      hide Consistent;
      hide Updated;
      ghost var h := |history|;
      var ret := SetForceRo(i, false, f.unlock);
      assert history[h].writable[i] == (old(writable)[i] || f.unlock.Switches());
      if ret != 0 {
        return false, false, false;
      }
      var written;
      written, bootFd := WritePartition(i, offset, payload, f);
      assert history[h].writable[i] == (old(writable)[i] || f.unlock.Switches());
      if !written {
        return false, bootFd, true;
      }
      ret := SetForceRo(i, true, f.lock);
      assert history[h].writable[i];
      return ret == 0, false, ret != 0;
    }

    /** The way out of a failed turn. */
    method CleanUp(i: nat, bootFd: bool, partitionWritable: bool, token: bool, retry: RoCall)
      requires Valid() && i < 2
      requires (bootFd ==> openFds > 0) && (token ==> tokenBuffers > 0)
      modifies this`writable, this`lockAttempts, this`openFds, this`tokenBuffers, this`history
      ensures Valid()
      ensures openFds == old(openFds) - (if bootFd then 1 else 0)
      ensures tokenBuffers == old(tokenBuffers) - (if token then 1 else 0)
      ensures writable == if partitionWritable && retry.Switches() then old(writable)[i := false] else old(writable)
      ensures lockAttempts == if partitionWritable then old(lockAttempts)[i := old(lockAttempts)[i] + 1]
                              else old(lockAttempts)
      ensures OnlyTouches(history, |old(history)|, i, old(Now())) && old(history) <= history
      ensures !old(writable[i]) ==> !EverWritable(history, |old(history)|, i)
    {
      hide Consistent;
      if token {
        tokenBuffers := tokenBuffers - 1;
      }
      if bootFd {
        Close();
      }
      if partitionWritable {
        var _ := SetForceRo(i, true, retry);
      }
    }

    /** One turn of the loop with, if it fails, the way out. */
    method Turn(i: nat, offset: nat, payload: seq<byte>, token: bool, f: BootFaults) returns (ok: bool)
      requires Valid() && i < 2
      requires token ==> tokenBuffers > 0
      modifies Image(i), this
      ensures Valid()
      ensures ok == GoesOn(f, old(writable)[i], offset, |payload|)
      ensures openFds == old(openFds) && mappings == old(mappings)
      ensures tokenBuffers == old(tokenBuffers) - (if !ok && token then 1 else 0)
      ensures if GetsWritten(f, old(writable)[i], offset, |payload|)
              then Updated(old(Image(i)[..]), Image(i)[..], offset, payload) && Consistent(Image(i)[..])
              else Image(i)[..] == old(Image(i)[..])
      ensures writable[1 - i] == old(writable)[1 - i] && writable[i] == LeftWritable(f, old(writable)[i], offset, |payload|)
      ensures lockAttempts[1 - i] == old(lockAttempts)[1 - i]
      ensures lockAttempts[i] >= old(lockAttempts)[i] + if f.unlock.Succeeds() then 1 else 0
      ensures old(history) <= history && OnlyTouches(history, |old(history)|, i, old(Now()))
      ensures EverWritable(history, |old(history)|, i) <==> old(writable)[i] || f.unlock.Switches()
    {
      hide Consistent;
      hide Updated;
      ghost var from := |history|;
      var bootFd, partitionWritable;
      ok, bootFd, partitionWritable := FlashPartition(i, offset, payload, f);
      if !ok {
        ghost var mid := history;
        CleanUp(i, bootFd, partitionWritable, token, f.retry);
        assert forall k :: 0 <= k < |mid| ==> history[k] == mid[k];
        if EverWritable(mid, from, i) {
          var k :| from <= k < |mid| && i < |mid[k].writable| && mid[k].writable[i];
          assert history[k].writable[i];
        }
      }
    }

    /** The loop over the partitions. */
    method FlashBoth(offset: nat, payload: seq<byte>, token: bool, faults: Faults) returns (ok: bool)
      requires Valid() && (token ==> tokenBuffers > 0)
      modifies this, image0, image1
      ensures Valid() && FlashResult(offset, payload, faults, ok, old(Now()), Now())
      ensures openFds == old(openFds) && mappings == old(mappings)
      ensures tokenBuffers == old(tokenBuffers) - if !ok && token then 1 else 0
      ensures faults.boot0.unlock.Succeeds() ==> lockAttempts[0] > old(lockAttempts)[0]
      ensures (GoesOn(faults.boot0, old(writable)[0], offset, |payload|) && faults.boot1.unlock.Succeeds()) ==>
                lockAttempts[1] > old(lockAttempts)[1]
      ensures old(history) <= history
      ensures AtRest(old(Now())) ==>
                (AtMostOneExposed(history[|old(history)|..]) <==> !BothUnlocked(offset, |payload|, faults))
    {
      hide Consistent;
      hide Updated;
      hide OnlyTouches;
      hide EverWritable;
      hide AtMostOneExposed;
      hide Fits;
      ghost var from, was := |history|, Now();
      var bootIndex := 0;
      while bootIndex < 2
        invariant 0 <= bootIndex <= 2 && Valid()
        invariant openFds == old(openFds) && mappings == old(mappings) && tokenBuffers == old(tokenBuffers)
        invariant old(history) <= history
        invariant bootIndex == 0 ==> Now() == was && |history| == from && lockAttempts == old(lockAttempts)
        invariant bootIndex > 0 ==>
                    && GoesOn(faults.boot0, was.writable[0], offset, |payload|)
                    && Updated(was.images[0], image0[..], offset, payload) && Consistent(image0[..])
                    && writable[0] == SucceedsInVain(faults.boot0.lock)
                    && lockAttempts[0] > old(lockAttempts)[0]
        invariant bootIndex == 1 ==>
                    && writable[1] == was.writable[1] && image1[..] == was.images[1]
                    && lockAttempts[1] == old(lockAttempts)[1] && OnlyTouches(history, from, 0, was)
        invariant bootIndex == 2 ==>
                    && GoesOn(faults.boot1, was.writable[1], offset, |payload|)
                    && Updated(was.images[1], image1[..], offset, payload)
                    && writable[1] == SucceedsInVain(faults.boot1.lock)
                    && lockAttempts[1] > old(lockAttempts)[1]
                    && (AtRest(was) ==>
                          (AtMostOneExposed(history[from..]) <==> !BothUnlocked(offset, |payload|, faults)))
      {
        ghost var between, before := Now(), history;
        ok := Turn(bootIndex, offset, payload, token, faults.At(bootIndex));
        if AtRest(was) {
          if bootIndex == 1 {
            assert history[..|before|] == before;
            WhenBothAreExposed(history, from, |before|, was, between);
          } else if !ok {
            NeverBothExposed(history, from, was);
          }
        }
        if !ok {
          return false;
        }
        bootIndex := bootIndex + 1;
      }
      return true;
    }

    /** Flash an image, or zeros, at `offset` on both partitions. */
    method WriteUmip(offset: nat, data: Option<seq<byte>>, size: nat, faults: Faults) returns (ret: int)
      requires Valid()
      requires data.Some? ==> |data.value| == size
      requires offset + size < 0x1_0000_0000
      modifies this, image0, image1
      ensures Valid() && old(history) <= history
      ensures ret == 0 || ret == -1
      ensures (offset != 0 || faults.malloc) ==>
                FlashResult(offset, Payload(data, WrittenSize(offset, size)), faults, ret == 0, old(Now()), Now())
      ensures (offset == 0 && !faults.malloc) ==> ret == -1 && Now() == old(Now()) && history == old(history)
      // When it succeeds, and what is on the partitions afterwards, place by place.
      ensures ret == 0 <==> (offset == 0 ==> faults.malloc) && (offset == 0 || offset + size <= 0x400000)
                            && AllWorks(faults.boot0, old(writable[0])) && AllWorks(faults.boot1, old(writable[1]))
      ensures image0[..] == old(image0[..]) || HoldsFlash(old(image0[..]), image0[..], offset, data, size)
      ensures image1[..] == old(image1[..]) || HoldsFlash(old(image1[..]), image1[..], offset, data, size)
      ensures ret == 0 ==>
                && HoldsFlash(old(image0[..]), image0[..], offset, data, size)
                && HoldsFlash(old(image1[..]), image1[..], offset, data, size)
      // Nothing is leaked; that nothing is closed, unmapped or freed twice is what those operations require.
      ensures openFds == old(openFds) && mappings == old(mappings) && tokenBuffers == old(tokenBuffers)
      // Whatever has been made writable has been told to be read-only again.
      ensures Starts(offset, faults) ==>
                && (faults.boot0.unlock.Succeeds() ==> lockAttempts[0] > old(lockAttempts)[0])
                && ((GoesOn(faults.boot0, old(writable)[0], offset, WrittenSize(offset, size))
                     && faults.boot1.unlock.Succeeds()) ==>
                      lockAttempts[1] > old(lockAttempts)[1])
      // From two read-only, consistent partitions: at no moment are both at risk, unless a lock that "succeeded" by
      // writing nothing let the loop go on with the first partition still writable.
      ensures AtRest(old(Now())) ==>
                (AtMostOneExposed(history[|old(history)|..]) <==>
                   !(Starts(offset, faults) && BothUnlocked(offset, WrittenSize(offset, size), faults)))
    {
      var n := size;
      if offset == IFWI_OFFSET {
        if !faults.malloc {
          return -1;
        }
        tokenBuffers := tokenBuffers + 1;
        if n > BOOT_IFWI_SIZE {
          n := BOOT_IFWI_SIZE;
        }
      }
      hide Consistent;
      hide Updated;
      hide AtMostOneExposed;
      hide Payload;
      hide HoldsFlash;
      hide AllWorks;
      ghost var was := Now();
      var token := offset == IFWI_OFFSET;
      var ok := FlashBoth(offset, Payload(data, n), token, faults);
      SucceedsExactly(offset, data, size, faults, ok, was, Now());
      FlashResultHoldsFlash(offset, data, size, faults, ok, was, Now());
      assert Now().images[0] == image0[..] && Now().images[1] == image1[..];
      if !ok {
        return -1;
      }
      if token {
        tokenBuffers := tokenBuffers - 1;
      }
      return 0;
    }
  }

  /** Such a flash: every call works, but the first lock's write() stores nothing.  It reports success, after a moment
      in which both partitions were writable. */
  method LockThatWritesNothing(emmc: Emmc, data: Option<seq<byte>>, size: nat) returns (ret: int)
    requires emmc.Valid() && AtRest(emmc.Now())
    requires size <= BOOT_IFWI_SIZE && (data.Some? ==> |data.value| == size)
    modifies emmc, emmc.image0, emmc.image1
    ensures ret == 0 && emmc.writable == [true, false]
    ensures old(emmc.history) <= emmc.history && !AtMostOneExposed(emmc.history[|old(emmc.history)|..])
  {
    hide Consistent;
    hide Updated;
    hide AtMostOneExposed;
    var works := RoCall(3, 1);
    var fine := BootFaults(works, true, true, works, works);
    var faults := Faults(true, fine.(lock := RoCall(3, 0)), fine);
    ret := emmc.WriteUmip(IFWI_OFFSET, data, size, faults);
  }
}
