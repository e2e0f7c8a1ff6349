/** Reading firmware versions out of an IFWI image, and the check that guards flashing
    (recovery/fw_version_check.cpp:31-91, 194-265, recovery/recovery_updater.cpp:82-108, 283-297). */
module FirmwareVersion {
  import opened Wrappers
  import opened XorAlgebra
  import opened UmipChecksum
  import opened UmipFlash

  datatype FwVersion = FwVersion(major: bv16, minor: bv16)
  datatype FirmwareVersions = FirmwareVersions(
    scubootstrap: FwVersion, scu: FwVersion, ia32: FwVersion, valhooks: FwVersion,
    ifwi: FwVersion, chaabi: FwVersion, mia: FwVersion)

  const NO_VERSION := FwVersion(0, 0)
  const NO_VERSIONS :=
    FirmwareVersions(NO_VERSION, NO_VERSION, NO_VERSION, NO_VERSION, NO_VERSION, NO_VERSION, NO_VERSION)

  /** 0x50494624, "$FIP" as it lies in memory. */
  const FIP_PATTERN := Word(0x24, 0x46, 0x49, 0x50)

  /** A FIP header: a signature, 17 version blocks of 8 bytes, 15 of 12 and 4 more of 8. */
  const FIP_HEADER_SIZE: nat := 352

  const CH00_REV: nat := 36
  const SCUC_REV: nat := 60
  const MIA_REV: nat := 76
  const IA32_REV: nat := 84
  const OEM_REV: nat := 92
  const IFWI_REV: nat := 344

  function Half(s: seq<byte>, p: nat): bv16
    requires p + 2 <= |s|
  {
    (s[p] as bv16) | ((s[p + 1] as bv16) << 8)
  }

  /** A version block holds the minor number, then the major one. */
  function BlockAt(s: seq<byte>, p: nat): FwVersion
    requires p + 4 <= |s|
  {
    FwVersion(Half(s, p + 2), Half(s, p))
  }

  predicate HeaderAt(s: seq<byte>, p: nat) {
    p + FIP_HEADER_SIZE <= |s| && WordAt(s, p) == FIP_PATTERN
  }

  /** A zero number does not replace one already found. */
  function Merged(before: FwVersion, found: FwVersion): FwVersion {
    FwVersion(if found.major != 0 then found.major else before.major, if found.minor != 0 then found.minor else before.minor)
  }

  function MergeHeader(v: FirmwareVersions, s: seq<byte>, p: nat): FirmwareVersions
    requires p + FIP_HEADER_SIZE <= |s|
  {
    FirmwareVersions(
      NO_VERSION,
      Merged(v.scu, BlockAt(s, p + SCUC_REV)),
      Merged(v.ia32, BlockAt(s, p + IA32_REV)),
      Merged(v.valhooks, BlockAt(s, p + OEM_REV)),
      Merged(v.ifwi, BlockAt(s, p + IFWI_REV)),
      Merged(v.chaabi, BlockAt(s, p + CH00_REV)),
      Merged(v.mia, BlockAt(s, p + MIA_REV)))
  }

  /** All headers at the first `n` multiples of 4, merged from left to right. */
  function Versions(s: seq<byte>, n: nat): FirmwareVersions {
    if n == 0 then NO_VERSIONS
    else if HeaderAt(s, 4 * (n - 1)) then MergeHeader(Versions(s, n - 1), s, 4 * (n - 1))
    else Versions(s, n - 1)
  }

  /** How many multiples of 4 have room for a header behind them. */
  function Offsets(s: seq<byte>): nat {
    if |s| < FIP_HEADER_SIZE then 0 else (|s| - FIP_HEADER_SIZE) / 4 + 1
  }

  predicate HasHeader(s: seq<byte>, n: nat) {
    exists k :: 0 <= k < n && HeaderAt(s, 4 * k)
  }

  // ---------------------------------------------------------------- what the fold means

  datatype Component = Scu | Ia32 | Valhooks | Ifwi | Chaabi | Mia

  function Of(v: FirmwareVersions, c: Component): FwVersion {
    match c
    case Scu => v.scu
    case Ia32 => v.ia32
    case Valhooks => v.valhooks
    case Ifwi => v.ifwi
    case Chaabi => v.chaabi
    case Mia => v.mia
  }

  function RevOffset(c: Component): nat {
    match c
    case Scu => SCUC_REV
    case Ia32 => IA32_REV
    case Valhooks => OEM_REV
    case Ifwi => IFWI_REV
    case Chaabi => CH00_REV
    case Mia => MIA_REV
  }

  /** The two bytes at `p` are the number `x`, low byte first. */
  predicate NumberAt(s: seq<byte>, p: nat, x: bv16) {
    p + 2 <= |s| && s[p] as bv16 == x & 0xff && s[p + 1] as bv16 == x >> 8
  }

  lemma HalfIsNumber(s: seq<byte>, p: nat, x: bv16)
    requires p + 2 <= |s|
    ensures NumberAt(s, p, x) <==> Half(s, p) == x
  {
    BytesOfHalf(s[p], s[p + 1]);
    if NumberAt(s, p, x) {
      HalfOfBytes(s[p], s[p + 1], x);
    }
  }

  lemma BytesOfHalf(low: byte, high: byte)
    ensures var x := (low as bv16) | ((high as bv16) << 8); x & 0xff == low as bv16 && x >> 8 == high as bv16
  {
  }

  lemma HalfOfBytes(low: byte, high: byte, x: bv16)
    requires low as bv16 == x & 0xff && high as bv16 == x >> 8
    ensures (low as bv16) | ((high as bv16) << 8) == x
  {
  }

  /** `x` is the last nonzero number found at `field` of a header, or 0 when all are zero. */
  ghost predicate LastNonzero(s: seq<byte>, n: nat, field: nat, x: bv16)
    requires field + 2 <= FIP_HEADER_SIZE
  {
    if x == 0 then forall k :: 0 <= k < n && HeaderAt(s, 4 * k) ==> NumberAt(s, 4 * k + field, 0)
    else exists k :: 0 <= k < n && IsLastNonzero(s, n, field, x, k)
  }

  ghost predicate IsLastNonzero(s: seq<byte>, n: nat, field: nat, x: bv16, k: nat)
    requires field + 2 <= FIP_HEADER_SIZE
  {
    && HeaderAt(s, 4 * k) && NumberAt(s, 4 * k + field, x)
    && forall j :: k < j < n && HeaderAt(s, 4 * j) ==> NumberAt(s, 4 * j + field, 0)
  }

  lemma NumberIsUnique(s: seq<byte>, p: nat, x: bv16, y: bv16)
    requires NumberAt(s, p, x) && NumberAt(s, p, y)
    ensures x == y
  {
    HalfIsNumber(s, p, x);
    HalfIsNumber(s, p, y);
  }

  /** There is only one last nonzero number. */
  lemma LastNonzeroIsUnique(s: seq<byte>, n: nat, field: nat, x: bv16, y: bv16)
    requires field + 2 <= FIP_HEADER_SIZE && LastNonzero(s, n, field, x) && LastNonzero(s, n, field, y)
    ensures x == y
  {
    hide NumberAt;
    if x != 0 {
      var k :| 0 <= k < n && IsLastNonzero(s, n, field, x, k);
      if y != 0 {
        var l :| 0 <= l < n && IsLastNonzero(s, n, field, y, l);
        if k < l {
          NumberIsUnique(s, 4 * l + field, y, 0);
        } else if l < k {
          NumberIsUnique(s, 4 * k + field, x, 0);
        } else {
          NumberIsUnique(s, 4 * k + field, x, y);
        }
      } else {
        NumberIsUnique(s, 4 * k + field, x, 0);
      }
    } else if y != 0 {
      var l :| 0 <= l < n && IsLastNonzero(s, n, field, y, l);
      NumberIsUnique(s, 4 * l + field, y, 0);
    }
  }

  lemma LastNonzeroStep(s: seq<byte>, n: nat, field: nat, x: bv16)
    requires field + 2 <= FIP_HEADER_SIZE && n > 0 && LastNonzero(s, n - 1, field, x)
    ensures LastNonzero(s, n, field,
              if HeaderAt(s, 4 * (n - 1)) && Half(s, 4 * (n - 1) + field) != 0 then Half(s, 4 * (n - 1) + field) else x)
  {
    hide Half;
    hide NumberAt;
    if HeaderAt(s, 4 * (n - 1)) {
      HalfIsNumber(s, 4 * (n - 1) + field, Half(s, 4 * (n - 1) + field));
    }
    if HeaderAt(s, 4 * (n - 1)) && Half(s, 4 * (n - 1) + field) != 0 {
      assert IsLastNonzero(s, n, field, Half(s, 4 * (n - 1) + field), n - 1);
    } else if x != 0 {
      var k :| 0 <= k < n - 1 && IsLastNonzero(s, n - 1, field, x, k);
      assert IsLastNonzero(s, n, field, x, k);
    }
  }

  /** Each number reported is the last nonzero one in the image, and the boot strap's are zero. */
  lemma {:induction false} VersionsAreLastNonzero(s: seq<byte>, n: nat, c: Component)
    ensures LastNonzero(s, n, RevOffset(c), Of(Versions(s, n), c).minor)
    ensures LastNonzero(s, n, RevOffset(c) + 2, Of(Versions(s, n), c).major)
    ensures Versions(s, n).scubootstrap == NO_VERSION
  {
    hide LastNonzero;
    hide Half;
    if n == 0 {
      NothingFound(s, RevOffset(c));
      NothingFound(s, RevOffset(c) + 2);
    } else {
      VersionsAreLastNonzero(s, n - 1, c);
      LastNonzeroStep(s, n, RevOffset(c), Of(Versions(s, n - 1), c).minor);
      LastNonzeroStep(s, n, RevOffset(c) + 2, Of(Versions(s, n - 1), c).major);
    }
  }

  /** The record in plain offsets of the header, which starts with "$FIP" and takes 352 bytes. */
  lemma VersionsInNumbers(s: seq<byte>, p: nat, k: nat)
    ensures HeaderAt(s, p) <==>
              p + 352 <= |s| && s[p] == 0x24 && s[p + 1] == 0x46 && s[p + 2] == 0x49 && s[p + 3] == 0x50
    ensures FIP_PATTERN.Value() == 0x50494624
    ensures k < Offsets(s) <==> 4 * k + 352 <= |s|
    ensures var n, v := Offsets(s), Versions(s, Offsets(s));
            && LastNonzero(s, n, 60, v.scu.minor) && LastNonzero(s, n, 62, v.scu.major)
            && LastNonzero(s, n, 84, v.ia32.minor) && LastNonzero(s, n, 86, v.ia32.major)
            && LastNonzero(s, n, 92, v.valhooks.minor) && LastNonzero(s, n, 94, v.valhooks.major)
            && LastNonzero(s, n, 344, v.ifwi.minor) && LastNonzero(s, n, 346, v.ifwi.major)
            && LastNonzero(s, n, 36, v.chaabi.minor) && LastNonzero(s, n, 38, v.chaabi.major)
            && LastNonzero(s, n, 76, v.mia.minor) && LastNonzero(s, n, 78, v.mia.major)
            && v.scubootstrap == FwVersion(0, 0)
  {
    hide LastNonzero;
    hide Versions;
    VersionsAreLastNonzero(s, Offsets(s), Scu);
    VersionsAreLastNonzero(s, Offsets(s), Ia32);
    VersionsAreLastNonzero(s, Offsets(s), Valhooks);
    VersionsAreLastNonzero(s, Offsets(s), Ifwi);
    VersionsAreLastNonzero(s, Offsets(s), Chaabi);
    VersionsAreLastNonzero(s, Offsets(s), Mia);
  }

  lemma NothingFound(s: seq<byte>, field: nat)
    requires field + 2 <= FIP_HEADER_SIZE
    ensures LastNonzero(s, 0, field, 0)
  {
  }

  lemma {:induction false} NoHeaderNoVersions(s: seq<byte>, n: nat)
    requires !HasHeader(s, n)
    ensures Versions(s, n) == NO_VERSIONS
  {
    if n > 0 {
      assert !HeaderAt(s, 4 * (n - 1));
      NoHeaderNoVersions(s, n - 1);
    }
  }

  // ---------------------------------------------------------------- the scan

  class VersionRecord {
    var v: FirmwareVersions

    constructor (v: FirmwareVersions)
      ensures this.v == v
    {
      this.v := v;
    }

    method MergeFrom(data: seq<byte>, at: nat)
      requires at + FIP_HEADER_SIZE <= |data|
      modifies this
      ensures v == MergeHeader(old(v), data, at)
    {
      v := v.(scubootstrap := NO_VERSION);
      v := v.(scu := Merged(v.scu, BlockAt(data, at + SCUC_REV)));
      v := v.(ia32 := Merged(v.ia32, BlockAt(data, at + IA32_REV)));
      v := v.(valhooks := Merged(v.valhooks, BlockAt(data, at + OEM_REV)));
      v := v.(ifwi := Merged(v.ifwi, BlockAt(data, at + IFWI_REV)));
      v := v.(chaabi := Merged(v.chaabi, BlockAt(data, at + CH00_REV)));
      v := v.(mia := Merged(v.mia, BlockAt(data, at + MIA_REV)));
    }
  }

  lemma OneMoreOffset(s: seq<byte>, k: nat)
    ensures Versions(s, 0) == NO_VERSIONS && !HasHeader(s, 0)
    ensures Versions(s, k + 1)
         == if HeaderAt(s, 4 * k) then MergeHeader(Versions(s, k), s, 4 * k) else Versions(s, k)
    ensures HasHeader(s, k + 1) <==> HasHeader(s, k) || HeaderAt(s, 4 * k)
  {
    hide MergeHeader;
    hide WordAt;
  }

  /** The nested scan.  It fails only on a missing record or when an image with room for a header has none; an
      image too short for a header succeeds with all versions zero. */
  method GetImageFwRev(data: seq<byte>, out: VersionRecord?) returns (ret: int)
    modifies out
    ensures out == null ==> ret == -1
    ensures out != null ==>
              && out.v == Versions(data, Offsets(data))
              && (ret == -1 <==> |data| >= 352 && !StartsSomewhere(data))
              && (ret == 0 || ret == -1)
  {
    hide MergeHeader;
    hide WordAt;
    hide StartsSomewhere;
    hide Versions;
    hide HasHeader;
    HasHeaderExactly(data);
    if out == null {
      return -1;
    }
    out.v := NO_VERSIONS;
    OneMoreOffset(data, 0);
    var at, sz := 0, |data|;
    var magicFound := false;
    while sz >= FIP_HEADER_SIZE
      invariant at % 4 == 0 && at + sz == |data| && at / 4 <= Offsets(data)
      invariant out.v == Versions(data, at / 4)
      invariant magicFound <==> HasHeader(data, at / 4)
      invariant |data| >= FIP_HEADER_SIZE && !magicFound ==> sz >= FIP_HEADER_SIZE
      decreases sz
    {
      ghost var start := at;
      while sz >= FIP_HEADER_SIZE
        invariant start <= at && at % 4 == 0 && at + sz == |data| && at / 4 <= Offsets(data)
        invariant out.v == Versions(data, at / 4)
        invariant !magicFound ==> !HasHeader(data, at / 4)
        invariant magicFound ==> HasHeader(data, at / 4)
        decreases sz
      {
        if WordAt(data, at) == FIP_PATTERN {
          magicFound := true;
          break;
        }
        OneMoreOffset(data, at / 4);
        at, sz := at + 4, sz - 4;
      }
      if !magicFound {
        return -1;
      }
      if sz < FIP_HEADER_SIZE {
        break;
      }
      OneMoreOffset(data, at / 4);
      out.MergeFrom(data, at);
      at, sz := at + 4, sz - 4;
    }
    return 0;
  }

  // ---------------------------------------------------------------- the check before flashing

  /** Whether an image may replace the firmware that reports `device` (None when that cannot be read). */
  predicate Accepted(data: seq<byte>, device: Option<FirmwareVersions>) {
    && (|data| >= FIP_HEADER_SIZE ==> HasHeader(data, Offsets(data)))
    && device.Some?
    && Versions(data, Offsets(data)).ifwi.major == device.value.ifwi.major
  }

  /** Some multiple of 4 has "$FIP" and the rest of a header behind it. */
  ghost predicate StartsSomewhere(data: seq<byte>) {
    exists p :: 0 <= p && p % 4 == 0 && p + 352 <= |data| && data[p..p + 4] == [0x24, 0x46, 0x49, 0x50]
  }

  lemma HasHeaderExactly(data: seq<byte>)
    ensures HasHeader(data, Offsets(data)) <==> StartsSomewhere(data)
  {
    if HasHeader(data, Offsets(data)) {
      var k :| 0 <= k < Offsets(data) && HeaderAt(data, 4 * k);
      var p := 4 * k;
      assert p % 4 == 0 && data[p..p + 4] == [0x24, 0x46, 0x49, 0x50];
    }
    if StartsSomewhere(data) {
      var p :| 0 <= p && p % 4 == 0 && p + 352 <= |data| && data[p..p + 4] == [0x24, 0x46, 0x49, 0x50];
      assert data[p] == data[p..p + 4][0] && data[p + 1] == data[p..p + 4][1];
      assert data[p + 2] == data[p..p + 4][2] && data[p + 3] == data[p..p + 4][3];
      var k := p / 4;
      assert k < Offsets(data) && HeaderAt(data, 4 * k);
    }
  }

  /** The device's ifwi major number is the last nonzero one of the image, which has a header or no room for one. */
  ghost predicate SameMajor(data: seq<byte>, device: Option<FirmwareVersions>) {
    && device.Some?
    && (|data| < 352 || StartsSomewhere(data))
    && LastNonzero(data, Offsets(data), 346, device.value.ifwi.major)
  }

  lemma AcceptedExactly(data: seq<byte>, device: Option<FirmwareVersions>)
    ensures Accepted(data, device) <==> SameMajor(data, device)
  {
    hide LastNonzero;
    hide Versions;
    HasHeaderExactly(data);
    if device.Some? {
      var major := Versions(data, Offsets(data)).ifwi.major;
      VersionsAreLastNonzero(data, Offsets(data), Ifwi);
      if LastNonzero(data, Offsets(data), 346, device.value.ifwi.major) {
        LastNonzeroIsUnique(data, Offsets(data), 346, major, device.value.ifwi.major);
      }
    }
  }

  method CheckIfwiFile(data: seq<byte>, device: Option<FirmwareVersions>) returns (ret: int)
    ensures ret == if Accepted(data, device) then 1 else -1
    ensures ret == 1 <==> SameMajor(data, device)
  {
    AcceptedExactly(data, device);
    HasHeaderExactly(data);
    var image := new VersionRecord(NO_VERSIONS);
    var failed := GetImageFwRev(data, image);
    if failed != 0 {
      return -1;
    }
    if device.None? {
      return -1;
    }
    if image.v.ifwi.major != device.value.ifwi.major {
      return -1;
    }
    return 1;
  }

  /** Partitions are touched only when the image is accepted, and then as WriteUmip says. */
  method FlashIfwi(emmc: Emmc, data: seq<byte>, device: Option<FirmwareVersions>, faults: Faults) returns (ret: int)
    requires emmc.Valid() && |data| < 0x1_0000_0000
    modifies emmc, emmc.image0, emmc.image1
    ensures emmc.Valid() && (ret == 0 || ret == -1)
    ensures !Accepted(data, device) ==>
              && ret == -1 && emmc.Now() == old(emmc.Now()) && emmc.history == old(emmc.history)
              && emmc.lockAttempts == old(emmc.lockAttempts)
    ensures !SameMajor(data, device) ==>
              && ret == -1 && emmc.image0[..] == old(emmc.image0[..]) && emmc.image1[..] == old(emmc.image1[..])
              && emmc.writable == old(emmc.writable) && emmc.history == old(emmc.history)
    ensures ret == 0 <==> SameMajor(data, device) && faults.malloc
                          && AllWorks(faults.boot0, old(emmc.writable[0])) && AllWorks(faults.boot1, old(emmc.writable[1]))
    ensures ret == 0 ==>
              && HoldsFlash(old(emmc.image0[..]), emmc.image0[..], 0, Some(data), |data|)
              && HoldsFlash(old(emmc.image1[..]), emmc.image1[..], 0, Some(data), |data|)
    ensures Accepted(data, device) && !Starts(IFWI_OFFSET, faults) ==> ret == -1 && emmc.Now() == old(emmc.Now())
    ensures Accepted(data, device) && Starts(IFWI_OFFSET, faults) ==>
              FlashResult(IFWI_OFFSET, data[..WrittenSize(IFWI_OFFSET, |data|)], faults, ret == 0,
                          old(emmc.Now()), emmc.Now())
    ensures emmc.openFds == old(emmc.openFds) && emmc.mappings == old(emmc.mappings)
    ensures emmc.tokenBuffers == old(emmc.tokenBuffers)
    ensures Accepted(data, device) && Starts(IFWI_OFFSET, faults) ==>
              && (faults.boot0.unlock.Succeeds() ==> emmc.lockAttempts[0] > old(emmc.lockAttempts)[0])
              && ((GoesOn(faults.boot0, old(emmc.writable)[0], IFWI_OFFSET, WrittenSize(IFWI_OFFSET, |data|))
                   && faults.boot1.unlock.Succeeds()) ==>
                    emmc.lockAttempts[1] > old(emmc.lockAttempts)[1])
    ensures old(emmc.history) <= emmc.history
    ensures AtRest(old(emmc.Now())) ==>
              (AtMostOneExposed(emmc.history[|old(emmc.history)|..]) <==>
                 !(Accepted(data, device) && Starts(IFWI_OFFSET, faults)
                   && BothUnlocked(IFWI_OFFSET, WrittenSize(IFWI_OFFSET, |data|), faults)))
  {
    hide Consistent;
    hide Accepted;
    hide SameMajor;
    hide HoldsFlash;
    AcceptedExactly(data, device);
    HasHeaderExactly(data);
    ret := CheckIfwiFile(data, device);
    assert emmc.Now().images[0] == emmc.image0[..] && emmc.Now().images[1] == emmc.image1[..];
    if ret > 0 {
      ret := emmc.WriteUmip(IFWI_OFFSET, Some(data), |data|, faults);
    }
  }
}
