/** The Intel boot image as a value: its layout, what packing puts where and what unpacking takes out
    (mkbootimg/bootheader.h:29-73, mkbootimg/pack.c:56-161, mkbootimg/unpack.c:88-143). */
module BootImage {
  import opened XorAlgebra

  const HEADER_SIZE: nat := 56
  const XOR_AT: nat := 7
  const SECTORS_AT: nat := 48
  const CMDLINE_START: nat := 0x3E0
  const CMDLINE_SIZE: nat := 0x400
  const CMDLINE_END: nat := 0x7E0
  const BZIMAGE_SIZE_AT: nat := CMDLINE_END
  const INITRD_SIZE_AT: nat := CMDLINE_END + 4
  /** sizeof(struct bootheader) */
  const STUB_SIZE: nat := 0x33E0
  const SECTOR_SIZE: nat := 0x200
  const BUFSIZ: nat := 8192
  const TWO_TO_THE_32: nat := 0x1_0000_0000

  // ---------------------------------------------------------------- numbers in the header

  function FromByte(b: byte): (x: nat)
    ensures x < 256
  {
    b as int
  }

  /** The byte with value `x`, counted up: the solver knows nothing useful about converting a number directly. */
  function ToByte(x: nat): (b: byte)
    requires x < 256
    ensures FromByte(b) == x
  {
    if x == 0 then 0 else ToByte(x - 1) + 1
  }

  lemma ToFromByte(b: byte)
    ensures ToByte(FromByte(b)) == b
  {
    var c := ToByte(FromByte(b));
    BytesOrdered(b, c);
    BytesOrdered(c, b);
  }

  lemma BytesOrdered(b: byte, c: byte)
    ensures b < c ==> b as int < c as int
  {
  }

  /** htole32 */
  function Le32(n: nat): (s: seq<byte>)
    requires n < TWO_TO_THE_32
    ensures |s| == 4
  {
    [ToByte(n % 256), ToByte(n / 256 % 256), ToByte(n / 256 / 256 % 256), ToByte(n / 256 / 256 / 256)]
  }

  /** le32toh of the four bytes at `p` */
  function Le32At(s: seq<byte>, p: nat): (n: nat)
    requires p + 4 <= |s|
    ensures n < TWO_TO_THE_32
  {
    hide FromByte;
    FromByte(s[p]) + 256 * (FromByte(s[p + 1]) + 256 * (FromByte(s[p + 2]) + 256 * FromByte(s[p + 3])))
  }

  lemma Le32Decodes(n: nat)
    requires n < TWO_TO_THE_32
    ensures Le32At(Le32(n), 0) == n
  {
  }

  lemma Le32Encodes(s: seq<byte>, p: nat)
    requires p + 4 <= |s|
    ensures Le32(Le32At(s, p)) == s[p..p + 4]
  {
    hide ToByte;
    hide FromByte;
    var a, b, c, d := FromByte(s[p]), FromByte(s[p + 1]), FromByte(s[p + 2]), FromByte(s[p + 3]);
    DigitsOf(a, b, c, d);
    ToFromByte(s[p]);
    ToFromByte(s[p + 1]);
    ToFromByte(s[p + 2]);
    ToFromByte(s[p + 3]);
  }

  lemma DigitsOf(a: nat, b: nat, c: nat, d: nat)
    requires a < 256 && b < 256 && c < 256 && d < 256
    ensures var n := a + 256 * (b + 256 * (c + 256 * d));
            n % 256 == a && n / 256 % 256 == b && n / 256 / 256 % 256 == c && n / 256 / 256 / 256 == d
  {
  }

  /** `bytes` stored at `p`. */
  function Put(s: seq<byte>, p: nat, bytes: seq<byte>): (r: seq<byte>)
    requires p + |bytes| <= |s|
    ensures |r| == |s|
    ensures forall i :: 0 <= i < |s| ==> r[i] == if p <= i < p + |bytes| then bytes[i - p] else s[i]
  {
    s[..p] + bytes + s[p + |bytes|..]
  }

  // ---------------------------------------------------------------- packing

  /** The size rounded up to whole sectors. */
  function Rounded(total: nat): nat {
    if total % SECTOR_SIZE > 0 then total + (SECTOR_SIZE - total % SECTOR_SIZE) else total
  }

  /** How many padding bytes are written.  When nothing needs padding the source never sets its variable, whose
      value is then `stale`. */
  function Padding(total: nat, stale: nat): nat {
    if total % SECTOR_SIZE > 0 then SECTOR_SIZE - total % SECTOR_SIZE else stale
  }

  /** The `sectors` field, in 32-bit arithmetic. */
  function SectorsField(total: nat): (n: nat)
    ensures n < TWO_TO_THE_32
  {
    (Rounded(total) % TWO_TO_THE_32 / SECTOR_SIZE + (TWO_TO_THE_32 - 1)) % TWO_TO_THE_32
  }

  function Truncated(cmdline: seq<byte>): seq<byte> {
    if |cmdline| <= CMDLINE_SIZE then cmdline else cmdline[..CMDLINE_SIZE]
  }

  /** XOR of the first 56 bytes without the checksum byte itself. */
  function Checksum(h: seq<byte>): byte
    requires |h| >= HEADER_SIZE
  {
    Xor8(h[XOR_AT], XorBytes(h, 0, HEADER_SIZE))
  }

  /** The header before its checksum is set. */
  function Patched(origin: seq<byte>, cmdline: seq<byte>, bzSize: nat, rdSize: nat): (h: seq<byte>)
    requires |origin| >= STUB_SIZE
    ensures |h| == STUB_SIZE
  {
    var h1 := Put(origin[..STUB_SIZE], CMDLINE_START, Truncated(cmdline));
    var h2 := Put(h1, BZIMAGE_SIZE_AT, Le32(bzSize % TWO_TO_THE_32));
    var h3 := Put(h2, INITRD_SIZE_AT, Le32(rdSize % TWO_TO_THE_32));
    Put(h3, SECTORS_AT, Le32(SectorsField(STUB_SIZE + bzSize + rdSize)))
  }

  function Header(origin: seq<byte>, cmdline: seq<byte>, bzSize: nat, rdSize: nat): (h: seq<byte>)
    requires |origin| >= STUB_SIZE
    ensures |h| == STUB_SIZE
  {
    var h := Patched(origin, cmdline, bzSize, rdSize);
    h[XOR_AT := Checksum(h)]
  }

  function Filler(n: nat): seq<byte> {
    seq(n, _ => 0xff)
  }

  /** The whole output file. */
  function Packed(origin: seq<byte>, bzImage: seq<byte>, ramdisk: seq<byte>, cmdline: seq<byte>, stale: nat): seq<byte>
    requires |origin| >= STUB_SIZE
  {
    Header(origin, cmdline, |bzImage|, |ramdisk|) + bzImage + ramdisk
    + Filler(Padding(STUB_SIZE + |bzImage| + |ramdisk|, stale))
  }

  // ---------------------------------------------------------------- unpacking

  datatype Parts = Parts(bzImage: seq<byte>, ramdisk: seq<byte>, cmdline: seq<byte>)

  /** A file of this length holds `n` bytes from `p` on. */
  predicate Holds(fileLength: nat, p: nat, n: nat) {
    n == 0 || p + n <= fileLength
  }

  predicate HasSizeFields(image: seq<byte>) {
    |image| >= INITRD_SIZE_AT + 4
  }

  /** The image holds everything its size fields announce. */
  predicate Complete(image: seq<byte>) {
    && HasSizeFields(image)
    && var bzSize, rdSize := Le32At(image, BZIMAGE_SIZE_AT), Le32At(image, INITRD_SIZE_AT);
       Holds(|image|, STUB_SIZE, bzSize) && Holds(|image|, STUB_SIZE + bzSize, rdSize)
  }

  function Slice(s: seq<byte>, p: nat, n: nat): (r: seq<byte>)
    requires Holds(|s|, p, n)
    ensures |r| == n
  {
    if n == 0 then [] else s[p..p + n]
  }

  function Unpacked(image: seq<byte>): Parts
    requires Complete(image)
  {
    var bzSize, rdSize := Le32At(image, BZIMAGE_SIZE_AT), Le32At(image, INITRD_SIZE_AT);
    Parts(Slice(image, STUB_SIZE, bzSize),
          Slice(image, STUB_SIZE + bzSize, rdSize),
          Slice(image, CMDLINE_START, CMDLINE_SIZE))
  }

  // ---------------------------------------------------------------- the copy loop

  /** How many bytes one turn of the copy loop moves: what is missing, what the buffer takes or what the file has left,
      whichever is least. */
  function Chunk(fileLength: nat, p: nat, missing: nat): nat {
    var wanted := if missing > BUFSIZ then BUFSIZ else missing;
    if p + wanted <= fileLength then wanted else if p <= fileLength then fileLength - p else 0
  }

  /** What is missing after `turns` turns of the loop. */
  function MissingAfter(fileLength: nat, p: nat, missing: nat, turns: nat): nat
    decreases turns
  {
    if turns == 0 || missing == 0 then missing
    else
      var n := Chunk(fileLength, p, missing);
      MissingAfter(fileLength, p + n, missing - n, turns - 1)
  }

  /** The copy loop ends exactly when the file holds all it is to copy; on a shorter file it comes to a turn that moves
      nothing, and repeats that for ever. */
  lemma CopyEndsExactly(fileLength: nat, p: nat, length: nat)
    ensures (exists turns: nat :: MissingAfter(fileLength, p, length, turns) == 0) <==> Holds(fileLength, p, length)
  {
    if Holds(fileLength, p, length) {
      CopyEnds(fileLength, p, length);
    } else {
      forall turns: nat
        ensures MissingAfter(fileLength, p, length, turns) != 0
      {
        CopyStarves(fileLength, p, length, turns);
      }
    }
  }

  lemma {:induction false} CopyEnds(fileLength: nat, p: nat, missing: nat)
    requires Holds(fileLength, p, missing)
    ensures MissingAfter(fileLength, p, missing, missing) == 0
    decreases missing
  {
    if missing > 0 {
      var n := Chunk(fileLength, p, missing);
      CopyEnds(fileLength, p + n, missing - n);
      MoreTurns(fileLength, p + n, missing - n, missing - n, missing - 1);
    }
  }

  lemma {:induction false} MoreTurns(fileLength: nat, p: nat, missing: nat, turns: nat, more: nat)
    requires turns <= more && MissingAfter(fileLength, p, missing, turns) == 0
    ensures MissingAfter(fileLength, p, missing, more) == 0
    decreases turns
  {
    if turns > 0 && missing > 0 {
      var n := Chunk(fileLength, p, missing);
      MoreTurns(fileLength, p + n, missing - n, turns - 1, more - 1);
    }
  }

  lemma {:induction false} CopyStarves(fileLength: nat, p: nat, missing: nat, turns: nat)
    requires !Holds(fileLength, p, missing)
    ensures MissingAfter(fileLength, p, missing, turns) != 0
    decreases turns
  {
    if turns > 0 {
      var n := Chunk(fileLength, p, missing);
      CopyStarves(fileLength, p + n, missing - n, turns - 1);
    }
  }

  // ---------------------------------------------------------------- round trip

  /** A field holds `n` when its four bytes are those of `n`, and the other way round. */
  lemma Le32Field(s: seq<byte>, p: nat, n: nat)
    requires p + 4 <= |s| && n < TWO_TO_THE_32
    ensures s[p..p + 4] == Le32(n) <==> Le32At(s, p) == n
  {
    hide FromByte;
    hide ToByte;
    if s[p..p + 4] == Le32(n) {
      Le32Decodes(n);
      Le32Frame(s, p, Le32(n), 0);
    } else {
      Le32Encodes(s, p);
    }
  }

  lemma Le32Frame(s: seq<byte>, p: nat, t: seq<byte>, q: nat)
    requires p + 4 <= |s| && q + 4 <= |t| && s[p..p + 4] == t[q..q + 4]
    ensures Le32At(s, p) == Le32At(t, q)
  {
    hide FromByte;
    var x, y := s[p..p + 4], t[q..q + 4];
    assert s[p] == x[0] && s[p + 1] == x[1] && s[p + 2] == x[2] && s[p + 3] == x[3];
    assert t[q] == y[0] && t[q + 1] == y[1] && t[q + 2] == y[2] && t[q + 3] == y[3];
  }

  /** What each field of a packed header says. */
  lemma HeaderFields(origin: seq<byte>, cmdline: seq<byte>, bzSize: nat, rdSize: nat)
    requires |origin| >= STUB_SIZE
    ensures var h := Header(origin, cmdline, bzSize, rdSize);
            && Le32At(h, BZIMAGE_SIZE_AT) == bzSize % TWO_TO_THE_32
            && Le32At(h, INITRD_SIZE_AT) == rdSize % TWO_TO_THE_32
            && Le32At(h, SECTORS_AT) == SectorsField(STUB_SIZE + bzSize + rdSize)
            && h[CMDLINE_START..CMDLINE_END]
               == Truncated(cmdline) + origin[CMDLINE_START + |Truncated(cmdline)|..CMDLINE_END]
  {
    hide Checksum;
    hide SectorsField;
    hide Le32At;
    hide Le32;
    var h := Header(origin, cmdline, bzSize, rdSize);
    assert h[BZIMAGE_SIZE_AT..BZIMAGE_SIZE_AT + 4] == Le32(bzSize % TWO_TO_THE_32);
    assert h[INITRD_SIZE_AT..INITRD_SIZE_AT + 4] == Le32(rdSize % TWO_TO_THE_32);
    assert h[SECTORS_AT..SECTORS_AT + 4] == Le32(SectorsField(STUB_SIZE + bzSize + rdSize));
    Le32Field(h, BZIMAGE_SIZE_AT, bzSize % TWO_TO_THE_32);
    Le32Field(h, INITRD_SIZE_AT, rdSize % TWO_TO_THE_32);
    Le32Field(h, SECTORS_AT, SectorsField(STUB_SIZE + bzSize + rdSize));
  }

  lemma PackedFields(origin: seq<byte>, bzImage: seq<byte>, ramdisk: seq<byte>, cmdline: seq<byte>, stale: nat)
    requires |origin| >= STUB_SIZE
    ensures var image := Packed(origin, bzImage, ramdisk, cmdline, stale);
            && Complete(image)
            && Le32At(image, BZIMAGE_SIZE_AT) == |bzImage| % TWO_TO_THE_32
            && Le32At(image, INITRD_SIZE_AT) == |ramdisk| % TWO_TO_THE_32
            && Le32At(image, SECTORS_AT) == SectorsField(STUB_SIZE + |bzImage| + |ramdisk|)
            && image[CMDLINE_START..CMDLINE_END]
               == Truncated(cmdline) + origin[CMDLINE_START + |Truncated(cmdline)|..CMDLINE_END]
  {
    hide Header;
    hide SectorsField;
    hide Le32At;
    var image := Packed(origin, bzImage, ramdisk, cmdline, stale);
    var h := Header(origin, cmdline, |bzImage|, |ramdisk|);
    HeaderFields(origin, cmdline, |bzImage|, |ramdisk|);
    assert image[..STUB_SIZE] == h;
    assert image[BZIMAGE_SIZE_AT..BZIMAGE_SIZE_AT + 4] == h[BZIMAGE_SIZE_AT..BZIMAGE_SIZE_AT + 4];
    assert image[INITRD_SIZE_AT..INITRD_SIZE_AT + 4] == h[INITRD_SIZE_AT..INITRD_SIZE_AT + 4];
    assert image[SECTORS_AT..SECTORS_AT + 4] == h[SECTORS_AT..SECTORS_AT + 4];
    Le32Frame(image, BZIMAGE_SIZE_AT, h, BZIMAGE_SIZE_AT);
    Le32Frame(image, INITRD_SIZE_AT, h, INITRD_SIZE_AT);
    Le32Frame(image, SECTORS_AT, h, SECTORS_AT);
    assert image[CMDLINE_START..CMDLINE_END] == h[CMDLINE_START..CMDLINE_END];
    assert |bzImage| % TWO_TO_THE_32 <= |bzImage| && |ramdisk| % TWO_TO_THE_32 <= |ramdisk|;
  }

  /** Unpacking a packed image gives back the kernel and the ramdisk exactly when the length of each fits its
      32-bit field, and always the command line, filled up with what the origin had behind a shorter one. */
  lemma RoundTrip(origin: seq<byte>, bzImage: seq<byte>, ramdisk: seq<byte>, cmdline: seq<byte>, stale: nat)
    requires |origin| >= STUB_SIZE
    ensures var image := Packed(origin, bzImage, ramdisk, cmdline, stale);
            && Complete(image)
            && (Unpacked(image).bzImage == bzImage && Unpacked(image).ramdisk == ramdisk
                <==> |bzImage| < TWO_TO_THE_32 && |ramdisk| < TWO_TO_THE_32)
            && Unpacked(image).cmdline
               == Truncated(cmdline) + origin[CMDLINE_START + |Truncated(cmdline)|..CMDLINE_END]
  {
    hide Header;
    hide Le32At;
    var image := Packed(origin, bzImage, ramdisk, cmdline, stale);
    PackedFields(origin, bzImage, ramdisk, cmdline, stale);
    var parts := Unpacked(image);
    if |bzImage| < TWO_TO_THE_32 && |ramdisk| < TWO_TO_THE_32 {
      assert parts.bzImage == bzImage;
      assert parts.ramdisk == ramdisk;
    } else {
      assert |parts.bzImage| < TWO_TO_THE_32 && |parts.ramdisk| < TWO_TO_THE_32;
    }
  }

  /** The length is what the `sectors` field says, with less than a sector of filler, exactly when the rounded
      size fits in 32 bits and the padding variable was set, or happened to hold 0. */
  lemma LengthMatchesSectors(origin: seq<byte>, bzImage: seq<byte>, ramdisk: seq<byte>, cmdline: seq<byte>, stale: nat)
    requires |origin| >= STUB_SIZE && stale <= BUFSIZ
    requires |bzImage| < TWO_TO_THE_32 && |ramdisk| < TWO_TO_THE_32
    ensures var image := Packed(origin, bzImage, ramdisk, cmdline, stale);
            var total := STUB_SIZE + |bzImage| + |ramdisk|;
            |image| == (Le32At(image, SECTORS_AT) + 1) * SECTOR_SIZE
            <==> Rounded(total) < TWO_TO_THE_32 && (total % SECTOR_SIZE > 0 || stale == 0)
  {
    hide Header;
    hide Le32At;
    var image := Packed(origin, bzImage, ramdisk, cmdline, stale);
    var total := STUB_SIZE + |bzImage| + |ramdisk|;
    PackedFields(origin, bzImage, ramdisk, cmdline, stale);
    SectorsFieldIs(total);
  }

  lemma SectorsFieldIs(total: nat)
    requires STUB_SIZE <= total < 4 * TWO_TO_THE_32
    ensures Rounded(total) % SECTOR_SIZE == 0 && total <= Rounded(total)
    ensures Rounded(total) < TWO_TO_THE_32 ==> (SectorsField(total) + 1) * SECTOR_SIZE == Rounded(total)
    ensures Rounded(total) >= TWO_TO_THE_32 ==>
              || (SectorsField(total) + 1) * SECTOR_SIZE < TWO_TO_THE_32
              || SectorsField(total) == TWO_TO_THE_32 - 1
  {
  }

  /** Whatever checksum byte the origin held, the first 56 bytes of a packed header cancel. */
  lemma HeaderCancels(origin: seq<byte>, cmdline: seq<byte>, bzSize: nat, rdSize: nat)
    requires |origin| >= STUB_SIZE
    ensures XorBytes(Header(origin, cmdline, bzSize, rdSize), 0, HEADER_SIZE) == 0
  {
    hide Patched;
    hide Xor8;
    var h := Patched(origin, cmdline, bzSize, rdSize);
    var x := XorBytes(h, 0, HEADER_SIZE);
    XorBytesChange(h, h[XOR_AT := Checksum(h)], 0, HEADER_SIZE, XOR_AT);
    XorLaws(h[XOR_AT], x);
    XorLaws(x, x);
  }

  // ---------------------------------------------------------------- the format in plain numbers

  /** The number of the four bytes at `p`, low byte first. */
  function NumberAt(s: seq<byte>, p: nat): int
    requires p + 4 <= |s|
  {
    (s[p] as int) + 0x100 * (s[p + 1] as int) + 0x1_0000 * (s[p + 2] as int) + 0x100_0000 * (s[p + 3] as int)
  }

  lemma Le32IsLowByteFirst(s: seq<byte>, p: nat)
    requires p + 4 <= |s|
    ensures Le32At(s, p) == NumberAt(s, p)
  {
    FromByteIsValue(s[p]);
    FromByteIsValue(s[p + 1]);
    FromByteIsValue(s[p + 2]);
    FromByteIsValue(s[p + 3]);
    hide FromByte;
  }

  lemma FromByteIsValue(b: byte)
    ensures FromByte(b) == b as int
  {
  }

  /** Byte by byte: the first 992 bytes are the origin's, except for the checksum at 7 and the sector count at 48; then
      1024 bytes of command line, where a shorter one leaves the origin's; the two sizes; the rest of the origin's first
      13280 bytes; kernel; ramdisk; and 0xff up to the end. */
  lemma PackedByteByByte(origin: seq<byte>, bzImage: seq<byte>, ramdisk: seq<byte>, cmdline: seq<byte>, stale: nat,
                         p: nat)
    requires |origin| >= 13280
    ensures var image, end := Packed(origin, bzImage, ramdisk, cmdline, stale), 13280 + |bzImage| + |ramdisk|;
            && |image| == end + (if end % 512 > 0 then 512 - end % 512 else stale)
            && NumberAt(image, 2016) == |bzImage| % 0x1_0000_0000
            && NumberAt(image, 2020) == |ramdisk| % 0x1_0000_0000
            && XorBytes(image, 0, 56) == 0
            && (p < 13280 && p != 7 && !(48 <= p < 52) && !(992 <= p < 2024) ==> image[p] == origin[p])
            && (992 <= p < 2016 ==> image[p] == if p - 992 < |cmdline| then cmdline[p - 992] else origin[p])
            && (13280 <= p < 13280 + |bzImage| ==> image[p] == bzImage[p - 13280])
            && (13280 + |bzImage| <= p < end ==> image[p] == ramdisk[p - 13280 - |bzImage|])
            && (end <= p < |image| ==> image[p] == 0xff)
  {
    hide SectorsField;
    hide Le32At;
    hide Le32;
    hide NumberAt;
    hide Header;
    var image := Packed(origin, bzImage, ramdisk, cmdline, stale);
    var h := Header(origin, cmdline, |bzImage|, |ramdisk|);
    PackedFields(origin, bzImage, ramdisk, cmdline, stale);
    Le32IsLowByteFirst(image, 2016);
    Le32IsLowByteFirst(image, 2020);
    HeaderCancels(origin, cmdline, |bzImage|, |ramdisk|);
    XorBytesFrame(h, image, 0, 56);
    HeaderByteByByte(origin, cmdline, |bzImage|, |ramdisk|, if p < 13280 then p else 0);
    assert p < 13280 ==> image[p] == h[p];
  }

  lemma HeaderByteByByte(origin: seq<byte>, cmdline: seq<byte>, bzSize: nat, rdSize: nat, p: nat)
    requires |origin| >= 13280 && p < 13280
    ensures var h := Header(origin, cmdline, bzSize, rdSize);
            && (p != 7 && !(48 <= p < 52) && !(992 <= p < 2024) ==> h[p] == origin[p])
            && (992 <= p < 2016 ==> h[p] == if p - 992 < |cmdline| then cmdline[p - 992] else origin[p])
  {
    hide SectorsField;
    hide Le32;
    hide Checksum;
  }

  // ---------------------------------------------------------------- packing again

  /** An image as packing would write it: cancelling header, matching sector count, nothing but filler behind the
      ramdisk. */
  ghost predicate Canonical(image: seq<byte>, stale: nat)
    requires Complete(image) && |image| >= STUB_SIZE
  {
    var end := STUB_SIZE + Le32At(image, BZIMAGE_SIZE_AT) + Le32At(image, INITRD_SIZE_AT);
    && XorBytes(image, 0, HEADER_SIZE) == 0
    && Le32At(image, SECTORS_AT) == SectorsField(end)
    && image[end..] == Filler(Padding(end, stale))
  }

  lemma PackedIsCanonical(origin: seq<byte>, bzImage: seq<byte>, ramdisk: seq<byte>, cmdline: seq<byte>, stale: nat)
    requires |origin| >= STUB_SIZE && |bzImage| < TWO_TO_THE_32 && |ramdisk| < TWO_TO_THE_32
    ensures var image := Packed(origin, bzImage, ramdisk, cmdline, stale); |image| >= STUB_SIZE && Complete(image) && Canonical(image, stale)
  {
    hide Header;
    hide SectorsField;
    hide Le32At;
    var image := Packed(origin, bzImage, ramdisk, cmdline, stale);
    var h := Header(origin, cmdline, |bzImage|, |ramdisk|);
    PackedFields(origin, bzImage, ramdisk, cmdline, stale);
    HeaderCancels(origin, cmdline, |bzImage|, |ramdisk|);
    XorBytesFrame(h, image, 0, HEADER_SIZE);
  }

  /** Storing an image's own fields in it changes nothing. */
  lemma PatchedWithOwnFields(image: seq<byte>)
    requires Complete(image) && |image| >= STUB_SIZE
    requires var bzSize, rdSize := Le32At(image, BZIMAGE_SIZE_AT), Le32At(image, INITRD_SIZE_AT);
             Le32At(image, SECTORS_AT) == SectorsField(STUB_SIZE + bzSize + rdSize)
    ensures Patched(image, image[CMDLINE_START..CMDLINE_END],
                    Le32At(image, BZIMAGE_SIZE_AT), Le32At(image, INITRD_SIZE_AT)) == image[..STUB_SIZE]
  {
    hide SectorsField;
    hide Le32At;
    hide Le32;
    hide Put;
    var bzSize, rdSize := Le32At(image, BZIMAGE_SIZE_AT), Le32At(image, INITRD_SIZE_AT);
    Le32Field(image, BZIMAGE_SIZE_AT, bzSize);
    Le32Field(image, INITRD_SIZE_AT, rdSize);
    Le32Field(image, SECTORS_AT, SectorsField(STUB_SIZE + bzSize + rdSize));
    var h := image[..STUB_SIZE];
    PutOwn(image, h, CMDLINE_START, CMDLINE_SIZE);
    PutOwn(image, h, BZIMAGE_SIZE_AT, 4);
    PutOwn(image, h, INITRD_SIZE_AT, 4);
    PutOwn(image, h, SECTORS_AT, 4);
  }

  lemma PutOwn(image: seq<byte>, h: seq<byte>, p: nat, n: nat)
    requires h <= image && p + n <= |h|
    ensures Put(h, p, image[p..p + n]) == h
  {
  }

  /** The header of a canonical image is the one packing its parts would write. */
  lemma CanonicalHeader(image: seq<byte>, stale: nat)
    requires Complete(image) && |image| >= STUB_SIZE
    ensures var parts := Unpacked(image);
            Canonical(image, stale) ==>
              Header(image, parts.cmdline, |parts.bzImage|, |parts.ramdisk|) == image[..STUB_SIZE]
  {
    hide SectorsField;
    hide Xor8;
    hide Filler;
    hide Le32At;
    hide Patched;
    if Canonical(image, stale) {
      var h := image[..STUB_SIZE];
      PatchedWithOwnFields(image);
      XorBytesFrame(h, image, 0, HEADER_SIZE);
      XorLaws(h[XOR_AT], 0);
    }
  }

  /** Packing an image's own parts, with the image itself as origin, reproduces it byte for byte exactly when it is
      canonical; a packed image is. */
  lemma RepackingReproduces(image: seq<byte>, stale: nat)
    requires Complete(image) && |image| >= STUB_SIZE
    ensures var parts := Unpacked(image);
            Packed(image, parts.bzImage, parts.ramdisk, parts.cmdline, stale) == image <==> Canonical(image, stale)
  {
    hide Header;
    hide SectorsField;
    hide Le32At;
    var parts := Unpacked(image);
    var packed := Packed(image, parts.bzImage, parts.ramdisk, parts.cmdline, stale);
    if packed == image {
      PackedIsCanonical(image, parts.bzImage, parts.ramdisk, parts.cmdline, stale);
    }
    if Canonical(image, stale) {
      CanonicalHeader(image, stale);
      var end := STUB_SIZE + |parts.bzImage| + |parts.ramdisk|;
      assert image == image[..STUB_SIZE] + parts.bzImage + parts.ramdisk + image[end..];
    }
  }
}
