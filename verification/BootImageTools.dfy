/** The pack and unpack programs over files (mkbootimg/pack.c:56-164, mkbootimg/unpack.c:88-146).  A file that was
    opened for reading has a position; a file opened for writing only grows.  Every file opens and every write
    succeeds. */
module BootImageTools {
  import opened XorAlgebra
  import opened BootImage

  class InFile {
    const content: seq<byte>
    var pos: nat

    constructor (content: seq<byte>)
      ensures this.content == content && pos == 0
    {
      this.content := content;
      pos := 0;
    }

    /** What fread(buf, 1, n, file) would deliver. */
    function Ahead(n: nat): (r: seq<byte>)
      reads this
      ensures |r| <= n
    {
      if pos + n <= |content| then content[pos..pos + n]
      else if pos <= |content| then content[pos..]
      else []
    }

    method Read(n: nat) returns (bytes: seq<byte>)
      modifies this
      ensures bytes == old(Ahead(n)) && pos == old(pos) + |bytes|
    {
      bytes := Ahead(n);
      pos := pos + |bytes|;
    }

    method Seek(p: nat)
      modifies this
      ensures pos == p
    {
      pos := p;
    }
  }

  class OutFile {
    var content: seq<byte>

    constructor ()
      ensures content == []
    {
      content := [];
    }

    method Write(bytes: seq<byte>)
      modifies this
      ensures content == old(content) + bytes
    {
      content := content + bytes;
    }
  }

  // ---------------------------------------------------------------- unpack

  /** Copy exactly `length` bytes from the current position, a buffer at a time.  The file must hold them, or the loop
      does not end: CopyEndsExactly. */
  method CopyOut(input: InFile, output: OutFile, length: nat)
    requires Holds(|input.content|, input.pos, length)
    modifies input, output
    ensures output.content == old(output.content) + Slice(input.content, old(input.pos), length)
    ensures input.pos == old(input.pos) + length
  {
    var missing := length;
    ghost var start := input.pos;
    while missing > 0
      invariant 0 <= missing <= length && input.pos == start + (length - missing)
      invariant output.content == old(output.content) + Slice(input.content, start, length - missing)
      decreases missing
    {
      ghost var at := input.pos;
      ghost var turn := Chunk(|input.content|, at, missing);
      var buf := input.Read(if missing > BUFSIZ then BUFSIZ else missing);
      assert |buf| == turn;
      if |buf| != 0 {
        output.Write(buf);
        missing := missing - |buf|;
      }
      assert input.content[start..input.pos] == input.content[start..at] + buf;
    }
  }

  method ReadLe32(input: InFile, p: nat) returns (n: nat)
    requires p + 4 <= |input.content|
    modifies input
    ensures n == Le32At(input.content, p)
  {
    hide Le32At;
    input.Seek(p);
    var bytes := input.Read(4);
    Le32Frame(bytes, 0, input.content, p);
    n := Le32At(bytes, 0);
  }

  /** Take an image apart.  One that ends within the size fields is refused after its command line has been copied; one
      that ends before that, or within what the fields announce, keeps a copy loop going for ever. */
  method Unpack(image: InFile, bzImage: OutFile, ramdisk: OutFile, cmdline: OutFile) returns (ret: int)
    requires bzImage != ramdisk && ramdisk != cmdline && cmdline != bzImage
    requires bzImage.content == ramdisk.content == cmdline.content == []
    requires |image.content| >= CMDLINE_END && (HasSizeFields(image.content) ==> Complete(image.content))
    modifies image, bzImage, ramdisk, cmdline
    ensures cmdline.content == image.content[CMDLINE_START..CMDLINE_END]
    ensures !HasSizeFields(image.content) ==> ret == 1 && bzImage.content == ramdisk.content == []
    ensures HasSizeFields(image.content) ==>
              ret == 0 && Parts(bzImage.content, ramdisk.content, cmdline.content) == Unpacked(image.content)
  {
    hide Le32At;
    image.Seek(CMDLINE_START);
    CopyOut(image, cmdline, CMDLINE_SIZE);
    if |image.content| < CMDLINE_END + 4 {
      return 1;
    }
    var bzImageLen := ReadLe32(image, CMDLINE_END);
    if |image.content| < CMDLINE_END + 8 {
      return 1;
    }
    var ramdiskLen := ReadLe32(image, CMDLINE_END + 4);
    image.Seek(STUB_SIZE);
    CopyOut(image, bzImage, bzImageLen);
    image.Seek(STUB_SIZE + bzImageLen);
    CopyOut(image, ramdisk, ramdiskLen);
    return 0;
  }

  // ---------------------------------------------------------------- pack

  method CalculateChecksum(hdr: array<byte>) returns (sum: byte)
    requires hdr.Length == STUB_SIZE
    ensures sum == Checksum(hdr[..])
  {
    hide Xor8;
    sum := hdr[XOR_AT];
    XorLaws(sum, 0);
    for i := 0 to HEADER_SIZE
      invariant sum == Xor8(hdr[XOR_AT], XorBytes(hdr[..], 0, i))
    {
      XorAssociates(hdr[XOR_AT], XorBytes(hdr[..], 0, i), hdr[i]);
      sum := Xor8(sum, hdr[i]);
    }
  }

  /** Replace the command line, character by character; a short file leaves the rest as it was. */
  method ReadCmdline(file: array<byte>, cmdline: InFile)
    requires file.Length == STUB_SIZE && cmdline.pos == 0
    modifies file, cmdline
    ensures file[..] == Put(old(file[..]), CMDLINE_START, Truncated(cmdline.content))
  {
    ghost var was := file[..];
    for i := 0 to CMDLINE_SIZE
      invariant cmdline.pos == if i <= |cmdline.content| then i else |cmdline.content|
      invariant file[..] == Put(was, CMDLINE_START, cmdline.content[..cmdline.pos])
    {
      var c := cmdline.Read(1);
      if c != [] {
        file[CMDLINE_START + i] := c[0];
      }
    }
  }

  method StoreLe32(file: array<byte>, p: nat, n: nat)
    requires p + 4 <= file.Length && n < TWO_TO_THE_32
    modifies file
    ensures file[..] == Put(old(file[..]), p, Le32(n))
  {
    hide ToByte;
    var bytes := Le32(n);
    file[p], file[p + 1], file[p + 2], file[p + 3] := bytes[0], bytes[1], bytes[2], bytes[3];
  }

  /** The size computation in 32-bit arithmetic. */
  method Sizes(bzSize: nat, rdSize: nat, stale: nat) returns (sectors: nat, paddings: nat)
    ensures sectors == SectorsField(STUB_SIZE + bzSize + rdSize)
    ensures paddings == Padding(STUB_SIZE + bzSize + rdSize, stale)
  {
    var totalImageSize := bzSize % TWO_TO_THE_32;
    totalImageSize := (totalImageSize + STUB_SIZE) % TWO_TO_THE_32;
    totalImageSize := (totalImageSize + rdSize % TWO_TO_THE_32) % TWO_TO_THE_32;
    paddings := stale;
    ghost var total := STUB_SIZE + bzSize + rdSize;
    assert totalImageSize == total % TWO_TO_THE_32 by {
      WrappedSum(bzSize, STUB_SIZE);
      WrappedSum(bzSize + STUB_SIZE, rdSize);
    }
    SectorsOfWrapped(total);
    if totalImageSize % SECTOR_SIZE > 0 {
      paddings := SECTOR_SIZE - totalImageSize % SECTOR_SIZE;
      WrappedSum(total, paddings);
      totalImageSize := (totalImageSize + paddings) % TWO_TO_THE_32;
    }
    assert totalImageSize == Rounded(total) % TWO_TO_THE_32;
    sectors := (totalImageSize / SECTOR_SIZE + (TWO_TO_THE_32 - 1)) % TWO_TO_THE_32;
  }

  lemma WrappedSum(a: nat, b: nat)
    ensures (a % TWO_TO_THE_32 + b) % TWO_TO_THE_32 == (a + b) % TWO_TO_THE_32
    ensures (a % TWO_TO_THE_32 + b % TWO_TO_THE_32) % TWO_TO_THE_32 == (a + b) % TWO_TO_THE_32
  {
  }

  lemma SectorsOfWrapped(total: nat)
    ensures total % TWO_TO_THE_32 % SECTOR_SIZE == total % SECTOR_SIZE
  {
  }

  method CopyAll(input: InFile, output: OutFile)
    requires input.pos == 0
    modifies input, output
    ensures output.content == old(output.content) + input.content
  {
    var buf := input.Read(BUFSIZ);
    while |buf| != 0
      invariant input.pos <= |input.content| && (|buf| == 0 ==> input.pos == |input.content|)
      invariant output.content + buf == old(output.content) + input.content[..input.pos]
      decreases |input.content| - input.pos, |buf|
    {
      output.Write(buf);
      ghost var at := input.pos;
      buf := input.Read(BUFSIZ);
      assert input.content[..input.pos] == input.content[..at] + buf;
    }
    assert input.content[..input.pos] == input.content;
  }

  /** Fill in the header of an origin image for new contents. */
  method BuildHeader(origin: InFile, bzImage: InFile, ramdisk: InFile, cmdline: InFile, stale: nat)
    returns (file: array<byte>, paddings: nat)
    requires |origin.content| >= STUB_SIZE && origin.pos == 0 && cmdline.pos == 0 && origin != cmdline
    modifies origin, cmdline
    ensures fresh(file)
    ensures file[..] == Header(origin.content, cmdline.content, |bzImage.content|, |ramdisk.content|)
    ensures paddings == Padding(STUB_SIZE + |bzImage.content| + |ramdisk.content|, stale)
  {
    hide Xor8;
    hide SectorsField;
    hide Le32;
    hide Padding;
    hide Put;
    var stub := origin.Read(STUB_SIZE);
    file := new byte[STUB_SIZE](i requires 0 <= i < STUB_SIZE && |stub| == STUB_SIZE => stub[i]);
    assert file[..] == origin.content[..STUB_SIZE];
    ReadCmdline(file, cmdline);
    StoreLe32(file, BZIMAGE_SIZE_AT, |bzImage.content| % TWO_TO_THE_32);
    StoreLe32(file, INITRD_SIZE_AT, |ramdisk.content| % TWO_TO_THE_32);
    var sectors;
    sectors, paddings := Sizes(|bzImage.content|, |ramdisk.content|, stale);
    StoreLe32(file, SECTORS_AT, sectors);
    assert file[..] == Patched(origin.content, cmdline.content, |bzImage.content|, |ramdisk.content|);
    var sum := CalculateChecksum(file);
    file[XOR_AT] := sum;
  }

  /** `stale` is what the padding variable holds when nothing sets it; that many bytes are filled in a buffer of
      BUFSIZ. */
  method Pack(origin: InFile, bzImage: InFile, ramdisk: InFile, cmdline: InFile, output: OutFile, stale: nat)
    returns (ret: int)
    requires origin != bzImage && origin != ramdisk && origin != cmdline
    requires bzImage != ramdisk && bzImage != cmdline && ramdisk != cmdline
    requires origin.pos == bzImage.pos == ramdisk.pos == cmdline.pos == 0 && output.content == []
    requires stale <= BUFSIZ
    modifies origin, bzImage, ramdisk, cmdline, output
    ensures |origin.content| < STUB_SIZE ==> ret == 1 && output.content == []
    ensures |origin.content| >= STUB_SIZE ==>
              && ret == 0
              && output.content == Packed(origin.content, bzImage.content, ramdisk.content, cmdline.content, stale)
  {
    hide Header;
    if |origin.content| < STUB_SIZE {
      return 1;
    }
    var file, paddings := BuildHeader(origin, bzImage, ramdisk, cmdline, stale);
    output.Write(file[..]);
    CopyAll(bzImage, output);
    CopyAll(ramdisk, output);
    if paddings != 0 {
      output.Write(Filler(paddings));
    }
    return 0;
  }
}
