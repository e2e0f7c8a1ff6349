/** The three overlapping checksum layers of an IFWI image (recovery/recovery_updater.cpp:36-43, 110-146):
    a word for each of sectors 2 to 127, kept in the first sector; one byte, at offset 7, for the whole UMIP
    area, which contains those words; and one word, further up, for the whole image, which contains both. */
module UmipChecksum {
  import opened XorAlgebra

  const BOOT_IFWI_SIZE: nat := 0x400000
  const BOOT_UMIP_SIZE: nat := 0x10000
  const BOOT_UMIP_SECTOR_SIZE: nat := 0x200
  const BOOT_UMIP_XOR_OFFSET: nat := 0x7
  const BOOT_IFWI_XOR_OFFSET: nat := 0x0112d8
  const FIRST_SUMMED_SECTOR: nat := 2
  const SECTORS: nat := 128

  ghost predicate SectorSumHolds(s: seq<byte>, i: nat)
    requires i < SECTORS && |s| == BOOT_IFWI_SIZE
  {
    WordAt(s, 4 * i) == XorWords(s, i * BOOT_UMIP_SECTOR_SIZE, BOOT_UMIP_SECTOR_SIZE / 4)
  }

  ghost predicate SectorSumsHold(s: seq<byte>)
    requires |s| == BOOT_IFWI_SIZE
  {
    forall i :: FIRST_SUMMED_SECTOR <= i < SECTORS ==> SectorSumHolds(s, i)
  }

  ghost predicate UmipSumHolds(s: seq<byte>)
    requires |s| == BOOT_IFWI_SIZE
  {
    XorBytes(s, 0, BOOT_UMIP_SIZE) == 0
  }

  ghost predicate IfwiSumHolds(s: seq<byte>)
    requires |s| == BOOT_IFWI_SIZE
  {
    XorWords(s, 0, BOOT_IFWI_SIZE / 4) == ZERO
  }

  /** All three layers at once. */
  ghost predicate Consistent(s: seq<byte>) {
    |s| == BOOT_IFWI_SIZE && SectorSumsHold(s) && UmipSumHolds(s) && IfwiSumHolds(s)
  }

  /** The bytes that hold checksums. */
  predicate IsChecksumByte(p: nat) {
    || BOOT_UMIP_XOR_OFFSET <= p < 4 * SECTORS
    || BOOT_IFWI_XOR_OFFSET <= p < BOOT_IFWI_XOR_OFFSET + 4
  }

  ghost predicate AgreeOutsideChecksums(s: seq<byte>, t: seq<byte>) {
    |s| == |t| && forall p :: 0 <= p < |s| && !IsChecksumByte(p) ==> s[p] == t[p]
  }

  /** The layers and the places of their checksums in plain numbers; the summed sectors, with the two before them, make
      up the UMIP area. */
  lemma LayersInNumbers(s: seq<byte>, p: nat)
    ensures Consistent(s) <==>
              && |s| == 0x400000
              && (forall i :: 2 <= i < 128 ==> WordAt(s, 4 * i) == XorWords(s, 0x200 * i, 128))
              && XorBytes(s, 0, 128 * 0x200) == 0
              && XorWords(s, 0, 0x100000) == ZERO
    ensures IsChecksumByte(p) <==> 7 <= p < 0x200 || 0x112d8 <= p < 0x112dc
  {
    if |s| == 0x400000 {
      assert forall i :: 2 <= i < 128 ==>
               (SectorSumHolds(s, i) <==> WordAt(s, 4 * i) == XorWords(s, 0x200 * i, 128));
    }
  }

  // ---------------------------------------------------------------- what the three stores do

  /** A sector sum depends only on its own word and its own sector. */
  lemma SectorSumFrame(s: seq<byte>, t: seq<byte>, i: nat)
    requires FIRST_SUMMED_SECTOR <= i < SECTORS && |s| == |t| == BOOT_IFWI_SIZE
    requires WordAt(s, 4 * i) == WordAt(t, 4 * i)
    requires forall p :: i * BOOT_UMIP_SECTOR_SIZE <= p < (i + 1) * BOOT_UMIP_SECTOR_SIZE ==> s[p] == t[p]
    ensures SectorSumHolds(s, i) <==> SectorSumHolds(t, i)
  {
    XorWordsFrame(s, t, i * BOOT_UMIP_SECTOR_SIZE, BOOT_UMIP_SECTOR_SIZE / 4);
  }

  /** Storing its own checksum in the place that held zero makes the UMIP area cancel. */
  lemma UmipSumEstablished(s: seq<byte>, t: seq<byte>)
    requires |s| == |t| == BOOT_IFWI_SIZE
    requires forall p :: 0 <= p < BOOT_UMIP_SIZE && p != BOOT_UMIP_XOR_OFFSET ==> s[p] == t[p]
    requires s[BOOT_UMIP_XOR_OFFSET] == 0
    requires t[BOOT_UMIP_XOR_OFFSET] == XorWords(s, 0, BOOT_UMIP_SIZE / 4).Factorize()
    ensures UmipSumHolds(t)
  {
    XorBytesChange(s, t, 0, BOOT_UMIP_SIZE, BOOT_UMIP_XOR_OFFSET);
    FactorizeXorWords(s, 0, BOOT_UMIP_SIZE / 4);
    var sum := XorBytes(s, 0, BOOT_UMIP_SIZE);
    XorLaws(0, sum);
    XorLaws(sum, sum);
  }

  lemma IfwiSumEstablished(s: seq<byte>, t: seq<byte>)
    requires |s| == |t| == BOOT_IFWI_SIZE
    requires forall p :: 0 <= p < |s| && !(BOOT_IFWI_XOR_OFFSET <= p < BOOT_IFWI_XOR_OFFSET + 4) ==> s[p] == t[p]
    requires WordAt(s, BOOT_IFWI_XOR_OFFSET) == ZERO
    requires WordAt(t, BOOT_IFWI_XOR_OFFSET) == XorWords(s, 0, BOOT_IFWI_SIZE / 4)
    ensures IfwiSumHolds(t)
  {
    hide Word.Xor;
    var sum := XorWords(s, 0, BOOT_IFWI_SIZE / 4);
    XorWordsChange(s, t, 0, BOOT_IFWI_SIZE / 4, BOOT_IFWI_XOR_OFFSET / 4);
    WordXorLaws(ZERO, sum);
    WordXorLaws(sum, ZERO);
  }

  // ---------------------------------------------------------------- the routines

  method XorCompute(a: array<byte>, from: nat, size: nat) returns (val: Word)
    requires from + size <= a.Length && size % 4 == 0
    ensures val == XorWords(a[..], from, size / 4)
  {
    val := ZERO;
    var i := 0;
    while i < size
      invariant 0 <= i <= size && i % 4 == 0
      invariant val == XorWords(a[..], from, i / 4)
    {
      val := val.Xor(WordAt(a[..], from + i));
      i := i + 4;
    }
  }

  method StoreWord(a: array<byte>, p: nat, w: Word)
    requires p + 4 <= a.Length
    modifies a
    ensures WordAt(a[..], p) == w
    ensures forall i :: 0 <= i < a.Length && !(p <= i < p + 4) ==> a[i] == old(a[i])
  {
    a[p], a[p + 1], a[p + 2], a[p + 3] := w.b0, w.b1, w.b2, w.b3;
  }

  /** Recompute all three layers, in an order in which no store breaks an earlier one.  An image that was
      consistent stays as it was. */
  method XorUpdate(a: array<byte>)
    requires a.Length == BOOT_IFWI_SIZE
    modifies a
    ensures Consistent(a[..])
    ensures AgreeOutsideChecksums(old(a[..]), a[..])
    ensures Consistent(old(a[..])) ==> a[..] == old(a[..])
  {
    ghost var was := a[..];
    UpdateSectorSums(a);
    UpdateUmipSum(a);
    UpdateIfwiSum(a);
    if Consistent(was) {
      ConsistentImageIsUnique(was, a[..]);
    }
  }

  method UpdateSectorSums(a: array<byte>)
    requires a.Length == BOOT_IFWI_SIZE
    modifies a
    ensures SectorSumsHold(a[..])
    ensures AgreeOutsideChecksums(old(a[..]), a[..])
  {
    for i := FIRST_SUMMED_SECTOR to SECTORS
      invariant forall j :: FIRST_SUMMED_SECTOR <= j < i ==> SectorSumHolds(a[..], j)
      invariant AgreeOutsideChecksums(old(a[..]), a[..])
    {
      ghost var s := a[..];
      var val := XorCompute(a, i * BOOT_UMIP_SECTOR_SIZE, BOOT_UMIP_SECTOR_SIZE);
      StoreWord(a, 4 * i, val);
      XorWordsFrame(s, a[..], i * BOOT_UMIP_SECTOR_SIZE, BOOT_UMIP_SECTOR_SIZE / 4);
      forall j | FIRST_SUMMED_SECTOR <= j < i
        ensures SectorSumHolds(a[..], j)
      {
        SectorSumFrame(s, a[..], j);
      }
    }
  }

  method UpdateUmipSum(a: array<byte>)
    requires a.Length == BOOT_IFWI_SIZE && SectorSumsHold(a[..])
    modifies a
    ensures SectorSumsHold(a[..]) && UmipSumHolds(a[..])
    ensures AgreeOutsideChecksums(old(a[..]), a[..])
  {
    ghost var s0 := a[..];
    a[BOOT_UMIP_XOR_OFFSET] := 0;
    ghost var s := a[..];
    var val := XorCompute(a, 0, BOOT_UMIP_SIZE);
    a[BOOT_UMIP_XOR_OFFSET] := val.Factorize();
    UmipSumEstablished(s, a[..]);
    forall i | FIRST_SUMMED_SECTOR <= i < SECTORS
      ensures SectorSumHolds(a[..], i)
    {
      SectorSumFrame(s0, a[..], i);
    }
  }

  method UpdateIfwiSum(a: array<byte>)
    requires a.Length == BOOT_IFWI_SIZE && SectorSumsHold(a[..]) && UmipSumHolds(a[..])
    modifies a
    ensures Consistent(a[..])
    ensures AgreeOutsideChecksums(old(a[..]), a[..])
  {
    ghost var s0 := a[..];
    StoreWord(a, BOOT_IFWI_XOR_OFFSET, ZERO);
    ghost var s := a[..];
    var val := XorCompute(a, 0, BOOT_IFWI_SIZE);
    StoreWord(a, BOOT_IFWI_XOR_OFFSET, val);
    IfwiSumEstablished(s, a[..]);
    FactorizeXorWords(s0, 0, BOOT_UMIP_SIZE / 4);
    FactorizeXorWords(a[..], 0, BOOT_UMIP_SIZE / 4);
    XorWordsFrame(s0, a[..], 0, BOOT_UMIP_SIZE / 4);
    forall i | FIRST_SUMMED_SECTOR <= i < SECTORS
      ensures SectorSumHolds(a[..], i)
    {
      SectorSumFrame(s0, a[..], i);
    }
  }

  // ---------------------------------------------------------------- the checksums are determined

  /** The checksum bytes are a function of the rest: two consistent images that agree everywhere else are
      identical.  So the contract of `XorUpdate` leaves exactly one result. */
  lemma ConsistentImageIsUnique(s: seq<byte>, t: seq<byte>)
    requires Consistent(s) && Consistent(t) && AgreeOutsideChecksums(s, t)
    ensures s == t
  {
    SectorSumsDetermined(s, t);
    UmipSumDetermined(s, t);
    IfwiSumDetermined(s, t);
  }

  lemma SectorSumsDetermined(s: seq<byte>, t: seq<byte>)
    requires Consistent(s) && Consistent(t) && AgreeOutsideChecksums(s, t)
    ensures forall p :: 4 * FIRST_SUMMED_SECTOR <= p < 4 * SECTORS ==> s[p] == t[p]
  {
    forall p | 4 * FIRST_SUMMED_SECTOR <= p < 4 * SECTORS
      ensures s[p] == t[p]
    {
      var i := p / 4;
      assert SectorSumHolds(s, i) && SectorSumHolds(t, i);
      XorWordsFrame(s, t, i * BOOT_UMIP_SECTOR_SIZE, BOOT_UMIP_SECTOR_SIZE / 4);
      assert WordAt(s, 4 * i) == WordAt(t, 4 * i);
    }
  }

  lemma UmipSumDetermined(s: seq<byte>, t: seq<byte>)
    requires Consistent(s) && Consistent(t) && AgreeOutsideChecksums(s, t)
    requires forall p :: 4 * FIRST_SUMMED_SECTOR <= p < 4 * SECTORS ==> s[p] == t[p]
    ensures s[BOOT_UMIP_XOR_OFFSET] == t[BOOT_UMIP_XOR_OFFSET]
  {
    var a, b := s[BOOT_UMIP_XOR_OFFSET], t[BOOT_UMIP_XOR_OFFSET];
    XorBytesChange(s, t, 0, BOOT_UMIP_SIZE, BOOT_UMIP_XOR_OFFSET);
    assert Xor8(0, Xor8(a, b)) == 0;
    XorLaws(0, Xor8(a, b));
    XorLaws(a, b);
    XorLaws(a, 0);
  }

  lemma IfwiSumDetermined(s: seq<byte>, t: seq<byte>)
    requires Consistent(s) && Consistent(t)
    requires forall p :: 0 <= p < |s| && !(BOOT_IFWI_XOR_OFFSET <= p < BOOT_IFWI_XOR_OFFSET + 4) ==> s[p] == t[p]
    ensures s == t
  {
    hide Word.Xor;
    var v, w := WordAt(s, BOOT_IFWI_XOR_OFFSET), WordAt(t, BOOT_IFWI_XOR_OFFSET);
    XorWordsChange(s, t, 0, BOOT_IFWI_SIZE / 4, BOOT_IFWI_XOR_OFFSET / 4);
    WordXorLaws(ZERO, v.Xor(w));
    WordXorLaws(v.Xor(w), ZERO);
    WordXorLaws(v, w);
    WordXorLaws(v, ZERO);
    assert v == w;
  }
}
