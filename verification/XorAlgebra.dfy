/** XOR checksums over a byte image read as little-endian 32-bit words (recovery/recovery_updater.cpp:110-124).

    A word is kept as its four bytes, least significant first, which is how it lies in the image.  `Value` is the
    `uint32_t` it stands for, and `XorWordsIsOnValues` and `FactorizeIsOnValues` tie the operations to that.  Proofs
    hide the bit-vector operation and use the laws below, so that the solver never mixes the two. */
module XorAlgebra {

  type byte = bv8

  function Xor8(a: byte, b: byte): byte {
    a ^ b
  }

  datatype Word = Word(b0: byte, b1: byte, b2: byte, b3: byte) {
    function Xor(that: Word): Word {
      Word(Xor8(b0, that.b0), Xor8(b1, that.b1),
           Xor8(b2, that.b2), Xor8(b3, that.b3))
    }

    /** Fold the four bytes into one. */
    function Factorize(): byte {
      Xor8(Xor8(Xor8(b0, b1), b2), b3)
    }

    function Value(): bv32 {
      (b0 as bv32) | ((b1 as bv32) << 8) | ((b2 as bv32) << 16) | ((b3 as bv32) << 24)
    }
  }

  const ZERO := Word(0, 0, 0, 0)

  // ---------------------------------------------------------------- the words as 32-bit values

  lemma XorIsOnValues(v: Word, w: Word)
    ensures v.Xor(w).Value() == v.Value() ^ w.Value()
    ensures v == w <==> v.Value() == w.Value()
  {
  }

  lemma FactorizeIsOnValues(w: Word)
    ensures var val := w.Value();
            w.Factorize() as bv32 == (val & 0xff) ^ ((val >> 8) & 0xff) ^ ((val >> 16) & 0xff) ^ ((val >> 24) & 0xff)
  {
  }

  // ---------------------------------------------------------------- laws

  lemma XorLaws(a: byte, b: byte)
    ensures Xor8(a, b) == Xor8(b, a) && Xor8(a, 0) == a && Xor8(a, a) == 0 && Xor8(a, Xor8(a, b)) == b
  {
  }

  lemma XorAssociates(a: byte, b: byte, c: byte)
    ensures Xor8(Xor8(a, b), c) == Xor8(a, Xor8(b, c))
  {
  }

  lemma XorPairs(a: byte, b: byte, c: byte, d: byte)
    ensures Xor8(Xor8(a, b), Xor8(c, d)) == Xor8(Xor8(a, c), Xor8(b, d))
  {
    hide Xor8;
    XorAssociates(a, b, Xor8(c, d));
    XorAssociates(b, c, d);
    XorLaws(b, c);
    XorAssociates(c, b, d);
    XorAssociates(a, c, Xor8(b, d));
  }

  lemma WordXorLaws(v: Word, w: Word)
    ensures v.Xor(w) == w.Xor(v) && v.Xor(ZERO) == v && v.Xor(v) == ZERO && v.Xor(v.Xor(w)) == w
  {
  }

  lemma WordXorAssociates(u: Word, v: Word, w: Word)
    ensures u.Xor(v).Xor(w) == u.Xor(v.Xor(w))
  {
    hide Xor8;
    XorAssociates(u.b0, v.b0, w.b0);
    XorAssociates(u.b1, v.b1, w.b1);
    XorAssociates(u.b2, v.b2, w.b2);
    XorAssociates(u.b3, v.b3, w.b3);
  }

  lemma FactorizeDistributes(v: Word, w: Word)
    ensures v.Xor(w).Factorize() == Xor8(v.Factorize(), w.Factorize())
  {
    hide Xor8;
    XorPairs(v.b0, w.b0, v.b1, w.b1);
    XorPairs(Xor8(v.b0, v.b1), Xor8(w.b0, w.b1), v.b2, w.b2);
    XorPairs(Xor8(Xor8(v.b0, v.b1), v.b2), Xor8(Xor8(w.b0, w.b1), w.b2), v.b3, w.b3);
  }

  // ---------------------------------------------------------------- checksums of a range

  function WordAt(s: seq<byte>, p: nat): Word
    requires p + 4 <= |s|
  {
    Word(s[p], s[p + 1], s[p + 2], s[p + 3])
  }

  /** XOR of the `count` words from offset `from` on. */
  function XorWords(s: seq<byte>, from: nat, count: nat): Word
    requires from + 4 * count <= |s|
  {
    if count == 0 then ZERO else XorWords(s, from, count - 1).Xor(WordAt(s, from + 4 * (count - 1)))
  }

  /** The same with 32-bit values, as the source's loop computes it. */
  function XorValues(s: seq<byte>, from: nat, count: nat): bv32
    requires from + 4 * count <= |s|
  {
    if count == 0 then 0 else XorValues(s, from, count - 1) ^ WordAt(s, from + 4 * (count - 1)).Value()
  }

  lemma {:induction false} XorWordsIsOnValues(s: seq<byte>, from: nat, count: nat)
    requires from + 4 * count <= |s|
    ensures XorWords(s, from, count).Value() == XorValues(s, from, count)
  {
    if count > 0 {
      hide Word.Xor;
      hide Word.Value;
      XorWordsIsOnValues(s, from, count - 1);
      XorIsOnValues(XorWords(s, from, count - 1), WordAt(s, from + 4 * (count - 1)));
    }
  }

  /** XOR of the `count` bytes from offset `from` on. */
  function XorBytes(s: seq<byte>, from: nat, count: nat): byte
    requires from + count <= |s|
  {
    if count == 0 then 0 else Xor8(XorBytes(s, from, count - 1), s[from + count - 1])
  }

  lemma XorBytesFour(s: seq<byte>, from: nat, n: nat)
    requires from + n + 4 <= |s|
    ensures XorBytes(s, from, n + 4) == Xor8(XorBytes(s, from, n), WordAt(s, from + n).Factorize())
  {
    hide Xor8;
    var x, w := XorBytes(s, from, n), WordAt(s, from + n);
    assert XorBytes(s, from, n + 1) == Xor8(x, w.b0);
    assert XorBytes(s, from, n + 2) == Xor8(Xor8(x, w.b0), w.b1);
    assert XorBytes(s, from, n + 3) == Xor8(Xor8(Xor8(x, w.b0), w.b1), w.b2);
    XorAssociates(x, w.b0, w.b1);
    XorAssociates(x, Xor8(w.b0, w.b1), w.b2);
    XorAssociates(x, Xor8(Xor8(w.b0, w.b1), w.b2), w.b3);
  }

  /** Folding the XOR of all words gives the XOR of all bytes. */
  lemma {:induction false} FactorizeXorWords(s: seq<byte>, from: nat, count: nat)
    requires from + 4 * count <= |s|
    ensures XorWords(s, from, count).Factorize() == XorBytes(s, from, 4 * count)
  {
    if count > 0 {
      FactorizeXorWords(s, from, count - 1);
      FactorizeDistributes(XorWords(s, from, count - 1), WordAt(s, from + 4 * (count - 1)));
      XorBytesFour(s, from, 4 * (count - 1));
    }
  }

  /** Same bytes, same checksum. */
  lemma {:induction false} XorWordsFrame(s: seq<byte>, t: seq<byte>, from: nat, count: nat)
    requires from + 4 * count <= |s| && |s| == |t|
    requires forall i :: from <= i < from + 4 * count ==> s[i] == t[i]
    ensures XorWords(s, from, count) == XorWords(t, from, count)
  {
    if count > 0 {
      XorWordsFrame(s, t, from, count - 1);
    }
  }

  /** Changing one of the words changes the checksum by what that word changed by. */
  lemma {:induction false} XorWordsChange(s: seq<byte>, t: seq<byte>, from: nat, count: nat, k: nat)
    requires from + 4 * count <= |s| && |s| == |t| && k < count
    requires forall i :: from <= i < from + 4 * count && !(from + 4 * k <= i < from + 4 * k + 4) ==> s[i] == t[i]
    ensures XorWords(t, from, count)
         == XorWords(s, from, count).Xor(WordAt(s, from + 4 * k).Xor(WordAt(t, from + 4 * k)))
  {
    hide Word.Xor;
    var p := from + 4 * (count - 1);
    var x, a, b := XorWords(s, from, count - 1), WordAt(s, p), WordAt(t, p);
    if k == count - 1 {
      XorWordsFrame(s, t, from, count - 1);
      WordXorAssociates(x, a, a.Xor(b));
      WordXorLaws(a, b);
    } else {
      XorWordsChange(s, t, from, count - 1, k);
      var d := WordAt(s, from + 4 * k).Xor(WordAt(t, from + 4 * k));
      WordXorAssociates(x, d, a);
      WordXorAssociates(x, a, d);
      WordXorLaws(d, a);
    }
  }

  lemma {:induction false} XorBytesFrame(s: seq<byte>, t: seq<byte>, from: nat, count: nat)
    requires from + count <= |s| && from + count <= |t|
    requires forall i :: from <= i < from + count ==> s[i] == t[i]
    ensures XorBytes(s, from, count) == XorBytes(t, from, count)
  {
    if count > 0 {
      XorBytesFrame(s, t, from, count - 1);
    }
  }

  /** Changing one byte changes the checksum by what that byte changed by. */
  lemma {:induction false} XorBytesChange(s: seq<byte>, t: seq<byte>, from: nat, count: nat, k: nat)
    requires from + count <= |s| && from + count <= |t| && from <= k < from + count
    requires forall i :: from <= i < from + count && i != k ==> s[i] == t[i]
    ensures XorBytes(t, from, count) == Xor8(XorBytes(s, from, count), Xor8(s[k], t[k]))
  {
    hide Xor8;
    var p := from + count - 1;
    var x := XorBytes(s, from, count - 1);
    if k == p {
      XorBytesFrame(s, t, from, count - 1);
      XorAssociates(x, s[p], Xor8(s[p], t[p]));
      XorLaws(s[p], t[p]);
    } else {
      XorBytesChange(s, t, from, count - 1, k);
      var d := Xor8(s[k], t[k]);
      XorAssociates(x, d, s[p]);
      XorAssociates(x, s[p], d);
      XorLaws(d, s[p]);
    }
  }
}
