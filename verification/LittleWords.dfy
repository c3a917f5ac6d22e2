/** Little-endian 32-bit words, and their bits in terms of the octets they are read from. */
module LittleWords {
  import opened Octets
  import opened Registers

  function Wide(o: Octet): bv32 { o as bv32 }

  /** Four octets shifted to their places in a word, the first lowest. */
  function Placed(a: bv32, b: bv32, c: bv32, d: bv32): bv32 {
    (d << 24) | (c << 16) | (b << 8) | a
  }

  /** The word four adjacent octets hold. */
  function Little32(s: seq<Octet>): bv32
    requires |s| == 4
  {
    Placed(Wide(s[0]), Wide(s[1]), Wide(s[2]), Wide(s[3]))
  }

  predicate FitsOctet(a: bv32) { a & 0xff == a }

  lemma WideFitsOctet(o: Octet)
    ensures FitsOctet(Wide(o))
  {
  }

  lemma PlacedLow(a: bv32, b: bv32, c: bv32, d: bv32)
    requires FitsOctet(a)
    ensures Placed(a, b, c, d) & 0xff == a
  {
  }

  lemma PlacedDown(a: bv32, b: bv32, c: bv32, d: bv32)
    requires FitsOctet(a) && FitsOctet(b) && FitsOctet(c) && FitsOctet(d)
    ensures Down8(Placed(a, b, c, d)) == Placed(b, c, d, 0)
  {
  }

  function Pow2(k: nat): (r: nat)
    ensures r > 0
  {
    if k == 0 then 1 else 2 * Pow2(k - 1)
  }

  /** Whether bit k of an octet is set. */
  predicate OctetBit(o: Octet, k: nat) { o / Pow2(k) % 2 == 1 }

  /** Whether bit k of a word is set. */
  predicate WordBit(w: bv32, k: nat) { Odd32(Halves32(k, w)) }

  /** The same by masking, for the eight lowest bits. */
  predicate Masked(w: bv32, k: nat)
    requires k < 8
  {
    match k
    case 0 => w & 1 != 0
    case 1 => w & 2 != 0
    case 2 => w & 4 != 0
    case 3 => w & 8 != 0
    case 4 => w & 16 != 0
    case 5 => w & 32 != 0
    case 6 => w & 64 != 0
    case _ => w & 128 != 0
  }

  lemma OctetIsMasked(o: Octet, k: nat)
    requires k < 8
    ensures Masked(Wide(o), k) <==> OctetBit(o, k)
  {
    assert Pow2(1) == 2 && Pow2(2) == 4 && Pow2(3) == 8 && Pow2(4) == 16;
    assert Pow2(5) == 32 && Pow2(6) == 64 && Pow2(7) == 128;
  }

  lemma MaskedHalf(w: bv32, k: nat)
    requires 0 < k < 8
    ensures Masked(w, k) <==> Masked(Half32(w), k - 1)
  {
  }

  lemma {:induction false} WordIsMasked(w: bv32, k: nat)
    requires k < 8
    ensures Masked(w, k) <==> WordBit(w, k)
    decreases k
  {
    if k > 0 {
      MaskedHalf(w, k);
      WordIsMasked(Half32(w), k - 1);
    }
  }

  lemma MaskedLow(w: bv32, v: bv32, k: nat)
    requires w & 0xff == v && k < 8
    ensures Masked(w, k) <==> Masked(v, k)
  {
  }

  lemma LowOctetBit(w: bv32, o: Octet, k: nat)
    requires w & 0xff == Wide(o) && k < 8
    ensures WordBit(w, k) <==> OctetBit(o, k)
  {
    WordIsMasked(w, k);
    MaskedLow(w, Wide(o), k);
    OctetIsMasked(o, k);
  }

  /** Bit k of the word is bit k % 8 of octet k / 8. */
  lemma {:induction false} LittleBit(s: seq<Octet>, w: bv32, k: nat)
    requires |s| == 4 && w == Little32(s) && k < 32
    ensures WordBit(w, k) <==> OctetBit(s[k / 8], k % 8)
    decreases k
  {
    WideFitsOctet(s[0]);
    WideFitsOctet(s[1]);
    WideFitsOctet(s[2]);
    WideFitsOctet(s[3]);
    if k < 8 {
      PlacedLow(Wide(s[0]), Wide(s[1]), Wide(s[2]), Wide(s[3]));
      LowOctetBit(w, s[0], k);
    } else {
      EightHalves(k, w);
      PlacedDown(Wide(s[0]), Wide(s[1]), Wide(s[2]), Wide(s[3]));
      var t: seq<Octet> := [s[1], s[2], s[3], 0];
      assert Wide(0) == 0;
      LittleBit(t, Down8(w), k - 8);
    }
  }
}
