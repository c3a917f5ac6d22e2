/** The table-driven CRC-10 of tcpdump/checksum.c, against division of polynomials over GF(2). */
module Crc10 {
  import opened Registers

  // ----- Bit-serial division -----

  // Named so that the proofs below can treat them as wholes.
  predicate Carries(r: bv16) { (r << 1) & 0x400 != 0 }
  function Unit(b: bool): bv16 { if b then 1 else 0 }
  const POLY: bv16 := 0x633

  /** One step of long division: multiply the remainder by x and take off the generator. */
  function Reduce(r: bv16): bv16 {
    if Carries(r) then Xor16(Double16(r), POLY) else Double16(r)
  }

  function Reduces(n: nat, r: bv16): bv16 {
    if n == 0 then r else Reduce(Reduces(n - 1, r))
  }

  /** The remainder register after the message bits, most significant first. */
  function Serial(r: bv16, bits: seq<bool>): bv16 {
    if bits == [] then r else Xor16(Reduce(Serial(r, bits[..|bits| - 1])), Unit(bits[|bits| - 1]))
  }

  /** The low n bits of a word, most significant first. */
  function LowBits(n: nat, v: bv16): (bits: seq<bool>)
    ensures |bits| == n
  {
    if n == 0 then [] else LowBits(n - 1, Half16(v)) + [Odd16(v)]
  }

  function Bits(p: seq<bv8>): seq<bool> {
    if p == [] then [] else Bits(p[..|p| - 1]) + LowBits(8, p[|p| - 1] as bv16)
  }

  /** The bits of octets one after the other are their bits one after the other, eight of each. */
  lemma {:induction false} BitsConcat(p: seq<bv8>, q: seq<bv8>)
    ensures Bits(p + q) == Bits(p) + Bits(q)
    ensures |Bits(q)| == 8 * |q|
    decreases q
  {
    if q == [] {
      assert p + q == p && Bits(p) + [] == Bits(p);
    } else {
      var init, last := q[..|q| - 1], q[|q| - 1];
      BitsConcat(p, init);
      assert (p + q)[..|p + q| - 1] == p + init;
      assert Bits(p) + Bits(init) + LowBits(8, last as bv16) == Bits(p) + (Bits(init) + LowBits(8, last as bv16));
    }
  }

  // ----- The table -----

  function Reduce8(r: bv16): bv16 {
    Reduce(Reduce(Reduce(Reduce(Reduce(Reduce(Reduce(Reduce(r))))))))
  }

  function Pick(j: bv8, e0: bv16, e1: bv16, e2: bv16, e3: bv16, e4: bv16, e5: bv16, e6: bv16, e7: bv16): bv16 {
    if j == 0 then e0 else if j == 1 then e1 else if j == 2 then e2 else if j == 3 then e3
    else if j == 4 then e4 else if j == 5 then e5 else if j == 6 then e6 else e7
  }

  function FirstQuarter(i: bv8): (t: bv16)
    requires 0 <= i >> 3 < 8
    ensures t == Reduce8(i as bv16 << 2)
  {
    var j := i & 7;
    if i >> 3 == 0 then Pick(j, 0x0000, 0x0233, 0x0255, 0x0066, 0x0299, 0x00aa, 0x00cc, 0x02ff)
    else if i >> 3 == 1 then Pick(j, 0x0301, 0x0132, 0x0154, 0x0367, 0x0198, 0x03ab, 0x03cd, 0x01fe)
    else if i >> 3 == 2 then Pick(j, 0x0031, 0x0202, 0x0264, 0x0057, 0x02a8, 0x009b, 0x00fd, 0x02ce)
    else if i >> 3 == 3 then Pick(j, 0x0330, 0x0103, 0x0165, 0x0356, 0x01a9, 0x039a, 0x03fc, 0x01cf)
    else if i >> 3 == 4 then Pick(j, 0x0062, 0x0251, 0x0237, 0x0004, 0x02fb, 0x00c8, 0x00ae, 0x029d)
    else if i >> 3 == 5 then Pick(j, 0x0363, 0x0150, 0x0136, 0x0305, 0x01fa, 0x03c9, 0x03af, 0x019c)
    else if i >> 3 == 6 then Pick(j, 0x0053, 0x0260, 0x0206, 0x0035, 0x02ca, 0x00f9, 0x009f, 0x02ac)
    else Pick(j, 0x0352, 0x0161, 0x0107, 0x0334, 0x01cb, 0x03f8, 0x039e, 0x01ad)
  }

  function SecondQuarter(i: bv8): (t: bv16)
    requires 8 <= i >> 3 < 16
    ensures t == Reduce8(i as bv16 << 2)
  {
    var j := i & 7;
    if i >> 3 == 8 then Pick(j, 0x00c4, 0x02f7, 0x0291, 0x00a2, 0x025d, 0x006e, 0x0008, 0x023b)
    else if i >> 3 == 9 then Pick(j, 0x03c5, 0x01f6, 0x0190, 0x03a3, 0x015c, 0x036f, 0x0309, 0x013a)
    else if i >> 3 == 10 then Pick(j, 0x00f5, 0x02c6, 0x02a0, 0x0093, 0x026c, 0x005f, 0x0039, 0x020a)
    else if i >> 3 == 11 then Pick(j, 0x03f4, 0x01c7, 0x01a1, 0x0392, 0x016d, 0x035e, 0x0338, 0x010b)
    else if i >> 3 == 12 then Pick(j, 0x00a6, 0x0295, 0x02f3, 0x00c0, 0x023f, 0x000c, 0x006a, 0x0259)
    else if i >> 3 == 13 then Pick(j, 0x03a7, 0x0194, 0x01f2, 0x03c1, 0x013e, 0x030d, 0x036b, 0x0158)
    else if i >> 3 == 14 then Pick(j, 0x0097, 0x02a4, 0x02c2, 0x00f1, 0x020e, 0x003d, 0x005b, 0x0268)
    else Pick(j, 0x0396, 0x01a5, 0x01c3, 0x03f0, 0x010f, 0x033c, 0x035a, 0x0169)
  }

  function ThirdQuarter(i: bv8): (t: bv16)
    requires 16 <= i >> 3 < 24
    ensures t == Reduce8(i as bv16 << 2)
  {
    var j := i & 7;
    if i >> 3 == 16 then Pick(j, 0x0188, 0x03bb, 0x03dd, 0x01ee, 0x0311, 0x0122, 0x0144, 0x0377)
    else if i >> 3 == 17 then Pick(j, 0x0289, 0x00ba, 0x00dc, 0x02ef, 0x0010, 0x0223, 0x0245, 0x0076)
    else if i >> 3 == 18 then Pick(j, 0x01b9, 0x038a, 0x03ec, 0x01df, 0x0320, 0x0113, 0x0175, 0x0346)
    else if i >> 3 == 19 then Pick(j, 0x02b8, 0x008b, 0x00ed, 0x02de, 0x0021, 0x0212, 0x0274, 0x0047)
    else if i >> 3 == 20 then Pick(j, 0x01ea, 0x03d9, 0x03bf, 0x018c, 0x0373, 0x0140, 0x0126, 0x0315)
    else if i >> 3 == 21 then Pick(j, 0x02eb, 0x00d8, 0x00be, 0x028d, 0x0072, 0x0241, 0x0227, 0x0014)
    else if i >> 3 == 22 then Pick(j, 0x01db, 0x03e8, 0x038e, 0x01bd, 0x0342, 0x0171, 0x0117, 0x0324)
    else Pick(j, 0x02da, 0x00e9, 0x008f, 0x02bc, 0x0043, 0x0270, 0x0216, 0x0025)
  }

  function FourthQuarter(i: bv8): (t: bv16)
    requires 24 <= i >> 3 < 32
    ensures t == Reduce8(i as bv16 << 2)
  {
    var j := i & 7;
    if i >> 3 == 24 then Pick(j, 0x014c, 0x037f, 0x0319, 0x012a, 0x03d5, 0x01e6, 0x0180, 0x03b3)
    else if i >> 3 == 25 then Pick(j, 0x024d, 0x007e, 0x0018, 0x022b, 0x00d4, 0x02e7, 0x0281, 0x00b2)
    else if i >> 3 == 26 then Pick(j, 0x017d, 0x034e, 0x0328, 0x011b, 0x03e4, 0x01d7, 0x01b1, 0x0382)
    else if i >> 3 == 27 then Pick(j, 0x027c, 0x004f, 0x0029, 0x021a, 0x00e5, 0x02d6, 0x02b0, 0x0083)
    else if i >> 3 == 28 then Pick(j, 0x012e, 0x031d, 0x037b, 0x0148, 0x03b7, 0x0184, 0x01e2, 0x03d1)
    else if i >> 3 == 29 then Pick(j, 0x022f, 0x001c, 0x007a, 0x0249, 0x00b6, 0x0285, 0x02e3, 0x00d0)
    else if i >> 3 == 30 then Pick(j, 0x011f, 0x032c, 0x034a, 0x0179, 0x0386, 0x01b5, 0x01d3, 0x03e0)
    else Pick(j, 0x021e, 0x002d, 0x004b, 0x0278, 0x0087, 0x02b4, 0x02d2, 0x00e1)
  }

  /** The lookup table: each entry is its index, shifted up to the top of the register, reduced by eight
      bit-serial steps. */
  function Table(i: bv8): (t: bv16)
    ensures t == Reduce8(i as bv16 << 2)
  {
    if i >> 3 < 8 then FirstQuarter(i)
    else if i >> 3 < 16 then SecondQuarter(i)
    else if i >> 3 < 24 then ThirdQuarter(i)
    else FourthQuarter(i)
  }

  // ----- The table-driven step -----

  lemma DoubleLinear(a: bv16, b: bv16)
    ensures Double16(Xor16(a, b)) == Xor16(Double16(a), Double16(b))
  {
  }

  lemma CarriesLinear(a: bv16, b: bv16)
    ensures Carries(Xor16(a, b)) <==> Carries(a) != Carries(b)
  {
  }

  lemma ReduceLinear(a: bv16, b: bv16)
    ensures Reduce(Xor16(a, b)) == Xor16(Reduce(a), Reduce(b))
  {
    DoubleLinear(a, b);
    CarriesLinear(a, b);
    Xor16Laws(Double16(a), Double16(b), POLY);
  }

  lemma {:induction false} ReducesLinear(n: nat, a: bv16, b: bv16)
    ensures Reduces(n, Xor16(a, b)) == Xor16(Reduces(n, a), Reduces(n, b))
  {
    if n > 0 {
      ReducesLinear(n - 1, a, b);
      ReduceLinear(Reduces(n - 1, a), Reduces(n - 1, b));
    }
  }

  lemma Reduces8(r: bv16)
    ensures Reduces(8, r) == Reduce8(r)
  {
    var r1, r2, r3, r4 := Reduces(1, r), Reduces(2, r), Reduces(3, r), Reduces(4, r);
    var r5, r6, r7 := Reduces(5, r), Reduces(6, r), Reduces(7, r);
    assert r1 == Reduce(Reduces(0, r)) && r2 == Reduce(r1) && r3 == Reduce(r2) && r4 == Reduce(r3);
    assert r5 == Reduce(r4) && r6 == Reduce(r5) && r7 == Reduce(r6);
  }

  /** Dividing a message in two goes is dividing it in one. */
  lemma {:induction false} SerialConcat(r: bv16, a: seq<bool>, b: seq<bool>)
    ensures Serial(r, a + b) == Serial(Serial(r, a), b)
  {
    if b == [] {
      assert a + b == a;
    } else {
      var n := |b| - 1;
      assert (a + b)[..|a| + n] == a + b[..n];
      SerialConcat(r, a, b[..n]);
    }
  }

  /** The number a bit string writes. */
  function Value(bits: seq<bool>): bv16 {
    if bits == [] then 0 else Xor16(Double16(Value(bits[..|bits| - 1])), Unit(bits[|bits| - 1]))
  }

  /** The largest number of n bits. */
  function Ones(n: nat): bv16 {
    if n == 0 then 0 else Xor16(Double16(Ones(n - 1)), 1)
  }

  lemma OnesValues()
    ensures Ones(8) == 0xff && Ones(9) == 0x1ff && Ones(10) == 0x3ff
  {
    var n1, n2, n3, n4, n5, n6, n7 := Ones(1), Ones(2), Ones(3), Ones(4), Ones(5), Ones(6), Ones(7);
    assert n1 == 1 && n2 == 3 && n3 == 7 && n4 == 15 && n5 == 31 && n6 == 63 && n7 == 127;
    assert Ones(8) == 0xff && Ones(9) == 0x1ff;
  }

  /** Whether v has no bits outside the mask. */
  predicate Within(v: bv16, mask: bv16) { v & mask == v }

  lemma DoubleGrows(v: bv16, mask: bv16, b: bool)
    requires Within(v, mask) && Within(mask, 0x1ff)
    ensures Within(Xor16(Double16(v), Unit(b)), Xor16(Double16(mask), 1))
    ensures !Carries(v)
  {
  }

  lemma {:induction false} OnesMonotone(n: nat)
    requires n <= 9
    ensures Within(Ones(n), 0x1ff)
    decreases 9 - n
  {
    OnesValues();
    if n < 9 {
      OnesMonotone(n + 1);
      assert Ones(n + 1) == Xor16(Double16(Ones(n)), 1);
    }
  }

  lemma {:induction false} ValueBound(bits: seq<bool>)
    requires |bits| <= 10
    ensures Within(Value(bits), Ones(|bits|))
  {
    if bits != [] {
      var init, last := bits[..|bits| - 1], bits[|bits| - 1];
      ValueBound(init);
      OnesMonotone(|init|);
      var v, mask := Value(init), Ones(|init|);
      DoubleGrows(v, mask, last);
      assert Value(bits) == Xor16(Double16(v), Unit(last)) && Ones(|bits|) == Xor16(Double16(mask), 1);
    }
  }

  /** Up to ten bits enter the register as they are, on top of what the register is reduced to. */
  lemma {:induction false} SerialShort(r: bv16, bits: seq<bool>)
    requires |bits| <= 10
    ensures Serial(r, bits) == Xor16(Reduces(|bits|, r), Value(bits))
  {
    if bits == [] {
      XorZero(r);
    } else {
      var init, last := bits[..|bits| - 1], Unit(bits[|bits| - 1]);
      SerialShort(r, init);
      ReduceLinear(Reduces(|init|, r), Value(init));
      ValueBound(init);
      OnesMonotone(|init|);
      DoubleGrows(Value(init), Ones(|init|), false);
      Xor16Laws(Reduces(|bits|, r), Double16(Value(init)), last);
    }
  }

  lemma XorZero(r: bv16)
    ensures Xor16(r, 0) == r
  {
  }

  lemma HalfShrinks(v: bv16, mask: bv16)
    requires Within(v, Xor16(Double16(mask), 1)) && Within(mask, 0x1ff)
    ensures Within(Half16(v), mask)
  {
  }

  lemma HalfDouble(v: bv16, b: bool)
    ensures Xor16(Double16(Half16(v)), Unit(Odd16(v))) == v
    ensures Within(v, 0x1ff) ==> Half16(Xor16(Double16(v), Unit(b))) == v && Odd16(Xor16(Double16(v), Unit(b))) == b
  {
  }

  /** Numbers of up to ten bits and bit strings of that length are the same thing. */
  lemma {:induction false} ValueOfLowBits(n: nat, v: bv16)
    requires n <= 10 && Within(v, Ones(n))
    ensures Value(LowBits(n, v)) == v
  {
    if n > 0 {
      var init := LowBits(n - 1, Half16(v));
      OnesMonotone(n - 1);
      HalfShrinks(v, Ones(n - 1));
      ValueOfLowBits(n - 1, Half16(v));
      assert LowBits(n, v)[..n - 1] == init;
      HalfDouble(v, false);
    }
  }

  lemma {:induction false} LowBitsOfValue(bits: seq<bool>)
    requires |bits| <= 10
    ensures LowBits(|bits|, Value(bits)) == bits
  {
    if bits != [] {
      var init, last := bits[..|bits| - 1], bits[|bits| - 1];
      LowBitsOfValue(init);
      ValueBound(init);
      OnesMonotone(|init|);
      WithinTrans(Value(init), Ones(|init|), 0x1ff);
      HalfDouble(Value(init), last);
    }
  }

  lemma WithinTrans(a: bv16, b: bv16, c: bv16)
    requires Within(a, b) && Within(b, c)
    ensures Within(a, c)
  {
  }

  // ----- The routine -----

  /** One pass of the loop. */
  function Advance(accum: bv16, b: bv8): bv16 {
    Xor16(Xor16((accum << 8) & 0x3ff, Table(((accum >> 2) & 0xff) as bv8)), b as bv16)
  }

  /** The top eight bits of the register go through the table; the low two only move up. */
  lemma RegisterParts(accum: bv16)
    ensures Xor16(((accum >> 2) & 0xff) as bv8 as bv16 << 2, accum & 3) == accum & 0x3ff
  {
  }

  lemma LowBitsMoveUp(accum: bv16)
    ensures Reduce8(accum & 3) == (accum << 8) & 0x3ff
  {
  }

  lemma XorSwap(a: bv16, b: bv16)
    ensures Xor16(a, b) == Xor16(b, a)
  {
  }

  lemma TableReduces(accum: bv16)
    ensures Xor16((accum << 8) & 0x3ff, Table(((accum >> 2) & 0xff) as bv8)) == Reduces(8, accum & 0x3ff)
  {
    var high, low := ((accum >> 2) & 0xff) as bv8 as bv16 << 2, accum & 3;
    RegisterParts(accum);
    ReducesLinear(8, high, low);
    Reduces8(high);
    Reduces8(low);
    LowBitsMoveUp(accum);
    XorSwap(Reduce8(high), Reduce8(low));
  }

  /** The table-driven step is eight steps of long division. */
  lemma AdvanceIsSerial(accum: bv16, b: bv8)
    ensures Advance(accum, b) == Serial(accum & 0x3ff, LowBits(8, b as bv16))
  {
    OnesValues();
    OctetWithin(b);
    ValueOfLowBits(8, b as bv16);
    SerialShort(accum & 0x3ff, LowBits(8, b as bv16));
    TableReduces(accum);
  }

  lemma OctetWithin(b: bv8)
    ensures Within(b as bv16, 0xff)
  {
  }

  /** A remainder has degree less than ten. */
  lemma ReduceWithin(r: bv16)
    requires Within(r, 0x3ff)
    ensures Within(Reduce(r), 0x3ff)
  {
  }

  lemma XorWithin(a: bv16, b: bool)
    requires Within(a, 0x3ff)
    ensures Within(Xor16(a, Unit(b)), 0x3ff)
  {
  }

  lemma {:induction false} SerialWithin(r: bv16, bits: seq<bool>)
    requires Within(r, 0x3ff)
    ensures Within(Serial(r, bits), 0x3ff)
  {
    if bits != [] {
      SerialWithin(r, bits[..|bits| - 1]);
      ReduceWithin(Serial(r, bits[..|bits| - 1]));
      XorWithin(Reduce(Serial(r, bits[..|bits| - 1])), bits[|bits| - 1]);
    }
  }

  lemma MaskWithin(a: bv16)
    ensures Within(a & 0x3ff, 0x3ff)
    ensures Within(a, 0x3ff) ==> a & 0x3ff == a
  {
  }

  /** The routine divides: it returns the remainder register after the bits of `p`. Bits of the initial
      accumulator above the register do not matter. */
  method VerifyCrc10(accumIn: bv16, p: seq<bv8>) returns (accum: bv16)
    ensures accum & 0x3ff == Serial(accumIn & 0x3ff, Bits(p))
    ensures p != [] || Within(accumIn, 0x3ff) ==> Within(accum, 0x3ff)
  {
    accum := accumIn;
    var i := 0;
    while i < |p|
      invariant i <= |p|
      invariant accum & 0x3ff == Serial(accumIn & 0x3ff, Bits(p[..i]))
      invariant i > 0 || Within(accumIn, 0x3ff) ==> Within(accum, 0x3ff)
    {
      assert p[..i + 1][..i] == p[..i];
      AdvanceIsSerial(accum, p[i]);
      MaskWithin(accum);
      SerialWithin(accum & 0x3ff, LowBits(8, p[i] as bv16));
      SerialConcat(accumIn & 0x3ff, Bits(p[..i]), LowBits(8, p[i] as bv16));
      accum := Advance(accum, p[i]);
      MaskWithin(accum);
      i := i + 1;
    }
    assert p[..i] == p;
  }

  // ----- Linearity and trailers -----

  /** Adding two messages of the same length adds their remainders. */
  lemma {:induction false} SerialLinear(r: bv16, s: bv16, a: seq<bool>, b: seq<bool>)
    requires |a| == |b|
    ensures Serial(Xor16(r, s), seq(|a|, i requires 0 <= i < |a| => a[i] != b[i])) == Xor16(Serial(r, a), Serial(s, b))
  {
    var sum := seq(|a|, i requires 0 <= i < |a| => a[i] != b[i]);
    if a != [] {
      var n := |a| - 1;
      assert sum[..n] == seq(n, i requires 0 <= i < n => a[..n][i] != b[..n][i]);
      SerialLinear(r, s, a[..n], b[..n]);
      ReduceLinear(Serial(r, a[..n]), Serial(s, b[..n]));
      XorUnits(Reduce(Serial(r, a[..n])), Reduce(Serial(s, b[..n])), a[n], b[n]);
    }
  }

  lemma XorUnits(x: bv16, y: bv16, a: bool, b: bool)
    ensures Xor16(Xor16(x, y), Unit(a != b)) == Xor16(Xor16(x, Unit(a)), Xor16(y, Unit(b)))
  {
    var c, d := Unit(a), Unit(b);
    UnitsAdd(a, b);
    Xor16Laws(Xor16(x, y), c, d);
    Xor16Laws(x, c, y);
    Xor16Laws(Xor16(x, c), y, d);
  }

  lemma UnitsAdd(a: bool, b: bool)
    ensures Unit(a != b) == Xor16(Unit(a), Unit(b))
  {
  }

  /** For any leading bits exactly one trailer of ten bits makes the remainder zero. */
  lemma UniqueTrailer(lead: seq<bool>, trailer: seq<bool>)
    requires |trailer| == 10
    ensures Serial(0, lead + trailer) == 0 <==> trailer == LowBits(10, Reduces(10, Serial(0, lead)))
  {
    var r := Serial(0, lead);
    var due := Reduces(10, r);
    SerialConcat(0, lead, trailer);
    SerialShort(r, trailer);
    Xor16Cancels(due, Value(trailer));
    LowBitsOfValue(trailer);
    OnesValues();
    MaskWithin(0);
    SerialWithin(0, lead);
    ReducesWithin(10, r);
    ValueOfLowBits(10, due);
  }

  lemma {:induction false} ReducesWithin(n: nat, r: bv16)
    requires Within(r, 0x3ff)
    ensures Within(Reduces(n, r), 0x3ff)
  {
    if n > 0 {
      ReducesWithin(n - 1, r);
      ReduceWithin(Reduces(n - 1, r));
    }
  }

  // ----- Polynomials over GF(2) -----

  /** A polynomial over GF(2), as the set of the exponents that occur in it. */
  type Poly = set<nat>

  function Add(a: Poly, b: Poly): Poly { (a - b) + (b - a) }

  function TimesX(a: Poly): Poly { set e | e in a :: e + 1 }

  function Constant(b: bool): Poly { if b then {0} else {} }

  /** x^10 + x^9 + x^5 + x^4 + x + 1, written 0x633. */
  const GENERATOR: Poly := {0, 1, 4, 5, 9, 10}

  /** The polynomial a bit string writes, most significant coefficient first. */
  function PolyOf(bits: seq<bool>): Poly {
    if bits == [] then {} else Add(TimesX(PolyOf(bits[..|bits| - 1])), Constant(bits[|bits| - 1]))
  }

  /** The product of the polynomial of a bit string and the generator. */
  function TimesGenerator(q: seq<bool>): Poly {
    if q == [] then {}
    else Add(TimesX(TimesGenerator(q[..|q| - 1])), if q[|q| - 1] then GENERATOR else {})
  }

  /** The quotient bits that the long division drops. */
  function Quotient(bits: seq<bool>): (q: seq<bool>)
    ensures |q| == |bits|
  {
    if bits == [] then []
    else Quotient(bits[..|bits| - 1]) + [Carries(Serial(0, bits[..|bits| - 1]))]
  }

  /** The polynomial of the low n bits of a register. */
  function RegisterPoly(n: nat, r: bv16): Poly {
    if n == 0 then {} else Add(TimesX(RegisterPoly(n - 1, Half16(r))), Constant(Odd16(r)))
  }

  lemma TimesXAdd(a: Poly, b: Poly)
    ensures TimesX(Add(a, b)) == Add(TimesX(a), TimesX(b))
  {
    assert forall e :: e + 1 in TimesX(Add(a, b)) <==> e in Add(a, b);
  }

  lemma {:induction false} RegisterPolyAdd(n: nat, a: bv16, b: bv16)
    ensures RegisterPoly(n, Xor16(a, b)) == Add(RegisterPoly(n, a), RegisterPoly(n, b))
  {
    if n > 0 {
      Half16Linear(a, b);
      Odd16Linear(a, b);
      RegisterPolyAdd(n - 1, Half16(a), Half16(b));
      var p, q := RegisterPoly(n - 1, Half16(a)), RegisterPoly(n - 1, Half16(b));
      TimesXAdd(p, q);
      AddFour(TimesX(p), TimesX(q), Odd16(a), Odd16(b));
    }
  }

  lemma AddFour(p: Poly, q: Poly, a: bool, b: bool)
    ensures Add(Add(p, q), Constant(a != b)) == Add(Add(p, Constant(a)), Add(q, Constant(b)))
  {
  }

  /** A bit that is not set contributes nothing. */
  lemma {:induction false} TopBitClear(n: nat, r: bv16)
    requires Halves16(n, r) == 0
    ensures RegisterPoly(n + 1, r) == RegisterPoly(n, r)
  {
    if n > 0 {
      TopBitClear(n - 1, Half16(r));
    } else {
      assert TimesX({}) == {};
    }
  }

  lemma TenHalves(r: bv16)
    requires Within(r, 0x3ff)
    ensures Halves16(10, r) == 0
  {
    var h1 := Half16(r);
    var h2 := Half16(h1);
    var h3 := Half16(h2);
    var h4 := Half16(h3);
    var h5 := Half16(h4);
    var h6 := Half16(h5);
    var h7 := Half16(h6);
    var h8 := Half16(h7);
    var h9 := Half16(h8);
    assert Halves16(10, r) == Halves16(9, h1) == Halves16(8, h2) == Halves16(7, h3) == Halves16(6, h4)
           == Halves16(5, h5);
    assert Halves16(5, h5) == Halves16(4, h6) == Halves16(3, h7) == Halves16(2, h8) == Halves16(1, h9) == Half16(h9);
  }

  lemma DoubleBack(r: bv16)
    requires Within(r, 0x3ff)
    ensures Half16(Double16(r)) == r && !Odd16(Double16(r))
  {
  }

  /** The generator as the source writes it. */
  lemma GeneratorBits()
    ensures RegisterPoly(11, POLY) == GENERATOR
  {
    var h1, h2, h3, h4, h5: bv16 := 0x319, 0x18c, 0xc6, 0x63, 0x31;
    var h6, h7, h8, h9, h10: bv16 := 0x18, 0xc, 6, 3, 1;
    assert RegisterPoly(1, h10) == {0};
    assert RegisterPoly(2, h9) == {0, 1};
    assert RegisterPoly(3, h8) == {1, 2};
    assert RegisterPoly(4, h7) == {2, 3};
    assert RegisterPoly(5, h6) == {3, 4};
    assert RegisterPoly(6, h5) == {0, 4, 5};
    assert RegisterPoly(7, h4) == {0, 1, 5, 6};
    assert RegisterPoly(8, h3) == {1, 2, 6, 7};
    assert RegisterPoly(9, h2) == {2, 3, 7, 8};
    assert RegisterPoly(10, h1) == {0, 3, 4, 8, 9};
  }

  /** One division step: the shifted remainder is the new remainder plus the quotient bit's generator. */
  lemma ReducePoly(r: bv16)
    requires Within(r, 0x3ff)
    ensures TimesX(RegisterPoly(10, r))
         == Add(RegisterPoly(10, Reduce(r)), if Carries(r) then GENERATOR else {})
  {
    var shifted := TimesX(RegisterPoly(10, r));
    DoubleBack(r);
    assert RegisterPoly(11, Double16(r)) == shifted;
    ReduceWithin(r);
    TenHalves(Reduce(r));
    TopBitClear(10, Reduce(r));
    if Carries(r) {
      RegisterPolyAdd(11, Double16(r), POLY);
      GeneratorBits();
    }
  }

  lemma RegisterPolyUnit(r: bv16, b: bool)
    ensures RegisterPoly(10, Xor16(r, Unit(b))) == Add(RegisterPoly(10, r), Constant(b))
  {
    RegisterPolyAdd(10, r, Unit(b));
    RegisterPolySmall(b);
  }

  lemma RegisterPolySmall(b: bool)
    ensures RegisterPoly(10, Unit(b)) == Constant(b)
  {
    RegisterPolyZero(9);
    assert TimesX({}) == {};
  }

  lemma {:induction false} RegisterPolyZero(n: nat)
    ensures RegisterPoly(n, 0) == {}
  {
    if n > 0 {
      RegisterPolyZero(n - 1);
      assert Half16(0) == 0;
    }
  }

  /** The message polynomial is a multiple of the generator plus the remainder register. */
  lemma {:induction false} DivisionTheorem(bits: seq<bool>)
    ensures PolyOf(bits) == Add(TimesGenerator(Quotient(bits)), RegisterPoly(10, Serial(0, bits)))
  {
    if bits == [] {
      RegisterPolyZero(10);
    } else {
      var init, last := bits[..|bits| - 1], bits[|bits| - 1];
      var r, q := Serial(0, init), Quotient(init);
      DivisionTheorem(init);
      MaskWithin(0);
      SerialWithin(0, init);
      ReducePoly(r);
      RegisterPolyUnit(Reduce(r), last);
      assert Quotient(bits)[..|init|] == q;
      TimesXAdd(TimesGenerator(q), RegisterPoly(10, r));
      var g := if Carries(r) then GENERATOR else {};
      AddAcross(TimesX(TimesGenerator(q)), RegisterPoly(10, Reduce(r)), g, Constant(last));
    }
  }

  lemma AddAcross(a: Poly, r: Poly, g: Poly, b: Poly)
    ensures Add(Add(a, Add(r, g)), b) == Add(Add(a, g), Add(r, b))
  {
  }

  /** The remainder register has degree below ten. */
  lemma {:induction false} RegisterPolyDegree(n: nat, r: bv16)
    ensures forall e :: e in RegisterPoly(n, r) ==> e < n
  {
    if n > 0 {
      RegisterPolyDegree(n - 1, Half16(r));
    }
  }

  /** A multiple of the generator is zero or has a term of degree ten or more. */
  lemma {:induction false} MultipleIsLong(q: seq<bool>)
    ensures TimesGenerator(q) == {} || exists e :: e in TimesGenerator(q) && e >= 10
  {
    if q != [] {
      var init, g := q[..|q| - 1], if q[|q| - 1] then GENERATOR else {};
      MultipleIsLong(init);
      var m := TimesGenerator(init);
      if m == {} {
        assert TimesX(m) == {};
        assert TimesGenerator(q) == g;
        assert q[|q| - 1] ==> 10 in TimesGenerator(q);
      } else {
        var e :| e in m && e >= 10;
        assert e + 1 in TimesX(m) && e + 1 !in g;
        assert e + 1 in TimesGenerator(q);
      }
    }
  }

  lemma AddMultiples(a: Poly, b: Poly, x: bool, y: bool)
    ensures var g := GENERATOR;
            Add(Add(a, b), if x != y then g else {}) == Add(Add(a, if x then g else {}), Add(b, if y then g else {}))
  {
  }

  /** The sum of two multiples of the generator is one. */
  lemma {:induction false} SumOfMultiples(p: seq<bool>, q: seq<bool>) returns (s: seq<bool>)
    ensures TimesGenerator(s) == Add(TimesGenerator(p), TimesGenerator(q))
    decreases |p|
  {
    if p == [] {
      s := q;
    } else if q == [] {
      s := p;
    } else {
      var a, b, x, y := p[..|p| - 1], q[..|q| - 1], p[|p| - 1], q[|q| - 1];
      var init := SumOfMultiples(a, b);
      s := init + [x != y];
      assert s[..|s| - 1] == init;
      TimesXAdd(TimesGenerator(a), TimesGenerator(b));
      AddMultiples(TimesX(TimesGenerator(a)), TimesX(TimesGenerator(b)), x, y);
    }
  }

  lemma DifferenceOfRests(m: Poly, a: Poly, n: Poly, b: Poly)
    requires Add(m, a) == Add(n, b)
    ensures Add(m, n) == Add(a, b)
  {
    forall e
      ensures e in Add(m, n) <==> e in Add(a, b)
    {
      assert e in Add(m, a) <==> e in Add(n, b);
    }
  }

  /** Division is unique: whatever multiple of the generator is taken off the message, a rest of degree below
      ten is the remainder register. */
  lemma RemainderIsUnique(bits: seq<bool>, q: seq<bool>, rest: Poly)
    requires PolyOf(bits) == Add(TimesGenerator(q), rest) && forall e :: e in rest ==> e < 10
    ensures rest == RegisterPoly(10, Serial(0, bits))
  {
    var register := RegisterPoly(10, Serial(0, bits));
    DivisionTheorem(bits);
    RegisterPolyDegree(10, Serial(0, bits));
    DifferenceOfRests(TimesGenerator(q), rest, TimesGenerator(Quotient(bits)), register);
    var s := SumOfMultiples(q, Quotient(bits));
    MultipleIsLong(s);
    assert Add(rest, register) == {};
    assert forall e :: e in rest <==> e in register;
  }
}
