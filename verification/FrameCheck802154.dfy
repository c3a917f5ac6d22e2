/** The frame check sequences of tcpdump/print-802_15_4.c, against bit-serial reflected CRCs. */
module FrameCheck802154 {
  import opened Registers

  // ----- Bit-serial reflected CRCs -----

  const POLY16: bv16 := 0x8408

  /** One bit of the reflected CRC with the CCITT polynomial x^16 + x^12 + x^5 + 1. */
  function Bit16(r: bv16): bv16 {
    if Odd16(r) then Xor16(Half16(r), POLY16) else Half16(r)
  }

  function Bits16(n: nat, r: bv16): bv16 {
    if n == 0 then r else Bit16(Bits16(n - 1, r))
  }

  /** One octet, least significant bit first. */
  function Octet16(r: bv16, b: bv8): bv16 { Bits16(8, Xor16(r, Wide16(b))) }

  function Serial16(r: bv16, p: seq<bv8>): bv16 {
    if p == [] then r else Octet16(Serial16(r, p[..|p| - 1]), p[|p| - 1])
  }

  /** One bit of the reflected CRC with the ANSI X3.66 polynomial 0x04C11DB7. */
  function Bit32(r: bv32): bv32 {
    if Odd32(r) then Xor32(Half32(r), POLY32) else Half32(r)
  }

  function Bits32(n: nat, r: bv32): bv32 {
    if n == 0 then r else Bit32(Bits32(n - 1, r))
  }

  function Octet32(r: bv32, b: bv8): bv32 { Bits32(8, Xor32(r, Wide32(b))) }

  function Serial32(r: bv32, p: seq<bv8>): bv32 {
    if p == [] then r else Octet32(Serial32(r, p[..|p| - 1]), p[|p| - 1])
  }

  // ----- CRC-16: the shift trick -----

  function Reverse8(b: bv8): bv8 {
    var y := ((b & 0xaa) >> 1) | ((b & 0x55) << 1);
    var z := ((y & 0xcc) >> 2) | ((y & 0x33) << 2);
    ((z & 0xf0) >> 4) | ((z & 0x0f) << 4)
  }

  function Reverse16(c: bv16): bv16 {
    var w := ((c & 0xaaaa) >> 1) | ((c & 0x5555) << 1);
    var x := ((w & 0xcccc) >> 2) | ((w & 0x3333) << 2);
    var y := ((x & 0xf0f0) >> 4) | ((x & 0x0f0f) << 4);
    ((y & 0xff00) >> 8) | ((y & 0x00ff) << 8)
  }

  // Named so that the proofs below can treat them as wholes.
  function Up16(r: bv16): bv16 { r << 8 }
  function Down16(r: bv16): bv16 { r >> 8 }
  function Low16(r: bv16): bv8 { (r & 0xff) as bv8 }
  function Wide16(b: bv8): bv16 { b as bv16 }

  /** The taps of the shift trick for one bit-reversed octet. */
  function Taps16(v: bv8): bv16 {
    var x := (v ^ (v >> 4)) as bv16;
    (x << 12) ^ (x << 5) ^ x
  }

  /** The update of the CRC register with a bit-reversed octet. */
  function Shifted16(crc: bv16, y: bv8): bv16 {
    Xor16(Up16(crc), Taps16(Low16(Down16(crc)) ^ y))
  }

  lemma Bit16Linear(a: bv16, b: bv16)
    ensures Bit16(Xor16(a, b)) == Xor16(Bit16(a), Bit16(b))
  {
    Half16Linear(a, b);
    Odd16Linear(a, b);
    Xor16Laws(Half16(a), Half16(b), POLY16);
  }

  lemma {:induction false} Bits16Linear(n: nat, a: bv16, b: bv16)
    ensures Bits16(n, Xor16(a, b)) == Xor16(Bits16(n, a), Bits16(n, b))
  {
    if n > 0 {
      var x, y := Bits16(n - 1, a), Bits16(n - 1, b);
      Bits16Linear(n - 1, a, b);
      Bit16Linear(x, y);
      Bits16Step(n - 1, a, x);
      Bits16Step(n - 1, b, y);
      Bits16Step(n - 1, Xor16(a, b), Xor16(x, y));
    }
  }

  lemma Bits16Step(n: nat, r: bv16, s: bv16)
    requires Bits16(n, r) == s
    ensures Bits16(n + 1, r) == Bit16(s)
  {
  }

  lemma Bits16By8(r: bv16)
    ensures Bits16(8, r) == Bit16(Bit16(Bit16(Bit16(Bit16(Bit16(Bit16(Bit16(r))))))))
  {
    var r1, r2, r3, r4 := Bits16(1, r), Bits16(2, r), Bits16(3, r), Bits16(4, r);
    var r5, r6, r7 := Bits16(5, r), Bits16(6, r), Bits16(7, r);
    assert r1 == Bit16(Bits16(0, r)) && r2 == Bit16(r1) && r3 == Bit16(r2) && r4 == Bit16(r3);
    assert r5 == Bit16(r4) && r6 == Bit16(r5) && r7 == Bit16(r6);
  }

  /** Eight bits of a register whose low octet is zero only shift it. */
  lemma HighOctet16(r: bv16)
    ensures Bits16(8, Up16(r)) == Down16(Up16(r))
  {
    Bits16By8(r << 8);
  }

  lemma LowOctet16(v: bv8)
    ensures Bits16(8, Wide16(v)) == Reverse16(Taps16(Reverse8(v)))
  {
    Bits16By8(v as bv16);
  }

  lemma Reverse16Linear(a: bv16, b: bv16)
    ensures Reverse16(Xor16(a, b)) == Xor16(Reverse16(a), Reverse16(b))
  {
  }

  /** The high octet of the register, read through the bit reversal. */
  lemma Reversed16High(crc: bv16, b: bv8)
    ensures Reverse16(Up16(crc)) == Down16(Up16(Down16(Xor16(Reverse16(crc), Wide16(b)))))
  {
  }

  lemma Reversed16Low(crc: bv16, b: bv8)
    ensures Low16(Down16(crc)) ^ Reverse8(b) == Reverse8(Low16(Xor16(Reverse16(crc), Wide16(b))))
  {
  }

  lemma Octets16(r: bv16)
    ensures r == Xor16(Up16(Down16(r)), Wide16(Low16(r)))
  {
  }

  lemma Serial16Octets(r: bv16)
    ensures Bits16(8, r) == Xor16(Down16(Up16(Down16(r))), Reverse16(Taps16(Reverse8(Low16(r)))))
  {
    Octets16(r);
    HighOctet16(Down16(r));
    LowOctet16(Low16(r));
    Bits16Linear(8, Up16(Down16(r)), Wide16(Low16(r)));
  }

  /** The shift trick is eight bit-serial steps, seen through the bit reversals. */
  lemma Shifted16IsSerial(crc: bv16, b: bv8)
    ensures Reverse16(Shifted16(crc, Reverse8(b))) == Octet16(Reverse16(crc), b)
  {
    var r := Xor16(Reverse16(crc), Wide16(b));
    Serial16Octets(r);
    Reversed16High(crc, b);
    Reversed16Low(crc, b);
    Reverse16Linear(Up16(crc), Taps16(Reverse8(Low16(r))));
  }

  method Crc16(p: seq<bv8>) returns (crc: bv16)
    ensures crc == Serial16(0, p)
  {
    crc := 0x0000;
    var i := 0;
    while i < |p|
      invariant i <= |p|
      invariant Reverse16(crc) == Serial16(0, p[..i])
    {
      var y := Reverse8(p[i]);
      Shifted16IsSerial(crc, p[i]);
      assert p[..i + 1][..i] == p[..i];
      crc := Shifted16(crc, y);
      i := i + 1;
    }
    assert p[..i] == p;
    crc := Reverse16(crc);
  }

  // ----- CRC-32: the most significant bit first -----

  function Wide32(b: bv8): bv32 { b as bv32 }
  function Up32(r: bv32): bv32 { r << 8 }
  predicate Negative32(r: bv32) { r & 0x80000000 != 0 }

  /** The polynomial, and the same with its bits reversed. */
  const NORMAL32: bv32 := 0x04C11DB7
  const POLY32: bv32 := 0xEDB88320

  function Reverse32(x: bv32): bv32 {
    var x1 := ((x & 0x55555555) << 1) | ((x >> 1) & 0x55555555);
    var x2 := ((x1 & 0x33333333) << 2) | ((x1 >> 2) & 0x33333333);
    var x3 := ((x2 & 0x0F0F0F0F) << 4) | ((x2 >> 4) & 0x0F0F0F0F);
    (x3 << 24) | ((x3 & 0xFF00) << 8) | ((x3 >> 8) & 0xFF00) | (x3 >> 24)
  }

  lemma Reverse32Involution(x: bv32)
    ensures Reverse32(Reverse32(x)) == x
  {
  }

  lemma Reverse32Linear(a: bv32, b: bv32)
    ensures Reverse32(Xor32(a, b)) == Xor32(Reverse32(a), Reverse32(b))
  {
  }

  lemma Reverse32Shift(x: bv32)
    ensures Reverse32(Double32(x)) == Half32(Reverse32(x))
  {
    assert Reverse32(x << 1) == Reverse32(x) >> 1;
  }

  lemma Reverse32Sign(x: bv32)
    ensures Negative32(x) <==> Odd32(Reverse32(x))
  {
  }

  lemma Reverse32Poly()
    ensures Reverse32(NORMAL32) == POLY32
  {
  }

  /** The polynomials, power by power: x^16 + x^12 + x^5 + 1, whose bits are used in reverse order, and the
      polynomial of ANSI X3.66. */
  lemma PolynomialTerms()
    ensures Reverse16(POLY16) == (1 << 12) | (1 << 5) | 1
    ensures NORMAL32 == (1 << 26) | (1 << 23) | (1 << 22) | (1 << 16) | (1 << 12) | (1 << 11) | (1 << 10)
                      | (1 << 8) | (1 << 7) | (1 << 5) | (1 << 4) | (1 << 2) | (1 << 1) | 1
  {
  }

  lemma Bit32Linear(a: bv32, b: bv32)
    ensures Bit32(Xor32(a, b)) == Xor32(Bit32(a), Bit32(b))
  {
    Half32Linear(a, b);
    Odd32Linear(a, b);
    Xor32Laws(Half32(a), Half32(b), POLY32);
  }

  lemma {:induction false} Bits32Linear(n: nat, a: bv32, b: bv32)
    ensures Bits32(n, Xor32(a, b)) == Xor32(Bits32(n, a), Bits32(n, b))
  {
    if n > 0 {
      var x, y := Bits32(n - 1, a), Bits32(n - 1, b);
      Bits32Linear(n - 1, a, b);
      Bit32Linear(x, y);
      Bits32Step(n - 1, a, x);
      Bits32Step(n - 1, b, y);
      Bits32Step(n - 1, Xor32(a, b), Xor32(x, y));
    }
  }

  lemma Bits32Step(n: nat, r: bv32, s: bv32)
    requires Bits32(n, r) == s
    ensures Bits32(n + 1, r) == Bit32(s)
  {
  }

  /** One pass of the inner loop: the bit that leaves the register decides. */
  function Next32(crc: bv32, byte: bv32): bv32 {
    if Negative32(Xor32(crc, byte)) then Xor32(Double32(crc), NORMAL32) else Double32(crc)
  }

  lemma Next32IsSerial(crc: bv32, byte: bv32)
    ensures Xor32(Reverse32(Next32(crc, byte)), Reverse32(Double32(byte)))
            == Bit32(Xor32(Reverse32(crc), Reverse32(byte)))
  {
    var rc, rb := Reverse32(crc), Reverse32(byte);
    Reverse32Linear(crc, byte);
    Reverse32Sign(Xor32(crc, byte));
    Reverse32Shift(crc);
    Reverse32Shift(byte);
    Reverse32Linear(Double32(crc), NORMAL32);
    Reverse32Poly();
    Half32Linear(rc, rb);
    Xor32Laws(Half32(rc), Half32(rb), POLY32);
  }

  /** What is left of an octet after k bits. */
  function Rest32(b: bv8, k: nat): bv32 {
    if k == 0 then Wide32(b) else Half32(Rest32(b, k - 1))
  }

  lemma NoRest32(b: bv8, a: bv32)
    ensures Xor32(a, Rest32(b, 8)) == a
  {
    var r1, r2, r3, r4 := Rest32(b, 1), Rest32(b, 2), Rest32(b, 3), Rest32(b, 4);
    var r5, r6, r7 := Rest32(b, 5), Rest32(b, 6), Rest32(b, 7);
    assert r1 == Half32(Rest32(b, 0)) && r2 == Half32(r1) && r3 == Half32(r2) && r4 == Half32(r3);
    assert r5 == Half32(r4) && r6 == Half32(r5) && r7 == Half32(r6);
    assert Rest32(b, 8) == 0;
  }

  method Crc32(p: seq<bv8>) returns (crc: bv32)
    ensures crc == Serial32(0, p)
  {
    crc := 0x00000000;
    var i := 0;
    while i < |p|
      invariant i <= |p|
      invariant Reverse32(crc) == Serial32(0, p[..i])
    {
      assert p[..i + 1][..i] == p[..i];
      crc := Crc32Octet(crc, p[i]);
      i := i + 1;
    }
    assert p[..i] == p;
    crc := Reverse32(crc);
  }

  /** The inner loop, over the bits of one octet. */
  method Crc32Octet(crcIn: bv32, octet: bv8) returns (crc: bv32)
    ensures Reverse32(crc) == Octet32(Reverse32(crcIn), octet)
  {
    var byte := Reverse32(Wide32(octet));
    Reverse32Involution(Wide32(octet));
    crc := crcIn;
    var b := 0;
    while b <= 7
      invariant b <= 8
      invariant Reverse32(byte) == Rest32(octet, b)
      invariant Xor32(Reverse32(crc), Reverse32(byte)) == Bits32(b, Xor32(Reverse32(crcIn), Wide32(octet)))
    {
      Next32IsSerial(crc, byte);
      Reverse32Shift(byte);
      crc := Next32(crc, byte);
      byte := Double32(byte);
      b := b + 1;
    }
    NoRest32(octet, Reverse32(crc));
  }

  // ----- Trailers -----

  lemma {:induction false} Bits16Zero(n: nat, r: bv16)
    ensures Bits16(n, r) == 0 <==> r == 0
  {
    if n > 0 {
      Bits16Zero(n - 1, r);
      Bit16Zero(Bits16(n - 1, r));
    }
  }

  lemma Bit16Zero(r: bv16)
    ensures Bit16(r) == 0 <==> r == 0
  {
  }

  /** What a later octet adds can be put into the register eight bits earlier. */
  lemma Absorb16(x: bv16, b: bv8)
    ensures Xor16(Bits16(8, x), Wide16(b)) == Bits16(8, Xor16(x, Up16(Wide16(b))))
  {
    HighOctet16(Wide16(b));
    UpDown16(b);
    Bits16Linear(8, x, Up16(Wide16(b)));
  }

  lemma UpDown16(b: bv8)
    ensures Down16(Up16(Wide16(b))) == Wide16(b)
  {
  }

  /** The 16-bit little-endian value of two octets. */
  function Le16(t0: bv8, t1: bv8): bv16 {
    (t1 as bv16 << 8) | t0 as bv16
  }

  lemma Le16Xor(t0: bv8, t1: bv8)
    ensures Le16(t0, t1) == Xor16(Wide16(t0), Up16(Wide16(t1)))
  {
  }

  /** A string with two octets appended has CRC zero exactly when they are its CRC, little-endian. */
  lemma Trailer16(p: seq<bv8>, t0: bv8, t1: bv8)
    ensures Serial16(0, p + [t0, t1]) == 0 <==> Serial16(0, p) == Le16(t0, t1)
  {
    var r, t := Serial16(0, p), [t0, t1];
    assert (p + t)[..|p| + 1] == p + [t0] && (p + [t0])[..|p|] == p;
    assert Serial16(0, p + t) == Octet16(Octet16(r, t0), t1);
    var x := Xor16(r, Wide16(t0));
    Absorb16(x, t1);
    Bits16Zero(8, Bits16(8, Xor16(x, Up16(Wide16(t1)))));
    Bits16Zero(8, Xor16(x, Up16(Wide16(t1))));
    Xor16Laws(r, Wide16(t0), Up16(Wide16(t1)));
    Le16Xor(t0, t1);
    Xor16Cancels(r, Le16(t0, t1));
  }

  lemma {:induction false} Bits32Zero(n: nat, r: bv32)
    ensures Bits32(n, r) == 0 <==> r == 0
  {
    if n > 0 {
      Bits32Zero(n - 1, r);
      Bit32Zero(Bits32(n - 1, r));
    }
  }

  lemma Bit32Zero(r: bv32)
    ensures Bit32(r) == 0 <==> r == 0
  {
  }

  lemma Bits32By8(r: bv32)
    requires r & 0xff == 0
    ensures Bits32(8, r) == r >> 8
  {
    var r1, r2, r3, r4 := Bits32(1, r), Bits32(2, r), Bits32(3, r), Bits32(4, r);
    var r5, r6, r7 := Bits32(5, r), Bits32(6, r), Bits32(7, r);
    assert r1 == Bit32(Bits32(0, r)) && r2 == Bit32(r1) && r3 == Bit32(r2) && r4 == Bit32(r3);
    assert r5 == Bit32(r4) && r6 == Bit32(r5) && r7 == Bit32(r6);
  }

  /** A later octet, put into the register eight, sixteen or twenty-four bits earlier. */
  lemma Lift32(w: bv32)
    requires w & 0xff000000 == 0
    ensures Bits32(8, Up32(w)) == w
  {
    Bits32By8(w << 8);
  }

  lemma Lift32Wide(b: bv8)
    ensures Wide32(b) & 0xff000000 == 0
    ensures Up32(Wide32(b)) & 0xff000000 == 0
    ensures Up32(Up32(Wide32(b))) & 0xff000000 == 0
  {
  }

  lemma Absorb32(x: bv32, w: bv32)
    requires w & 0xff000000 == 0
    ensures Xor32(Bits32(8, x), w) == Bits32(8, Xor32(x, Up32(w)))
  {
    Lift32(w);
    Bits32Linear(8, x, Up32(w));
  }

  lemma Absorb32Twice(x: bv32, w: bv32)
    requires w & 0xff000000 == 0 && Up32(w) & 0xff000000 == 0
    ensures Xor32(Bits32(8, Bits32(8, x)), w) == Bits32(8, Bits32(8, Xor32(x, Up32(Up32(w)))))
  {
    Absorb32(Bits32(8, x), w);
    Absorb32(x, Up32(w));
  }

  lemma Absorb32Thrice(x: bv32, b: bv8)
    ensures var w := Wide32(b);
            Xor32(Bits32(8, Bits32(8, Bits32(8, x))), w)
            == Bits32(8, Bits32(8, Bits32(8, Xor32(x, Up32(Up32(Up32(w)))))))
  {
    Lift32Wide(b);
    Absorb32(Bits32(8, Bits32(8, x)), Wide32(b));
    Absorb32Twice(x, Up32(Wide32(b)));
  }

  /** The 32-bit little-endian value of four octets. */
  function Le32(t0: bv8, t1: bv8, t2: bv8, t3: bv8): bv32 {
    (t3 as bv32 << 24) | (t2 as bv32 << 16) | (t1 as bv32 << 8) | t0 as bv32
  }

  lemma Le32Xor(t0: bv8, t1: bv8, t2: bv8, t3: bv8)
    ensures Le32(t0, t1, t2, t3)
         == Xor32(Xor32(Xor32(Wide32(t0), Up32(Wide32(t1))), Up32(Up32(Wide32(t2)))), Up32(Up32(Up32(Wide32(t3)))))
  {
  }

  lemma Xor32Regroup(r: bv32, a: bv32, b: bv32, c: bv32, d: bv32)
    ensures Xor32(Xor32(Xor32(Xor32(r, a), b), c), d) == Xor32(r, Xor32(Xor32(Xor32(a, b), c), d))
  {
    Xor32Laws(r, a, b);
    Xor32Laws(r, Xor32(a, b), c);
    Xor32Laws(r, Xor32(Xor32(a, b), c), d);
  }

  lemma FourOctets32(r: bv32, t0: bv8, t1: bv8, t2: bv8, t3: bv8)
    ensures Octet32(Octet32(Octet32(Octet32(r, t0), t1), t2), t3) == 0 <==> r == Le32(t0, t1, t2, t3)
  {
    var w1, w2, w3 := Up32(Wide32(t1)), Up32(Up32(Wide32(t2))), Up32(Up32(Up32(Wide32(t3))));
    Lift32Wide(t1);
    Lift32Wide(t2);
    var x1 := Xor32(r, Wide32(t0));
    Absorb32(x1, Wide32(t1));
    var x2 := Xor32(x1, w1);
    Absorb32Twice(x2, Wide32(t2));
    var x3 := Xor32(x2, w2);
    Absorb32Thrice(x3, t3);
    var x4 := Xor32(x3, w3);
    Bits32Zero(8, Bits32(8, Bits32(8, Bits32(8, x4))));
    Bits32Zero(8, Bits32(8, Bits32(8, x4)));
    Bits32Zero(8, Bits32(8, x4));
    Bits32Zero(8, x4);
    Xor32Regroup(r, Wide32(t0), w1, w2, w3);
    Le32Xor(t0, t1, t2, t3);
    Xor32Cancels(r, Le32(t0, t1, t2, t3));
  }

  /** A string with four octets appended has CRC zero exactly when they are its CRC, little-endian. */
  lemma Trailer32(p: seq<bv8>, t0: bv8, t1: bv8, t2: bv8, t3: bv8)
    ensures Serial32(0, p + [t0, t1, t2, t3]) == 0 <==> Serial32(0, p) == Le32(t0, t1, t2, t3)
  {
    var q1, q2, q3, q4 := p + [t0], p + [t0, t1], p + [t0, t1, t2], p + [t0, t1, t2, t3];
    assert q1[..|p|] == p && q2[..|p| + 1] == q1 && q3[..|p| + 2] == q2 && q4[..|p| + 3] == q3;
    var r := Serial32(0, p);
    assert Serial32(0, q1) == Octet32(r, t0);
    assert Serial32(0, q2) == Octet32(Octet32(r, t0), t1);
    assert Serial32(0, q3) == Octet32(Octet32(Octet32(r, t0), t1), t2);
    FourOctets32(r, t0, t1, t2, t3);
  }

  // ----- The FCS test -----

  /** How much of a captured frame is kept: the check sequence is cut off a frame whose CRC, taken over
      the whole frame, is zero; the 32-bit CRC is tried first. */
  function Kept(p: seq<bv8>): nat {
    if |p| < 4 then |p|
    else if Serial32(0, p) == 0 then |p| - 4
    else if Serial16(0, p) == 0 then |p| - 2
    else |p|
  }

  function Low32(r: bv32): bv8 { (r & 0xff) as bv8 }
  function Down32(r: bv32): bv32 { r >> 8 }

  /** A 32-bit value as four octets, the least significant first. */
  function Octets32(r: bv32): (t: seq<bv8>)
    ensures |t| == 4 && Le32(t[0], t[1], t[2], t[3]) == r
  {
    Le32OfParts(r);
    [Low32(r), Low32(Down32(r)), Low32(Down32(Down32(r))), Low32(Down32(Down32(Down32(r))))]
  }

  lemma Le32OfParts(r: bv32)
    ensures Le32(Low32(r), Low32(Down32(r)), Low32(Down32(Down32(r))), Low32(Down32(Down32(Down32(r))))) == r
  {
  }

  /** A 16-bit value as two octets, the least significant first. */
  function OctetPair16(r: bv16): (t: seq<bv8>)
    ensures |t| == 2 && Le16(t[0], t[1]) == r
  {
    Le16OfParts(r);
    [Low16(r), Low16(Down16(r))]
  }

  lemma Le16OfParts(r: bv16)
    ensures Le16(Low16(r), Low16(Down16(r))) == r
  {
  }

  lemma LowOfLe32(t0: bv8, t1: bv8, t2: bv8, t3: bv8)
    ensures Low32(Le32(t0, t1, t2, t3)) == t0
  {
  }

  lemma DownOfLe32(t0: bv8, t1: bv8, t2: bv8, t3: bv8)
    ensures Down32(Le32(t0, t1, t2, t3)) == Le32(t1, t2, t3, 0)
  {
  }

  lemma Octets32OfLe32(t0: bv8, t1: bv8, t2: bv8, t3: bv8)
    ensures Octets32(Le32(t0, t1, t2, t3)) == [t0, t1, t2, t3]
  {
    LowOfLe32(t0, t1, t2, t3);
    DownOfLe32(t0, t1, t2, t3);
    LowOfLe32(t1, t2, t3, 0);
    DownOfLe32(t1, t2, t3, 0);
    LowOfLe32(t2, t3, 0, 0);
    DownOfLe32(t2, t3, 0, 0);
    LowOfLe32(t3, 0, 0, 0);
  }

  lemma Octets32Iff(r: bv32, t: seq<bv8>)
    requires |t| == 4
    ensures t == Octets32(r) <==> r == Le32(t[0], t[1], t[2], t[3])
  {
    Octets32OfLe32(t[0], t[1], t[2], t[3]);
    assert t == [t[0], t[1], t[2], t[3]];
  }

  lemma PartsOfLe16(t0: bv8, t1: bv8)
    ensures Low16(Le16(t0, t1)) == t0 && Low16(Down16(Le16(t0, t1))) == t1
  {
  }

  lemma OctetPair16OfLe16(t0: bv8, t1: bv8)
    ensures OctetPair16(Le16(t0, t1)) == [t0, t1]
  {
    PartsOfLe16(t0, t1);
  }

  /** The last four octets are the CRC-32 of what comes before them. */
  predicate EndsInCrc32(p: seq<bv8>) {
    |p| >= 4 && p[|p| - 4..] == Octets32(Serial32(0, p[..|p| - 4]))
  }

  /** The last two octets are the CRC-16 of what comes before them. */
  predicate EndsInCrc16(p: seq<bv8>) {
    |p| >= 2 && p[|p| - 2..] == OctetPair16(Serial16(0, p[..|p| - 2]))
  }

  lemma CheckOctets32(q: seq<bv8>, t: seq<bv8>)
    requires |t| == 4
    ensures t == Octets32(Serial32(0, q)) <==> Serial32(0, q + t) == 0
  {
    Trailer32(q, t[0], t[1], t[2], t[3]);
    Octets32Iff(Serial32(0, q), t);
    assert t == [t[0], t[1], t[2], t[3]];
  }

  lemma EndsInCrc32Iff(p: seq<bv8>)
    requires |p| >= 4
    ensures EndsInCrc32(p) <==> Serial32(0, p) == 0
  {
    var q, t := p[..|p| - 4], p[|p| - 4..];
    assert p == q + t;
    CheckOctets32(q, t);
  }

  lemma OctetPair16Iff(r: bv16, t: seq<bv8>)
    requires |t| == 2
    ensures t == OctetPair16(r) <==> r == Le16(t[0], t[1])
  {
    OctetPair16OfLe16(t[0], t[1]);
    assert t == [t[0], t[1]];
  }

  lemma CheckOctets16(q: seq<bv8>, t: seq<bv8>)
    requires |t| == 2
    ensures t == OctetPair16(Serial16(0, q)) <==> Serial16(0, q + t) == 0
  {
    Trailer16(q, t[0], t[1]);
    OctetPair16Iff(Serial16(0, q), t);
    assert t == [t[0], t[1]];
  }

  lemma EndsInCrc16Iff(p: seq<bv8>)
    requires |p| >= 2
    ensures EndsInCrc16(p) <==> Serial16(0, p) == 0
  {
    var q, t := p[..|p| - 2], p[|p| - 2..];
    assert p == q + t;
    CheckOctets16(q, t);
  }

  /** The test for a frame check sequence, which compares the last octets with the CRC of the rest. What is cut
      off is one of the two check sequences of what stays, and nothing is cut off a frame that ends in neither. */
  method FrameLength(p: seq<bv8>) returns (caplen: nat)
    ensures caplen == Kept(p)
    ensures caplen <= |p|
    ensures caplen < |p| ==> p[caplen..] in {Octets32(Serial32(0, p[..caplen])), OctetPair16(Serial16(0, p[..caplen]))}
    ensures caplen == |p| <==> |p| < 4 || (!EndsInCrc32(p) && !EndsInCrc16(p))
    ensures |p| >= 4 && EndsInCrc32(p) ==> caplen == |p| - 4
  {
    caplen := |p|;
    if caplen < 4 {
      return;
    }
    EndsInCrc32Iff(p);
    EndsInCrc16Iff(p);
    var n := caplen;
    Octets32Iff(Serial32(0, p[..n - 4]), p[n - 4..]);
    OctetPair16Iff(Serial16(0, p[..n - 2]), p[n - 2..]);
    var fcs32 := Le32(p[n - 4], p[n - 3], p[n - 2], p[n - 1]);
    var crc32 := Crc32(p[..n - 4]);
    if crc32 == fcs32 {
      caplen := caplen - 4;
    } else {
      var fcs16 := Le16(p[n - 2], p[n - 1]);
      var crc16 := Crc16(p[..n - 2]);
      if crc16 == fcs16 {
        caplen := caplen - 2;
      }
    }
  }

  /** Every frame sent with its CRC-32 loses exactly its four check octets. */
  lemma SentWithCrc32(frame: seq<bv8>)
    ensures Kept(frame + Octets32(Serial32(0, frame))) == |frame|
  {
    var t := Octets32(Serial32(0, frame));
    Trailer32(frame, t[0], t[1], t[2], t[3]);
    assert t == [t[0], t[1], t[2], t[3]];
  }

  /** A frame sent with its CRC-16 loses exactly its two check octets, unless the whole is too short for
      the test or happens to have CRC-32 zero. */
  lemma SentWithCrc16(frame: seq<bv8>)
    ensures var sent := frame + OctetPair16(Serial16(0, frame));
            Kept(sent) == |frame| <==> |frame| >= 2 && Serial32(0, sent) != 0
  {
    var t := OctetPair16(Serial16(0, frame));
    Trailer16(frame, t[0], t[1]);
    assert t == [t[0], t[1]];
  }

  lemma {:induction false} ZerosPass(p: seq<bv8>)
    requires forall i :: 0 <= i < |p| ==> p[i] == 0
    ensures Serial16(0, p) == 0 && Serial32(0, p) == 0
  {
    if p != [] {
      ZerosPass(p[..|p| - 1]);
      Bits16Zero(8, 0);
      Bits32Zero(8, 0);
      assert Xor16(0, Wide16(0)) == 0 && Xor32(0, Wide32(0)) == 0;
    }
  }

  /** The frames of zeros, of any length from two octets on, are of that kind: with their CRC-16 they lose two
      octets too many. */
  lemma ZeroFrameLosesFour(frame: seq<bv8>)
    requires |frame| >= 2 && forall i :: 0 <= i < |frame| ==> frame[i] == 0
    ensures Kept(frame + OctetPair16(Serial16(0, frame))) == |frame| - 2
  {
    ZerosPass(frame);
    var t := OctetPair16(0);
    assert t == [0, 0];
    ZerosPass(frame + t);
  }
}
