/** The OSI Fletcher checksum generator of tcpdump/checksum.c, against the verification sums of ISO 8473-1. */
module FletcherChecksum {
  import opened Octets

  // ----- The verification sums -----

  /** First Fletcher sum: the sum of the octets. */
  function Plain(q: seq<Octet>): nat {
    if q == [] then 0 else Plain(q[..|q| - 1]) + q[|q| - 1]
  }

  /** Second Fletcher sum: the sum of the first sum over every non-empty prefix. */
  function Running(q: seq<Octet>): nat {
    if q == [] then 0 else Running(q[..|q| - 1]) + Plain(q)
  }

  /** A PDU whose checksum verifies. */
  predicate Verifies(q: seq<Octet>) {
    Plain(q) % 255 == 0 && Running(q) % 255 == 0
  }

  /** Putting a value where there was a zero adds it once to the first sum and, to the second, once for
      every prefix that holds it. */
  lemma {:induction false} PutOctet(q: seq<Octet>, at: nat, v: Octet)
    requires at < |q| && q[at] == 0
    ensures Plain(q[at := v]) == Plain(q) + v
    ensures Running(q[at := v]) == Running(q) + (|q| - at) * v
  {
    var last := |q| - 1;
    if at == last {
      assert q[at := v][..last] == q[..last];
    } else {
      assert q[at := v][..last] == q[..last][at := v];
      PutOctet(q[..last], at, v);
      assert (|q| - at) * v == (last - at) * v + v;
    }
  }

  lemma {:induction false} SumBounds(q: seq<Octet>)
    ensures Plain(q) <= 255 * |q|
    ensures 2 * Running(q) <= 255 * |q| * (|q| + 1)
  {
    if q != [] {
      var n := |q|;
      SumBounds(q[..n - 1]);
      assert 255 * n * (n + 1) == 255 * (n - 1) * n + 2 * (255 * n);
    }
  }

  // ----- The generator -----

  /** The PDU with the two octets of the checksum field, as far as they lie in it, taken as zero. */
  function Blanked(pdu: seq<Octet>, offset: nat): (r: seq<Octet>)
    ensures |r| == |pdu|
    ensures forall i :: 0 <= i < |pdu| ==> r[i] == if i == offset || i == offset + 1 then 0 else pdu[i]
  {
    seq(|pdu|, i requires 0 <= i < |pdu| => if i == offset || i == offset + 1 then 0 else pdu[i])
  }

  /** The remainder operator of C, which truncates toward zero. */
  function CRem(a: int, m: int): int
    requires m > 0
  {
    if a >= 0 then a % m else -(-a % m)
  }

  /** Raw values whose correction steps go wrong: 255 is stored where 1 is due. */
  predicate Miscorrected(raw: int) {
    raw < 0 && raw % 255 == 1
  }

  /** The octet stored for a raw value: its residue modulo 255, zero being written as 255. */
  function Stored(raw: int): (r: Octet)
    ensures r > 0
    ensures r % 255 == raw % 255 <==> !Miscorrected(raw)
    ensures Miscorrected(raw) ==> r == 255
  {
    if raw % 255 == 0 || Miscorrected(raw) then 255 else raw % 255
  }

  lemma CongruentBy(a: int, b: int, k: int)
    requires a == b + 255 * k
    ensures a % 255 == b % 255
  {
  }

  /** A value that is not positive is lowered by one before C's remainder; taken modulo 256 it is then
      the octet. */
  lemma LoweredRemainder(raw: int)
    requires raw <= 0
    ensures var t := CRem(raw - 1, 255); Stored(raw) == if t == 0 then 255 else t % 256
  {
    var q, r := (1 - raw) / 255, (1 - raw) % 255;
    assert CRem(raw - 1, 255) == -r;
    CongruentBy(raw, 1 - r, -q);
  }

  /** The correction steps for x. */
  method CorrectX(raw: int) returns (octet: Octet)
    ensures octet == Stored(raw)
  {
    var x := raw;
    if x < 0 {
      LoweredRemainder(x);
      x := x - 1;
    }
    x := CRem(x, 255);
    if x == 0 {
      x := 255;
    }
    octet := x % 256;
  }

  /** The correction steps for y, which the source starts one too low. */
  method CorrectY(raw: int) returns (octet: Octet)
    ensures octet == Stored(raw)
  {
    var y := raw - 1;
    if y >= 0 {
      y := y + 1;
    } else {
      LoweredRemainder(raw);
    }
    y := CRem(y, 255);
    if y == 0 {
      y := 255;
    }
    octet := y % 256;
  }

  const MAXIMUM_SNAPLEN := 262144

  /** The two sums as the generator holds them: 32-bit accumulators, reduced modulo 255 at the end. */
  function C0(pdu: seq<Octet>, offset: nat): nat { Plain(Blanked(pdu, offset)) % 255 }

  function C1(pdu: seq<Octet>, offset: nat): nat { Running(Blanked(pdu, offset)) % 0x1_0000_0000 % 255 }

  /** The raw values of the two octets, before the correction steps. */
  function RawX(pdu: seq<Octet>, offset: nat): int {
    (|pdu| - offset) * C0(pdu, offset) - C0(pdu, offset) - C1(pdu, offset)
  }

  function RawY(pdu: seq<Octet>, offset: nat): int {
    C1(pdu, offset) - (|pdu| - offset) * C0(pdu, offset)
  }

  lemma WrappedAdd(a: nat, b: nat)
    ensures (a % 0x1_0000_0000 + b) % 0x1_0000_0000 == (a + b) % 0x1_0000_0000
  {
    var q := a / 0x1_0000_0000;
    assert a == 0x1_0000_0000 * q + a % 0x1_0000_0000;
  }

  /** The loop of the generator, which skips the checksum field. */
  method Accumulate(pdu: seq<Octet>, checksumOffset: nat) returns (c0: Word32, c1: Word32)
    requires |pdu| <= MAXIMUM_SNAPLEN
    ensures c0 == Plain(Blanked(pdu, checksumOffset))
    ensures c1 == Running(Blanked(pdu, checksumOffset)) % 0x1_0000_0000
  {
    var idx := 0;
    c0, c1 := 0, 0;
    ghost var blanked := Blanked(pdu, checksumOffset);
    while idx < |pdu|
      invariant idx <= |pdu|
      invariant c0 == Plain(blanked[..idx])
      invariant c1 == Running(blanked[..idx]) % 0x1_0000_0000
    {
      assert blanked[..idx + 1][..idx] == blanked[..idx];
      SumBounds(blanked[..idx + 1]);
      WrappedAdd(Running(blanked[..idx]), Plain(blanked[..idx + 1]));
      if idx == checksumOffset || idx == checksumOffset + 1 {
        c1 := (c1 + c0) % 0x1_0000_0000;
      } else {
        c0 := c0 + pdu[idx];
        c1 := (c1 + c0) % 0x1_0000_0000;
      }
      idx := idx + 1;
    }
    assert blanked[..idx] == blanked;
  }

  /** The generator. No PDU is longer than a capture, so the products fit an int. */
  method CreateOsiCksum(pdu: seq<Octet>, checksumOffset: nat) returns (checksum: Word16)
    requires checksumOffset <= |pdu| <= MAXIMUM_SNAPLEN
    ensures checksum / 256 == Stored(RawX(pdu, checksumOffset))
    ensures checksum % 256 == Stored(RawY(pdu, checksumOffset))
  {
    var c0, c1 := Accumulate(pdu, checksumOffset);
    c0 := c0 % 255;
    c1 := c1 % 255;
    var mul := (|pdu| - checksumOffset) * c0;
    var x := CorrectX(mul - c0 - c1);
    var y := CorrectY(c1 - mul);
    checksum := Load16(BigEndian, x, y);
  }

  // ----- What the two octets are good for -----

  /** The PDU with the generated checksum in its field. */
  function WithChecksum(pdu: seq<Octet>, offset: nat): (r: seq<Octet>)
    requires offset + 2 <= |pdu|
    ensures |r| == |pdu|
  {
    pdu[offset := Stored(RawX(pdu, offset))][offset + 1 := Stored(RawY(pdu, offset))]
  }

  /** How often the second accumulator wrapped round its 32 bits. */
  function Wraps(pdu: seq<Octet>, offset: nat): nat { Running(Blanked(pdu, offset)) / 0x1_0000_0000 }

  /** The sums of the PDU once the checksum is stored. */
  lemma StoredSums(pdu: seq<Octet>, offset: nat)
    requires offset + 2 <= |pdu|
    ensures var l, x, y := |pdu| - offset, Stored(RawX(pdu, offset)), Stored(RawY(pdu, offset));
            && Plain(WithChecksum(pdu, offset)) == Plain(Blanked(pdu, offset)) + x + y
            && Running(WithChecksum(pdu, offset)) == Running(Blanked(pdu, offset)) + l * x + (l - 1) * y
  {
    var blanked, x, y := Blanked(pdu, offset), Stored(RawX(pdu, offset)), Stored(RawY(pdu, offset));
    assert blanked[offset := x][offset + 1 := y] == WithChecksum(pdu, offset);
    PutOctet(blanked, offset, x);
    PutOctet(blanked[offset := x], offset + 1, y);
  }

  /** The second sum modulo 255, from its 32-bit accumulator: 2^32 is 1 modulo 255. */
  lemma RunningResidue(pdu: seq<Octet>, offset: nat) returns (k: int)
    ensures Running(Blanked(pdu, offset)) == C1(pdu, offset) + Wraps(pdu, offset) + 255 * k
  {
    var low := Running(Blanked(pdu, offset)) % 0x1_0000_0000;
    k := low / 255 + 16843009 * Wraps(pdu, offset);
  }

  function One(b: bool): int { if b then 1 else 0 }

  /** What the stored octets leave of the two sums: a miscorrected octet is one too low, and every
      wrap-around of the second accumulator lost one. */
  lemma SumsLeft(pdu: seq<Octet>, offset: nat)
    requires offset + 2 <= |pdu|
    ensures var l := |pdu| - offset;
            var badX, badY := One(Miscorrected(RawX(pdu, offset))), One(Miscorrected(RawY(pdu, offset)));
            && Plain(WithChecksum(pdu, offset)) % 255 == (-badX - badY) % 255
            && Running(WithChecksum(pdu, offset)) % 255 == (Wraps(pdu, offset) - l * badX - (l - 1) * badY) % 255
  {
    StoredSums(pdu, offset);
    var l, c0, c1 := |pdu| - offset, C0(pdu, offset), C1(pdu, offset);
    var rawX, rawY := RawX(pdu, offset), RawY(pdu, offset);
    var badX, badY := One(Miscorrected(rawX)), One(Miscorrected(rawY));
    var kx := StoredQuotient(rawX);
    var ky := StoredQuotient(rawY);
    var k1 := RunningResidue(pdu, offset);
    CongruentBy(Plain(WithChecksum(pdu, offset)), -badX - badY, kx + ky + Plain(Blanked(pdu, offset)) / 255);
    FieldTerms(l, c0, c1, badX, badY, kx, ky);
    CongruentBy(Running(WithChecksum(pdu, offset)), Wraps(pdu, offset) - l * badX - (l - 1) * badY,
                l * kx + (l - 1) * ky + k1);
  }

  lemma FieldTerms(l: int, c0: int, c1: int, badX: int, badY: int, kx: int, ky: int)
    ensures l * (l * c0 - c0 - c1 - badX + 255 * kx) + (l - 1) * (c1 - l * c0 - badY + 255 * ky)
         == -c1 - l * badX - (l - 1) * badY + 255 * (l * kx + (l - 1) * ky)
  {
  }

  lemma StoredQuotient(raw: int) returns (k: int)
    ensures Stored(raw) == raw - One(Miscorrected(raw)) + 255 * k
  {
    k := -(raw / 255) + if raw % 255 == 0 || Miscorrected(raw) then 1 else 0;
  }

  /** Storing the checksum makes the PDU verify, exactly when no raw value is miscorrected and the
      second accumulator wrapped a multiple of 255 times. */
  lemma StoredChecksumVerifies(pdu: seq<Octet>, offset: nat)
    requires offset + 2 <= |pdu|
    ensures Verifies(WithChecksum(pdu, offset))
       <==> !Miscorrected(RawX(pdu, offset)) && !Miscorrected(RawY(pdu, offset)) && Wraps(pdu, offset) % 255 == 0
  {
    SumsLeft(pdu, offset);
  }

  lemma ProductGrows(a: nat, b: nat, c: nat)
    requires a <= b
    ensures a * c <= b * c
  {
    assert b * c == a * c + (b - a) * c;
  }

  lemma Reassociate(a: nat, b: nat, c: nat)
    ensures a * b * c == a * (b * c)
  {
  }

  lemma ShortProduct(n: nat)
    requires n <= 5803
    ensures 255 * n * (n + 1) < 2 * 0x1_0000_0000
  {
    var m := n * (n + 1);
    assert m <= 5803 * 5804 by {
      ProductGrows(n, 5803, n + 1);
    }
    Reassociate(255, n, n + 1);
  }

  /** Up to 5803 octets the second accumulator cannot wrap. */
  lemma ShortPduDoesNotWrap(pdu: seq<Octet>, offset: nat)
    requires |pdu| <= 5803
    ensures Wraps(pdu, offset) == 0
  {
    SumBounds(Blanked(pdu, offset));
    ShortProduct(|pdu|);
  }

  /** The result does not depend on what the field held. */
  lemma FieldIsIgnored(pdu: seq<Octet>, other: seq<Octet>, offset: nat)
    requires |pdu| == |other|
    requires forall i :: 0 <= i < |pdu| && i != offset && i != offset + 1 ==> pdu[i] == other[i]
    ensures RawX(pdu, offset) == RawX(other, offset) && RawY(pdu, offset) == RawY(other, offset)
  {
    assert Blanked(pdu, offset) == Blanked(other, offset);
  }

  /** The miscorrection happens: a PDU of three octets whose stored checksum does not verify. */
  lemma MiscorrectionExample()
    ensures Miscorrected(RawY([0, 0, 127], 0)) && !Verifies(WithChecksum([0, 0, 127], 0))
  {
    var pdu := [0, 0, 127];
    assert Blanked(pdu, 0) == pdu && pdu[..2] == [0, 0] && [0, 0][..1] == [0];
    assert Plain(pdu) == 127 && Running(pdu) == 127;
    StoredChecksumVerifies(pdu, 0);
  }
}
