/** Operations on 16-bit and 32-bit registers, named so that proofs can treat them as wholes, and their laws. */
module Registers {

  function Xor16(a: bv16, b: bv16): bv16 { a ^ b }
  function Half16(r: bv16): bv16 { r >> 1 }
  function Double16(r: bv16): bv16 { r << 1 }
  predicate Odd16(r: bv16) { r & 1 == 1 }

  function Xor32(a: bv32, b: bv32): bv32 { a ^ b }
  function Half32(r: bv32): bv32 { r >> 1 }
  function Double32(r: bv32): bv32 { r << 1 }
  predicate Odd32(r: bv32) { r & 1 == 1 }

  /** What is left of a register after n shifts to the right. */
  function Halves16(n: nat, r: bv16): bv16 {
    if n == 0 then r else Halves16(n - 1, Half16(r))
  }

  function Halves32(n: nat, r: bv32): bv32 {
    if n == 0 then r else Halves32(n - 1, Half32(r))
  }

  lemma Half16Linear(a: bv16, b: bv16)
    ensures Half16(Xor16(a, b)) == Xor16(Half16(a), Half16(b))
  {
  }

  lemma Odd16Linear(a: bv16, b: bv16)
    ensures Odd16(Xor16(a, b)) <==> Odd16(a) != Odd16(b)
  {
  }

  lemma Xor16Assoc(a: bv16, b: bv16, c: bv16)
    ensures Xor16(a, Xor16(b, c)) == Xor16(Xor16(a, b), c)
  {
    assert a ^ (b ^ c) == (a ^ b) ^ c;
  }

  lemma Xor16Swap(a: bv16, b: bv16, c: bv16)
    ensures Xor16(Xor16(a, c), b) == Xor16(Xor16(a, b), c)
  {
    Xor16Assoc(a, c, b);
    Xor16Assoc(a, b, c);
    assert b ^ c == c ^ b;
  }

  lemma Xor16Twice(a: bv16, b: bv16, c: bv16)
    ensures Xor16(Xor16(a, c), Xor16(b, c)) == Xor16(a, b)
  {
    assert (a ^ c) ^ (b ^ c) == a ^ b;
  }

  lemma Xor16Laws(a: bv16, b: bv16, c: bv16)
    ensures Xor16(Xor16(a, c), b) == Xor16(Xor16(a, b), c)
    ensures Xor16(a, Xor16(b, c)) == Xor16(Xor16(a, b), c)
    ensures Xor16(Xor16(a, c), Xor16(b, c)) == Xor16(a, b)
  {
    Xor16Swap(a, b, c);
    Xor16Assoc(a, b, c);
    Xor16Twice(a, b, c);
  }

  lemma Xor16Cancels(a: bv16, b: bv16)
    ensures Xor16(a, b) == 0 <==> a == b
  {
    if a ^ b == 0 {
      assert a == (a ^ b) ^ b;
    }
  }

  lemma Half32Linear(a: bv32, b: bv32)
    ensures Half32(Xor32(a, b)) == Xor32(Half32(a), Half32(b))
  {
  }

  lemma Odd32Linear(a: bv32, b: bv32)
    ensures Odd32(Xor32(a, b)) <==> Odd32(a) != Odd32(b)
  {
  }

  lemma Xor32Assoc(a: bv32, b: bv32, c: bv32)
    ensures Xor32(a, Xor32(b, c)) == Xor32(Xor32(a, b), c)
  {
    assert a ^ (b ^ c) == (a ^ b) ^ c;
  }

  lemma Xor32Swap(a: bv32, b: bv32, c: bv32)
    ensures Xor32(Xor32(a, c), b) == Xor32(Xor32(a, b), c)
  {
    Xor32Assoc(a, c, b);
    Xor32Assoc(a, b, c);
    assert b ^ c == c ^ b;
  }

  lemma Xor32Twice(a: bv32, b: bv32, c: bv32)
    ensures Xor32(Xor32(a, c), Xor32(b, c)) == Xor32(a, b)
  {
    assert (a ^ c) ^ (b ^ c) == a ^ b;
  }

  lemma Xor32Laws(a: bv32, b: bv32, c: bv32)
    ensures Xor32(Xor32(a, c), b) == Xor32(Xor32(a, b), c)
    ensures Xor32(a, Xor32(b, c)) == Xor32(Xor32(a, b), c)
    ensures Xor32(Xor32(a, c), Xor32(b, c)) == Xor32(a, b)
  {
    Xor32Swap(a, b, c);
    Xor32Assoc(a, b, c);
    Xor32Twice(a, b, c);
  }

  lemma Xor32Cancels(a: bv32, b: bv32)
    ensures Xor32(a, b) == 0 <==> a == b
  {
    if a ^ b == 0 {
      assert a == (a ^ b) ^ b;
    }
  }

  lemma EightHalves(n: nat, x: bv32)
    requires n >= 8
    ensures Halves32(n, x) == Halves32(n - 8, Down8(x))
  {
    var h1 := Half32(x);
    var h2 := Half32(h1);
    var h3 := Half32(h2);
    var h4 := Half32(h3);
    var h5 := Half32(h4);
    var h6 := Half32(h5);
    var h7 := Half32(h6);
    assert Halves32(n, x) == Halves32(n - 1, h1) == Halves32(n - 2, h2) == Halves32(n - 3, h3) == Halves32(n - 4, h4);
    assert Halves32(n - 4, h4) == Halves32(n - 5, h5) == Halves32(n - 6, h6) == Halves32(n - 7, h7)
           == Halves32(n - 8, Half32(h7));
    assert Half32(h7) == x >> 8;
  }

  function Down8(x: bv32): bv32 { x >> 8 }

  lemma FourOctetsDown(x: bv32)
    ensures Down8(Down8(Down8(Down8(x)))) == 0
  {
  }

  lemma AllHalves(x: bv32)
    ensures Halves32(32, x) == 0
  {
    EightHalves(32, x);
    EightHalves(24, Down8(x));
    EightHalves(16, Down8(Down8(x)));
    EightHalves(8, Down8(Down8(Down8(x))));
    FourOctetsDown(x);
  }
}
