/** The walk of tcpdump/print-802_11.c over the presence bits and fields of a radiotap header. */
module Radiotap {
  import opened Octets
  import opened Options
  import opened Cpack
  import opened LittleWords
  import opened Registers
  import opened Sequences

  // ----- Set bits -----

  /** The numbers of the set bits of x, bit 0 of x having number k, in ascending order. */
  function SetBits(x: bv32, k: nat): seq<nat>
    requires k <= 32
    decreases 32 - k, x
  {
    if k == 32 then [] else (if Odd32(x) then [k] else []) + SetBits(Half32(x), k + 1)
  }

  /** x with its least significant set bit cleared, and that bit alone. */
  function ClearLow(x: bv32): bv32 { x & (x - 1) }
  function LowBit(x: bv32): bv32 { x ^ ClearLow(x) }

  /** A word with only bit j set. */
  function Mask(j: nat): bv32 {
    if j == 0 then 1 else Double32(Mask(j - 1))
  }

  lemma ClearLowOdd(x: bv32)
    requires Odd32(x)
    ensures Half32(ClearLow(x)) == Half32(x) && !Odd32(ClearLow(x)) && LowBit(x) == 1
  {
  }

  lemma ClearLowEven(x: bv32)
    requires !Odd32(x) && x != 0
    ensures Half32(ClearLow(x)) == ClearLow(Half32(x)) && !Odd32(ClearLow(x))
    ensures LowBit(x) == Double32(LowBit(Half32(x))) && Half32(x) != 0
  {
  }

  lemma SetBitsStep(x: bv32, k: nat)
    requires k < 32
    ensures SetBits(x, k) == if Odd32(x) then [k] + SetBits(Half32(x), k + 1) else SetBits(Half32(x), k + 1)
  {
  }

  /** y is x without its lowest set bit, which is one of the n lowest bits, and m is that bit. */
  predicate Lowest(n: nat, x: bv32, y: bv32, m: bv32) {
    && n > 0 && !Odd32(y)
    && if Odd32(x) then Half32(y) == Half32(x) && m == 1
       else m == Double32(Half32(m)) && Lowest(n - 1, Half32(x), Half32(y), Half32(m))
  }

  lemma LowBitHalves(x: bv32)
    requires !Odd32(x) && x != 0
    ensures Half32(LowBit(x)) == LowBit(Half32(x)) && LowBit(x) == Double32(Half32(LowBit(x)))
  {
  }

  lemma {:induction false} ClearLowIsLowest(n: nat, x: bv32)
    requires x != 0 && Halves32(n, x) == 0
    ensures Lowest(n, x, ClearLow(x), LowBit(x))
    decreases n
  {
    if Odd32(x) {
      ClearLowOdd(x);
    } else {
      ClearLowEven(x);
      LowBitHalves(x);
      ClearLowIsLowest(n - 1, Half32(x));
    }
  }

  /** The lowest set bit is the first set bit. */
  lemma {:induction false} LowestIsFirst(x: bv32, y: bv32, m: bv32, k: nat)
    requires k <= 32 && Lowest(32 - k, x, y, m)
    ensures SetBits(x, k) != [] && k <= SetBits(x, k)[0]
    ensures SetBits(y, k) == SetBits(x, k)[1..] && m == Mask(SetBits(x, k)[0] - k)
    decreases 32 - k
  {
    SetBitsStep(x, k);
    SetBitsStep(y, k);
    if !Odd32(x) {
      LowestIsFirst(Half32(x), Half32(y), Half32(m), k + 1);
    }
  }

  /** Clearing the least significant set bit drops the first set bit, which is the isolated one. */
  lemma ClearLowDropsFirst(x: bv32)
    requires x != 0 && Halves32(32, x) == 0
    ensures SetBits(x, 0) != [] && SetBits(ClearLow(x), 0) == SetBits(x, 0)[1..] && LowBit(x) == Mask(SetBits(x, 0)[0])
  {
    ClearLowIsLowest(32, x);
    LowestIsFirst(x, ClearLow(x), LowBit(x), 0);
  }

  // The BITNO macros.
  function BitNo2(x: bv32): nat { if x & 2 != 0 then 1 else 0 }
  function BitNo4(x: bv32): nat { if x >> 2 != 0 then 2 + BitNo2(x >> 2) else BitNo2(x) }
  function BitNo8(x: bv32): nat { if x >> 4 != 0 then 4 + BitNo4(x >> 4) else BitNo4(x) }
  function BitNo16(x: bv32): nat { if x >> 8 != 0 then 8 + BitNo8(x >> 8) else BitNo8(x) }
  function BitNo32(x: bv32): nat { if x >> 16 != 0 then 16 + BitNo16(x >> 16) else BitNo16(x) }

  lemma BitNoFirst(j: nat)
    requires 0 <= j < 8
    ensures BitNo32(Mask(j)) == j && Mask(7) == 0x80
  {
    assert Mask(0) == 0x1 && Mask(1) == 0x2 && Mask(2) == 0x4 && Mask(3) == 0x8;
    assert Mask(4) == 0x10 && Mask(5) == 0x20 && Mask(6) == 0x40 && Mask(7) == 0x80;
  }

  lemma BitNoSecond(j: nat)
    requires 8 <= j < 16
    ensures BitNo32(Mask(j)) == j && Mask(15) == 0x8000
  {
    BitNoFirst(7);
    assert Mask(8) == 0x100 && Mask(9) == 0x200 && Mask(10) == 0x400 && Mask(11) == 0x800;
    assert Mask(12) == 0x1000 && Mask(13) == 0x2000 && Mask(14) == 0x4000 && Mask(15) == 0x8000;
  }

  lemma BitNoThird(j: nat)
    requires 16 <= j < 24
    ensures BitNo32(Mask(j)) == j && Mask(23) == 0x800000
  {
    BitNoSecond(15);
    assert Mask(16) == 0x10000 && Mask(17) == 0x20000 && Mask(18) == 0x40000 && Mask(19) == 0x80000;
    assert Mask(20) == 0x100000 && Mask(21) == 0x200000 && Mask(22) == 0x400000 && Mask(23) == 0x800000;
  }

  lemma BitNoFourth(j: nat)
    requires 24 <= j < 32
    ensures BitNo32(Mask(j)) == j && Mask(31) == 0x80000000
  {
    BitNoThird(23);
    assert Mask(24) == 0x1000000 && Mask(25) == 0x2000000 && Mask(26) == 0x4000000 && Mask(27) == 0x8000000;
    assert Mask(28) == 0x10000000 && Mask(29) == 0x20000000 && Mask(30) == 0x40000000 && Mask(31) == 0x80000000;
  }

  /** The macros find the number of a single bit. */
  lemma BitNoOfMask(j: nat)
    requires j < 32
    ensures BitNo32(Mask(j)) == j
  {
    if j < 8 {
      BitNoFirst(j);
    } else if j < 16 {
      BitNoSecond(j);
    } else if j < 24 {
      BitNoThird(j);
    } else {
      BitNoFourth(j);
    }
  }

  lemma {:induction false} SetBitsOrder(x: bv32, k: nat)
    requires k <= 32
    ensures forall i :: 0 <= i < |SetBits(x, k)| ==> k <= SetBits(x, k)[i] < 32
    ensures forall i, j :: 0 <= i < j < |SetBits(x, k)| ==> SetBits(x, k)[i] < SetBits(x, k)[j]
    decreases 32 - k
  {
    if k < 32 {
      SetBitsOrder(Half32(x), k + 1);
    }
  }

  lemma {:induction false} SetBitsHas(x: bv32, k: nat, j: nat)
    requires k <= j < 32
    ensures j in SetBits(x, k) <==> WordBit(x, j - k)
    decreases 32 - k
  {
    SetBitsStep(x, k);
    if k < j {
      SetBitsHas(Half32(x), k + 1, j);
    } else {
      SetBitsOrder(Half32(x), k + 1);
    }
  }

  /** The set bits are in ascending order, and are those that are set. */
  lemma SetBitsAscend(x: bv32, k: nat)
    requires k <= 32
    ensures forall i :: 0 <= i < |SetBits(x, k)| ==> k <= SetBits(x, k)[i] < 32
    ensures forall i, j :: 0 <= i < j < |SetBits(x, k)| ==> SetBits(x, k)[i] < SetBits(x, k)[j]
    ensures forall j :: k <= j < 32 ==> (j in SetBits(x, k) <==> WordBit(x, j - k))
  {
    SetBitsOrder(x, k);
    forall j | k <= j < 32
      ensures j in SetBits(x, k) <==> WordBit(x, j - k)
    {
      SetBitsHas(x, k, j);
    }
  }

  lemma {:induction false} SetBitsOfZero(k: nat)
    requires k <= 32
    ensures SetBits(0, k) == []
    decreases 32 - k
  {
    if k < 32 {
      SetBitsOfZero(k + 1);
      assert Half32(0) == 0;
    }
  }

  lemma NoBits(present: bv32)
    requires present == 0
    ensures SetBits(present, 0) == []
  {
    SetBitsOfZero(0);
  }

  /** One pass of the loop: the next word has one set bit fewer, and the macro gives the number of the
      bit that is gone, the lowest. */
  lemma NextBit(present: bv32)
    requires present != 0
    ensures var bits := SetBits(present, 0);
            bits != [] && BitNo32(LowBit(present)) == bits[0] && SetBits(ClearLow(present), 0) == bits[1..]
  {
    AllHalves(present);
    ClearLowDropsFirst(present);
    SetBitsAscend(present, 0);
    BitNoOfMask(SetBits(present, 0)[0]);
  }

  // ----- Fields -----

  /** For each field, the widths of the numbers it consists of, in order; none if its size is unknown. */
  const FIELDS: seq<seq<nat>> :=
    [ [8]                             // TSFT
    , [1]                             // flags
    , [1]                             // rate
    , [2, 2]                          // channel
    , [1, 1]                          // FHSS
    , [1]                             // antenna signal, dBm
    , [1]                             // antenna noise, dBm
    , [2]                             // lock quality
    , [2]                             // TX attenuation
    , [1]                             // TX attenuation, dB
    , [1]                             // TX power, dBm
    , [1]                             // antenna
    , [1]                             // antenna signal, dB
    , [1]                             // antenna noise, dB
    , [2]                             // RX flags
    , [], [], []                      // unassigned
    , [4, 2, 1, 1]                    // XChannel
    , [1, 1, 1]                       // MCS
    , [4, 2, 1, 1]                    // A-MPDU status
    , [2, 1, 1, 1, 1, 1, 1, 1, 1, 2]  // VHT
    ]

  function FieldWidths(bit: nat): (r: Option<seq<nat>>)
    ensures r.Some? ==> Positive(r.value)
  {
    if bit < |FIELDS| && FIELDS[bit] != [] then Some(FIELDS[bit]) else None
  }

  predicate Positive(ws: seq<nat>) { forall i :: 0 <= i < |ws| ==> ws[i] > 0 }

  /** The reads of numbers of given widths: each at its own alignment after the one before, as long as
      they fit before the end of the header. */
  function Fitting(len: nat, next: nat, ws: seq<nat>): (r: seq<Read>)
    requires Positive(ws)
    ensures |r| <= |ws|
    decreases ws
  {
    if ws == [] then []
    else
      var o := NextBoundary(next, ws[0]);
      if o + ws[0] > len then [] else [Read(o, ws[0])] + Fitting(len, o + ws[0], ws[1..])
  }

  /** Where the cursor is after some reads. */
  function EndOf(next: nat, rs: seq<Read>): nat {
    if rs == [] then next else rs[|rs| - 1].offset + rs[|rs| - 1].width
  }

  lemma EndOfConcat(next: nat, a: seq<Read>, b: seq<Read>)
    ensures EndOf(next, a + b) == EndOf(EndOf(next, a), b)
  {
    if b == [] {
      assert a + b == a;
    }
  }

  lemma FittingStep(len: nat, next: nat, ws: seq<nat>)
    requires Positive(ws) && ws != []
    ensures var o := NextBoundary(next, ws[0]);
            Fitting(len, next, ws)
            == if o + ws[0] > len then [] else [Read(o, ws[0])] + Fitting(len, o + ws[0], ws[1..])
  {
  }

  /** Reading two lists of numbers one after the other is reading their concatenation. */
  lemma {:induction false} FittingConcat(len: nat, next: nat, a: seq<nat>, b: seq<nat>)
    requires Positive(a) && Positive(b)
    ensures Positive(a + b)
    ensures var r := Fitting(len, next, a);
            Fitting(len, next, a + b) == if |r| < |a| then r else r + Fitting(len, EndOf(next, r), b)
    decreases a
  {
    if a == [] {
      assert a + b == b && Fitting(len, next, a) == [];
      assert [] + Fitting(len, next, b) == Fitting(len, next, b);
    } else {
      var o := NextBoundary(next, a[0]);
      FittingStep(len, next, a);
      assert (a + b)[1..] == a[1..] + b && Positive(a + b);
      FittingStep(len, next, a + b);
      if o + a[0] <= len {
        var e := o + a[0];
        FittingConcat(len, e, a[1..], b);
        var first, rest := [Read(o, a[0])], Fitting(len, e, a[1..]);
        EndOfConcat(next, first, rest);
        Regroup(first, rest, Fitting(len, EndOf(e, rest), b));
      }
    }
  }

  /** One more number is read, or the reading stops here. */
  lemma FittingSnoc(len: nat, next: nat, ws: seq<nat>, i: nat)
    requires Positive(ws) && i < |ws| && |Fitting(len, next, ws[..i])| == i
    ensures var r := Fitting(len, next, ws[..i]);
            var o := NextBoundary(EndOf(next, r), ws[i]);
            if o + ws[i] <= len then Fitting(len, next, ws[..i + 1]) == r + [Read(o, ws[i])]
            else Fitting(len, next, ws) == r
  {
    var r := Fitting(len, next, ws[..i]);
    var e := EndOf(next, r);
    var o := NextBoundary(e, ws[i]);
    if o + ws[i] <= len {
      assert ws[..i + 1] == ws[..i] + [ws[i]];
      FittingConcat(len, next, ws[..i], [ws[i]]);
      FittingStep(len, e, [ws[i]]);
      assert [ws[i]][1..] == [];
    } else {
      assert ws == ws[..i] + ws[i..];
      FittingConcat(len, next, ws[..i], ws[i..]);
      FittingStep(len, e, ws[i..]);
      assert r + [] == r;
    }
  }

  /** Reads in order, aligned, without overlap, between two positions. */
  predicate Orderly(from: nat, to: nat, rs: seq<Read>)
    decreases rs
  {
    if rs == [] then from <= to
    else
      && rs[0].width > 0 && from <= rs[0].offset && rs[0].offset % rs[0].width == 0
      && Orderly(rs[0].offset + rs[0].width, to, rs[1..])
  }

  lemma {:induction false} FittingIsOrderly(len: nat, next: nat, ws: seq<nat>)
    requires Positive(ws) && next <= len
    ensures var r := Fitting(len, next, ws); EndOf(next, r) <= len && Orderly(next, EndOf(next, r), r)
    decreases ws
  {
    if ws != [] {
      var o := NextBoundary(next, ws[0]);
      FittingStep(len, next, ws);
      if o + ws[0] <= len {
        BoundaryIsAligned(next, ws[0]);
        var e, rest := o + ws[0], Fitting(len, o + ws[0], ws[1..]);
        FittingIsOrderly(len, e, ws[1..]);
        EndOfConcat(next, [Read(o, ws[0])], rest);
        OrderlyCons(next, EndOf(e, rest), Read(o, ws[0]), rest);
      }
    }
  }

  lemma OrderlyCons(from: nat, to: nat, rd: Read, rs: seq<Read>)
    requires rd.width > 0 && from <= rd.offset && rd.offset % rd.width == 0 && Orderly(rd.offset + rd.width, to, rs)
    ensures Orderly(from, to, [rd] + rs)
  {
    assert ([rd] + rs)[1..] == rs;
  }

  lemma {:induction false} OrderlyConcat(from: nat, mid: nat, to: nat, a: seq<Read>, b: seq<Read>)
    requires Orderly(from, mid, a) && Orderly(mid, to, b)
    ensures Orderly(from, to, a + b)
    decreases a
  {
    if a == [] {
      assert a + b == b;
      if b != [] {
        assert from <= b[0].offset;
      }
    } else {
      assert (a + b)[1..] == a[1..] + b;
      OrderlyConcat(a[0].offset + a[0].width, mid, to, a[1..], b);
    }
  }

  /** The number a read gives. */
  function ValueOf(buf: seq<Octet>, rd: Read): nat {
    if rd.offset + rd.width <= |buf| then LittleNumber(buf[rd.offset..rd.offset + rd.width]) else 0
  }

  /** One unpacking of several, after i that went well. */
  method ReadNumber(s: CpackState, ws: seq<nat>, i: nat, ghost next: nat, ghost trace0: seq<Read>, ghost r0: seq<Read>)
    returns (ok: bool, value: nat, ghost r: seq<Read>)
    requires s.Valid() && Positive(ws) && i < |ws| && |r0| == i
    requires r0 == Fitting(s.cLen, next, ws[..i]) && s.trace == trace0 + r0 && s.cNext == EndOf(next, r0)
    modifies s
    ensures s.Valid() && s.trace == trace0 + r && s.cNext == EndOf(next, r)
    ensures ok ==> r == Fitting(s.cLen, next, ws[..i + 1]) && |r| == i + 1 && r[..i] == r0
    ensures ok ==> value == ValueOf(s.buf, r[i])
    ensures !ok ==> r == r0 == Fitting(s.cLen, next, ws)
  {
    FittingSnoc(s.cLen, next, ws, i);
    ok, value := s.Unpack(ws[i]);
    r := if ok then r0 + [Read(s.cNext - ws[i], ws[i])] else r0;
  }

  /** Consecutive unpackings, up to the first one that fails. */
  method ReadNumbers(s: CpackState, ws: seq<nat>) returns (ok: bool, values: seq<nat>, ghost r: seq<Read>)
    requires s.Valid() && Positive(ws)
    modifies s
    ensures s.Valid() && s.trace == old(s.trace) + r && s.cNext == EndOf(old(s.cNext), r)
    ensures r == Fitting(s.cLen, old(s.cNext), ws) && (ok <==> |r| == |ws|)
    ensures |values| == |r| && forall i :: 0 <= i < |r| ==> values[i] == ValueOf(s.buf, r[i])
  {
    var i := 0;
    ok, values, r := true, [], [];
    ghost var next := s.cNext;
    while i < |ws|
      invariant i <= |ws| && s.Valid() && ok
      invariant r == Fitting(s.cLen, next, ws[..i]) && |r| == i
      invariant s.trace == old(s.trace) + r && s.cNext == EndOf(next, r)
      invariant |values| == |r| && forall i :: 0 <= i < |r| ==> values[i] == ValueOf(s.buf, r[i])
    {
      ghost var r0 := r;
      var value;
      ok, value, r := ReadNumber(s, ws, i, next, old(s.trace), r);
      if !ok {
        return;
      }
      values := values + [value];
      i := i + 1;
      assert forall k :: 0 <= k < |r0| ==> r[k] == r0[k];
    }
    assert ws[..i] == ws;
  }

  /** The reads of one field; fails on the first number that does not fit, and on an unknown field. */
  method PrintRadiotapField(s: CpackState, bit: nat) returns (rc: int, ghost r: seq<Read>)
    requires s.Valid()
    modifies s
    ensures s.Valid() && s.trace == old(s.trace) + r && s.cNext == EndOf(old(s.cNext), r)
    ensures match FieldWidths(bit)
            case None => rc == -1 && r == []
            case Some(ws) => r == Fitting(s.cLen, old(s.cNext), ws) && (rc == 0 <==> |r| == |ws|)
  {
    var widths := FieldWidths(bit);
    if widths == None {
      return -1, [];
    }
    var ok, values;
    ok, values, r := ReadNumbers(s, widths.value);
    rc := if ok then 0 else -1;
  }

  // ----- One presence word -----

  const NAMESPACE := 29

  /** The numbers to read for the set bits of a presence word, up to the first field of unknown size. */
  datatype Plan = Plan(widths: seq<nat>, known: bool)

  function PlanOf(bits: seq<nat>, bit0: nat): (r: Plan)
    ensures Positive(r.widths)
    decreases bits
  {
    if bits == [] || bits[0] >= NAMESPACE then Plan([], true)
    else
      match FieldWidths(bit0 + bits[0])
      case None => Plan([], false)
      case Some(ws) => var rest := PlanOf(bits[1..], bit0); Plan(ws + rest.widths, rest.known)
  }

  /** A field that does not fit ends the reading of the plan. */
  lemma PlanStopsIn(len: nat, next: nat, done: seq<nat>, ws: seq<nat>, rest: seq<nat>)
    requires Positive(done) && Positive(ws) && Positive(rest) && |Fitting(len, next, done)| == |done|
    ensures Positive(done + (ws + rest)) && Positive(done + ws)
    ensures var r := Fitting(len, next, done);
            var f := Fitting(len, EndOf(next, r), ws);
            && Fitting(len, next, done + ws) == r + f
            && (|f| < |ws| ==> Fitting(len, next, done + (ws + rest)) == r + f)
  {
    var r := Fitting(len, next, done);
    FittingConcat(len, next, done, ws);
    FittingConcat(len, EndOf(next, r), ws, rest);
    FittingConcat(len, next, done, ws + rest);
  }

  /** The start of the loop body: take the least significant set bit off the word. */
  method TakeBit(present: bv32) returns (nextPresent: bv32, bitno: nat)
    requires present != 0
    ensures SetBits(present, 0) != [] && bitno == SetBits(present, 0)[0]
            && SetBits(nextPresent, 0) == SetBits(present, 0)[1..]
  {
    NextBit(present);
    nextPresent := ClearLow(present);
    bitno := BitNo32(LowBit(present));
  }

  /** Where the loop is: the numbers `done` have been read as r, and `bits` are still to be visited. */
  ghost predicate Progress(len: nat, next: nat, plan: Plan, done: seq<nat>, r: seq<Read>, bits: seq<nat>, bit0: nat) {
    && Positive(done) && r == Fitting(len, next, done) && |r| == |done|
    && plan == Plan(done + PlanOf(bits, bit0).widths, PlanOf(bits, bit0).known)
  }

  /** What the loop has to bring about. */
  ghost predicate Performed(len: nat, next: nat, plan: Plan, r: seq<Read>, ok: bool) {
    Positive(plan.widths) && r == Fitting(len, next, plan.widths) && (ok <==> plan.known && |r| == |plan.widths|)
  }

  lemma ProgressStarts(len: nat, next: nat, bits: seq<nat>, bit0: nat)
    ensures Progress(len, next, PlanOf(bits, bit0), [], [], bits, bit0)
  {
    assert [] + PlanOf(bits, bit0).widths == PlanOf(bits, bit0).widths;
  }

  lemma ProgressEnds(len: nat, next: nat, plan: Plan, done: seq<nat>, r: seq<Read>, bits: seq<nat>, bit0: nat)
    requires Progress(len, next, plan, done, r, bits, bit0)
    requires bits == [] || bits[0] >= NAMESPACE || FieldWidths(bit0 + bits[0]) == None
    ensures Performed(len, next, plan, r, bits == [] || bits[0] >= NAMESPACE)
  {
    assert done + [] == done;
  }

  lemma ProgressStep(len: nat, next: nat, plan: Plan, done: seq<nat>, r: seq<Read>, bits: seq<nat>, bit0: nat,
                     ws: seq<nat>)
    requires Progress(len, next, plan, done, r, bits, bit0)
    requires bits != [] && bits[0] < NAMESPACE && FieldWidths(bit0 + bits[0]) == Some(ws)
    ensures var f := Fitting(len, EndOf(next, r), ws);
            if |f| == |ws| then Progress(len, next, plan, done + ws, r + f, bits[1..], bit0)
            else Performed(len, next, plan, r + f, false)
  {
    var rest := PlanOf(bits[1..], bit0);
    assert plan == Plan(done + (ws + rest.widths), rest.known);
    PlanStopsIn(len, next, done, ws, rest.widths);
    Regroup(done, ws, rest.widths);
  }

  /** One pass of the loop over a presence word, for a bit that names a field. */
  method VisitField(s: CpackState, bitno: nat, bit0: nat, ghost trace0: seq<Read>, ghost next: nat, ghost plan: Plan,
                    ghost done0: seq<nat>, ghost r0: seq<Read>, ghost bits: seq<nat>)
    returns (rc: int, ghost done: seq<nat>, ghost r: seq<Read>)
    requires s.Valid() && s.trace == trace0 + r0 && s.cNext == EndOf(next, r0)
    requires Progress(s.cLen, next, plan, done0, r0, bits, bit0)
    requires bits != [] && bitno == bits[0] < NAMESPACE
    modifies s
    ensures s.Valid() && s.trace == trace0 + r && s.cNext == EndOf(next, r)
    ensures if rc == 0 then Progress(s.cLen, next, plan, done, r, bits[1..], bit0)
            else Performed(s.cLen, next, plan, r, false)
  {
    ghost var f;
    rc, f := PrintRadiotapField(s, bit0 + bitno);
    EndOfConcat(next, r0, f);
    Regroup(trace0, r0, f);
    done, r := done0, r0 + f;
    ghost var widths := FieldWidths(bit0 + bitno);
    if widths.Some? {
      ProgressStep(s.cLen, next, plan, done0, r0, bits, bit0, widths.value);
      done := done0 + widths.value;
    } else {
      ProgressEnds(s.cLen, next, plan, done0, r0, bits, bit0);
      assert r == r0;
    }
  }

  /** The loop over a presence word, from a place in it on. */
  method VisitBits(s: CpackState, present0: bv32, bit0: nat, ghost trace0: seq<Read>, ghost next: nat, ghost plan: Plan,
                   ghost done0: seq<nat>, ghost r0: seq<Read>)
    returns (rc: int, ghost r: seq<Read>)
    requires s.Valid() && s.trace == trace0 + r0 && s.cNext == EndOf(next, r0)
    requires Progress(s.cLen, next, plan, done0, r0, SetBits(present0, 0), bit0)
    modifies s
    ensures s.Valid() && s.trace == trace0 + r && s.cNext == EndOf(next, r)
    ensures Performed(s.cLen, next, plan, r, rc == 0)
  {
    var present := present0;
    ghost var done, bits := done0, SetBits(present0, 0);
    rc, r := 0, r0;
    while present != 0
      invariant s.Valid() && bits == SetBits(present, 0) && rc == 0
      invariant Progress(s.cLen, next, plan, done, r, bits, bit0)
      invariant s.trace == trace0 + r && s.cNext == EndOf(next, r)
      decreases |bits|
    {
      var nextPresent, bitno := TakeBit(present);
      if bitno >= NAMESPACE {
        ProgressEnds(s.cLen, next, plan, done, r, bits, bit0);
        return;
      }
      rc, done, r := VisitField(s, bitno, bit0, trace0, next, plan, done, r, bits);
      if rc != 0 {
        return;
      }
      present, bits := nextPresent, bits[1..];
    }
    NoBits(present);
    ProgressEnds(s.cLen, next, plan, done, r, bits, bit0);
  }

  /** The set bits below 29 of a presence word, in ascending order, and the reads of their fields. */
  method PrintInRadiotapNamespace(s: CpackState, presentflags: bv32, bit0: nat) returns (rc: int, ghost r: seq<Read>)
    requires s.Valid()
    modifies s
    ensures s.Valid() && s.trace == old(s.trace) + r && s.cNext == EndOf(old(s.cNext), r)
    ensures Performed(s.cLen, old(s.cNext), PlanOf(SetBits(presentflags, 0), bit0), r, rc == 0)
  {
    ghost var bits := SetBits(presentflags, 0);
    ProgressStarts(s.cLen, s.cNext, bits, bit0);
    rc, r := VisitBits(s, presentflags, bit0, s.trace, s.cNext, PlanOf(bits, bit0), [], []);
  }

  // ----- The presence words -----

  const HEADER := 8

  /** Presence word j of a header. */
  function Word(buf: seq<Octet>, j: nat): bv32
    requires HEADER + 4 * j <= |buf|
  {
    Little32(buf[4 + 4 * j..8 + 4 * j])
  }

  /** Bit k of a presence word is bit k % 8 of octet k / 8 of the word. */
  lemma PresenceBit(buf: seq<Octet>, j: nat, k: nat)
    requires HEADER + 4 * j <= |buf| && k < 32
    ensures WordBit(Word(buf, j), k) <==> buf[4 + 4 * j + k / 8] / Pow2(k % 8) % 2 == 1
  {
    var s := buf[4 + 4 * j..8 + 4 * j];
    LittleBit(s, Word(buf, j), k);
    assert s[k / 8] == buf[4 + 4 * j + k / 8];
  }

  predicate Extended(w: bv32) { w & 0x8000_0000 != 0 }

  /** The search for the last presence word, which moves the cursor past it; no word if the header ends
      before one that is not extended. */
  method LastPresent(s: CpackState) returns (r: Option<nat>)
    requires s.Valid() && s.cNext == 0 && s.cLen >= HEADER
    modifies s`cNext
    ensures s.Valid()
    ensures r.None? ==> forall j: nat :: HEADER + 4 * j <= s.cLen ==> Extended(Word(s.buf, j))
    ensures r.Some? ==> s.cNext == HEADER + 4 * r.value <= s.cLen && !Extended(Word(s.buf, r.value))
    ensures r.Some? ==> forall j: nat :: j < r.value ==> Extended(Word(s.buf, j))
  {
    var ok := s.Advance(HEADER);
    var last := 0;
    while HEADER + 4 * last <= s.cLen && Extended(Word(s.buf, last))
      invariant s.Valid() && 4 + 4 * last <= s.cLen
      invariant HEADER + 4 * last <= s.cLen ==> s.cNext == HEADER + 4 * last
      invariant forall j: nat :: j < last ==> Extended(Word(s.buf, j))
    {
      ok := s.Advance(4);
      last := last + 1;
    }
    return if HEADER + 4 * last > s.cLen then None else Some(last);
  }

  // ----- Namespaces -----

  datatype Switch = Stay | ToRadiotap | ToVendor | Illegal

  function SwitchOf(w: bv32): Switch {
    match w & 0x6000_0000
    case 0 => Stay
    case 0x2000_0000 => ToRadiotap
    case 0x4000_0000 => ToVendor
    case _ => Illegal
  }

  lemma HighBit(w: bv32, k: nat)
    requires 24 <= k < 32
    ensures WordBit(w, k) <==> Masked(w >> 24, k - 24)
  {
    EightHalves(k, w);
    EightHalves(k - 8, Down8(w));
    EightHalves(k - 16, Down8(Down8(w)));
    var top := Down8(Down8(Down8(w)));
    assert top == w >> 24;
    WordIsMasked(top, k - 24);
  }

  /** The three highest bits of a presence word: bit 31 extends the presence words; bits 29 and 30 switch the
      namespace, and are illegal together. */
  lemma SpecialBits(w: bv32)
    ensures Extended(w) <==> WordBit(w, 31)
    ensures SwitchOf(w) == if WordBit(w, 29) then (if WordBit(w, 30) then Illegal else ToRadiotap)
                           else (if WordBit(w, 30) then ToVendor else Stay)
  {
    HighBit(w, 29);
    HighBit(w, 30);
    HighBit(w, 31);
  }

  /** Is the word after these one of a vendor namespace? */
  predicate InVendor(words: seq<bv32>) {
    words != [] &&
    var n := |words| - 1;
    match SwitchOf(words[n])
    case ToRadiotap => false
    case ToVendor => true
    case _ => InVendor(words[..n])
  }

  /** The number of bit 0 of the word after these, in its namespace. */
  function Base(words: seq<bv32>): nat {
    if words == [] then 0
    else
      var n := |words| - 1;
      match SwitchOf(words[n])
      case Stay => Base(words[..n]) + 32
      case Illegal => Base(words[..n])
      case _ => 0
  }

  /** OUI, sub-namespace and skip length. */
  const VENDOR: seq<nat> := [1, 1, 1, 1, 2]

  /** Where the walk is: cursor, reads so far, octets of the vendor namespace to skip, and whether it goes on. */
  datatype Walk = Walk(next: nat, trace: seq<Read>, skip: nat, going: bool)

  /** The fields of a word, or the octets to skip instead of them. */
  function Fields(len: nat, words: seq<bv32>, w: bv32, a: Walk): Walk {
    if InVendor(words) then
      if a.next + a.skip <= len then Walk(a.next + a.skip, a.trace, 0, true) else a.(going := false)
    else
      var plan := PlanOf(SetBits(w, 0), Base(words));
      var r := Fitting(len, a.next, plan.widths);
      Walk(EndOf(a.next, r), a.trace + r, a.skip, plan.known && |r| == |plan.widths|)
  }

  /** The vendor namespace item, if the word announces one. */
  function VendorItem(buf: seq<Octet>, len: nat, w: bv32, a: Walk): Walk {
    if SwitchOf(w) == ToRadiotap then a.(skip := 0)
    else if SwitchOf(w) != ToVendor || NextBoundary(a.next, 2) + 2 > len then a
    else
      var r := Fitting(len, a.next, VENDOR);
      Walk(EndOf(a.next, r), a.trace + r, if |r| == 5 then ValueOf(buf, r[4]) else a.skip, true)
  }

  /** The walk over some presence words, from the end of the last of them on. */
  function WalkOf(buf: seq<Octet>, len: nat, next: nat, words: seq<bv32>): Walk {
    if words == [] then Walk(next, [], 0, true)
    else
      var n := |words| - 1;
      var a := WalkOf(buf, len, next, words[..n]);
      if !a.going then a
      else
        var b := Fields(len, words[..n], words[n], a);
        if !b.going then b else VendorItem(buf, len, words[n], b)
  }

  /** Without a switch of namespaces the words number their bits one after the other. */
  lemma {:induction false} NeverSwitched(words: seq<bv32>)
    requires forall j :: 0 <= j < |words| ==> SwitchOf(words[j]) == Stay
    ensures !InVendor(words) && Base(words) == 32 * |words|
  {
    if words != [] {
      NeverSwitched(words[..|words| - 1]);
    }
  }

  /** After the last switch the namespace is the one it names, and the numbering starts again. */
  lemma {:induction false} SwitchedSince(words: seq<bv32>, k: nat)
    requires k < |words| && (SwitchOf(words[k]) == ToRadiotap || SwitchOf(words[k]) == ToVendor)
    requires forall j :: k < j < |words| ==> SwitchOf(words[j]) == Stay
    ensures (InVendor(words) <==> SwitchOf(words[k]) == ToVendor) && Base(words) == 32 * (|words| - 1 - k)
  {
    if k < |words| - 1 {
      SwitchedSince(words[..|words| - 1], k);
    }
  }

  /** A word of a vendor namespace reads nothing, whatever its bits: the walk goes on after as many octets as
      the item that announced the namespace said. */
  lemma VendorOctetsAreSkipped(buf: seq<Octet>, len: nat, next: nat, words: seq<bv32>, w: bv32)
    requires InVendor(words) && WalkOf(buf, len, next, words).going && SwitchOf(w) != ToVendor
    ensures var a, b := WalkOf(buf, len, next, words), WalkOf(buf, len, next, words + [w]);
            && b.trace == a.trace && (b.going <==> a.next + a.skip <= len)
            && (b.going ==> b.next == a.next + a.skip && b.skip == 0)
  {
    assert (words + [w])[..|words|] == words;
  }

  lemma {:induction false} NeverVendor(words: seq<bv32>)
    requires forall j :: 0 <= j < |words| ==> SwitchOf(words[j]) != ToVendor
    ensures !InVendor(words)
  {
    if words != [] {
      NeverVendor(words[..|words| - 1]);
    }
  }

  /** The numbers to read for all presence words, up to the first field of unknown size. */
  function HeaderPlan(words: seq<bv32>): (r: Plan)
    ensures Positive(r.widths)
  {
    if words == [] then Plan([], true)
    else
      var n := |words| - 1;
      var before, here := HeaderPlan(words[..n]), PlanOf(SetBits(words[n], 0), Base(words[..n]));
      if before.known then Plan(before.widths + here.widths, here.known) else before
  }

  /** The walk that one reading of all the numbers of a plan is. */
  function Carried(len: nat, next: nat, plan: Plan): Walk
    requires Positive(plan.widths)
  {
    var r := Fitting(len, next, plan.widths);
    Walk(EndOf(next, r), r, 0, plan.known && |r| == |plan.widths|)
  }

  lemma CarriedConcat(len: nat, next: nat, p: Plan, q: Plan)
    requires Positive(p.widths) && Positive(q.widths) && p.known
    ensures Positive(p.widths + q.widths)
    ensures var a, b := Carried(len, next, p), Carried(len, next, Plan(p.widths + q.widths, q.known));
            if !a.going then b == a
            else
              var r := Fitting(len, a.next, q.widths);
              b == Walk(EndOf(a.next, r), a.trace + r, 0, q.known && |r| == |q.widths|)
  {
    var r := Fitting(len, next, p.widths);
    FittingConcat(len, next, p.widths, q.widths);
    if |r| == |p.widths| {
      EndOfConcat(next, r, Fitting(len, EndOf(next, r), q.widths));
    }
  }

  /** Without a vendor namespace the whole walk is one reading: every number at its own alignment after the one
      before, from the presence words to the end of the header. */
  lemma {:induction false} HeaderIsOneReading(buf: seq<Octet>, len: nat, next: nat, words: seq<bv32>)
    requires forall j :: 0 <= j < |words| ==> SwitchOf(words[j]) != ToVendor
    ensures WalkOf(buf, len, next, words) == Carried(len, next, HeaderPlan(words))
    decreases words
  {
    if words != [] {
      var n := |words| - 1;
      var init, w := words[..n], words[n];
      HeaderIsOneReading(buf, len, next, init);
      NeverVendor(init);
      var before := HeaderPlan(init);
      if before.known {
        CarriedConcat(len, next, before, PlanOf(SetBits(w, 0), Base(init)));
      }
    }
  }

  /** Whatever the presence words, every read of the walk is aligned to its width, lies between the
      presence words and the end of the header, and starts where the one before ended or later. */
  lemma {:induction false} WalkIsOrderly(buf: seq<Octet>, len: nat, next: nat, words: seq<bv32>)
    requires next <= len
    ensures var a := WalkOf(buf, len, next, words); a.next <= len && Orderly(next, a.next, a.trace)
    decreases words
  {
    if words != [] {
      var n := |words| - 1;
      WalkIsOrderly(buf, len, next, words[..n]);
      var a := WalkOf(buf, len, next, words[..n]);
      if a.going {
        FieldsAreOrderly(len, next, words[..n], words[n], a);
        var b := Fields(len, words[..n], words[n], a);
        VendorItemIsOrderly(buf, len, next, words[n], b);
      }
    }
  }

  lemma {:induction false} OrderlyReaches(from: nat, to: nat, end: nat, rs: seq<Read>)
    requires Orderly(from, to, rs) && to <= end
    ensures Orderly(from, end, rs)
    decreases rs
  {
    if rs != [] {
      OrderlyReaches(rs[0].offset + rs[0].width, to, end, rs[1..]);
    }
  }

  lemma FieldsAreOrderly(len: nat, next: nat, words: seq<bv32>, w: bv32, a: Walk)
    requires a.next <= len && Orderly(next, a.next, a.trace)
    ensures var b := Fields(len, words, w, a); b.next <= len && Orderly(next, b.next, b.trace)
  {
    if InVendor(words) {
      OrderlyReaches(next, a.next, a.next + a.skip, a.trace);
    } else {
      var plan := PlanOf(SetBits(w, 0), Base(words));
      MoreIsOrderly(len, next, a, plan.widths);
    }
  }

  lemma MoreIsOrderly(len: nat, next: nat, a: Walk, ws: seq<nat>)
    requires a.next <= len && Orderly(next, a.next, a.trace) && Positive(ws)
    ensures var r := Fitting(len, a.next, ws);
            EndOf(a.next, r) <= len && Orderly(next, EndOf(a.next, r), a.trace + r)
  {
    var r := Fitting(len, a.next, ws);
    FittingIsOrderly(len, a.next, ws);
    OrderlyConcat(next, a.next, EndOf(a.next, r), a.trace, r);
  }

  lemma VendorItemIsOrderly(buf: seq<Octet>, len: nat, next: nat, w: bv32, a: Walk)
    requires a.next <= len && Orderly(next, a.next, a.trace)
    ensures var b := VendorItem(buf, len, w, a); b.next <= len && Orderly(next, b.next, b.trace)
  {
    MoreIsOrderly(len, next, a, VENDOR);
  }

  /** Once it has stopped, the walk stays where it is. */
  lemma {:induction false} WalkStaysStopped(buf: seq<Octet>, len: nat, next: nat, words: seq<bv32>, j: nat)
    requires j <= |words| && !WalkOf(buf, len, next, words[..j]).going
    ensures WalkOf(buf, len, next, words) == WalkOf(buf, len, next, words[..j])
    decreases |words| - j
  {
    if j == |words| {
      assert words[..j] == words;
    } else {
      assert words[..j + 1][..j] == words[..j];
      WalkStaysStopped(buf, len, next, words, j + 1);
    }
  }

  /** The octets of a vendor namespace, or the fields of a word. */
  method VisitFields(s: CpackState, w: bv32, vendor: bool, bit0: nat, skip: nat, ghost words: seq<bv32>)
    returns (ok: bool, left: nat)
    requires s.Valid() && vendor == InVendor(words) && bit0 == Base(words)
    modifies s
    ensures s.Valid()
    ensures var before := Walk(old(s.cNext), old(s.trace), skip, true);
            Walk(s.cNext, s.trace, left, ok) == Fields(s.cLen, words, w, before)
  {
    if vendor {
      ok := s.Advance(skip);
      left := if ok then 0 else skip;
    } else {
      var rc;
      ghost var r;
      rc, r := PrintInRadiotapNamespace(s, w, bit0);
      ok, left := rc == 0, skip;
    }
  }

  /** The fields of the vendor namespace item. */
  method VisitVendorItem(s: CpackState, skip: nat) returns (left: nat)
    requires s.Valid()
    modifies s
    ensures s.Valid()
    ensures forall w :: SwitchOf(w) == ToVendor ==>
              var before := Walk(old(s.cNext), old(s.trace), skip, true);
              Walk(s.cNext, s.trace, left, true) == VendorItem(s.buf, s.cLen, w, before)
  {
    var room := s.AlignAndReserve(2);
    if room == None {
      return skip;
    }
    var ok, values;
    ghost var r;
    ok, values, r := ReadNumbers(s, VENDOR);
    left := if ok then values[4] else skip;
  }

  /** One pass of the loop over the presence words. */
  method VisitWord(s: CpackState, w: bv32, vendor0: bool, bit00: nat, skip0: nat, ghost words: seq<bv32>,
                   ghost next: nat)
    returns (ok: bool, vendor: bool, bit0: nat, skip: nat)
    requires s.Valid() && vendor0 == InVendor(words) && bit00 == Base(words)
    requires WalkOf(s.buf, s.cLen, next, words) == Walk(s.cNext, s.trace, skip0, true)
    modifies s
    ensures s.Valid() && WalkOf(s.buf, s.cLen, next, words + [w]) == Walk(s.cNext, s.trace, skip, ok)
    ensures ok ==> vendor == InVendor(words + [w]) && bit0 == Base(words + [w])
  {
    vendor, bit0 := vendor0, bit00;
    assert (words + [w])[..|words|] == words;
    ok, skip := VisitFields(s, w, vendor, bit0, skip0, words);
    if !ok {
      return;
    }
    match SwitchOf(w)
    case Stay =>
      bit0 := bit0 + 32;
    case ToRadiotap =>
      bit0, vendor, skip := 0, false, 0;
    case ToVendor =>
      bit0, vendor := 0, true;
      skip := VisitVendorItem(s, skip);
    case Illegal =>
  }

  /** The presence words of a header: all extended but the last. */
  ghost predicate Presence(buf: seq<Octet>, len: nat, words: seq<bv32>)
    requires len <= |buf|
  {
    && words != [] && 4 + 4 * |words| <= len
    && (forall j :: 0 <= j < |words| ==> words[j] == Word(buf, j))
    && (forall j :: 0 <= j < |words| - 1 ==> Extended(words[j])) && !Extended(words[|words| - 1])
  }

  /** The loop over the presence words. */
  method VisitWords(s: CpackState, last: nat, ghost words: seq<bv32>, ghost start: nat)
    requires s.Valid() && s.cNext == start && s.trace == []
    requires |words| == last + 1 && HEADER + 4 * last <= s.cLen
    requires forall j :: 0 <= j <= last ==> words[j] == Word(s.buf, j)
    modifies s
    ensures s.Valid()
    ensures var a := WalkOf(s.buf, s.cLen, start, words); a.next == s.cNext && a.trace == s.trace
  {
    var j, ok, vendor, bit0, skip := 0, true, false, 0, 0;
    while j <= last && ok
      invariant s.Valid() && j <= |words|
      invariant WalkOf(s.buf, s.cLen, start, words[..j]) == Walk(s.cNext, s.trace, skip, ok)
      invariant ok ==> vendor == InVendor(words[..j]) && bit0 == Base(words[..j])
      decreases |words| - j
    {
      TakeOneMore(words, j);
      ok, vendor, bit0, skip := VisitWord(s, Word(s.buf, j), vendor, bit0, skip, words[..j], start);
      j := j + 1;
    }
    if !ok {
      WalkStaysStopped(s.buf, s.cLen, start, words, j);
    } else {
      assert words[..j] == words;
    }
  }

  /** The whole header: given up exactly when the presence words do not end within it, and walked otherwise. */
  method WalkHeader(s: CpackState) returns (ok: bool, ghost words: seq<bv32>)
    requires s.Valid() && s.cNext == 0 && s.trace == [] && s.cLen >= HEADER
    modifies s
    ensures s.Valid()
    ensures !ok ==> forall j: nat :: HEADER + 4 * j <= s.cLen ==> Extended(Word(s.buf, j))
    ensures ok ==> Presence(s.buf, s.cLen, words)
    ensures ok ==> var a := WalkOf(s.buf, s.cLen, 4 + 4 * |words|, words); a.next == s.cNext && a.trace == s.trace
    ensures ok ==> Orderly(4 + 4 * |words|, s.cNext, s.trace)
  {
    var last := LastPresent(s);
    if last == None {
      return false, [];
    }
    words := seq(last.value + 1, j requires 0 <= j <= last.value => Word(s.buf, j));
    WalkIsOrderly(s.buf, s.cLen, s.cNext, words);
    VisitWords(s, last.value, words, s.cNext);
    ok := true;
  }

  /** The length of the header, from the two octets that say it. */
  function HeaderLength(p: seq<Octet>): nat
    requires |p| >= HEADER
  {
    LittleNumber(p[2..4])
  }

  /** The start of the printer: it gives up a header that is cut off, that says it is shorter than its fixed part or
      longer than what was captured, or whose presence words do not end within it; it walks any other. */
  method RadioPrint(p: seq<Octet>) returns (s: CpackState?, ghost words: seq<bv32>)
    ensures s != null <==>
              && |p| >= 8 && var len := p[2] as int + 256 * p[3] as int;
              && 8 <= len <= |p| && exists j: nat :: 8 + 4 * j <= len && !Extended(Word(p, j))
    ensures s != null ==>
              && fresh(s) && s.Valid() && s.buf == p && s.cLen == p[2] as int + 256 * p[3] as int
              && Presence(p, s.cLen, words) && Orderly(4 + 4 * |words|, s.cNext, s.trace)
              && var a := WalkOf(p, s.cLen, 4 + 4 * |words|, words); a.next == s.cNext && a.trace == s.trace
  {
    s, words := null, [];
    if |p| < HEADER {
      return;
    }
    PairNumber(p[2..4]);
    var len := HeaderLength(p);
    if len < HEADER || |p| < len {
      return;
    }
    var state := new CpackState(p, len);
    var ok;
    ok, words := WalkHeader(state);
    if ok {
      s := state;
      assert !Extended(Word(p, |words| - 1));
    }
  }

  lemma OneOctet(len: nat, next: nat, ws: seq<nat>)
    requires Positive(ws) && ws != [] && ws[0] == 1
    ensures Fitting(len, next, ws) == if next + 1 > len then [] else [Read(next, 1)] + Fitting(len, next + 1, ws[1..])
  {
    assert NextBoundary(next, 1) == next;
  }

  /** Where the number after k single octets is read. */
  lemma {:induction false} AfterOctets(len: nat, next: nat, ws: seq<nat>, k: nat)
    requires Positive(ws) && k < |Fitting(len, next, ws)| && forall i :: 0 <= i < k ==> ws[i] == 1
    ensures Fitting(len, next, ws)[k] == Read(NextBoundary(next + k, ws[k]), ws[k])
    decreases k
  {
    if k == 0 {
      FittingStep(len, next, ws);
    } else {
      OneOctet(len, next, ws);
      AfterOctets(len, next + 1, ws[1..], k - 1);
    }
  }

  lemma EvenBoundary(next: nat)
    ensures NextBoundary(next + 4, 2) == NextBoundary(next, 2) + 4
    ensures next == NextBoundary(next, 2) <==> next % 2 == 0
  {
  }

  lemma OctetsThenPair(len: nat, next: nat, ws: seq<nat>)
    requires |ws| == 5 && ws[0] == ws[1] == ws[2] == ws[3] == 1 && ws[4] == 2 && |Fitting(len, next, ws)| == 5
    ensures Fitting(len, next, ws)[0].offset == next
    ensures Fitting(len, next, ws)[4] == Read(NextBoundary(next + 4, 2), 2)
  {
    AfterOctets(len, next, ws, 0);
    AfterOctets(len, next, ws, 4);
  }

  /** The vendor namespace item wants alignment to two octets. The code checks that there is room at the
      next even offset but does not move there, so it reads the OUI where it stands: at the right place
      exactly when that is even. The skip length is at the right place either way. */
  lemma VendorItemPlace(len: nat, next: nat)
    requires |Fitting(len, next, VENDOR)| == 5
    ensures var r := Fitting(len, next, VENDOR);
            && (r[0].offset == NextBoundary(next, 2) <==> next % 2 == 0)
            && r[4] == Read(NextBoundary(next, 2) + 4, 2)
  {
    OctetsThenPair(len, next, VENDOR);
    EvenBoundary(next);
  }

  lemma VendorItemFits(len: nat, next: nat)
    requires NextBoundary(next, 2) + 6 <= len
    ensures |Fitting(len, next, VENDOR)| == 5
  {
    EvenBoundary(next);
    OctetsFit(len, next, VENDOR, 4);
  }

  lemma VendorItemSkip(buf: seq<Octet>, len: nat, w: bv32, a: Walk, rd: Read)
    requires SwitchOf(w) == ToVendor && NextBoundary(a.next, 2) + 2 <= len
    requires |Fitting(len, a.next, VENDOR)| == 5 && Fitting(len, a.next, VENDOR)[4] == rd
    ensures VendorItem(buf, len, w, a).skip == ValueOf(buf, rd)
  {
  }

  /** How much of the vendor namespace to skip, from the two octets that say it. */
  lemma VendorSkipLength(buf: seq<Octet>, len: nat, w: bv32, a: Walk, o: nat)
    requires SwitchOf(w) == ToVendor && o == NextBoundary(a.next, 2) + 4 && o + 2 <= len <= |buf|
    ensures VendorItem(buf, len, w, a).skip == buf[o] as int + 256 * buf[o + 1] as int
  {
    VendorItemFits(len, a.next);
    VendorItemPlace(len, a.next);
    VendorItemSkip(buf, len, w, a, Read(o, 2));
    PairNumber(buf[o..o + 2]);
  }

  /** Both switch bits together change nothing: the namespace and the numbering stay. */
  lemma IllegalIsIgnored(words: seq<bv32>, w: bv32)
    requires SwitchOf(w) == Illegal
    ensures InVendor(words + [w]) == InVendor(words) && Base(words + [w]) == Base(words)
  {
    assert (words + [w])[..|words|] == words;
  }

  /** A presence word with the flags field, a switch to a vendor namespace, and an extension. */
  const FLAGS_THEN_VENDOR: bv32 := 0xC000_0002

  lemma FlagsThenVendor(w: bv32)
    requires w == FLAGS_THEN_VENDOR
    ensures SwitchOf(w) == ToVendor && Extended(w) && PlanOf(SetBits(w, 0), 0) == Plan([1], true)
  {
    var rest: bv32 := 0xC000_0000;
    assert ClearLow(w) == rest && LowBit(w) == 2 && BitNo32(2) == 1;
    NextBit(w);
    assert LowBit(rest) == 0x4000_0000 && BitNo32(0x4000_0000) == 30;
    NextBit(rest);
    FlagsPlan(SetBits(w, 0));
  }

  lemma FlagsPlan(bits: seq<nat>)
    requires |bits| >= 2 && bits[0] == 1 && bits[1] == 30
    ensures PlanOf(bits, 0) == Plan([1], true)
  {
    assert PlanOf(bits[1..], 0) == Plan([], true);
    assert FieldWidths(1) == Some([1]);
  }

  lemma {:induction false} OctetsFit(len: nat, next: nat, ws: seq<nat>, k: nat)
    requires |ws| == k + 1 && Positive(ws) && forall i :: 0 <= i < k ==> ws[i] == 1
    requires NextBoundary(next + k, ws[k]) + ws[k] <= len
    ensures |Fitting(len, next, ws)| == k + 1
    decreases k
  {
    if k == 0 {
      FittingStep(len, next, ws);
      assert ws[1..] == [];
    } else {
      OneOctet(len, next, ws);
      OctetsFit(len, next + 1, ws[1..], k - 1);
    }
  }

  lemma VendorFits(len: nat, ws: seq<nat>)
    requires len >= 20 && ws == VENDOR
    ensures |Fitting(len, 13, ws)| == 5 && Fitting(len, 13, ws)[0].offset == 13
  {
    OctetsFit(len, 13, ws, 4);
    AfterOctets(len, 13, ws, 0);
  }

  lemma FlagsField(len: nat, w: bv32, ws: seq<nat>)
    requires len >= 13 && ws == [1] && PlanOf(SetBits(w, 0), 0) == Plan(ws, true)
    ensures Fields(len, [], w, Walk(12, [], 0, true)) == Walk(13, [Read(12, 1)], 0, true)
  {
    OneOctet(len, 12, ws);
    assert ws[1..] == [];
  }

  lemma OneWordWalk(buf: seq<Octet>, len: nat, next: nat, w: bv32, b: Walk)
    requires b == Fields(len, [], w, Walk(next, [], 0, true)) && b.going
    ensures WalkOf(buf, len, next, [w]) == VendorItem(buf, len, w, b)
  {
    var none: seq<bv32> := [];
    assert [w][..0] == none && WalkOf(buf, len, next, none) == Walk(next, [], 0, true);
  }

  /** The walk over that word, from offset 12 on. */
  lemma FlagsThenItem(buf: seq<Octet>, len: nat, w: bv32)
    requires len >= 20 && w == FLAGS_THEN_VENDOR
    ensures var a := WalkOf(buf, len, 12, [w]);
            a.going && |a.trace| == 6 && a.trace[0] == Read(12, 1) && a.trace[1].offset == 13
  {
    FlagsThenVendor(w);
    FlagsField(len, w, [1]);
    OneWordWalk(buf, len, 12, w, Walk(13, [Read(12, 1)], 0, true));
    VendorFits(len, VENDOR);
  }

  /** A header in which it is not: two presence words and the flags are 13 octets, and the OUI is read at 13,
      not at 14. */
  lemma VendorItemExample(buf: seq<Octet>, len: nat, w: bv32)
    requires len >= 20 && w == FLAGS_THEN_VENDOR
    ensures Extended(w) && !Extended(0)
    ensures var a := WalkOf(buf, len, 12, [w] + [0]);
            |a.trace| == 6 && a.trace[0] == Read(12, 1) && a.trace[1].offset == 13 && NextBoundary(13, 2) == 14
  {
    FlagsThenVendor(w);
    FlagsThenItem(buf, len, w);
    assert InVendor([w]) by {
      SwitchedSince([w], 0);
    }
    VendorOctetsAreSkipped(buf, len, 12, [w], 0);
  }
}
