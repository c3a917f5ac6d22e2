/** Where tcpdump/print-802_11.c reads the fields of a radiotap header, and where its comments put them. */
module RadiotapLayout {
  import opened Cpack
  import opened LittleWords
  import opened Octets
  import opened Options
  import opened Radiotap
  import opened Registers
  import opened Sequences

  // ----- Numbers one after the other -----

  /** The places of numbers of given widths, each at its own alignment after the one before. */
  function Laid(next: nat, ws: seq<nat>): (r: seq<Read>)
    requires Positive(ws)
    ensures |r| == |ws|
    decreases ws
  {
    if ws == [] then []
    else
      var o := NextBoundary(next, ws[0]);
      [Read(o, ws[0])] + Laid(o + ws[0], ws[1..])
  }

  /** What is read is at those places, as far as the header reaches. */
  lemma {:induction false} FittingIsLaid(len: nat, next: nat, ws: seq<nat>)
    requires Positive(ws)
    ensures Fitting(len, next, ws) <= Laid(next, ws)
    ensures |Fitting(len, next, ws)| == |ws| ==> Fitting(len, next, ws) == Laid(next, ws)
    decreases ws
  {
    if ws != [] {
      FittingStep(len, next, ws);
      FittingIsLaid(len, NextBoundary(next, ws[0]) + ws[0], ws[1..]);
    }
  }

  lemma {:induction false} LaidConcat(next: nat, a: seq<nat>, b: seq<nat>)
    requires Positive(a) && Positive(b)
    ensures Positive(a + b) && Laid(next, a + b) == Laid(next, a) + Laid(EndOf(next, Laid(next, a)), b)
    decreases a
  {
    if a == [] {
      assert a + b == b;
    } else {
      var o := NextBoundary(next, a[0]);
      var e, first := o + a[0], [Read(o, a[0])];
      assert (a + b)[1..] == a[1..] + b && Positive(a + b);
      LaidConcat(e, a[1..], b);
      var rest := Laid(e, a[1..]);
      EndOfConcat(next, first, rest);
      Regroup(first, rest, Laid(EndOf(e, rest), b));
    }
  }

  // ----- Fields -----

  /** The widths of a field as the code reads it. */
  function CodeWidths(f: nat): (ws: seq<nat>)
    ensures Positive(ws)
  {
    match FieldWidths(f)
    case None => []
    case Some(ws) => ws
  }

  const FHSS := 4
  const DB_TX_ATTENUATION := 9

  /** The widths of a field as the comments on the fields give them. */
  function DocumentedWidths(f: nat): (ws: seq<nat>)
    ensures Positive(ws)
  {
    match f
    case 0 => [8]                                  // uint64_t
    case 1 => [1]                                  // uint8_t
    case 2 => [1]                                  // uint8_t
    case 3 => [2, 2]                               // 2 x uint16_t
    case 4 => [2]                                  // uint16_t
    case 5 => [1]                                  // int8_t
    case 6 => [1]                                  // int8_t
    case 7 => [2]                                  // uint16_t
    case 8 => [2]                                  // uint16_t
    case 9 => [2]                                  // uint16_t
    case 10 => [1]                                 // int8_t
    case 11 => [1]                                 // uint8_t
    case 12 => [1]                                 // uint8_t
    case 13 => [1]                                 // uint8_t
    case 14 => [2]                                 // uint16_t
    case 18 => [4, 2, 1, 1]                        // uint32_t, uint16_t, uint8_t, uint8_t
    case 19 => [1, 1, 1]                           // uint8_t, uint8_t, uint8_t
    case 20 => [4, 2, 1, 1]                        // u32, u16, u8, u8
    case 21 => [2, 1, 1] + [1, 1, 1, 1] + [1, 1, 2]  // u16, u8, u8, u8[4], u8, u8, u16
    case _ => []
  }

  /** The code knows the size of the fields that have a comment, and of no other; it reads each as the numbers of
      its comment, but for the frequency hopping parameters and the attenuation in dB, which are single 16-bit
      numbers there. */
  lemma WidthsAgreeIff(f: nat)
    ensures FieldWidths(f).Some? <==> DocumentedWidths(f) != []
    ensures FieldWidths(f).Some? <==> CodeWidths(f) != []
    ensures CodeWidths(f) == DocumentedWidths(f) <==> f != FHSS && f != DB_TX_ATTENUATION
  {
    assert [2, 1, 1] + [1, 1, 1, 1] + [1, 1, 2] == [2, 1, 1, 1, 1, 1, 1, 1, 1, 2];
    if f < 22 {
      assert FIELDS[f] == if f == FHSS then [1, 1] else if f == DB_TX_ATTENUATION then [1] else DocumentedWidths(f);
    }
  }

  type Widths = nat -> seq<nat>

  predicate Sized(widths: Widths, fs: seq<nat>) {
    forall i :: 0 <= i < |fs| ==> widths(fs[i]) != [] && Positive(widths(fs[i]))
  }

  /** The octets a field takes up. */
  datatype Extent = Extent(start: nat, end: nat)

  function ExtentOf(next: nat, ws: seq<nat>): (r: Extent)
    requires Positive(ws) && ws != []
  {
    var r := Laid(next, ws);
    Extent(r[0].offset, EndOf(next, r))
  }

  function Extents(widths: Widths, next: nat, fs: seq<nat>): (r: seq<Extent>)
    requires Sized(widths, fs)
    ensures |r| == |fs|
    decreases fs
  {
    if fs == [] then []
    else
      var e := ExtentOf(next, widths(fs[0]));
      [e] + Extents(widths, e.end, fs[1..])
  }

  /** The numbers of some fields. */
  function Flat(widths: Widths, fs: seq<nat>): (r: seq<nat>)
    requires Sized(widths, fs)
    ensures Positive(r)
    decreases fs
  {
    if fs == [] then [] else widths(fs[0]) + Flat(widths, fs[1..])
  }

  // ----- One field -----

  lemma OneNumber(next: nat, w: nat)
    requires w > 0
    ensures ExtentOf(next, [w]) == Extent(NextBoundary(next, w), NextBoundary(next, w) + w)
  {
    assert [w][1..] == [];
  }

  lemma TwoOctets(next: nat)
    ensures ExtentOf(next, [1, 1]) == Extent(next, next + 2)
  {
    assert [1, 1][1..] == [1] && [1][1..] == [];
    assert NextBoundary(next, 1) == next && NextBoundary(next + 1, 1) == next + 1;
    assert Laid(next, [1, 1]) == [Read(next, 1), Read(next + 1, 1)];
  }

  lemma SpecialWidths()
    ensures CodeWidths(FHSS) == [1, 1] && DocumentedWidths(FHSS) == [2]
    ensures CodeWidths(DB_TX_ATTENUATION) == [1] && DocumentedWidths(DB_TX_ATTENUATION) == [2]
  {
  }

  lemma OctetsAgreeIff(next: nat, c: seq<nat>, d: seq<nat>)
    requires d == [2] && (c == [1, 1] || c == [1])
    ensures Positive(c) && Positive(d)
    ensures ExtentOf(next, c) == ExtentOf(next, d) <==> c == [1, 1] && next % 2 == 0
  {
    EvenBoundary(next);
    OneNumber(next, 1);
    OneNumber(next, 2);
    TwoOctets(next);
  }

  /** A field is read where the comments put it unless it is the attenuation in dB, or the frequency hopping
      parameters at an odd offset. */
  lemma FieldAgreesIff(next: nat, f: nat)
    requires CodeWidths(f) != [] && DocumentedWidths(f) != []
    ensures ExtentOf(next, CodeWidths(f)) == ExtentOf(next, DocumentedWidths(f))
       <==> f != DB_TX_ATTENUATION && (f == FHSS ==> next % 2 == 0)
  {
    WidthsAgreeIff(f);
    if f == FHSS || f == DB_TX_ATTENUATION {
      SpecialWidths();
      OctetsAgreeIff(next, CodeWidths(f), DocumentedWidths(f));
    }
  }

  // ----- The fields of a word -----

  predicate AllKnown(fs: seq<nat>) { forall i :: 0 <= i < |fs| ==> FieldWidths(fs[i]).Some? }

  predicate Ascending(fs: seq<nat>) { forall i, j :: 0 <= i < j < |fs| ==> fs[i] < fs[j] }

  lemma KnownIsSized(fs: seq<nat>)
    requires AllKnown(fs)
    ensures Sized(CodeWidths, fs) && Sized(DocumentedWidths, fs)
  {
    forall i | 0 <= i < |fs|
      ensures CodeWidths(fs[i]) != [] && DocumentedWidths(fs[i]) != []
    {
      WidthsAgreeIff(fs[i]);
    }
  }

  /** Where the code is when it comes to the frequency hopping parameters, or past their place. */
  function CursorAtFhss(next: nat, fs: seq<nat>): nat
    requires Sized(CodeWidths, fs)
    decreases fs
  {
    if fs == [] || fs[0] >= FHSS then next else CursorAtFhss(ExtentOf(next, CodeWidths(fs[0])).end, fs[1..])
  }

  /** All fields are read where the comments put them if and only if the attenuation in dB is not among them and
      the frequency hopping parameters, if they are, are come to at an even offset. */
  lemma {:induction false} FieldsAgreeIff(next: nat, fs: seq<nat>)
    requires AllKnown(fs) && Ascending(fs)
    ensures Sized(CodeWidths, fs) && Sized(DocumentedWidths, fs)
    ensures Extents(CodeWidths, next, fs) == Extents(DocumentedWidths, next, fs)
       <==> DB_TX_ATTENUATION !in fs && (FHSS in fs ==> CursorAtFhss(next, fs) % 2 == 0)
    decreases fs
  {
    KnownIsSized(fs);
    if fs != [] {
      var f, rest := fs[0], fs[1..];
      KnownIsSized(rest);
      var c, d := ExtentOf(next, CodeWidths(f)), ExtentOf(next, DocumentedWidths(f));
      FieldAgreesIff(next, f);
      FieldsAgreeIff(c.end, rest);
      assert fs == [f] + rest;
      ExtentsCons(CodeWidths, next, fs);
      ExtentsCons(DocumentedWidths, next, fs);
    }
  }

  lemma ExtentsCons(widths: Widths, next: nat, fs: seq<nat>)
    requires Sized(widths, fs) && fs != []
    ensures Sized(widths, fs[1..])
    ensures var e, all := ExtentOf(next, widths(fs[0])), Extents(widths, next, fs);
            all[0] == e && all[1..] == Extents(widths, e.end, fs[1..])
  {
  }

  function One(b: bool): nat { if b then 1 else 0 }

  /** What decides it: the channel, which ends at an even offset, and otherwise the octets of flags and rate after
      the cursor or the time stamp. */
  predicate EvenAtFhss(next: nat, tsft: bool, flags: bool, rate: bool, channel: bool) {
    channel || ((if tsft then 0 else next) + One(flags) + One(rate)) % 2 == 0
  }

  lemma ChannelEndsEven(next: nat, ws: seq<nat>)
    requires ws == [2, 2]
    ensures Positive(ws) && ExtentOf(next, ws).end % 2 == 0
  {
    var o := NextBoundary(next, 2);
    EvenBoundary(next);
    assert o % 2 == 0 by {
      BoundaryIsAligned(next, 2);
    }
    assert NextBoundary(o + 2, 2) == o + 2;
    assert ws[1..] == [2] && [2][1..] == [];
    assert Laid(o + 2, [2]) == [Read(o + 2, 2)];
    assert Laid(next, ws) == [Read(o, 2)] + [Read(o + 2, 2)];
  }

  /** Where the fields before the frequency hopping parameters end. */
  lemma FieldEnd(next: nat, f: nat)
    requires f < FHSS
    ensures Positive(CodeWidths(f)) && CodeWidths(f) != []
    ensures var end := ExtentOf(next, CodeWidths(f)).end; if f == 1 || f == 2 then end == next + 1 else end % 2 == 0
  {
    if f == 0 {
      assert CodeWidths(f) == [8];
      OneNumber(next, 8);
      BoundaryIsAligned(next, 8);
    } else if f == 3 {
      ChannelEndsEven(next, CodeWidths(f));
    } else {
      assert CodeWidths(f) == [1];
      OneNumber(next, 1);
    }
  }

  lemma FirstAscends(fs: seq<nat>, x: nat)
    requires Ascending(fs) && fs != []
    ensures x in fs <==> x == fs[0] || x in fs[1..]
    ensures x in fs[1..] ==> x > fs[0]
  {
    assert fs == [fs[0]] + fs[1..];
  }

  /** The condition before a field and after it. */
  lemma EvenStep(next: nat, end: nat, f: nat, tsft: bool, flags: bool, rate: bool, channel: bool)
    requires f < FHSS && (f >= 0 ==> !tsft) && (f >= 1 ==> !flags) && (f >= 2 ==> !rate) && (f >= 3 ==> !channel)
    requires if f == 1 || f == 2 then end == next + 1 else end % 2 == 0
    ensures EvenAtFhss(end, tsft, flags, rate, channel)
       <==> EvenAtFhss(next, tsft || f == 0, flags || f == 1, rate || f == 2, channel || f == 3)
  {
  }

  lemma {:induction false} FhssCursor(next: nat, fs: seq<nat>)
    requires AllKnown(fs) && Ascending(fs) && Sized(CodeWidths, fs) && FHSS in fs
    ensures CursorAtFhss(next, fs) % 2 == 0 <==> EvenAtFhss(next, 0 in fs, 1 in fs, 2 in fs, 3 in fs)
    decreases fs
  {
    var f, rest := fs[0], fs[1..];
    FirstAscends(fs, 0);
    FirstAscends(fs, 1);
    FirstAscends(fs, 2);
    FirstAscends(fs, 3);
    FirstAscends(fs, FHSS);
    if f < FHSS {
      var end := ExtentOf(next, CodeWidths(f)).end;
      FieldEnd(next, f);
      FhssCursor(end, rest);
      EvenStep(next, end, f, 0 in rest, 1 in rest, 2 in rest, 3 in rest);
    }
  }

  // ----- The fields of a word -----

  /** The fields that are read for the set bits of a presence word: up to the first of unknown size. */
  function FieldsOf(bits: seq<nat>, bit0: nat): seq<nat> {
    if bits == [] || bits[0] >= NAMESPACE || FieldWidths(bit0 + bits[0]).None? then []
    else [bit0 + bits[0]] + FieldsOf(bits[1..], bit0)
  }

  /** They are the fields of the plan that the code carries out. */
  lemma {:induction false} PlanIsFlat(bits: seq<nat>, bit0: nat)
    ensures AllKnown(FieldsOf(bits, bit0)) && Sized(CodeWidths, FieldsOf(bits, bit0))
    ensures PlanOf(bits, bit0).widths == Flat(CodeWidths, FieldsOf(bits, bit0))
    decreases bits
  {
    var fs := FieldsOf(bits, bit0);
    if fs != [] {
      PlanIsFlat(bits[1..], bit0);
      assert fs[1..] == FieldsOf(bits[1..], bit0);
    }
    KnownIsSized(fs);
  }

  predicate Commented(f: nat) { DocumentedWidths(f) != [] }

  lemma PlanKnownStep(bits: seq<nat>, bit0: nat)
    requires bits != [] && bits[0] < 29
    ensures PlanOf(bits, bit0).known <==> Commented(bit0 + bits[0]) && PlanOf(bits[1..], bit0).known
  {
    WidthsAgreeIff(bit0 + bits[0]);
  }

  lemma NoFieldFrom29(bits: seq<nat>, bit0: nat)
    requires bits == [] || bits[0] >= 29
    ensures PlanOf(bits, bit0) == Plan([], true)
  {
  }

  predicate NamesCommented(b: nat, bit0: nat) { b < 29 ==> Commented(bit0 + b) }

  /** The reading of a word stops early exactly when a bit below 29 names a field without a comment. The bits from 29
      on name none. */
  lemma {:induction false} PlanKnownIff(bits: seq<nat>, bit0: nat, known: bool)
    requires Ascending(bits) && known == PlanOf(bits, bit0).known
    ensures known <==> forall b :: b in bits ==> NamesCommented(b, bit0)
    decreases bits
  {
    if bits == [] || bits[0] >= 29 {
      NoFieldFrom29(bits, bit0);
      assert forall b :: b in bits ==> b >= 29;
    } else {
      PlanKnownStep(bits, bit0);
      PlanKnownIff(bits[1..], bit0, PlanOf(bits[1..], bit0).known);
      NamedCons(bits, bit0);
    }
  }

  lemma NamedCons(bits: seq<nat>, bit0: nat)
    requires bits != []
    ensures (forall b :: b in bits ==> NamesCommented(b, bit0))
       <==> NamesCommented(bits[0], bit0) && forall b :: b in bits[1..] ==> NamesCommented(b, bit0)
  {
    assert forall b :: b in bits <==> b == bits[0] || b in bits[1..];
  }

  lemma AscendingCons(x: nat, fs: seq<nat>)
    requires Ascending(fs) && forall i :: 0 <= i < |fs| ==> x < fs[i]
    ensures Ascending([x] + fs)
  {
  }

  lemma {:induction false} FieldsAscend(bits: seq<nat>, bit0: nat)
    requires Ascending(bits)
    ensures Ascending(FieldsOf(bits, bit0))
    ensures forall i :: 0 <= i < |FieldsOf(bits, bit0)| ==> bit0 + bits[0] <= FieldsOf(bits, bit0)[i]
    decreases bits
  {
    if FieldsOf(bits, bit0) != [] {
      var rest := bits[1..];
      FieldsAscend(rest, bit0);
      assert rest != [] ==> bits[0] < rest[0];
      AscendingCons(bit0 + bits[0], FieldsOf(rest, bit0));
    }
  }

  /** In the first word of the namespace every set bit below 15 names a field that is read. */
  lemma {:induction false} LowFields(bits: seq<nat>, f: nat)
    requires Ascending(bits) && f < 15
    ensures f in FieldsOf(bits, 0) <==> f in bits
    decreases bits
  {
    if bits != [] {
      FirstAscends(bits, f);
      LowFields(bits[1..], f);
      if FieldsOf(bits, 0) == [] {
        assert bits[0] >= 15;
      } else {
        assert FieldsOf(bits, 0) == [bits[0]] + FieldsOf(bits[1..], 0);
      }
    }
  }

  lemma BitOfWord(w: bv32, bits: seq<nat>, f: nat)
    requires bits == SetBits(w, 0) && f < 32
    ensures Ascending(bits) && (f in bits <==> WordBit(w, f))
  {
    SetBitsAscend(w, 0);
  }

  lemma FieldOfWord(w: bv32, bits: seq<nat>, f: nat)
    requires bits == SetBits(w, 0) && f < 15
    ensures Ascending(bits) && (f in FieldsOf(bits, 0) <==> WordBit(w, f))
  {
    BitOfWord(w, bits, f);
    LowFields(bits, f);
  }

  /** The same by which of the fields are present. */
  lemma FieldsAgreeByMembers(next: nat, fs: seq<nat>, tsft: bool, flags: bool, rate: bool, channel: bool, fhss: bool,
                             attenuation: bool)
    requires AllKnown(fs) && Ascending(fs)
    requires (0 in fs <==> tsft) && (1 in fs <==> flags) && (2 in fs <==> rate) && (3 in fs <==> channel)
    requires (FHSS in fs <==> fhss) && (DB_TX_ATTENUATION in fs <==> attenuation)
    ensures Sized(CodeWidths, fs) && Sized(DocumentedWidths, fs)
    ensures Extents(CodeWidths, next, fs) == Extents(DocumentedWidths, next, fs)
       <==> !attenuation && (fhss ==> EvenAtFhss(next, tsft, flags, rate, channel))
  {
    FieldsAgreeIff(next, fs);
    if FHSS in fs {
      FhssCursor(next, fs);
    }
  }

  lemma FieldsOfWord(w: bv32, bits: seq<nat>)
    requires bits == SetBits(w, 0)
    ensures var fs := FieldsOf(bits, 0);
            && AllKnown(fs) && Ascending(fs)
            && (0 in fs <==> WordBit(w, 0)) && (1 in fs <==> WordBit(w, 1)) && (2 in fs <==> WordBit(w, 2))
            && (3 in fs <==> WordBit(w, 3)) && (FHSS in fs <==> WordBit(w, FHSS))
            && (DB_TX_ATTENUATION in fs <==> WordBit(w, DB_TX_ATTENUATION))
  {
    FieldOfWord(w, bits, 0);
    FieldOfWord(w, bits, 1);
    FieldOfWord(w, bits, 2);
    FieldOfWord(w, bits, 3);
    FieldOfWord(w, bits, FHSS);
    FieldOfWord(w, bits, DB_TX_ATTENUATION);
    PlanIsFlat(bits, 0);
    FieldsAscend(bits, 0);
  }

  /** For which presence words, at the start of the namespace, every field is read where the comments put it: those
      without the attenuation in dB, and without frequency hopping parameters at an odd offset. */
  lemma WordAgreesIff(next: nat, w: bv32, bits: seq<nat>, fs: seq<nat>)
    requires bits == SetBits(w, 0) && fs == FieldsOf(bits, 0)
    ensures Sized(CodeWidths, fs) && Sized(DocumentedWidths, fs)
    ensures Extents(CodeWidths, next, fs) == Extents(DocumentedWidths, next, fs)
       <==> && !WordBit(w, DB_TX_ATTENUATION)
            && (WordBit(w, FHSS) ==> EvenAtFhss(next, WordBit(w, 0), WordBit(w, 1), WordBit(w, 2), WordBit(w, 3)))
  {
    FieldsOfWord(w, bits);
    FieldsAgreeByMembers(next, fs, WordBit(w, 0), WordBit(w, 1), WordBit(w, 2), WordBit(w, 3), WordBit(w, FHSS),
                         WordBit(w, DB_TX_ATTENUATION));
  }

  /** The other words of a namespace name no field that is read. */
  lemma LaterWordsReadNothing(bits: seq<nat>, bit0: nat)
    requires bit0 >= 32
    ensures FieldsOf(bits, bit0) == [] && PlanOf(bits, bit0).widths == []
  {
  }

  /** The numbers of some fields, laid out, take up the extents of the fields. */
  lemma FlatIsLaid(widths: Widths, next: nat, fs: seq<nat>)
    requires Sized(widths, fs) && fs != []
    ensures Sized(widths, fs[1..])
    ensures var ws := widths(fs[0]);
            Laid(next, Flat(widths, fs)) == Laid(next, ws) + Laid(ExtentOf(next, ws).end, Flat(widths, fs[1..]))
  {
    LaidConcat(next, widths(fs[0]), Flat(widths, fs[1..]));
  }

  /** A presence word with the attenuation in dB and the power in dBm. */
  const ATTENUATION_AND_POWER: bv32 := 0x600

  lemma AttenuationBits(w: bv32)
    requires w == ATTENUATION_AND_POWER
    ensures SetBits(w, 0) == [9, 10]
  {
    var rest: bv32 := 0x400;
    assert ClearLow(w) == rest && LowBit(w) == 0x200 && BitNo32(0x200) == 9;
    assert ClearLow(rest) == 0 && LowBit(rest) == 0x400 && BitNo32(0x400) == 10;
    NextBit(w);
    NextBit(rest);
    NoBits(0);
    TwoBits(SetBits(w, 0), 9, 10);
  }

  lemma TwoBits(bits: seq<nat>, a: nat, b: nat)
    requires bits != [] && bits[0] == a && bits[1..] != [] && bits[1..][0] == b && bits[1..][1..] == []
    ensures bits == [a, b]
  {
  }

  lemma AttenuationPlan(bits: seq<nat>)
    requires bits == [9, 10]
    ensures PlanOf(bits, 0) == Plan([1, 1], true)
  {
    var rest := bits[1..];
    assert rest == [10] && rest[1..] == [];
    assert PlanOf(rest[1..], 0) == Plan([], true);
    assert PlanOf(rest, 0) == Plan([1], true);
  }

  lemma TwoOctetsFit(len: nat, next: nat, ws: seq<nat>)
    requires ws == [1, 1] && next + 2 <= len
    ensures Fitting(len, next, ws) == [Read(next, 1), Read(next + 1, 1)]
  {
    OneOctet(len, next, ws);
    OneOctet(len, next + 1, ws[1..]);
    assert ws[1..][1..] == [];
  }

  lemma PairThenOctet(ws: seq<nat>)
    requires ws == [2, 1]
    ensures Positive(ws) && Laid(8, ws) == [Read(8, 2), Read(10, 1)]
  {
    assert ws[1..] == [1] && [1][1..] == [];
    assert Laid(10, [1]) == [Read(10, 1)];
  }

  /** A header in which it shows: right after one presence word the code reads two octets, and the comments put a
      16-bit number and an octet there. */
  lemma AttenuationExample(buf: seq<Octet>, len: nat, words: seq<bv32>)
    requires len >= 10 && words == [ATTENUATION_AND_POWER]
    ensures WalkOf(buf, len, 8, words).trace == [Read(8, 1), Read(9, 1)]
    ensures Laid(8, DocumentedWidths(9) + DocumentedWidths(10)) == [Read(8, 2), Read(10, 1)]
  {
    var w := words[0];
    assert SwitchOf(w) == Stay;
    HeaderIsOneReading(buf, len, 8, words);
    AttenuationBits(w);
    AttenuationPlan(SetBits(w, 0));
    OneWordPlan(words);
    TwoOctetsFit(len, 8, PlanOf(SetBits(w, 0), 0).widths);
    PairThenOctet(DocumentedWidths(9) + DocumentedWidths(10));
  }

  lemma OneWordPlan(words: seq<bv32>)
    requires |words| == 1
    ensures HeaderPlan(words) == PlanOf(SetBits(words[0], 0), 0)
  {
    var none := words[..0];
    assert HeaderPlan(none) == Plan([], true) && Base(none) == 0;
    var plan := PlanOf(SetBits(words[0], 0), 0);
    assert [] + plan.widths == plan.widths;
  }

  lemma TwoExtents(widths: Widths, next: nat, fs: seq<nat>, e: Extent, f: Extent)
    requires |fs| == 2 && Sized(widths, fs)
    requires ExtentOf(next, widths(fs[0])) == e && ExtentOf(e.end, widths(fs[1])) == f
    ensures Extents(widths, next, fs) == [e, f]
  {
    ExtentsCons(widths, next, fs);
    ExtentsCons(widths, e.end, fs[1..]);
  }

  /** And with the flags before the frequency hopping parameters, these are read one octet too early. */
  lemma FhssExample(fs: seq<nat>)
    requires fs == [1, FHSS]
    ensures Sized(CodeWidths, fs) && Sized(DocumentedWidths, fs)
    ensures Extents(CodeWidths, 8, fs) == [Extent(8, 9), Extent(9, 11)]
    ensures Extents(DocumentedWidths, 8, fs) == [Extent(8, 9), Extent(10, 12)]
  {
    KnownIsSized(fs);
    SpecialWidths();
    WidthsAgreeIff(1);
    assert CodeWidths(1) == [1];
    OneNumber(8, 1);
    TwoOctets(9);
    OneNumber(9, 2);
    TwoExtents(CodeWidths, 8, fs, Extent(8, 9), Extent(9, 11));
    TwoExtents(DocumentedWidths, 8, fs, Extent(8, 9), Extent(10, 12));
  }

  lemma FlagsBit(w: bv32)
    requires w == 2
    ensures SetBits(w, 0) == [1] && !Extended(w) && SwitchOf(w) == Stay
  {
    assert ClearLow(w) == 0 && LowBit(w) == 2 && BitNo32(2) == 1;
    NextBit(w);
    NoBits(0);
    OnlyBit(SetBits(w, 0), 1);
  }

  lemma OnlyBit(bits: seq<nat>, a: nat)
    requires bits != [] && bits[0] == a && bits[1..] == []
    ensures bits == [a]
  {
  }

  lemma FlagsWord(buf: seq<Octet>)
    requires |buf| >= 8 && buf[4..8] == [2, 0, 0, 0]
    ensures Word(buf, 0) == 2
  {
    assert Wide(2) == 2 && Wide(0) == 0;
  }

  lemma FlagsOnlyPlan(bits: seq<nat>)
    requires bits == [1]
    ensures PlanOf(bits, 0) == Plan([1], true)
  {
    assert bits[1..] == [] && FieldWidths(1) == Some([1]);
  }

  /** A whole header, from its octets: with the presence octets 2, 0, 0, 0 the flags are read at offset 8, and
      nothing else is. */
  lemma FlagsHeader(buf: seq<Octet>, len: nat, words: seq<bv32>)
    requires 9 <= len <= |buf| && buf[4..8] == [2, 0, 0, 0] && Presence(buf, len, words)
    ensures |words| == 1 && WalkOf(buf, len, 8, words) == Walk(9, [Read(8, 1)], 0, true)
  {
    FlagsWord(buf);
    FlagsBit(words[0]);
    FlagsOnlyPlan(SetBits(words[0], 0));
    HeaderIsOneReading(buf, len, 8, words);
    OneWordPlan(words);
    OneOctet(len, 8, [1]);
    assert [1][1..] == [];
  }

  /** The same through the code, for every header of nine octets with those presence octets. */
  method FlagsOnly(p: seq<Octet>) returns (s: CpackState?)
    requires |p| >= 9 && p[2] == 9 && p[3] == 0 && p[4..8] == [2, 0, 0, 0]
    ensures s != null && s.cNext == 9 && s.trace == [Read(8, 1)]
  {
    ghost var words;
    FlagsWord(p);
    FlagsBit(Word(p, 0));
    s, words := RadioPrint(p);
    FlagsHeader(p, 9, words);
  }
}
