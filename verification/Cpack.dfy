/** The aligned cursor of tcpdump/cpack.c. Positions are offsets from the start of the buffer. */
module Cpack {
  import opened Octets
  import opened Options

  /** The first offset from p on that is a multiple of the alignment. */
  function NextBoundary(p: nat, alignment: nat): (r: nat)
    requires alignment > 0
    ensures p <= r < p + alignment
  {
    var misalignment := p % alignment;
    if misalignment == 0 then p else p + (alignment - misalignment)
  }

  /** Quotient and remainder are unique. */
  lemma ModUnique(x: nat, m: nat, q: nat, r: nat)
    requires m > 0 && x == m * q + r && r < m
    ensures x % m == r && x / m == q
  {
    var q', r' := x / m, x % m;
    assert m * q' + r' == m * q + r;
    if q' < q {
      StrictlyMore(m, q', q);
      assert false;
    } else if q' > q {
      StrictlyMore(m, q, q');
      assert false;
    }
  }

  lemma {:induction false} StrictlyMore(m: nat, a: nat, b: nat)
    requires a < b
    ensures m * a + m <= m * b
  {
    assert m * b == m * (b - 1) + m;
    if a < b - 1 {
      StrictlyMore(m, a, b - 1);
    }
  }

  lemma BoundaryIsAligned(p: nat, alignment: nat)
    requires alignment > 0
    ensures NextBoundary(p, alignment) % alignment == 0
  {
    var q := p / alignment;
    assert p + (alignment - p % alignment) == alignment * (q + 1) + 0;
    ModUnique(p + (alignment - p % alignment), alignment, q + 1, 0);
  }

  /** No multiple of the alignment lies between a position and its next boundary. */
  lemma NextBoundaryIsNext(p: nat, alignment: nat, other: nat)
    requires alignment > 0 && other >= p && other % alignment == 0
    ensures NextBoundary(p, alignment) <= other
  {
    var r := NextBoundary(p, alignment);
    BoundaryIsAligned(p, alignment);
    if other < r {
      StrictlyMore(alignment, other / alignment, r / alignment);
    }
  }

  /** A read of `width` octets at an offset. */
  datatype Read = Read(offset: nat, width: nat)

  /** The number `s` writes, least significant octet first. */
  function LittleNumber(s: seq<Octet>): nat {
    if s == [] then 0 else s[0] + 256 * LittleNumber(s[1..])
  }

  /** A number without its i lowest octets. */
  function WithoutOctets(v: nat, i: nat): nat
    decreases i
  {
    if i == 0 then v else WithoutOctets(v / 256, i - 1)
  }

  /** Octet i of what is read is octet i of the number, counted from the least significant, and there are no more. */
  lemma {:induction false} OctetOfNumber(s: seq<Octet>, i: nat)
    requires i <= |s|
    ensures WithoutOctets(LittleNumber(s), |s|) == 0
    ensures i < |s| ==> WithoutOctets(LittleNumber(s), i) % 256 == s[i]
    decreases s
  {
    if s != [] {
      assert LittleNumber(s) % 256 == s[0] && LittleNumber(s) / 256 == LittleNumber(s[1..]);
      OctetOfNumber(s[1..], if i == 0 then 0 else i - 1);
    }
  }

  lemma PairNumber(s: seq<Octet>)
    requires |s| == 2
    ensures LittleNumber(s) == s[0] as int + 256 * s[1] as int
  {
    assert LittleNumber(s[1..]) == s[1] + 256 * LittleNumber(s[1..][1..]);
  }

  class CpackState {
    const buf: seq<Octet>
    const cLen: nat
    var cNext: nat
    /** The reads so far. */
    ghost var trace: seq<Read>

    ghost predicate Valid()
      reads this
    {
      cNext <= cLen <= |buf|
    }

    constructor (buf: seq<Octet>, len: nat)
      requires len <= |buf|
      ensures Valid() && this.buf == buf && cLen == len && cNext == 0 && trace == []
    {
      this.buf := buf;
      cLen := len;
      cNext := 0;
      trace := [];
    }

    /** The least aligned offset from the cursor on, if it has room for the word; none at all has room otherwise. */
    method AlignAndReserve(wordsize: nat) returns (r: Option<nat>)
      requires Valid() && wordsize > 0
      ensures r.Some? ==> cNext <= r.value && r.value % wordsize == 0 && r.value + wordsize <= cLen
      ensures r.Some? ==> forall p :: cNext <= p < r.value ==> p % wordsize != 0
      ensures r.None? ==> forall p :: cNext <= p && p % wordsize == 0 ==> p + wordsize > cLen
      ensures var next := NextBoundary(cNext, wordsize); r == if next + wordsize <= cLen then Some(next) else None
    {
      var next := NextBoundary(cNext, wordsize);
      BoundaryIsAligned(cNext, wordsize);
      forall p | cNext <= p && p % wordsize == 0
        ensures next <= p
      {
        NextBoundaryIsNext(cNext, wordsize, p);
      }
      if next + wordsize > cLen {
        return None;
      }
      return Some(next);
    }

    method Advance(toskip: nat) returns (ok: bool)
      requires Valid()
      modifies this`cNext
      ensures Valid() && (ok <==> old(cNext) + toskip <= cLen)
      ensures cNext == if ok then old(cNext) + toskip else old(cNext)
    {
      if cNext + toskip > cLen {
        return false;
      }
      cNext := cNext + toskip;
      return true;
    }

    /** Unpacks an unsigned number: at its own alignment, little-endian; fails without moving if the
        number does not fit before the end of the buffer. */
    method Unpack(width: nat) returns (ok: bool, value: nat)
      requires Valid() && width > 0
      modifies this
      ensures Valid()
      ensures var offset := NextBoundary(old(cNext), width);
              && (ok <==> offset + width <= cLen)
              && (ok ==> cNext == offset + width && trace == old(trace) + [Read(offset, width)])
              && (ok ==> value == LittleNumber(buf[offset..offset + width]))
              && (!ok ==> cNext == old(cNext) && trace == old(trace))
    {
      var next := AlignAndReserve(width);
      if next == None {
        return false, 0;
      }
      ok, value := true, LittleNumber(buf[next.value..next.value + width]);
      trace := trace + [Read(next.value, width)];
      cNext := next.value + width;
    }
  }
}
