/** The Internet checksum of tcpdump/in_cksum.c, and the plain definition in section 1 of RFC 1071. */
module InternetChecksum {
  import opened Octets
  import opened Options

  // ----- RFC 1071 -----

  /** One's-complement addition: a 16-bit sum with end-around carry. */
  function OnesAdd(a: Word16, b: Word16): Word16 {
    if a + b > 65535 then a + b - 65535 else a + b
  }

  /** One's-complement sum of the big-endian words of `s`, an odd last octet padded with zero. */
  function OnesSum(s: seq<Octet>): Word16 {
    if |s| == 0 then 0
    else if |s| == 1 then Load16(BigEndian, s[0], 0)
    else OnesAdd(Load16(BigEndian, s[0], s[1]), OnesSum(s[2..]))
  }

  /** What the checksum routine promises: the word whose octets in memory are the complement of the sum. */
  function Checksum(order: ByteOrder, s: seq<Octet>): Word16 {
    Ntohs(order, 65535 - OnesSum(s))
  }

  // ----- Arithmetic modulo 65535, keeping zero apart -----

  /** The 16-bit one's-complement value of a sum. Only zero folds to zero. */
  function Fold(n: nat): (r: Word16)
    ensures n == 0 <==> r == 0
    ensures r <= n
  {
    if n <= 65535 then n else Fold(n - 65535)
  }

  /** `a` and `b` fold to the same value. */
  predicate SameSum(a: nat, b: nat) {
    Fold(a) == Fold(b)
  }

  lemma {:induction false} FoldSteps(n: nat, k: nat)
    requires n > 0
    ensures Fold(n + 65535 * k) == Fold(n)
  {
    if k > 0 {
      FoldSteps(n, k - 1);
    }
  }

  lemma {:induction false} FoldQuotient(n: nat) returns (k: nat)
    ensures n == Fold(n) + 65535 * k
  {
    if n <= 65535 {
      k := 0;
    } else {
      k := FoldQuotient(n - 65535);
      k := k + 1;
    }
  }

  lemma SameSumAdd(a: nat, b: nat, c: nat)
    requires SameSum(a, b)
    ensures SameSum(a + c, b + c)
  {
    if a != 0 {
      var j := FoldQuotient(a);
      var k := FoldQuotient(b);
      FoldSteps(Fold(a) + c, j);
      FoldSteps(Fold(a) + c, k);
    }
  }

  lemma SameSumTimes256(a: nat, b: nat)
    requires SameSum(a, b)
    ensures SameSum(256 * a, 256 * b)
  {
    if a != 0 {
      var j := FoldQuotient(a);
      var k := FoldQuotient(b);
      FoldSteps(256 * Fold(a), 256 * j);
      FoldSteps(256 * Fold(a), 256 * k);
    }
  }

  /** Since 256 * 256 is one more than 65535, two shifts by eight cancel. */
  lemma Times65536(n: nat)
    ensures SameSum(65536 * n, n)
  {
    if n != 0 {
      FoldSteps(n, n);
    }
  }

  /** The REDUCE macro: add the two 16-bit halves of the accumulator, then ADDCARRY. */
  function Reduce(sum: Word32): (r: Word16)
    ensures r == Fold(sum)
  {
    var folded := sum % 0x1_0000 + sum / 0x1_0000;
    assert sum > 0 ==> Fold(sum) == Fold(folded) by {
      if sum > 0 {
        FoldSteps(folded, sum / 0x1_0000);
      }
    }
    if folded > 65535 then folded - 65535 else folded
  }

  // ----- The host-order sum as a weighted sum of octets -----

  /** Weight of an octet at an even or odd position of the stream in a word the host loads. */
  function Weight(order: ByteOrder, odd: bool): nat {
    if order.BigEndian? == odd then 1 else 256
  }

  function Weighted(order: ByteOrder, odd: bool, s: seq<Octet>): nat
    decreases s
  {
    if s == [] then 0 else Weight(order, odd) * s[0] + Weighted(order, !odd, s[1..])
  }

  lemma {:induction false} WeightedConcat(order: ByteOrder, odd: bool, a: seq<Octet>, b: seq<Octet>)
    ensures Weighted(order, odd, a + b) == Weighted(order, odd, a) + Weighted(order, odd != (|a| % 2 == 1), b)
    decreases a
  {
    if a == [] {
      assert a + b == b;
    } else {
      assert (a + b)[1..] == a[1..] + b;
      WeightedConcat(order, !odd, a[1..], b);
    }
  }

  /** The same for the octet in front. */
  lemma Times256SwapsFirst(heavy: bool, first: nat, rest: nat, swapped: nat)
    requires SameSum(256 * rest, swapped)
    ensures var w, v := if heavy then 256 else 1, if heavy then 1 else 256;
            SameSum(256 * (w * first + rest), v * first + swapped)
  {
    if heavy {
      SameSumAdd(256 * rest, swapped, 65536 * first);
      Times65536(first);
      SameSumAdd(65536 * first, first, swapped);
    } else {
      SameSumAdd(256 * rest, swapped, 256 * first);
    }
  }

  /** Multiplying by 256 exchanges the even and the odd weights. */
  lemma {:induction false} Times256Swaps(order: ByteOrder, odd: bool, s: seq<Octet>)
    ensures SameSum(256 * Weighted(order, odd, s), Weighted(order, !odd, s))
    decreases s
  {
    if s != [] {
      Times256Swaps(order, !odd, s[1..]);
      Times256SwapsFirst(order.BigEndian? != odd, s[0], Weighted(order, !odd, s[1..]), Weighted(order, odd, s[1..]));
    }
  }

  lemma WeightedPair(order: ByteOrder, s: seq<Octet>)
    requires |s| == 2
    ensures Weighted(order, false, s) == Load16(order, s[0], s[1])
  {
    WeightedOne(order, true, s[1..]);
  }

  lemma WeightedOne(order: ByteOrder, odd: bool, s: seq<Octet>)
    requires |s| == 1
    ensures Weighted(order, odd, s) == Weight(order, odd) * s[0]
  {
    assert s[1..] == [];
  }

  /** The RFC's folded sum is the big-endian weighted sum. */
  lemma {:induction false} OnesSumIsWeighted(s: seq<Octet>)
    ensures SameSum(OnesSum(s), Weighted(BigEndian, false, s))
  {
    if |s| == 1 {
      WeightedOne(BigEndian, false, s);
    } else if |s| > 1 {
      assert s == s[..2] + s[2..];
      WeightedConcat(BigEndian, false, s[..2], s[2..]);
      WeightedPair(BigEndian, s[..2]);
      OnesSumIsWeighted(s[2..]);
      var head := Load16(BigEndian, s[0], s[1]);
      SameSumAdd(OnesSum(s[2..]), Weighted(BigEndian, false, s[2..]), head);
    }
  }

  /** Exchanging the octets of a word multiplies it by 256 in one's-complement arithmetic. */
  lemma SwapIsTimes256(w: Word16)
    ensures SameSum(256 * w, Ntohs(LittleEndian, w))
  {
    if w != 0 {
      FoldSteps(Ntohs(LittleEndian, w), w / 256);
    }
  }

  lemma SwapOctets(high: Octet, low: Octet)
    ensures Ntohs(LittleEndian, Load16(BigEndian, high, low)) == Load16(BigEndian, low, high)
  {
  }

  lemma ComplementSwaps(w: Word16)
    ensures 65535 - w == Ntohs(LittleEndian, 65535 - Ntohs(LittleEndian, w))
  {
    var high: Octet, low: Octet := w / 256, w % 256;
    SwapOctets(high, low);
    SwapOctets(255 - low, 255 - high);
  }

  /** Byte-order independence: the folded host-order sum, put in network order, is the RFC's sum. */
  lemma FoldedIsOnesSum(order: ByteOrder, folded: Word16, s: seq<Octet>)
    requires SameSum(folded, Weighted(order, false, s))
    ensures 65535 - folded == Checksum(order, s)
  {
    OnesSumIsWeighted(s);
    if order.LittleEndian? {
      var swapped := Ntohs(LittleEndian, folded);
      assert SameSum(swapped, Weighted(BigEndian, false, s)) by {
        SwapIsTimes256(folded);
        SameSumTimes256(folded, Weighted(LittleEndian, false, s));
        Times256Swaps(LittleEndian, false, s);
        WeightedOrders(true, s);
      }
      ComplementSwaps(folded);
    } else {
    }
  }

  lemma {:induction false} WeightedOrders(odd: bool, s: seq<Octet>)
    ensures Weighted(LittleEndian, odd, s) == Weighted(BigEndian, !odd, s)
    decreases s
  {
    if s != [] {
      WeightedOrders(!odd, s[1..]);
    }
  }

  // ----- The routine -----

  /** One entry of the vector: its octets, and whether it starts at an odd address. */
  datatype Chunk = Chunk(octets: seq<Octet>, oddAddress: bool)

  function Flatten(vec: seq<Chunk>): seq<Octet> {
    if vec == [] then [] else Flatten(vec[..|vec| - 1]) + vec[|vec| - 1].octets
  }

  /** Whether a chunk that follows `before` octets enters the byte-swapped path. */
  predicate Swaps(before: nat, chunk: Chunk) {
    |chunk.octets| > before % 2 && chunk.oddAddress == (before % 2 == 0)
  }

  predicate NeverSwaps(vec: seq<Chunk>) {
    vec != [] ==>
      && NeverSwaps(vec[..|vec| - 1])
      && !Swaps(|Flatten(vec[..|vec| - 1])|, vec[|vec| - 1])
  }

  /** The values of the accumulator, a signed 32-bit int, that are not negative. */
  type Accumulator = x: int | 0 <= x < 0x8000_0000

  /** What the accumulator and the saved octet stand for after the octets `done`. The variable mlen
      is -1 exactly while an octet is pending. */
  ghost predicate Carries(order: ByteOrder, sum: Accumulator, mlen: int, saved: Octet, done: seq<Octet>) {
    && (mlen == -1 <==> |done| % 2 == 1)
    && SameSum(sum + (if mlen == -1 then Load16(order, saved, 0) else 0), Weighted(order, false, done))
  }

  /** Words the accumulator may have to hold once it stands for `octets` octets: a shift by eight is
      worth 256 words, and an odd last octet is padded. */
  function Capacity(octets: nat, swaps: bool): nat {
    65535 * ((octets + 1) / 2 + if swaps then 256 else 0)
  }

  /** Loading one more word extends the sum over s[from..w]. */
  lemma AddWord(order: ByteOrder, s: seq<Octet>, from: nat, w: nat, n: nat)
    requires w == from + 2 * n && w + 2 <= |s|
    ensures Weighted(order, false, s[from..w + 2])
         == Weighted(order, false, s[from..w]) + Load16(order, s[w], s[w + 1])
  {
    assert s[from..w + 2] == s[from..w] + s[w..w + 2];
    WeightedConcat(order, false, s[from..w], s[w..w + 2]);
    WeightedPair(order, s[w..w + 2]);
  }

  lemma AddTwoWords(order: ByteOrder, s: seq<Octet>, from: nat, w: nat, n: nat)
    requires w == from + 2 * n && w + 4 <= |s|
    ensures Weighted(order, false, s[from..w + 4])
         == Weighted(order, false, s[from..w]) + Load16(order, s[w], s[w + 1]) + Load16(order, s[w + 2], s[w + 3])
  {
    AddWord(order, s, from, w, n);
    AddWord(order, s, from, w + 2, n + 1);
  }

  /** One source line of an unrolled loop: the four words from octet `w` on. */
  function FourWords(order: ByteOrder, s: seq<Octet>, w: nat): (r: nat)
    requires w + 8 <= |s|
    ensures r <= 4 * 65535
  {
    Load16(order, s[w], s[w + 1]) + Load16(order, s[w + 2], s[w + 3])
    + Load16(order, s[w + 4], s[w + 5]) + Load16(order, s[w + 6], s[w + 7])
  }

  lemma AddFourWords(order: ByteOrder, s: seq<Octet>, from: nat, w: nat, n: nat)
    requires w == from + 2 * n && w + 8 <= |s|
    ensures Weighted(order, false, s[from..w + 8]) == Weighted(order, false, s[from..w]) + FourWords(order, s, w)
  {
    AddTwoWords(order, s, from, w, n);
    AddTwoWords(order, s, from, w + 4, n + 2);
  }

  /** After n words from `start`, with `mlen` octets of the chunk left, the accumulator is exact. */
  ghost predicate Summed(order: ByteOrder, s: seq<Octet>, start: nat, w: nat, n: nat, mlen: int, sumIn: nat, sum: nat) {
    && w == start + 2 * n <= |s|
    && mlen == |s| - w
    && sum == sumIn + Weighted(order, false, s[start..w])
    && sum <= sumIn + 65535 * n
  }

  lemma SummedFour(order: ByteOrder, s: seq<Octet>, start: nat, w: nat, n: nat, mlen: int, sumIn: nat, sum: nat,
                   room: nat)
    requires Summed(order, s, start, w, n, mlen, sumIn, sum) && mlen >= 8 && |s| <= start + 2 * room + 1
    ensures sum + FourWords(order, s, w) <= sumIn + 65535 * room
    ensures Summed(order, s, start, w + 8, n + 4, mlen - 8, sumIn, sum + FourWords(order, s, w))
  {
    AddFourWords(order, s, start, w, n);
  }

  function EightWords(order: ByteOrder, s: seq<Octet>, w: nat): (r: nat)
    requires w + 16 <= |s|
    ensures r <= 8 * 65535
  {
    FourWords(order, s, w) + FourWords(order, s, w + 8)
  }

  lemma SummedEight(order: ByteOrder, s: seq<Octet>, start: nat, w: nat, n: nat, mlen: int, sumIn: nat, sum: nat,
                    room: nat)
    requires Summed(order, s, start, w, n, mlen, sumIn, sum) && mlen >= 16 && |s| <= start + 2 * room + 1
    ensures sum + EightWords(order, s, w) <= sumIn + 65535 * room
    ensures Summed(order, s, start, w + 16, n + 8, mlen - 16, sumIn, sum + EightWords(order, s, w))
  {
    SummedFour(order, s, start, w, n, mlen, sumIn, sum, room);
    SummedFour(order, s, start, w + 8, n + 4, mlen - 8, sumIn, sum + FourWords(order, s, w), room);
  }

  /** One pass of the first unrolled loop. */
  function SixteenWords(order: ByteOrder, s: seq<Octet>, w: nat): (r: nat)
    requires w + 32 <= |s|
    ensures r <= 16 * 65535
  {
    EightWords(order, s, w) + EightWords(order, s, w + 16)
  }

  lemma SummedSixteen(order: ByteOrder, s: seq<Octet>, start: nat, w: nat, n: nat, mlen: int, sumIn: nat, sum: nat,
                      room: nat)
    requires Summed(order, s, start, w, n, mlen, sumIn, sum) && mlen >= 32 && |s| <= start + 2 * room + 1
    ensures sum + SixteenWords(order, s, w) <= sumIn + 65535 * room
    ensures Summed(order, s, start, w + 32, n + 16, mlen - 32, sumIn, sum + SixteenWords(order, s, w))
  {
    SummedEight(order, s, start, w, n, mlen, sumIn, sum, room);
    SummedEight(order, s, start, w + 16, n + 8, mlen - 16, sumIn, sum + EightWords(order, s, w), room);
  }

  /** A sum that leaves the range of the accumulator. */
  predicate Overflows(sum: nat) { sum >= 0x8000_0000 }

  /** The first unrolled loop; mlen ends below zero, or the sum of the words up to octet w overflows. */
  method SumSixteens(order: ByteOrder, s: seq<Octet>, start: nat, sumIn: Accumulator, mlenIn: int, ghost room: nat)
    returns (ok: bool, sum: Accumulator, w: nat, mlen: int, ghost n: nat)
    requires start <= |s| <= start + 2 * room + 1 && mlenIn == |s| - start - 32
    ensures start <= w <= |s|
    ensures ok ==> Summed(order, s, start, w, n, mlen + 32, sumIn, sum) && mlen < 0
    ensures !ok ==> Overflows(sumIn + Weighted(order, false, s[start..w])) && Overflows(sumIn + 65535 * room)
  {
    ok, sum, w, mlen, n := true, sumIn, start, mlenIn, 0;
    while mlen >= 0
      invariant Summed(order, s, start, w, n, mlen + 32, sumIn, sum)
    {
      SummedSixteen(order, s, start, w, n, mlen + 32, sumIn, sum, room);
      var words := SixteenWords(order, s, w);
      w, n, mlen := w + 32, n + 16, mlen - 32;
      if Overflows(sum + words) {
        return false, sum, w, mlen, n;
      }
      sum := sum + words;
    }
  }

  /** The second unrolled loop, from octet w on. */
  method SumFours(order: ByteOrder, s: seq<Octet>, ghost start: nat, ghost sumIn: nat, wIn: nat, base: Accumulator,
                  mlenIn: int, ghost nIn: nat, ghost room: nat)
    returns (ok: bool, sum: Accumulator, w: nat, mlen: int, ghost n: nat)
    requires start <= |s| <= start + 2 * room + 1 && Summed(order, s, start, wIn, nIn, mlenIn + 8, sumIn, base)
    ensures start <= w <= |s|
    ensures ok ==> Summed(order, s, start, w, n, mlen + 8, sumIn, sum) && mlen < 0
    ensures !ok ==> Overflows(sumIn + Weighted(order, false, s[start..w])) && Overflows(sumIn + 65535 * room)
  {
    ok, sum, w, mlen, n := true, base, wIn, mlenIn, nIn;
    while mlen >= 0
      invariant Summed(order, s, start, w, n, mlen + 8, sumIn, sum)
    {
      SummedFour(order, s, start, w, n, mlen + 8, sumIn, sum, room);
      var words := FourWords(order, s, w);
      w, n, mlen := w + 8, n + 4, mlen - 8;
      if Overflows(sum + words) {
        return false, sum, w, mlen, n;
      }
      sum := sum + words;
    }
  }

  /** The two unrolled loops, which never fold. They leave fewer than eight octets, or the sum of the words up to
      octet w overflows. */
  method SumUnrolled(order: ByteOrder, s: seq<Octet>, start: nat, sumIn: Accumulator, ghost room: nat)
    returns (ok: bool, sum: Accumulator, w: nat, mlen: int, ghost n: nat)
    requires start <= |s| <= start + 2 * room + 1
    ensures start <= w <= |s|
    ensures ok ==> Summed(order, s, start, w, n, mlen, sumIn, sum) && mlen < 8
    ensures !ok ==> Overflows(sumIn + Weighted(order, false, s[start..w])) && Overflows(sumIn + 65535 * room)
  {
    ok, sum, w, mlen, n := SumSixteens(order, s, start, sumIn, |s| - start - 32, room);
    mlen := mlen + 32;
    if ok {
      ok, sum, w, mlen, n := SumFours(order, s, start, sumIn, w, sum, mlen - 8, n, room);
      mlen := mlen + 8;
    }
  }

  /** The last loop of a chunk, over the words left by the unrolled loops; mlen ends at -1 or -2. */
  method SumPairs(order: ByteOrder, s: seq<Octet>, start: nat, sumIn: Accumulator, ghost room: nat)
    returns (ok: bool, sum: Accumulator, w: nat, mlen: int, ghost n: nat)
    requires start <= |s| <= start + 2 * room + 1
    ensures ok ==> Summed(order, s, start, w, n, mlen + 2, sumIn, sum) && -2 <= mlen < 0
    ensures !ok ==> Overflows(sumIn + 65535 * room)
  {
    ok, sum, w, mlen, n := true, sumIn, start, |s| - start, 0;
    mlen := mlen - 2;
    while mlen >= 0
      invariant Summed(order, s, start, w, n, mlen + 2, sumIn, sum)
    {
      AddWord(order, s, start, w, n);
      assert n + 1 <= room;
      var word := Load16(order, s[w], s[w + 1]);
      if Overflows(sum + word) {
        return false, sum, w, mlen, n;
      }
      sum := sum + word;
      w, n := w + 2, n + 1;
      mlen := mlen - 2;
    }
  }

  /** Two passes over adjacent stretches add up. */
  lemma WeightedSplit(order: ByteOrder, s: seq<Octet>, from: nat, mid: nat, to: nat)
    requires from <= mid <= to <= |s| && (mid - from) % 2 == 0
    ensures Weighted(order, false, s[from..to])
         == Weighted(order, false, s[from..mid]) + Weighted(order, false, s[mid..to])
  {
    assert s[from..to] == s[from..mid] + s[mid..to];
    WeightedConcat(order, false, s[from..mid], s[mid..to]);
  }

  /** Value of the stream when a chunk continues it at octet `k`, so that `done` plus those k octets
      has even length, and s[k..w] are whole words. */
  lemma EvenStretch(order: ByteOrder, done: seq<Octet>, s: seq<Octet>, k: nat, w: nat)
    requires k <= w <= |s| && (|done| + k) % 2 == 0 && (w - k) % 2 == 0
    ensures Weighted(order, false, done + s)
         == Weighted(order, false, done + s[..k]) + Weighted(order, false, s[k..w]) + Weighted(order, false, s[w..])
  {
    ContinuesAt(order, done, s, k);
    assert s[k..] == s[k..w] + s[w..];
    WeightedConcat(order, false, s[k..w], s[w..]);
  }

  lemma ContinuesAt(order: ByteOrder, done: seq<Octet>, s: seq<Octet>, k: nat)
    requires k <= |s| && (|done| + k) % 2 == 0
    ensures Weighted(order, false, done + s)
         == Weighted(order, false, done + s[..k]) + Weighted(order, false, s[k..])
  {
    assert done + s == (done + s[..k]) + s[k..];
    WeightedConcat(order, false, done + s[..k], s[k..]);
  }

  lemma HeldBack(order: ByteOrder, s: seq<Octet>)
    requires s != []
    ensures Weighted(order, false, s) == Load16(order, s[0], 0) + Weighted(order, true, s[1..])
  {
  }

  /** The same when octet k is held back: the words s[k+1..w] then sit at odd positions. */
  lemma OddStretch(order: ByteOrder, done: seq<Octet>, s: seq<Octet>, k: nat, w: nat)
    requires k < w <= |s| && (|done| + k) % 2 == 0 && (w - k) % 2 == 1
    ensures Weighted(order, false, done + s)
         == Weighted(order, false, done + s[..k]) + Load16(order, s[k], 0)
            + Weighted(order, true, s[k + 1..w]) + Weighted(order, true, s[w..])
  {
    ContinuesAt(order, done, s, k);
    HeldBack(order, s[k..]);
    assert s[k..][1..] == s[k + 1..w] + s[w..];
    WeightedConcat(order, true, s[k + 1..w], s[w..]);
  }

  /** Shifting left by eight before and after a stretch read one octet off turns its words round. */
  lemma SwappedStretch(order: ByteOrder, sum: nat, t: seq<Octet>)
    ensures SameSum(256 * (256 * sum + Weighted(order, false, t)), sum + Weighted(order, true, t))
  {
    Times256Swaps(order, false, t);
    SameSumAdd(256 * Weighted(order, false, t), Weighted(order, true, t), 65536 * sum);
    Times65536(sum);
    SameSumAdd(65536 * sum, sum, Weighted(order, true, t));
  }

  /** The first octet of a chunk completes the word begun by the saved octet. */
  lemma PendingClosed(order: ByteOrder, sum: nat, saved: Octet, done: seq<Octet>, s: seq<Octet>)
    requires |done| % 2 == 1 && s != []
    requires SameSum(sum + Load16(order, saved, 0), Weighted(order, false, done))
    ensures SameSum(sum + Load16(order, saved, s[0]), Weighted(order, false, done + s[..1]))
  {
    WeightedConcat(order, false, done, s[..1]);
    WeightedOne(order, true, s[..1]);
    SameSumAdd(sum + Load16(order, saved, 0), Weighted(order, false, done), Weight(order, true) * s[0]);
  }

  /** At most one octet is left over after the words of a chunk. */
  lemma LeftOver(order: ByteOrder, s: seq<Octet>, w: nat)
    requires w <= |s| <= w + 1
    ensures Weighted(order, false, s[w..]) == if w < |s| then Load16(order, s[w], 0) else 0
    ensures var last := if w < |s| then s[w] else 0;
            forall x: Octet :: Load16(order, x, 0) + Weighted(order, true, s[w..]) == Load16(order, x, last)
  {
    if w < |s| {
      WeightedOne(order, false, s[w..]);
      WeightedOne(order, true, s[w..]);
    }
  }

  /** The start of a stretch of words, octets start.. of a chunk: `value` stands for the stream up to
      octet k, and on the byte-swapped path octet k is saved. */
  ghost predicate Begun(order: ByteOrder, done: seq<Octet>, s: seq<Octet>, k: nat, start: nat, swapped: bool,
                        saved: Octet, value: nat)
  {
    && k <= start <= |s| && (|done| + k) % 2 == 0
    && (if swapped then start == k + 1 && saved == s[k] else start == k)
    && SameSum(value, Weighted(order, false, done + s[..k]))
  }

  /** A chunk read on even addresses. */
  lemma EvenChunk(order: ByteOrder, done: seq<Octet>, s: seq<Octet>, k: nat, w: nat, saved: Octet, base: nat, sum: nat)
    requires Begun(order, done, s, k, k, false, saved, base)
    requires k <= w <= |s| <= w + 1 && (w - k) % 2 == 0
    requires SameSum(sum, base + Weighted(order, false, s[k..w]))
    ensures SameSum(sum + (if w < |s| then Load16(order, s[w], 0) else 0), Weighted(order, false, done + s))
  {
    EvenStretch(order, done, s, k, w);
    LeftOver(order, s, w);
    var stretch, rest := Weighted(order, false, s[k..w]), Weighted(order, false, s[w..]);
    SameSumAdd(base, Weighted(order, false, done + s[..k]), stretch + rest);
    SameSumAdd(sum, base + stretch, rest);
  }

  lemma TurnedSum(sum: nat, value: nat, before: nat, shifted: nat, turned: nat, last: nat)
    requires SameSum(sum, shifted) && SameSum(256 * shifted, value + turned) && SameSum(value, before)
    ensures SameSum(256 * sum + last, before + turned + last)
  {
    SameSumTimes256(sum, shifted);
    SameSumAdd(256 * sum, value + turned, last);
    SameSumAdd(value, before, turned + last);
  }

  /** A chunk read one octet off: the accumulator is shifted before and after. */
  lemma OddChunk(order: ByteOrder, done: seq<Octet>, s: seq<Octet>, k: nat, w: nat, saved: Octet, value: nat, sum: nat)
    requires Begun(order, done, s, k, k + 1, true, saved, value)
    requires k < w <= |s| <= w + 1 && (w - k) % 2 == 1
    requires SameSum(sum, 256 * value + Weighted(order, false, s[k + 1..w]))
    ensures SameSum(256 * sum + Load16(order, saved, if w < |s| then s[w] else 0), Weighted(order, false, done + s))
  {
    var t, before, rest := s[k + 1..w], Weighted(order, false, done + s[..k]), Weighted(order, true, s[w..]);
    var stretch, last := Weighted(order, true, t), Load16(order, saved, if w < |s| then s[w] else 0);
    assert Weighted(order, false, done + s) == before + stretch + last by {
      OddStretch(order, done, s, k, w);
      LeftOver(order, s, w);
    }
    SwappedStretch(order, value, t);
    TurnedSum(sum, value, before, 256 * value + Weighted(order, false, t), stretch, last);
  }

  /** The first octet of a chunk, if the chunk before left one pending. */
  method ClosePending(order: ByteOrder, s: seq<Octet>, sumIn: Accumulator, mlenIn: int, saved: Octet,
                      ghost done: seq<Octet>)
    returns (ok: bool, sum: Accumulator, w: nat, mlen: int)
    requires s != [] && Carries(order, sumIn, mlenIn, saved, done)
    ensures ok ==> w == |done| % 2 && mlen == |s| - w && sum <= sumIn + 65535 * w
    ensures ok ==> SameSum(sum, Weighted(order, false, done + s[..w]))
    ensures !ok ==> |done| % 2 == 1 && Overflows(sumIn + 65535)
  {
    ok, sum, w, mlen := true, sumIn, 0, |s|;
    if mlenIn == -1 {
      PendingClosed(order, sum, saved, done, s);
      var word := Load16(order, saved, s[0]);
      if Overflows(sum + word) {
        return false, sum, w, mlen;
      }
      sum := sum + word;
      w := 1;
      mlen := |s| - 1;
    } else {
      assert done + s[..0] == done;
    }
  }

  /** The start of a chunk: close a pending word, then force the read position to an even address. */
  method BeginChunk(order: ByteOrder, chunk: Chunk, sumIn: Accumulator, mlenIn: int, savedIn: Octet,
                    ghost done: seq<Octet>)
    returns (ok: bool, sum: Accumulator, w: nat, saved: Octet, byteSwapped: bool, ghost k: nat, ghost value: nat)
    requires chunk.octets != []
    requires Carries(order, sumIn, mlenIn, savedIn, done)
    ensures k == |done| % 2 && (!ok ==> k == 1 && Overflows(sumIn + 65535 * k))
    ensures ok ==> byteSwapped == Swaps(|done|, chunk)
    ensures ok ==> Begun(order, done, chunk.octets, k, w, byteSwapped, saved, value)
    ensures ok ==> sum == if byteSwapped then 256 * value else value
    ensures ok ==> value <= sumIn + 65535 * k && (byteSwapped ==> sum <= 65535 * 256)
  {
    var mlen;
    ok, sum, w, mlen := ClosePending(order, chunk.octets, sumIn, mlenIn, savedIn, done);
    saved, byteSwapped := savedIn, false;
    k, value := |done| % 2, sum;
    if ok && chunk.oddAddress != (w == 1) && mlen > 0 {
      sum := Reduce(sum);
      value := sum;
      sum := sum * 256;
      saved := chunk.octets[w];
      w := w + 1;
      byteSwapped := true;
    }
  }

  /** Folding between two stretches of words keeps the value of the whole stretch. */
  lemma Rejoined(order: ByteOrder, s: seq<Octet>, start: nat, mid: nat, w: nat, base: nat)
    requires start <= mid <= w <= |s| && (mid - start) % 2 == 0
    ensures SameSum(Fold(base + Weighted(order, false, s[start..mid])) + Weighted(order, false, s[mid..w]),
                    base + Weighted(order, false, s[start..w]))
  {
    var first := base + Weighted(order, false, s[start..mid]);
    SameSumAdd(Fold(first), first, Weighted(order, false, s[mid..w]));
    WeightedSplit(order, s, start, mid, w);
  }

  /** The words left by the unrolled loops, after a fold. */
  method SumRest(order: ByteOrder, s: seq<Octet>, mid: nat, sumIn: Accumulator, ghost room: nat)
    returns (ok: bool, sum: Accumulator, w: nat, mlen: int, ghost n: nat)
    requires mid <= |s| <= mid + 2 * room + 1
    ensures !ok ==> Overflows(sumIn + 65535 * room)
    ensures ok ==> w == mid + 2 * n && w <= |s| <= w + 1 && mlen == |s| - w - 2
    ensures ok ==> sum == Fold(sumIn) + Weighted(order, false, s[mid..w])
    ensures ok ==> sum <= sumIn + 65535 * room
  {
    sum := Reduce(sumIn);
    ok, sum, w, mlen, n := SumPairs(order, s, mid, sum, room);
    assert ok ==> n <= room;
  }

  /** The words of a chunk. Stops early where the source continues with the next chunk. */
  method SumWords(order: ByteOrder, s: seq<Octet>, start: nat, base: Accumulator, byteSwapped: bool, ghost room: nat)
    returns (ok: bool, sum: Accumulator, w: nat, mlen: int, ghost n: nat)
    requires start <= |s| <= start + 2 * room + 1
    ensures !ok ==> Overflows(base + 65535 * room)
    ensures ok ==> w == start + 2 * n && w <= |s| <= w + 1
    ensures ok ==> SameSum(sum, base + Weighted(order, false, s[start..w]))
    ensures ok ==> if w < |s| then mlen == -1 else mlen == -2 || (mlen == 0 && !byteSwapped)
    ensures ok ==> sum <= base + 65535 * room
  {
    ok, sum, w, mlen, n := SumUnrolled(order, s, start, base, room);
    if !ok || (mlen == 0 && !byteSwapped) {
      return;
    }
    assert sum <= base + 65535 * n && n <= room;
    ghost var mid, m := w, n;
    ok, sum, w, mlen, n := SumRest(order, s, w, sum, room - n);
    if ok {
      Rejoined(order, s, start, mid, w, base);
      n := m + n;
    }
  }

  /** The end of a chunk on the byte-swapped path: shift back, and use the saved octet or keep it. */
  method EndSwapped(order: ByteOrder, s: seq<Octet>, w: nat, mlenIn: int, sumIn: Accumulator, saved: Octet,
                    ghost done: seq<Octet>, ghost k: nat, ghost value: nat)
    returns (sum: Accumulator, mlen: int)
    requires Begun(order, done, s, k, k + 1, true, saved, value)
    requires k < w <= |s| <= w + 1 && (w - k) % 2 == 1 && (mlenIn == -1 <==> w < |s|)
    requires SameSum(sumIn, 256 * value + Weighted(order, false, s[k + 1..w]))
    ensures Carries(order, sum, mlen, saved, done + s)
    ensures sum <= 65535 * if w < |s| then 257 else 256
  {
    sum, mlen := Reduce(sumIn), mlenIn;
    OddChunk(order, done, s, k, w, saved, value, sum);
    sum := sum * 256;
    if mlen == -1 {
      sum := sum + Load16(order, saved, s[w]);
      mlen := 0;
    } else {
      mlen := -1;
    }
  }

  /** The end of a chunk otherwise: save an octet left over. */
  method EndEven(order: ByteOrder, s: seq<Octet>, w: nat, mlen: int, sum: Accumulator, savedIn: Octet,
                 ghost done: seq<Octet>, ghost k: nat, ghost value: nat)
    returns (saved: Octet)
    requires Begun(order, done, s, k, k, false, savedIn, value)
    requires k <= w <= |s| <= w + 1 && (w - k) % 2 == 0 && (mlen == -1 <==> w < |s|)
    requires SameSum(sum, value + Weighted(order, false, s[k..w]))
    ensures Carries(order, sum, mlen, saved, done + s)
  {
    saved := savedIn;
    EvenChunk(order, done, s, k, w, saved, value, sum);
    if mlen == -1 {
      saved := s[w];
    }
  }

  /** The end of a chunk. */
  method EndChunk(order: ByteOrder, s: seq<Octet>, start: nat, w: nat, mlenIn: int, sumIn: Accumulator, savedIn: Octet,
                  byteSwapped: bool, ghost done: seq<Octet>, ghost k: nat, ghost value: nat)
    returns (sum: Accumulator, mlen: int, saved: Octet)
    requires Begun(order, done, s, k, start, byteSwapped, savedIn, value)
    requires start <= w <= |s| <= w + 1 && (w - start) % 2 == 0 && (mlenIn == -1 <==> w < |s|)
    requires SameSum(sumIn, (if byteSwapped then 256 * value else value) + Weighted(order, false, s[start..w]))
    ensures Carries(order, sum, mlen, saved, done + s)
    ensures sum <= if byteSwapped then 65535 * (if w < |s| then 257 else 256) else sumIn
  {
    sum, mlen, saved := sumIn, mlenIn, savedIn;
    if byteSwapped {
      sum, mlen := EndSwapped(order, s, w, mlen, sum, saved, done, k, value);
    } else {
      saved := EndEven(order, s, w, mlen, sum, saved, done, k, value);
    }
  }

  /** The body of the loop over the vector, which adds `added` words. */
  method AddChunk(order: ByteOrder, chunk: Chunk, sumIn: Accumulator, mlenIn: int, savedIn: Octet,
                  ghost done: seq<Octet>, ghost added: nat, ghost limit: nat)
    returns (ok: bool, sum: Accumulator, mlen: int, saved: Octet)
    requires chunk.octets != []
    requires Carries(order, sumIn, mlenIn, savedIn, done)
    requires 2 * added <= |done| % 2 + |chunk.octets| <= 2 * added + 1
    requires sumIn <= limit && (Swaps(|done|, chunk) ==> 65535 * 256 <= limit)
    ensures ok ==> Carries(order, sum, mlen, saved, done + chunk.octets)
    ensures ok ==> sum <= limit + 65535 * added
    ensures !ok ==> Overflows(limit + 65535 * added)
  {
    var s, start, w, byteSwapped := chunk.octets, 0, 0, false;
    ghost var k, value, n;
    ok, sum, start, saved, byteSwapped, k, value := BeginChunk(order, chunk, sumIn, mlenIn, savedIn, done);
    mlen := 0;
    if !ok {
      return;
    }
    ok, sum, w, mlen, n := SumWords(order, s, start, sum, byteSwapped, added - k);
    if ok {
      sum, mlen, saved := EndChunk(order, s, start, w, mlen, sum, saved, byteSwapped, done, k, value);
    }
  }

  lemma {:induction false} FlattenPrefix(vec: seq<Chunk>, i: nat)
    requires i < |vec|
    ensures Flatten(vec[..i + 1]) == Flatten(vec[..i]) + vec[i].octets
    ensures |Flatten(vec[..i + 1])| <= |Flatten(vec)|
    ensures NeverSwaps(vec) ==> !Swaps(|Flatten(vec[..i])|, vec[i])
  {
    assert vec[..i + 1][..i] == vec[..i];
    if i + 1 == |vec| {
      assert vec[..i + 1] == vec;
    } else {
      var init := vec[..|vec| - 1];
      assert init[..i + 1] == vec[..i + 1] && init[..i] == vec[..i];
      FlattenPrefix(init, i);
    }
  }

  lemma WordsAdd(done: nat, more: nat)
    ensures done / 2 + (done % 2 + more) / 2 == (done + more) / 2
  {
  }

  lemma WithinCapacity(upTo: nat, total: nat, swaps: bool)
    requires upTo <= total
    ensures (if swaps then 65535 * 256 else 0) + 65535 * (upTo / 2) <= Capacity(total, swaps)
    ensures upTo % 2 == 1 ==> (if swaps then 65535 * 256 else 0) + 65535 * (upTo / 2) + 65535 <= Capacity(total, swaps)
  {
    assert upTo / 2 + upTo % 2 <= (total + 1) / 2;
  }

  /** The end of the routine: pad an odd last octet, fold and complement. */
  method FinishSum(order: ByteOrder, sumIn: Accumulator, mlen: int, saved: Octet, ghost done: seq<Octet>)
    returns (r: Option<Word16>)
    requires Carries(order, sumIn, mlen, saved, done)
    ensures r.Some? ==> r.value == Checksum(order, done)
    ensures r.None? ==> |done| % 2 == 1 && Overflows(sumIn + 65535)
  {
    var sum: Accumulator := sumIn;
    if mlen == -1 {
      var word: int := Load16(order, saved, 0);
      if Overflows(sum + word) {
        return None;
      }
      sum := sum + word;
    }
    sum := Reduce(sum);
    FoldedIsOnesSum(order, sum, done);
    r := Some(65535 - sum);
  }

  /** The checksum routine. However the packet is split over chunks, whatever their addresses and
      whatever the host's byte order, it computes the RFC's checksum of the whole packet, unless the
      accumulator leaves the range of a signed 32-bit int, when the source has no defined result. */
  method InCksum(vec: seq<Chunk>, order: ByteOrder) returns (r: Option<Word16>)
    ensures r.Some? ==> r.value == Checksum(order, Flatten(vec))
    ensures r.None? ==> Overflows(Capacity(|Flatten(vec)|, !NeverSwaps(vec)))
  {
    var ok, sum: Accumulator, mlen, saved: Octet, i := true, 0, 0, 0, 0;
    ghost var total, swaps, done := |Flatten(vec)|, !NeverSwaps(vec), [];
    ghost var slack, words := if swaps then 65535 * 256 else 0, 0;
    while i < |vec|
      invariant i <= |vec| && done == Flatten(vec[..i]) && |done| <= total
      invariant Carries(order, sum, mlen, saved, done)
      invariant words == |done| / 2 && sum <= slack + 65535 * words
    {
      FlattenPrefix(vec, i);
      if vec[i].octets != [] {
        ghost var added := (|done| % 2 + |vec[i].octets|) / 2;
        WordsAdd(|done|, |vec[i].octets|);
        WithinCapacity(|done + vec[i].octets|, total, swaps);
        ok, sum, mlen, saved := AddChunk(order, vec[i], sum, mlen, saved, done, added, slack + 65535 * words);
        if !ok {
          return None;
        }
        done, words := done + vec[i].octets, words + added;
      } else {
        assert done + [] == done;
      }
      i := i + 1;
    }
    assert vec[..i] == vec;
    WithinCapacity(|done|, total, swaps);
    r := FinishSum(order, sum, mlen, saved, done);
  }

  /** The packets for which the accumulator cannot overflow. */
  lemma CapacityLimits(octets: nat, swaps: bool)
    ensures !Overflows(Capacity(octets, swaps)) <==> octets <= if swaps then 65024 else 65536
  {
  }

  lemma {:induction false} AllOnes(order: ByteOrder, s: seq<Octet>, n: nat)
    requires |s| == 2 * n && forall i :: 0 <= i < |s| ==> s[i] == 0xff
    ensures Weighted(order, false, s) == 65535 * n
    decreases n
  {
    if n > 0 {
      assert s == s[..2] + s[2..];
      WeightedConcat(order, false, s[..2], s[2..]);
      WeightedPair(order, s[..2]);
      AllOnes(order, s[2..], n - 1);
    }
  }

  /** That limit is sharp. Of an aligned chunk of 65,544 octets, all ones, the unrolled loops add up words that do
      not fit. */
  lemma CapacityIsSharp(order: ByteOrder, s: seq<Octet>, w: nat, n: nat, mlen: int, sum: nat)
    requires |s| == 65544 && forall i :: 0 <= i < |s| ==> s[i] == 0xff
    requires Summed(order, s, 0, w, n, mlen, 0, sum) && mlen < 8 && mlen % 8 == 0
    ensures Overflows(sum) && NeverSwaps([Chunk(s, false)])
  {
    assert s[0..w] == s;
    AllOnes(order, s, 32772);
    assert [Chunk(s, false)][..0] == [];
  }

  /** And of a chunk of 65,033 octets, all ones, at an odd address after two such octets, those on the swapped
      path do not. */
  lemma SwappedCapacityIsSharp(order: ByteOrder, s: seq<Octet>, w: nat, n: nat, mlen: int, sum: nat)
    requires |s| == 65033 && forall i :: 0 <= i < |s| ==> s[i] == 0xff
    requires Summed(order, s, 1, w, n, mlen, 65535 * 256, sum) && mlen < 8 && mlen % 8 == 0
    ensures Overflows(sum) && Swaps(2, Chunk(s, true))
    ensures SameSum(65535, Weighted(order, false, [0xff, 0xff]))
  {
    AllOnes(order, s[1..w], 32516);
    AllOnes(order, [0xff, 0xff], 1);
  }

  // ----- Repairing a checksum field -----

  /** What the checksum field of a packet should have been, given its value and the computed checksum. */
  method InCksumShouldbe(order: ByteOrder, sum: Word16, computedSum: Word16) returns (r: Word16)
    ensures r == OnesAdd(sum, Ntohs(order, computedSum))
  {
    var shouldbe: Word32 := sum;
    shouldbe := shouldbe + Ntohs(order, computedSum);
    shouldbe := shouldbe % 0x1_0000 + shouldbe / 0x1_0000;
    shouldbe := shouldbe % 0x1_0000 + shouldbe / 0x1_0000;
    r := shouldbe;
  }

  /** The network-order value of the field at octet `at`. */
  function Field(packet: seq<Octet>, at: nat): Word16
    requires at + 2 <= |packet|
  {
    Load16(BigEndian, packet[at], packet[at + 1])
  }

  function WithField(packet: seq<Octet>, at: nat, value: Word16): (r: seq<Octet>)
    requires at + 2 <= |packet|
    ensures |r| == |packet| && Field(r, at) == value
    ensures forall i :: 0 <= i < |packet| && i != at && i != at + 1 ==> r[i] == packet[i]
  {
    packet[at := value / 256][at + 1 := value % 256]
  }

  lemma FieldRewritten(packet: seq<Octet>, at: nat)
    requires at + 2 <= |packet|
    ensures WithField(packet, at, Field(packet, at)) == packet
  {
    assert Field(packet, at) / 256 == packet[at];
    assert Field(packet, at) % 256 == packet[at + 1];
  }

  /** The sum of a packet is the sum of the field and of the rest. */
  lemma FieldPart(packet: seq<Octet>, at: nat, value: Word16)
    requires at % 2 == 0 && at + 2 <= |packet|
    ensures Weighted(BigEndian, false, WithField(packet, at, value))
         == Weighted(BigEndian, false, packet[..at]) + value + Weighted(BigEndian, false, packet[at + 2..])
  {
    var changed := WithField(packet, at, value);
    var head, field, tail := packet[..at], changed[at..at + 2], packet[at + 2..];
    assert changed == head + (field + tail);
    WeightedConcat(BigEndian, false, head, field + tail);
    WeightedConcat(BigEndian, false, field, tail);
    WeightedPair(BigEndian, field);
  }

  lemma FieldSum(packet: seq<Octet>, at: nat, value: Word16)
    requires at % 2 == 0 && at + 2 <= |packet|
    ensures SameSum(OnesSum(WithField(packet, at, value)),
                    Weighted(BigEndian, false, packet[..at]) + Weighted(BigEndian, false, packet[at + 2..]) + value)
  {
    FieldPart(packet, at, value);
    OnesSumIsWeighted(WithField(packet, at, value));
  }

  lemma RepairedSum(rest: nat, field: Word16, sum: Word16, shouldbe: Word16)
    requires SameSum(sum, rest + field) && shouldbe == OnesAdd(field, 65535 - sum)
    ensures SameSum(rest + shouldbe, 65535)
  {
    var complement: nat := 65535 - sum;
    SameSumAdd(shouldbe, field + complement, rest);
    SameSumAdd(sum, rest + field, complement);
  }

  lemma RepairedPacket(packet: seq<Octet>, at: nat)
    requires at % 2 == 0 && at + 2 <= |packet|
    ensures OnesSum(WithField(packet, at, OnesAdd(Field(packet, at), 65535 - OnesSum(packet)))) == 65535
  {
    var field, sum := Field(packet, at), OnesSum(packet);
    var shouldbe := OnesAdd(field, 65535 - sum);
    var rest := Weighted(BigEndian, false, packet[..at]) + Weighted(BigEndian, false, packet[at + 2..]);
    FieldRewritten(packet, at);
    FieldSum(packet, at, field);
    FieldSum(packet, at, shouldbe);
    RepairedSum(rest, field, sum, shouldbe);
  }

  /** Overwriting the field with the value it should have had makes the checksum of the packet zero. */
  lemma RepairMakesChecksumZero(order: ByteOrder, packet: seq<Octet>, at: nat)
    requires at % 2 == 0 && at + 2 <= |packet|
    ensures var field := Field(packet, at);
            var shouldbe := OnesAdd(field, Ntohs(order, Checksum(order, packet)));
            && Checksum(order, WithField(packet, at, shouldbe)) == 0
            && (Checksum(order, packet) == 0 ==> shouldbe == field)
  {
    NtohsTwice(order, 65535 - OnesSum(packet));
    RepairedPacket(packet, at);
  }
}
