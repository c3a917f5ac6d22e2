/** The address printers of tcpdump/addrtostr.c, and intoa of tcpdump/addrtoname.c. */
module AddressPrinter {
  import opened Octets
  import opened Options
  import opened AddressText

  // ----- The zero run to compress -----

  /** `best` is the leftmost longest zero run that ends by `upTo`; its base is -1 if there is none. */
  ghost predicate BestUpTo(words: seq<Word16>, upTo: int, base: int, len: int) {
    if base == -1 then forall b, l :: ZeroRun(words, b, l) ==> b + l > upTo
    else
      && ZeroRun(words, base, len) && base + len <= upTo
      && forall b, l :: ZeroRun(words, b, l) && b + l <= upTo ==> l <= len && (l == len ==> base <= b)
  }

  /** The zero run that is being extended at word i, if any, starts at `base` and cannot start earlier. */
  ghost predicate Current(words: seq<Word16>, i: int, base: int, len: int) {
    if base == -1 then true
    else 0 <= base < i && len == i - base && ZeroRun(words, base, len) && (base == 0 || words[base - 1] != 0)
  }

  /** When the current run ends, it or the best so far is the best. */
  lemma RunEnds(words: seq<Word16>, i: int, base: int, len: int, curBase: int, curLen: int)
    requires 0 <= i <= |words| && curBase != -1
    requires Current(words, i, curBase, curLen) && BestUpTo(words, curBase, base, len)
    ensures if base == -1 || curLen > len then BestUpTo(words, i, curBase, curLen) else BestUpTo(words, i, base, len)
  {
    assert forall b, l :: ZeroRun(words, b, l) && b + l <= i && b + l > curBase ==> b >= curBase;
  }

  method FindRun(words: seq<Word16>) returns (base: int, len: int)
    ensures BestRun(words, base, len)
  {
    base, len := -1, 0;
    var curBase, curLen, i := -1, 0, 0;
    while i < |words|
      invariant i <= |words|
      invariant Current(words, i, curBase, curLen)
      invariant curBase == -1 ==> i == 0 || words[i - 1] != 0
      invariant BestUpTo(words, if curBase == -1 then i else curBase, base, len)
    {
      if words[i] == 0 {
        if curBase == -1 {
          curBase, curLen := i, 1;
        } else {
          curLen := curLen + 1;
        }
      } else {
        if curBase != -1 {
          RunEnds(words, i, base, len, curBase, curLen);
          if base == -1 || curLen > len {
            base, len := curBase, curLen;
          }
          curBase := -1;
        }
        assert forall b, l :: ZeroRun(words, b, l) && b + l <= i + 1 ==> b + l <= i;
      }
      i := i + 1;
    }
    if curBase != -1 {
      RunEnds(words, i, base, len, curBase, curLen);
      if base == -1 || curLen > len {
        base, len := curBase, curLen;
      }
    }
    if base != -1 && len < 2 {
      base := -1;
    }
  }

  /** The rule leaves no choice. */
  lemma BestRunIsUnique(words: seq<Word16>, base: int, len: int, base': int, len': int)
    requires BestRun(words, base, len) && BestRun(words, base', len')
    ensures base == base' && (base != -1 ==> len == len')
  {
  }

  // ----- IPv4, left to right -----

  const INET_ADDRSTRLEN := 16

  /** Writes one octet at dst[dp..], and returns the place after it. */
  method PutOctet(dst: array<char>, dp: nat, octet: Octet) returns (r: nat)
    requires dp + 3 <= dst.Length
    modifies dst
    ensures r == dp + |Decimal(octet)| <= dp + 3
    ensures dst[..dp] == old(dst[..dp]) && dst[dp..r] == Decimal(octet) && dst[r..] == old(dst[r..])
  {
    DecimalDigits(octet);
    var n, nonZero := octet, false;
    r := dp;
    if n / 100 > 0 {
      dst[r] := Digit(n / 100);
      r := r + 1;
      n := n % 100;
      nonZero := true;
    }
    if nonZero || n / 10 > 0 {
      dst[r] := Digit(n / 10);
      r := r + 1;
      n := n % 10;
      nonZero := true;
    }
    dst[r] := Digit(n);
    r := r + 1;
  }

  /** What the loop writes for octet i. */
  function DottedPart(a: seq<Octet>, i: nat): string
    requires i < |a| == 4
  {
    Decimal(a[i]) + if i != 3 then "." else ""
  }

  function DottedUpTo(a: seq<Octet>, i: nat): string
    requires i <= |a| == 4
  {
    if i == 0 then [] else DottedUpTo(a, i - 1) + DottedPart(a, i - 1)
  }

  lemma JoinFour(a: string, b: string, c: string, d: string)
    ensures Join([a, b, c, d], '.') == a + "." + (b + "." + (c + "." + d))
  {
    assert [a, b, c, d][1..] == [b, c, d] && [b, c, d][1..] == [c, d] && [c, d][1..] == [d];
    assert Join([c, d], '.') == c + "." + d;
    assert Join([b, c, d], '.') == b + "." + (c + "." + d);
  }

  lemma DottedComplete(a: seq<Octet>)
    requires |a| == 4
    ensures DottedUpTo(a, 4) == Dotted(a)
  {
    var d0, d1, d2, d3 := Decimal(a[0]), Decimal(a[1]), Decimal(a[2]), Decimal(a[3]);
    assert Decimals(a) == [d0, d1, d2, d3];
    JoinFour(d0, d1, d2, d3);
    UpToFour(a);
    RegroupFour(d0 + ".", d1 + ".", d2 + ".", d3);
  }

  lemma RegroupFour(p: string, q: string, r: string, s: string)
    ensures p + q + r + s == p + (q + (r + s))
    ensures p + q + (r + s) == p + (q + (r + s))
  {
  }

  lemma UpToFour(a: seq<Octet>)
    requires |a| == 4
    ensures DottedUpTo(a, 4) == DottedPart(a, 0) + DottedPart(a, 1) + DottedPart(a, 2) + Decimal(a[3])
  {
    assert DottedUpTo(a, 1) == DottedPart(a, 0);
    assert DottedUpTo(a, 2) == DottedPart(a, 0) + DottedPart(a, 1);
    assert DottedPart(a, 3) == Decimal(a[3]);
  }

  lemma DecimalWidth(n: Octet, width: nat)
    requires width == |Decimal(n)|
    ensures width <= 3 && (width == 3 <==> n >= 100)
  {
    DecimalDigits(n);
  }

  lemma DottedWidth(a: seq<Octet>)
    requires |a| == 4
    ensures |Dotted(a)| == |Decimal(a[0])| + |Decimal(a[1])| + |Decimal(a[2])| + |Decimal(a[3])| + 3
  {
    var d0, d1, d2, d3 := Decimal(a[0]), Decimal(a[1]), Decimal(a[2]), Decimal(a[3]);
    assert Decimals(a) == [d0, d1, d2, d3];
    JoinFour(d0, d1, d2, d3);
  }

  /** The size addrtostr asks for is the least that always suffices: four octets of three digits take it up. */
  lemma LongestDotted(a: seq<Octet>)
    requires |a| == 4
    ensures |Dotted(a)| < INET_ADDRSTRLEN
    ensures |Dotted(a)| + 1 == INET_ADDRSTRLEN <==> a[0] >= 100 && a[1] >= 100 && a[2] >= 100 && a[3] >= 100
  {
    DottedWidth(a);
    DecimalWidth(a[0], |Decimal(a[0])|);
    DecimalWidth(a[1], |Decimal(a[1])|);
    DecimalWidth(a[2], |Decimal(a[2])|);
    DecimalWidth(a[3], |Decimal(a[3])|);
  }

  lemma DottedLength(a: seq<Octet>, i: nat)
    requires i <= |a| == 4
    ensures |DottedUpTo(a, i)| <= 4 * i && (i == 4 ==> |DottedUpTo(a, i)| <= 15)
  {
    if i > 0 {
      DottedLength(a, i - 1);
      DecimalDigits(a[i - 1]);
    }
  }

  /** The body of the loop. */
  method PutPart(src: seq<Octet>, i: nat, dst: array<char>, dp: nat) returns (r: nat)
    requires i < |src| == 4 && dp + 4 <= dst.Length
    modifies dst
    ensures r == dp + |DottedPart(src, i)| <= dp + 4
    ensures dst[..dp] == old(dst[..dp]) && dst[dp..r] == DottedPart(src, i) && dst[r..] == old(dst[r..])
  {
    r := PutOctet(dst, dp, src[i]);
    if i != 3 {
      dst[r] := '.';
      r := r + 1;
    }
  }

  lemma Extends<T>(before: seq<T>, after: seq<T>, at: nat, dp: nat, r: nat)
    requires at <= dp <= r <= |after| == |before| && before[..dp] == after[..dp]
    ensures after[..at] == before[..at] && after[at..r] == before[at..dp] + after[dp..r]
  {
  }

  /** Writes dotted-decimal text and a NUL at dst[at..], given `size` characters of room there; refuses
      less than INET_ADDRSTRLEN. */
  method AddrToStr(src: seq<Octet>, dst: array<char>, at: nat, size: nat) returns (ok: bool)
    requires |src| == 4 && at + size <= dst.Length
    modifies dst
    ensures ok <==> size >= INET_ADDRSTRLEN
    ensures var n := |Dotted(src)|;
            if ok then
              && n < INET_ADDRSTRLEN
              && dst[..at] == old(dst[..at]) && dst[at..at + n] == Dotted(src) && dst[at + n] == '\0'
              && dst[at + n + 1..] == old(dst[at + n + 1..])
            else dst[..] == old(dst[..])
  {
    if size < INET_ADDRSTRLEN {
      return false;
    }
    var i, dp := 0, at;
    while i < 4
      invariant i <= 4 && dp == at + |DottedUpTo(src, i)| && dp <= at + 4 * i && (i == 4 ==> dp <= at + 15)
      invariant dst[..at] == old(dst[..at]) && dst[at..dp] == DottedUpTo(src, i) && dst[dp..] == old(dst[dp..])
    {
      DottedLength(src, i + 1);
      ghost var before, was := dst[..], dp;
      dp := PutPart(src, i, dst, dp);
      Extends(before, dst[..], at, was, dp);
      i := i + 1;
    }
    DottedComplete(src);
    dst[dp] := '\0';
    ok := true;
  }

  // ----- IPv4, right to left -----

  lemma DigitsFromTheEnd(n: Octet)
    ensures Decimal(n) == if n / 10 == 0 then [Digit(n % 10)]
                          else if n / 10 / 10 == 0 then [Digit(n / 10 % 10), Digit(n % 10)]
                          else [Digit(n / 10 / 10), Digit(n / 10 % 10), Digit(n % 10)]
  {
  }

  /** Writes one octet so that it ends before buf[cp], and returns where it starts. */
  method PutOctetBackwards(buf: array<char>, cp: nat, octet: Octet) returns (r: nat)
    requires 3 <= cp <= buf.Length
    modifies buf
    ensures r + |Decimal(octet)| == cp <= r + 3
    ensures buf[..r] == old(buf[..r]) && buf[r..cp] == Decimal(octet) && buf[cp..] == old(buf[cp..])
  {
    DigitsFromTheEnd(octet);
    var byte := octet;
    r := cp - 1;
    buf[r] := Digit(byte % 10);
    byte := byte / 10;
    if byte > 0 {
      r := r - 1;
      buf[r] := Digit(byte % 10);
      byte := byte / 10;
      if byte > 0 {
        r := r - 1;
        buf[r] := Digit(byte);
      }
    }
  }

  /** The octets from i on, each preceded by a dot. */
  function DottedFrom(a: seq<Octet>, i: nat): string
    requires i <= |a| == 4
    decreases 4 - i
  {
    if i == 4 then [] else "." + Decimal(a[i]) + DottedFrom(a, i + 1)
  }

  lemma {:induction false} DottedFromJoin(a: seq<Octet>, i: nat)
    requires i < |a| == 4
    ensures DottedFrom(a, i) == "." + Join(Decimals(a)[i..], '.')
    decreases 4 - i
  {
    var parts := Decimals(a);
    if i == 3 {
      assert parts[3..] == [Decimal(a[3])] && DottedFrom(a, 4) == [];
    } else {
      DottedFromJoin(a, i + 1);
      assert parts[i..][1..] == parts[i + 1..];
      RegroupFour(".", parts[i], ".", Join(parts[i + 1..], '.'));
      RegroupFour([], parts[i], ".", Join(parts[i + 1..], '.'));
    }
  }

  /** What is left of a word after k shifts by eight. */
  function ShiftedBy(w: Word32, k: nat): Word32 {
    if k == 0 then w else ShiftedBy(w, k - 1) / 256
  }

  lemma ShiftedOctet(w: Word32, k: nat)
    requires k < 4
    ensures ShiftedBy(w, k) % 256 == Octets32(w)[3 - k]
  {
    ShiftTwice(w);
    assert ShiftedBy(w, 1) == w / 256 && ShiftedBy(w, 2) == w / 0x1_0000 && ShiftedBy(w, 3) == w / 0x1_0000 / 256;
  }

  lemma ShiftTwice(w: Word32)
    ensures w / 256 / 256 == w / 0x1_0000 && w / 256 % 256 == w % 0x1_0000 / 256
    ensures w % 256 == w % 0x1_0000 % 256
  {
    var q, m := w / 0x1_0000, w % 0x1_0000 / 256;
    assert w / 256 == 256 * q + m;
  }

  /** The body of the loop: an octet, and the dot before it. */
  method PutDottedOctet(buf: array<char>, cp: nat, octet: Octet) returns (r: nat)
    requires 4 <= cp <= 16 < buf.Length
    modifies buf
    ensures cp - 4 <= r < cp
    ensures buf[r..16] == "." + Decimal(octet) + old(buf[cp..16]) && buf[16] == old(buf[16])
  {
    ghost var tail := buf[cp..];
    r := PutOctetBackwards(buf, cp, octet);
    r := r - 1;
    buf[r] := '.';
    assert buf[r + 1..cp] == Decimal(octet) && buf[cp..] == tail;
    assert buf[r..16] == [buf[r]] + buf[r + 1..cp] + tail[..16 - cp];
  }

  /** The loop: the octets of a word, the least significant first, each before the one already there. */
  method PutDottedOctets(buf: array<char>, host: Word32, ghost a: seq<Octet>) returns (cp: nat)
    requires buf.Length == 17 && buf[16] == '\0'
    requires |a| == 4 && forall k :: 0 <= k < 4 ==> ShiftedBy(host, k) % 256 == a[3 - k]
    modifies buf
    ensures cp <= 16 && buf[16] == '\0' && buf[cp..16] == DottedFrom(a, 0)
  {
    var n, addr := 4, host;
    cp := 16;
    while n > 0
      invariant 0 <= n <= 4 && 4 * n <= cp <= 16
      invariant buf[16] == '\0' && buf[cp..16] == DottedFrom(a, n)
      invariant addr == ShiftedBy(host, 4 - n)
    {
      cp := PutDottedOctet(buf, cp, addr % 256);
      addr := addr / 256;
      n := n - 1;
    }
  }

  /** intoa: the text ends at the NUL in the last place of the buffer, and starts at buf[start]. */
  method Intoa(addrIn: Word32, order: ByteOrder, buf: array<char>) returns (start: nat)
    requires buf.Length == |".xxx.xxx.xxx.xxx"| + 1
    modifies buf
    ensures start <= 16 && buf[16] == '\0'
    ensures buf[start..16] == Dotted(Octets32(Ntohl(order, addrIn)))
  {
    var addr := Ntohl(order, addrIn);
    ghost var a := Octets32(addr);
    buf[buf.Length - 1] := '\0';
    forall k | 0 <= k < 4
      ensures ShiftedBy(addr, k) % 256 == a[3 - k]
    {
      ShiftedOctet(addr, k);
    }
    var cp := PutDottedOctets(buf, addr, a);
    DottedFromJoin(a, 0);
    assert Decimals(a)[0..] == Decimals(a);
    start := cp + 1;
  }

  /** For an address in memory, on either kind of host, both printers give its dotted-decimal text. */
  lemma IntoaAgrees(order: ByteOrder, address: seq<Octet>)
    requires |address| == 4
    ensures Dotted(Octets32(Ntohl(order, Load32(order, address)))) == Dotted(address)
    ensures ReadDotted(Dotted(Octets32(Ntohl(order, Load32(order, address))))) == Some(address)
  {
    NtohlLoad(order, address);
    ReadDottedOfDotted(address);
  }

  // ----- IPv6 -----

  predicate InRun(base: int, len: int, i: int) { base != -1 && base <= i < base + len }

  /** What the loop writes for word i, when it is not the start of an embedded IPv4 address; parts are
      the hexadecimal groups. */
  function Piece(parts: seq<string>, base: int, len: int, i: nat): string
    requires i < |parts|
  {
    if InRun(base, len, i) then (if i == base then ":" else "")
    else (if i != 0 then ":" else "") + parts[i]
  }

  function Emitted(parts: seq<string>, base: int, len: int, i: nat): string
    requires i <= |parts|
  {
    if i == 0 then [] else Emitted(parts, base, len, i - 1) + Piece(parts, base, len, i - 1)
  }

  predicate RunWithin(parts: seq<string>, base: int, len: int) {
    base == -1 || (0 <= base && 0 < len && base + len <= |parts|)
  }

  lemma {:induction false} JoinSnoc(parts: seq<string>, last: string)
    requires parts != []
    ensures Join(parts + [last], ':') == Join(parts, ':') + (":" + last)
  {
    var all := parts + [last];
    if |parts| == 1 {
      assert all[1..] == [last];
    } else {
      assert all[1..] == parts[1..] + [last];
      JoinSnoc(parts[1..], last);
      RegroupFour(parts[0] + ":", Join(parts[1..], ':'), ":" + last, []);
    }
  }

  lemma JoinExtends(parts: seq<string>, i: nat, k: nat)
    requires i <= k < |parts|
    ensures Join(parts[i..k + 1], ':') == Join(parts[i..k], ':') + ((if i == k then "" else ":") + parts[k])
  {
    assert parts[i..k + 1] == parts[i..k] + [parts[k]];
    if i < k {
      JoinSnoc(parts[i..k], parts[k]);
    }
  }

  /** The pieces up to a word, as groups. */
  function Expected(parts: seq<string>, base: int, len: int, i: nat): string
    requires i <= |parts| && RunWithin(parts, base, len)
  {
    if base == -1 || i <= base then Join(parts[0..i], ':')
    else if i <= base + len then Join(parts[0..base], ':') + ":"
    else Join(parts[0..base], ':') + "::" + Join(parts[base + len..i], ':')
  }

  lemma ExpectedStep(parts: seq<string>, base: int, len: int, k: nat)
    requires k < |parts| && RunWithin(parts, base, len)
    ensures Expected(parts, base, len, k) + Piece(parts, base, len, k) == Expected(parts, base, len, k + 1)
  {
    if base == -1 || k < base {
      JoinExtends(parts, 0, k);
    } else if k >= base + len {
      var g, h, r := Join(parts[0..base], ':'), parts[k], Join(parts[base + len..k], ':');
      JoinExtends(parts, base + len, k);
      if k == base + len {
        assert g + ":" + (":" + h) == g + "::" + (r + ("" + h));
      } else {
        assert g + "::" + r + (":" + h) == g + "::" + (r + (":" + h));
      }
    }
  }

  lemma {:induction false} EmittedIsExpected(parts: seq<string>, base: int, len: int, i: nat)
    requires i <= |parts| && RunWithin(parts, base, len)
    ensures Emitted(parts, base, len, i) == Expected(parts, base, len, i)
  {
    if i > 0 {
      EmittedIsExpected(parts, base, len, i - 1);
      ExpectedStep(parts, base, len, i - 1);
    }
  }

  lemma {:induction false} EmittedGrows(parts: seq<string>, base: int, len: int, i: nat, j: nat)
    requires i <= j <= |parts|
    ensures |Emitted(parts, base, len, i)| <= |Emitted(parts, base, len, j)|
  {
    if i < j {
      EmittedGrows(parts, base, len, i, j - 1);
      assert Emitted(parts, base, len, j) == Emitted(parts, base, len, j - 1) + Piece(parts, base, len, j - 1);
    }
  }

  /** The whole text, piece by piece; `dotted` is the text of the last four octets. */
  function Pieced(parts: seq<string>, base: int, len: int, embedded: bool, dotted: string): string
    requires |parts| == 8
  {
    if embedded then Emitted(parts, base, len, |parts| - 2) + ":" + dotted
    else Emitted(parts, base, len, |parts|) + if base != -1 && base + len == 8 then ":" else ""
  }

  lemma HexesSlice(words: seq<Word16>, i: nat, j: nat)
    requires i <= j <= |words|
    ensures Hexes(words)[i..j] == Hexes(words[i..j])
  {
  }

  function DottedTail(words: seq<Word16>): string
    requires |words| == 8
  {
    Dotted(WordOctets(words[6..]))
  }

  /** The groups of a text that ends in dotted decimal: the run, and one more group if the run is short. */
  lemma EmbeddedText(parts: seq<string>, base: int, len: int, n: nat, dotted: string)
    requires base == 0 && n <= |parts| && len <= n <= len + 1 && 0 < len
    ensures Emitted(parts, base, len, n) + ":" + dotted == "::" + Join(parts[len..n] + [dotted], ':')
    ensures |Emitted(parts, base, len, n)| <= 2 + if len == n then 0 else |parts[len]|
  {
    EmittedIsExpected(parts, base, len, n);
    assert parts[0..0] == [];
    if len == n {
      assert parts[len..n] + [dotted] == [dotted];
    } else {
      var group := parts[len];
      assert parts[len..n] == [group];
      JoinSnoc([group], dotted);
      RegroupFour("::", group, ":", dotted);
    }
  }

  lemma EmbeddedPieces(words: seq<Word16>, base: int, len: int)
    requires |words| == 8 && ZeroRun(words, base, len) && Embedded(words, base, len)
    ensures Pieced(Hexes(words), base, len, true, DottedTail(words)) == Text6(words, base, len)
    ensures |Emitted(Hexes(words), base, len, |Hexes(words)| - 2)| <= 6
  {
    EmbeddedText(Hexes(words), base, len, |Hexes(words)| - 2, DottedTail(words));
    HexesSlice(words, len, 6);
    HexLength(words[5]);
  }

  lemma PlainPieces(words: seq<Word16>, base: int, len: int)
    requires |words| == 8 && (base == -1 || ZeroRun(words, base, len)) && !Embedded(words, base, len)
    ensures Pieced(Hexes(words), base, len, false, DottedTail(words)) == Text6(words, base, len)
  {
    var parts := Hexes(words);
    EmittedIsExpected(parts, base, len, |parts|);
    assert parts[0..8] == parts;
    if base != -1 {
      HexesSlice(words, 0, base);
      HexesSlice(words, base + len, 8);
      assert words[0..base] == words[..base] && words[base + len..8] == words[base + len..];
      if base + len == 8 {
        var g := Join(parts[0..base], ':');
        assert parts[8..8] == [] && g + ":" + ":" == g + "::" + [];
      }
    }
  }

  /** Whether a buffer of `size` characters is accepted: room for the text and its NUL, where an embedded IPv4
      address counts as long as one can be. */
  predicate Fits(words: seq<Word16>, base: int, len: int, size: nat)
    requires |words| == 8 && (base == -1 || ZeroRun(words, base, len))
  {
    if Embedded(words, base, len) then |Text6(words, base, len)| - |DottedTail(words)| + INET_ADDRSTRLEN <= size
    else |Text6(words, base, len)| < size
  }

  lemma HexWidth(n: Word16, width: nat)
    requires width == |Hex(n)|
    ensures width <= 4 && (n >= 0x1000 ==> width == 4)
  {
    HexLength(n);
    if n >= 0x1000 {
      assert |Hex(n)| == |Hex(n / 16)| + 1 && |Hex(n / 16)| == |Hex(n / 16 / 16)| + 1;
      assert |Hex(n / 16 / 16)| == |Hex(n / 16 / 16 / 16)| + 1;
    }
  }

  lemma {:induction false} GroupsLength(words: seq<Word16>)
    requires words != []
    ensures |Groups(words)| <= 5 * |words| - 1
    ensures (forall i :: 0 <= i < |words| ==> words[i] >= 0x1000) ==> |Groups(words)| == 5 * |words| - 1
  {
    HexWidth(words[0], |Hex(words[0])|);
    if |words| > 1 {
      GroupsLength(words[1..]);
      assert Hexes(words)[1..] == Hexes(words[1..]);
    }
  }

  lemma PlainTextLength(words: seq<Word16>, base: int, len: int)
    requires |words| == 8 && (base == -1 || ZeroRun(words, base, len)) && !Embedded(words, base, len)
    ensures |Text6(words, base, len)| <= 39
  {
    if base == -1 {
      GroupsLength(words);
    } else {
      if base > 0 {
        GroupsLength(words[..base]);
      }
      if base + len < 8 {
        GroupsLength(words[base + len..]);
      }
    }
  }

  lemma EmbeddedTextLength(words: seq<Word16>, base: int, len: int)
    requires |words| == 8 && ZeroRun(words, base, len) && Embedded(words, base, len)
    ensures |Text6(words, base, len)| <= 7 + |DottedTail(words)|
  {
    EmbeddedPieces(words, base, len);
  }

  /** A buffer of 40 characters is always large enough, so that the usual one of 46 is. */
  lemma AlwaysFits(words: seq<Word16>, base: int, len: int, size: nat)
    requires |words| == 8 && (base == -1 || ZeroRun(words, base, len)) && size >= 40
    ensures Fits(words, base, len, size)
  {
    if Embedded(words, base, len) {
      EmbeddedTextLength(words, base, len);
    } else {
      PlainTextLength(words, base, len);
    }
  }

  /** And no smaller one is: eight groups of four digits take it up. */
  lemma LongestFits(words: seq<Word16>, len: int, size: nat)
    requires |words| == 8 && forall i :: 0 <= i < 8 ==> words[i] >= 0x1000
    ensures BestRun(words, -1, len) && (Fits(words, -1, len, size) <==> size >= 40)
  {
    GroupsLength(words);
    assert forall b, l :: ZeroRun(words, b, l) ==> words[b] == 0;
  }

  /** snprintf with the %x conversion, into `space` characters at dst[dp..]; `text` is the numeral. */
  method SnprintfHex(dst: array<char>, dp: nat, space: nat, text: string) returns (n: nat)
    requires dp + space <= dst.Length
    modifies dst
    ensures n == |text|
    ensures dst[..dp] == old(dst[..dp]) && dst[dp + space..] == old(dst[dp + space..])
    ensures n < space ==> dst[dp..dp + n] == text
  {
    n := |text|;
    if space > 0 {
      var written, i := if n < space then n else space - 1, 0;
      while i < written
        invariant i <= written
        invariant dst[..dp] == old(dst[..dp]) && dst[dp + space..] == old(dst[dp + space..])
        invariant dst[dp..dp + i] == text[..i]
      {
        dst[dp + i] := text[i];
        i := i + 1;
      }
      dst[dp + written] := '\0';
    }
  }

  /** APPEND_CHAR: fails when there is no room. */
  method AppendChar(dst: array<char>, size: nat, dpIn: nat, c: char) returns (ok: bool, dp: nat)
    requires dpIn <= size <= dst.Length
    modifies dst
    ensures ok <==> dpIn < size
    ensures dst[size..] == old(dst[size..])
    ensures ok ==> dp == dpIn + 1 && dst[..dp] == old(dst[..dpIn]) + [c]
    ensures !ok ==> dst[..] == old(dst[..])
  {
    ok, dp := dpIn < size, dpIn;
    if ok {
      dst[dp] := c;
      dp := dp + 1;
    }
  }

  /** Appends a hexadecimal group. */
  method AppendHex(dst: array<char>, size: nat, dpIn: nat, text: string) returns (ok: bool, dp: nat)
    requires dpIn <= size <= dst.Length
    modifies dst
    ensures ok <==> dpIn + |text| < size
    ensures dst[size..] == old(dst[size..])
    ensures ok ==> dp == dpIn + |text| && dst[..dp] == old(dst[..dpIn]) + text
  {
    dp := dpIn;
    var n := SnprintfHex(dst, dp, size - dp, text);
    ok := n < size - dp;
    if ok {
      dp := dp + n;
      assert dst[..dp] == dst[..dpIn] + dst[dpIn..dp];
    }
  }

  /** A group, after a colon unless it comes first. */
  method AppendGroup(dst: array<char>, size: nat, dpIn: nat, first: bool, text: string) returns (ok: bool, dp: nat)
    requires dpIn <= size <= dst.Length
    modifies dst
    ensures dst[size..] == old(dst[size..])
    ensures var piece := (if !first then ":" else "") + text;
            && (ok <==> dpIn + |piece| < size)
            && (ok ==> dp == dpIn + |piece| && dst[..dp] == old(dst[..dpIn]) + piece)
  {
    ok, dp := true, dpIn;
    ghost var before := dst[..dp];
    if !first {
      ok, dp := AppendChar(dst, size, dp, ':');
      if !ok {
        return;
      }
      assert before + [':'] + text == before + (":" + text);
    } else {
      assert "" + text == text;
    }
    ok, dp := AppendHex(dst, size, dp, text);
  }

  /** The body of the loop for a word that does not start an embedded IPv4 address. Fails when the
      room, including a NUL, runs out. */
  method PutPiece(dst: array<char>, size: nat, parts: seq<string>, base: int, len: int, i: nat, dpIn: nat)
    returns (ok: bool, dp: nat)
    requires dpIn <= size <= dst.Length && i < |parts|
    modifies dst
    ensures dst[size..] == old(dst[size..])
    ensures !ok ==> dpIn + |Piece(parts, base, len, i)| >= size
    ensures ok ==> dp == dpIn + |Piece(parts, base, len, i)| <= size
    ensures ok ==> dst[..dp] == old(dst[..dpIn]) + Piece(parts, base, len, i)
  {
    ok, dp := true, dpIn;
    if InRun(base, len, i) {
      if i == base {
        ok, dp := AppendChar(dst, size, dp, ':');
      }
    } else {
      ok, dp := AppendGroup(dst, size, dp, i == 0, parts[i]);
    }
  }

  /** C's strlen of the string at dst[at..]. */
  method Strlen(dst: array<char>, at: nat, ghost text: string) returns (n: nat)
    requires at + |text| < dst.Length && dst[at..at + |text|] == text && dst[at + |text|] == '\0' && '\0' !in text
    ensures n == |text|
  {
    n := 0;
    while dst[at + n] != '\0'
      invariant n <= |text|
      decreases |text| - n
    {
      n := n + 1;
    }
  }

  lemma DottedHasNoNul(a: seq<Octet>)
    requires |a| == 4
    ensures '\0' !in Dotted(a)
  {
    JoinAvoids(Decimals(a), '.', '\0');
  }

  /** The embedded IPv4 address that ends the text. */
  method PutEmbedded(dst: array<char>, size: nat, dpIn: nat, tail: seq<Octet>) returns (ok: bool, dp: nat)
    requires dpIn <= size <= dst.Length && |tail| == 4
    modifies dst
    ensures dst[size..] == old(dst[size..])
    ensures ok <==> dpIn + 1 + INET_ADDRSTRLEN <= size
    ensures ok ==> dp < size && dst[..dp] == old(dst[..dpIn]) + ":" + Dotted(tail)
  {
    ok, dp := AppendChar(dst, size, dpIn, ':');
    if !ok {
      return;
    }
    ghost var before := dst[..dp];
    ok := AddrToStr(tail, dst, dp, size - dp);
    if ok {
      DottedHasNoNul(tail);
      var addedSpace := Strlen(dst, dp, Dotted(tail));
      ghost var at := dp;
      dp := dp + addedSpace;
      assert dst[..dp] == dst[..at] + dst[at..dp];
      assert dst[size..] == dst[dp + 1..][size - dp - 1..];
    }
  }

  /** The end of the text: a colon for a trailing run, and the NUL. */
  method Terminate(dst: array<char>, size: nat, dpIn: nat, trailing: bool) returns (ok: bool)
    requires dpIn <= size <= dst.Length
    modifies dst
    ensures dst[size..] == old(dst[size..])
    ensures var n := dpIn + if trailing then 1 else 0;
            && (ok <==> n < size)
            && (ok ==> dst[..n + 1] == old(dst[..dpIn]) + (if trailing then ":" else "") + ['\0'])
  {
    var dp := dpIn;
    ok := true;
    if trailing {
      ok, dp := AppendChar(dst, size, dp, ':');
      if !ok {
        return;
      }
    } else {
      assert dst[..dp] + "" == dst[..dp];
    }
    ok, dp := AppendChar(dst, size, dp, '\0');
  }

  /** The loop over the words, up to an embedded IPv4 address if there is one. */
  method PutPieces(dst: array<char>, size: nat, parts: seq<string>, base: int, len: int, embedded: bool)
    returns (ok: bool, dp: nat)
    requires size <= dst.Length && |parts| == 8
    modifies dst
    ensures dst[size..] == old(dst[size..])
    ensures var text := Emitted(parts, base, len, if embedded then |parts| - 2 else |parts|);
            && (!ok ==> |text| >= size)
            && (ok ==> dp == |text| <= size && dst[..dp] == text)
  {
    var i := 0;
    ghost var last := if embedded then |parts| - 2 else |parts|;
    ok, dp := true, 0;
    while i < 8
      invariant i <= last && dp == |Emitted(parts, base, len, i)| <= size
      invariant dst[..dp] == Emitted(parts, base, len, i) && dst[size..] == old(dst[size..])
    {
      if i == 6 && embedded {
        return;
      }
      EmittedGrows(parts, base, len, i + 1, last);
      ok, dp := PutPiece(dst, size, parts, base, len, i, dp);
      if !ok {
        return;
      }
      i := i + 1;
    }
  }

  /** The pieces, an embedded IPv4 address, and the end of the text. */
  method FormatPieces(parts: seq<string>, base: int, len: int, embedded: bool, tail: seq<Octet>, dst: array<char>,
                      size: nat)
    returns (ok: bool)
    requires |parts| == 8 && |tail| == 4 && size <= dst.Length && (embedded ==> base + len < 8)
    modifies dst
    ensures dst[size..] == old(dst[size..])
    ensures ok <==> if embedded then |Emitted(parts, base, len, |parts| - 2)| + 1 + INET_ADDRSTRLEN <= size
                    else |Pieced(parts, base, len, false, [])| + 1 <= size
    ensures var text := Pieced(parts, base, len, embedded, Dotted(tail));
            ok ==> |text| < size && dst[..|text| + 1] == text + ['\0']
  {
    var dp;
    ok, dp := PutPieces(dst, size, parts, base, len, embedded);
    if !ok {
      return;
    }
    if embedded {
      ok, dp := PutEmbedded(dst, size, dp, tail);
      if !ok {
        return;
      }
    }
    ghost var before := dst[..dp];
    assert before + "" == before;
    ok := Terminate(dst, size, dp, base != -1 && base + len == 8);
  }

  /** Formats the words, given the run to compress. */
  method Format(words: seq<Word16>, base: int, len: int, dst: array<char>, size: nat) returns (ok: bool)
    requires |words| == 8 && (base == -1 || ZeroRun(words, base, len)) && size <= dst.Length
    modifies dst
    ensures dst[size..] == old(dst[size..])
    ensures ok <==> Fits(words, base, len, size)
    ensures ok ==> |Text6(words, base, len)| < size
    ensures ok ==> dst[..|Text6(words, base, len)| + 1] == Text6(words, base, len) + ['\0']
  {
    var embedded := Embedded(words, base, len);
    ok := FormatPieces(Hexes(words), base, len, embedded, WordOctets(words[6..]), dst, size);
    if embedded {
      EmbeddedPieces(words, base, len);
    } else {
      PlainPieces(words, base, len);
    }
  }

  /** What the formatter must do for a given address. */
  ghost predicate Formatted(words: seq<Word16>, base: int, len: int, size: nat, ok: bool, buffer: seq<char>)
    requires |words| == 8 && (base == -1 || ZeroRun(words, base, len)) && size <= |buffer|
  {
    var text := Text6(words, base, len);
    && (ok <==> Fits(words, base, len, size))
    && (ok ==> |text| < size && buffer[..|text| + 1] == text + ['\0'])
  }

  /** The buffer starts with a text and the NUL that ends it. */
  predicate Holds(buffer: seq<char>, text: string) {
    |text| < |buffer| && buffer[..|text| + 1] == text + ['\0']
  }

  /** Formats an IPv6 address. What it writes, and when it refuses, is settled by the run that section
      4.2 of RFC 5952 picks; an IPv4-mapped or IPv4-compatible address ends in dotted-decimal form. */
  method AddrToStr6(src: seq<Octet>, dst: array<char>, size: nat) returns (ok: bool)
    requires |src| == 16 && size <= dst.Length
    modifies dst
    ensures dst[size..] == old(dst[size..])
    ensures forall base, len ::
              BestRun(OctetWords(src), base, len) ==> Formatted(OctetWords(src), base, len, size, ok, dst[..])
    ensures ok && Mapped(src) ==> Holds(dst[..], "::ffff:" + Dotted(src[12..]))
    ensures ok && Compatible(src) ==> Holds(dst[..], "::" + Dotted(src[12..]))
  {
    var words := OctetWords(src);
    var base, len := FindRun(words);
    ok := Format(words, base, len, dst, size);
    DottedExactly(src, base, len);
    forall b, l | BestRun(words, b, l)
      ensures Formatted(words, b, l, size, ok, dst[..])
    {
      BestRunIsUnique(words, base, len, b, l);
    }
  }

  /** Reading the text gives the address back, so different addresses have different texts. */
  lemma AddressReadsBack(src: seq<Octet>, base: int, len: int)
    requires |src| == 16 && BestRun(OctetWords(src), base, len)
    ensures ReadAddress6(Text6(OctetWords(src), base, len)) == Some(OctetWords(src))
    ensures WordOctets(OctetWords(src)) == src
  {
    ReadText6(OctetWords(src), base, len);
    OctetsThereAndBack(src);
  }

  /** No two addresses have the same text. */
  lemma TextIsInjective(src: seq<Octet>, base: int, len: int, other: seq<Octet>, base': int, len': int)
    requires |src| == 16 && BestRun(OctetWords(src), base, len)
    requires |other| == 16 && BestRun(OctetWords(other), base', len')
    requires Text6(OctetWords(src), base, len) == Text6(OctetWords(other), base', len')
    ensures src == other
  {
    AddressReadsBack(src, base, len);
    AddressReadsBack(other, base', len');
  }
}
