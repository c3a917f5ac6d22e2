/** Text forms of IPv4 and IPv6 addresses: the notation of section 2.2 of RFC 4291 and a reader for it. */
module AddressText {
  import opened Octets
  import opened Options

  // ----- Numbers -----

  const DIGITS := "0123456789abcdef"

  function Digit(d: nat): (c: char)
    requires d < 16
  {
    DIGITS[d]
  }

  /** The decimal numeral of n, without leading zeros. */
  function Decimal(n: nat): (s: string)
    ensures s != [] && forall i :: 0 <= i < |s| ==> '0' <= s[i] <= '9'
  {
    if n < 10 then [Digit(n)] else Decimal(n / 10) + [Digit(n % 10)]
  }

  /** The hexadecimal numeral of n, without leading zeros, as the %x conversion writes it. */
  function Hex(n: nat): (s: string)
    ensures s != [] && forall i :: 0 <= i < |s| ==> '0' <= s[i] <= '9' || 'a' <= s[i] <= 'f'
  {
    if n < 16 then [Digit(n)] else Hex(n / 16) + [Digit(n % 16)]
  }

  /** The value of a digit; letters may be of either case. */
  function DigitValue(c: char): Option<nat> {
    if '0' <= c <= '9' then Some((c - '0') as nat)
    else if 'a' <= c <= 'f' then Some((c - 'a') as nat + 10)
    else if 'A' <= c <= 'F' then Some((c - 'A') as nat + 10)
    else None
  }

  function ReadNumeral(s: string, radix: nat): Option<nat> {
    if s == [] then Some(0)
    else
      match (ReadNumeral(s[..|s| - 1], radix), DigitValue(s[|s| - 1]))
      case (Some(high), Some(d)) => if d < radix then Some(high * radix + d) else None
      case _ => None
  }

  lemma DigitValueOfDigit(d: nat)
    requires d < 16
    ensures DigitValue(Digit(d)) == Some(d)
  {
  }

  lemma ReadSnoc(high: string, d: nat, radix: nat, v: nat)
    requires d < radix <= 16 && ReadNumeral(high, radix) == Some(v)
    ensures ReadNumeral(high + [Digit(d)], radix) == Some(v * radix + d)
  {
    DigitValueOfDigit(d);
    assert (high + [Digit(d)])[..|high|] == high;
  }

  lemma ReadOneDigit(d: nat, radix: nat)
    requires d < radix <= 16
    ensures ReadNumeral([Digit(d)], radix) == Some(d)
  {
    ReadSnoc([], d, radix, 0);
    assert [] + [Digit(d)] == [Digit(d)];
  }

  lemma {:induction false} ReadOfDecimal(n: nat)
    ensures ReadNumeral(Decimal(n), 10) == Some(n)
  {
    if n < 10 {
      ReadOneDigit(n, 10);
    } else {
      ReadOfDecimal(n / 10);
      ReadSnoc(Decimal(n / 10), n % 10, 10, n / 10);
    }
  }

  lemma {:induction false} ReadOfHex(n: nat)
    ensures ReadNumeral(Hex(n), 16) == Some(n)
  {
    if n < 16 {
      ReadOneDigit(n, 16);
    } else {
      ReadOfHex(n / 16);
      ReadSnoc(Hex(n / 16), n % 16, 16, n / 16);
    }
  }

  lemma HexLength(n: Word16)
    ensures |Hex(n)| <= 4
  {
    var n1, n2, n3 := n / 16, n / 16 / 16, n / 16 / 16 / 16;
    assert |Hex(n3)| <= 1;
    assert |Hex(n2)| <= 2;
    assert |Hex(n1)| <= 3;
  }

  lemma {:induction false} NoLeadingZero(n: nat)
    ensures Hex(n)[0] == '0' <==> n == 0
    ensures Decimal(n)[0] == '0' <==> n == 0
    ensures |Hex(n)| == 1 <==> n < 16
    ensures |Decimal(n)| == 1 <==> n < 10
  {
    if n >= 10 {
      NoLeadingZero(n / 10);
    }
    if n >= 16 {
      NoLeadingZero(n / 16);
    }
  }

  lemma DecimalDigits(n: Octet)
    ensures Decimal(n) == if n >= 100 then [Digit(n / 100), Digit(n % 100 / 10), Digit(n % 100 % 10)]
                          else if n >= 10 then [Digit(n / 10), Digit(n % 10)]
                          else [Digit(n)]
  {
    if n >= 100 {
      assert n / 10 / 10 == n / 100 && n / 10 % 10 == n % 100 / 10 && n % 10 == n % 100 % 10;
      assert Decimal(n / 10) == Decimal(n / 100) + [Digit(n % 100 / 10)];
    }
  }

  // ----- Joining and splitting -----

  function Join(parts: seq<string>, sep: char): string {
    if parts == [] then []
    else if |parts| == 1 then parts[0]
    else parts[0] + [sep] + Join(parts[1..], sep)
  }

  /** The parts of a string between separators. There is always at least one. */
  function Split(s: string, sep: char): (parts: seq<string>)
    ensures parts != []
  {
    if s == [] then [[]]
    else
      var rest := Split(s[1..], sep);
      if s[0] == sep then [[]] + rest else [[s[0]] + rest[0]] + rest[1..]
  }

  lemma {:induction false} SplitAtSeparator(a: string, b: string, sep: char)
    requires sep !in a
    ensures Split(a, sep) == [a]
    ensures Split(a + [sep] + b, sep) == [a] + Split(b, sep)
  {
    var s := a + [sep] + b;
    if a == [] {
      assert s[1..] == b;
    } else {
      SplitAtSeparator(a[1..], b, sep);
      assert s[1..] == a[1..] + [sep] + b;
      assert [a[0]] + a[1..] == a;
    }
  }

  lemma {:induction false} SplitOfJoin(parts: seq<string>, sep: char)
    requires parts != []
    requires forall i :: 0 <= i < |parts| ==> sep !in parts[i]
    ensures Split(Join(parts, sep), sep) == parts
  {
    if |parts| == 1 {
      SplitAtSeparator(parts[0], [], sep);
    } else {
      SplitOfJoin(parts[1..], sep);
      SplitAtSeparator(parts[0], Join(parts[1..], sep), sep);
    }
  }

  // ----- IPv4 -----

  function Decimals(a: seq<Octet>): (parts: seq<string>)
    ensures |parts| == |a|
  {
    seq(|a|, i requires 0 <= i < |a| => Decimal(a[i]))
  }

  /** Dotted-decimal text. */
  function Dotted(a: seq<Octet>): string {
    Join(Decimals(a), '.')
  }

  function ReadOctet(s: string): Option<Octet> {
    match ReadNumeral(s, 10)
    case Some(v) => if 1 <= |s| <= 3 && v < 256 then Some(v) else None
    case None => None
  }

  function ReadOctets(parts: seq<string>): Option<seq<Octet>> {
    if parts == [] then Some([])
    else
      match (ReadOctet(parts[0]), ReadOctets(parts[1..]))
      case (Some(first), Some(rest)) => Some([first] + rest)
      case _ => None
  }

  /** A reader of dotted-decimal text. */
  function ReadDotted(s: string): Option<seq<Octet>> {
    var parts := Split(s, '.');
    if |parts| == 4 then ReadOctets(parts) else None
  }

  lemma {:induction false} ReadOctetsOfDecimals(a: seq<Octet>)
    ensures ReadOctets(Decimals(a)) == Some(a)
  {
    if a != [] {
      assert Decimals(a)[1..] == Decimals(a[1..]);
      ReadOctetsOfDecimals(a[1..]);
      ReadOfDecimal(a[0]);
      DecimalDigits(a[0]);
      assert [a[0]] + a[1..] == a;
    }
  }

  lemma ReadDottedOfDotted(a: seq<Octet>)
    requires |a| == 4
    ensures ReadDotted(Dotted(a)) == Some(a)
  {
    SplitOfJoin(Decimals(a), '.');
    ReadOctetsOfDecimals(a);
  }

  // ----- IPv6 -----

  function Hexes(words: seq<Word16>): (parts: seq<string>)
    ensures |parts| == |words|
  {
    seq(|words|, i requires 0 <= i < |words| => Hex(words[i]))
  }

  /** Hexadecimal groups separated by colons. */
  function Groups(words: seq<Word16>): string {
    Join(Hexes(words), ':')
  }

  predicate ZeroRun(words: seq<Word16>, base: int, len: int) {
    0 <= base && 0 < len && base + len <= |words| && forall i :: base <= i < base + len ==> words[i] == 0
  }

  /** The choice section 4.2 of RFC 5952 demands: the leftmost of the longest zero runs if it has at
      least two words; base is -1 if there is none. */
  ghost predicate BestRun(words: seq<Word16>, base: int, len: int) {
    if base == -1 then forall b, l :: ZeroRun(words, b, l) ==> l < 2
    else
      && len >= 2 && ZeroRun(words, base, len)
      && forall b, l :: ZeroRun(words, b, l) ==> l <= len && (l == len ==> base <= b)
  }

  /** The two octets of each word, in network order. */
  function WordOctets(words: seq<Word16>): (r: seq<Octet>)
    ensures |r| == 2 * |words|
  {
    if words == [] then [] else [words[0] / 256, words[0] % 256] + WordOctets(words[1..])
  }

  function OctetWords(a: seq<Octet>): (r: seq<Word16>)
    requires |a| % 2 == 0
    ensures |r| == |a| / 2
  {
    if a == [] then [] else [Load16(BigEndian, a[0], a[1])] + OctetWords(a[2..])
  }

  lemma {:induction false} OctetsThereAndBack(a: seq<Octet>)
    requires |a| % 2 == 0
    ensures WordOctets(OctetWords(a)) == a
  {
    if a != [] {
      OctetsThereAndBack(a[2..]);
      assert a == [a[0], a[1]] + a[2..];
      assert OctetWords(a)[1..] == OctetWords(a[2..]);
    }
  }

  lemma {:induction false} WordsThereAndBack(words: seq<Word16>)
    ensures OctetWords(WordOctets(words)) == words
  {
    if words != [] {
      WordsThereAndBack(words[1..]);
      assert WordOctets(words)[2..] == WordOctets(words[1..]);
      assert words == [words[0]] + words[1..];
    }
  }

  /** Whether an address with this run of zero words is written with an embedded IPv4 address. */
  predicate Embedded(words: seq<Word16>, base: int, len: int)
    requires |words| == 8
  {
    base == 0 && (len == 6 || (len == 5 && words[5] == 0xffff))
  }

  /** The text of an address whose words base .. base + len are written "::". */
  function Text6(words: seq<Word16>, base: int, len: int): string
    requires |words| == 8 && (base == -1 || ZeroRun(words, base, len))
  {
    if base == -1 then Groups(words)
    else if Embedded(words, base, len) then
      "::" + Join(Hexes(words[len..6]) + [Dotted(WordOctets(words[6..]))], ':')
    else Groups(words[..base]) + "::" + Groups(words[base + len..])
  }

  lemma {:induction false} WordAt(a: seq<Octet>, i: nat)
    requires |a| % 2 == 0 && i < |a| / 2
    ensures OctetWords(a)[i] as int == a[2 * i] as int * 256 + a[2 * i + 1] as int
  {
    if i > 0 {
      WordAt(a[2..], i - 1);
    }
  }

  lemma {:induction false} WordsSuffix(a: seq<Octet>, i: nat)
    requires |a| % 2 == 0 && i <= |a| / 2
    ensures OctetWords(a)[i..] == OctetWords(a[2 * i..])
  {
    if i > 0 {
      WordsSuffix(a[2..], i - 1);
      assert a[2..][2 * (i - 1)..] == a[2 * i..];
      assert OctetWords(a)[i..] == OctetWords(a[2..])[i - 1..];
    } else {
      assert a[0..] == a && OctetWords(a)[0..] == OctetWords(a);
    }
  }

  /** An IPv4-mapped address, section 2.5.5.2 of RFC 4291: ten octets zero, then two octets of ones. */
  predicate Mapped(src: seq<Octet>)
    requires |src| == 16
  {
    (forall i :: 0 <= i < 10 ==> src[i] == 0) && src[10] == 0xff && src[11] == 0xff
  }

  /** An IPv4-compatible address, section 2.5.5.1 of RFC 4291: twelve octets zero, and an IPv4 address that
      does not begin with two more. */
  predicate Compatible(src: seq<Octet>)
    requires |src| == 16
  {
    (forall i :: 0 <= i < 12 ==> src[i] == 0) && !(src[12] == 0 && src[13] == 0)
  }

  lemma ZeroWord(src: seq<Octet>, i: nat)
    requires |src| == 16 && i < 8
    ensures OctetWords(src)[i] == 0 <==> src[2 * i] == 0 && src[2 * i + 1] == 0
    ensures OctetWords(src)[i] == 0xffff <==> src[2 * i] == 0xff && src[2 * i + 1] == 0xff
  {
    WordAt(src, i);
  }

  /** A run of five or six words at the start, when it ends there, is the best one. */
  lemma LongRunIsBest(words: seq<Word16>, n: nat, base: int, len: int)
    requires |words| == 8 && BestRun(words, base, len)
    requires 5 <= n < 8 && ZeroRun(words, 0, n) && words[n] != 0
    ensures base == 0 && len == n
  {
    assert base != -1 && n <= len;
    assert !(base <= n < base + len);
  }

  lemma MappedRun(src: seq<Octet>, base: int, len: int)
    requires |src| == 16 && Mapped(src) && BestRun(OctetWords(src), base, len)
    ensures base == 0 && len == 5 && OctetWords(src)[5] == 0xffff
  {
    var words := OctetWords(src);
    forall i | 0 <= i < 5
      ensures words[i] == 0
    {
      ZeroWord(src, i);
    }
    ZeroWord(src, 5);
    LongRunIsBest(words, 5, base, len);
  }

  lemma CompatibleRun(src: seq<Octet>, base: int, len: int)
    requires |src| == 16 && Compatible(src) && BestRun(OctetWords(src), base, len)
    ensures base == 0 && len == 6
  {
    var words := OctetWords(src);
    forall i | 0 <= i < 6
      ensures words[i] == 0
    {
      ZeroWord(src, i);
    }
    ZeroWord(src, 6);
    LongRunIsBest(words, 6, base, len);
  }

  lemma OtherRun(src: seq<Octet>, base: int, len: int)
    requires |src| == 16 && BestRun(OctetWords(src), base, len)
    ensures base == 0 && len == 6 ==> Compatible(src)
    ensures base == 0 && len == 5 && OctetWords(src)[5] == 0xffff ==> Mapped(src)
  {
    var words := OctetWords(src);
    if base == 0 && len >= 5 {
      forall i | 0 <= i < 2 * len
        ensures src[i] == 0
      {
        ZeroWord(src, i / 2);
      }
      ZeroWord(src, 5);
      ZeroWord(src, 6);
      if len == 6 && words[6] == 0 {
        assert ZeroRun(words, 0, 7);
      }
    }
  }

  lemma JoinTwo(a: string, b: string)
    ensures Join([a, b], ':') == a + ":" + b
  {
    assert [a, b][1..] == [b];
  }

  lemma HexFfff()
    ensures Hex(0xffff) == "ffff"
  {
    assert Hex(0xf) == "f";
    assert Hex(0xff) == "ff";
    assert Hex(0xfff) == "fff";
  }

  lemma LastFourOctets(src: seq<Octet>)
    requires |src| == 16
    ensures WordOctets(OctetWords(src)[6..]) == src[12..]
  {
    WordsSuffix(src, 6);
    OctetsThereAndBack(src[12..]);
  }

  lemma HexGroupsHaveNoDot(words: seq<Word16>)
    ensures '.' !in Groups(words)
  {
    JoinAvoids(Hexes(words), ':', '.');
  }

  lemma OneGroupThenDotted(words: seq<Word16>, dotted: string)
    requires |words| == 1 && words[0] == 0xffff
    ensures Join(Hexes(words) + [dotted], ':') == "ffff:" + dotted
  {
    HexFfff();
    JoinTwo("ffff", dotted);
    assert Hexes(words) + [dotted] == ["ffff", dotted];
    assert "ffff" + ":" + dotted == "ffff:" + dotted;
  }

  lemma MappedPrefix(dotted: string)
    ensures "::" + ("ffff:" + dotted) == "::ffff:" + dotted
  {
    assert "::" + "ffff:" == "::ffff:";
    assert "::" + ("ffff:" + dotted) == ("::" + "ffff:") + dotted;
  }

  lemma TextWithDotted(words: seq<Word16>, len: int, right: string)
    requires |words| == 8 && ZeroRun(words, 0, len) && (len == 6 || (len == 5 && words[5] == 0xffff))
    requires right == Join(Hexes(words[len..6]) + [Dotted(WordOctets(words[6..]))], ':')
    ensures Text6(words, 0, len) == "::" + right
  {
  }

  lemma MappedText(words: seq<Word16>, dotted: string)
    requires |words| == 8 && ZeroRun(words, 0, 5) && words[5] == 0xffff
    requires dotted == Dotted(WordOctets(words[6..]))
    ensures Text6(words, 0, 5) == "::ffff:" + dotted
  {
    OneGroupThenDotted(words[5..6], dotted);
    TextWithDotted(words, 5, "ffff:" + dotted);
    MappedPrefix(dotted);
  }

  lemma CompatibleText(words: seq<Word16>, dotted: string)
    requires |words| == 8 && ZeroRun(words, 0, 6)
    requires dotted == Dotted(WordOctets(words[6..]))
    ensures Text6(words, 0, 6) == "::" + dotted
  {
    assert Hexes(words[6..6]) + [dotted] == [dotted];
    TextWithDotted(words, 6, dotted);
  }

  /** Which addresses are written with an IPv4 address in them, octet by octet: the mapped ones after "::ffff:",
      the compatible ones after "::", and no other has a dot. */
  lemma DottedExactly(src: seq<Octet>, base: int, len: int)
    requires |src| == 16 && BestRun(OctetWords(src), base, len)
    ensures Mapped(src) ==> Text6(OctetWords(src), base, len) == "::ffff:" + Dotted(src[12..])
    ensures Compatible(src) ==> Text6(OctetWords(src), base, len) == "::" + Dotted(src[12..])
    ensures !Mapped(src) && !Compatible(src) ==> '.' !in Text6(OctetWords(src), base, len)
  {
    var words := OctetWords(src);
    LastFourOctets(src);
    if Mapped(src) {
      MappedRun(src, base, len);
      MappedText(words, Dotted(src[12..]));
    } else if Compatible(src) {
      CompatibleRun(src, base, len);
      CompatibleText(words, Dotted(src[12..]));
    } else {
      OtherRun(src, base, len);
      HexGroupsHaveNoDot(words);
      if base != -1 {
        HexGroupsHaveNoDot(words[..base]);
        HexGroupsHaveNoDot(words[base + len..]);
      }
    }
  }

  // ----- The IPv6 reader -----

  /** Where the first "::" starts. */
  function FindGap(s: string): Option<nat> {
    if |s| < 2 then None
    else if s[0] == ':' && s[1] == ':' then Some(0)
    else
      match FindGap(s[1..])
      case Some(k) => Some(k + 1)
      case None => None
  }

  function ReadGroup(s: string): Option<Word16> {
    match ReadNumeral(s, 16)
    case Some(v) => if 1 <= |s| <= 4 && v < 0x1_0000 then Some(v) else None
    case None => None
  }

  /** Reads groups; the last group of an address may be a dotted IPv4 address. */
  function ReadGroups(parts: seq<string>, atEnd: bool): Option<seq<Word16>> {
    if parts == [] then Some([])
    else if atEnd && |parts| == 1 && '.' in parts[0] then
      match ReadDotted(parts[0])
      case Some(a) => if |a| == 4 then Some(OctetWords(a)) else None
      case None => None
    else
      match (ReadGroup(parts[0]), ReadGroups(parts[1..], atEnd))
      case (Some(first), Some(rest)) => Some([first] + rest)
      case _ => None
  }

  function ReadSide(s: string, atEnd: bool): Option<seq<Word16>> {
    if s == [] then Some([]) else ReadGroups(Split(s, ':'), atEnd)
  }

  /** A reader of the text forms of section 2.2 of RFC 4291, giving the eight words. */
  function ReadAddress6(s: string): Option<seq<Word16>> {
    match FindGap(s)
    case None => (
      match ReadSide(s, true)
      case Some(words) => if |words| == 8 then Some(words) else None
      case None => None)
    case Some(k) =>
      if k + 2 > |s| then None
      else
        match (ReadSide(s[..k], false), ReadSide(s[k + 2..], true))
        case (Some(left), Some(right)) =>
          if |left| + |right| <= 7 then Some(left + Zeros(8 - |left| - |right|) + right) else None
        case _ => None
  }

  // ----- The reader undoes the text -----

  lemma ReadGroupOfHex(w: Word16)
    ensures ReadGroup(Hex(w)) == Some(w) && '.' !in Hex(w)
  {
    ReadOfHex(w);
    HexLength(w);
  }

  lemma ConsConcat<T>(a: seq<T>, b: seq<T>)
    requires a != []
    ensures a + b == [a[0]] + (a[1..] + b)
  {
  }

  lemma ReadGroupsStep(parts: seq<string>, first: Word16, rest: seq<Word16>, atEnd: bool)
    requires parts != [] && '.' !in parts[0] && ReadGroup(parts[0]) == Some(first)
    requires ReadGroups(parts[1..], atEnd) == Some(rest)
    ensures ReadGroups(parts, atEnd) == Some([first] + rest)
  {
  }

  lemma {:induction false} ReadGroupsOfHexes(words: seq<Word16>, more: seq<string>, rest: seq<Word16>, atEnd: bool)
    requires ReadGroups(more, atEnd) == Some(rest)
    ensures ReadGroups(Hexes(words) + more, atEnd) == Some(words + rest)
  {
    var parts := Hexes(words) + more;
    if words == [] {
      assert parts == more && words + rest == rest;
    } else {
      assert parts[1..] == Hexes(words[1..]) + more;
      ReadGroupsOfHexes(words[1..], more, rest, atEnd);
      ReadGroupOfHex(words[0]);
      ReadGroupsStep(parts, words[0], words[1..] + rest, atEnd);
      ConsConcat(words, rest);
    }
  }

  /** No "::" inside, and no colon at the end. */
  predicate Solid(s: string) {
    (forall i :: 0 <= i < |s| - 1 ==> s[i] != ':' || s[i + 1] != ':') && (s != [] ==> s[|s| - 1] != ':')
  }

  lemma {:induction false} JoinIsSolid(parts: seq<string>)
    requires forall i :: 0 <= i < |parts| ==> parts[i] != [] && ':' !in parts[i]
    ensures Solid(Join(parts, ':'))
    ensures parts != [] ==> Join(parts, ':') != [] && Join(parts, ':')[0] != ':'
  {
    if |parts| > 1 {
      JoinIsSolid(parts[1..]);
    }
  }

  lemma {:induction false} FindGapAfter(a: string, b: string)
    requires Solid(a)
    ensures FindGap(a) == None
    ensures FindGap(a + "::" + b) == Some(|a|)
  {
    var s := a + "::" + b;
    if a != [] {
      assert s[1..] == a[1..] + "::" + b;
      FindGapAfter(a[1..], b);
    }
  }

  lemma ReadSideOfGroups(words: seq<Word16>, atEnd: bool)
    ensures Solid(Groups(words))
    ensures ReadSide(Groups(words), atEnd) == Some(words)
  {
    var parts := Hexes(words);
    JoinIsSolid(parts);
    if words != [] {
      SplitOfJoin(parts, ':');
      ReadGroupsOfHexes(words, [], [], atEnd);
      assert parts + [] == parts && words + [] == words;
    }
  }

  lemma {:induction false} JoinAvoids(parts: seq<string>, sep: char, c: char)
    requires c != sep && forall i :: 0 <= i < |parts| ==> c !in parts[i]
    ensures c !in Join(parts, sep)
  {
    if |parts| > 1 {
      JoinAvoids(parts[1..], sep, c);
    }
  }

  lemma DottedShape(a: seq<Octet>)
    requires |a| == 4
    ensures ':' !in Dotted(a) && '.' in Dotted(a) && Dotted(a) != []
  {
    JoinAvoids(Decimals(a), '.', ':');
    var first := Decimals(a)[0];
    assert Dotted(a)[|first|] == '.';
  }

  lemma ReadGroupsOfDotted(a: seq<Octet>)
    requires |a| == 4
    ensures ReadGroups([Dotted(a)], true) == Some(OctetWords(a))
  {
    DottedShape(a);
    ReadDottedOfDotted(a);
  }

  lemma SplitOfColonJoin(parts: seq<string>)
    requires parts != [] && forall i :: 0 <= i < |parts| ==> parts[i] != [] && ':' !in parts[i]
    ensures Join(parts, ':') != [] && Split(Join(parts, ':'), ':') == parts
  {
    JoinIsSolid(parts);
    SplitOfJoin(parts, ':');
  }

  lemma ReadSideOfEmbedded(words: seq<Word16>, a: seq<Octet>)
    requires |a| == 4
    ensures ReadSide(Join(Hexes(words) + [Dotted(a)], ':'), true) == Some(words + OctetWords(a))
  {
    DottedShape(a);
    SplitOfColonJoin(Hexes(words) + [Dotted(a)]);
    ReadGroupsOfDotted(a);
    ReadGroupsOfHexes(words, [Dotted(a)], OctetWords(a), true);
  }

  lemma ReadWithGap(left: string, right: string, l: seq<Word16>, r: seq<Word16>)
    requires Solid(left) && ReadSide(left, false) == Some(l) && ReadSide(right, true) == Some(r)
    requires |l| + |r| <= 7
    ensures ReadAddress6(left + "::" + right) == Some(l + Zeros(8 - |l| - |r|) + r)
  {
    var s := left + "::" + right;
    FindGapAfter(left, right);
    assert s[..|left|] == left && s[|left| + 2..] == right;
  }

  lemma ZerosFillRun(words: seq<Word16>, base: int, len: int)
    requires ZeroRun(words, base, len)
    ensures words[..base] + Zeros(len) + words[base + len..] == words
  {
  }

  /** A text with a gap where a run of zeros was gives the words back, if both sides do. */
  lemma ReadGapOfRun(words: seq<Word16>, base: int, len: int, left: string, right: string)
    requires |words| == 8 && ZeroRun(words, base, len) && Solid(left)
    requires ReadSide(left, false) == Some(words[..base]) && ReadSide(right, true) == Some(words[base + len..])
    ensures ReadAddress6(left + "::" + right) == Some(words)
  {
    ReadWithGap(left, right, words[..base], words[base + len..]);
    ZerosFillRun(words, base, len);
  }

  lemma EmbeddedSides(words: seq<Word16>, len: int, right: string)
    requires |words| == 8 && 0 < len <= 6
    requires right == Join(Hexes(words[len..6]) + [Dotted(WordOctets(words[6..]))], ':')
    ensures ReadSide(right, true) == Some(words[len..])
  {
    ReadSideOfEmbedded(words[len..6], WordOctets(words[6..]));
    WordsThereAndBack(words[6..]);
    assert words[len..] == words[len..6] + words[6..];
  }

  /** What stands on the two sides of the "::", and what it reads as. */
  lemma SidesOfText(words: seq<Word16>, base: int, len: int) returns (left: string, right: string)
    requires |words| == 8 && ZeroRun(words, base, len)
    ensures Text6(words, base, len) == left + "::" + right && Solid(left)
    ensures ReadSide(left, false) == Some(words[..base]) && ReadSide(right, true) == Some(words[base + len..])
  {
    if Embedded(words, base, len) {
      left, right := [], Join(Hexes(words[len..6]) + [Dotted(WordOctets(words[6..]))], ':');
      EmbeddedSides(words, len, right);
      assert words[..0] == [] && [] + "::" + right == "::" + right;
    } else {
      left, right := Groups(words[..base]), Groups(words[base + len..]);
      ReadSideOfGroups(words[..base], false);
      ReadSideOfGroups(words[base + len..], true);
    }
  }

  lemma ReadPlainText(words: seq<Word16>)
    requires |words| == 8
    ensures ReadAddress6(Groups(words)) == Some(words)
  {
    ReadSideOfGroups(words, true);
    FindGapAfter(Groups(words), []);
  }

  /** Reading the text of an address gives the address back, whichever zero run is compressed. */
  lemma ReadText6(words: seq<Word16>, base: int, len: int)
    requires |words| == 8 && (base == -1 || ZeroRun(words, base, len))
    ensures ReadAddress6(Text6(words, base, len)) == Some(words)
  {
    if base == -1 {
      ReadPlainText(words);
    } else {
      var left, right := SidesOfText(words, base, len);
      ReadGapOfRun(words, base, len, left, right);
    }
  }

  /** The "::" of a text, and the only one, stands for the run: what is left of it reads as the words before the
      run and what is right of it as the words after. A text without a run has none. */
  lemma GapIsRun(words: seq<Word16>, base: int, len: int)
    requires |words| == 8 && (base == -1 || ZeroRun(words, base, len))
    ensures var text := Text6(words, base, len);
            match FindGap(text)
            case None => base == -1
            case Some(k) =>
              && base != -1 && k + 2 <= |text|
              && ReadSide(text[..k], false) == Some(words[..base])
              && ReadSide(text[k + 2..], true) == Some(words[base + len..])
  {
    var text := Text6(words, base, len);
    if base == -1 {
      ReadSideOfGroups(words, true);
      FindGapAfter(text, []);
    } else {
      var left, right := SidesOfText(words, base, len);
      FindGapAfter(left, right);
      assert text[..|left|] == left && text[|left| + 2..] == right;
    }
  }
}
