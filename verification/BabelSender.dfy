/** A Babel sender by RFC 6126, and its agreement with the decoder of tcpdump/print-babel.c. */
module BabelSender {
  import opened Octets
  import opened Options
  import opened TlvWalk
  import opened BabelPrefixes
  import opened BabelMessages

  // ----- The size of prefixes -----

  /** A prefix is decoded exactly when its octets are there, and takes just those. */
  lemma DecodesIff(ae: Octet, plen: Octet, omitted: nat, p: seq<Octet>, dp: Option<seq<Octet>>)
    requires Default(dp) && (omitted > 0 ==> dp.Some?)
    ensures Decode(ae, plen, omitted, p, dp).Some?
       <==> PrefixSize(ae, plen, omitted).Some? && |p| >= PrefixSize(ae, plen, omitted).value
    ensures Decode(ae, plen, omitted, p, dp).Some? ==>
              Decode(ae, plen, omitted, p, dp).value.consumed == PrefixSize(ae, plen, omitted).value
  {
  }

  /** An Update is well-formed exactly when it has its ten octets and those of its prefix. */
  lemma UpdateAcceptedIff(body: seq<Octet>, st: State)
    ensures Accept(Whole(8, body), st).Some?
       <==> && |body| >= 10 && PrefixSize(body[0], body[2], body[3]).Some?
            && |body| >= 10 + PrefixSize(body[0], body[2], body[3]).value
  {
    if |body| >= 10 {
      DecodesIff(body[0], body[2], body[3], body[10..], Some(DefaultFor(st, body[0])));
    }
  }

  /** The first Update of a packet: the octets it omits are zero, after the IPv4-mapped ones if it is for IPv4. */
  lemma FirstUpdate(body: seq<Octet>, head: seq<Octet>, n: nat)
    requires |body| >= 10 && (body[0] == 1 || body[0] == 2) && Accept(Whole(8, body), INITIAL).Some?
    requires head == if body[0] == 1 then [0, 0, 0, 0, 0, 0, 0, 0, 0, 0, 0xff, 0xff] else []
    requires PrefixSize(body[0], body[2], body[3]) == Some(n) && 10 + n <= |body|
    ensures |head| + body[3] + n <= 16
    ensures Accept(Whole(8, body), INITIAL).value.updates
         == [Update(body[0], body[2], head + Zeros(body[3]) + body[10..10 + n] + Zeros(16 - |head| - body[3] - n),
                    body[10 + n..])]
  {
    DecodesIff(body[0], body[2], body[3], body[10..], Some(DefaultFor(INITIAL, body[0])));
    assert body[10..][..n] == body[10..10 + n];
    assert DefaultFor(INITIAL, body[0])[..|head| + body[3]] == head + Zeros(body[3]);
    assert head + Zeros(0) == head;
  }

  lemma AddressIff(ae: Octet, p: seq<Octet>)
    ensures Decodes(ae, -1, 0, p, None) <==> AddressSize(ae).Some? && |p| >= AddressSize(ae).value
  {
  }

  lemma DecodesTwoIff(ae: Octet, plen: Octet, sourcePlen: Octet, omitted: nat, p: seq<Octet>, dp: Option<seq<Octet>>)
    requires Default(dp) && (omitted > 0 ==> dp.Some?)
    ensures var a, b := PrefixSize(ae, plen, omitted), PrefixSize(ae, sourcePlen, 0);
            DecodesTwo(ae, plen, sourcePlen, omitted, p, dp) <==> a.Some? && b.Some? && |p| >= a.value + b.value
  {
    DecodesIff(ae, plen, omitted, p, dp);
    if Decode(ae, plen, omitted, p, dp).Some? {
      DecodesIff(ae, sourcePlen, 0, p[Decode(ae, plen, omitted, p, dp).value.consumed..], None);
    }
  }

  /** The sixteen octets a whole address stands for, by its encoding. */
  lemma WholeAddress(ae: Octet, address: seq<Octet>, rest: seq<Octet>)
    requires AddressSize(ae) == Some(|address|)
    ensures Decode(ae, -1, 0, address + rest, None)
         == Some(Decoded(match ae
                         case 0 => Zeros(16)
                         case 1 => [0, 0, 0, 0, 0, 0, 0, 0, 0, 0, 0xff, 0xff] + address
                         case 2 => address
                         case _ => [0xfe, 0x80, 0, 0, 0, 0, 0, 0] + address, |address|))
  {
    assert (address + rest)[..|address|] == address;
    assert [] + address + Zeros(0) == address && [] + [] + Zeros(16) == Zeros(16);
    assert V4_MAPPED + address + Zeros(0) == V4_MAPPED + address;
    assert LINK_LOCAL + address + Zeros(0) == LINK_LOCAL + address;
  }

  // ----- The other TLVs -----

  /** Octets that begin like the fields of a message: cut off somewhere, or with more after them. */
  predicate Begins(body: seq<Octet>, m: Message) { body <= Body(m) || Body(m) <= body }

  predicate HasPrefix(m: Message) {
    m.NextHop? || m.RouteRequest? || m.SeqnoRequest? || m.SourceUpdate? || m.SourceRequest? || m.SourceSeqnoRequest?
  }

  lemma FixedBegins(body: seq<Octet>, m: Message)
    requires Begins(body, m) && |body| >= |Fixed(m)|
    ensures body[..|Fixed(m)|] == Fixed(m)
  {
    var n := |Fixed(m)|;
    assert Body(m)[..n] == Fixed(m);
    if body <= Body(m) {
      assert body == Body(m)[..|body|];
    } else {
      assert Body(m) == body[..|Body(m)|];
    }
  }

  lemma NextHopIff(m: Message, body: seq<Octet>, st: State)
    requires m.NextHop? && Proper(m) && |body| >= 2 && body[0] == m.ae
    ensures OtherTlv(7, body, st) <==> |body| >= Needed(m)
  {
    AddressIff(m.ae, body[2..]);
  }

  lemma RouteRequestIff(m: Message, body: seq<Octet>, st: State)
    requires m.RouteRequest? && Proper(m) && |body| >= 2 && body[0] == m.ae && body[1] == m.plen
    ensures OtherTlv(9, body, st) <==> |body| >= Needed(m)
  {
    DecodesIff(m.ae, m.plen, 0, body[2..], None);
  }

  lemma SeqnoRequestIff(m: Message, body: seq<Octet>, st: State)
    requires m.SeqnoRequest? && Proper(m) && |body| >= 14 && body[0] == m.ae && body[1] == m.plen
    ensures OtherTlv(10, body, st) <==> |body| >= Needed(m)
  {
    DecodesIff(m.ae, m.plen, 0, body[14..], None);
  }

  lemma SourceUpdateIff(m: Message, body: seq<Octet>, st: State)
    requires m.SourceUpdate? && Proper(m) && |body| >= 10
    requires body[0] == m.ae && body[1] == m.sourcePlen && body[2] == m.plen && body[3] == m.omitted
    ensures OtherTlv(13, body, st) <==> |body| >= Needed(m)
  {
    DecodesTwoIff(m.ae, m.plen, m.sourcePlen, m.omitted, body[10..], Some(DefaultFor(st, m.ae)));
  }

  lemma SourceRequestIff(m: Message, body: seq<Octet>, st: State)
    requires m.SourceRequest? && Proper(m) && |body| >= 3
    requires body[0] == m.ae && body[1] == m.plen && body[2] == m.sourcePlen
    ensures OtherTlv(14, body, st) <==> |body| >= Needed(m)
  {
    DecodesTwoIff(m.ae, m.plen, m.sourcePlen, 0, body[3..], None);
  }

  lemma SourceSeqnoRequestIff(m: Message, body: seq<Octet>, st: State)
    requires m.SourceSeqnoRequest? && Proper(m) && |body| >= 14
    requires body[0] == m.ae && body[1] == m.plen && body[5] == m.sourcePlen
    ensures OtherTlv(15, body, st) <==> |body| >= Needed(m)
  {
    DecodesTwoIff(m.ae, m.plen, m.sourcePlen, 0, body[14..], None);
  }

  lemma WithPrefixIff(m: Message, body: seq<Octet>, st: State)
    requires HasPrefix(m) && Proper(m) && |body| >= |Fixed(m)| && body[..|Fixed(m)|] == Fixed(m)
    ensures OtherTlv(KindOf(m), body, st) <==> |body| >= Needed(m)
  {
    var fixed := Fixed(m);
    assert forall i :: 0 <= i < |fixed| ==> body[i] == fixed[i];
    match m {
      case NextHop(_, _, _) => NextHopIff(m, body, st);
      case RouteRequest(_, _, _) => RouteRequestIff(m, body, st);
      case SeqnoRequest(_, _, _, _, _, _, _) => SeqnoRequestIff(m, body, st);
      case SourceUpdate(_, _, _, _, _, _, _, _, _) => SourceUpdateIff(m, body, st);
      case SourceRequest(_, _, _, _, _) => SourceRequestIff(m, body, st);
      case SourceSeqnoRequest(_, _, _, _, _, _, _, _) => SourceSeqnoRequestIff(m, body, st);
    }
  }

  lemma ShortIsRefused(m: Message, body: seq<Octet>, st: State)
    requires HasPrefix(m) && Proper(m) && |body| < |Fixed(m)|
    ensures !OtherTlv(KindOf(m), body, st)
  {
  }

  lemma WithoutPrefixIff(m: Message, body: seq<Octet>, st: State)
    requires !HasPrefix(m) && Proper(m) && (m.ChallengeRequest? || m.ChallengeReply? ==> |body| <= 192)
    ensures OtherTlv(KindOf(m), body, st) <==> |body| >= Needed(m)
  {
  }

  /** A TLV that begins like the fields of a message is well-formed if and only if it has all that is needed of
      them, whatever their values, whatever follows them and whatever the defaults are. */
  lemma MessageAcceptedIff(m: Message, body: seq<Octet>, st: State)
    requires Proper(m) && Begins(body, m) && (|body| > |Body(m)| ==> MayTrail(m, body[|Body(m)|..]))
    ensures Accept(Whole(KindOf(m), body), st) == if |body| >= Needed(m) then Some(st) else None
  {
    if !HasPrefix(m) {
      WithoutPrefixIff(m, body, st);
    } else if |body| < |Fixed(m)| {
      ShortIsRefused(m, body, st);
    } else {
      FixedBegins(body, m);
      WithPrefixIff(m, body, st);
    }
  }

  // ----- Every well-formed TLV is one of those -----

  function WordAt(body: seq<Octet>, i: nat): Word16
    requires i + 2 <= |body|
  {
    Load16(BigEndian, body[i], body[i + 1])
  }

  lemma PairAt(body: seq<Octet>, i: nat)
    requires i + 2 <= |body|
    ensures Pair(WordAt(body, i)) == body[i..i + 2]
  {
    assert body[i..i + 2] == [body[i], body[i + 1]];
  }

  lemma ThreePairs(body: seq<Octet>, i: nat)
    requires i + 6 <= |body|
    ensures Pair(WordAt(body, i)) + Pair(WordAt(body, i + 2)) + Pair(WordAt(body, i + 4)) == body[i..i + 6]
  {
    PairAt(body, i);
    PairAt(body, i + 2);
    PairAt(body, i + 4);
  }

  /** Messages without a prefix, read off a body: those made of 16-bit fields, those with longer ones, and those that
      take up the whole body. */
  lemma ReadPairs(kind: Octet, body: seq<Octet>, st: State) returns (m: Message)
    requires kind in {2, 3, 4} && OtherTlv(kind, body, st)
    ensures Proper(m) && KindOf(m) == kind && Body(m) <= body
  {
    if kind == 3 {
      m := Ack(WordAt(body, 0));
      PairAt(body, 0);
    } else {
      var a, b, c := WordAt(body, 0), WordAt(body, 2), WordAt(body, 4);
      m := if kind == 2 then AckRequest(a, b, c) else Hello(a, b, c);
      ThreePairs(body, 0);
    }
  }

  lemma ReadLonger(kind: Octet, body: seq<Octet>, st: State) returns (m: Message)
    requires kind in {6, 11, 17} && OtherTlv(kind, body, st)
    ensures Proper(m) && KindOf(m) == kind && Body(m) <= body
  {
    if kind == 17 {
      m := Pc(Big32(body[..4]), body[4..]);
      Octets32OfBig32(body[..4]);
    } else {
      PairAt(body, 0);
      m := if kind == 6 then RouterId(WordAt(body, 0), body[2..10]) else TsPc(WordAt(body, 0), Big32(body[2..6]));
      Octets32OfBig32(body[2..6]);
    }
  }

  lemma ReadIhu(body: seq<Octet>, m: Message)
    requires |body| >= 6 && m == Ihu(body[0], body[1], WordAt(body, 2), WordAt(body, 4), body[6..])
    ensures Body(m) == body
  {
    PairAt(body, 2);
    PairAt(body, 4);
    assert body == [body[0], body[1]] + body[2..4] + body[4..6] + body[6..];
  }

  lemma ReadHmac(body: seq<Octet>, m: Message)
    requires |body| >= 18 && m == Hmac(WordAt(body, 0), body[2..])
    ensures Body(m) == body
  {
    PairAt(body, 0);
    assert body == body[0..2] + body[2..];
  }

  lemma ReadWhole(kind: Octet, body: seq<Octet>, st: State) returns (m: Message)
    requires (kind in {1, 5, 12, 16, 18, 19} || kind >= 20) && OtherTlv(kind, body, st)
    ensures Proper(m) && KindOf(m) == kind && Body(m) == body
  {
    if kind == 5 {
      m := Ihu(body[0], body[1], WordAt(body, 2), WordAt(body, 4), body[6..]);
      ReadIhu(body, m);
    } else if kind == 12 {
      m := Hmac(WordAt(body, 0), body[2..]);
      ReadHmac(body, m);
    } else {
      m := if kind == 1 then PadN(body) else if kind == 16 then Mac(body) else if kind == 18 then ChallengeRequest(body)
           else if kind == 19 then ChallengeReply(body) else Unknown(kind, body);
    }
  }

  lemma ReadOnePrefix(kind: Octet, body: seq<Octet>, st: State) returns (m: Message)
    requires kind in {7, 9, 10} && OtherTlv(kind, body, st)
    ensures Proper(m) && KindOf(m) == kind && Body(m) <= body
  {
    if kind == 7 {
      AddressIff(body[0], body[2..]);
      m := NextHop(body[0], body[1], body[2..2 + AddressSize(body[0]).value]);
    } else if kind == 9 {
      DecodesIff(body[0], body[1], 0, body[2..], None);
      m := RouteRequest(body[0], body[1], body[2..2 + PrefixSize(body[0], body[1], 0).value]);
    } else {
      DecodesIff(body[0], body[1], 0, body[14..], None);
      var n := PrefixSize(body[0], body[1], 0).value;
      m := SeqnoRequest(body[0], body[1], WordAt(body, 2), body[4], body[5], body[6..14], body[14..14 + n]);
      PairAt(body, 2);
      assert body[..14 + n] == [body[0], body[1]] + body[2..4] + [body[4], body[5]] + body[6..14] + body[14..14 + n];
    }
  }

  /** Two prefixes of given sizes one after the other, read off a body. */
  lemma ReadTwo(body: seq<Octet>, at: nat, a: Option<nat>, b: Option<nat>)
    returns (prefix: seq<Octet>, source: seq<Octet>)
    requires at <= |body| && a.Some? && b.Some? && |body[at..]| >= a.value + b.value
    ensures a == Some(|prefix|) && b == Some(|source|) && body[..at] + (prefix + source) <= body
  {
    var mid := at + a.value;
    prefix, source := body[at..mid], body[mid..mid + b.value];
    TwoSlices(body, at, mid, mid + b.value);
  }

  lemma TwoSlices(body: seq<Octet>, at: nat, mid: nat, end: nat)
    requires at <= mid <= end <= |body|
    ensures body[..at] + (body[at..mid] + body[mid..end]) <= body
  {
    assert body[at..mid] + body[mid..end] == body[at..end];
    assert body[..at] + body[at..end] == body[..end];
  }

  lemma ReadSourceUpdate(body: seq<Octet>, st: State) returns (m: Message)
    requires OtherTlv(13, body, st)
    ensures m.SourceUpdate? && Proper(m) && Body(m) <= body
  {
    DecodesTwoIff(body[0], body[2], body[1], body[3], body[10..], Some(DefaultFor(st, body[0])));
    var a, b := PrefixSize(body[0], body[2], body[3]), PrefixSize(body[0], body[1], 0);
    var prefix, source := ReadTwo(body, 10, a, b);
    var interval, seqno, metric := WordAt(body, 4), WordAt(body, 6), WordAt(body, 8);
    m := SourceUpdate(body[0], body[1], body[2], body[3], interval, seqno, metric, prefix, source);
    ThreePairs(body, 4);
    assert Fixed(m) == body[..10];
  }

  lemma ReadSourceRequest(body: seq<Octet>, st: State) returns (m: Message)
    requires OtherTlv(14, body, st)
    ensures m.SourceRequest? && Proper(m) && Body(m) <= body
  {
    DecodesTwoIff(body[0], body[1], body[2], 0, body[3..], None);
    var a, b := PrefixSize(body[0], body[1], 0), PrefixSize(body[0], body[2], 0);
    var prefix, source := ReadTwo(body, 3, a, b);
    m := SourceRequest(body[0], body[1], body[2], prefix, source);
    assert Fixed(m) == body[..3];
  }

  lemma ReadSourceSeqnoRequest(body: seq<Octet>, st: State) returns (m: Message)
    requires OtherTlv(15, body, st)
    ensures m.SourceSeqnoRequest? && Proper(m) && Body(m) <= body
  {
    DecodesTwoIff(body[0], body[1], body[5], 0, body[14..], None);
    var a, b := PrefixSize(body[0], body[1], 0), PrefixSize(body[0], body[5], 0);
    var prefix, source := ReadTwo(body, 14, a, b);
    m := SourceSeqnoRequest(body[0], body[1], WordAt(body, 2), body[4], body[5], body[6..14], prefix, source);
    PairAt(body, 2);
    assert Fixed(m) == body[..14];
  }

  /** A TLV that is accepted has the fields of a message, and perhaps more after them. */
  lemma AcceptedIsMessage(kind: Octet, body: seq<Octet>, st: State) returns (m: Message, trailing: seq<Octet>)
    requires kind != 0 && kind != 8 && Accept(Whole(kind, body), st).Some?
    ensures Proper(m) && MayTrail(m, trailing) && KindOf(m) == kind && body == Body(m) + trailing
  {
    if kind in {2, 3, 4} {
      m := ReadPairs(kind, body, st);
    } else if kind in {6, 11, 17} {
      m := ReadLonger(kind, body, st);
    } else if kind in {7, 9, 10} {
      m := ReadOnePrefix(kind, body, st);
    } else if kind == 13 {
      m := ReadSourceUpdate(body, st);
    } else if kind == 14 {
      m := ReadSourceRequest(body, st);
    } else if kind == 15 {
      m := ReadSourceSeqnoRequest(body, st);
    } else {
      m := ReadWhole(kind, body, st);
    }
    trailing := body[|Body(m)|..];
  }

  // ----- A sender -----

  /** What a sender puts into a packet: padding, an Update, or any other TLV, which octets such as sub-TLVs may
      follow. The six octets `metrics` are the interval, sequence number and metric. */
  datatype Item =
    | Pad1
    | Other(message: Message, trailing: seq<Octet>)
    | Announce(ae: Octet, flags: Octet, plen: Octet, omitted: Octet, metrics: seq<Octet>, prefix: seq<Octet>,
               extra: seq<Octet>)

  /** Where the prefix starts in its sixteen octets. */
  function Base(ae: Octet): nat { if ae == 1 then 12 else 0 }

  /** How many of the octets of the prefix are not sent: those omitted, and for a link-local prefix the eight that
      are always the same. */
  function Skipped(item: Item): nat
    requires item.Announce?
  {
    if item.ae == 3 then 8 else item.omitted
  }

  /** The octets of the prefix that are sent: those up to its length that are not skipped. */
  function SentOctets(item: Item): seq<Octet>
    requires item.Announce? && |item.prefix| == 16 && Base(item.ae) + PrefixOctets(item.ae, item.plen) <= 16
  {
    var pb := PrefixOctets(item.ae, item.plen);
    if item.ae != 0 && pb > Skipped(item) then item.prefix[Base(item.ae) + Skipped(item)..Base(item.ae) + pb] else []
  }

  /** The octets that are not sent are what the receiver puts there: those of the default for the encoding, or the
      link-local prefix. The wildcard encoding stands for the prefix of length zero. */
  predicate Omittable(item: Item, st: State)
    requires item.Announce? && |item.prefix| == 16
  {
    var head := Base(item.ae) + Skipped(item);
    if item.ae == 0 then item.prefix == Zeros(16)
    else if item.ae == 3 then item.prefix[..8] == LINK_LOCAL
    else
      && head <= 16 && item.prefix[..head] == DefaultFor(st, item.ae)[..head]
      && (item.ae == 1 ==> item.prefix[..12] == V4_MAPPED)
  }

  /** What section 4.4.9 of RFC 6126 lets a sender do: an Update may omit leading octets that agree with the
      current default of its encoding; the prefix is zero beyond its length. Only for IPv4 and IPv6 is there a
      default to set. */
  predicate MaySend(item: Item, st: State)
  {
    match item
    case Pad1 => true
    case Other(m, trailing) => Proper(m) && MayTrail(m, trailing) && |Body(m)| + |trailing| < 256
    case Announce(ae, flags, plen, omitted, metrics, prefix, extra) =>
      && (ae == 1 || ae == 2 || ((ae == 0 || ae == 3) && flags < 128)) && |prefix| == 16 && |metrics| == 6
      && var base, pb := Base(ae), PrefixOctets(ae, plen);
      && base + pb <= 16 && Omittable(item, st)
      && (forall i :: base + pb <= i < 16 && base + Skipped(item) <= i ==> prefix[i] == 0)
      && 10 + |SentOctets(item)| + |extra| < 256
  }

  function UpdateBody(item: Item): (r: seq<Octet>)
    requires item.Announce? && |item.prefix| == 16 && Base(item.ae) + PrefixOctets(item.ae, item.plen) <= 16
  {
    [item.ae, item.flags, item.plen, item.omitted] + item.metrics + SentOctets(item) + item.extra
  }

  /** The TLV that is sent. */
  function UnitOf(item: Item, st: State): (r: Unit)
    requires MaySend(item, st)
  {
    match item
    case Pad1 => Padding
    case Other(m, trailing) => Whole(KindOf(m), Body(m) + trailing)
    case Announce(_, _, _, _, _, _, _) => Whole(8, UpdateBody(item))
  }

  /** What the sender then takes the state of the receiver to be: an Update with the prefix flag is the
      new default of its encoding. */
  function After(item: Item, st: State): (r: State)
    requires MaySend(item, st)
  {
    if !item.Announce? then st
    else
      var seen := st.(updates := st.updates + [Update(item.ae, item.plen, item.prefix, item.extra)]);
      if item.flags < 128 then seen else if item.ae == 1 then seen.(v4 := item.prefix) else seen.(v6 := item.prefix)
  }

  predicate MaySendAll(items: seq<Item>, st: State)
  {
    items == [] || (MaySend(items[0], st) && MaySendAll(items[1..], After(items[0], st)))
  }

  function UnitsOf(items: seq<Item>, st: State): seq<Unit>
    requires MaySendAll(items, st)
  {
    if items == [] then [] else [UnitOf(items[0], st)] + UnitsOf(items[1..], After(items[0], st))
  }

  /** The octets that are sent. */
  function EncodeAll(items: seq<Item>, st: State): seq<Octet>
    requires MaySendAll(items, st)
  {
    WireAll(UnitsOf(items, st))
  }

  function AfterAll(items: seq<Item>, st: State): State
    requires MaySendAll(items, st)
  {
    if items == [] then st else AfterAll(items[1..], After(items[0], st))
  }

  // ----- Sender and receiver agree -----

  /** A prefix is what is skipped, what is sent, and zeros. */
  lemma PrefixParts(prefix: seq<Octet>, base: nat, skipped: nat, pb: nat)
    requires |prefix| == 16 && base + skipped <= 16 && base + pb <= 16
    requires forall i :: base + pb <= i < 16 && base + skipped <= i ==> prefix[i] == 0
    ensures var sent := if pb > skipped then prefix[base + skipped..base + pb] else [];
            Composed(prefix[..base + skipped], sent) == Decoded(prefix, |sent|)
  {
    var sent := if pb > skipped then prefix[base + skipped..base + pb] else [];
    assert prefix == prefix[..base + skipped] + sent + Zeros(16 - base - skipped - |sent|);
  }

  /** Decoding what is sent for a prefix gives the prefix, and takes exactly the octets sent. */
  lemma DecodeWhatIsSent(item: Item, st: State)
    requires item.Announce? && MaySend(item, st)
    ensures Decode(item.ae, item.plen, item.omitted, SentOctets(item) + item.extra, Some(DefaultFor(st, item.ae)))
         == Some(Decoded(item.prefix, |SentOctets(item)|))
  {
    var base, pb, sent := Base(item.ae), PrefixOctets(item.ae, item.plen), SentOctets(item);
    assert (sent + item.extra)[..|sent|] == sent;
    if item.ae == 0 {
      assert [] + [] + Zeros(16) == Zeros(16);
    } else {
      PrefixParts(item.prefix, base, Skipped(item), pb);
      if item.omitted == 0 {
        assert item.prefix[..0] == [];
      }
    }
  }

  lemma BodyParts(item: Item)
    requires item.Announce? && |item.metrics| == 6 && |item.prefix| == 16
    requires Base(item.ae) + PrefixOctets(item.ae, item.plen) <= 16
    ensures var body := UpdateBody(item);
            && |body| == 10 + |SentOctets(item)| + |item.extra|
            && body[0] == item.ae && body[1] == item.flags && body[2] == item.plen && body[3] == item.omitted
            && body[10..] == SentOctets(item) + item.extra
            && body[10 + |SentOctets(item)|..] == item.extra
  {
  }

  /** The receiver makes of one TLV what the sender expects. */
  lemma UnitIsAccepted(item: Item, st: State)
    requires MaySend(item, st)
    ensures Carried(UnitOf(item, st)) && Accept(UnitOf(item, st), st) == Some(After(item, st))
  {
    match item {
      case Pad1 =>
      case Other(m, trailing) =>
        MessageAcceptedIff(m, Body(m) + trailing, st);
      case Announce(_, _, _, _, _, _, _) =>
        BodyParts(item);
        DecodeWhatIsSent(item, st);
    }
  }

  lemma {:induction false} UnitsAreAccepted(items: seq<Item>, st: State)
    requires MaySendAll(items, st)
    ensures AllCarried(UnitsOf(items, st)) && AcceptAll(Accept, UnitsOf(items, st), st) == Some(AfterAll(items, st))
    decreases items
  {
    if items != [] {
      var next := After(items[0], st);
      UnitIsAccepted(items[0], st);
      UnitsAreAccepted(items[1..], next);
      assert UnitsOf(items, st)[1..] == UnitsOf(items[1..], next);
    }
  }

  /** Agreement: whatever a sender may send, from any pair of defaults and whatever follows it, the receiver walks
      to the end of it, sees every prefix as the sender meant it, and ends with the sender's defaults. */
  lemma Agreement(items: seq<Item>, st: State, before: seq<Octet>, tail: seq<Octet>, left: nat)
    requires MaySendAll(items, st)
    requires left >= |before + EncodeAll(items, st)|
    ensures var cp := before + EncodeAll(items, st);
            Walk(Accept, cp + tail, |cp|, left, |before|, st) == (Ok, AfterAll(items, st))
  {
    var cp := before + EncodeAll(items, st);
    UnitsAreAccepted(items, st);
    assert (cp + tail)[|before|..|cp|] == EncodeAll(items, st);
    WalkOfWire(Accept, cp + tail, |cp|, left, |before|, st, UnitsOf(items, st), AfterAll(items, st));
  }

  /** A whole packet body, from the defaults a packet starts with, with or without a trailer. */
  lemma PacketAgreement(items: seq<Item>, trailer: seq<Octet>, left: nat)
    requires MaySendAll(items, INITIAL) && left >= |EncodeAll(items, INITIAL)|
    ensures var cp := EncodeAll(items, INITIAL);
            Walk(Accept, cp + trailer, |cp|, left, 0, INITIAL) == (Ok, AfterAll(items, INITIAL))
  {
    Agreement(items, INITIAL, [], trailer, left);
    assert [] + EncodeAll(items, INITIAL) == EncodeAll(items, INITIAL);
  }

  lemma OneTlv(u: Unit)
    ensures WireAll([u]) == Wire(u)
  {
    assert [u][1..] == [] && Wire(u) + [] == Wire(u);
  }

  /** One Hello, from its octets. */
  lemma HelloExample(cp: seq<Octet>)
    requires cp == [4, 6, 0, 0, 0, 1, 1, 144]
    ensures Walk(Accept, cp, 8, 8, 0, INITIAL) == (Ok, INITIAL)
  {
    var m, body: seq<Octet> := Hello(0, 1, 400), [0, 0, 0, 1, 1, 144];
    var us := [Whole(4, body)];
    assert Body(m) == body;
    MessageAcceptedIff(m, body, INITIAL);
    assert us[1..] == [] && AcceptAll(Accept, us[1..], INITIAL) == Some(INITIAL);
    OneTlv(us[0]);
    assert cp[0..8] == Wire(us[0]);
    WalkOfWire(Accept, cp, 8, 8, 0, INITIAL, us, INITIAL);
  }
}
