/** The TLVs of a Babel packet other than Updates, field by field: section 4.4 of RFC 6126 and its extensions. */
module BabelMessages {
  import opened Octets
  import opened Options

  // ----- Fields -----

  /** A 16-bit field in network order. */
  function Pair(w: Word16): (r: seq<Octet>)
    ensures |r| == 2
  {
    [w / 256, w % 256]
  }

  /** Octets of an address in a TLV; none if there is no such encoding. */
  function AddressSize(ae: Octet): Option<nat> {
    match ae
    case 0 => Some(0)
    case 1 => Some(4)
    case 2 => Some(16)
    case 3 => Some(8)
    case _ => None
  }

  function Surplus(n: nat, omitted: nat): nat { if n > omitted then n - omitted else 0 }

  /** Octets of a prefix of `plen` bits in a TLV, `omitted` of its octets being left out; none if the encoding or
      the length is wrong. A link-local prefix never has its first eight octets. */
  function PrefixSize(ae: Octet, plen: Octet, omitted: nat): Option<nat> {
    var n: nat := (plen as int + 7) / 8;
    match ae
    case 0 => if n <= 16 then Some(0) else None
    case 1 => if n <= 4 && omitted <= 4 then Some(Surplus(n, omitted)) else None
    case 2 => if n <= 16 && omitted <= 16 then Some(Surplus(n, omitted)) else None
    case 3 => if n <= 16 then Some(Surplus(n, 8)) else None
    case _ => None
  }

  // ----- Messages -----

  datatype Message =
    | PadN(zeros: seq<Octet>)
    | AckRequest(reserved: Word16, nonce: Word16, interval: Word16)
    | Ack(nonce: Word16)
    | Hello(flags: Word16, seqno: Word16, interval: Word16)
    | Ihu(ae: Octet, unused: Octet, rxcost: Word16, interval: Word16, address: seq<Octet>)
    | RouterId(reserved: Word16, id: seq<Octet>)
    | NextHop(ae: Octet, unused: Octet, address: seq<Octet>)
    | RouteRequest(ae: Octet, plen: Octet, prefix: seq<Octet>)
    | SeqnoRequest(ae: Octet, plen: Octet, seqno: Word16, hops: Octet, unused: Octet, id: seq<Octet>,
                   prefix: seq<Octet>)
    | TsPc(packetCounter: Word16, timestamp: Word32)
    | Hmac(keyId: Word16, digest: seq<Octet>)
    | SourceUpdate(ae: Octet, sourcePlen: Octet, plen: Octet, omitted: Octet, interval: Word16, seqno: Word16,
                   metric: Word16, prefix: seq<Octet>, source: seq<Octet>)
    | SourceRequest(ae: Octet, plen: Octet, sourcePlen: Octet, prefix: seq<Octet>, source: seq<Octet>)
    | SourceSeqnoRequest(ae: Octet, plen: Octet, seqno: Word16, hops: Octet, sourcePlen: Octet, id: seq<Octet>,
                         prefix: seq<Octet>, source: seq<Octet>)
    | Mac(mac: seq<Octet>)
    | Pc(counter: Word32, index: seq<Octet>)
    | ChallengeRequest(challenge: seq<Octet>)
    | ChallengeReply(challenge: seq<Octet>)
    | Unknown(kind: Octet, body: seq<Octet>)

  function KindOf(m: Message): Octet {
    match m
    case PadN(_) => 1
    case AckRequest(_, _, _) => 2
    case Ack(_) => 3
    case Hello(_, _, _) => 4
    case Ihu(_, _, _, _, _) => 5
    case RouterId(_, _) => 6
    case NextHop(_, _, _) => 7
    case RouteRequest(_, _, _) => 9
    case SeqnoRequest(_, _, _, _, _, _, _) => 10
    case TsPc(_, _) => 11
    case Hmac(_, _) => 12
    case SourceUpdate(_, _, _, _, _, _, _, _, _) => 13
    case SourceRequest(_, _, _, _, _) => 14
    case SourceSeqnoRequest(_, _, _, _, _, _, _, _) => 15
    case Mac(_) => 16
    case Pc(_, _) => 17
    case ChallengeRequest(_) => 18
    case ChallengeReply(_) => 19
    case Unknown(kind, _) => kind
  }

  /** The fields of fixed size, which come first. */
  function Fixed(m: Message): seq<Octet> {
    match m
    case AckRequest(reserved, nonce, interval) => Pair(reserved) + Pair(nonce) + Pair(interval)
    case Ack(nonce) => Pair(nonce)
    case Hello(flags, seqno, interval) => Pair(flags) + Pair(seqno) + Pair(interval)
    case Ihu(ae, unused, rxcost, interval, _) => [ae, unused] + Pair(rxcost) + Pair(interval)
    case RouterId(reserved, id) => Pair(reserved) + id
    case NextHop(ae, unused, _) => [ae, unused]
    case RouteRequest(ae, plen, _) => [ae, plen]
    case SeqnoRequest(ae, plen, seqno, hops, unused, id, _) => [ae, plen] + Pair(seqno) + [hops, unused] + id
    case TsPc(counter, timestamp) => Pair(counter) + Octets32(timestamp)
    case Hmac(keyId, _) => Pair(keyId)
    case SourceUpdate(ae, sourcePlen, plen, omitted, interval, seqno, metric, _, _) =>
      [ae, sourcePlen, plen, omitted] + Pair(interval) + Pair(seqno) + Pair(metric)
    case SourceRequest(ae, plen, sourcePlen, _, _) => [ae, plen, sourcePlen]
    case SourceSeqnoRequest(ae, plen, seqno, hops, sourcePlen, id, _, _) =>
      [ae, plen] + Pair(seqno) + [hops, sourcePlen] + id
    case Pc(counter, _) => Octets32(counter)
    case _ => []
  }

  /** The fields whose size depends on others, or on the length of the TLV. */
  function Varying(m: Message): seq<Octet> {
    match m
    case PadN(zeros) => zeros
    case Ihu(_, _, _, _, address) => address
    case NextHop(_, _, address) => address
    case RouteRequest(_, _, prefix) => prefix
    case SeqnoRequest(_, _, _, _, _, _, prefix) => prefix
    case Hmac(_, digest) => digest
    case SourceUpdate(_, _, _, _, _, _, _, prefix, source) => prefix + source
    case SourceRequest(_, _, _, prefix, source) => prefix + source
    case SourceSeqnoRequest(_, _, _, _, _, _, prefix, source) => prefix + source
    case Mac(mac) => mac
    case Pc(_, index) => index
    case ChallengeRequest(challenge) => challenge
    case ChallengeReply(challenge) => challenge
    case Unknown(_, body) => body
    case _ => []
  }

  /** What is asked of the fields: identifiers of eight octets, digests of sixteen or more, challenges of at most 192,
      and addresses and prefixes of the size their encoding demands. Nothing is asked of the address in an IHU. */
  predicate Proper(m: Message) {
    match m
    case RouterId(_, id) => |id| == 8
    case NextHop(ae, _, address) => AddressSize(ae) == Some(|address|)
    case RouteRequest(ae, plen, prefix) => PrefixSize(ae, plen, 0) == Some(|prefix|)
    case SeqnoRequest(ae, plen, _, _, _, id, prefix) => |id| == 8 && PrefixSize(ae, plen, 0) == Some(|prefix|)
    case Hmac(_, digest) => |digest| >= 16
    case SourceUpdate(ae, sourcePlen, plen, omitted, _, _, _, prefix, source) =>
      PrefixSize(ae, plen, omitted) == Some(|prefix|) && PrefixSize(ae, sourcePlen, 0) == Some(|source|)
    case SourceRequest(ae, plen, sourcePlen, prefix, source) =>
      PrefixSize(ae, plen, 0) == Some(|prefix|) && PrefixSize(ae, sourcePlen, 0) == Some(|source|)
    case SourceSeqnoRequest(ae, plen, _, _, sourcePlen, id, prefix, source) =>
      |id| == 8 && PrefixSize(ae, plen, 0) == Some(|prefix|) && PrefixSize(ae, sourcePlen, 0) == Some(|source|)
    case ChallengeRequest(challenge) => |challenge| <= 192
    case ChallengeReply(challenge) => |challenge| <= 192
    case Unknown(kind, _) => kind >= 20
    case _ => true
  }

  /** Whether more octets, such as sub-TLVs, may follow the fields. */
  predicate MayTrail(m: Message, extra: seq<Octet>) {
    m.ChallengeRequest? || m.ChallengeReply? ==> extra == []
  }

  function Body(m: Message): seq<Octet> { Fixed(m) + Varying(m) }

  /** How much of the body must be there. */
  function Needed(m: Message): nat {
    match m
    case Hmac(_, _) => 2 + 16
    case NextHop(_, _, _) => |Body(m)|
    case RouteRequest(_, _, _) => |Body(m)|
    case SeqnoRequest(_, _, _, _, _, _, _) => |Body(m)|
    case SourceUpdate(_, _, _, _, _, _, _, _, _) => |Body(m)|
    case SourceRequest(_, _, _, _, _) => |Body(m)|
    case SourceSeqnoRequest(_, _, _, _, _, _, _, _) => |Body(m)|
    case _ => |Fixed(m)|
  }
}
