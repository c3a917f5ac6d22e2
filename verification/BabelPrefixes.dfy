/** The decoder of tcpdump/print-babel.c for prefix compression, and its loop over the TLVs of a packet. */
module BabelPrefixes {
  import opened Octets
  import opened Options
  import opened Sequences
  import opened TlvWalk

  /** The first twelve octets of an IPv4-mapped address. */
  const V4_MAPPED: seq<Octet> := [0, 0, 0, 0, 0, 0, 0, 0, 0, 0, 0xFF, 0xFF]

  /** The first eight octets of a link-local address. */
  const LINK_LOCAL: seq<Octet> := [0xfe, 0x80, 0, 0, 0, 0, 0, 0]

  // ----- One prefix -----

  /** A decoded prefix: its sixteen octets, and how many octets of the TLV it took. */
  datatype Decoded = Decoded(octets: seq<Octet>, consumed: nat)

  /** Octets of a prefix of `plen` bits; a negative length stands for a whole address. */
  function PrefixOctets(ae: int, plen: int): nat {
    if plen >= 0 then (plen + 7) / 8 else if ae == 1 then 4 else 16
  }

  /** The default for an encoding is known, or omitting octets is an error. */
  predicate Default(dp: Option<seq<Octet>>) { dp.Some? ==> |dp.value| == 16 }

  /** The octets sent fill up what is omitted, and zeros fill up what is sent. */
  function Composed(head: seq<Octet>, sent: seq<Octet>): (r: Decoded)
    requires |head| + |sent| <= 16
    ensures |r.octets| == 16
  {
    Decoded(head + sent + Zeros(16 - |head| - |sent|), |sent|)
  }

  function Sent(pb: nat, omitted: nat, p: seq<Octet>): (r: seq<Octet>)
    requires pb > omitted ==> |p| >= pb - omitted
    ensures |r| == if pb > omitted then pb - omitted else 0
  {
    if pb > omitted then p[..pb - omitted] else []
  }

  function DecodeV4(pb: nat, omitted: nat, p: seq<Octet>, dp: Option<seq<Octet>>): Option<Decoded>
    requires Default(dp)
  {
    if omitted > 4 || pb > 4 || (pb > omitted && |p| < pb - omitted) || (omitted > 0 && dp.None?) then None
    else Some(Composed(if omitted > 0 then dp.value[..12 + omitted] else V4_MAPPED, Sent(pb, omitted, p)))
  }

  function DecodeV6(pb: nat, omitted: nat, p: seq<Octet>, dp: Option<seq<Octet>>): Option<Decoded>
    requires Default(dp) && pb <= 16
  {
    if omitted > 16 || (pb > omitted && |p| < pb - omitted) || (omitted > 0 && dp.None?) then None
    else Some(Composed(if omitted > 0 then dp.value[..omitted] else [], Sent(pb, omitted, p)))
  }

  function DecodeLinkLocal(pb: nat, p: seq<Octet>): Option<Decoded>
    requires pb <= 16
  {
    if pb > 8 && |p| < pb - 8 then None
    else Some(Composed(LINK_LOCAL, Sent(pb, 8, p)))
  }

  /** What the octets `p` of a TLV and the default prefix `dp` decode to, by the address encoding. */
  function Decode(ae: int, plen: int, omitted: nat, p: seq<Octet>, dp: Option<seq<Octet>>): (r: Option<Decoded>)
    requires Default(dp)
    ensures r.Some? ==> |r.value.octets| == 16 && r.value.consumed <= |p|
  {
    var pb := PrefixOctets(ae, plen);
    if pb > 16 then None
    else if ae == 0 then Some(Composed([], []))
    else if ae == 1 then DecodeV4(pb, omitted, p, dp)
    else if ae == 2 then DecodeV6(pb, omitted, p, dp)
    else if ae == 3 then DecodeLinkLocal(pb, p)
    else None
  }

  /** C's memcpy from the start of `src`. */
  method Memcpy(dst: array<Octet>, at: nat, src: seq<Octet>, n: nat)
    requires at + n <= dst.Length && n <= |src|
    modifies dst
    ensures dst[..] == old(dst[..at]) + src[..n] + old(dst[at + n..])
  {
    var i := 0;
    while i < n
      invariant i <= n
      invariant dst[..at] == old(dst[..at]) && dst[at..at + i] == src[..i] && dst[at + i..] == old(dst[at + i..])
    {
      dst[at + i] := src[i];
      i := i + 1;
    }
    assert dst[..] == dst[..at] + dst[at..at + n] + dst[at + n..];
  }

  /** The buffer `prefix` holds d, or the encoding is wrong. */
  ghost predicate Holds(prefix: array<Octet>, rc: int, d: Option<Decoded>)
    reads prefix
  {
    match d
    case Some(v) => rc == v.consumed && prefix[..] == v.octets
    case None => rc == -1
  }

  lemma SentOverZeros(head: seq<Octet>, sent: seq<Octet>, n: nat)
    requires |sent| <= n
    ensures var s := head + Zeros(n); s[..|head|] + sent + s[|head| + |sent|..] == head + sent + Zeros(n - |sent|)
  {
  }

  /** What follows the omitted octets: those sent, and zeros. */
  method FillSent(ghost head: seq<Octet>, at: nat, pb: nat, omitted: nat, p: seq<Octet>, prefix: array<Octet>)
    returns (rc: int)
    requires prefix.Length == 16 && |head| == at <= 16
    requires pb > omitted ==> pb - omitted <= |p| && at + pb - omitted <= 16
    requires prefix[..] == head + Zeros(16 - at)
    modifies prefix
    ensures rc == |Sent(pb, omitted, p)| && at + rc <= 16
    ensures prefix[..] == head + Sent(pb, omitted, p) + Zeros(16 - at - rc)
  {
    SentOverZeros(head, Sent(pb, omitted, p), 16 - at);
    rc := 0;
    if pb > omitted {
      Memcpy(prefix, at, p, pb - omitted);
      rc := pb - omitted;
    } else {
      assert head + [] == head;
    }
  }

  /** What comes before the octets sent of an IPv4 prefix. */
  method FillMapped(omitted: nat, dp: Option<seq<Octet>>, prefix: array<Octet>) returns (ok: bool)
    requires Default(dp) && prefix[..] == Zeros(16) && omitted <= 4
    modifies prefix
    ensures ok <==> omitted > 0 ==> dp.Some?
    ensures ok ==> prefix[..] == (if omitted > 0 then dp.value[..12 + omitted] else V4_MAPPED) + Zeros(4 - omitted)
  {
    Memcpy(prefix, 0, V4_MAPPED, 12);
    assert V4_MAPPED[..12] == V4_MAPPED && Zeros(16)[12..] == Zeros(4);
    assert prefix[..] == V4_MAPPED + Zeros(4);
    if omitted != 0 {
      if dp == None {
        return false;
      }
      assert prefix[12 + omitted..] == Zeros(4 - omitted);
      Memcpy(prefix, 0, dp.value, 12 + omitted);
    }
    ok := true;
  }

  method FillV4(pb: nat, omitted: nat, p: seq<Octet>, dp: Option<seq<Octet>>, prefix: array<Octet>) returns (rc: int)
    requires Default(dp) && prefix[..] == Zeros(16)
    modifies prefix
    ensures Holds(prefix, rc, DecodeV4(pb, omitted, p, dp))
  {
    if omitted > 4 || pb > 4 || (pb > omitted && |p| < pb - omitted) {
      return -1;
    }
    var ok := FillMapped(omitted, dp, prefix);
    if !ok {
      return -1;
    }
    ghost var head := if omitted > 0 then dp.value[..12 + omitted] else V4_MAPPED;
    rc := FillSent(head, 12 + omitted, pb, omitted, p, prefix);
  }

  method FillV6(pb: nat, omitted: nat, p: seq<Octet>, dp: Option<seq<Octet>>, prefix: array<Octet>) returns (rc: int)
    requires Default(dp) && pb <= 16 && prefix[..] == Zeros(16)
    modifies prefix
    ensures Holds(prefix, rc, DecodeV6(pb, omitted, p, dp))
  {
    if omitted > 16 || (pb > omitted && |p| < pb - omitted) {
      return -1;
    }
    rc := 0;
    if omitted != 0 {
      if dp == None {
        return -1;
      }
      Memcpy(prefix, 0, dp.value, omitted);
    }
    ghost var head := if omitted > 0 then dp.value[..omitted] else [];
    assert prefix[..] == head + Zeros(16 - omitted);
    rc := FillSent(head, omitted, pb, omitted, p, prefix);
  }

  method FillLinkLocal(pb: nat, p: seq<Octet>, prefix: array<Octet>) returns (rc: int)
    requires pb <= 16 && prefix[..] == Zeros(16)
    modifies prefix
    ensures Holds(prefix, rc, DecodeLinkLocal(pb, p))
  {
    if pb > 8 && |p| < pb - 8 {
      return -1;
    }
    rc := 0;
    prefix[0] := 0xfe;
    prefix[1] := 0x80;
    ghost var head := LINK_LOCAL;
    assert prefix[..] == head + Zeros(8);
    rc := FillSent(head, 8, pb, 8, p, prefix);
  }

  /** network_prefix: decodes into the caller's buffer, and returns the octets consumed, or -1 and leaves
      the buffer alone. */
  method NetworkPrefix(ae: int, plen: int, omitted: nat, p: seq<Octet>, dp: Option<seq<Octet>>, pR: array<Octet>)
    returns (rc: int)
    requires Default(dp) && pR.Length == 16
    modifies pR
    ensures Holds(pR, rc, Decode(ae, plen, omitted, p, dp))
    ensures rc == -1 ==> pR[..] == old(pR[..])
  {
    var pb;
    if plen >= 0 {
      pb := (plen + 7) / 8;
    } else if ae == 1 {
      pb := 4;
    } else {
      pb := 16;
    }
    if pb > 16 {
      return -1;
    }
    var prefix := new Octet[16](i => 0);
    assert prefix[..] == Zeros(16);
    match ae {
      case 0 =>
        rc := 0;
        assert prefix[..] == [] + [] + Zeros(16);
      case 1 =>
        rc := FillV4(pb, omitted, p, dp, prefix);
      case 2 =>
        rc := FillV6(pb, omitted, p, dp, prefix);
      case 3 =>
        rc := FillLinkLocal(pb, p, prefix);
      case _ =>
        rc := -1;
    }
    if rc >= 0 {
      Memcpy(pR, 0, prefix[..], 16);
      assert pR[..] == prefix[..];
    }
  }

  // ----- The TLVs of a packet body -----

  /** What an Update announces: its prefix, and the octets left for sub-TLVs. */
  datatype Update = Update(ae: Octet, plen: Octet, prefix: seq<Octet>, extra: seq<Octet>)

  /** The default prefixes, and the Updates seen. */
  datatype Prefixes = Prefixes(v4: seq<Octet>, v6: seq<Octet>, updates: seq<Update>)

  /** The IPv4 default always is an IPv4-mapped address. */
  predicate Valid(st: Prefixes) {
    |st.v4| == 16 && |st.v6| == 16 && st.v4[..12] == V4_MAPPED
  }

  type State = st: Prefixes | Valid(st) witness Prefixes(V4_MAPPED + [0, 0, 0, 0], Zeros(16), [])

  const INITIAL: State := Prefixes(V4_MAPPED + [0, 0, 0, 0], Zeros(16), [])

  function DefaultFor(st: State, ae: Octet): seq<Octet> { if ae == 1 then st.v4 else st.v6 }

  lemma DecodedV4IsMapped(pb: nat, omitted: nat, p: seq<Octet>, v4: seq<Octet>)
    requires |v4| == 16 && v4[..12] == V4_MAPPED && DecodeV4(pb, omitted, p, Some(v4)).Some?
    ensures DecodeV4(pb, omitted, p, Some(v4)).value.octets[..12] == V4_MAPPED
  {
  }

  /** An Update TLV: address encoding, flags, length, omitted, six octets of metrics, and the prefix. */
  function UpdateTlv(body: seq<Octet>, st: State): Option<State> {
    if |body| < 10 then None
    else
      var ae, plen := body[0], body[2];
      match Decode(ae, plen, body[3], body[10..], Some(DefaultFor(st, ae)))
      case None => None
      case Some(d) =>
        var seen := st.(updates := st.updates + [Update(ae, plen, d.octets, body[10 + d.consumed..])]);
        if body[1] < 128 then Some(seen)
        else if ae == 1 then
          DecodedV4IsMapped(PrefixOctets(ae, plen), body[3], body[10..], st.v4);
          Some(seen.(v4 := d.octets))
        else Some(seen.(v6 := d.octets))
  }

  /** Whether an address or two prefixes can be decoded from a TLV that does not change the state. */
  predicate Decodes(ae: int, plen: int, omitted: nat, p: seq<Octet>, dp: Option<seq<Octet>>)
    requires Default(dp)
  {
    Decode(ae, plen, omitted, p, dp).Some?
  }

  predicate DecodesTwo(ae: int, plen: int, srcPlen: int, omitted: nat, p: seq<Octet>, dp: Option<seq<Octet>>)
    requires Default(dp)
  {
    match Decode(ae, plen, omitted, p, dp)
    case Some(d) => Decodes(ae, srcPlen, 0, p[d.consumed..], None)
    case None => false
  }

  /** Whether a TLV other than an Update is well-formed, by type. */
  predicate OtherTlv(kind: Octet, body: seq<Octet>, st: State)
  {
    var len := |body|;
    match kind
    case 2 => len >= 6
    case 3 => len >= 2
    case 4 => len >= 6
    case 5 => len >= 6
    case 6 => len >= 10
    case 7 => len >= 2 && Decodes(body[0], -1, 0, body[2..], None)
    case 9 => len >= 2 && Decodes(body[0], body[1], 0, body[2..], None)
    case 10 => len >= 14 && Decodes(body[0], body[1], 0, body[14..], None)
    case 11 => len >= 6
    case 12 => len >= 18
    case 13 => len >= 10 && DecodesTwo(body[0], body[2], body[1], body[3], body[10..], Some(DefaultFor(st, body[0])))
    case 14 => len >= 3 && DecodesTwo(body[0], body[1], body[2], 0, body[3..], None)
    case 15 => len >= 14 && DecodesTwo(body[0], body[1], body[5], 0, body[14..], None)
    case 17 => len >= 4
    case 18 => len <= 192
    case 19 => len <= 192
    case _ => true
  }

  /** What a TLV does to the state, if it is well-formed. */
  function Accept(u: Unit, st: State): Option<State> {
    if u.Padding? then Some(st)
    else if u.kind == 8 then UpdateTlv(u.body, st)
    else if OtherTlv(u.kind, u.body, st) then Some(st)
    else None
  }

  // ----- The loop -----

  /** The Update case of the loop, which may overwrite one of the default prefixes. */
  method UpdateCase(body: seq<Octet>, st: State) returns (ok: bool, next: State)
    ensures if ok then UpdateTlv(body, st) == Some(next) else UpdateTlv(body, st) == None
  {
    ok, next := true, st;
    var len := |body|;
    if len < 10 {
      return false, st;
    }
    var ae, flags, plen, omitted := body[0], body[1], body[2], body[3];
    var prefix := new Octet[16](i => 0);
    var rc := NetworkPrefix(ae, plen, omitted, body[10..], Some(if ae == 1 then st.v4 else st.v6), prefix);
    if rc < 0 {
      return false, st;
    }
    next := next.(updates := next.updates + [Update(ae, plen, prefix[..], body[10 + rc..])]);
    if flags >= 128 {
      if ae == 1 {
        next := next.(v4 := prefix[..]);
      } else {
        next := next.(v6 := prefix[..]);
      }
    }
  }

  /** The body of the loop. */
  method PassCase(cp: seq<Octet>, tlvs: nat, left: nat, i: nat, st: State) returns (r: Pass<State>)
    requires i < tlvs
    ensures r == OnePass(Accept, cp, tlvs, left, i, st)
  {
    var frame := Framing(cp, tlvs, left, i);
    if frame.Bad? {
      return Stop(frame.status);
    }
    var ok, next := true, st;
    if frame.unit.Whole? {
      var kind, body := frame.unit.kind, frame.unit.body;
      if kind == 8 {
        ok, next := UpdateCase(body, st);
      } else {
        ok := OtherTlv(kind, body, st);
      }
    }
    r := if ok then Go(i + |Wire(frame.unit)|, next) else Stop(Invalid);
  }

  /** The loop over the TLVs. */
  method BabelTlvs(cp: seq<Octet>, tlvs: nat, left: nat) returns (status: Status, st: State)
    ensures (status, st) == Walk(Accept, cp, tlvs, left, 0, INITIAL)
  {
    var i := 0;
    status, st := Ok, INITIAL;
    while i < tlvs
      invariant Walk(Accept, cp, tlvs, left, i, st) == Walk(Accept, cp, tlvs, left, 0, INITIAL)
      decreases tlvs - i
    {
      var pass := PassCase(cp, tlvs, left, i, st);
      if pass.Stop? {
        return pass.status, st;
      }
      i, st := pass.i, pass.st;
    }
  }

  // ----- Other encodings -----

  /** What an Update with another address encoding announces. */
  function AnnouncedElsewhere(body: seq<Octet>): seq<Octet>
    requires |body| >= 10 && PrefixOctets(3, body[2]) <= 16
    requires body[0] != 0 && PrefixOctets(3, body[2]) > 8 ==> |body| - 10 >= PrefixOctets(3, body[2]) - 8
  {
    if body[0] == 0 then Zeros(16) else Composed(LINK_LOCAL, Sent(PrefixOctets(3, body[2]), 8, body[10..])).octets
  }

  /** An Update with another address encoding has no default of its own here: with the prefix flag it becomes that
      of IPv6. It leaves the defaults as they were exactly when the flag is clear or the octets it announces are
      the IPv6 default already. */
  lemma OtherEncodings(body: seq<Octet>, st: State)
    requires UpdateTlv(body, st).Some? && body[0] != 1 && body[0] != 2
    ensures PrefixOctets(3, body[2]) <= 16
    ensures body[0] != 0 && PrefixOctets(3, body[2]) > 8 ==> |body| - 10 >= PrefixOctets(3, body[2]) - 8
    ensures var next := UpdateTlv(body, st).value;
            next.v4 == st.v4 && (next.v6 == st.v6 <==> body[1] < 128 || st.v6 == AnnouncedElsewhere(body))
  {
    assert [] + [] + Zeros(16) == Zeros(16);
  }

  /** A wildcard Update with the prefix flag replaces the IPv6 default by zeros. */
  lemma OtherEncodingExample()
    ensures var body, v6: seq<Octet> := [0, 128, 0, 0, 0, 0, 0, 0, 0, 0], [0x20, 0x01] + Zeros(14);
            var st: State := Prefixes(V4_MAPPED + [0, 0, 0, 0], v6, []);
            UpdateTlv(body, st).Some? && UpdateTlv(body, st).value.v6 == Zeros(16) != v6
  {
    assert [] + [] + Zeros(16) == Zeros(16);
    var v6: seq<Octet> := [0x20, 0x01] + Zeros(14);
    assert v6[0] != Zeros(16)[0];
  }
}
