/** The type-length-value format of a Babel packet body, and the walk of tcpdump/print-babel.c over it, whatever the
    TLVs mean. */
module TlvWalk {
  import opened Octets
  import opened Options
  import opened Sequences

  datatype Status = Ok | Truncated | Invalid

  // ----- On the wire -----

  /** A TLV: the padding octet, or a type, a length and a body. */
  datatype Unit = Padding | Whole(kind: Octet, body: seq<Octet>)

  /** A TLV that a packet can carry. */
  predicate Carried(u: Unit) { u.Whole? ==> u.kind != 0 && |u.body| < 256 }

  function Wire(u: Unit): (r: seq<Octet>)
    ensures r != []
  {
    match u
    case Padding => [0]
    case Whole(kind, body) => [kind, |body| % 256] + body
  }

  function WireAll(us: seq<Unit>): seq<Octet> {
    if us == [] then [] else Wire(us[0]) + WireAll(us[1..])
  }

  predicate AllCarried(us: seq<Unit>) { forall u :: u in us ==> Carried(u) }

  /** What a TLV does to a state, if it is well-formed. */
  type Meaning<!S> = (Unit, S) -> Option<S>

  function AcceptAll<S>(accept: Meaning<S>, us: seq<Unit>, st: S): Option<S> {
    if us == [] then Some(st)
    else
      match accept(us[0], st)
      case None => None
      case Some(next) => AcceptAll(accept, us[1..], next)
  }

  // ----- The walk -----

  /** What is at an octet: a TLV, or the reason why the walk ends. */
  datatype Frame = Bad(status: Status) | Found(unit: Unit)

  /** The checks on the TLV at octet i: `tlvs` octets of the packet belong to TLVs, `left` are left of the packet,
      and cp are the octets captured. */
  function Framing(cp: seq<Octet>, tlvs: nat, left: nat, i: nat): (r: Frame)
    requires i < tlvs
  {
    if i + 1 > left then Bad(Invalid)
    else if i + 1 > |cp| then Bad(Truncated)
    else if cp[i] == 0 then Found(Padding)
    else if i + 2 > tlvs || i + 2 > left then Bad(Invalid)
    else if i + 2 > |cp| then Bad(Truncated)
    else
      var end := i + 2 + cp[i + 1];
      if end > tlvs || end > left then Bad(Invalid)
      else if end > |cp| then Bad(Truncated)
      else Found(Whole(cp[i], cp[i + 2..end]))
  }

  /** The octets of a TLV are there: captured, and within the body and the packet. */
  predicate IsAt(cp: seq<Octet>, tlvs: nat, left: nat, i: nat, u: Unit) {
    var end := i + |Wire(u)|;
    Carried(u) && end <= tlvs && end <= left && end <= |cp| && cp[i..end] == Wire(u)
  }

  lemma FramingOfWire(cp: seq<Octet>, tlvs: nat, left: nat, i: nat, u: Unit)
    requires i < tlvs && IsAt(cp, tlvs, left, i, u)
    ensures Framing(cp, tlvs, left, i) == Found(u)
  {
    var w := Wire(u);
    var end := i + |w|;
    assert cp[i] == w[0];
    if u.Whole? {
      assert cp[i + 1] == w[1];
      assert cp[i + 2..end] == w[2..];
    }
  }

  lemma HeaderAndBody(cp: seq<Octet>, i: nat, n: Octet)
    requires i + 2 + n <= |cp| && cp[i + 1] == n
    ensures cp[i..i + 2 + n] == Wire(Whole(cp[i], cp[i + 2..i + 2 + n]))
  {
  }

  lemma WireOfFraming(cp: seq<Octet>, tlvs: nat, left: nat, i: nat, u: Unit)
    requires i < tlvs && Framing(cp, tlvs, left, i) == Found(u)
    ensures IsAt(cp, tlvs, left, i, u)
  {
    if u.Padding? {
      assert cp[i..i + 1] == [cp[i]];
    } else {
      HeaderAndBody(cp, i, cp[i + 1]);
    }
  }

  /** The checks find exactly the TLV whose octets are there. */
  lemma FramingIsWire(cp: seq<Octet>, tlvs: nat, left: nat, i: nat, u: Unit)
    requires i < tlvs
    ensures Framing(cp, tlvs, left, i) == Found(u) <==> IsAt(cp, tlvs, left, i, u)
  {
    if IsAt(cp, tlvs, left, i, u) {
      FramingOfWire(cp, tlvs, left, i, u);
    }
    if Framing(cp, tlvs, left, i) == Found(u) {
      WireOfFraming(cp, tlvs, left, i, u);
    }
  }

  /** Octets that were not captured can change the outcome of the checks only if it is that the TLV is cut off. */
  lemma MoreIsCaptured(cp: seq<Octet>, more: seq<Octet>, tlvs: nat, left: nat, i: nat)
    requires i < tlvs && Framing(cp, tlvs, left, i) != Bad(Truncated)
    ensures Framing(cp + more, tlvs, left, i) == Framing(cp, tlvs, left, i)
  {
    var all := cp + more;
    if left >= i + 1 && cp[i] != 0 && i + 2 <= tlvs && i + 2 <= left {
      var end := i + 2 + cp[i + 1];
      assert all[i] == cp[i] && all[i + 1] == cp[i + 1];
      if end <= |cp| {
        assert all[i + 2..end] == cp[i + 2..end];
      }
    }
  }

  /** And then they can: what is there is cut off, but not wrong. */
  lemma CutOffIsNotWrong(cp: seq<Octet>, tlvs: nat, left: nat, i: nat) returns (more: seq<Octet>)
    requires i < tlvs && Framing(cp, tlvs, left, i) == Bad(Truncated)
    ensures Framing(cp + more, tlvs, left, i).Found?
  {
    more := Zeros(i + 257);
    assert |cp| <= i ==> (cp + more)[i] == 0;
    assert |cp| == i + 1 ==> (cp + more)[i + 1] == 0;
  }

  /** One pass of the loop either ends it or goes on with the next TLV. */
  datatype Pass<+S> = Stop(status: Status) | Go(i: nat, st: S)

  function OnePass<S>(accept: Meaning<S>, cp: seq<Octet>, tlvs: nat, left: nat, i: nat, st: S): (r: Pass<S>)
    requires i < tlvs
    ensures r.Go? ==> r.i > i
  {
    match Framing(cp, tlvs, left, i)
    case Bad(status) => Stop(status)
    case Found(u) =>
      match accept(u, st)
      case None => Stop(Invalid)
      case Some(next) => Go(i + |Wire(u)|, next)
  }

  /** The walk over the TLVs from octet i on. */
  function Walk<S>(accept: Meaning<S>, cp: seq<Octet>, tlvs: nat, left: nat, i: nat, st: S): (r: (Status, S))
    decreases if i < tlvs then tlvs - i else 0
  {
    if i >= tlvs then (Ok, st)
    else
      match OnePass(accept, cp, tlvs, left, i, st)
      case Stop(status) => (status, st)
      case Go(j, next) => Walk(accept, cp, tlvs, left, j, next)
  }

  lemma WalkStep<S>(accept: Meaning<S>, cp: seq<Octet>, tlvs: nat, left: nat, i: nat, end: nat, st: S, u: Unit,
                    next: S, final: S)
    requires i < tlvs && Framing(cp, tlvs, left, i) == Found(u) && end == i + |Wire(u)|
    requires accept(u, st) == Some(next) && Walk(accept, cp, tlvs, left, end, next) == (Ok, final)
    ensures Walk(accept, cp, tlvs, left, i, st) == (Ok, final)
  {
    assert OnePass(accept, cp, tlvs, left, i, st) == Go(end, next);
  }

  lemma CarriedStep(us: seq<Unit>)
    requires us != [] && AllCarried(us)
    ensures Carried(us[0]) && AllCarried(us[1..])
  {
  }

  /** The first of some TLVs is at the start of their octets, and the others are after it. */
  lemma WireStep(cp: seq<Octet>, tlvs: nat, left: nat, i: nat, us: seq<Unit>) returns (end: nat)
    requires us != [] && AllCarried(us) && i <= tlvs <= |cp| && tlvs <= left && cp[i..tlvs] == WireAll(us)
    ensures i < end <= tlvs && end == i + |Wire(us[0])| && IsAt(cp, tlvs, left, i, us[0])
    ensures AllCarried(us[1..]) && cp[end..tlvs] == WireAll(us[1..])
  {
    var w, rest := Wire(us[0]), WireAll(us[1..]);
    SliceParts(cp, i, tlvs, w, rest);
    end := i + |w|;
    CarriedStep(us);
  }

  lemma AcceptAllStep<S>(accept: Meaning<S>, us: seq<Unit>, st: S, final: S) returns (next: S)
    requires us != [] && AcceptAll(accept, us, st) == Some(final)
    ensures accept(us[0], st) == Some(next) && AcceptAll(accept, us[1..], next) == Some(final)
  {
    next := accept(us[0], st).value;
  }

  /** Where the octets of accepted TLVs are, the walk gets to their end. */
  lemma {:induction false} WalkOfWire<S>(accept: Meaning<S>, cp: seq<Octet>, tlvs: nat, left: nat, i: nat, st: S,
                                         us: seq<Unit>, final: S)
    requires AllCarried(us) && AcceptAll(accept, us, st) == Some(final)
    requires i <= tlvs <= |cp| && tlvs <= left && cp[i..tlvs] == WireAll(us)
    ensures Walk(accept, cp, tlvs, left, i, st) == (Ok, final)
    decreases us
  {
    if us != [] {
      var next := AcceptAllStep(accept, us, st, final);
      var end := WireStep(cp, tlvs, left, i, us);
      WalkOfWire(accept, cp, tlvs, left, end, next, us[1..], final);
      FramingOfWire(cp, tlvs, left, i, us[0]);
      WalkStep(accept, cp, tlvs, left, i, end, st, us[0], next, final);
    }
  }

  /** A walk that gets to the end starts with the octets of an accepted TLV. */
  lemma WalkBegins<S>(accept: Meaning<S>, cp: seq<Octet>, tlvs: nat, left: nat, i: nat, st: S, final: S)
    returns (u: Unit, end: nat, next: S)
    requires i < tlvs && Walk(accept, cp, tlvs, left, i, st) == (Ok, final)
    ensures Carried(u) && accept(u, st) == Some(next)
    ensures i < end <= tlvs && end <= left && end <= |cp| && cp[i..end] == Wire(u)
    ensures Walk(accept, cp, tlvs, left, end, next) == (Ok, final)
  {
    u := Framing(cp, tlvs, left, i).unit;
    WireOfFraming(cp, tlvs, left, i, u);
    end, next := i + |Wire(u)|, accept(u, st).value;
  }

  lemma AcceptAllCons<S>(accept: Meaning<S>, u: Unit, us: seq<Unit>, st: S, next: S)
    requires Carried(u) && AllCarried(us) && accept(u, st) == Some(next)
    ensures AllCarried([u] + us) && AcceptAll(accept, [u] + us, st) == AcceptAll(accept, us, next)
  {
    assert ([u] + us)[1..] == us;
  }

  lemma WireCons(cp: seq<Octet>, i: nat, end: nat, to: nat, u: Unit, us: seq<Unit>)
    requires i <= end <= to <= |cp| && cp[i..end] == Wire(u) && cp[end..to] == WireAll(us)
    ensures cp[i..to] == WireAll([u] + us)
  {
    assert ([u] + us)[1..] == us;
    assert cp[i..to] == cp[i..end] + cp[end..to];
  }

  /** A walk that gets to the end has passed over the octets of accepted TLVs. */
  lemma {:induction false} WireOfWalk<S>(accept: Meaning<S>, cp: seq<Octet>, tlvs: nat, left: nat, i: nat, st: S,
                                         final: S)
    returns (us: seq<Unit>)
    requires i <= tlvs && Walk(accept, cp, tlvs, left, i, st) == (Ok, final)
    ensures i < tlvs ==> tlvs <= |cp| && tlvs <= left
    ensures AllCarried(us) && AcceptAll(accept, us, st) == Some(final)
    ensures if i < tlvs then cp[i..tlvs] == WireAll(us) else us == []
    decreases tlvs - i
  {
    us := [];
    if i < tlvs {
      var u, end, next := WalkBegins(accept, cp, tlvs, left, i, st, final);
      var rest := WireOfWalk(accept, cp, tlvs, left, end, next, final);
      AcceptAllCons(accept, u, rest, st, next);
      us := [u] + rest;
      assert cp[end..tlvs] == WireAll(rest);
      WireCons(cp, i, end, tlvs, u, rest);
    }
  }

  lemma SameFirst(u: Unit, v: Unit, a: seq<Octet>, b: seq<Octet>)
    requires Carried(u) && Carried(v) && Wire(u) + a == Wire(v) + b
    ensures u == v && a == b
  {
    var s := Wire(u) + a;
    assert s[0] == Wire(u)[0] == Wire(v)[0];
    if u.Whole? {
      assert s[1] == Wire(u)[1] == Wire(v)[1];
      assert u.body == s[2..|Wire(u)|] && v.body == s[2..|Wire(v)|];
    }
    assert a == s[|Wire(u)|..] && b == s[|Wire(v)|..];
  }

  /** Octets split into TLVs in one way only. */
  lemma {:induction false} WireIsUnique(us: seq<Unit>, vs: seq<Unit>)
    requires AllCarried(us) && AllCarried(vs) && WireAll(us) == WireAll(vs)
    ensures us == vs
    decreases us
  {
    if us != [] && vs != [] {
      SameFirst(us[0], vs[0], WireAll(us[1..]), WireAll(vs[1..]));
      WireIsUnique(us[1..], vs[1..]);
    }
  }

  /** A body is accepted if and only if its octets were captured, are within the packet, and split into TLVs that
      are well-formed in turn; the defaults at the end are what those make of them, and the split is unique. */
  lemma AcceptedIff<S>(accept: Meaning<S>, cp: seq<Octet>, tlvs: nat, left: nat, st: S, final: S)
    ensures Walk(accept, cp, tlvs, left, 0, st) == (Ok, final)
       <==> && tlvs <= |cp| && tlvs <= left
            && exists us :: AllCarried(us) && WireAll(us) == cp[..tlvs] && AcceptAll(accept, us, st) == Some(final)
    ensures tlvs <= |cp| ==> forall us, vs ::
              AllCarried(us) && AllCarried(vs) && WireAll(us) == cp[..tlvs] == WireAll(vs) ==> us == vs
  {
    if Walk(accept, cp, tlvs, left, 0, st) == (Ok, final) {
      var us := WireOfWalk(accept, cp, tlvs, left, 0, st, final);
      assert tlvs == 0 ==> WireAll(us) == cp[..0];
      assert tlvs <= |cp| && WireAll(us) == cp[..tlvs];
    }
    if tlvs <= |cp| && tlvs <= left {
      forall us | AllCarried(us) && WireAll(us) == cp[..tlvs] && AcceptAll(accept, us, st) == Some(final)
        ensures Walk(accept, cp, tlvs, left, 0, st) == (Ok, final)
      {
        assert cp[0..tlvs] == cp[..tlvs];
        WalkOfWire(accept, cp, tlvs, left, 0, st, us, final);
      }
    }
    if tlvs <= |cp| {
      forall us, vs | AllCarried(us) && AllCarried(vs) && WireAll(us) == cp[..tlvs] == WireAll(vs)
        ensures us == vs
      {
        WireIsUnique(us, vs);
      }
    }
  }
}
