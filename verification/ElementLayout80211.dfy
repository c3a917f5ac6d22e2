/** What each element of an 802.11 management frame puts into the frame's record, octet by octet. */
module ElementLayout80211 {
  import opened Octets
  import opened Options
  import opened Sequences
  import opened Elements80211

  /** The captured frame has these octets at an offset, all within the length that is left. */
  predicate HasAt(p: seq<Octet>, offset: nat, length: nat, octets: seq<Octet>) {
    |octets| <= length && offset + |octets| <= |p| && p[offset..offset + |octets|] == octets
  }

  lemma HasParts(p: seq<Octet>, offset: nat, length: nat, a: seq<Octet>, b: seq<Octet>)
    requires HasAt(p, offset, length, a + b)
    ensures HasAt(p, offset, length, a) && HasAt(p, offset + |a|, length - |a|, b)
  {
    SliceParts(p, offset, offset + |a + b|, a, b);
  }

  /** What the parse finds from an element on. */
  lemma ParseAt(p: seq<Octet>, offset: nat, length: nat, e: Element, rest: Parsed)
    requires |e.body| < 256 && HasAt(p, offset, length, Wire(e))
    requires rest == Parse(p, offset + |Wire(e)|, length - |Wire(e)|)
    ensures Parse(p, offset, length) == if Oversized(e) then Parsed(false, []) else Parsed(rest.ok, [e] + rest.es)
  {
    ElementAtIsWire(p, offset, length, e);
    ParseStep(p, offset, length, e);
  }

  /** The elements a frame begins with are found, whatever follows them. */
  lemma {:induction false} ParseReaches(p: seq<Octet>, offset: nat, length: nat, es: seq<Element>, end: nat,
                                        more: nat, rest: Parsed)
    requires Keepable(es) && HasAt(p, offset, length, Serialized(es))
    requires end == offset + |Serialized(es)| && end + more == offset + length && rest == Parse(p, end, more)
    ensures Parse(p, offset, length) == Parsed(rest.ok, es + rest.es)
    decreases es
  {
    if es == [] {
      assert es + rest.es == rest.es;
    } else {
      KeepableStep(es);
      var mid, left := HasFirst(p, offset, length, es);
      ParseReaches(p, mid, left, es[1..], end, more, rest);
      ParseCons(p, offset, length, mid, left, es[0], Parsed(rest.ok, es[1..] + rest.es));
      ConsThenMore(es, rest.es);
    }
  }

  /** The first of some elements is at the start of their octets, and the others are after it. */
  lemma HasFirst(p: seq<Octet>, offset: nat, length: nat, es: seq<Element>) returns (mid: nat, left: nat)
    requires es != [] && HasAt(p, offset, length, Serialized(es))
    ensures mid == offset + |Wire(es[0])| <= |p| && mid + left == offset + length && p[offset..mid] == Wire(es[0])
    ensures HasAt(p, mid, left, Serialized(es[1..]))
    ensures offset + |Serialized(es)| == mid + |Serialized(es[1..])|
  {
    HasParts(p, offset, length, Wire(es[0]), Serialized(es[1..]));
    mid, left := offset + |Wire(es[0])|, length - |Wire(es[0])|;
  }

  lemma ConsThenMore<T>(es: seq<T>, more: seq<T>)
    requires es != []
    ensures [es[0]] + (es[1..] + more) == es + more
  {
  }

  predicate NoneOf(es: seq<Element>, tag: Octet) {
    forall e :: e in es ==> e.tag != tag
  }

  lemma {:induction false} FirstSkips(before: seq<Element>, es: seq<Element>, tag: Octet)
    requires NoneOf(before, tag)
    ensures First(before + es, tag) == First(es, tag)
  {
    if before == [] {
      assert before + es == es;
    } else {
      FirstSkips(before[1..], es, tag);
      assert (before + es)[1..] == before[1..] + es && (before + es)[0] == before[0];
    }
  }

  lemma FirstCons(e: Element, es: seq<Element>, tag: Octet)
    requires e.tag == tag
    ensures First([e] + es, tag) == if Worth(tag, |e.body|) then Some(e.body) else First(es, tag)
  {
    assert ([e] + es)[1..] == es;
  }

  /** After some elements of other tags the frame has an element of this tag. The parse of the whole finds r, and
      a parse that began after that element would find `rest`. */
  predicate Stands(p: seq<Octet>, offset: nat, length: nat, before: seq<Element>, tag: Octet, body: seq<Octet>,
                   r: Parsed, rest: Parsed)
  {
    && Keepable(before) && NoneOf(before, tag) && |body| < 256
    && HasAt(p, offset, length, Serialized(before) + ([tag, |body|] + body))
    && r == Parse(p, offset, length)
    && var n := |Serialized(before)| + 2 + |body|; rest == Parse(p, offset + n, length - n)
  }

  lemma ParseBoth(p: seq<Octet>, offset: nat, length: nat, before: seq<Element>, e: Element, mid: nat, more: nat,
                  r: Parsed, rest: Parsed)
    requires Keepable(before) && |e.body| < 256 && r == Parse(p, offset, length)
    requires HasAt(p, offset, length, Serialized(before)) && HasAt(p, mid, more, Wire(e))
    requires mid == offset + |Serialized(before)| && mid + more == offset + length
    requires rest == Parse(p, mid + |Wire(e)|, more - |Wire(e)|)
    ensures r == if Oversized(e) then Parsed(false, before) else Parsed(rest.ok, before + ([e] + rest.es))
  {
    ParseAt(p, mid, more, e, rest);
    if Oversized(e) {
      ParseReaches(p, offset, length, before, mid, more, Parsed(false, []));
      assert before + [] == before;
    } else {
      ParseReaches(p, offset, length, before, mid, more, Parsed(rest.ok, [e] + rest.es));
    }
  }

  lemma WireOf(tag: Octet, body: seq<Octet>)
    requires |body| < 256
    ensures Wire(Element(tag, body)) == [tag, |body|] + body
  {
  }

  lemma ParseThrough(p: seq<Octet>, offset: nat, length: nat, before: seq<Element>, tag: Octet, body: seq<Octet>,
                     r: Parsed, rest: Parsed)
    requires Stands(p, offset, length, before, tag, body, r, rest)
    ensures var e := Element(tag, body);
            r == if Oversized(e) then Parsed(false, before) else Parsed(rest.ok, before + ([e] + rest.es))
  {
    var m := |Serialized(before)|;
    WireOf(tag, body);
    HasParts(p, offset, length, Serialized(before), Wire(Element(tag, body)));
    ParseBoth(p, offset, length, before, Element(tag, body), offset + m, length - m, r, rest);
  }

  /** The first element of a tag, after elements of other tags and before anything: it is refused, or kept, or
      left to those that follow. */
  lemma FirstOfTag(p: seq<Octet>, offset: nat, length: nat, before: seq<Element>, tag: Octet, body: seq<Octet>,
                   r: Parsed, rest: Parsed)
    requires Stands(p, offset, length, before, tag, body, r, rest)
    ensures Oversized(Element(tag, body)) ==> !r.ok && First(r.es, tag) == None
    ensures !Oversized(Element(tag, body)) ==> r.ok == rest.ok
    ensures !Oversized(Element(tag, body)) ==>
              First(r.es, tag) == if Worth(tag, |body|) then Some(body) else First(rest.es, tag)
  {
    var e := Element(tag, body);
    ParseThrough(p, offset, length, before, tag, body, r, rest);
    if Oversized(e) {
      FirstSkips(before, [], tag);
      assert before + [] == before;
    } else {
      FirstSkips(before, [e] + rest.es, tag);
      FirstCons(e, rest.es, tag);
    }
  }

  // ----- The seven slots, with the tags of IEEE Std 802.11 -----

  /** Tag 0, the network's name: up to 32 octets are kept, and more are refused. */
  lemma SsidSlot(p: seq<Octet>, offset: nat, length: nat, before: seq<Element>, body: seq<Octet>, r: Parsed,
                 rest: Parsed)
    requires Stands(p, offset, length, before, 0, body, r, rest)
    ensures |body| <= 32 ==> Kept(r.es).ssid == Some(body) && r.ok == rest.ok
    ensures |body| > 32 ==> Kept(r.es).ssid == None && !r.ok
  {
    FirstOfTag(p, offset, length, before, 0, body, r, rest);
  }

  /** Tag 1, the supported rates: up to 16 octets are kept, more are refused, and none at all are passed over. */
  lemma RatesSlot(p: seq<Octet>, offset: nat, length: nat, before: seq<Element>, body: seq<Octet>, r: Parsed,
                  rest: Parsed)
    requires Stands(p, offset, length, before, 1, body, r, rest)
    ensures |body| == 0 ==> Kept(r.es).rates == Kept(rest.es).rates && r.ok == rest.ok
    ensures 0 < |body| <= 16 ==> Kept(r.es).rates == Some(body) && r.ok == rest.ok
    ensures |body| > 16 ==> Kept(r.es).rates == None && !r.ok
  {
    FirstOfTag(p, offset, length, before, 1, body, r, rest);
  }

  /** Tag 3, the channel: one octet is kept, and another length is passed over. */
  lemma DsSlot(p: seq<Octet>, offset: nat, length: nat, before: seq<Element>, body: seq<Octet>, r: Parsed,
               rest: Parsed)
    requires Stands(p, offset, length, before, 3, body, r, rest)
    ensures Kept(r.es).ds == if |body| == 1 then Some(body[0]) else Kept(rest.es).ds
    ensures r.ok == rest.ok
  {
    FirstOfTag(p, offset, length, before, 3, body, r, rest);
  }

  function Little16(low: Octet, high: Octet): Word16 { low + 256 * high }

  /** Tag 4, the contention-free parameters: six octets are kept, with two little-endian words among them, and
      another length is passed over. */
  lemma CfSlot(p: seq<Octet>, offset: nat, length: nat, before: seq<Element>, body: seq<Octet>, r: Parsed,
               rest: Parsed)
    requires Stands(p, offset, length, before, 4, body, r, rest)
    ensures |body| == 6 ==>
              Kept(r.es).cf == Some(Cf(body[0], body[1], Little16(body[2], body[3]), Little16(body[4], body[5])))
    ensures |body| != 6 ==> Kept(r.es).cf == Kept(rest.es).cf
    ensures r.ok == rest.ok
  {
    FirstOfTag(p, offset, length, before, 4, body, r, rest);
  }

  /** Tag 5, the traffic indication map: three octets and a bitmap of 1 to 251 octets are kept, a longer bitmap is
      refused, and an element without one is passed over. */
  lemma TimSlot(p: seq<Octet>, offset: nat, length: nat, before: seq<Element>, body: seq<Octet>, r: Parsed,
                rest: Parsed)
    requires Stands(p, offset, length, before, 5, body, r, rest)
    ensures |body| <= 3 ==> Kept(r.es).tim == Kept(rest.es).tim && r.ok == rest.ok
    ensures 1 <= |body| - 3 <= 251 ==>
              Kept(r.es).tim == Some(Tim(body[0], body[1], body[2], body[3..])) && r.ok == rest.ok
    ensures |body| - 3 > 251 ==> Kept(r.es).tim == None && !r.ok
  {
    FirstOfTag(p, offset, length, before, 5, body, r, rest);
  }

  /** Tag 16, the challenge text: up to 253 octets are kept, and more are refused. */
  lemma ChallengeSlot(p: seq<Octet>, offset: nat, length: nat, before: seq<Element>, body: seq<Octet>, r: Parsed,
                      rest: Parsed)
    requires Stands(p, offset, length, before, 16, body, r, rest)
    ensures |body| <= 253 ==> Kept(r.es).challenge == Some(body) && r.ok == rest.ok
    ensures |body| > 253 ==> Kept(r.es).challenge == None && !r.ok
  {
    FirstOfTag(p, offset, length, before, 16, body, r, rest);
  }

  /** Tag 114, the mesh's name: up to 32 octets are kept, and more are refused. */
  lemma MeshIdSlot(p: seq<Octet>, offset: nat, length: nat, before: seq<Element>, body: seq<Octet>, r: Parsed,
                   rest: Parsed)
    requires Stands(p, offset, length, before, 114, body, r, rest)
    ensures |body| <= 32 ==> Kept(r.es).meshid == Some(body) && r.ok == rest.ok
    ensures |body| > 32 ==> Kept(r.es).meshid == None && !r.ok
  {
    FirstOfTag(p, offset, length, before, 114, body, r, rest);
  }

  /** Any other tag is passed over, whatever its length, and leaves every slot alone. */
  lemma OtherTag(p: seq<Octet>, offset: nat, length: nat, before: seq<Element>, tag: Octet, body: seq<Octet>,
                 r: Parsed, rest: Parsed)
    requires Stands(p, offset, length, before, tag, body, r, rest) && tag !in {0, 1, 3, 4, 5, 16, 114}
    ensures r.ok == rest.ok && Kept(r.es) == Kept(before + rest.es)
  {
    ParseThrough(p, offset, length, before, tag, body, r, rest);
    KeptWithout(before, Element(tag, body), rest.es);
  }

  lemma {:induction false} FirstWithout(before: seq<Element>, e: Element, es: seq<Element>, tag: Octet)
    requires e.tag != tag
    ensures First(before + ([e] + es), tag) == First(before + es, tag)
  {
    if before == [] {
      assert before + ([e] + es) == [e] + es && ([e] + es)[1..] == es && before + es == es;
    } else {
      FirstWithout(before[1..], e, es, tag);
      assert (before + ([e] + es))[1..] == before[1..] + ([e] + es);
      assert (before + es)[1..] == before[1..] + es;
    }
  }

  lemma KeptWithout(before: seq<Element>, e: Element, es: seq<Element>)
    requires e.tag !in {0, 1, 3, 4, 5, 16, 114}
    ensures Kept(before + ([e] + es)) == Kept(before + es)
  {
    FirstWithout(before, e, es, E_SSID);
    FirstWithout(before, e, es, E_CHALLENGE);
    FirstWithout(before, e, es, E_RATES);
    FirstWithout(before, e, es, E_DS);
    FirstWithout(before, e, es, E_CF);
    FirstWithout(before, e, es, E_TIM);
    FirstWithout(before, e, es, E_MESHID);
  }
}
