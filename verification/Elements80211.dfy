/** The parser of tcpdump/print-802_11.c for the elements of an 802.11 management frame. */
module Elements80211 {
  import opened Octets
  import opened Options
  import opened Sequences

  const E_SSID: Octet := 0
  const E_RATES: Octet := 1
  const E_DS: Octet := 3
  const E_CF: Octet := 4
  const E_TIM: Octet := 5
  const E_CHALLENGE: Octet := 16
  const E_MESHID: Octet := 114

  datatype Element = Element(tag: Octet, body: seq<Octet>)

  // ----- Elements on the wire -----

  /** An element as a frame carries it: tag, length, body. Only bodies under 256 octets can be carried. */
  function Wire(e: Element): seq<Octet> {
    [e.tag, |e.body| % 256] + e.body
  }

  function Serialized(es: seq<Element>): seq<Octet> {
    if es == [] then [] else Wire(es[0]) + Serialized(es[1..])
  }

  /** A known element that does not fit the record kept for it. */
  predicate Oversized(e: Element) {
    var n := |e.body|;
    (e.tag == E_SSID && n > 32) || (e.tag == E_CHALLENGE && n > 253) || (e.tag == E_RATES && n > 16)
    || (e.tag == E_TIM && n > 254) || (e.tag == E_MESHID && n > 32)
  }

  /** A list of elements that a frame can carry and the records can keep. */
  predicate Keepable(es: seq<Element>) {
    forall e :: e in es ==> |e.body| < 256 && !Oversized(e)
  }

  // ----- What is kept -----

  datatype Cf = Cf(count: Octet, period: Octet, maxDuration: Word16, durRemaining: Word16)

  datatype Tim = Tim(count: Octet, period: Octet, bitmapControl: Octet, bitmap: seq<Octet>)

  datatype Slots = Slots(challenge: Option<seq<Octet>>, ssid: Option<seq<Octet>>, rates: Option<seq<Octet>>,
                         ds: Option<Octet>, cf: Option<Cf>, tim: Option<Tim>, meshid: Option<seq<Octet>>)

  /** Which bodies of a tag are worth keeping. */
  predicate Worth(tag: Octet, n: nat) {
    && (tag == E_RATES ==> n > 0)
    && (tag == E_DS ==> n == 1)
    && (tag == E_CF ==> n == 6)
    && (tag == E_TIM ==> n > 3)
  }

  predicate Qualifies(e: Element, tag: Octet) { e.tag == tag && Worth(tag, |e.body|) }

  /** The body of the first element of a tag worth keeping. */
  function First(es: seq<Element>, tag: Octet): (r: Option<seq<Octet>>)
    ensures r.Some? ==> Worth(tag, |r.value|)
  {
    if es == [] then None
    else if Qualifies(es[0], tag) then Some(es[0].body)
    else First(es[1..], tag)
  }

  /** No element before the one that is kept, and none at all if none is kept, was worth keeping. */
  lemma {:induction false} FirstIsFirst(es: seq<Element>, tag: Octet)
    ensures match First(es, tag)
            case None => forall i :: 0 <= i < |es| ==> !Qualifies(es[i], tag)
            case Some(body) =>
              exists k :: 0 <= k < |es| && Qualifies(es[k], tag) && es[k].body == body
                          && forall i :: 0 <= i < k ==> !Qualifies(es[i], tag)
  {
    if es != [] && !Qualifies(es[0], tag) {
      FirstIsFirst(es[1..], tag);
      if First(es, tag).Some? {
        var k :| 0 <= k < |es[1..]| && Qualifies(es[1..][k], tag) && es[1..][k].body == First(es, tag).value
                 && forall i :: 0 <= i < k ==> !Qualifies(es[1..][i], tag);
        assert Qualifies(es[k + 1], tag) && es[k + 1].body == First(es, tag).value;
        assert forall i :: 0 < i < k + 1 ==> es[i] == es[1..][i - 1];
      } else {
        assert forall i :: 0 < i < |es| ==> es[i] == es[1..][i - 1];
      }
    }
  }

  function CfOf(body: seq<Octet>): Cf
    requires |body| == 6
  {
    Cf(body[0], body[1], Load16(LittleEndian, body[2], body[3]), Load16(LittleEndian, body[4], body[5]))
  }

  function TimOf(body: seq<Octet>): Tim
    requires |body| > 3
  {
    Tim(body[0], body[1], body[2], body[3..])
  }

  /** Every slot holds the first element worth keeping. */
  function Kept(es: seq<Element>): Slots {
    var ds, cf, tim := First(es, E_DS), First(es, E_CF), First(es, E_TIM);
    Slots(First(es, E_CHALLENGE), First(es, E_SSID), First(es, E_RATES),
          if ds.Some? then Some(ds.value[0]) else None,
          if cf.Some? then Some(CfOf(cf.value)) else None,
          if tim.Some? then Some(TimOf(tim.value)) else None,
          First(es, E_MESHID))
  }

  lemma {:induction false} FirstSnoc(es: seq<Element>, e: Element, tag: Octet)
    ensures First(es + [e], tag)
         == if First(es, tag).Some? then First(es, tag) else if Qualifies(e, tag) then Some(e.body) else None
  {
    if es != [] {
      assert (es + [e])[1..] == es[1..] + [e];
      FirstSnoc(es[1..], e, tag);
    } else {
      assert [] + [e] == [e] && [e][1..] == [];
    }
  }

  // ----- The parse -----

  /** How far the parse gets: the elements before the first fault, and whether there is none. */
  datatype Parsed = Parsed(ok: bool, es: seq<Element>)

  /** The element at an offset, unless it is cut off by the capture or by the frame's length. */
  function ElementAt(p: seq<Octet>, offset: nat, length: nat): Option<Element> {
    if offset + 2 > |p| || length < 2 then None
    else
      var elementlen: int := p[offset + 1];
      if offset + 2 + elementlen > |p| || length < elementlen + 2 then None
      else Some(Element(p[offset], p[offset + 2..offset + 2 + elementlen]))
  }

  function Parse(p: seq<Octet>, offset: nat, length: nat): Parsed
    decreases length
  {
    if length == 0 then Parsed(true, [])
    else
      match ElementAt(p, offset, length)
      case None => Parsed(false, [])
      case Some(e) =>
        if Oversized(e) then Parsed(false, [])
        else
          var rest := Parse(p, offset + 2 + |e.body|, length - 2 - |e.body|);
          Parsed(rest.ok, [e] + rest.es)
  }

  /** Reading an element is the inverse of writing it. */
  lemma ElementAtIsWire(p: seq<Octet>, offset: nat, length: nat, e: Element)
    ensures ElementAt(p, offset, length) == Some(e)
       <==> && |e.body| < 256 && 2 + |e.body| <= length && offset + 2 + |e.body| <= |p|
            && p[offset..offset + 2 + |e.body|] == Wire(e)
  {
    var n := 2 + |e.body|;
    if |e.body| < 256 && n <= length && offset + n <= |p| && p[offset..offset + n] == Wire(e) {
      assert p[offset] == Wire(e)[0] && p[offset + 1] == Wire(e)[1];
      assert p[offset + 2..offset + n] == Wire(e)[2..];
    }
    if ElementAt(p, offset, length) == Some(e) {
      assert p[offset..offset + n] == [p[offset], p[offset + 1]] + p[offset + 2..offset + n];
    }
  }

  lemma ParseStep(p: seq<Octet>, offset: nat, length: nat, e: Element)
    requires length > 0 && ElementAt(p, offset, length) == Some(e)
    ensures Parse(p, offset, length)
         == if Oversized(e) then Parsed(false, [])
            else var rest := Parse(p, offset + 2 + |e.body|, length - 2 - |e.body|); Parsed(rest.ok, [e] + rest.es)
  {
  }

  lemma SplitSlice<T>(p: seq<T>, from: nat, mid: nat, to: nat)
    requires from <= mid <= to <= |p|
    ensures p[from..to] == p[from..mid] + p[mid..to]
  {
  }

  lemma {:induction false} ParseIsKeepable(p: seq<Octet>, offset: nat, length: nat)
    ensures Keepable(Parse(p, offset, length).es)
    decreases length
  {
    if length > 0 && ElementAt(p, offset, length).Some? {
      var e := ElementAt(p, offset, length).value;
      ParseIsKeepable(p, offset + 2 + |e.body|, length - 2 - |e.body|);
    }
  }

  lemma SerializedCons(e: Element, es: seq<Element>)
    ensures Serialized([e] + es) == Wire(e) + Serialized(es)
  {
    assert ([e] + es)[1..] == es;
  }

  lemma ParseCons(p: seq<Octet>, offset: nat, n: nat, mid: nat, more: nat, e: Element, rest: Parsed)
    requires |e.body| < 256 && !Oversized(e) && mid == offset + |Wire(e)| <= |p| && mid + more == offset + n
    requires p[offset..mid] == Wire(e) && Parse(p, mid, more) == rest
    ensures Parse(p, offset, n) == Parsed(rest.ok, [e] + rest.es)
  {
    ElementAtIsWire(p, offset, n, e);
    ParseStep(p, offset, n, e);
  }

  lemma KeepableStep(es: seq<Element>)
    requires Keepable(es) && es != []
    ensures |es[0].body| < 256 && !Oversized(es[0]) && Keepable(es[1..])
  {
  }

  /** The first of some elements is at the start of their octets, and the others are after it. */
  lemma SerializedAt(p: seq<Octet>, offset: nat, n: nat, es: seq<Element>) returns (mid: nat, more: nat)
    requires es != [] && offset + n <= |p| && p[offset..offset + n] == Serialized(es)
    ensures mid == offset + |Wire(es[0])| && mid + more == offset + n
    ensures p[offset..mid] == Wire(es[0]) && p[mid..mid + more] == Serialized(es[1..])
  {
    SliceParts(p, offset, offset + n, Wire(es[0]), Serialized(es[1..]));
    mid, more := offset + |Wire(es[0])|, |Serialized(es[1..])|;
  }

  /** The parse succeeds on what a list of elements serializes to, and finds that list. */
  lemma {:induction false} ParseOfSerialized(p: seq<Octet>, offset: nat, n: nat, es: seq<Element>)
    requires Keepable(es) && offset + n <= |p| && p[offset..offset + n] == Serialized(es)
    ensures Parse(p, offset, n) == Parsed(true, es)
    decreases es
  {
    if es != [] {
      KeepableStep(es);
      var mid, more := SerializedAt(p, offset, n, es);
      ParseOfSerialized(p, mid, more, es[1..]);
      ParseCons(p, offset, n, mid, more, es[0], Parsed(true, es[1..]));
      assert [es[0]] + es[1..] == es;
    }
  }

  /** A successful parse finds elements that serialize to exactly the octets of the frame. */
  lemma {:induction false} ParseSerializes(p: seq<Octet>, offset: nat, length: nat)
    requires offset <= |p| && Parse(p, offset, length).ok
    ensures offset + length <= |p| && Serialized(Parse(p, offset, length).es) == p[offset..offset + length]
    decreases length
  {
    if length > 0 {
      var e := ElementAt(p, offset, length).value;
      ElementAtIsWire(p, offset, length, e);
      var mid, end := offset + |Wire(e)|, offset + length;
      var rest := Parse(p, mid, end - mid);
      ParseStep(p, offset, length, e);
      ParseSerializes(p, mid, end - mid);
      SerializedCons(e, rest.es);
      SplitSlice(p, offset, mid, end);
    }
  }

  /** The parse succeeds exactly when the octets of the frame were captured and are a list of elements
      none of which is oversized; then it finds that list. */
  lemma ParseSucceedsIff(p: seq<Octet>, offset: nat, length: nat)
    requires offset <= |p|
    ensures Parse(p, offset, length).ok
       <==> offset + length <= |p| && exists es :: Keepable(es) && Serialized(es) == p[offset..offset + length]
    ensures forall es :: offset + length <= |p| && Keepable(es) && Serialized(es) == p[offset..offset + length]
              ==> es == Parse(p, offset, length).es
  {
    if Parse(p, offset, length).ok {
      ParseSerializes(p, offset, length);
      ParseIsKeepable(p, offset, length);
    }
    forall es | offset + length <= |p| && Keepable(es) && Serialized(es) == p[offset..offset + length]
      ensures Parse(p, offset, length) == Parsed(true, es)
    {
      ParseOfSerialized(p, offset, length, es);
    }
  }

  // ----- The parser -----

  /** The slots after one more element: a slot that is taken stays as it is. */
  function Added(s: Slots, e: Element): Slots {
    if !Qualifies(e, e.tag) then s
    else if e.tag == E_SSID && s.ssid.None? then s.(ssid := Some(e.body))
    else if e.tag == E_CHALLENGE && s.challenge.None? then s.(challenge := Some(e.body))
    else if e.tag == E_RATES && s.rates.None? then s.(rates := Some(e.body))
    else if e.tag == E_DS && s.ds.None? then s.(ds := Some(e.body[0]))
    else if e.tag == E_CF && s.cf.None? then s.(cf := Some(CfOf(e.body)))
    else if e.tag == E_TIM && s.tim.None? then s.(tim := Some(TimOf(e.body)))
    else if e.tag == E_MESHID && s.meshid.None? then s.(meshid := Some(e.body))
    else s
  }

  lemma KeptSnoc(es: seq<Element>, e: Element)
    ensures Kept(es + [e]) == Added(Kept(es), e)
  {
    FirstSnoc(es, e, E_SSID);
    FirstSnoc(es, e, E_CHALLENGE);
    FirstSnoc(es, e, E_RATES);
    FirstSnoc(es, e, E_DS);
    FirstSnoc(es, e, E_CF);
    FirstSnoc(es, e, E_TIM);
    FirstSnoc(es, e, E_MESHID);
  }

  /** The part of a management frame's record that the parser fills in. */
  class MgmtBody {
    var challenge: Option<seq<Octet>>
    var ssid: Option<seq<Octet>>
    var rates: Option<seq<Octet>>
    var ds: Option<Octet>
    var cf: Option<Cf>
    var tim: Option<Tim>
    var meshid: Option<seq<Octet>>

    function Current(): Slots
      reads this
    {
      Slots(challenge, ssid, rates, ds, cf, tim, meshid)
    }

    // The cases of the switch on the tag of the element at an offset, all of which was captured. They step
    // over the element field by field; an element that is too long is refused.

    /** The elements that are copied whole. */
    method CopyCase(p: seq<Octet>, offsetIn: nat, lengthIn: nat, ghost e: Element)
      returns (ok: bool, offset: nat, length: nat)
      requires ElementAt(p, offsetIn, lengthIn) == Some(e)
      requires e.tag == E_SSID || e.tag == E_CHALLENGE || e.tag == E_RATES || e.tag == E_MESHID
      modifies this
      ensures ok <==> !Oversized(e)
      ensures ok ==> offset == offsetIn + 2 + |e.body| && length == lengthIn - 2 - |e.body|
      ensures Current() == if ok then Added(old(Current()), e) else old(Current())
    {
      var tag, elementlen := p[offsetIn], p[offsetIn + 1];
      offset, length, ok := offsetIn + 2, lengthIn - 2, true;
      if elementlen != 0 {
        if elementlen > (if tag == E_CHALLENGE then 254 - 1 else if tag == E_RATES then 16 else 33 - 1) {
          return false, offset, length;
        }
      }
      var copy := p[offset..offset + elementlen];
      offset, length := offset + elementlen, length - elementlen;
      if tag == E_SSID && ssid == None {
        ssid := Some(copy);
      } else if tag == E_CHALLENGE && challenge == None {
        challenge := Some(copy);
      } else if tag == E_RATES && rates == None && elementlen != 0 {
        rates := Some(copy);
      } else if tag == E_MESHID && meshid == None {
        meshid := Some(copy);
      }
    }

    method DsCase(p: seq<Octet>, offsetIn: nat, lengthIn: nat, ghost e: Element)
      returns (ok: bool, offset: nat, length: nat)
      requires ElementAt(p, offsetIn, lengthIn) == Some(e) && e.tag == E_DS
      modifies this
      ensures ok <==> !Oversized(e)
      ensures ok ==> offset == offsetIn + 2 + |e.body| && length == lengthIn - 2 - |e.body|
      ensures Current() == if ok then Added(old(Current()), e) else old(Current())
    {
      var elementlen := p[offsetIn + 1];
      offset, length, ok := offsetIn + 2, lengthIn - 2, true;
      if elementlen != 1 {
        offset, length := offset + elementlen, length - elementlen;
        return;
      }
      var channel := p[offset];
      offset, length := offset + 1, length - 1;
      if ds == None {
        ds := Some(channel);
      }
    }

    method CfCase(p: seq<Octet>, offsetIn: nat, lengthIn: nat, ghost e: Element)
      returns (ok: bool, offset: nat, length: nat)
      requires ElementAt(p, offsetIn, lengthIn) == Some(e) && e.tag == E_CF
      modifies this
      ensures ok <==> !Oversized(e)
      ensures ok ==> offset == offsetIn + 2 + |e.body| && length == lengthIn - 2 - |e.body|
      ensures Current() == if ok then Added(old(Current()), e) else old(Current())
    {
      var elementlen := p[offsetIn + 1];
      offset, length, ok := offsetIn + 2, lengthIn - 2, true;
      if elementlen != 6 {
        offset, length := offset + elementlen, length - elementlen;
        return;
      }
      var count := p[offset];
      offset, length := offset + 1, length - 1;
      var period := p[offset];
      offset, length := offset + 1, length - 1;
      var maxDuration := Load16(LittleEndian, p[offset], p[offset + 1]);
      offset, length := offset + 2, length - 2;
      var durRemaining := Load16(LittleEndian, p[offset], p[offset + 1]);
      offset, length := offset + 2, length - 2;
      if cf == None {
        cf := Some(Cf(count, period, maxDuration, durRemaining));
      }
    }

    method TimCase(p: seq<Octet>, offsetIn: nat, lengthIn: nat, ghost e: Element)
      returns (ok: bool, offset: nat, length: nat)
      requires ElementAt(p, offsetIn, lengthIn) == Some(e) && e.tag == E_TIM
      modifies this
      ensures ok <==> !Oversized(e)
      ensures ok ==> offset == offsetIn + 2 + |e.body| && length == lengthIn - 2 - |e.body|
      ensures Current() == if ok then Added(old(Current()), e) else old(Current())
    {
      var elementlen := p[offsetIn + 1];
      offset, length, ok := offsetIn + 2, lengthIn - 2, true;
      if elementlen <= 3 {
        offset, length := offset + elementlen, length - elementlen;
        return;
      }
      if elementlen - 3 > 251 {
        return false, offset, length;
      }
      var count := p[offset];
      offset, length := offset + 1, length - 1;
      var period := p[offset];
      offset, length := offset + 1, length - 1;
      var bitmapControl := p[offset];
      offset, length := offset + 1, length - 1;
      var bitmap := p[offset..offset + elementlen - 3];
      offset, length := offset + (elementlen - 3), length - (elementlen - 3);
      if tim == None {
        tim := Some(Tim(count, period, bitmapControl, bitmap));
        assert bitmap == e.body[3..];
      }
    }

    method Switch(p: seq<Octet>, offsetIn: nat, lengthIn: nat, ghost e: Element)
      returns (ok: bool, offset: nat, length: nat)
      requires ElementAt(p, offsetIn, lengthIn) == Some(e)
      modifies this
      ensures ok <==> !Oversized(e)
      ensures ok ==> offset == offsetIn + 2 + |e.body| && length == lengthIn - 2 - |e.body|
      ensures Current() == if ok then Added(old(Current()), e) else old(Current())
    {
      var tag := p[offsetIn];
      if tag == E_SSID || tag == E_CHALLENGE || tag == E_RATES || tag == E_MESHID {
        ok, offset, length := CopyCase(p, offsetIn, lengthIn, e);
      } else if tag == E_DS {
        ok, offset, length := DsCase(p, offsetIn, lengthIn, e);
      } else if tag == E_CF {
        ok, offset, length := CfCase(p, offsetIn, lengthIn, e);
      } else if tag == E_TIM {
        ok, offset, length := TimCase(p, offsetIn, lengthIn, e);
      } else {
        ok, offset, length := true, offsetIn + 2 + p[offsetIn + 1], lengthIn - 2 - p[offsetIn + 1];
      }
    }

    /** The body of the loop: one element, or the first fault. */
    method OneElement(p: seq<Octet>, offsetIn: nat, lengthIn: nat)
      returns (ok: bool, offset: nat, length: nat, ghost e: Element)
      requires lengthIn != 0
      modifies this
      ensures !ok ==> Parse(p, offsetIn, lengthIn) == Parsed(false, []) && Current() == old(Current())
      ensures ok ==> offset + length == offsetIn + lengthIn && length < lengthIn
      ensures ok ==> Current() == Added(old(Current()), e)
      ensures ok ==>
                var rest := Parse(p, offset, length);
                Parse(p, offsetIn, lengthIn) == Parsed(rest.ok, [e] + rest.es)
    {
      ok, offset, length, e := false, offsetIn, lengthIn, Element(0, []);
      if offset + 2 > |p| || length < 2 {
        return;
      }
      var elementlen: int := p[offset + 1];
      if offset + 2 + elementlen > |p| || length < elementlen + 2 {
        return;
      }
      e := ElementAt(p, offset, length).value;
      ParseStep(p, offset, length, e);
      ok, offset, length := Switch(p, offset, length, e);
    }
  }

  lemma MoveOver<T>(done: seq<T>, x: T, rest: seq<T>)
    ensures done + ([x] + rest) == done + [x] + rest
  {
  }

  lemma Nothing<T>(done: seq<T>)
    ensures done + [] == done
  {
  }

  /** Parses the elements of a frame whose captured octets are p; true unless something is wrong. */
  method ParseElements(pbody: MgmtBody, p: seq<Octet>, offsetIn: nat, lengthIn: nat) returns (ok: bool)
    modifies pbody
    ensures ok == Parse(p, offsetIn, lengthIn).ok
    ensures pbody.Current() == Kept(Parse(p, offsetIn, lengthIn).es)
  {
    pbody.challenge, pbody.ssid, pbody.rates, pbody.ds := None, None, None, None;
    pbody.cf, pbody.tim, pbody.meshid := None, None, None;
    var offset: nat, length: nat := offsetIn, lengthIn;
    ghost var done: seq<Element>, e, left := [], Element(0, []), Parse(p, offset, length);
    ghost var whole := left;
    while length != 0
      invariant offset + length == offsetIn + lengthIn
      invariant left == Parse(p, offset, length)
      invariant whole.ok == left.ok && whole.es == done + left.es
      invariant pbody.Current() == Kept(done)
      decreases length
    {
      ok, offset, length, e := pbody.OneElement(p, offset, length);
      if !ok {
        Nothing(done);
        return;
      }
      KeptSnoc(done, e);
      left := Parse(p, offset, length);
      MoveOver(done, e, left.es);
      done := done + [e];
    }
    Nothing(done);
    return true;
  }
}
