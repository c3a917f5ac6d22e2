/** The stack of packet limits of tcpdump/netdissect.c. Pointers into packets are addresses. */
module PacketStack {
  import opened Octets

  /** A saved record: the buffer that was pushed, 0 for none, and the packet start and end it covers up. */
  datatype Saved = Saved(buffer: nat, packetp: nat, snapend: nat)

  /** The current packet start and capture end, and the records under them, newest first. */
  datatype Info = Info(packetp: nat, snapend: nat, stack: seq<Saved>)

  /** The difference of two addresses, converted to an unsigned 32-bit int. */
  function Remaining(end: nat, bp: nat): Word32 { (end - bp) % 0x1_0000_0000 }

  // ----- The operations as functions -----

  function Push(s: Info, buffer: nat): Info {
    s.(stack := [Saved(buffer, s.packetp, s.snapend)] + s.stack)
  }

  function PushBuffer(s: Info, buffer: nat, packetp: nat, newlen: Word32): Info {
    Push(s, buffer).(packetp := packetp, snapend := packetp + newlen)
  }

  function Limited(s: Info, bp: nat, newlen: Word32, limit: nat): Info {
    if newlen <= Remaining(limit, bp) then s.(snapend := bp + newlen) else s
  }

  function PushSnaplen(s: Info, bp: nat, newlen: Word32): Info {
    Limited(Push(s, 0), bp, newlen, s.snapend)
  }

  /** The limit the change routine consults: the one saved in the record below the newest, and without
      such a record the current one. */
  function Consulted(s: Info): nat
    requires s.stack != []
  {
    if |s.stack| > 1 then s.stack[1].snapend else s.snapend
  }

  function ChangeSnaplen(s: Info, bp: nat, newlen: Word32): Info
    requires s.stack != []
  {
    Limited(s, bp, newlen, Consulted(s))
  }

  function Pop(s: Info): Info
    requires s.stack != []
  {
    Info(s.stack[0].packetp, s.stack[0].snapend, s.stack[1..])
  }

  function PopAll(s: Info): Info
    decreases |s.stack|
  {
    if s.stack == [] then s else PopAll(Pop(s))
  }

  // ----- The routines -----

  class NetdissectOptions {
    var packetp: nat
    var snapend: nat
    var stack: seq<Saved>

    function Current(): Info
      reads this
    {
      Info(packetp, snapend, stack)
    }

    /** Fails, and changes nothing, when no record can be allocated. */
    method NdPushBuffer(newBuffer: nat, newPacketp: nat, newlen: Word32, mallocOk: bool) returns (ok: bool)
      modifies this
      ensures ok == mallocOk
      ensures Current() == if ok then PushBuffer(old(Current()), newBuffer, newPacketp, newlen) else old(Current())
    {
      if !mallocOk {
        return false;
      }
      var ndspi := Saved(newBuffer, packetp, snapend);
      packetp := newPacketp;
      snapend := newPacketp + newlen;
      stack := [ndspi] + stack;
      return true;
    }

    method NdPushSnaplen(bp: nat, newlen: Word32, mallocOk: bool) returns (ok: bool)
      modifies this
      ensures ok == mallocOk
      ensures Current() == if ok then PushSnaplen(old(Current()), bp, newlen) else old(Current())
    {
      if !mallocOk {
        return false;
      }
      stack := [Saved(0, packetp, snapend)] + stack;
      var snaplenRemaining := Remaining(snapend, bp);
      if newlen <= snaplenRemaining {
        snapend := bp + newlen;
      }
      return true;
    }

    method NdChangeSnaplen(bp: nat, newlen: Word32)
      requires stack != []
      modifies this
      ensures Current() == ChangeSnaplen(old(Current()), bp, newlen)
    {
      var previousSnapend;
      if |stack| > 1 {
        previousSnapend := stack[1].snapend;
      } else {
        previousSnapend := snapend;
      }
      var snaplenRemaining := Remaining(previousSnapend, bp);
      if newlen <= snaplenRemaining {
        snapend := bp + newlen;
      }
    }

    method NdPopPacketInfo()
      requires stack != []
      modifies this
      ensures Current() == Pop(old(Current()))
    {
      var ndspi := stack[0];
      packetp := ndspi.packetp;
      snapend := ndspi.snapend;
      stack := stack[1..];
    }

    method NdPopAllPacketInfo()
      modifies this
      ensures Current() == PopAll(old(Current()))
    {
      while stack != []
        invariant PopAll(Current()) == PopAll(old(Current()))
        decreases |stack|
      {
        NdPopPacketInfo();
      }
    }
  }

  // ----- Runs -----

  datatype Op =
    | OpPushBuffer(buffer: nat, packetp: nat, newlen: Word32)
    | OpPushSnaplen(bp: nat, newlen: Word32)
    | OpChange(bp: nat, newlen: Word32)
    | OpPop

  /** How much deeper the stack is after a run. */
  function Depth(ops: seq<Op>): int {
    if ops == [] then 0
    else Depth(ops[..|ops| - 1]) + match ops[|ops| - 1]
                                    case OpPushBuffer(_, _, _) => 1
                                    case OpPushSnaplen(_, _) => 1
                                    case OpChange(_, _) => 0
                                    case OpPop => -1
  }

  /** A run that, started with `depth` records, pops and changes only where there is a record. */
  predicate Allowed(depth: nat, ops: seq<Op>) {
    ops != [] ==>
      var init, last := ops[..|ops| - 1], ops[|ops| - 1];
      && Allowed(depth, init)
      && (last.OpPop? || last.OpChange? ==> depth + Depth(init) > 0)
  }

  function Step(s: Info, op: Op): Info
    requires op.OpPop? || op.OpChange? ==> s.stack != []
  {
    match op
    case OpPushBuffer(buffer, packetp, newlen) => PushBuffer(s, buffer, packetp, newlen)
    case OpPushSnaplen(bp, newlen) => PushSnaplen(s, bp, newlen)
    case OpChange(bp, newlen) => ChangeSnaplen(s, bp, newlen)
    case OpPop => Pop(s)
  }

  function Run(s: Info, ops: seq<Op>): (r: Info)
    requires Allowed(|s.stack|, ops)
    ensures |r.stack| == |s.stack| + Depth(ops)
  {
    if ops == [] then s else Step(Run(s, ops[..|ops| - 1]), ops[|ops| - 1])
  }

  /** A run that never goes below where it started: pops stay above it, and changes may touch the limit. */
  predicate StaysAbove(ops: seq<Op>) {
    ops != [] ==> StaysAbove(ops[..|ops| - 1]) && Depth(ops) >= 0
  }

  /** Such a run leaves the records it started from alone. */
  lemma {:induction false} RecordsKept(s: Info, ops: seq<Op>)
    requires s.stack != [] && StaysAbove(ops)
    ensures Allowed(|s.stack|, ops) && Depth(ops) >= 0
    ensures Run(s, ops).stack[Depth(ops)..] == s.stack
  {
    if ops != [] {
      var init, last := ops[..|ops| - 1], ops[|ops| - 1];
      RecordsKept(s, init);
      var before, after := Run(s, init), Run(s, ops);
      if last.OpPushBuffer? || last.OpPushSnaplen? {
        assert after.stack[1..] == before.stack;
        assert after.stack[Depth(ops)..] == after.stack[1..][Depth(init)..];
      } else if last.OpPop? {
        assert before.stack[Depth(init)..] == before.stack[1..][Depth(ops)..];
      }
    }
  }

  /** A push, any balanced run, and the pop restore packet start, limit and stack exactly. */
  lemma BalancedRunRestores(s: Info, push: Op, ops: seq<Op>)
    requires push.OpPushBuffer? || push.OpPushSnaplen?
    requires StaysAbove(ops) && Depth(ops) == 0
    ensures Allowed(|s.stack| + 1, ops)
    ensures Pop(Run(Step(s, push), ops)) == s
  {
    RecordsKept(Step(s, push), ops);
    assert Step(s, push).stack[1..] == s.stack;
  }

  /** Whatever was done since, popping everything restores the packet the run started with. */
  lemma {:induction false} PopAllRestores(s: Info, ops: seq<Op>)
    requires s.stack == [] && Allowed(0, ops)
    ensures PopAll(Run(s, ops)) == s
  {
    if ops != [] {
      var init, last := ops[..|ops| - 1], ops[|ops| - 1];
      PopAllRestores(s, init);
      var before := Run(s, init);
      match last
      case OpPushBuffer(_, _, _) => assert Pop(Step(before, last)) == before;
      case OpPushSnaplen(_, _) => assert Pop(Step(before, last)) == before;
      case OpChange(_, _) => assert Pop(Step(before, last)) == Pop(before);
      case OpPop =>
    }
  }

  // ----- The limit -----

  /** The pointer a push or change is given lies within the limit it is compared with. */
  predicate WithinLimit(s: Info, op: Op)
    requires op.OpChange? ==> s.stack != []
  {
    match op
    case OpPushBuffer(_, _, _) => false
    case OpPushSnaplen(bp, _) => bp <= s.snapend
    case OpChange(bp, _) => bp <= Consulted(s)
    case OpPop => true
  }

  predicate AlwaysWithin(s: Info, ops: seq<Op>)
    requires Allowed(|s.stack|, ops)
  {
    ops != [] ==>
      && AlwaysWithin(s, ops[..|ops| - 1])
      && WithinLimit(Run(s, ops[..|ops| - 1]), ops[|ops| - 1])
  }

  predicate Capped(s: Info, end: nat) {
    s.snapend <= end && forall i :: 0 <= i < |s.stack| ==> s.stack[i].snapend <= end
  }

  lemma LimitedBy(s: Info, bp: nat, newlen: Word32, limit: nat)
    requires bp <= limit
    ensures var end := Limited(s, bp, newlen, limit).snapend; end == s.snapend || (end == bp + newlen && end <= limit)
    ensures Limited(s, limit, 0, limit).snapend == limit
  {
  }

  function Lower(a: nat, b: nat): nat { if a < b then a else b }

  /** A push of a length limits the packet to the nearer of where it ends and where the packet ended; it does so
      for pointers within the packet that are less than 2^32 octets from its end. */
  lemma SnaplenIsLower(s: Info, bp: nat, newlen: Word32)
    requires bp <= s.snapend < bp + 0x1_0000_0000
    ensures PushSnaplen(s, bp, newlen) == Push(s, 0).(snapend := Lower(bp + newlen, s.snapend))
  {
    assert (s.snapend - bp) % 0x1_0000_0000 == s.snapend - bp;
  }

  /** After a push of a buffer the limit is at the end of the buffer, and a length pushed within it never goes past
      that, wherever the limit was before. */
  lemma BufferLimits(s: Info, buffer: nat, packetp: nat, newlen: Word32, bp: nat, more: Word32)
    requires packetp <= bp <= packetp + newlen
    ensures var t := PushBuffer(s, buffer, packetp, newlen);
            && t.packetp == packetp && t.snapend - t.packetp == newlen && Pop(t) == s
            && PushSnaplen(t, bp, more).snapend == Lower(bp + more, packetp + newlen)
  {
    var t := PushBuffer(s, buffer, packetp, newlen);
    SnaplenIsLower(t, bp, more);
    assert t.stack[1..] == s.stack;
  }

  /** In a run without new buffers, whose pointers stay within the limits consulted, the limit never
      passes the end of the outermost capture. */
  lemma {:induction false} LimitNeverPasses(s: Info, ops: seq<Op>)
    requires s.stack == [] && Allowed(0, ops) && AlwaysWithin(s, ops)
    ensures Capped(Run(s, ops), s.snapend)
  {
    if ops != [] {
      var init, last := ops[..|ops| - 1], ops[|ops| - 1];
      LimitNeverPasses(s, init);
      var before := Run(s, init);
      match last
      case OpPushSnaplen(bp, newlen) => LimitedBy(Push(before, 0), bp, newlen, before.snapend);
      case OpChange(bp, newlen) => LimitedBy(before, bp, newlen, Consulted(before));
      case OpPop =>
    }
  }

  /** The comment on the change routine says that it must not move the limit past the one atop which the current
      one was pushed. No change does if and only if the limit it consults is not past that one. */
  lemma ChangeStaysBelowIff(s: Info)
    requires s.stack != [] && s.snapend <= s.stack[0].snapend
    ensures (forall bp: nat, newlen: Word32 ::
               bp <= Consulted(s) ==> ChangeSnaplen(s, bp, newlen).snapend <= s.stack[0].snapend)
       <==> Consulted(s) <= s.stack[0].snapend
  {
    var limit := Consulted(s);
    forall bp: nat, newlen: Word32 | bp <= limit
      ensures var end := ChangeSnaplen(s, bp, newlen).snapend; end == s.snapend || end <= limit
    {
      LimitedBy(s, bp, newlen, limit);
    }
    LimitedBy(s, limit, 0, limit);
    assert ChangeSnaplen(s, limit, 0).snapend == limit;
  }

  /** It also says that a change may raise the limit. Some change does if and only if the limit consulted is
      above the current one; so none does when there is one record only. */
  lemma ChangeRaisesIff(s: Info)
    requires s.stack != []
    ensures (exists bp: nat, newlen: Word32 :: bp <= Consulted(s) && ChangeSnaplen(s, bp, newlen).snapend > s.snapend)
       <==> Consulted(s) > s.snapend
    ensures |s.stack| == 1 ==>
              forall bp: nat, newlen: Word32 :: bp <= s.snapend ==> ChangeSnaplen(s, bp, newlen).snapend <= s.snapend
  {
    var limit := Consulted(s);
    forall bp: nat, newlen: Word32 | bp <= limit
      ensures var end := ChangeSnaplen(s, bp, newlen).snapend; end == s.snapend || end <= limit
    {
      LimitedBy(s, bp, newlen, limit);
    }
    LimitedBy(s, limit, 0, limit);
    assert ChangeSnaplen(s, limit, 0).snapend == limit;
  }

  /** It can go past it, although every pointer is within bounds. */
  lemma ChangePassesExample()
    ensures var s := Run(Info(0, 100, []), [OpPushSnaplen(0, 50), OpPushSnaplen(0, 40)]);
            && s.stack[0].snapend == 50 && WithinLimit(s, OpChange(0, 100))
            && ChangeSnaplen(s, 0, 100).snapend == 100
  {
    var start := Info(0, 100, []);
    var one, two := OpPushSnaplen(0, 50), OpPushSnaplen(0, 40);
    assert [one, two][..1] == [one] && [one][..0] == [];
    assert Allowed(0, []) && Allowed(0, [one]);
    assert Run(start, [one]) == Info(0, 50, [Saved(0, 0, 100)]);
    assert Run(start, [one, two]) == Info(0, 40, [Saved(0, 0, 50), Saved(0, 0, 100)]);
  }

  /** It can fail to raise it, although there is room below the outermost limit. */
  lemma ChangeCannotRaiseExample()
    ensures var s := Run(Info(0, 100, []), [OpPushSnaplen(0, 50)]);
            s == Info(0, 50, [Saved(0, 0, 100)]) && ChangeSnaplen(s, 0, 80).snapend == 50
  {
    var one := OpPushSnaplen(0, 50);
    assert [one][..0] == [] && Allowed(0, []) && Allowed(0, [one]);
  }
}
