/** The name tables of tcpdump/addrtoname.c whose records come from one shared allocator: hosts, TCP and UDP
    ports, Ethernet types, DECnet addresses and IPX SAPs. */
module NameTables {
  import opened HashChains
  import opened Octets
  import opened Options
  import opened Sequences

  const SLAB := 64

  // ----- What the tables hold -----

  datatype Entry = Entry(addr: Word32, name: string)

  /** The chains of all buckets of all tables, bucket b of table t at t * 4096 + b. */
  type Chains = seq<seq<Entry>>

  /** The name a chain has for an address: that of the first record with it. */
  function Answer(es: seq<Entry>, addr: Word32): Option<string> {
    if es == [] then None else if es[0].addr == addr then Some(es[0].name) else Answer(es[1..], addr)
  }

  function Slot(t: nat, addr: Word32): nat { t * HASHNAMESIZE + addr % HASHNAMESIZE }

  predicate HasTable(chains: Chains, t: nat) { (t + 1) * HASHNAMESIZE <= |chains| }

  function Look(chains: Chains, t: nat, addr: Word32): Option<string>
    requires HasTable(chains, t)
  {
    Answer(chains[Slot(t, addr)], addr)
  }

  /** A call of a lookup function, which makes the given name for a new address, or the addition of a
      name from a database, which does not look whether the address has one. */
  datatype Op = Find(t: nat, addr: Word32, name: string) | Append(t: nat, addr: Word32, name: string)

  function Apply(chains: Chains, op: Op): (r: Chains)
    requires HasTable(chains, op.t)
    ensures |r| == |chains|
  {
    var k := Slot(op.t, op.addr);
    if op.Find? && Look(chains, op.t, op.addr).Some? then chains
    else chains[k := chains[k] + [Entry(op.addr, op.name)]]
  }

  function Run(chains: Chains, ops: seq<Op>): (r: Chains)
    requires forall i :: 0 <= i < |ops| ==> HasTable(chains, ops[i].t)
    ensures |r| == |chains|
    decreases ops
  {
    if ops == [] then chains
    else
      assert forall i :: 0 <= i < |ops| - 1 ==> HasTable(chains, ops[1..][i].t);
      Run(Apply(chains, ops[0]), ops[1..])
  }

  /** The name given for an address the first time any operation had one for it in that table. */
  function FirstGiven(ops: seq<Op>, t: nat, addr: Word32): Option<string> {
    if ops == [] then None
    else if ops[0].t == t && ops[0].addr == addr then Some(ops[0].name)
    else FirstGiven(ops[1..], t, addr)
  }

  lemma {:induction false} AnswerSnoc(es: seq<Entry>, e: Entry, addr: Word32)
    ensures Answer(es + [e], addr) ==
            if Answer(es, addr).Some? then Answer(es, addr) else if e.addr == addr then Some(e.name) else None
    decreases es
  {
    if es == [] {
      assert es + [e] == [e] && [e][1..] == [];
    } else {
      assert (es + [e])[1..] == es[1..] + [e];
      AnswerSnoc(es[1..], e, addr);
    }
  }

  lemma SlotIsOneOf(t: nat, addr: Word32, u: nat, other: Word32)
    requires Slot(t, addr) == Slot(u, other)
    ensures t == u
  {
  }

  /** One operation names its own address, unless that has a name, and changes no other answer. */
  lemma ApplyAnswers(chains: Chains, op: Op, t: nat, addr: Word32)
    requires HasTable(chains, op.t) && HasTable(chains, t)
    ensures Look(Apply(chains, op), t, addr) ==
            if Look(chains, t, addr).None? && op.t == t && op.addr == addr then Some(op.name) else Look(chains, t, addr)
  {
    var k := Slot(op.t, op.addr);
    AnswerSnoc(chains[k], Entry(op.addr, op.name), addr);
    if k == Slot(t, addr) {
      SlotIsOneOf(op.t, op.addr, t, addr);
    }
  }

  /** Over every run the bucketed tables together are a finite map that keeps the first name it is given
      for each key: an answer once given never changes. */
  lemma {:induction false} RunIsMap(chains: Chains, ops: seq<Op>, t: nat, addr: Word32)
    requires HasTable(chains, t) && forall i :: 0 <= i < |ops| ==> HasTable(chains, ops[i].t)
    ensures Look(Run(chains, ops), t, addr) ==
            if Look(chains, t, addr).Some? then Look(chains, t, addr) else FirstGiven(ops, t, addr)
    decreases ops
  {
    if ops != [] {
      ApplyAnswers(chains, ops[0], t, addr);
      RunIsMap(Apply(chains, ops[0]), ops[1..], t, addr);
    }
  }

  // ----- The records -----

  type Record = Node<Word32>

  ghost predicate Blank(n: Record)
    reads n
  {
    n.key == 0 && n.name == None && n.nxt == null && n.slot == -1
  }

  /** The records of a chain: its addresses, and names for all but the last. */
  ghost predicate IsNameChain(nodes: seq<Record>, addrs: seq<Word32>, es: seq<Entry>, k: nat)
    reads nodes
  {
    && IsChain(nodes, addrs, k) && |addrs| == |es|
    && forall i :: 0 <= i < |es| ==> addrs[i] == es[i].addr && nodes[i].name == Some(es[i].name)
  }

  /** The two tests for the end of a chain, by the name and by the link, find the same record. */
  lemma EndTestsAgree(nodes: seq<Record>, addrs: seq<Word32>, es: seq<Entry>, k: nat, i: nat)
    requires IsNameChain(nodes, addrs, es, k) && i < |nodes|
    ensures nodes[i].nxt == null <==> i == |es|
    ensures nodes[i].name == None <==> i == |es|
    ensures i < |es| ==> nodes[i].nxt == nodes[i + 1] && nodes[i].key == es[i].addr && nodes[i].name == Some(es[i].name)
  {
    PlaceInChain(nodes, addrs, k, i);
  }

  lemma LongerNameChain(nodes: seq<Record>, addrs: seq<Word32>, es: seq<Entry>, k: nat, q: Record, e: Entry)
    requires |nodes| == |addrs| + 1 == |es| + 1
    requires forall i :: 0 <= i < |es| ==> Holds(nodes[i], nodes[i + 1], addrs[i], k, i)
    requires forall i :: 0 <= i < |es| ==> addrs[i] == es[i].addr && nodes[i].name == Some(es[i].name)
    requires Holds(nodes[|es|], q, e.addr, k, |es|) && nodes[|es|].name == Some(e.name) && Ends(q, k, |es| + 1)
    ensures IsNameChain(nodes + [q], addrs + [e.addr], es + [e], k)
  {
    LongerChain(nodes, addrs, k, q, e.addr);
  }

  /** A block of zeroed records. */
  method Calloc(n: nat) returns (block: seq<Record>)
    ensures |block| == n && forall i :: 0 <= i < n ==> fresh(block[i]) && Blank(block[i]) && block[i].pos == i
  {
    block := [];
    while |block| < n
      invariant |block| <= n
      invariant forall i :: 0 <= i < |block| ==> fresh(block[i]) && Blank(block[i]) && block[i].pos == i
    {
      var p := new Node(0, -1, |block|);
      block := block + [p];
    }
  }

  class Tables {
    /** The bucket arrays. */
    const heads: seq<Record>
    /** The current block of the allocator and the number of its records not yet handed out. */
    var slab: seq<Record>
    var num: nat
    ghost var nodes: seq<seq<Record>>
    ghost var addrs: seq<seq<Word32>>
    ghost var chains: Chains
    ghost var repr: set<Record>
    /** The records the allocator has returned. */
    ghost var handed: set<Record>

    ghost predicate SlabValid()
      reads this, repr
    {
      && num <= SLAB && (num > 0 ==> |slab| == SLAB) && handed <= repr
      && forall i :: SLAB - num <= i < |slab| ==> slab[i] in repr - handed && Blank(slab[i]) && slab[i].pos == i
    }

    ghost predicate Valid()
      reads this, repr
    {
      && |nodes| == |addrs| == |chains| == |heads| && SlabValid()
      && (forall k :: 0 <= k < |nodes| ==> (forall n :: n in nodes[k] ==> n in repr))
      && (forall k :: 0 <= k < |nodes| ==> IsNameChain(nodes[k], addrs[k], chains[k], k) && nodes[k][0] == heads[k])
    }

    /** The tables before the first packet: every bucket a zeroed record, and no block yet. */
    constructor (tables: nat)
      ensures Valid() && fresh(repr) && handed == {} && |chains| == tables * HASHNAMESIZE
      ensures forall k :: 0 <= k < |chains| ==> chains[k] == []
    {
      var bs: seq<Record> := [];
      while |bs| < tables * HASHNAMESIZE
        invariant |bs| <= tables * HASHNAMESIZE
        invariant forall k :: 0 <= k < |bs| ==> fresh(bs[k]) && Ends(bs[k], k, 0)
      {
        var n := new Node(0, |bs|, 0);
        bs := bs + [n];
      }
      heads, slab, num, handed := bs, [], 0, {};
      nodes := seq(|bs|, k requires 0 <= k < |bs| => [bs[k]]);
      addrs, chains := seq(|bs|, k => []), seq(|bs|, k => []);
      repr := set n | n in bs;
    }

    /** A zeroed record that is in no chain and that no call returned before. */
    method NewHnamemem() returns (p: Record)
      requires Valid()
      modifies this`slab, this`num, this`repr, this`handed
      ensures Valid() && nodes == old(nodes) && addrs == old(addrs) && chains == old(chains)
      ensures fresh(repr - old(repr)) && old(repr) <= repr
      ensures p !in old(handed) && handed == old(handed) + {p} && Blank(p)
    {
      if num == 0 {
        slab := Calloc(SLAB);
        num := SLAB;
        repr := repr + set n | n in slab;
      }
      p := slab[SLAB - num];
      num, handed := num - 1, handed + {p};
    }

    /** Fills the record that ends chain k and links an unused record after it. */
    method Fill(ghost k: nat, p: Record, q: Record, addr: Word32, name: string)
      requires Valid() && k < |nodes| && p == nodes[k][|chains[k]|]
      requires q in handed && Blank(q)
      modifies p, q
      ensures SlabValid() && IsNameChain(nodes[k] + [q], addrs[k] + [addr], chains[k] + [Entry(addr, name)], k)
      ensures forall j :: 0 <= j < |nodes| && j != k ==> IsNameChain(nodes[j], addrs[j], chains[j], j)
    {
      Apart(nodes, addrs, k, q);
      Link(k, p, q, addr);
      p.name := Some(name);
      LongerNameChain(nodes[k], addrs[k], chains[k], k, q, Entry(addr, name));
    }

    /** Takes a filled record into the contents. */
    ghost method Grow(k: nat, q: Record, e: Entry)
      requires |nodes| == |addrs| == |chains| == |heads| && k < |nodes| && SlabValid() && q in repr
      requires forall j :: 0 <= j < |nodes| ==>
                 nodes[j] != [] && nodes[j][0] == heads[j] && forall n :: n in nodes[j] ==> n in repr
      requires forall j :: 0 <= j < |nodes| && j != k ==> IsNameChain(nodes[j], addrs[j], chains[j], j)
      requires IsNameChain(nodes[k] + [q], addrs[k] + [e.addr], chains[k] + [e], k)
      modifies this`nodes, this`addrs, this`chains
      ensures Valid() && chains == old(chains)[k := old(chains[k]) + [e]]
      ensures |nodes| == |old(nodes)| && forall j :: 0 <= j < |nodes| ==> old(nodes[j]) <= nodes[j]
    {
      nodes := nodes[k := nodes[k] + [q]];
      addrs := addrs[k := addrs[k] + [e.addr]];
      chains := chains[k := chains[k] + [e]];
    }

    method Extend(ghost k: nat, p: Record, addr: Word32, name: string)
      requires Valid() && k < |nodes| && p == nodes[k][|chains[k]|]
      modifies this, repr
      ensures Valid() && fresh(repr - old(repr)) && old(repr) <= repr && old(handed) <= handed
      ensures chains == old(chains)[k := old(chains[k]) + [Entry(addr, name)]]
      ensures |nodes| == |old(nodes)| && forall j :: 0 <= j < |nodes| ==> old(nodes[j]) <= nodes[j]
    {
      var q := NewHnamemem();
      Fill(k, p, q, addr, name);
      Grow(k, q, Entry(addr, name));
    }

    /** The name of an address: walks its bucket by the links, and adds the address with the given name if
        it is not there. */
    method FindName(t: nat, addr: Word32, name: string) returns (r: string)
      requires Valid() && HasTable(chains, t)
      modifies this, repr
      ensures Valid() && fresh(repr - old(repr)) && old(handed) <= handed
      ensures chains == Apply(old(chains), Find(t, addr, name)) && Look(chains, t, addr) == Some(r)
    {
      var p := heads[Slot(t, addr)];
      ghost var k, i := Slot(t, addr), 0;
      while p.nxt != null
        invariant i < |nodes[k]| && p == nodes[k][i]
        invariant Answer(chains[k], addr) == Answer(chains[k][i..], addr)
        modifies {}
        decreases |nodes[k]| - i
      {
        EndTestsAgree(nodes[k], addrs[k], chains[k], k, i);
        if p.key == addr {
          return p.name.value;
        }
        p, i := p.nxt, i + 1;
      }
      EndTestsAgree(nodes[k], addrs[k], chains[k], k, i);
      AnswerSnoc(chains[k], Entry(addr, name), addr);
      Extend(k, p, addr, name);
      return name;
    }

    /** A name from a database: walks the bucket by the names, and adds the address whether or not it is there. */
    method AddName(t: nat, addr: Word32, name: string)
      requires Valid() && HasTable(chains, t)
      modifies this, repr
      ensures Valid() && fresh(repr - old(repr)) && old(handed) <= handed
      ensures chains == Apply(old(chains), Append(t, addr, name))
    {
      var p := heads[Slot(t, addr)];
      ghost var k, i := Slot(t, addr), 0;
      while p.name.Some?
        invariant i < |nodes[k]| && p == nodes[k][i]
        modifies {}
        decreases |nodes[k]| - i
      {
        EndTestsAgree(nodes[k], addrs[k], chains[k], k, i);
        p, i := p.nxt, i + 1;
      }
      EndTestsAgree(nodes[k], addrs[k], chains[k], k, i);
      Extend(k, p, addr, name);
    }
  }

  /** The chains of all tables are disjoint and acyclic, and hold none of the allocator's unused records. */
  lemma ChainsAreDisjoint(tables: Tables, k: nat, i: nat, l: nat, j: nat)
    requires tables.Valid() && k < |tables.nodes| && i < |tables.nodes[k]|
    requires l < |tables.nodes| && j < |tables.nodes[l]|
    ensures tables.nodes[k][i] == tables.nodes[l][j] <==> k == l && i == j
    ensures forall u :: SLAB - tables.num <= u < |tables.slab| ==> tables.slab[u] != tables.nodes[k][i]
  {
    PlaceInChain(tables.nodes[k], tables.addrs[k], k, i);
    PlaceInChain(tables.nodes[l], tables.addrs[l], l, j);
  }

  lemma {:induction false} RunSnoc(chains: Chains, ops: seq<Op>, op: Op)
    requires HasTable(chains, op.t) && forall i :: 0 <= i < |ops| ==> HasTable(chains, ops[i].t)
    ensures forall i :: 0 <= i < |ops + [op]| ==> HasTable(chains, (ops + [op])[i].t)
    ensures Run(chains, ops + [op]) == Apply(Run(chains, ops), op)
    decreases ops
  {
    if ops == [] {
      assert ops + [op] == [op] && [op][1..] == [];
    } else {
      assert (ops + [op])[1..] == ops[1..] + [op];
      RunSnoc(Apply(chains, ops[0]), ops[1..], op);
    }
  }

  /** The answers given so far, none for the addition of a name, are what the tables still answer. */
  ghost predicate Answered(chains: Chains, ops: seq<Op>, answers: seq<Option<string>>) {
    && |answers| == |ops| && (forall i :: 0 <= i < |ops| ==> HasTable(chains, ops[i].t))
    && forall i :: 0 <= i < |ops| && ops[i].Find? ==>
         answers[i].Some? && Look(chains, ops[i].t, ops[i].addr) == answers[i]
  }

  lemma AnswersStay(chains: Chains, ops: seq<Op>, answers: seq<Option<string>>, op: Op)
    requires Answered(chains, ops, answers) && HasTable(chains, op.t)
    ensures Answered(Apply(chains, op), ops, answers)
  {
    forall i | 0 <= i < |ops| && ops[i].Find?
      ensures Look(Apply(chains, op), ops[i].t, ops[i].addr) == answers[i]
    {
      ApplyAnswers(chains, op, ops[i].t, ops[i].addr);
    }
  }

  /** A run from some chains, and the answers it gave. */
  ghost predicate IsRun(before: Chains, ops: seq<Op>, after: Chains, answers: seq<Option<string>>) {
    && (forall i :: 0 <= i < |ops| ==> HasTable(before, ops[i].t))
    && after == Run(before, ops) && Answered(after, ops, answers)
  }

  lemma RunGrows(before: Chains, ops: seq<Op>, after: Chains, answers: seq<Option<string>>, op: Op,
                 answer: Option<string>)
    requires IsRun(before, ops, after, answers) && HasTable(before, op.t)
    requires op.Find? ==> answer.Some? && Look(Apply(after, op), op.t, op.addr) == answer
    ensures IsRun(before, ops + [op], Apply(after, op), answers + [answer])
  {
    RunSnoc(before, ops, op);
    AnswersStay(after, ops, answers, op);
  }

  /** One operation on the tables. */
  method Perform(tables: Tables, op: Op) returns (answer: Option<string>)
    requires tables.Valid() && HasTable(tables.chains, op.t)
    modifies tables, tables.repr
    ensures tables.Valid() && fresh(tables.repr - old(tables.repr)) && tables.chains == Apply(old(tables.chains), op)
    ensures op.Find? ==> answer.Some? && Look(tables.chains, op.t, op.addr) == answer
  {
    answer := None;
    match op
    case Find(t, addr, name) =>
      var r := tables.FindName(t, addr, name);
      answer := Some(r);
    case Append(t, addr, name) =>
      tables.AddName(t, addr, name);
  }

  /** Every run of the tables themselves: what they hold at the end is what the run prescribes, and every answer
      given on the way is still the answer. */
  method PerformAll(tables: Tables, ops: seq<Op>) returns (answers: seq<Option<string>>)
    requires tables.Valid() && forall i :: 0 <= i < |ops| ==> HasTable(tables.chains, ops[i].t)
    modifies tables, tables.repr
    ensures tables.Valid() && fresh(tables.repr - old(tables.repr))
    ensures tables.chains == Run(old(tables.chains), ops) && Answered(tables.chains, ops, answers)
  {
    answers := [];
    var i := 0;
    while i < |ops|
      invariant i <= |ops| && tables.Valid() && fresh(tables.repr - old(tables.repr))
      invariant IsRun(old(tables.chains), ops[..i], tables.chains, answers)
    {
      ghost var before := tables.chains;
      var answer := Perform(tables, ops[i]);
      RunGrows(old(tables.chains), ops[..i], before, answers, ops[i], answer);
      TakeOneMore(ops, i);
      answers := answers + [answer];
      i := i + 1;
    }
    assert ops[..i] == ops;
  }
}
