/** The tables of tcpdump/addrtoname.c that are looked up by a key of several fields: MAC addresses, byte
    strings, NSAPs and protocol identifiers. */
module KeyTables {
  import opened HashChains
  import opened Octets
  import opened Options
  import opened Sequences

  // ----- Keys -----

  /** The fields a record is compared by: three half-words, and the octets with their number. For a MAC
      address there are no octets; for a protocol identifier one field is the OUI and one the protocol. */
  datatype Key = Key(addr0: Word32, addr1: Word32, addr2: Word32, bytes: seq<Octet>)

  function Xor(a: bv32, b: bv32): bv32 { a ^ b }

  function HashOf(key: Key): (r: nat)
    ensures r < HASHNAMESIZE
  {
    (Xor(key.addr0 as bv32, key.addr1 as bv32) & 0xfff) as nat
  }

  /** The half-words of six octets. */
  function SixKey(s: seq<Octet>, bytes: seq<Octet>): Key
    requires |s| >= 6
  {
    Key(Load16(BigEndian, s[4], s[5]), Load16(BigEndian, s[2], s[3]), Load16(BigEndian, s[0], s[1]), bytes)
  }

  function MacKey(ep: seq<Octet>): Key
    requires |ep| == 6
  {
    SixKey(ep, [])
  }

  function ByteStringKey(bs: seq<Octet>): Key {
    if |bs| >= 6 then SixKey(bs, bs)
    else if |bs| >= 4 then Key(0, Load16(BigEndian, bs[2], bs[3]), Load16(BigEndian, bs[0], bs[1]), bs)
    else Key(0, 0, 0, bs)
  }

  const ISONSAP_MAX_LENGTH := 20

  /** The number of octets is kept in one octet before them. */
  function NsapKey(nsap: seq<Octet>): Key
    requires |nsap| <= ISONSAP_MAX_LENGTH
  {
    if |nsap| > 6 then SixKey(nsap[|nsap| - 6..], [|nsap|] + nsap) else Key(0, 0, 0, [|nsap|] + nsap)
  }

  function ProtoidKey(pi: seq<Octet>): Key
    requires |pi| == 5
  {
    var high: int := Load16(BigEndian, pi[0], pi[1]);
    Key(high * 256 + pi[2], Load16(BigEndian, pi[3], pi[4]), 0, [])
  }

  /** The number some octets write, most significant first. */
  function BigNumber(s: seq<Octet>): nat {
    if s == [] then 0 else BigNumber(s[..|s| - 1]) * 256 + s[|s| - 1]
  }

  /** The half-words of a key as one number. */
  function Halves(key: Key): nat {
    (key.addr2 * 0x1_0000 + key.addr1) * 0x1_0000 + key.addr0
  }

  lemma BigTwo(s: seq<Octet>)
    requires |s| == 2
    ensures BigNumber(s) == Load16(BigEndian, s[0], s[1])
  {
    var first := s[..1];
    assert first[..0] == [] && first[0] == s[0];
    assert BigNumber(first) == s[0];
  }

  lemma BigFour(s: seq<Octet>)
    requires |s| == 4
    ensures BigNumber(s) == Load16(BigEndian, s[0], s[1]) as int * 0x1_0000 + Load16(BigEndian, s[2], s[3]) as int
  {
    BigTwo(s[..2]);
    assert s[..3][..2] == s[..2];
  }

  lemma BigSix(s: seq<Octet>)
    requires |s| == 6
    ensures BigNumber(s) == BigNumber(s[..4]) * 0x1_0000 + Load16(BigEndian, s[4], s[5]) as int
  {
    assert s[..5][..4] == s[..4];
  }

  lemma SixHalves(s: seq<Octet>, bytes: seq<Octet>)
    requires |s| >= 6
    ensures Halves(SixKey(s, bytes)) == BigNumber(s[..6])
  {
    BigSix(s[..6]);
    assert s[..6][..4] == s[..4];
    BigFour(s[..4]);
  }

  /** What the half-words of the keys are: all of a MAC address; the first six octets of a byte string, or the first
      four with zeros for the rest, or nothing; the last six octets of a longer NSAP, or nothing. */
  lemma MacHalves(ep: seq<Octet>)
    requires |ep| == 6
    ensures Halves(MacKey(ep)) == BigNumber(ep) && MacKey(ep).bytes == []
  {
    SixHalves(ep, []);
    assert ep[..6] == ep;
  }

  lemma ByteStringHalves(bs: seq<Octet>)
    ensures ByteStringKey(bs).bytes == bs
    ensures |bs| >= 6 ==> Halves(ByteStringKey(bs)) == BigNumber(bs[..6])
    ensures 4 <= |bs| < 6 ==> Halves(ByteStringKey(bs)) == BigNumber(bs[..4]) * 0x1_0000
    ensures |bs| < 4 ==> Halves(ByteStringKey(bs)) == 0
  {
    if |bs| >= 6 {
      SixHalves(bs, bs);
    } else if |bs| >= 4 {
      BigFour(bs[..4]);
    }
  }

  lemma NsapHalves(nsap: seq<Octet>)
    requires |nsap| <= ISONSAP_MAX_LENGTH
    ensures NsapKey(nsap).bytes == [|nsap|] + nsap
    ensures Halves(NsapKey(nsap)) == if |nsap| > 6 then BigNumber(nsap[|nsap| - 6..]) else 0
  {
    if |nsap| > 6 {
      var last := nsap[|nsap| - 6..];
      SixHalves(last, [|nsap|] + nsap);
      assert last[..6] == last;
    }
  }

  /** The fields of the key of a protocol identifier are its OUI and its protocol. */
  lemma ProtoidFields(pi: seq<Octet>)
    requires |pi| == 5
    ensures var key := ProtoidKey(pi);
            key.addr0 == BigNumber(pi[..3]) && key.addr1 == BigNumber(pi[3..]) && key.addr2 == 0 && key.bytes == []
  {
    BigTwo(pi[..2]);
    BigTwo(pi[3..]);
    assert pi[..3][..2] == pi[..2];
  }

  lemma PairIsUnique(a: Octet, b: Octet, c: Octet, d: Octet)
    requires Load16(BigEndian, a, b) == Load16(BigEndian, c, d)
    ensures a == c && b == d
  {
  }

  /** Different MAC addresses have different keys. */
  lemma MacKeyIsUnique(a: seq<Octet>, b: seq<Octet>)
    requires |a| == |b| == 6
    ensures MacKey(a) == MacKey(b) <==> a == b
  {
    if MacKey(a) == MacKey(b) {
      PairIsUnique(a[0], a[1], b[0], b[1]);
      PairIsUnique(a[2], a[3], b[2], b[3]);
      PairIsUnique(a[4], a[5], b[4], b[5]);
    }
  }

  lemma ByteStringKeyIsUnique(a: seq<Octet>, b: seq<Octet>)
    ensures ByteStringKey(a) == ByteStringKey(b) <==> a == b
  {
    assert ByteStringKey(a).bytes == a && ByteStringKey(b).bytes == b;
  }

  lemma NsapKeyIsUnique(a: seq<Octet>, b: seq<Octet>)
    requires |a| <= ISONSAP_MAX_LENGTH && |b| <= ISONSAP_MAX_LENGTH
    ensures NsapKey(a) == NsapKey(b) <==> a == b
  {
    var p, q := [|a|] + a, [|b|] + b;
    assert a == p[1..] && b == q[1..];
  }

  lemma ProtoidKeyIsUnique(a: seq<Octet>, b: seq<Octet>)
    requires |a| == |b| == 5
    ensures ProtoidKey(a) == ProtoidKey(b) <==> a == b
  {
    if ProtoidKey(a) == ProtoidKey(b) {
      assert Load16(BigEndian, a[0], a[1]) == Load16(BigEndian, b[0], b[1]) && a[2] == b[2];
      PairIsUnique(a[0], a[1], b[0], b[1]);
      PairIsUnique(a[3], a[4], b[3], b[4]);
    }
  }

  // ----- Tables -----

  type Record = Node<Key>

  /** What a lookup does to the map from keys to records: finds the key's record, or adds a new one. */
  ghost predicate Looked(view: map<Key, Record>, key: Key, n: Record, after: map<Key, Record>) {
    after == view[key := n] && if key in view then n == view[key] else n !in view.Values
  }

  /** Every key is in its own bucket, once, and its record beside it. */
  ghost predicate Viewed(hash: Key -> nat, nodes: seq<seq<Record>>, keys: seq<seq<Key>>, view: map<Key, Record>) {
    && (forall key :: hash(key) < HASHNAMESIZE)
    && |nodes| == |keys| == HASHNAMESIZE && (forall b :: 0 <= b < |nodes| ==> |nodes[b]| == |keys[b]| + 1)
    && (forall b, i :: 0 <= b < |keys| && 0 <= i < |keys[b]| ==> Records(hash, nodes[b][i], keys[b][i], view, b))
    && (forall key :: key in view ==> key in keys[hash(key)])
  }

  ghost predicate Records(hash: Key -> nat, n: Record, key: Key, view: map<Key, Record>, b: nat) {
    key in view && view[key] == n && hash(key) == b
  }

  /** The place of a key's record. */
  lemma PlaceOf(hash: Key -> nat, nodes: seq<seq<Record>>, keys: seq<seq<Key>>, view: map<Key, Record>, key: Key)
    returns (i: nat)
    requires Viewed(hash, nodes, keys, view) && key in view
    ensures var b := hash(key); i < |keys[b]| && keys[b][i] == key && nodes[b][i] == view[key]
  {
    i :| 0 <= i < |keys[hash(key)]| && keys[hash(key)][i] == key;
    assert Records(hash, nodes[hash(key)][i], keys[hash(key)][i], view, hash(key));
  }

  lemma RecordsGrow(hash: Key -> nat, ns: seq<Record>, ks: seq<Key>, view: map<Key, Record>, b: nat, q: Record,
                    key: Key)
    requires |ns| == |ks| + 1 && b == hash(key) && key !in view
    requires forall i :: 0 <= i < |ks| ==> Records(hash, ns[i], ks[i], view, b)
    ensures forall i :: 0 <= i <= |ks| ==> Records(hash, (ns + [q])[i], (ks + [key])[i], view[key := ns[|ks|]], b)
  {
    forall i | 0 <= i <= |ks|
      ensures Records(hash, (ns + [q])[i], (ks + [key])[i], view[key := ns[|ks|]], b)
    {
      if i < |ks| {
        assert Records(hash, ns[i], ks[i], view, b);
      }
    }
  }

  lemma KeysGrow(hash: Key -> nat, keys: seq<seq<Key>>, view: map<Key, Record>, p: Record, key: Key)
    requires |keys| == HASHNAMESIZE && forall key :: hash(key) < HASHNAMESIZE
    requires forall other :: other in view ==> other in keys[hash(other)]
    ensures var b := hash(key);
            forall other :: other in view[key := p] ==> other in keys[b := keys[b] + [key]][hash(other)]
  {
    var b := hash(key);
    var ks := keys[b := keys[b] + [key]];
    forall other | other in view[key := p]
      ensures other in ks[hash(other)]
    {
      if other == key {
        assert ks[b][|keys[b]|] == key;
      } else {
        var i :| 0 <= i < |keys[hash(other)]| && keys[hash(other)][i] == other;
        assert ks[hash(other)][i] == other;
      }
    }
  }

  /** A new key enters its bucket with the record that was blank. */
  lemma ViewGrows(hash: Key -> nat, nodes: seq<seq<Record>>, keys: seq<seq<Key>>, view: map<Key, Record>, b: nat,
                  q: Record, key: Key)
    requires Viewed(hash, nodes, keys, view) && b == hash(key) && key !in view
    ensures Viewed(hash, nodes[b := nodes[b] + [q]], keys[b := keys[b] + [key]], view[key := nodes[b][|keys[b]|]])
  {
    var ns, ks, after := nodes[b := nodes[b] + [q]], keys[b := keys[b] + [key]], view[key := nodes[b][|keys[b]|]];
    RecordsGrow(hash, nodes[b], keys[b], view, b, q, key);
    forall c, i | 0 <= c < |ks| && 0 <= i < |ks[c]|
      ensures Records(hash, ns[c][i], ks[c][i], after, c)
    {
      if c != b {
        assert Records(hash, nodes[c][i], keys[c][i], view, c);
      }
    }
    KeysGrow(hash, keys, view, nodes[b][|keys[b]|], key);
  }

  class Table {
    const heads: seq<Record>
    const hash: Key -> nat
    ghost var nodes: seq<seq<Record>>
    ghost var keys: seq<seq<Key>>
    /** The record of each key. */
    ghost var view: map<Key, Record>
    ghost var repr: set<Record>

    ghost predicate Owned()
      reads this
    {
      && |nodes| == |keys| == |heads| == HASHNAMESIZE
      && forall b :: 0 <= b < |nodes| ==>
           nodes[b] != [] && nodes[b][0] == heads[b] && forall n :: n in nodes[b] ==> n in repr
    }

    ghost predicate Chained()
      reads this, repr
    {
      Owned() && forall b :: 0 <= b < |nodes| ==> IsChain(nodes[b], keys[b], b)
    }

    ghost predicate Valid()
      reads this, repr
    {
      Chained() && Viewed(hash, nodes, keys, view)
    }

    /** The table before the first packet. */
    constructor (hash: Key -> nat)
      requires forall key :: hash(key) < HASHNAMESIZE
      ensures Valid() && fresh(repr) && view == map[] && this.hash == hash
    {
      var bs: seq<Record> := [];
      while |bs| < HASHNAMESIZE
        invariant |bs| <= HASHNAMESIZE
        invariant forall b :: 0 <= b < |bs| ==> fresh(bs[b]) && Ends(bs[b], b, 0)
      {
        var n := new Node(Key(0, 0, 0, []), |bs|, 0);
        bs := bs + [n];
      }
      heads, view, this.hash := bs, map[], hash;
      nodes, keys := seq(|bs|, b requires 0 <= b < |bs| => [bs[b]]), seq(|bs|, b => []);
      repr := set n | n in bs;
    }

    /** Fills the record that ends chain b and links a new record after it. */
    method Fill(ghost b: nat, p: Record, q: Record, key: Key)
      requires Chained() && b < |nodes| && p == nodes[b][|keys[b]|]
      requires q.slot == -1 && q.name == None && q.nxt == null
      modifies p`key, p`nxt, q`slot, q`pos
      ensures p.key == key && p.name == None && p.nxt == q
      ensures IsChain(nodes[b] + [q], keys[b] + [key], b)
      ensures forall j :: 0 <= j < |nodes| && j != b ==> IsChain(nodes[j], keys[j], j)
    {
      Apart(nodes, keys, b, q);
      Link(b, p, q, key);
      LongerChain(nodes[b], keys[b], b, q, key);
    }

    /** Takes a filled record into the contents. */
    ghost method Grow(b: nat, q: Record, key: Key)
      requires Owned() && b < |nodes| && q in repr
      requires forall j :: 0 <= j < |nodes| && j != b ==> IsChain(nodes[j], keys[j], j)
      requires IsChain(nodes[b] + [q], keys[b] + [key], b)
      modifies this`nodes, this`keys
      ensures Chained()
      ensures nodes == old(nodes)[b := old(nodes[b]) + [q]] && keys == old(keys)[b := old(keys[b]) + [key]]
    {
      nodes := nodes[b := nodes[b] + [q]];
      keys := keys[b := keys[b] + [key]];
    }

    ghost method Enter(b: nat, p: Record, q: Record, key: Key)
      requires Owned() && q in repr && Viewed(hash, nodes, keys, view)
      requires key !in view && b == hash(key) && p == nodes[b][|keys[b]|]
      requires forall j :: 0 <= j < |nodes| && j != b ==> IsChain(nodes[j], keys[j], j)
      requires IsChain(nodes[b] + [q], keys[b] + [key], b)
      modifies this`nodes, this`keys, this`view
      ensures Valid() && view == old(view)[key := p]
    {
      ViewGrows(hash, nodes, keys, view, b, q, key);
      Grow(b, q, key);
      view := view[key := p];
    }

    /** The record that ends a chain is no key's. */
    lemma EndIsNoKeys(b: nat)
      requires Valid() && b < |nodes|
      ensures nodes[b][|keys[b]|] !in view.Values
    {
      var p := nodes[b][|keys[b]|];
      PlaceInChain(nodes[b], keys[b], b, |keys[b]|);
      forall key | key in view
        ensures view[key] != p
      {
        var i := PlaceOf(hash, nodes, keys, view, key);
        PlaceInChain(nodes[hash(key)], keys[hash(key)], hash(key), i);
      }
    }

    /** A zeroed record. */
    method Calloc() returns (q: Record)
      requires Valid()
      modifies this`repr
      ensures Valid() && fresh(q) && repr == old(repr) + {q}
      ensures q.slot == -1 && q.name == None && q.nxt == null
    {
      q := new Node(Key(0, 0, 0, []), -1, 0);
      repr := repr + {q};
    }

    /** Adds a key, whose record is the one that ended its chain. */
    method Add(p: Record, key: Key)
      requires Valid() && key !in view && p in repr && p == nodes[hash(key)][|keys[hash(key)]|]
      modifies this, p`key, p`nxt
      ensures Valid() && fresh(repr - old(repr)) && old(repr) <= repr
      ensures p.key == key && view == old(view)[key := p]
    {
      ghost var b := hash(key);
      var q := Calloc();
      Fill(b, p, q, key);
      Enter(b, p, q, key);
    }

    lemma NotThere(key: Key)
      requires Valid() && forall i :: 0 <= i < |keys[hash(key)]| ==> keys[hash(key)][i] != key
      ensures key !in view
    {
    }

    /** The walk along a bucket: the record of a key, or the one that ends the chain. */
    method Search(key: Key) returns (found: bool, n: Record)
      requires Valid()
      ensures n in repr && (found <==> key in view)
      ensures if found then n == view[key] && n.key == key
              else n == nodes[hash(key)][|keys[hash(key)]|] && n !in view.Values && n.name == None
    {
      ghost var b, i := hash(key), 0;
      n := heads[hash(key)];
      while n.nxt != null
        invariant i < |nodes[b]| && n == nodes[b][i]
        invariant forall j :: 0 <= j < i ==> keys[b][j] != key
        decreases |nodes[b]| - i
      {
        PlaceInChain(nodes[b], keys[b], b, i);
        if n.key == key {
          assert Records(hash, n, key, view, b);
          return true, n;
        }
        n, i := n.nxt, i + 1;
      }
      PlaceInChain(nodes[b], keys[b], b, i);
      NotThere(key);
      EndIsNoKeys(b);
      found := false;
    }

    /** The record of a key: the one its bucket has for it, or else a new one with no name. */
    method Lookup(key: Key) returns (n: Record)
      requires Valid()
      modifies this, repr
      ensures Valid() && fresh(repr - old(repr)) && n in repr
      ensures Looked(old(view), key, n, view) && n.key == key
      ensures n.name == if key in old(view) then old(view[key].name) else None
      ensures forall m :: m in old(repr) ==> m.name == old(m.name)
    {
      var found;
      found, n := Search(key);
      if !found {
        Add(n, key);
      }
    }

    /** Naming a record disturbs no chain. */
    method SetName(n: Record, ghost key: Key, name: string)
      requires Valid() && key in view && n == view[key]
      modifies n`name
      ensures Valid() && n.name == Some(name)
    {
      forall b | 0 <= b < |nodes|
        ensures nodes[b][|keys[b]|] != n
      {
        EndIsNoKeys(b);
      }
      n.name := Some(name);
      forall b | 0 <= b < |nodes|
        ensures IsChain(nodes[b], keys[b], b)
      {
        assert forall i :: 0 <= i < |keys[b]| ==> Holds(nodes[b][i], nodes[b][i + 1], keys[b][i], b, i);
      }
    }

    /** The name of a key: the one given with its first call, and the rendering made now otherwise. */
    method StringOf(key: Key, rendered: string) returns (r: string, ghost n: Record)
      requires Valid()
      modifies this, repr
      ensures Valid() && fresh(repr - old(repr)) && Looked(old(view), key, n, view)
      ensures r == if key in old(view) && old(view[key].name).Some? then old(view[key].name).value else rendered
      ensures n.name == Some(r) && forall m :: m in old(repr) && m != n ==> m.name == old(m.name)
    {
      var tp := Lookup(key);
      if tp.name.Some? {
        return tp.name.value, tp;
      }
      SetName(tp, key, rendered);
      return rendered, tp;
    }

    /** No two keys share a record. */
    lemma ViewIsInjective(a: Key, b: Key)
      requires Valid() && a in view && b in view && view[a] == view[b]
      ensures a == b
    {
      var i := PlaceOf(hash, nodes, keys, view, a);
      var j := PlaceOf(hash, nodes, keys, view, b);
      PlaceInChain(nodes[hash(a)], keys[hash(a)], hash(a), i);
      PlaceInChain(nodes[hash(b)], keys[hash(b)], hash(b), j);
    }
  }

  /** A table whose buckets are chosen by two of the half-words of the keys. */
  method EmptyTable() returns (t: Table)
    ensures fresh(t) && fresh(t.repr) && t.Valid() && t.view == map[] && t.hash == HashOf
  {
    t := new Table(HashOf);
  }

  // ----- Runs -----

  ghost predicate Injective(view: map<Key, Record>) {
    forall a, b :: a in view && b in view && view[a] == view[b] ==> a == b
  }

  lemma LookedKeepsInjective(view: map<Key, Record>, key: Key, n: Record, after: map<Key, Record>)
    requires Injective(view) && Looked(view, key, n, after)
    ensures Injective(after)
  {
    forall a, b | a in after && b in after && after[a] == after[b]
      ensures a == b
    {
      assert forall c :: c in view ==> view[c] in view.Values;
    }
  }

  /** What a run of lookups is, seen on the map: one step for each key. */
  ghost predicate IsRun(views: seq<map<Key, Record>>, keys: seq<Key>, records: seq<Record>) {
    && |views| == |keys| + 1 == |records| + 1 && Injective(views[0])
    && forall k :: 0 <= k < |keys| ==> Looked(views[k], keys[k], records[k], views[k + 1])
  }

  lemma {:induction false} RunKeepsInjective(views: seq<map<Key, Record>>, keys: seq<Key>, records: seq<Record>, j: nat)
    requires IsRun(views, keys, records) && j <= |keys|
    ensures Injective(views[j])
  {
    if j > 0 {
      RunKeepsInjective(views, keys, records, j - 1);
      LookedKeepsInjective(views[j - 1], keys[j - 1], records[j - 1], views[j]);
    }
  }

  /** A key that has been looked up keeps its record. */
  lemma {:induction false} Kept(views: seq<map<Key, Record>>, keys: seq<Key>, records: seq<Record>, i: nat, j: nat)
    requires IsRun(views, keys, records) && i < j <= |keys|
    ensures keys[i] in views[j] && views[j][keys[i]] == records[i]
    decreases j
  {
    assert Looked(views[j - 1], keys[j - 1], records[j - 1], views[j]);
    if i < j - 1 {
      Kept(views, keys, records, i, j - 1);
    }
  }

  /** Over every run of lookups, from any map without shared records: two calls return the same record exactly
      when their whole keys agree. */
  lemma SameRecordIffSameKey(views: seq<map<Key, Record>>, keys: seq<Key>, records: seq<Record>, i: nat, j: nat)
    requires IsRun(views, keys, records) && i < j < |keys|
    ensures records[i] == records[j] <==> keys[i] == keys[j]
  {
    RunKeepsInjective(views, keys, records, j);
    Kept(views, keys, records, i, j);
    assert Looked(views[j], keys[j], records[j], views[j + 1]);
    assert views[j][keys[i]] in views[j].Values;
  }

  /** A run of the table itself. */
  method RunLookups(t: Table, keys: seq<Key>) returns (records: seq<Record>, ghost views: seq<map<Key, Record>>)
    requires t.Valid()
    modifies t, t.repr
    ensures t.Valid() && fresh(t.repr - old(t.repr))
    ensures IsRun(views, keys, records) && views[0] == old(t.view) && views[|keys|] == t.view
  {
    records, views := [], [t.view];
    forall a, b | a in t.view && b in t.view && t.view[a] == t.view[b]
      ensures a == b
    {
      t.ViewIsInjective(a, b);
    }
    while |records| < |keys|
      invariant t.Valid() && fresh(t.repr - old(t.repr)) && |records| <= |keys|
      invariant IsRun(views, keys[..|records|], records) && views[0] == old(t.view) && views[|records|] == t.view
    {
      var n := t.Lookup(keys[|records|]);
      TakeOneMore(keys, |records|);
      records, views := records + [n], views + [t.view];
    }
    assert keys[..|records|] == keys;
  }

  /** Over every run of lookups of the table, from any state: two calls return the same record exactly when
      their whole keys agree, and it is the one the table has for the key from then on. */
  method Lookups(t: Table, keys: seq<Key>) returns (records: seq<Record>)
    requires t.Valid()
    modifies t, t.repr
    ensures t.Valid() && fresh(t.repr - old(t.repr)) && |records| == |keys|
    ensures forall i, j :: 0 <= i < j < |keys| ==> (records[i] == records[j] <==> keys[i] == keys[j])
    ensures forall i :: 0 <= i < |keys| ==> keys[i] in t.view && records[i] == t.view[keys[i]]
  {
    ghost var views;
    records, views := RunLookups(t, keys);
    forall i, j | 0 <= i < j < |keys|
      ensures records[i] == records[j] <==> keys[i] == keys[j]
    {
      SameRecordIffSameKey(views, keys, records, i, j);
    }
    forall i | 0 <= i < |keys|
      ensures keys[i] in t.view && records[i] == t.view[keys[i]]
    {
      Kept(views, keys, records, i, |keys|);
    }
  }

  /** Whole runs over MAC addresses, from the table before the first packet. */
  method MacLookups(addresses: seq<seq<Octet>>) returns (records: seq<Record>)
    requires forall i :: 0 <= i < |addresses| ==> |addresses[i]| == 6
    ensures |records| == |addresses|
    ensures forall i, j :: 0 <= i < j < |addresses| ==> (records[i] == records[j] <==> addresses[i] == addresses[j])
  {
    var t := EmptyTable();
    var keys := seq(|addresses|, i requires 0 <= i < |addresses| => MacKey(addresses[i]));
    records := Lookups(t, keys);
    forall i, j | 0 <= i < j < |addresses|
      ensures records[i] == records[j] <==> addresses[i] == addresses[j]
    {
      MacKeyIsUnique(addresses[i], addresses[j]);
    }
  }
}
