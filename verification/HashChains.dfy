/** The linked records of the hash tables of tcpdump/addrtoname.c. */
module HashChains {
  import opened Options

  const HASHNAMESIZE := 4096

  class Node<K> {
    var key: K
    var name: Option<string>
    var nxt: Node?<K>
    /** The chain this record is in and its place there; the chain of a record not yet used is -1. */
    ghost var slot: int
    ghost var pos: int

    constructor (key: K, ghost slot: int, ghost pos: int)
      ensures this.key == key && name == None && nxt == null && this.slot == slot && this.pos == pos
    {
      this.key, name, nxt := key, None, null;
      this.slot, this.pos := slot, pos;
    }
  }

  /** Record i of chain k has the key and leads to the next record. */
  ghost predicate Holds<K>(n: Node<K>, next: Node<K>, key: K, k: nat, i: nat)
    reads n
  {
    n.slot == k && n.pos == i && n.nxt == next && n.key == key
  }

  /** The record that ends chain k. */
  ghost predicate Ends<K>(n: Node<K>, k: nat, i: nat)
    reads n
  {
    n.slot == k && n.pos == i && n.nxt == null && n.name == None
  }

  /** The records of a chain: one for each key, and one more for the next key to come. */
  ghost predicate IsChain<K>(nodes: seq<Node<K>>, keys: seq<K>, k: nat)
    reads nodes
  {
    && |nodes| == |keys| + 1
    && (forall i :: 0 <= i < |keys| ==> Holds(nodes[i], nodes[i + 1], keys[i], k, i))
    && Ends(nodes[|keys|], k, |keys|)
  }

  /** A record is in one chain only and at one place, and only the last has no link. */
  lemma PlaceInChain<K>(nodes: seq<Node<K>>, keys: seq<K>, k: nat, i: nat)
    requires IsChain(nodes, keys, k) && i < |nodes|
    ensures nodes[i].slot == k && nodes[i].pos == i
    ensures nodes[i].nxt == null <==> i == |keys|
    ensures i < |keys| ==> Holds(nodes[i], nodes[i + 1], keys[i], k, i)
  {
    if i < |keys| {
      assert Holds(nodes[i], nodes[i + 1], keys[i], k, i);
    }
  }

  lemma NotInChain<K>(nodes: seq<Node<K>>, keys: seq<K>, k: nat, n: Node<K>)
    requires IsChain(nodes, keys, k) && n.slot != k
    ensures n !in nodes
  {
    forall i | 0 <= i < |nodes|
      ensures nodes[i] != n
    {
      PlaceInChain(nodes, keys, k, i);
    }
  }

  /** The record that ends chain k and an unused one are no other record of any chain. */
  lemma Apart<K>(nodes: seq<seq<Node<K>>>, keys: seq<seq<K>>, k: nat, q: Node<K>)
    requires |nodes| == |keys| && k < |nodes| && q.slot == -1
    requires forall j :: 0 <= j < |nodes| ==> IsChain(nodes[j], keys[j], j)
    ensures |nodes[k]| == |keys[k]| + 1
    ensures var p := nodes[k][|keys[k]|];
            && p.slot == k && p.pos == |keys[k]|
            && (forall j :: 0 <= j < |nodes| && j != k ==> p !in nodes[j] && q !in nodes[j])
            && (forall i :: 0 <= i < |keys[k]| ==> nodes[k][i] != p && nodes[k][i] != q)
  {
    assert IsChain(nodes[k], keys[k], k);
    var p := nodes[k][|keys[k]|];
    PlaceInChain(nodes[k], keys[k], k, |keys[k]|);
    forall j | 0 <= j < |nodes| && j != k
      ensures p !in nodes[j] && q !in nodes[j]
    {
      NotInChain(nodes[j], keys[j], j, p);
      NotInChain(nodes[j], keys[j], j, q);
    }
    forall i | 0 <= i < |keys[k]|
      ensures nodes[k][i] != p && nodes[k][i] != q
    {
      PlaceInChain(nodes[k], keys[k], k, i);
    }
  }

  lemma LongerChain<K>(nodes: seq<Node<K>>, keys: seq<K>, k: nat, q: Node<K>, key: K)
    requires |nodes| == |keys| + 1 && forall i :: 0 <= i < |keys| ==> Holds(nodes[i], nodes[i + 1], keys[i], k, i)
    requires Holds(nodes[|keys|], q, key, k, |keys|) && Ends(q, k, |keys| + 1)
    ensures IsChain(nodes + [q], keys + [key], k)
  {
    var ns, ks := nodes + [q], keys + [key];
    forall i | 0 <= i < |ks|
      ensures Holds(ns[i], ns[i + 1], ks[i], k, i)
    {
      if i < |keys| {
        assert Holds(nodes[i], nodes[i + 1], keys[i], k, i);
      }
    }
  }

  /** Fills the record that ends a chain and puts a new one after it. */
  method Link<K>(ghost k: nat, p: Node<K>, q: Node<K>, key: K)
    requires p != q
    modifies p`key, p`nxt, q`slot, q`pos
    ensures p.key == key && p.nxt == q && q.slot == k && q.pos == p.pos + 1
  {
    p.key, p.nxt := key, q;
    q.slot, q.pos := k, p.pos + 1;
  }
}
