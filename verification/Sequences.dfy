/** Facts about sequences. */
module Sequences {
  lemma Regroup<T>(a: seq<T>, b: seq<T>, c: seq<T>)
    ensures a + (b + c) == a + b + c && |a + b| == |a| + |b|
  {
  }

  lemma TakeOneMore<T>(s: seq<T>, j: nat)
    requires j < |s|
    ensures s[..j + 1] == s[..j] + [s[j]]
  {
  }

  lemma SliceParts<T>(p: seq<T>, from: nat, to: nat, w: seq<T>, s: seq<T>)
    requires from <= to <= |p| && p[from..to] == w + s
    ensures to == from + |w| + |s| && p[from..from + |w|] == w && p[from + |w|..to] == s
  {
    var all := p[from..to];
    assert p[from..from + |w|] == all[..|w|] && p[from + |w|..to] == all[|w|..];
  }
}
