/** Permutations of `0 .. n-1`, given as sequences of indices. */
module Perms {
  import Seqs

  ghost predicate IsPermutation(p: seq<nat>) {
    multiset(p) == multiset(Seqs.Range(|p|))
  }

  ghost predicate Injective(p: seq<nat>) {
    forall i, j :: 0 <= i < j < |p| ==> p[i] != p[j]
  }

  /** Pigeonhole: `m` distinct values below `b` need `m <= b`. */
  lemma {:induction false} InjectiveBound(p: seq<nat>, b: nat)
    requires Injective(p) && forall i :: 0 <= i < |p| ==> p[i] < b
    ensures |p| <= b
    decreases |p|
  {
    if p != [] {
      var v := p[|p| - 1];
      var q := seq(|p| - 1, i requires 0 <= i < |p| - 1 => if p[i] > v then p[i] - 1 else p[i]);
      forall i, j | 0 <= i < j < |q| ensures q[i] != q[j] {
        assert p[i] != p[j] && p[i] != v && p[j] != v;
      }
      forall i | 0 <= i < |q| ensures q[i] < b - 1 {
        assert p[i] != v;
      }
      InjectiveBound(q, b - 1);
    }
  }

  lemma TopPresent(p: seq<nat>) returns (j: nat)
    requires |p| > 0 && Injective(p) && forall i :: 0 <= i < |p| ==> p[i] < |p|
    ensures j < |p| && p[j] == |p| - 1
  {
    if forall i :: 0 <= i < |p| ==> p[i] != |p| - 1 {
      InjectiveBound(p, |p| - 1);
      assert false;
    }
    j :| 0 <= j < |p| && p[j] == |p| - 1;
  }

  lemma RemoveTop(p: seq<nat>, j: nat)
    requires j < |p| && p[j] == |p| - 1
    requires Injective(p) && forall i :: 0 <= i < |p| ==> p[i] < |p|
    ensures var q := p[..j] + p[j + 1..];
      Injective(q) && (forall i :: 0 <= i < |q| ==> q[i] < |q|) && multiset(p) == multiset(q) + multiset{|p| - 1}
  {
    var q := p[..j] + p[j + 1..];
    assert p == p[..j] + [p[j]] + p[j + 1..];
    forall i, k | 0 <= i < k < |q| ensures q[i] != q[k] {
      var i' := if i < j then i else i + 1;
      var k' := if k < j then k else k + 1;
      assert q[i] == p[i'] && q[k] == p[k'];
    }
    forall i | 0 <= i < |q| ensures q[i] < |q| {
      var i' := if i < j then i else i + 1;
      assert q[i] == p[i'] && i' != j;
    }
  }

  /** `n` distinct values below `n` are a permutation of `0 .. n-1`. */
  lemma {:induction false} InjectiveIsPermutation(p: seq<nat>)
    requires Injective(p) && forall i :: 0 <= i < |p| ==> p[i] < |p|
    ensures IsPermutation(p)
    decreases |p|
  {
    var n := |p|;
    if n > 0 {
      var j := TopPresent(p);
      var q := p[..j] + p[j + 1..];
      RemoveTop(p, j);
      InjectiveIsPermutation(q);
      AddTop(p, q);
    }
  }

  /** Adding the value `|q|` to a permutation `q` gives a permutation one longer. */
  lemma AddTop(p: seq<nat>, q: seq<nat>)
    requires IsPermutation(q) && |p| == |q| + 1
    requires multiset(p) == multiset(q) + multiset{|q| as nat}
    ensures IsPermutation(p)
  {
    Seqs.RangeSnoc(|q|);
  }

  /** A permutation holds exactly the values below its length, each once. */
  lemma PermutationValues(p: seq<nat>, i: nat)
    requires IsPermutation(p) && i < |p|
    ensures p[i] < |p|
  {
    assert p[i] in multiset(Seqs.Range(|p|));
  }

  lemma RangeCount(n: nat, v: nat)
    ensures multiset(Seqs.Range(n))[v] == if v < n then 1 else 0
  {
    if n > 0 {
      Seqs.RangeSnoc(n - 1);
      RangeCount(n - 1, v);
    }
  }

  lemma PermutationInjective(p: seq<nat>, i: nat, j: nat)
    requires IsPermutation(p) && i < j < |p|
    ensures p[i] != p[j]
  {
    if p[i] == p[j] {
      assert p == p[..i] + [p[i]] + p[i + 1..j] + [p[j]] + p[j + 1..];
      assert multiset(p)[p[i]] >= 2;
      RangeCount(|p|, p[i]);
    }
  }

  /** Every value below the length occurs in a permutation. */
  lemma PermutationCovers(p: seq<nat>, v: nat)
    requires IsPermutation(p) && v < |p|
    ensures exists i :: 0 <= i < |p| && p[i] == v
  {
    RangeCount(|p|, v);
    assert v in multiset(p);
  }

  /** Rearranging a sequence by a permutation keeps its multiset. */
  lemma PermuteMultiset<T>(a: seq<T>, b: seq<T>, p: seq<nat>)
    requires |p| == |a| == |b| && IsPermutation(p)
    requires forall i :: 0 <= i < |b| ==> p[i] < |a| && b[i] == a[p[i]]
    ensures multiset(b) == multiset(a)
  {
    if |a| > 0 {
      var f := (k: nat) => if k < |a| then a[k] else a[0];
      Seqs.MapSeqMultiset(p, Seqs.Range(|a|), f);
      assert Seqs.MapSeq(Seqs.Range(|a|), f) == a;
      assert Seqs.MapSeq(p, f) == b;
    }
  }
}
