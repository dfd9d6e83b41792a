/**
 * Row permutations as the solver records them: p[i] is the original row
 * that now sits at position i.
 */
module Permutations {

  /** The permutation the solver starts from: P[i] = i. */
  function Identity(n: nat): (p: seq<nat>)
    ensures |p| == n
  {
    seq(n, i requires 0 <= i < n => i)
  }

  /** The first n entries name every row 0..n-1 exactly once. */
  predicate IsPermutation(p: seq<nat>, n: nat)
  {
    && |p| == n
    && (forall i :: 0 <= i < n ==> p[i] < n)
    && (forall i, j :: 0 <= i < j < n ==> p[i] != p[j])
    && (forall v :: 0 <= v < n ==> v in p)
  }

  /** Exchange the entries at positions i and j. */
  function Swap<T>(s: seq<T>, i: nat, j: nat): (t: seq<T>)
    requires i < |s| && j < |s|
    ensures |t| == |s|
  {
    s[i := s[j]][j := s[i]]
  }

  /** Every recorded exchange (i, j) is a genuine transposition of two rows below n. */
  predicate ValidSwaps(sw: seq<(nat, nat)>, n: nat)
  {
    forall t :: 0 <= t < |sw| ==> sw[t].0 < sw[t].1 < n
  }

  /** The permutation reached from p by performing the exchanges of sw in order. */
  function ApplySwaps(p: seq<nat>, sw: seq<(nat, nat)>): (q: seq<nat>)
    requires ValidSwaps(sw, |p|)
    ensures |q| == |p|
    decreases |sw|
  {
    if sw == [] then p
    else
      var last := sw[|sw| - 1];
      Swap(ApplySwaps(p, sw[..|sw| - 1]), last.0, last.1)
  }

  lemma IdentityIsPermutation(n: nat)
    ensures IsPermutation(Identity(n), n)
  {
    var id := Identity(n);
    forall v | 0 <= v < n
      ensures v in id
    {
      assert id[v] == v;
    }
  }

  /** Exchanging two entries of a permutation gives a permutation. */
  lemma SwapIsPermutation(p: seq<nat>, n: nat, i: nat, j: nat)
    requires IsPermutation(p, n) && i < n && j < n
    ensures IsPermutation(Swap(p, i, j), n)
  {
    var q := Swap(p, i, j);
    forall v | 0 <= v < n
      ensures v in q
    {
      assert v in p;
      var w :| 0 <= w < n && p[w] == v;
      if w == i {
        assert q[j] == v;
      } else if w == j {
        assert q[i] == v;
      } else {
        assert q[w] == v;
      }
    }
  }

  /** Performing valid exchanges on a permutation keeps it a permutation. */
  lemma {:induction false} ApplySwapsIsPermutation(p: seq<nat>, sw: seq<(nat, nat)>, n: nat)
    requires IsPermutation(p, n) && ValidSwaps(sw, n)
    ensures IsPermutation(ApplySwaps(p, sw), n)
    decreases |sw|
  {
    if sw != [] {
      var last := sw[|sw| - 1];
      ApplySwapsIsPermutation(p, sw[..|sw| - 1], n);
      SwapIsPermutation(ApplySwaps(p, sw[..|sw| - 1]), n, last.0, last.1);
    }
  }

  /** The exchanges move row positions in strictly increasing order, as
      partial pivoting does: exchange t is made at step sw[t].0. */
  predicate Ascending(sw: seq<(nat, nat)>)
  {
    forall t, u :: 0 <= t < u < |sw| ==> sw[t].0 < sw[u].0
  }

  /** No two entries of p are equal. */
  predicate Distinct(p: seq<nat>)
  {
    forall i, j :: 0 <= i < j < |p| ==> p[i] != p[j]
  }

  /** Performing the exchanges of [s] + rest is performing s first. */
  lemma {:induction false} ApplySwapsFront(p: seq<nat>, s: (nat, nat), rest: seq<(nat, nat)>)
    requires s.0 < s.1 < |p| && ValidSwaps(rest, |p|) && ValidSwaps([s] + rest, |p|)
    ensures ApplySwaps(p, [s] + rest) == ApplySwaps(Swap(p, s.0, s.1), rest)
    decreases |rest|
  {
    var sw := [s] + rest;
    if rest == [] {
      assert sw[..|sw| - 1] == [];
    } else {
      var front := rest[..|rest| - 1];
      assert sw[..|sw| - 1] == [s] + front;
      assert ValidSwaps([s] + front, |p|) by {
        forall t | 0 <= t < |[s] + front|
          ensures ([s] + front)[t].0 < ([s] + front)[t].1 < |p|
        {
          assert ([s] + front)[t] == sw[t];
        }
      }
      ApplySwapsFront(p, s, front);
    }
  }

  /** Exchanges that all lie above position b leave entries 0..b alone. */
  lemma {:induction false} ApplySwapsAbove(p: seq<nat>, sw: seq<(nat, nat)>, b: nat)
    requires ValidSwaps(sw, |p|) && b < |p|
    requires forall t :: 0 <= t < |sw| ==> b < sw[t].0
    ensures forall k :: 0 <= k <= b ==> ApplySwaps(p, sw)[k] == p[k]
    decreases |sw|
  {
    if sw != [] {
      ApplySwapsAbove(p, sw[..|sw| - 1], b);
    }
  }

  /** After the first exchange of an ascending list, the rest is valid and
      lies above its first position. */
  lemma AscendingRest(sw: seq<(nat, nat)>, n: nat)
    requires ValidSwaps(sw, n) && Ascending(sw) && sw != []
    ensures ValidSwaps(sw[1..], n) && Ascending(sw[1..])
    ensures forall t :: 0 <= t < |sw[1..]| ==> sw[0].0 < sw[1..][t].0
  {
  }

  /** In an ascending list of exchanges the first one, (i, j), settles
      position i: afterwards it holds p[j], and the positions before i are
      untouched. */
  lemma LeadingSwap(p: seq<nat>, sw: seq<(nat, nat)>)
    requires ValidSwaps(sw, |p|) && Ascending(sw) && sw != []
    ensures ApplySwaps(p, sw) == ApplySwaps(Swap(p, sw[0].0, sw[0].1), sw[1..])
    ensures ApplySwaps(p, sw)[sw[0].0] == p[sw[0].1]
    ensures forall k :: 0 <= k < sw[0].0 ==> ApplySwaps(p, sw)[k] == p[k]
  {
    var rest := sw[1..];
    AscendingRest(sw, |p|);
    assert sw == [sw[0]] + rest;
    ApplySwapsFront(p, sw[0], rest);
    ApplySwapsAbove(Swap(p, sw[0].0, sw[0].1), rest, sw[0].0);
  }

  /** Exchanging two entries keeps the entries distinct. */
  lemma SwapKeepsDistinct(p: seq<nat>, i: nat, j: nat)
    requires Distinct(p) && i < |p| && j < |p|
    ensures Distinct(Swap(p, i, j))
  {
  }

  /** Only the empty ascending list leaves distinct entries where they are. */
  lemma AscendingIdentityIsEmpty(p: seq<nat>, sw: seq<(nat, nat)>)
    requires Distinct(p) && ValidSwaps(sw, |p|) && Ascending(sw)
    requires ApplySwaps(p, sw) == p
    ensures sw == []
  {
    if sw != [] {
      LeadingSwap(p, sw);
      assert false;
    }
  }

  /** Two ascending lists that reach the same arrangement start with the
      same exchange. */
  lemma AscendingLeadersAgree(p: seq<nat>, sw: seq<(nat, nat)>, sw': seq<(nat, nat)>)
    requires Distinct(p) && ValidSwaps(sw, |p|) && ValidSwaps(sw', |p|)
    requires Ascending(sw) && Ascending(sw') && sw != [] && sw' != []
    requires ApplySwaps(p, sw) == ApplySwaps(p, sw')
    ensures sw[0] == sw'[0]
  {
    LeadingSwap(p, sw);
    LeadingSwap(p, sw');
    if sw[0].0 < sw'[0].0 {
      assert false;
    } else if sw'[0].0 < sw[0].0 {
      assert false;
    }
  }

  /** A permutation has at most one ascending decomposition into exchanges:
      the first exchange is fixed by the first position that moved, and the
      rest by induction. So the number of exchanges partial pivoting
      records is a function of the permutation it produces. */
  lemma {:induction false} AscendingSwapsUnique(p: seq<nat>, sw: seq<(nat, nat)>, sw': seq<(nat, nat)>)
    requires Distinct(p) && ValidSwaps(sw, |p|) && ValidSwaps(sw', |p|)
    requires Ascending(sw) && Ascending(sw')
    requires ApplySwaps(p, sw) == ApplySwaps(p, sw')
    ensures sw == sw'
    decreases |sw| + |sw'|
  {
    if sw == [] {
      AscendingIdentityIsEmpty(p, sw');
    } else if sw' == [] {
      AscendingIdentityIsEmpty(p, sw);
    } else {
      AscendingLeadersAgree(p, sw, sw');
      AscendingRest(sw, |p|);
      AscendingRest(sw', |p|);
      LeadingSwap(p, sw);
      LeadingSwap(p, sw');
      SwapKeepsDistinct(p, sw[0].0, sw[0].1);
      AscendingSwapsUnique(Swap(p, sw[0].0, sw[0].1), sw[1..], sw'[1..]);
      assert sw == [sw[0]] + sw[1..];
      assert sw' == [sw'[0]] + sw'[1..];
    }
  }
}
