/** The Fisher–Yates shuffle used by the memory game (`shuffleCards`) and by the breed API
    (`obtenerRazasAleatorias`). `Math.random()` is replaced by a supplied list of draws:
    `draws[i]` is the index `j` picked when the countdown is at `i`. */
module FisherYates {
  import opened Seqs

  /** A draw list for a list of length `n`: one choice `0 <= draws[i] <= i` per index, as
      `Math.floor(Math.random() * (i + 1))` produces. (`draws[0]` is never consulted, and
      `0` is its only possible value.) */
  predicate ValidDraws(draws: seq<nat>, n: nat)
  {
    |draws| == n && forall i :: 0 <= i < n ==> draws[i] <= i
  }

  predicate Distinct<T(==)>(s: seq<T>)
  {
    forall i, j :: 0 <= i < j < |s| ==> s[i] != s[j]
  }

  /** `[s[i], s[j]] = [s[j], s[i]]` */
  function Swap<T>(s: seq<T>, i: nat, j: nat): (r: seq<T>)
    requires i < |s| && j < |s|
    ensures |r| == |s| && r[i] == s[j] && r[j] == s[i]
    ensures forall k :: 0 <= k < |s| && k != i && k != j ==> r[k] == s[k]
  {
    s[i := s[j]][j := s[i]]
  }

  lemma {:induction false} SwapMultiset<T>(s: seq<T>, i: nat, j: nat)
    requires i < |s| && j < |s|
    ensures multiset(Swap(s, i, j)) == multiset(s)
  {
    var t := s[i := s[j]];
    assert multiset(t) == multiset(s) - multiset{s[i]} + multiset{s[j]};
    assert t[j := s[i]] == Swap(s, i, j);
  }

  /** The countdown loop from index `i` down to 1. */
  function ShuffleFrom<T>(s: seq<T>, draws: seq<nat>, i: int): (r: seq<T>)
    requires ValidDraws(draws, |s|) && i < |s|
    ensures |r| == |s|
    decreases i
  {
    if i <= 0 then s else ShuffleFrom(Swap(s, i, draws[i]), draws, i - 1)
  }

  /** The whole shuffle of `s` under `draws`. */
  function Shuffle<T>(s: seq<T>, draws: seq<nat>): seq<T>
    requires ValidDraws(draws, |s|)
  {
    ShuffleFrom(s, draws, |s| - 1)
  }

  lemma {:induction false} ShuffleFromPermutes<T>(s: seq<T>, draws: seq<nat>, i: int)
    requires ValidDraws(draws, |s|) && i < |s|
    ensures multiset(ShuffleFrom(s, draws, i)) == multiset(s)
    decreases i
  {
    if i > 0 {
      SwapMultiset(s, i, draws[i]);
      ShuffleFromPermutes(Swap(s, i, draws[i]), draws, i - 1);
    }
  }

  /** The shuffle is a permutation of its input. */
  lemma {:induction false} ShufflePermutes<T>(s: seq<T>, draws: seq<nat>)
    requires ValidDraws(draws, |s|)
    ensures |Shuffle(s, draws)| == |s|
    ensures multiset(Shuffle(s, draws)) == multiset(s)
  {
    ShuffleFromPermutes(s, draws, |s| - 1);
  }

  /** Positions above the countdown are never touched again. */
  lemma {:induction false} ShuffleFromKeepsAbove<T>(s: seq<T>, draws: seq<nat>, i: int, k: nat)
    requires ValidDraws(draws, |s|) && i < k < |s|
    ensures ShuffleFrom(s, draws, i)[k] == s[k]
    decreases i
  {
    if i > 0 {
      ShuffleFromKeepsAbove(Swap(s, i, draws[i]), draws, i - 1, k);
    }
  }

  lemma {:induction false} DistinctAt<T>(s: seq<T>, a: nat, b: nat)
    requires Distinct(s) && a < |s| && b < |s| && a != b
    ensures s[a] != s[b]
  {
    if b < a {
      assert s[b] != s[a];
    }
  }

  lemma {:induction false} SwapDistinct<T>(s: seq<T>, i: nat, j: nat)
    requires i < |s| && j < |s| && Distinct(s)
    ensures Distinct(Swap(s, i, j))
  {
    var r := Swap(s, i, j);
    forall a, b | 0 <= a < b < |r| ensures r[a] != r[b] {
      var a' := if a == i then j else if a == j then i else a;
      var b' := if b == i then j else if b == j then i else b;
      assert r[a] == s[a'] && r[b] == s[b'];
    }
  }

  /** The element the countdown leaves at index `i` is the one its own draw picked. */
  lemma {:induction false} ShuffleFromTop<T>(s: seq<T>, draws: seq<nat>, i: nat)
    requires ValidDraws(draws, |s|) && 0 < i < |s|
    ensures ShuffleFrom(s, draws, i)[i] == s[draws[i]]
  {
    var t := Swap(s, i, draws[i]);
    assert t[i] == s[draws[i]];
    ShuffleFromKeepsAbove(t, draws, i - 1, i);
    assert ShuffleFrom(s, draws, i) == ShuffleFrom(t, draws, i - 1);
  }

  lemma {:induction false} ShuffleFromInjective<T>(s: seq<T>, d1: seq<nat>, d2: seq<nat>, i: int, k: nat)
    requires ValidDraws(d1, |s|) && ValidDraws(d2, |s|) && i < |s| && Distinct(s)
    requires 1 <= k <= i && d1[k] != d2[k]
    ensures ShuffleFrom(s, d1, i) != ShuffleFrom(s, d2, i)
    decreases i
  {
    if d1[i] == d2[i] {
      var t := Swap(s, i, d1[i]);
      SwapDistinct(s, i, d1[i]);
      ShuffleFromInjective(t, d1, d2, i - 1, k);
      assert ShuffleFrom(s, d1, i) == ShuffleFrom(t, d1, i - 1);
      assert ShuffleFrom(s, d2, i) == ShuffleFrom(t, d2, i - 1);
    } else {
      ShuffleFromTop(s, d1, i);
      ShuffleFromTop(s, d2, i);
      DistinctAt(s, d1[i], d2[i]);
    }
  }

  /** On a list of distinct elements, different draw lists give different deals: the
      shuffle is a one-to-one map from the `n!` draw lists to orderings of the list. */
  lemma {:induction false} ShuffleInjective<T>(s: seq<T>, d1: seq<nat>, d2: seq<nat>)
    requires ValidDraws(d1, |s|) && ValidDraws(d2, |s|) && Distinct(s)
    requires Shuffle(s, d1) == Shuffle(s, d2)
    ensures d1 == d2
  {
    if d1 != d2 {
      var k :| 0 <= k < |s| && d1[k] != d2[k];
      ShuffleFromInjective(s, d1, d2, |s| - 1, k);
    }
  }

  /** Shuffling commutes with projecting every element, since the swaps only move
      elements around. */
  lemma {:induction false} ShuffleFromMap<T, U>(f: T -> U, s: seq<T>, draws: seq<nat>, i: int)
    requires ValidDraws(draws, |s|) && i < |s|
    ensures Map(f, ShuffleFrom(s, draws, i)) == ShuffleFrom(Map(f, s), draws, i)
    decreases i
  {
    if i > 0 {
      assert Map(f, Swap(s, i, draws[i])) == Swap(Map(f, s), i, draws[i]);
      ShuffleFromMap(f, Swap(s, i, draws[i]), draws, i - 1);
    }
  }

  lemma {:induction false} ShuffleMap<T, U>(f: T -> U, s: seq<T>, draws: seq<nat>)
    requires ValidDraws(draws, |s|)
    ensures Map(f, Shuffle(s, draws)) == Shuffle(Map(f, s), draws)
  {
    ShuffleFromMap(f, s, draws, |s| - 1);
  }

  /** A shuffle of distinct elements has distinct elements. */
  lemma {:induction false} ShuffleFromDistinct<T>(s: seq<T>, draws: seq<nat>, i: int)
    requires ValidDraws(draws, |s|) && i < |s| && Distinct(s)
    ensures Distinct(ShuffleFrom(s, draws, i))
    decreases i
  {
    if i > 0 {
      SwapDistinct(s, i, draws[i]);
      ShuffleFromDistinct(Swap(s, i, draws[i]), draws, i - 1);
    }
  }

  /** A prefix of a shuffle takes no element more often than the input holds it, and has
      no repeats when the input has none. */
  lemma {:induction false} ShufflePrefix<T>(s: seq<T>, draws: seq<nat>, n: nat)
    requires ValidDraws(draws, |s|) && n <= |s|
    ensures multiset(Shuffle(s, draws)[..n]) <= multiset(s)
    ensures Distinct(s) ==> Distinct(Shuffle(s, draws)[..n])
  {
    var r := Shuffle(s, draws);
    ShufflePermutes(s, draws);
    assert r == r[..n] + r[n..];
    assert multiset(r) == multiset(r[..n]) + multiset(r[n..]);
    if Distinct(s) {
      ShuffleFromDistinct(s, draws, |s| - 1);
    }
  }

  /** The loop of `shuffleCards`: copy the input into a fresh array and swap from the last
      index down to 1. The input sequence is a value and is not changed. */
  method ShuffleCards<T>(items: seq<T>, draws: seq<nat>) returns (shuffled: seq<T>)
    requires ValidDraws(draws, |items|)
    ensures shuffled == Shuffle(items, draws)
    ensures |shuffled| == |items| && multiset(shuffled) == multiset(items)
  {
    var a := new T[|items|](k requires 0 <= k < |items| => items[k]);
    assert a[..] == items;
    var i := a.Length - 1;
    while i > 0
      invariant -1 <= i < a.Length
      invariant ShuffleFrom(a[..], draws, i) == Shuffle(items, draws)
      decreases i
    {
      var j := draws[i];
      a[i], a[j] := a[j], a[i];
      i := i - 1;
    }
    shuffled := a[..];
    ShufflePermutes(items, draws);
  }
}
