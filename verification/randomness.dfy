/**
 * Model of the pseudo-random draws (`System.Random.Next`, `UnityEngine.Random.Range`).
 * A draw is an arbitrary natural number reduced to the requested range, so every
 * in-range value is a possible outcome and every property is proved for all outcomes.
 * Sources of draws are oracles `rng: nat -> nat` indexed by a draw counter.
 */
module Randomness {

  /** `Next(bound)`: a value in [0, bound). */
  function Next(draw: nat, bound: int): (r: int)
    requires bound > 0
    ensures 0 <= r < bound
  {
    draw % bound
  }

  /** `Next(lo, hi)` / `Range(lo, hi)` for integers: a value in [lo, hi). */
  function Range(draw: nat, lo: int, hi: int): (r: int)
    requires lo < hi
    ensures lo <= r < hi
  {
    lo + Next(draw, hi - lo)
  }

  /** Every in-range value is produced by some draw: the model restricts no outcome. */
  lemma RangeCoversAll(lo: int, hi: int, v: int)
    requires lo <= v < hi
    ensures Range((v - lo) as nat, lo, hi) == v
  {
  }

  function Swap<T>(s: seq<T>, i: int, j: int): (r: seq<T>)
    requires 0 <= i < |s| && 0 <= j < |s|
    ensures |r| == |s| && r[i] == s[j] && r[j] == s[i]
    ensures forall k :: 0 <= k < |s| && k != i && k != j ==> r[k] == s[k]
    ensures multiset(r) == multiset(s)
  {
    if i == j then s else s[i := s[j]][j := s[i]]
  }

  /**
   * The Fisher-Yates loop of `GetShuffledDirections`: for i from `i` down to 1,
   * swap position i with a position j drawn from [0, i]. Draw `k` is used for i.
   */
  function FisherYates<T>(s: seq<T>, i: int, rng: nat -> nat, k: nat): (r: seq<T>)
    requires i < |s|
    ensures |r| == |s|
    ensures multiset(r) == multiset(s)
    decreases i
  {
    if i <= 0 then s
    else FisherYates(Swap(s, i, Next(rng(k), i + 1)), i - 1, rng, k + 1)
  }

  /**
   * A draw-driven reordering standing in for `OrderBy(a => rng.Next())`: one draw per
   * element, as `OrderBy` takes one key per element, but each draw selects the element
   * to put next rather than being a sort key. `ShuffleCoversAll` shows that every
   * ordering is reachable.
   */
  function Shuffle<T>(s: seq<T>, rng: nat -> nat, k: nat): (r: seq<T>)
    ensures |r| == |s|
    ensures multiset(r) == multiset(s)
    decreases |s|
  {
    if |s| == 0 then []
    else
      var i := Next(rng(k), |s|);
      assert s == s[..i] + [s[i]] + s[i + 1..];
      [s[i]] + Shuffle(s[..i] + s[i + 1..], rng, k + 1)
  }

  /** The shuffle of s reads only the draws k .. k + |s| - 1. */
  lemma {:induction false} ShuffleFrame<T>(s: seq<T>, rng: nat -> nat, rng': nat -> nat, k: nat)
    requires forall j :: k <= j < k + |s| ==> rng(j) == rng'(j)
    ensures Shuffle(s, rng, k) == Shuffle(s, rng', k)
    decreases |s|
  {
    if |s| > 0 {
      var i := Next(rng(k), |s|);
      ShuffleFrame(s[..i] + s[i + 1..], rng, rng', k + 1);
    }
  }

  /** A draw already below the bound is drawn as itself. */
  lemma NextBelowBound(draw: nat, bound: int)
    requires draw < bound
    ensures Next(draw, bound) == draw
  {
  }

  /** One step of the shuffle: the drawn element first, then the shuffle of the others. */
  lemma ShuffleUnfold<T>(s: seq<T>, rng: nat -> nat, k: nat)
    requires |s| > 0
    ensures var i := Next(rng(k), |s|); Shuffle(s, rng, k) == [s[i]] + Shuffle(s[..i] + s[i + 1..], rng, k + 1)
  {
  }

  /** A first draw of i puts s[i] first; the rest is shuffled by the later draws. */
  lemma ShuffleFirstDraw<T>(s: seq<T>, i: int, rng: nat -> nat, rng': nat -> nat, k: nat)
    requires 0 <= i < |s| && rng(k) == i
    requires forall j :: k < j ==> rng(j) == rng'(j)
    ensures Shuffle(s, rng, k) == [s[i]] + Shuffle(s[..i] + s[i + 1..], rng', k + 1)
  {
    ShuffleUnfold(s, rng, k);
    NextBelowBound(rng(k), |s|);
    ShuffleFrame(s[..i] + s[i + 1..], rng, rng', k + 1);
  }

  lemma ConsTail<T>(t: seq<T>)
    requires |t| > 0
    ensures t == [t[0]] + t[1..]
  {
  }

  /** Taking the wanted first element out of s leaves a permutation of the rest of t. */
  lemma RemoveFirstWanted<T>(s: seq<T>, t: seq<T>, i: int)
    requires multiset(t) == multiset(s) && |t| > 0 && 0 <= i < |s| && s[i] == t[0]
    ensures multiset(t[1..]) == multiset(s[..i] + s[i + 1..])
  {
    assert t == [t[0]] + t[1..];
    assert s == s[..i] + [s[i]] + s[i + 1..];
    calc {
      multiset(t[1..]);
      multiset(t) - multiset{t[0]};
      multiset(s) - multiset{s[i]};
      multiset(s[..i]) + multiset(s[i + 1..]);
    }
  }

  /** The draws of rng with draw k replaced by i. */
  function DrawFirst(rng: nat -> nat, k: nat, i: nat): (r: nat -> nat)
    ensures r(k) == i && forall j :: k < j ==> r(j) == rng(j)
  {
    j => if j == k then i else rng(j)
  }

  /**
   * Every ordering of s is the shuffle for some draws: drawing, at each step, the
   * position of the next wanted element. The model therefore excludes no outcome of
   * `OrderBy` on random keys.
   */
  lemma {:induction false} ShuffleCoversAll<T>(s: seq<T>, t: seq<T>, k: nat)
    requires multiset(t) == multiset(s)
    ensures exists rng: nat -> nat :: Shuffle(s, rng, k) == t
    decreases |s|
  {
    assert |t| == |multiset(t)| == |s|;
    if |s| == 0 {
      var rng: nat -> nat := j => 0;
      assert Shuffle(s, rng, k) == t;
    } else {
      assert t[0] in multiset(s);
      var i: nat :| i < |s| && s[i] == t[0];
      var rest := s[..i] + s[i + 1..];
      RemoveFirstWanted(s, t, i);
      ShuffleCoversAll(rest, t[1..], k + 1);
      var rng': nat -> nat :| Shuffle(rest, rng', k + 1) == t[1..];
      var rng := DrawFirst(rng', k, i);
      ShuffleFirstDraw(s, i, rng, rng', k);
      ConsTail(t);
    }
  }
}
