/**
 * The in-place shuffle of a list (ListHelper.RandomShuffle).
 *
 * The random source is injected: `draws[index]` is the value the generator
 * returns at iteration `index`, and the only thing known about it is that it
 * lies in `[index, count)`, which is what `Random.Range(index, count)` promises.
 */
module ListHelper {

  /** How many times `v` occurs in `s`. */
  function Occurrences<T(==)>(s: seq<T>, v: T): (n: nat)
    ensures n <= |s|
  {
    if s == [] then 0
    else Occurrences(s[..|s| - 1], v) + (if s[|s| - 1] == v then 1 else 0)
  }

  /** Occurrences agrees with the multiplicity of the multiset of the sequence. */
  lemma {:induction false} OccurrencesIsMultiplicity<T>(s: seq<T>, v: T)
    ensures Occurrences(s, v) == multiset(s)[v]
  {
    if s != [] {
      var init, last := s[..|s| - 1], s[|s| - 1];
      assert s == init + [last];
      OccurrencesIsMultiplicity(init, v);
      assert multiset(s) == multiset(init) + multiset{last};
    }
  }

  /** The oracle's answers are fit for a list of `count` elements: one draw per
      iteration of the loop (there are `count - 1` of them), each in `[index, count)`. */
  predicate ValidDraws(draws: seq<int>, count: int)
  {
    |draws| >= count - 1 &&
    forall index :: 0 <= index < count - 1 ==> index <= draws[index] < count
  }

  /** `s` with the elements at `i` and `j` exchanged. */
  function Swapped<T>(s: seq<T>, i: int, j: int): (r: seq<T>)
    requires 0 <= i < |s| && 0 <= j < |s|
    ensures |r| == |s| && r[i] == s[j] && r[j] == s[i]
    ensures forall k :: 0 <= k < |s| && k != i && k != j ==> r[k] == s[k]
    ensures multiset(r) == multiset(s)
  {
    s[i := s[j]][j := s[i]]
  }

  /** What the loop does from iteration `index` on: swap position `index` with the
      drawn position, then carry on with the next index while `index < count - 1`.
      Every step is a swap, so the result is a permutation of `s`. */
  function ShuffledFrom<T>(s: seq<T>, draws: seq<int>, index: nat): (r: seq<T>)
    requires ValidDraws(draws, |s|)
    ensures |r| == |s| && multiset(r) == multiset(s)
    decreases |s| - index
  {
    if index + 1 >= |s| then s
    else ShuffledFrom(Swapped(s, index, draws[index]), draws, index + 1)
  }

  /** The list RandomShuffle leaves behind, given the oracle's draws. */
  function Shuffled<T>(s: seq<T>, draws: seq<int>): seq<T>
    requires ValidDraws(draws, |s|)
  {
    ShuffledFrom(s, draws, 0)
  }

  /** Iterations from `index` on never write a position below `index`: once
      iteration `index - 1` is over, the prefix `[..index]` is final. */
  lemma {:induction false} ShuffledFromKeepsPrefix<T>(s: seq<T>, draws: seq<int>, index: nat)
    requires ValidDraws(draws, |s|)
    requires index <= |s|
    ensures |ShuffledFrom(s, draws, index)| == |s|
    ensures ShuffledFrom(s, draws, index)[..index] == s[..index]
    decreases |s| - index
  {
    if index + 1 < |s| {
      var t := Swapped(s, index, draws[index]);
      var r := ShuffledFrom(t, draws, index + 1);
      assert ShuffledFrom(s, draws, index) == r;
      ShuffledFromKeepsPrefix(t, draws, index + 1);
      assert r[..index] == r[..index + 1][..index];
      assert t[..index] == s[..index];
    }
  }

  /** Lists of zero or one element are left as they are: the loop bound
      `count - 1` allows no iteration. */
  lemma ShortListsUntouched<T>(s: seq<T>, draws: seq<int>)
    requires |s| <= 1 && ValidDraws(draws, |s|)
    ensures Shuffled(s, draws) == s
  {
  }

  /** Every value occurs as often after the shuffle as before. */
  lemma ShuffledPreservesOccurrences<T>(s: seq<T>, draws: seq<int>, v: T)
    requires ValidDraws(draws, |s|)
    ensures Occurrences(Shuffled(s, draws), v) == Occurrences(s, v)
  {
    OccurrencesIsMultiplicity(s, v);
    OccurrencesIsMultiplicity(Shuffled(s, draws), v);
  }

  /** RandomShuffle: for each index below `count - 1`, exchange `list[index]`
      with `list[r]` where `r` is the next draw. */
  method RandomShuffle<T>(list: array<T>, draws: seq<int>)
    requires ValidDraws(draws, list.Length)
    modifies list
    ensures list[..] == Shuffled(old(list[..]), draws)
    ensures multiset(list[..]) == multiset(old(list[..]))
  {
    var count := list.Length;
    var last := count - 1;
    var index := 0;
    while index < last
      invariant 0 <= index && (index <= last || count <= 1)
      invariant ShuffledFrom(list[..], draws, index) == Shuffled(old(list[..]), draws)
      invariant multiset(list[..]) == multiset(old(list[..]))
    {
      var r := draws[index];
      ghost var before := list[..];
      var swap := list[index];
      list[index] := list[r];
      list[r] := swap;
      assert list[..] == Swapped(before, index, r);
      index := index + 1;
    }
  }
}
