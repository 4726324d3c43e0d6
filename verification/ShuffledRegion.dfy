/** The pointer chase of util.cpp: a shuffled permutation of cache lines linked into one cycle. */
module ShuffledRegion {

  const POINTERS_PER_LINE: nat := 8

  /** The whole cache line is filled with pointers to the next line. */
  class CacheLine {
    var nexts: seq<CacheLine?>

    constructor ()
      ensures nexts == []
    {
      nexts := [];
    }

    method SetNexts(next: CacheLine)
      modifies this
      ensures nexts == seq(POINTERS_PER_LINE, _ => next)
    {
      nexts := seq(POINTERS_PER_LINE, _ => next);
    }
  }

  ghost predicate Distinct<T>(s: seq<T>)
  {
    forall i, j :: 0 <= i < j < |s| ==> s[i] != s[j]
  }

  // The indexes 0 to n - 1 in some order, as iota followed by shuffle leaves them.
  ghost predicate Permutation(indexes: seq<nat>, n: nat)
  {
    |indexes| == n && Distinct(indexes) && forall i :: 0 <= i < n ==> indexes[i] < n
  }

  // Every pointer in a line leads to the line after it in the order, and the last one back to the first.
  ghost predicate Cycle(order: seq<CacheLine>)
    reads order
  {
    order != [] && Distinct(order) &&
    forall i :: 0 <= i < |order| ==> LeadsTo(order[i], order[Successor(i, |order|)])
  }

  ghost predicate LeadsTo(line: CacheLine, next: CacheLine)
    reads line
  {
    |line.nexts| == POINTERS_PER_LINE && forall k :: 0 <= k < POINTERS_PER_LINE ==> line.nexts[k] == next
  }

  function Successor(i: nat, n: nat): nat
  {
    if i + 1 < n then i + 1 else 0
  }

  ghost function Ordered(storage: seq<CacheLine>, indexes: seq<nat>): (order: seq<CacheLine>)
    requires forall i :: 0 <= i < |indexes| ==> indexes[i] < |storage|
    ensures |order| == |indexes| && forall i :: 0 <= i < |indexes| ==> order[i] == storage[indexes[i]]
  {
    seq(|indexes|, i requires 0 <= i < |indexes| => storage[indexes[i]])
  }

  // Injective indexes below n reach every index below n.
  lemma {:induction false} PermutationCovers(indexes: seq<nat>, n: nat, k: nat)
    requires Permutation(indexes, n) && k < n
    ensures k in indexes
    decreases n
  {
    if k !in indexes {
      // Renaming n - 1 to k would fit n indexes into n - 1 values.
      var renamed := seq(n, i requires 0 <= i < n => if indexes[i] == n - 1 then k else indexes[i]);
      Pigeonhole(renamed, n - 1);
    }
  }

  lemma {:induction false} Pigeonhole(s: seq<nat>, n: nat)
    requires |s| > n && forall i :: 0 <= i < |s| ==> s[i] < n
    ensures !Distinct(s)
    decreases n
  {
    assert s[0] < n;
    if Distinct(s) {
      var last := s[|s| - 1];
      var rest := seq(|s| - 1, i requires 0 <= i < |s| - 1 => if s[i] == n - 1 then last else s[i]);
      Pigeonhole(rest, n - 1);
      assert Distinct(rest);
    }
  }

  // Links the lines of a region; the permutation is arbitrary.
  method LinkRegion(storage: seq<CacheLine>, indexes: seq<nat>)
    requires storage != [] && Distinct(storage) && Permutation(indexes, |storage|)
    modifies storage
    ensures Cycle(Ordered(storage, indexes))
  {
    ghost var order := Ordered(storage, indexes);
    var p := storage[indexes[0]];
    for i := 1 to |storage|
      invariant p == order[i - 1]
      invariant forall k :: 0 <= k < i - 1 ==> LeadsTo(order[k], order[k + 1])
    {
      var next := storage[indexes[i]];
      p.SetNexts(next);
      p := next;
    }
    p.SetNexts(storage[indexes[0]]);
    assert forall i :: 0 <= i < |order| - 1 ==> LeadsTo(order[i], order[i + 1]);
  }

  // Walks the pointers until the walk comes back; it does so after all lines and not before.
  method Count(first: CacheLine, ghost order: seq<CacheLine>) returns (count: nat)
    requires Cycle(order) && first in order
    ensures count == |order|
  {
    var p := first;
    ghost var start: nat :| start < |order| && order[start] == first;
    ghost var at := start;
    count := 0;
    while true
      invariant 0 <= at < |order| && p == order[at] && 0 <= count < |order|
      invariant at == if start + count < |order| then start + count else start + count - |order|
      decreases |order| - count
    {
      assert LeadsTo(order[at], order[Successor(at, |order|)]);
      p := p.nexts[0];
      at := Successor(at, |order|);
      count := count + 1;
      if p == first { break; }
    }
  }

  // shuffled_region: from every line of the storage the chase covers all of them.
  method ShuffleRegion(storage: seq<CacheLine>, indexes: seq<nat>, line: nat) returns (count: nat)
    requires storage != [] && Distinct(storage) && Permutation(indexes, |storage|) && line < |storage|
    modifies storage
    ensures count == |storage|
  {
    LinkRegion(storage, indexes);
    ghost var order := Ordered(storage, indexes);
    PermutationCovers(indexes, |storage|, line);
    ghost var k :| 0 <= k < |indexes| && indexes[k] == line;
    assert order[k] == storage[line];
    count := Count(storage[line], order);
  }
}
