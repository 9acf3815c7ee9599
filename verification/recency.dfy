/** Keys in the order of their last use, as access-ordered dictionaries keep them. */
module Recency {
  import opened Collections

  /** Position of the last use of `k`, or -1. */
  function LastUse<K(==)>(log: seq<K>, k: K): int {
    if log == [] then -1
    else if log[|log| - 1] == k then |log| - 1
    else LastUse(log[..|log| - 1], k)
  }

  lemma {:induction false} LastUseBound<K>(log: seq<K>, k: K)
    ensures -1 <= LastUse(log, k) < |log|
    ensures LastUse(log, k) >= 0 ==> log[LastUse(log, k)] == k
  {
    if log != [] { LastUseBound(log[..|log| - 1], k); }
  }

  lemma LastUseAppend<K>(log: seq<K>, k: K, j: K)
    ensures LastUse(log + [k], j) == if j == k then |log| else LastUse(log, j)
  {
    assert (log + [k])[..|log|] == log;
  }

  /** The order after a use of `key`. */
  function Refreshed<K(==)>(order: seq<K>, key: K): seq<K> { Drop(order, {key}) + [key] }

  lemma RefreshedFacts<K>(order: seq<K>, key: K)
    requires Unique(order)
    ensures Unique(Refreshed(order, key)) && Elements(Refreshed(order, key)) == Elements(order) + {key}
    ensures Refreshed(order, key) != [] && Refreshed(order, key)[|Refreshed(order, key)| - 1] == key
    ensures |Refreshed(order, key)| == if key in Elements(order) then |order| else |order| + 1
  {
    DropElements(order, {key});
    DropUnique(order, {key});
    UniqueAppend(Drop(order, {key}), key);
    ElementsAppend(Drop(order, {key}), key);
    UniqueSize(order);
    UniqueSize(Refreshed(order, key));
    assert key in Elements(order) ==> Elements(order) + {key} == Elements(order);
  }

  /** Keys listed from the least to the most recently used. */
  ghost predicate ByRecency<K>(order: seq<K>, log: seq<K>) {
    forall i, j :: 0 <= i < j < |order| ==> LastUse(log, order[i]) < LastUse(log, order[j])
  }

  lemma DropMember<K>(s: seq<K>, gone: set<K>, x: K)
    requires x in Drop(s, gone)
    ensures x in s && x !in gone
  {
    DropElements(s, gone);
    assert x in Elements(Drop(s, gone));
  }

  lemma {:induction false} DropKeepsRecency<K>(order: seq<K>, gone: set<K>, log: seq<K>)
    requires ByRecency(order, log)
    ensures ByRecency(Drop(order, gone), log)
  {
    hide LastUse, Elements;
    if order != [] {
      var n := |order| - 1;
      DropKeepsRecency(order[..n], gone, log);
      var rest := Drop(order[..n], gone);
      forall i | 0 <= i < |rest| ensures LastUse(log, rest[i]) < LastUse(log, order[n]) {
        DropMember(order[..n], gone, rest[i]);
      }
    }
  }

  /** A use moves its key to the end, and the order is by recency again. */
  lemma RefreshedByRecency<K>(order: seq<K>, log: seq<K>, key: K)
    requires ByRecency(order, log)
    ensures ByRecency(Refreshed(order, key), log + [key])
  {
    hide LastUse, Drop;
    var after := log + [key];
    DropKeepsRecency(order, {key}, log);
    LastUseAppend(log, key, key);
    var kept := Drop(order, {key});
    forall i | 0 <= i < |kept| ensures LastUse(after, kept[i]) == LastUse(log, kept[i]) < |log| {
      DropMember(order, {key}, kept[i]);
      LastUseAppend(log, key, kept[i]);
      LastUseBound(log, kept[i]);
    }
  }
}
