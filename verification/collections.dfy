/** Small facts about sets, sequences and multisets used by several modules. */
module Collections {
  lemma Member<T>(s: set<T>) returns (x: T)
    requires s != {}
    ensures x in s
  {
    x :| x in s;
  }

  lemma SameElements<T>(a: set<T>, b: set<T>)
    requires forall x :: x in a <==> x in b
    ensures a == b
  {
  }

  lemma SameMembers<T>(g: seq<T>, h: seq<T>)
    requires multiset(g) == multiset(h)
    ensures forall x :: x in g <==> x in h
  {
    forall x ensures x in g <==> x in h {
      assert x in g <==> x in multiset(g);
      assert x in h <==> x in multiset(h);
    }
  }

  /** Finds in `h` the last element of a rearrangement `g`, and takes it out of both. */
  lemma TakeOut<T>(g: seq<T>, h: seq<T>) returns (k: nat)
    requires multiset(g) == multiset(h) && g != []
    ensures k < |h| && h[k] == g[|g| - 1]
    ensures multiset(g[..|g| - 1]) == multiset(h[..k] + h[k + 1..])
  {
    var n := |g| - 1;
    assert g == g[..n] + [g[n]];
    assert g[n] in multiset(h);
    k :| 0 <= k < |h| && h[k] == g[n];
    assert h == h[..k] + ([h[k]] + h[k + 1..]);
    assert multiset(h) == multiset(h[..k]) + multiset([h[k]] + h[k + 1..]);
    assert multiset(g[..n]) == multiset(g) - multiset{g[n]};
  }

  lemma SameSize<T>(a: set<T>, b: set<T>)
    requires a <= b && |a| == |b|
    ensures a == b
  {
    assert b == a + (b - a);
  }

  predicate Unique<T(==)>(s: seq<T>) {
    forall i, j :: 0 <= i < j < |s| ==> s[i] != s[j]
  }

  function Elements<T(==)>(s: seq<T>): set<T> { set x | x in s }

  /** The elements of `s` outside `gone`, in order. */
  function Drop<T(==)>(s: seq<T>, gone: set<T>): seq<T> {
    if s == [] then []
    else if s[|s| - 1] in gone then Drop(s[..|s| - 1], gone)
    else Drop(s[..|s| - 1], gone) + [s[|s| - 1]]
  }

  lemma ElementsAppend<T>(s: seq<T>, x: T)
    ensures Elements(s + [x]) == Elements(s) + {x}
  {
  }

  lemma {:induction false} DropElements<T>(s: seq<T>, gone: set<T>)
    ensures Elements(Drop(s, gone)) == Elements(s) - gone
  {
    if s != [] {
      var n := |s| - 1;
      DropElements(s[..n], gone);
      ElementsAppend(s[..n], s[n]);
      assert s == s[..n] + [s[n]];
      if s[n] !in gone { ElementsAppend(Drop(s[..n], gone), s[n]); }
    }
  }

  lemma UniqueAppend<T>(s: seq<T>, x: T)
    requires Unique(s) && x !in Elements(s)
    ensures Unique(s + [x])
  {
  }

  lemma {:induction false} DropUnique<T>(s: seq<T>, gone: set<T>)
    requires Unique(s)
    ensures Unique(Drop(s, gone))
  {
    if s != [] {
      var n := |s| - 1;
      DropUnique(s[..n], gone);
      DropElements(s[..n], gone);
      if s[n] !in gone { UniqueAppend(Drop(s[..n], gone), s[n]); }
    }
  }

  lemma {:induction false} DropShorter<T>(s: seq<T>, gone: set<T>)
    ensures |Drop(s, gone)| <= |s|
  {
    if s != [] { DropShorter(s[..|s| - 1], gone); }
  }

  lemma UniqueTail<T>(s: seq<T>)
    requires Unique(s) && s != []
    ensures Unique(s[1..]) && Elements(s[1..]) == Elements(s) - {s[0]}
  {
    forall x ensures x in s[1..] <==> x in s && x != s[0] {
      if x in s && x != s[0] { var i :| 0 <= i < |s| && s[i] == x; assert s[1..][i - 1] == x; }
    }
  }

  /** Nothing to drop. */
  lemma {:induction false} DropNothing<T>(s: seq<T>, gone: set<T>)
    requires Elements(s) !! gone
    ensures Drop(s, gone) == s
  {
    if s != [] {
      var n := |s| - 1;
      ElementsAppend(s[..n], s[n]);
      assert s == s[..n] + [s[n]];
      assert s[n] in Elements(s);
      DropNothing(s[..n], gone);
    }
  }

  lemma {:induction false} UniqueSize<T>(s: seq<T>)
    requires Unique(s)
    ensures |Elements(s)| == |s|
  {
    if s != [] {
      var n := |s| - 1;
      UniqueSize(s[..n]);
      ElementsAppend(s[..n], s[n]);
      assert s == s[..n] + [s[n]];
    }
  }

  function Mapped<A, B>(f: A -> B, s: seq<A>): seq<B> {
    if s == [] then [] else Mapped(f, s[..|s| - 1]) + [f(s[|s| - 1])]
  }

  lemma {:induction false} MappedConcat<A, B>(f: A -> B, s: seq<A>, t: seq<A>)
    ensures Mapped(f, s + t) == Mapped(f, s) + Mapped(f, t)
  {
    if t == [] {
      assert s + t == s;
    } else {
      var n := |t| - 1;
      MappedConcat(f, s, t[..n]);
      assert (s + t)[..|s + t| - 1] == s + t[..n];
    }
  }

  lemma {:induction false} MappedAt<A, B>(f: A -> B, s: seq<A>)
    ensures |Mapped(f, s)| == |s| && forall i :: 0 <= i < |s| ==> Mapped(f, s)[i] == f(s[i])
  {
    if s != [] { MappedAt(f, s[..|s| - 1]); }
  }

  lemma SumsCommute<T>(a: multiset<T>, b: multiset<T>, c: multiset<T>)
    ensures (a + b) + c == (a + c) + b
  {
  }

  lemma MappedSnoc<A, B>(f: A -> B, s: seq<A>, x: A)
    ensures Mapped(f, s + [x]) == Mapped(f, s) + [f(x)]
  {
    assert (s + [x])[..|s|] == s;
  }

  lemma MappedAround<A, B>(f: A -> B, a: seq<A>, x: A, b: seq<A>)
    ensures multiset(Mapped(f, (a + [x]) + b)) == multiset(Mapped(f, a + b)) + multiset{f(x)}
  {
    hide Mapped;
    MappedConcat(f, a + [x], b);
    MappedSnoc(f, a, x);
    MappedConcat(f, a, b);
    SumsCommute(multiset(Mapped(f, a)), multiset{f(x)}, multiset(Mapped(f, b)));
  }

  lemma MappedWithoutOne<A, B>(f: A -> B, s: seq<A>, k: nat)
    requires k < |s|
    ensures multiset(Mapped(f, s)) == multiset(Mapped(f, s[..k] + s[k + 1..])) + multiset{f(s[k])}
  {
    hide Mapped;
    assert s == (s[..k] + [s[k]]) + s[k + 1..];
    MappedAround(f, s[..k], s[k], s[k + 1..]);
  }

  /** Mapping keeps rearrangements rearrangements. */
  lemma {:induction false} MappedPermutation<A, B>(f: A -> B, s: seq<A>, t: seq<A>)
    requires multiset(s) == multiset(t)
    ensures multiset(Mapped(f, s)) == multiset(Mapped(f, t))
    decreases |s|
  {
    if s == [] {
      assert |multiset(t)| == 0;
    } else {
      var k := TakeOut(s, t);
      MappedPermutation(f, s[..|s| - 1], t[..k] + t[k + 1..]);
      MappedWithoutOne(f, t, k);
    }
  }

  /** Adding elements one by one: the size of a set within an integer range. */
  lemma {:induction false} Pigeonhole(s: set<int>, lo: int, hi: int)
    requires lo <= hi
    requires forall t :: t in s ==> lo < t <= hi
    ensures |s| <= hi - lo
    decreases hi - lo
  {
    if s != {} {
      var t := Member(s);
      Pigeonhole(s - {hi}, lo, hi - 1);
      if hi !in s { SameElements(s - {hi}, s); }
    }
  }

  lemma LeastExists(s: set<int>)
    requires s != {}
    ensures exists t :: t in s && forall u :: u in s ==> t <= u
  {
    var x := Member(s);
    var rest := s - {x};
    forall u | u in s ensures u == x || u in rest {}
    if rest != {} {
      LeastExists(rest);
      var t :| t in rest && forall u :: u in rest ==> t <= u;
      assert t in s;
      if x < t { assert forall u :: u in s ==> x <= u; } else { assert forall u :: u in s ==> t <= u; }
    } else {
      assert forall u :: u in s ==> x <= u;
    }
  }
}
