/** The dashboard's per-domain traffic table, pruned to the newest minutes. */
module Traffic {
  import opened Collections
  import opened Lexicographic

  const TRAFFIC_MINUTES := 60

  /** How many of the events were in minute `m`. */
  function Count(minutes: seq<string>, m: string): nat {
    if minutes == [] then 0
    else Count(minutes[..|minutes| - 1], m) + if minutes[|minutes| - 1] == m then 1 else 0
  }

  lemma {:induction false} CountPositive(minutes: seq<string>, m: string)
    ensures Count(minutes, m) > 0 <==> m in minutes
  {
    if minutes != [] {
      CountPositive(minutes[..|minutes| - 1], m);
      assert minutes == minutes[..|minutes| - 1] + [minutes[|minutes| - 1]];
    }
  }

  lemma CountAppend(minutes: seq<string>, x: string, m: string)
    ensures Count(minutes + [x], m) == Count(minutes, m) + if x == m then 1 else 0
  {
    assert (minutes + [x])[..|minutes|] == minutes;
  }

  /** `kept` are the `cap` greatest of `all`, or all of them if there are no more. */
  ghost predicate Newest(kept: set<string>, all: set<string>, cap: nat) {
    && kept <= all
    && |kept| == (if |all| < cap then |all| else cap)
    && forall m, n :: m in kept && n in all && n !in kept ==> Less(n, m)
  }

  /** The newest minutes are determined by what has been seen. */
  lemma {:induction false} NewestUnique(a: set<string>, b: set<string>, all: set<string>, cap: nat)
    requires Newest(a, all, cap) && Newest(b, all, cap)
    ensures a == b
  {
    if m :| m in a && m !in b {
      SubsetOrMissing(b, a);
      var n :| n in b && n !in a;
      Transitive(m, n, m);
      Irreflexive(m);
    }
    SameSize(a, b);
  }

  lemma SubsetOrMissing(a: set<string>, b: set<string>)
    requires |a| == |b| && exists m :: m in b && m !in a
    ensures exists n :: n in a && n !in b
  {
    if a <= b { SameSize(a, b); }
  }

  lemma SizePlus(s: set<string>, x: string)
    ensures |s + {x}| == |s| + if x in s then 0 else 1
  {
    if x in s { assert s + {x} == s; }
  }

  /** A minute that fits is kept. */
  lemma NewestGrows(kept: set<string>, all: set<string>, x: string, cap: nat)
    requires Newest(kept, all, cap) && |kept + {x}| <= cap
    ensures Newest(kept + {x}, all + {x}, cap)
  {
    SizePlus(kept, x);
    SizePlus(all, x);
    if x in kept {
      assert kept + {x} == kept && all + {x} == all;
    } else {
      assert |all| < cap;
      SameSize(kept, all);
    }
  }

  /** One minute too many: dropping the least of them leaves the newest again. */
  lemma NewestPruned(kept: set<string>, all: set<string>, x: string, cap: nat)
    requires Newest(kept, all, cap) && |kept + {x}| > cap
    ensures var least := Least(kept + {x}); Newest((kept + {x}) - {least}, all + {x}, cap)
    ensures x in all ==> Least(kept + {x}) == x
  {
    SizePlus(kept, x);
    SizePlus(all, x);
    var grown := kept + {x};
    var least := Least(grown);
    var rest := grown - {least};
    if x in all {
      assert IsLeast(x, grown);
      LeastUnique(x, least, grown);
    }
    forall m, n | m in rest && n in all + {x} && n !in rest ensures Less(n, m) {
      if n != least {
        assert n in all && n !in kept;
        if m == x {
          var k := if least == x then m else least;
          assert k in kept && Less(n, k) && Less(k, m);
          Transitive(n, k, m);
        }
      }
    }
  }

  /** A domain's table after a history of minutes. */
  ghost predicate Summarises(buckets: map<string, nat>, minutes: seq<string>) {
    && Newest(buckets.Keys, Elements(minutes), TRAFFIC_MINUTES)
    && forall m :: m in buckets ==> buckets[m] == Count(minutes, m)
  }

  /**
   The table holds the newest of the minutes seen, 60 at most: none is left out for an older one, and
   each with the number of its events.
   */
  lemma {:induction false} SummaryExactly(buckets: map<string, nat>, minutes: seq<string>)
    ensures Summarises(buckets, minutes) <==>
              && |buckets| == (if |set m | m in minutes| < 60 then |set m | m in minutes| else 60)
              && (forall m :: m in buckets ==> m in minutes && buckets[m] == multiset(minutes)[m])
              && (forall m, n :: m in buckets && n in minutes && n !in buckets ==> Less(n, m))
  {
    forall m ensures Count(minutes, m) == multiset(minutes)[m] { CountIsMultiplicity(minutes, m); }
    assert Elements(minutes) == set m | m in minutes;
    assert |buckets.Keys| == |buckets|;
  }

  lemma NothingSeen()
    ensures Summarises(map[], [])
  {
    assert Elements<string>([]) == {};
  }

  /** The order of events does not matter: two tables of the same events are equal. */
  lemma {:induction false} SummaryUnique(a: map<string, nat>, b: map<string, nat>, s: seq<string>, t: seq<string>)
    requires Summarises(a, s) && Summarises(b, t) && multiset(s) == multiset(t)
    ensures a == b
  {
    SameMembers(s, t);
    assert Elements(s) == Elements(t);
    NewestUnique(a.Keys, b.Keys, Elements(s), TRAFFIC_MINUTES);
    forall m | m in a ensures a[m] == b[m] { CountPermutation(s, t, m); }
  }

  lemma {:induction false} CountPermutation(s: seq<string>, t: seq<string>, m: string)
    requires multiset(s) == multiset(t)
    ensures Count(s, m) == Count(t, m)
  {
    CountIsMultiplicity(s, m);
    CountIsMultiplicity(t, m);
  }

  lemma {:induction false} CountIsMultiplicity(s: seq<string>, m: string)
    ensures Count(s, m) == multiset(s)[m]
  {
    if s != [] {
      CountIsMultiplicity(s[..|s| - 1], m);
      assert s == s[..|s| - 1] + [s[|s| - 1]];
    }
  }

  /** Counting one more event in a minute that stays. */
  lemma Counted(buckets: map<string, nat>, minutes: seq<string>, x: string)
    requires Summarises(buckets, minutes)
    requires x in Elements(minutes) ==> x in buckets
    ensures var grown := buckets[x := if x in buckets then buckets[x] + 1 else 1];
            forall m :: m in grown ==> grown[m] == Count(minutes + [x], m)
  {
    CountPositive(minutes, x);
    forall m ensures Count(minutes + [x], m) == Count(minutes, m) + if x == m then 1 else 0 {
      CountAppend(minutes, x, m);
    }
  }

  class AggregateStore {
    var traffic: map<string, map<string, nat>>
    /** Per domain, the minutes of all its events so far. */
    ghost var seen: map<string, seq<string>>

    constructor ()
      ensures Valid() && traffic == map[] && seen == map[]
    {
      traffic, seen := map[], map[];
    }

    ghost predicate Valid()
      reads this
    {
      && traffic.Keys == seen.Keys
      && forall d :: d in traffic ==> Summarises(traffic[d], seen[d])
    }

    /** `_add_traffic`; a missing domain counts as "unknown". */
    method AddTraffic(envDomain: string, minute: string)
      requires Valid()
      modifies this
      ensures Valid()
      ensures var domain := if envDomain == "" then "unknown" else envDomain;
              && domain in seen
              && seen[domain] == (if domain in old(seen) then old(seen)[domain] else []) + [minute]
              && (forall d :: d in old(seen) && d != domain ==>
                    d in seen && seen[d] == old(seen)[d] && d in traffic && traffic[d] == old(traffic)[d])
              && seen.Keys == old(seen).Keys + {domain}
    {
      hide Newest, Count;
      var domain := if envDomain == "" then "unknown" else envDomain;
      NothingSeen();
      var buckets := if domain in traffic then traffic[domain] else map[];
      ghost var minutes := if domain in seen then seen[domain] else [];
      buckets := Bump(buckets, minute, minutes);
      traffic := traffic[domain := buckets];
      seen := seen[domain := minutes + [minute]];
    }

    /** Counts the event and, when there are too many minutes, deletes the least of them. */
    method Bump(buckets: map<string, nat>, minute: string, ghost minutes: seq<string>) returns (r: map<string, nat>)
      requires Summarises(buckets, minutes)
      ensures Summarises(r, minutes + [minute])
    {
      hide Newest, Count;
      ElementsAppend(minutes, minute);
      r := buckets[minute := if minute in buckets then buckets[minute] + 1 else 1];
      assert r.Keys == buckets.Keys + {minute};
      if |r| > TRAFFIC_MINUTES {
        NewestPruned(buckets.Keys, Elements(minutes), minute, TRAFFIC_MINUTES);
        OneTooMany(buckets.Keys, Elements(minutes), minute);
        r := Prune(r);
        PrunedCounts(buckets, minutes, minute, r);
      } else {
        NewestGrows(buckets.Keys, Elements(minutes), minute, TRAFFIC_MINUTES);
        StillAll(buckets.Keys, Elements(minutes), minute);
        Counted(buckets, minutes, minute);
      }
    }

    /** `for old in sorted(buckets)[:-TRAFFIC_MINUTES]: del buckets[old]` */
    method Prune(buckets: map<string, nat>) returns (r: map<string, nat>)
      requires |buckets| == TRAFFIC_MINUTES + 1
      ensures r == buckets - {Least(buckets.Keys)} && r.Keys == buckets.Keys - {Least(buckets.Keys)}
    {
      var sorted := Sorted(buckets.Keys);
      var surplus := sorted[..|sorted| - TRAFFIC_MINUTES];
      assert surplus == [Least(buckets.Keys)];
      r := buckets;
      for i := 0 to |surplus|
        invariant r == if i == 0 then buckets else buckets - {Least(buckets.Keys)}
      {
        r := r - {surplus[i]};
      }
    }

    /** Python's `sorted` over the minutes of one domain. */
    method Sorted(s: set<string>) returns (r: seq<string>)
      ensures Elements(r) == s && |r| == |s|
      ensures forall i, j :: 0 <= i < j < |r| ==> Less(r[i], r[j])
      ensures s != {} ==> r[0] == Least(s)
    {
      hide Elements, Less;
      r := [];
      var todo := s;
      NoElements();
      while todo != {}
        invariant todo <= s && |r| + |todo| == |s| && Elements(r) == s - todo
        invariant forall i, j :: 0 <= i < j < |r| ==> Less(r[i], r[j])
        invariant forall i, t :: 0 <= i < |r| && t in todo ==> Less(r[i], t)
        invariant r == [] ==> todo == s
        invariant r != [] ==> r[0] == Least(s)
        decreases todo
      {
        var x := LeastOf(todo);
        LeastUnique(x, Least(todo), todo);
        ElementsAppend(r, x);
        r := r + [x];
        todo := todo - {x};
      }
    }

    method LeastOf(s: set<string>) returns (x: string)
      requires s != {}
      ensures IsLeast(x, s)
    {
      x :| x in s;
      var todo := s - {x};
      while todo != {}
        invariant todo <= s && x in s && x !in todo
        invariant forall y :: y in s && y !in todo && y != x ==> Less(x, y)
        decreases todo
      {
        var y :| y in todo;
        Total(x, y);
        todo := todo - {y};
        if Less(y, x) {
          forall z | z in s && z !in todo && z != y && z != x ensures Less(y, z) { Transitive(y, x, z); }
          x := y;
        }
      }
    }
  }

  lemma NoElements()
    ensures Elements<string>([]) == {}
  {
  }

  lemma OneTooMany(kept: set<string>, all: set<string>, x: string)
    requires Newest(kept, all, TRAFFIC_MINUTES) && |kept + {x}| > TRAFFIC_MINUTES
    ensures |kept + {x}| == TRAFFIC_MINUTES + 1
  {
    SizePlus(kept, x);
  }

  lemma StillAll(kept: set<string>, all: set<string>, x: string)
    requires Newest(kept, all, TRAFFIC_MINUTES) && |kept + {x}| <= TRAFFIC_MINUTES
    ensures x in all ==> x in kept
  {
    SizePlus(kept, x);
    if x !in kept { SameSize(kept, all); }
  }

  /** A minute pruned before cannot come back: its fresh count is deleted at once. */
  lemma PrunedCounts(buckets: map<string, nat>, minutes: seq<string>, x: string, r: map<string, nat>)
    requires Summarises(buckets, minutes) && |buckets.Keys + {x}| > TRAFFIC_MINUTES
    requires var grown := buckets[x := if x in buckets then buckets[x] + 1 else 1];
             r == grown - {Least(buckets.Keys + {x})}
    ensures forall m :: m in r ==> r[m] == Count(minutes + [x], m)
  {
    NewestPruned(buckets.Keys, Elements(minutes), x, TRAFFIC_MINUTES);
    forall m | m in r ensures r[m] == Count(minutes + [x], m) {
      CountAppend(minutes, x, m);
      CountPositive(minutes, m);
    }
  }
}
