/** Grouping a sequence into its maximal runs of equal keys. */
module Grouping {
  function Last<T>(s: seq<T>): T
    requires s != []
  {
    s[|s| - 1]
  }

  function Flatten<T>(groups: seq<seq<T>>): seq<T> {
    if groups == [] then [] else Flatten(groups[..|groups| - 1]) + Last(groups)
  }

  /** The runs, built one element at a time. */
  function Runs<T, K(==)>(s: seq<T>, key: T -> K): (groups: seq<seq<T>>)
    ensures forall a :: 0 <= a < |groups| ==> groups[a] != []
  {
    if s == [] then [] else
    var before := Runs(s[..|s| - 1], key);
    if before != [] && key(Last(before)[0]) == key(Last(s)) then before[..|before| - 1] + [Last(before) + [Last(s)]]
    else before + [[Last(s)]]
  }

  /** What a division into runs is: groups of one key, neighbours with different keys, nothing lost or moved. */
  ghost predicate IsRuns<T, K>(groups: seq<seq<T>>, s: seq<T>, key: T -> K) {
    && Flatten(groups) == s
    && (forall a :: 0 <= a < |groups| ==> groups[a] != [])
    && (forall a, i :: 0 <= a < |groups| && 0 <= i < |groups[a]| ==> key(groups[a][i]) == key(groups[a][0]))
    && (forall a :: 0 < a < |groups| ==> key(groups[a - 1][0]) != key(groups[a][0]))
  }

  /** Equal entries stand next to each other. */
  ghost predicate Contiguous<K>(ks: seq<K>) {
    forall i, j, k :: 0 <= i < j < k < |ks| && ks[i] == ks[k] ==> ks[j] == ks[i]
  }

  ghost predicate NoRepeat<K>(ks: seq<K>) {
    forall i, j :: 0 <= i < j < |ks| ==> ks[i] != ks[j]
  }

  /** The keys that head the groups. */
  function Heads<T, K>(groups: seq<seq<T>>, key: T -> K): (ks: seq<K>)
    requires forall a :: 0 <= a < |groups| ==> groups[a] != []
    ensures |ks| == |groups| && forall a :: 0 <= a < |groups| ==> ks[a] == key(groups[a][0])
  {
    seq(|groups|, a requires 0 <= a < |groups| => key(groups[a][0]))
  }

  /** R holds from left to right. */
  ghost predicate Ordered<T>(s: seq<T>, r: (T, T) -> bool) {
    forall i, j :: 0 <= i < j < |s| ==> r(s[i], s[j])
  }

  function Filter<T>(s: seq<T>, p: T -> bool): (f: seq<T>)
    ensures forall x <- f :: x in s && p(x)
    ensures forall x <- s :: p(x) ==> x in f
  {
    if s == [] then [] else Filter(s[..|s| - 1], p) + (if p(Last(s)) then [Last(s)] else [])
  }

  function Map<T, U>(s: seq<T>, f: T -> U): (m: seq<U>)
    ensures |m| == |s| && forall i :: 0 <= i < |s| ==> m[i] == f(s[i])
  {
    seq(|s|, i requires 0 <= i < |s| => f(s[i]))
  }

  lemma SnocParts<T>(s: seq<T>, x: T)
    ensures (s + [x])[..|s|] == s && Last(s + [x]) == x
  {
  }

  lemma MapSnoc<T, U>(s: seq<T>, x: T, f: T -> U)
    ensures Map(s + [x], f) == Map(s, f) + [f(x)]
  {
  }

  lemma RunsSnoc<T, K>(s: seq<T>, x: T, key: T -> K)
    ensures var before := Runs(s, key);
      Runs(s + [x], key) ==
        if before != [] && key(Last(before)[0]) == key(x) then before[..|before| - 1] + [Last(before) + [x]]
        else before + [[x]]
  {
    SnocParts(s, x);
  }

  lemma FilterSnoc<T>(s: seq<T>, x: T, p: T -> bool)
    ensures Filter(s + [x], p) == Filter(s, p) + (if p(x) then [x] else [])
  {
    SnocParts(s, x);
  }

  lemma RunLonger<T, K>(front: seq<seq<T>>, g: seq<T>, s: seq<T>, x: T, key: T -> K)
    requires IsRuns(front + [g], s, key) && key(g[0]) == key(x)
    ensures IsRuns(front + [g + [x]], s + [x], key)
  {
    var before, after := front + [g], front + [g + [x]];
    SnocParts(front, g);
    SnocParts(front, g + [x]);
    assert Flatten(front) + (g + [x]) == Flatten(front) + g + [x];
    assert before[|front|] == g && after[|front|] == g + [x];
    assert forall a | 0 <= a < |front| :: after[a] == before[a] == front[a];
  }

  lemma RunAdded<T, K>(groups: seq<seq<T>>, s: seq<T>, x: T, key: T -> K)
    requires IsRuns(groups, s, key) && (groups != [] ==> key(Last(groups)[0]) != key(x))
    ensures IsRuns(groups + [[x]], s + [x], key)
  {
    SnocParts(groups, [x]);
  }

  lemma {:induction false} RunsSound<T, K>(s: seq<T>, key: T -> K)
    ensures IsRuns(Runs(s, key), s, key)
  {
    if s != [] {
      var front, x := s[..|s| - 1], Last(s);
      var before := Runs(front, key);
      RunsSound(front, key);
      assert s == front + [x];
      RunsSnoc(front, x, key);
      hide Runs, IsRuns;
      if before != [] && key(Last(before)[0]) == key(x) {
        assert before == before[..|before| - 1] + [Last(before)];
        RunLonger(before[..|before| - 1], Last(before), front, x, key);
      } else {
        RunAdded(before, front, x, key);
      }
    }
  }

  /** The runs are determined by the sequence. */
  lemma {:induction false} RunsUnique<T, K>(groups: seq<seq<T>>, s: seq<T>, key: T -> K)
    requires IsRuns(groups, s, key)
    ensures groups == Runs(s, key)
    decreases |s|
  {
    if groups == [] {
    } else {
      var g, front := Last(groups), groups[..|groups| - 1];
      var x, s' := Last(s), s[..|s| - 1];
      assert groups == front + [g];
      assert s == s' + [x] && x == Last(g);
      assert forall i :: 0 <= i < |g| ==> key(g[i]) == key(g[0]);
      if |g| == 1 {
        assert s' == Flatten(front);
        RunsUnique(front, s', key);
      } else {
        var g' := g[..|g| - 1];
        var groups' := front + [g'];
        assert g == g' + [x];
        SnocParts(front, g');
        assert s' == Flatten(groups');
        assert forall a :: 0 <= a < |front| ==> groups'[a] == groups[a];
        RunsUnique(groups', s', key);
      }
    }
  }

  lemma {:induction false} FlattenMembers<T>(groups: seq<seq<T>>, x: T)
    ensures x in Flatten(groups) <==> exists a :: 0 <= a < |groups| && x in groups[a]
  {
    if groups != [] {
      FlattenMembers(groups[..|groups| - 1], x);
    }
  }

  lemma OrderedAppend<T>(s: seq<T>, t: seq<T>, r: (T, T) -> bool)
    ensures Ordered(s + t, r) <==>
      Ordered(s, r) && Ordered(t, r) && forall i, j :: 0 <= i < |s| && 0 <= j < |t| ==> r(s[i], t[j])
  {
    var u := s + t;
    assert forall i :: 0 <= i < |s| ==> u[i] == s[i];
    assert forall j :: 0 <= j < |t| ==> u[|s| + j] == t[j];
    if Ordered(u, r) {
      forall i, j | 0 <= i < |s| && 0 <= j < |t|
        ensures r(s[i], t[j])
      {
        assert r(u[i], u[|s| + j]);
      }
      forall i, j | 0 <= i < j < |t|
        ensures r(t[i], t[j])
      {
        assert r(u[|s| + i], u[|s| + j]);
      }
    }
    if Ordered(s, r) && Ordered(t, r) && forall i, j :: 0 <= i < |s| && 0 <= j < |t| ==> r(s[i], t[j]) {
      forall i, j | 0 <= i < j < |u|
        ensures r(u[i], u[j])
      {
        if j >= |s| {
          assert u[j] == t[j - |s|];
          if i >= |s| { assert u[i] == t[i - |s|]; }
        }
      }
    }
  }

  /** An order on a sequence holds inside each group of any division of it, and from group to group. */
  lemma {:induction false} FlattenOrdered<T>(groups: seq<seq<T>>, r: (T, T) -> bool)
    requires Ordered(Flatten(groups), r)
    ensures forall a :: 0 <= a < |groups| ==> Ordered(groups[a], r)
    ensures forall a, b, i, j ::
      0 <= a < b < |groups| && 0 <= i < |groups[a]| && 0 <= j < |groups[b]| ==> r(groups[a][i], groups[b][j])
  {
    if groups != [] {
      var front, g := groups[..|groups| - 1], Last(groups);
      OrderedAppend(Flatten(front), g, r);
      FlattenOrdered(front, r);
      forall a, i, j | 0 <= a < |front| && 0 <= i < |front[a]| && 0 <= j < |g|
        ensures r(front[a][i], g[j])
      {
        FlattenMembers(front, front[a][i]);
        assert front[a][i] in front[a];
      }
    }
  }

  lemma {:induction false} FilterNone<T>(s: seq<T>, p: T -> bool)
    requires forall x <- s :: !p(x)
    ensures Filter(s, p) == []
  {
    if s != [] {
      FilterNone(s[..|s| - 1], p);
    }
  }

  lemma {:induction false} FilterAll<T>(s: seq<T>, p: T -> bool)
    requires forall i :: 0 <= i < |s| ==> p(s[i])
    ensures Filter(s, p) == s
  {
    if s != [] {
      FilterAll(s[..|s| - 1], p);
      assert s[..|s| - 1] + [Last(s)] == s;
    }
  }

  lemma {:induction false} FilterOrdered<T>(s: seq<T>, p: T -> bool, r: (T, T) -> bool)
    requires Ordered(s, r)
    ensures Ordered(Filter(s, p), r)
  {
    if s != [] {
      var s', x := s[..|s| - 1], Last(s);
      assert s == s' + [x];
      OrderedAppend(s', [x], r);
      FilterOrdered(s', p, r);
      OrderedAppend(Filter(s', p), [x], r);
      forall i | 0 <= i < |Filter(s', p)|
        ensures r(Filter(s', p)[i], x)
      {
        assert Filter(s', p)[i] in s';
      }
      assert Filter(s', p) + [] == Filter(s', p);
    }
  }

  /** Where a filter puts the element at i, if it keeps it. */
  function Kept<T>(s: seq<T>, p: T -> bool, i: nat): nat
    requires i <= |s|
  {
    |Filter(s[..i], p)|
  }

  lemma {:induction false} KeptAt<T>(s: seq<T>, p: T -> bool, i: nat)
    requires i < |s| && p(s[i])
    ensures Kept(s, p, i) < |Filter(s, p)| && Filter(s, p)[Kept(s, p, i)] == s[i]
  {
    var front := s[..|s| - 1];
    if i < |front| {
      KeptAt(front, p, i);
      assert front[..i] == s[..i];
    }
  }

  lemma KeptLater<T>(s: seq<T>, p: T -> bool, i: nat, j: nat)
    requires i < j <= |s| && p(s[i])
    ensures Kept(s, p, i) < Kept(s, p, j)
  {
    KeptAt(s[..j], p, i);
    assert s[..j][..i] == s[..i];
  }

  lemma NoRepeatAppend<K>(s: seq<K>, t: seq<K>)
    requires NoRepeat(s) && NoRepeat(t) && forall x <- s :: x !in t
    ensures NoRepeat(s + t)
  {
    forall i, j | 0 <= i < j < |s + t|
      ensures (s + t)[i] != (s + t)[j]
    {
      if i < |s| <= j {
        assert s[i] in s && t[j - |s|] in t;
      }
    }
  }

  /** Adjacent repetitions removed. */
  function Dedup<K(==)>(ks: seq<K>): seq<K> {
    if ks == [] then [] else
    var d := Dedup(ks[..|ks| - 1]);
    if d != [] && Last(d) == Last(ks) then d else d + [Last(ks)]
  }

  lemma {:induction false} RunHeads<T, K>(s: seq<T>, key: T -> K)
    ensures Heads(Runs(s, key), key) == Dedup(Map(s, key))
  {
    if s != [] {
      var s' := s[..|s| - 1];
      RunHeads(s', key);
      assert Map(s, key)[..|s| - 1] == Map(s', key);
    }
  }

  lemma {:induction false} DedupMembers<K>(ks: seq<K>, k: K)
    ensures k in Dedup(ks) <==> k in ks
    ensures ks != [] ==> Dedup(ks) != [] && Last(Dedup(ks)) == Last(ks)
  {
    if ks != [] {
      DedupMembers(ks[..|ks| - 1], k);
      assert ks == ks[..|ks| - 1] + [Last(ks)];
      if |ks| > 1 {
        assert Dedup(ks[..|ks| - 1]) != [];
      }
    }
  }

  lemma ContiguousSnoc<K>(ks: seq<K>, k: K)
    ensures Contiguous(ks + [k]) <==> Contiguous(ks) && (ks == [] || Last(ks) == k || k !in ks)
  {
    var t := ks + [k];
    assert forall i :: 0 <= i < |ks| ==> t[i] == ks[i];
    assert t[|ks|] == k;
    if Contiguous(t) && ks != [] && k in ks {
      var i :| 0 <= i < |ks| && ks[i] == k;
      assert i < |ks| - 1 ==> t[|ks| - 1] == t[i];
    }
    if Contiguous(t) {
      forall i, j, m | 0 <= i < j < m < |ks| && ks[i] == ks[m]
        ensures ks[j] == ks[i]
      {
        assert t[i] == t[m];
      }
    }
  }

  lemma NoRepeatSnoc<K>(ks: seq<K>, k: K)
    ensures NoRepeat(ks + [k]) <==> NoRepeat(ks) && k !in ks
  {
    var t := ks + [k];
    assert forall i :: 0 <= i < |ks| ==> t[i] == ks[i];
    assert t[|ks|] == k;
    if NoRepeat(t) {
      forall i, j | 0 <= i < j < |ks|
        ensures ks[i] != ks[j]
      {
        assert t[i] != t[j];
      }
    }
  }

  lemma {:induction false} DedupDistinct<K>(ks: seq<K>)
    ensures NoRepeat(Dedup(ks)) <==> Contiguous(ks)
  {
    if ks != [] {
      var front, k := ks[..|ks| - 1], Last(ks);
      DedupDistinct(front);
      DedupMembers(front, k);
      ContiguousSnoc(front, k);
      NoRepeatSnoc(Dedup(front), k);
      assert ks == front + [k];
      if front != [] {
        assert Last(Dedup(front)) == Last(front);
      }
    }
  }

  /** No key heads two runs exactly when the sequence is contiguous. */
  lemma RunsDistinct<T, K>(s: seq<T>, key: T -> K)
    ensures NoRepeat(Heads(Runs(s, key), key)) <==> Contiguous(Map(s, key))
  {
    RunHeads(s, key);
    DedupDistinct(Map(s, key));
  }

  /** In a contiguous sequence the run headed by a key holds every element with that key. */
  lemma RunComplete<T, K>(s: seq<T>, key: T -> K, a: nat, x: T)
    requires Contiguous(Map(s, key)) && a < |Runs(s, key)|
    ensures x in Runs(s, key)[a] <==> x in s && key(x) == Heads(Runs(s, key), key)[a]
  {
    var groups := Runs(s, key);
    RunsSound(s, key);
    RunsDistinct(s, key);
    FlattenMembers(groups, x);
    if x in s && key(x) == key(groups[a][0]) {
      var b :| 0 <= b < |groups| && x in groups[b];
      assert Heads(groups, key)[b] == key(x);
    }
  }

  function KeyIs<T, K(==)>(key: T -> K, k: K): T -> bool {
    x => key(x) == k
  }

  /** A key that heads no run occurs nowhere. */
  lemma NoRunNoElement<T, K>(s: seq<T>, key: T -> K, k: K)
    requires k !in Heads(Runs(s, key), key)
    ensures Filter(s, KeyIs(key, k)) == []
  {
    hide Runs, Filter;
    RunHeads(s, key);
    DedupMembers(Map(s, key), k);
    forall y | y in s
      ensures key(y) != k
    {
      var i :| 0 <= i < |s| && s[i] == y;
      assert Map(s, key)[i] == key(y);
    }
    FilterNone(s, KeyIs(key, k));
  }

  /** One more element either belongs to the last run or is not of a run's key. */
  lemma OldRunFilter<T, K>(s: seq<T>, x: T, key: T -> K, a: nat)
    requires Contiguous(Map(s + [x], key)) && a < |Runs(s, key)|
    requires Runs(s, key)[a] == Filter(s, KeyIs(key, key(Runs(s, key)[a][0])))
    ensures a < |Runs(s + [x], key)| && key(Runs(s + [x], key)[a][0]) == key(Runs(s, key)[a][0])
    ensures Runs(s + [x], key)[a] == Filter(s + [x], KeyIs(key, key(Runs(s, key)[a][0])))
  {
    hide Runs, Filter;
    var before, groups := Runs(s, key), Runs(s + [x], key);
    RunsSnoc(s, x, key);
    FilterSnoc(s, x, KeyIs(key, key(before[a][0])));
    RunsDistinct(s + [x], key);
    var heads := Heads(groups, key);
    assert before[a] + [] == before[a];
    hide Contiguous;
    assert forall i, j | 0 <= i < j < |heads| :: heads[i] != heads[j];
    if key(Last(before)[0]) == key(x) {
      assert heads[|before| - 1] == key(x);
    } else {
      assert heads[|before|] == key(x);
    }
  }

  lemma NewRunFilter<T, K>(s: seq<T>, x: T, key: T -> K)
    requires Contiguous(Map(s + [x], key)) && |Runs(s + [x], key)| == |Runs(s, key)| + 1
    ensures Last(Runs(s + [x], key)) == Filter(s + [x], KeyIs(key, key(Last(Runs(s + [x], key))[0])))
  {
    hide Runs, Filter;
    var before, groups := Runs(s, key), Runs(s + [x], key);
    RunsSnoc(s, x, key);
    FilterSnoc(s, x, KeyIs(key, key(x)));
    RunsDistinct(s + [x], key);
    var heads := Heads(groups, key);
    hide Contiguous;
    assert heads[|before|] == key(x);
    assert forall b | 0 <= b < |before| :: Heads(before, key)[b] == heads[b];
    NoRunNoElement(s, key, key(x));
  }

  /** In a contiguous sequence a run is the subsequence of all elements with its key, in order. */
  lemma {:induction false} RunIsFilter<T, K>(s: seq<T>, key: T -> K, a: nat)
    requires Contiguous(Map(s, key)) && a < |Runs(s, key)|
    ensures Runs(s, key)[a] == Filter(s, KeyIs(key, Heads(Runs(s, key), key)[a]))
  {
    hide Runs, Filter;
    NonemptyRuns(s, key);
    var front, x := s[..|s| - 1], Last(s);
    assert s == front + [x];
    MapSnoc(front, x, key);
    ContiguousSnoc(Map(front, key), key(x));
    RunsSnoc(front, x, key);
    hide Contiguous;
    if a < |Runs(front, key)| {
      RunIsFilter(front, key, a);
      OldRunFilter(front, x, key, a);
    } else {
      NewRunFilter(front, x, key);
    }
  }

  lemma NonemptyRuns<T, K>(s: seq<T>, key: T -> K)
    ensures Runs(s, key) == [] <==> s == []
  {
  }
}
