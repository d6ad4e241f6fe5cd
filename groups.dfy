/** What a `$group` stage with `count: { $sum: 1 }` yields, as the stats
    routes of server/routes/stats.js rely on it: one group per distinct
    value, counting that value's occurrences. The groups are built in order
    of first appearance; the routes reorder them with a `$sort` stage. */
module Groups {
  import opened Js
  import opened Sorting

  datatype Group<K> = Group(key: K, count: nat)

  /** How many times `k` occurs in `vs`. */
  function Occurrences<K(==)>(vs: seq<K>, k: K): (n: nat)
    ensures n <= |vs|
    ensures n == 0 <==> k !in vs
  {
    if vs == [] then 0
    else
      var front := vs[..|vs| - 1];
      assert vs == front + [vs[|vs| - 1]];
      Occurrences(front, k) + (if vs[|vs| - 1] == k then 1 else 0)
  }

  predicate DistinctKeys<K(==)>(gs: seq<Group<K>>) {
    forall i, j :: 0 <= i < j < |gs| ==> gs[i].key != gs[j].key
  }

  /** The position of the group for `v`, if there is one. */
  function KeyIndex<K(==)>(gs: seq<Group<K>>, v: K): (r: Option<nat>)
    ensures r.None? <==> forall i :: 0 <= i < |gs| ==> gs[i].key != v
    ensures r.Some? ==> r.value < |gs| && gs[r.value].key == v
  {
    if gs == [] then None
    else if gs[0].key == v then Some(0)
    else
      match KeyIndex(gs[1..], v)
      case None =>
        assert forall i :: 1 <= i < |gs| ==> gs[i] == gs[1..][i - 1];
        None
      case Some(i) => Some(i + 1)
  }

  /** One more document with value `v`: its group's count goes up, or a new
      group of one is added at the end. */
  function AddTo<K(==)>(gs: seq<Group<K>>, v: K): seq<Group<K>> {
    match KeyIndex(gs, v)
    case None => gs + [Group(v, 1)]
    case Some(i) => gs[i := Group(v, gs[i].count + 1)]
  }

  /** The groups of `vs`. */
  function GroupCount<K(==)>(vs: seq<K>): seq<Group<K>> {
    if vs == [] then [] else AddTo(GroupCount(vs[..|vs| - 1]), vs[|vs| - 1])
  }

  function Count<K>(g: Group<K>): int {
    g.count
  }

  lemma {:induction false} SumByAppend<K>(gs: seq<Group<K>>, g: Group<K>)
    ensures SumBy(gs + [g], Count) == SumBy(gs, Count) + g.count
  {
    if gs != [] {
      assert (gs + [g])[1..] == gs[1..] + [g];
      SumByAppend(gs[1..], g);
    }
  }

  lemma {:induction false} SumByUpdate<K>(gs: seq<Group<K>>, i: nat, g: Group<K>)
    requires i < |gs|
    ensures SumBy(gs[i := g], Count) == SumBy(gs, Count) - gs[i].count + g.count
  {
    if i > 0 {
      assert gs[i := g][1..] == gs[1..][i - 1 := g];
      SumByUpdate(gs[1..], i - 1, g);
    }
  }

  /** The keys of `gs` are exactly the values of `vs`. */
  predicate KeysAre<K(==)>(gs: seq<Group<K>>, vs: seq<K>) {
    && (forall i :: 0 <= i < |gs| ==> gs[i].key in vs)
    && (forall j :: 0 <= j < |vs| ==> exists i :: 0 <= i < |gs| && gs[i].key == vs[j])
  }

  /** Each group counts its value's occurrences, and none is empty. */
  predicate CountsAre<K(==)>(gs: seq<Group<K>>, vs: seq<K>) {
    forall i :: 0 <= i < |gs| ==> gs[i].count == Occurrences(vs, gs[i].key) && gs[i].count > 0
  }

  /** `gs` are the groups of `vs`: distinct keys, exactly the values that
      occur, each counting its value's occurrences, and together counting
      every value once. */
  predicate GroupsOf<K(==)>(gs: seq<Group<K>>, vs: seq<K>) {
    DistinctKeys(gs) && KeysAre(gs, vs) && CountsAre(gs, vs) && SumBy(gs, Count) == |vs|
  }

  lemma OccurrencesAppend<K>(vs: seq<K>, v: K, k: K)
    ensures Occurrences(vs + [v], k) == Occurrences(vs, k) + (if v == k then 1 else 0)
  {
    assert (vs + [v])[..|vs|] == vs;
  }

  lemma CountsAfterAdd<K>(gs: seq<Group<K>>, r: seq<Group<K>>, vs: seq<K>, v: K)
    requires |r| == |gs|
    requires forall i :: 0 <= i < |r| ==> r[i].key == gs[i].key
    requires forall i :: 0 <= i < |r| && r[i].key != v ==> r[i].count == gs[i].count
    requires forall i :: 0 <= i < |r| && r[i].key == v ==> r[i].count == gs[i].count + 1
    requires CountsAre(gs, vs)
    ensures CountsAre(r, vs + [v])
  {
    forall i | 0 <= i < |r|
      ensures r[i].count == Occurrences(vs + [v], r[i].key)
    {
      OccurrencesAppend(vs, v, r[i].key);
    }
  }

  lemma KeysAfterAdd<K>(gs: seq<Group<K>>, r: seq<Group<K>>, vs: seq<K>, v: K, at: nat)
    requires |gs| <= |r| && at < |r| && r[at].key == v
    requires forall i :: 0 <= i < |gs| ==> r[i].key == gs[i].key
    requires forall i :: |gs| <= i < |r| ==> r[i].key == v
    requires KeysAre(gs, vs)
    ensures KeysAre(r, vs + [v])
  {
    forall j | 0 <= j < |vs + [v]|
      ensures exists i :: 0 <= i < |r| && r[i].key == (vs + [v])[j]
    {
      if j == |vs| {
        assert r[at].key == v;
      } else {
        assert (vs + [v])[j] == vs[j];
        var i :| 0 <= i < |gs| && gs[i].key == vs[j];
        assert r[i].key == vs[j];
      }
    }
  }

  /** A value not seen before opens a new group of one. */
  lemma AddToNew<K>(gs: seq<Group<K>>, vs: seq<K>, v: K)
    requires GroupsOf(gs, vs) && KeyIndex(gs, v).None?
    ensures GroupsOf(AddTo(gs, v), vs + [v])
  {
    var r := AddTo(gs, v);
    assert r == gs + [Group(v, 1)];
    SumByAppend(gs, Group(v, 1));
    KeysAfterAdd(gs, r, vs, v, |gs|);
    CountsAfterNew(gs, vs, v);
  }

  lemma CountsAfterNew<K>(gs: seq<Group<K>>, vs: seq<K>, v: K)
    requires CountsAre(gs, vs) && KeysAre(gs, vs)
    requires forall i :: 0 <= i < |gs| ==> gs[i].key != v
    ensures CountsAre(gs + [Group(v, 1)], vs + [v])
  {
    var r := gs + [Group(v, 1)];
    assert v !in vs by {
      assert forall j :: 0 <= j < |vs| ==> vs[j] != v;
    }
    forall i | 0 <= i < |r|
      ensures r[i].count == Occurrences(vs + [v], r[i].key)
    {
      OccurrencesAppend(vs, v, r[i].key);
    }
  }

  /** A value seen before adds one to its group. */
  lemma AddToExisting<K>(gs: seq<Group<K>>, vs: seq<K>, v: K)
    requires GroupsOf(gs, vs) && KeyIndex(gs, v).Some?
    ensures GroupsOf(AddTo(gs, v), vs + [v])
  {
    var i := KeyIndex(gs, v).value;
    var g := Group(v, gs[i].count + 1);
    var r := gs[i := g];
    assert AddTo(gs, v) == r;
    assert forall k :: 0 <= k < |r| ==> r[k].key == gs[k].key;
    assert DistinctKeys(r);
    SumByUpdate(gs, i, g);
    KeysAfterAdd(gs, r, vs, v, i);
    assert forall k :: 0 <= k < |r| && r[k].key == v ==> k == i;
    CountsAfterAdd(gs, r, vs, v);
  }

  /** `GroupCount` builds the groups of its input. */
  lemma {:induction false} GroupCountFacts<K>(vs: seq<K>)
    ensures GroupsOf(GroupCount(vs), vs)
  {
    if vs != [] {
      var front := vs[..|vs| - 1];
      var v := vs[|vs| - 1];
      assert vs == front + [v];
      GroupCountFacts(front);
      if KeyIndex(GroupCount(front), v).None? {
        AddToNew(GroupCount(front), front, v);
      } else {
        AddToExisting(GroupCount(front), front, v);
      }
    }
  }

  /** With distinct keys no group occurs twice. */
  lemma {:induction false} DistinctOnce<K>(s: seq<Group<K>>, x: Group<K>)
    requires DistinctKeys(s)
    ensures multiset(s)[x] <= 1
  {
    if s != [] {
      assert s == [s[0]] + s[1..];
      DistinctOnce(s[1..], x);
      if s[0] == x {
        assert forall j :: 1 <= j < |s| ==> s[j] != x;
        assert x !in s[1..];
      }
    }
  }

  /** A reordering of groups with distinct keys keeps the keys distinct. */
  lemma DistinctKeysPermutation<K>(s: seq<Group<K>>, t: seq<Group<K>>)
    requires DistinctKeys(s) && multiset(s) == multiset(t)
    ensures DistinctKeys(t)
  {
    forall i, j | 0 <= i < j < |t|
      ensures t[i].key != t[j].key
    {
      if t[i] == t[j] {
        assert t == t[..j] + t[j..];
        assert t[i] in multiset(t[..j]) && t[j] in multiset(t[j..]);
        assert multiset(t)[t[i]] >= 2;
        DistinctOnce(s, t[i]);
      } else {
        assert t[i] in multiset(s) && t[j] in multiset(s);
        var p :| 0 <= p < |s| && s[p] == t[i];
        var q :| 0 <= q < |s| && s[q] == t[j];
        assert p != q;
      }
    }
  }

  /** Sorting the groups, as a `$sort` stage does, leaves them the groups
      of the same values. */
  lemma GroupsOfSorted<K>(gs: seq<Group<K>>, vs: seq<K>, key: Group<K> -> int)
    requires GroupsOf(gs, vs)
    ensures GroupsOf(SortByKey(gs, key), vs)
  {
    var t := SortByKey(gs, key);
    DistinctKeysPermutation(gs, t);
    SortByKeySumBy(gs, key, Count);
    forall i | 0 <= i < |t|
      ensures t[i].key in vs && t[i].count == Occurrences(vs, t[i].key) && t[i].count > 0
    {
      assert t[i] in multiset(gs);
      var p :| 0 <= p < |gs| && gs[p] == t[i];
    }
    forall j | 0 <= j < |vs|
      ensures exists i :: 0 <= i < |t| && t[i].key == vs[j]
    {
      var p :| 0 <= p < |gs| && gs[p].key == vs[j];
      assert gs[p] in multiset(t);
      var i :| 0 <= i < |t| && t[i] == gs[p];
    }
  }

  /** The groups of `vs` in the order of a `$sort` stage on `key`. */
  function SortedGroups<K(==)>(vs: seq<K>, key: Group<K> -> int): seq<Group<K>> {
    SortByKey(GroupCount(vs), key)
  }

  lemma SortedGroupsFacts<K>(vs: seq<K>, key: Group<K> -> int)
    ensures GroupsOf(SortedGroups(vs, key), vs)
    ensures SortedByKey(SortedGroups(vs, key), key)
  {
    GroupCountFacts(vs);
    GroupsOfSorted(GroupCount(vs), vs, key);
    SortByKeySorted(GroupCount(vs), key);
  }
}
