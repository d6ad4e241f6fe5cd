/** Sequence operations shared by the server-side and client-side like
    toggles: `array.filter((u) => u !== x)` and the "no user twice" invariant. */
module Seqs {

  /** `s.filter((u) => u !== x)`: every occurrence of `x` removed, the rest
      kept in order. */
  function RemoveAll<T(==)>(s: seq<T>, x: T): (r: seq<T>)
    ensures x !in r
    ensures forall i :: 0 <= i < |s| && s[i] != x ==> s[i] in r
    ensures forall i :: 0 <= i < |r| ==> r[i] in s
    ensures |r| <= |s|
    ensures forall i :: 0 <= i < |s| && s[i] != x ==> multiset(r)[s[i]] == multiset(s)[s[i]]
  {
    if s == [] then []
    else
      assert s == [s[0]] + s[1..];
      if s[0] == x then RemoveAll(s[1..], x)
      else [s[0]] + RemoveAll(s[1..], x)
  }

  /** The filter works piece by piece, so what it keeps stays in order. */
  lemma {:induction false} RemoveAllAppend<T>(a: seq<T>, b: seq<T>, x: T)
    ensures RemoveAll(a + b, x) == RemoveAll(a, x) + RemoveAll(b, x)
  {
    if a == [] {
      assert a + b == b;
    } else {
      assert (a + b)[0] == a[0] && (a + b)[1..] == a[1..] + b;
      RemoveAllAppend(a[1..], b, x);
    }
  }

  predicate NoDuplicates<T(==)>(s: seq<T>) {
    forall i, j :: 0 <= i < j < |s| ==> s[i] != s[j]
  }

  /** Removing a value that is absent changes nothing. */
  lemma {:induction false} RemoveAllAbsent<T>(s: seq<T>, x: T)
    requires x !in s
    ensures RemoveAll(s, x) == s
  {
    if s != [] {
      RemoveAllAbsent(s[1..], x);
    }
  }

  /** Appending `x` and then removing every `x` restores a list without `x`. */
  lemma {:induction false} RemoveAllAppended<T>(s: seq<T>, x: T)
    requires x !in s
    ensures RemoveAll(s + [x], x) == s
  {
    if s == [] {
      assert [x][1..] == [];
    } else {
      assert (s + [x])[1..] == s[1..] + [x];
      RemoveAllAppended(s[1..], x);
    }
  }

  /** In a list without duplicates, removing a member removes exactly one
      element and keeps the list duplicate-free. */
  lemma {:induction false} RemoveAllOnce<T>(s: seq<T>, x: T)
    requires NoDuplicates(s) && x in s
    ensures |RemoveAll(s, x)| == |s| - 1
    ensures NoDuplicates(RemoveAll(s, x))
  {
    HeadNotInTail(s);
    if s[0] == x {
      RemoveAllAbsent(s[1..], x);
    } else {
      assert x in s[1..];
      RemoveAllOnce(s[1..], x);
      var t := RemoveAll(s[1..], x);
      assert s[0] !in t;
      ConsFresh(s[0], t);
    }
  }

  /** The head of a duplicate-free list is not in its tail, which is
      duplicate-free too. */
  lemma HeadNotInTail<T>(s: seq<T>)
    requires s != [] && NoDuplicates(s)
    ensures s[0] !in s[1..] && NoDuplicates(s[1..])
  {
    forall j | 0 <= j < |s[1..]| ensures s[1..][j] != s[0] {
      assert s[j + 1] != s[0];
    }
  }

  /** Putting a value not yet present in front keeps the list
      duplicate-free. */
  lemma ConsFresh<T>(y: T, t: seq<T>)
    requires NoDuplicates(t) && y !in t
    ensures NoDuplicates([y] + t)
  {
    forall i, j | 0 <= i < j < |[y] + t| ensures ([y] + t)[i] != ([y] + t)[j] {
      if i > 0 {
        assert ([y] + t)[i] == t[i - 1];
      }
      assert ([y] + t)[j] == t[j - 1];
    }
  }

  /** Appending a value not yet present keeps the list duplicate-free. */
  lemma AppendFresh<T>(s: seq<T>, x: T)
    requires NoDuplicates(s) && x !in s
    ensures NoDuplicates(s + [x])
  {
    forall i, j | 0 <= i < j < |s + [x]| ensures (s + [x])[i] != (s + [x])[j] {
      if j == |s| {
        assert (s + [x])[i] == s[i];
      }
    }
  }
}
