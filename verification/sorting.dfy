/** Ordering, sorting and run grouping as the help listing uses them:
    `str` ordering, the stable `sort`/`sort_by_key` of Rust slices, and
    `Itertools::group_by`, which groups consecutive elements with equal
    keys. */
module Sorting {

  /** Rust's ordering of `str`: lexicographic by character, a proper prefix
      first. */
  predicate LessEq(a: string, b: string)
    decreases |a|
  {
    |a| == 0 || (|b| > 0 && (a[0] < b[0] || (a[0] == b[0] && LessEq(a[1..], b[1..]))))
  }

  lemma {:induction false} LessEqReflexive(a: string)
    ensures LessEq(a, a)
    decreases |a|
  {
    if |a| > 0 {
      LessEqReflexive(a[1..]);
    }
  }

  lemma {:induction false} LessEqTotal(a: string, b: string)
    ensures LessEq(a, b) || LessEq(b, a)
    decreases |a|
  {
    if |a| > 0 && |b| > 0 && a[0] == b[0] {
      LessEqTotal(a[1..], b[1..]);
    }
  }

  lemma {:induction false} LessEqAntisymmetric(a: string, b: string)
    requires LessEq(a, b) && LessEq(b, a)
    ensures a == b
    decreases |a|
  {
    if |a| > 0 {
      LessEqAntisymmetric(a[1..], b[1..]);
      assert a == [a[0]] + a[1..] && b == [b[0]] + b[1..];
    }
  }

  lemma {:induction false} LessEqTransitive(a: string, b: string, c: string)
    requires LessEq(a, b) && LessEq(b, c)
    ensures LessEq(a, c)
    decreases |a|
  {
    if |a| > 0 && a[0] == b[0] && b[0] == c[0] {
      LessEqTransitive(a[1..], b[1..], c[1..]);
    }
  }

  /** `xs` is in ascending order of `key`. */
  predicate SortedBy<T>(xs: seq<T>, key: T -> string) {
    forall i, j :: 0 <= i < j < |xs| ==> LessEq(key(xs[i]), key(xs[j]))
  }

  /** Inserts `x` in front of the first element whose key is not below it,
      so that `x` stays ahead of the elements with an equal key. */
  function Insert<T>(x: T, xs: seq<T>, key: T -> string): (r: seq<T>)
    requires SortedBy(xs, key)
    ensures SortedBy(r, key)
    ensures multiset(r) == multiset(xs) + multiset{x}
    ensures |r| == |xs| + 1
    decreases |xs|
  {
    if |xs| == 0 then [x]
    else if LessEq(key(x), key(xs[0])) then
      InsertFront(x, xs, key);
      [x] + xs
    else
      LessEqTotal(key(x), key(xs[0]));
      var rest := Insert(x, xs[1..], key);
      InsertBehind(x, xs, rest, key);
      assert xs == [xs[0]] + xs[1..];
      [xs[0]] + rest
  }

  lemma InsertFront<T>(x: T, xs: seq<T>, key: T -> string)
    requires SortedBy(xs, key) && |xs| > 0 && LessEq(key(x), key(xs[0]))
    ensures SortedBy([x] + xs, key)
  {
    forall j | 1 <= j < |xs| + 1
      ensures LessEq(key(x), key(([x] + xs)[j]))
    {
      if j > 1 {
        LessEqTransitive(key(x), key(xs[0]), key(xs[j - 1]));
      }
    }
  }

  lemma InsertBehind<T>(x: T, xs: seq<T>, rest: seq<T>, key: T -> string)
    requires SortedBy(xs, key) && |xs| > 0 && LessEq(key(xs[0]), key(x))
    requires SortedBy(rest, key)
    requires multiset(rest) == multiset(xs[1..]) + multiset{x}
    ensures SortedBy([xs[0]] + rest, key)
  {
    forall j | 0 <= j < |rest|
      ensures LessEq(key(xs[0]), key(rest[j]))
    {
      assert rest[j] in multiset(rest);
      if rest[j] != x {
        assert rest[j] in multiset(xs[1..]);
        var k :| 0 <= k < |xs[1..]| && xs[1..][k] == rest[j];
        assert xs[k + 1] == rest[j];
      }
    }
  }

  /** `sort_by_key`: the stable sort by `key`. */
  function SortBy<T>(xs: seq<T>, key: T -> string): (r: seq<T>)
    ensures SortedBy(r, key)
    ensures multiset(r) == multiset(xs)
    ensures |r| == |xs|
    decreases |xs|
  {
    if |xs| == 0 then []
    else
      assert xs == [xs[0]] + xs[1..];
      Insert(xs[0], SortBy(xs[1..], key), key)
  }

  /** Sorting neither adds nor drops elements. */
  lemma SortKeepsElements<T>(xs: seq<T>, key: T -> string)
    ensures forall i :: 0 <= i < |SortBy(xs, key)| ==> SortBy(xs, key)[i] in xs
  {
    var r := SortBy(xs, key);
    forall i | 0 <= i < |r|
      ensures r[i] in xs
    {
      assert r[i] in multiset(r);
    }
  }

  /** Ascending order of strings. */
  predicate Sorted(xs: seq<string>) {
    forall i, j :: 0 <= i < j < |xs| ==> LessEq(xs[i], xs[j])
  }

  /** `sort` on a list of strings. */
  function Sort(xs: seq<string>): (r: seq<string>)
    ensures Sorted(r)
    ensures multiset(r) == multiset(xs)
  {
    SortBy(xs, s => s)
  }

  /** The head of a sorted list is at most each of its elements. */
  lemma SortedHeadLeast(a: seq<string>, x: string)
    requires Sorted(a) && x in a
    ensures LessEq(a[0], x)
  {
    var i :| 0 <= i < |a| && a[i] == x;
    if i == 0 {
      LessEqReflexive(x);
    }
  }

  lemma MultisetTail<T>(a: seq<T>)
    requires |a| > 0
    ensures multiset(a[1..]) == multiset(a) - multiset{a[0]}
  {
    assert a == [a[0]] + a[1..];
  }

  /** Sorting is determined by its result's contents: two sorted lists with
      the same elements are equal. */
  lemma {:induction false} SortedUnique(a: seq<string>, b: seq<string>)
    requires Sorted(a) && Sorted(b) && multiset(a) == multiset(b)
    ensures a == b
    decreases |a|
  {
    assert |a| == |multiset(a)| == |b|;
    if |a| > 0 {
      assert a[0] in multiset(b) && b[0] in multiset(a);
      SortedHeadLeast(b, a[0]);
      SortedHeadLeast(a, b[0]);
      LessEqAntisymmetric(a[0], b[0]);
      MultisetTail(a);
      MultisetTail(b);
      SortedUnique(a[1..], b[1..]);
      assert a == [a[0]] + a[1..] && b == [b[0]] + b[1..];
    }
  }

  /** A list already in key order is left as it is. */
  lemma {:induction false} SortByOfSorted<T>(xs: seq<T>, key: T -> string)
    requires SortedBy(xs, key)
    ensures SortBy(xs, key) == xs
    decreases |xs|
  {
    if |xs| > 0 {
      SortByOfSorted(xs[1..], key);
      assert xs == [xs[0]] + xs[1..];
      if |xs| > 1 {
        assert LessEq(key(xs[0]), key(xs[1..][0]));
      }
    }
  }

  lemma SortOfSorted(xs: seq<string>)
    requires Sorted(xs)
    ensures Sort(xs) == xs
  {
    SortedUnique(Sort(xs), xs);
  }

  /** A run of consecutive elements sharing one key. */
  datatype Group<K, T> = Group(key: K, members: seq<T>)

  /** The members of the groups, in order. */
  function Flatten<K, T>(gs: seq<Group<K, T>>): seq<T> {
    if |gs| == 0 then [] else gs[0].members + Flatten(gs[1..])
  }

  lemma FlattenCons<K, T>(g: Group<K, T>, gs: seq<Group<K, T>>)
    ensures Flatten([g] + gs) == g.members + Flatten(gs)
  {
    assert ([g] + gs)[1..] == gs;
  }

  /** The members of a group all carry its key. */
  predicate Uniform<K(==), T>(g: Group<K, T>, key: T -> K) {
    |g.members| > 0 && forall j :: 0 <= j < |g.members| ==> key(g.members[j]) == g.key
  }

  /** `group_by(key)`: the maximal runs of consecutive elements with equal
      keys, in order. Each group is non-empty, its members share its key,
      neighbouring groups have different keys, and the groups put back
      together give the input. */
  function GroupRuns<K(==), T>(xs: seq<T>, key: T -> K): (gs: seq<Group<K, T>>)
    ensures Flatten(gs) == xs
    ensures forall i :: 0 <= i < |gs| ==> Uniform(gs[i], key)
    ensures forall i :: 0 <= i < |gs| - 1 ==> gs[i].key != gs[i + 1].key
    ensures |xs| > 0 ==> |gs| > 0 && gs[0].key == key(xs[0])
    decreases |xs|
  {
    if |xs| == 0 then []
    else
      var rest := GroupRuns(xs[1..], key);
      assert xs == [xs[0]] + xs[1..];
      if |rest| > 0 && rest[0].key == key(xs[0]) then
        var g := Group(rest[0].key, [xs[0]] + rest[0].members);
        JoinRun(xs[0], g, rest, key);
        [g] + rest[1..]
      else
        var g := Group(key(xs[0]), [xs[0]]);
        StartRun(xs[0], g, rest, key);
        [g] + rest
  }

  /** Putting an element at the front of the first run. */
  lemma JoinRun<K, T>(x: T, g: Group<K, T>, rest: seq<Group<K, T>>, key: T -> K)
    requires |rest| > 0 && g.members == [x] + rest[0].members
    requires Uniform(g, key) && g.key == rest[0].key
    requires forall i :: 0 <= i < |rest| ==> Uniform(rest[i], key)
    requires forall i :: 0 <= i < |rest| - 1 ==> rest[i].key != rest[i + 1].key
    ensures var gs := [g] + rest[1..];
      (forall i :: 0 <= i < |gs| ==> Uniform(gs[i], key)) &&
      (forall i :: 0 <= i < |gs| - 1 ==> gs[i].key != gs[i + 1].key) &&
      Flatten(gs) == [x] + Flatten(rest)
  {
    var gs := [g] + rest[1..];
    assert forall i :: 1 <= i < |gs| ==> gs[i] == rest[i];
    FlattenCons(g, rest[1..]);
    FlattenCons(rest[0], rest[1..]);
    assert [rest[0]] + rest[1..] == rest;
  }

  /** Starting a new run with one element. */
  lemma StartRun<K, T>(x: T, g: Group<K, T>, rest: seq<Group<K, T>>, key: T -> K)
    requires g.members == [x] && Uniform(g, key) && (|rest| > 0 ==> g.key != rest[0].key)
    requires forall i :: 0 <= i < |rest| ==> Uniform(rest[i], key)
    requires forall i :: 0 <= i < |rest| - 1 ==> rest[i].key != rest[i + 1].key
    ensures var gs := [g] + rest;
      (forall i :: 0 <= i < |gs| ==> Uniform(gs[i], key)) &&
      (forall i :: 0 <= i < |gs| - 1 ==> gs[i].key != gs[i + 1].key) &&
      Flatten(gs) == [x] + Flatten(rest)
  {
    var gs := [g] + rest;
    assert forall i :: 1 <= i < |gs| ==> gs[i] == rest[i - 1];
    FlattenCons(g, rest);
  }

  /** Every member of a group is among the flattened members. */
  lemma {:induction false} MemberInFlatten<K, T>(gs: seq<Group<K, T>>, i: nat, j: nat)
    requires i < |gs| && j < |gs[i].members|
    ensures gs[i].members[j] in Flatten(gs)
    decreases |gs|
  {
    if i > 0 {
      MemberInFlatten(gs[1..], i - 1, j);
    }
  }

  /** Reordering groups by a key reorders their members: the members put
      together are the same multiset before and after. */
  lemma {:induction false} FlattenSortBy<K, T>(gs: seq<Group<K, T>>, key: Group<K, T> -> string)
    ensures multiset(Flatten(SortBy(gs, key))) == multiset(Flatten(gs))
    decreases |gs|
  {
    if |gs| > 0 {
      FlattenSortBy(gs[1..], key);
      FlattenInsert(gs[0], SortBy(gs[1..], key), key);
      FlattenCons(gs[0], gs[1..]);
      assert gs == [gs[0]] + gs[1..];
    }
  }

  lemma {:induction false} FlattenInsert<K, T>(g: Group<K, T>, gs: seq<Group<K, T>>, key: Group<K, T> -> string)
    requires SortedBy(gs, key)
    ensures multiset(Flatten(Insert(g, gs, key))) == multiset(g.members) + multiset(Flatten(gs))
    decreases |gs|
  {
    if |gs| == 0 {
      FlattenCons(g, gs);
    } else if LessEq(key(g), key(gs[0])) {
      FlattenCons(g, gs);
    } else {
      FlattenInsert(g, gs[1..], key);
      FlattenCons(gs[0], Insert(g, gs[1..], key));
      FlattenCons(gs[0], gs[1..]);
      assert gs == [gs[0]] + gs[1..];
    }
  }

  /** Taking one matching element out of two equal multisets leaves equal
      multisets. */
  lemma MultisetRemove<T>(a: seq<T>, b: seq<T>, i: nat)
    requires multiset(a) == multiset(b) && |a| > 0 && i < |b| && b[i] == a[0]
    ensures multiset(a[1..]) == multiset(b[..i] + b[i + 1..])
  {
    assert a == [a[0]] + a[1..];
    assert b == b[..i] + [b[i]] + b[i + 1..];
    calc {
      multiset(a[1..]);
      multiset(a) - multiset{a[0]};
      multiset(b) - multiset{b[i]};
      multiset(b[..i] + b[i + 1..]);
    }
  }
}
