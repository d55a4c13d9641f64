/** The module-level helpers of `Hpo.py`: `counter`, which counts the
    elements of a list of lists, and `get_sorted_index`, which orders the
    positions of a list by a count, keeping ties in their original order. */
module HpoCounting {

  /** An element of the list given to `counter`: a list (or tuple), whose
      members are counted one by one, or any other value, counted as itself. */
  datatype Datum<T> = Single(item: T) | Many(items: seq<T>)

  /** The values one element contributes. */
  function Items<T>(d: Datum<T>): (xs: seq<T>)
    ensures d.Single? ==> xs == [d.item]
    ensures d.Many? ==> xs == d.items
  {
    match d
    case Single(x) => [x]
    case Many(xs) => xs
  }

  /** All counted values, in the order `counter` meets them. */
  function Flatten<T>(data: seq<Datum<T>>): seq<T>
    decreases |data|
  {
    if data == [] then [] else Flatten(data[..|data| - 1]) + Items(data[|data| - 1])
  }

  /** The count of `e` in `m`, 0 when `e` is not a key. */
  function Get<T>(m: map<T, nat>, e: T): nat
  {
    if e in m then m[e] else 0
  }

  /** `inner_counter(e)`: one more occurrence of `e`. */
  function Bump<T>(m: map<T, nat>, e: T): map<T, nat>
  {
    m[e := Get(m, e) + 1]
  }

  /** `inner_counter` applied to each of `xs` in turn. */
  function BumpAll<T>(m: map<T, nat>, xs: seq<T>): map<T, nat>
    decreases |xs|
  {
    if xs == [] then m else Bump(BumpAll(m, xs[..|xs| - 1]), xs[|xs| - 1])
  }

  /** What `counter(data)` returns. */
  function Tally<T>(data: seq<Datum<T>>): map<T, nat>
  {
    BumpAll(map[], Flatten(data))
  }

  /** Counting `xs` on top of `m` adds the multiplicity of each value in `xs`
      and adds exactly the values of `xs` as keys. */
  lemma {:induction false} BumpAllCounts<T>(m: map<T, nat>, xs: seq<T>)
    ensures forall e :: e in BumpAll(m, xs) <==> e in m || e in xs
    ensures forall e :: Get(BumpAll(m, xs), e) == Get(m, e) + multiset(xs)[e]
    decreases |xs|
  {
    if xs != [] {
      var init := xs[..|xs| - 1];
      BumpAllCounts(m, init);
      assert xs == init + [xs[|xs| - 1]];
      assert multiset(xs) == multiset(init) + multiset{xs[|xs| - 1]};
    }
  }

  /** `counter(data)` has a key for exactly the values that occur, and counts
      each as often as it occurs across all elements. */
  lemma TallyCounts<T>(data: seq<Datum<T>>)
    ensures forall e :: e in Tally(data) <==> e in Flatten(data)
    ensures forall e :: e in Tally(data) ==> Tally(data)[e] == multiset(Flatten(data))[e]
  {
    BumpAllCounts(map[], Flatten(data));
    forall e | e in Tally(data)
      ensures Tally(data)[e] == multiset(Flatten(data))[e]
    {
      assert Get(Tally(data), e) == Get(map[], e) + multiset(Flatten(data))[e];
    }
  }

  /** Every value of element `i` is counted. */
  lemma {:induction false} FlattenContains<T>(data: seq<Datum<T>>, i: nat, k: nat)
    requires i < |data| && k < |Items(data[i])|
    ensures Items(data[i])[k] in Flatten(data)
    decreases |data|
  {
    if i < |data| - 1 {
      FlattenContains(data[..|data| - 1], i, k);
    }
  }

  /** A value is counted only if some element holds it. */
  lemma {:induction false} FlattenMember<T>(data: seq<Datum<T>>, e: T)
    requires e in Flatten(data)
    ensures exists i, k :: 0 <= i < |data| && 0 <= k < |Items(data[i])| && Items(data[i])[k] == e
    decreases |data|
  {
    var init := data[..|data| - 1];
    var last := Items(data[|data| - 1]);
    if e in Flatten(init) {
      FlattenMember(init, e);
      var i, k :| 0 <= i < |init| && 0 <= k < |Items(init[i])| && Items(init[i])[k] == e;
      assert data[i] == init[i];
    } else {
      assert e in last;
      var k :| 0 <= k < |last| && last[k] == e;
      assert Items(data[|data| - 1])[k] == e;
    }
  }

  /** Counting one more list element. */
  lemma FlattenSnoc<T>(data: seq<Datum<T>>, i: nat)
    requires i < |data|
    ensures Flatten(data[..i + 1]) == Flatten(data[..i]) + Items(data[i])
  {
    assert data[..i + 1][..i] == data[..i];
  }

  /** Counting one more value. */
  lemma BumpAllSnoc<T>(m: map<T, nat>, xs: seq<T>, x: T)
    ensures BumpAll(m, xs + [x]) == Bump(BumpAll(m, xs), x)
  {
    assert (xs + [x])[..|xs|] == xs;
  }

  /** `inner_counter(e)` on the dictionary `result`. */
  method InnerCounter<T(==)>(result: map<T, nat>, e: T) returns (r: map<T, nat>)
    ensures r == Bump(result, e)
    ensures r.Keys == result.Keys + {e}
    ensures r[e] == Get(result, e) + 1
    ensures forall x :: x in result && x != e ==> r[x] == result[x]
  {
    if e in result {
      r := result[e := result[e] + 1];
    } else {
      r := result[e := 1];
    }
  }

  /** `counter(data)`, with its loops. */
  method Counter<T(==)>(data: seq<Datum<T>>) returns (result: map<T, nat>)
    ensures result == Tally(data)
    ensures forall e :: e in result <==> e in Flatten(data)
    ensures forall e :: e in result ==> result[e] == multiset(Flatten(data))[e]
  {
    result := map[];
    for i := 0 to |data|
      invariant result == BumpAll(map[], Flatten(data[..i]))
    {
      ghost var done := Flatten(data[..i]);
      FlattenSnoc(data, i);
      match data[i]
      case Many(items) =>
        result := CountEach(result, done, items);
      case Single(ele) =>
        BumpAllSnoc(map[], done, ele);
        result := InnerCounter(result, ele);
    }
    assert data[..|data|] == data;
    TallyCounts(data);
  }

  /** The inner `for e in ele` loop: `inner_counter` on each member of a
      list element, on top of the counts of the values `done` before it. */
  method CountEach<T(==)>(result0: map<T, nat>, ghost done: seq<T>, items: seq<T>) returns (result: map<T, nat>)
    requires result0 == BumpAll(map[], done)
    ensures result == BumpAll(map[], done + items)
  {
    result := result0;
    assert done + items[..0] == done;
    for j := 0 to |items|
      invariant result == BumpAll(map[], done + items[..j])
    {
      assert done + items[..j + 1] == (done + items[..j]) + [items[j]];
      BumpAllSnoc(map[], done + items[..j], items[j]);
      result := InnerCounter(result, items[j]);
    }
    assert items[..|items|] == items;
  }

  /** Every position of `hpos` has a count. */
  predicate AllCounted<T>(hpos: seq<T>, count: map<T, nat>)
  {
    forall i :: 0 <= i < |hpos| ==> hpos[i] in count
  }

  /** The sort key of every position: `count[x['val']]`. */
  function SortKeys<T>(hpos: seq<T>, count: map<T, nat>): (keys: seq<nat>)
    requires AllCounted(hpos, count)
    ensures |keys| == |hpos|
    ensures forall i :: 0 <= i < |hpos| ==> keys[i] == count[hpos[i]]
  {
    seq(|hpos|, i requires 0 <= i < |hpos| => count[hpos[i]])
  }

  /** Every entry of `s` is a position of `keys`. */
  predicate InRange(keys: seq<nat>, s: seq<nat>)
  {
    forall k :: 0 <= k < |s| ==> s[k] < |keys|
  }

  /** Position `a` comes before position `b` in a stable sort by `keys`:
      smaller key first, and on equal keys the earlier position first. */
  predicate Before(keys: seq<nat>, a: nat, b: nat)
    requires a < |keys| && b < |keys|
  {
    keys[a] < keys[b] || (keys[a] == keys[b] && a < b)
  }

  /** `s` lists positions in the order of a stable sort by `keys`. */
  predicate Ordered(keys: seq<nat>, s: seq<nat>)
  {
    InRange(keys, s) && forall p, q :: 0 <= p < q < |s| ==> Before(keys, s[p], s[q])
  }

  /** One step of a stable insertion sort: `x` goes after every entry whose
      key is not larger. */
  function Insert(keys: seq<nat>, s: seq<nat>, x: nat): (r: seq<nat>)
    requires InRange(keys, s) && x < |keys|
    ensures multiset(r) == multiset(s) + multiset{x}
  {
    if s == [] then [x]
    else if keys[s[0]] <= keys[x] then
      assert s == [s[0]] + s[1..];
      [s[0]] + Insert(keys, s[1..], x)
    else
      [x] + s
  }

  /** Membership in a sequence through its multiset. */
  lemma InInsert(keys: seq<nat>, s: seq<nat>, x: nat, y: nat)
    requires InRange(keys, s) && x < |keys|
    ensures y in Insert(keys, s, x) <==> y in s || y == x
  {
    var r := Insert(keys, s, x);
    assert y in r <==> y in multiset(r);
    assert y in s <==> y in multiset(s);
  }

  /** Inserting a position later than all of `s` into a stably sorted `s`
      keeps it stably sorted. */
  lemma {:induction false} InsertOrdered(keys: seq<nat>, s: seq<nat>, x: nat)
    requires Ordered(keys, s) && x < |keys|
    requires forall k :: 0 <= k < |s| ==> s[k] < x
    ensures Ordered(keys, Insert(keys, s, x))
    decreases |s|
  {
    var r := Insert(keys, s, x);
    forall y | y in r
      ensures y < |keys|
    {
      InInsert(keys, s, x, y);
    }
    if s != [] && keys[s[0]] <= keys[x] {
      var tail := s[1..];
      assert Ordered(keys, tail) by {
        forall p, q | 0 <= p < q < |tail|
          ensures Before(keys, tail[p], tail[q])
        {
          assert tail[p] == s[p + 1] && tail[q] == s[q + 1];
        }
      }
      InsertOrdered(keys, tail, x);
      var rest := Insert(keys, tail, x);
      assert r == [s[0]] + rest;
      forall q | 0 <= q < |rest|
        ensures Before(keys, s[0], rest[q])
      {
        InInsert(keys, tail, x, rest[q]);
        if rest[q] != x {
          var k :| 0 <= k < |tail| && tail[k] == rest[q];
          assert tail[k] == s[k + 1];
        }
      }
    } else if s != [] {
      assert r == [x] + s;
      forall q | 0 <= q < |s|
        ensures Before(keys, x, s[q])
      {
        if q > 0 {
          assert Before(keys, s[0], s[q]);
        }
      }
    }
  }

  /** Inserting position `x` into an ordering of the positions before it. */
  lemma InsertNext(keys: seq<nat>, s: seq<nat>, x: nat)
    requires x < |keys| && |s| == x && InRange(keys, s)
    requires forall y :: y in s <==> 0 <= y < x
    ensures |Insert(keys, s, x)| == x + 1
    ensures forall y :: y in Insert(keys, s, x) <==> 0 <= y <= x
  {
    var r := Insert(keys, s, x);
    assert |r| == |multiset(r)| == |multiset(s)| + 1;
    forall y
      ensures y in r <==> 0 <= y <= x
    {
      if 0 <= y {
        InInsert(keys, s, x, y);
      }
    }
  }

  /** The first `n` positions, stably sorted by `keys`. */
  function SortPrefix(keys: seq<nat>, n: nat): (r: seq<nat>)
    requires n <= |keys|
    ensures |r| == n
    ensures Ordered(keys, r)
    ensures forall y :: y in r <==> 0 <= y < n
  {
    if n == 0 then []
    else
      var s := SortPrefix(keys, n - 1);
      assert forall k :: 0 <= k < |s| ==> s[k] in s;
      InsertOrdered(keys, s, n - 1);
      InsertNext(keys, s, n - 1);
      Insert(keys, s, n - 1)
  }

  /** `get_sorted_index(hpos, count)`: the positions of `hpos` sorted by the
      count of their value, ties in the original order (Python's `sorted`
      is stable). */
  function GetSortedIndex<T>(hpos: seq<T>, count: map<T, nat>): (r: seq<nat>)
    requires AllCounted(hpos, count)
    ensures |r| == |hpos|
    ensures forall k :: 0 <= k < |r| ==> r[k] < |hpos|
    ensures forall i :: 0 <= i < |hpos| ==> i in r
    ensures forall p, q :: 0 <= p < q < |r| ==> count[hpos[r[p]]] <= count[hpos[r[q]]]
    ensures forall p, q :: 0 <= p < q < |r| && count[hpos[r[p]]] == count[hpos[r[q]]] ==> r[p] < r[q]
  {
    var keys := SortKeys(hpos, count);
    var r := SortPrefix(keys, |hpos|);
    assert forall p, q :: 0 <= p < q < |r| ==> Before(keys, r[p], r[q]);
    r
  }

  /** Dropping the first entry of a stable ordering leaves a stable ordering
      of the other entries. */
  lemma OrderedTail(keys: seq<nat>, a: seq<nat>)
    requires Ordered(keys, a) && a != []
    ensures Ordered(keys, a[1..])
    ensures forall y :: y in a[1..] <==> y in a && y != a[0]
  {
    var tail := a[1..];
    forall p, q | 0 <= p < q < |tail|
      ensures Before(keys, tail[p], tail[q])
    {
      assert tail[p] == a[p + 1] && tail[q] == a[q + 1];
    }
    forall y
      ensures y in tail <==> y in a && y != a[0]
    {
      if y in tail {
        var k :| 0 <= k < |tail| && tail[k] == y;
        assert Before(keys, a[0], a[k + 1]);
      }
      if y in a && y != a[0] {
        var k :| 0 <= k < |a| && a[k] == y;
        assert tail[k - 1] == y;
      }
    }
  }

  /** Two stable orderings of the same positions are the same sequence. */
  lemma {:induction false} OrderedUnique(keys: seq<nat>, a: seq<nat>, b: seq<nat>)
    requires Ordered(keys, a) && Ordered(keys, b) && |a| == |b|
    requires forall y :: y in a <==> y in b
    ensures a == b
    decreases |a|
  {
    if a == [] {
    } else {
      assert a[0] in b;
      assert b[0] in a;
      var i :| 0 <= i < |a| && a[i] == b[0];
      var j :| 0 <= j < |b| && b[j] == a[0];
      OrderedTail(keys, a);
      OrderedTail(keys, b);
      OrderedUnique(keys, a[1..], b[1..]);
      assert a == [a[0]] + a[1..];
      assert b == [b[0]] + b[1..];
    }
  }

  /** The order is fully determined by the counts: any sequence of the
      positions of `hpos` that is sorted by count, ties in the original
      order, is what `get_sorted_index` returns. */
  lemma SortedIndexUnique<T>(hpos: seq<T>, count: map<T, nat>, s: seq<nat>)
    requires AllCounted(hpos, count) && |s| == |hpos|
    requires forall k :: 0 <= k < |s| ==> s[k] < |hpos|
    requires forall i :: 0 <= i < |hpos| ==> i in s
    requires forall p, q :: 0 <= p < q < |s| ==> count[hpos[s[p]]] <= count[hpos[s[q]]]
    requires forall p, q :: 0 <= p < q < |s| && count[hpos[s[p]]] == count[hpos[s[q]]] ==> s[p] < s[q]
    ensures s == GetSortedIndex(hpos, count)
  {
    var keys := SortKeys(hpos, count);
    var r := GetSortedIndex(hpos, count);
    assert r == SortPrefix(keys, |hpos|);
    assert Ordered(keys, s) by {
      forall p, q | 0 <= p < q < |s|
        ensures Before(keys, s[p], s[q])
      {
      }
    }
    forall y
      ensures y in s <==> y in r
    {
      if y in s {
        var k :| 0 <= k < |s| && s[k] == y;
      }
      if y in r {
        var k :| 0 <= k < |r| && r[k] == y;
      }
    }
    OrderedUnique(keys, s, r);
  }
}
