/** What `get_min_graph` guarantees about the node list it returns, proved
    about `MinGraph` through an invariant of the walk. */
module HpoMinGraphProperties {
  import opened Text
  import opened Hpo
  import opened HpoCounting
  import opened HpoMinGraph

  /** `x` occurs on some chain after the chain's own term. */
  ghost predicate IsAncestorIn(chains: seq<seq<TermId>>, x: TermId)
  {
    exists i, k :: 0 <= i < |chains| && 0 < k < |chains[i]| && chains[i][k] == x
  }

  /** Every link of an emitted node points at an id in `seen`. */
  ghost predicate LinksSeen(result: seq<Node>, seen: set<TermId>)
  {
    forall n :: 0 <= n < |result| ==>
      result[n].isA.NoParent? || (result[n].isA.Parent? && result[n].isA.id in seen)
  }

  /** Every emitted node is either in `seen` or one of the walked terms. */
  ghost predicate Accounted(result: seq<Node>, seen: set<TermId>, processed: seq<TermId>)
  {
    forall n :: 0 <= n < |result| ==> result[n].id in seen || result[n].id in processed
  }

  /** An id is emitted twice only if it was walked as a term twice. */
  ghost predicate RepeatsOnlyRepeated(result: seq<Node>, processed: seq<TermId>)
  {
    forall i, j :: 0 <= i < j < |result| && result[i].id == result[j].id ==>
      multiset(processed)[result[i].id] >= 2
  }

  /** Every walked term has been emitted. */
  ghost predicate ProcessedEmitted(result: seq<Node>, processed: seq<TermId>)
  {
    forall x :: x in processed ==> x in Ids(result)
  }

  /** Everything in `seen` is an ancestor on some chain. */
  ghost predicate SeenAncestors(seen: set<TermId>, chains: seq<seq<TermId>>)
  {
    forall x :: x in seen ==> IsAncestorIn(chains, x)
  }

  /** The invariant of the walk, after the terms `processed` were walked. */
  ghost predicate Inv(result: seq<Node>, seen: set<TermId>, processed: seq<TermId>, chains: seq<seq<TermId>>)
  {
    && SeenEmitted(result, seen)
    && LinksSeen(result, seen)
    && Accounted(result, seen, processed)
    && RepeatsOnlyRepeated(result, processed)
    && ProcessedEmitted(result, processed)
    && SeenAncestors(seen, chains)
  }

  /** Position 0 of a chain: the term itself is emitted unless already seen. */
  lemma VisitFirst(st: Cursor, w: TermId, counts: map<TermId, nat>, processed: seq<TermId>,
                   chains: seq<seq<TermId>>)
    requires w in counts && st.count == counts[w]
    requires Inv(st.result, st.seen, processed, chains)
    ensures Inv(Visit(st, 0, w, counts).result, Visit(st, 0, w, counts).seen, processed + [w], chains)
    ensures Visit(st, 0, w, counts).count == st.count
  {
    var r := Visit(st, 0, w, counts);
    var p := processed + [w];
    assert multiset(p) == multiset(processed) + multiset{w};
    if w !in st.seen {
      IdsSnoc(st.result, Node(w, NoParent));
      assert r.result == st.result + [Node(w, NoParent)];
      forall i, j | 0 <= i < j < |r.result| && r.result[i].id == r.result[j].id
        ensures multiset(p)[r.result[i].id] >= 2
      {
        if j == |st.result| {
          assert st.result[i].id == w;
        } else {
          assert st.result[i].id == st.result[j].id;
        }
      }
      forall n | 0 <= n < |r.result|
        ensures r.result[n].id in r.seen || r.result[n].id in p
      {
        if n < |st.result| {
          assert r.result[n] == st.result[n];
        }
      }
    } else {
      assert w in Ids(st.result);
    }
  }

  /** A later position of a chain, for an ancestor whose count is above those
      of every walked term: it is emitted only if not already seen, and it
      cannot already be on the list as a walked term. */
  lemma VisitLater(st: Cursor, j: nat, a: TermId, counts: map<TermId, nat>, processed: seq<TermId>,
                   chains: seq<seq<TermId>>)
    requires j > 0 && |st.result| > 0 && a in counts && IsAncestorIn(chains, a)
    requires Inv(st.result, st.seen, processed, chains)
    requires forall x :: x in processed ==> x in counts && counts[x] <= st.count
    ensures Inv(Visit(st, j, a, counts).result, Visit(st, j, a, counts).seen, processed, chains)
  {
    if counts[a] > st.count {
      if a !in st.seen {
        forall n | 0 <= n < |st.result|
          ensures st.result[n].id != a
        {
          assert st.result[n].id in st.seen || st.result[n].id in processed;
        }
        EmitAncestor(st.result, st.seen, a, processed, chains);
      } else {
        RelinkSeen(st.result, st.seen, a, processed, chains);
      }
    }
  }

  /** Linking the last node to an ancestor already seen keeps the invariant. */
  lemma RelinkSeen(result: seq<Node>, seen: set<TermId>, a: TermId, processed: seq<TermId>,
                   chains: seq<seq<TermId>>)
    requires |result| > 0 && a in seen
    requires Inv(result, seen, processed, chains)
    ensures Inv(Relink(result, a), seen, processed, chains)
  {
    var r := Relink(result, a);
    forall n | 0 <= n < |r|
      ensures r[n].isA.NoParent? || (r[n].isA.Parent? && r[n].isA.id in seen)
    {
      if n < |result| - 1 {
        assert r[n] == result[n];
      }
    }
    forall i, k | 0 <= i < k < |r| && r[i].id == r[k].id
      ensures multiset(processed)[r[i].id] >= 2
    {
      assert result[i].id == result[k].id;
    }
  }

  /** Linking the last node to a new ancestor and emitting that ancestor
      keeps the invariant, provided the ancestor is not on the list yet. */
  lemma EmitAncestor(result: seq<Node>, seen: set<TermId>, a: TermId, processed: seq<TermId>,
                     chains: seq<seq<TermId>>)
    requires |result| > 0 && a !in seen && IsAncestorIn(chains, a)
    requires forall n :: 0 <= n < |result| ==> result[n].id != a
    requires Inv(result, seen, processed, chains)
    ensures Inv(Relink(result, a) + [Node(a, NoParent)], seen + {a}, processed, chains)
  {
    var relinked := Relink(result, a);
    var r := relinked + [Node(a, NoParent)];
    IdsSnoc(relinked, Node(a, NoParent));
    forall i, k | 0 <= i < k < |r| && r[i].id == r[k].id
      ensures multiset(processed)[r[i].id] >= 2
    {
      if k == |result| {
        assert false;
      }
      assert result[i].id == result[k].id;
    }
    forall n | 0 <= n < |r|
      ensures r[n].isA.NoParent? || (r[n].isA.Parent? && r[n].isA.id in seen + {a})
    {
      if n < |result| - 1 {
        assert r[n] == result[n];
      }
    }
    forall n | 0 <= n < |r|
      ensures r[n].id in seen + {a} || r[n].id in processed
    {
      if n < |result| {
        assert r[n].id == result[n].id;
      }
    }
  }

  /** The walk along chain `i`: afterwards its term counts as walked, and the
      running count never drops below the term's own count. */
  lemma {:induction false} WalkChainInv(st: Cursor, chains: seq<seq<TermId>>, i: nat, counts: map<TermId, nat>,
                                        j: nat, processed: seq<TermId>)
    requires i < |chains| && 0 < |chains[i]| && ChainCounted(chains[i], counts) && 1 <= j <= |chains[i]|
    requires st.count == counts[chains[i][0]] && Inv(st.result, st.seen, processed, chains)
    requires forall x :: x in processed ==> x in counts && counts[x] <= counts[chains[i][0]]
    ensures Inv(WalkChain(st, chains[i], counts, j).result, WalkChain(st, chains[i], counts, j).seen,
                processed + [chains[i][0]], chains)
    ensures WalkChain(st, chains[i], counts, j).count >= counts[chains[i][0]]
    decreases j
  {
    var chain := chains[i];
    if j == 1 {
      assert WalkChain(st, chain, counts, 0) == st;
      VisitFirst(st, chain[0], counts, processed, chains);
    } else {
      WalkChainInv(st, chains, i, counts, j - 1, processed);
      var prev := WalkChain(st, chain, counts, j - 1);
      assert IsAncestorIn(chains, chain[j - 1]) by {
        assert chains[i][j - 1] == chain[j - 1];
      }
      VisitLater(prev, j - 1, chain[j - 1], counts, processed + [chain[0]], chains);
    }
  }

  /** The terms walked in the first `p` rounds. */
  function Processed(hpoList: seq<TermId>, order: seq<nat>, p: nat): (ps: seq<TermId>)
    requires p <= |order| && forall k :: 0 <= k < |order| ==> order[k] < |hpoList|
    ensures |ps| == p && forall k :: 0 <= k < p ==> ps[k] == hpoList[order[k]]
  {
    seq(p, k requires 0 <= k < p => hpoList[order[k]])
  }

  /** The walk order visits terms from the least to the most counted. */
  ghost predicate ByCount(hpoList: seq<TermId>, counts: map<TermId, nat>, order: seq<nat>)
    requires AllCounted(hpoList, counts) && forall k :: 0 <= k < |order| ==> order[k] < |hpoList|
  {
    forall a, b :: 0 <= a < b < |order| ==> counts[hpoList[order[a]]] <= counts[hpoList[order[b]]]
  }

  /** Every term walked before round `p` has a count no larger than the
      term of round `p`. */
  lemma ProcessedBelow(hpoList: seq<TermId>, counts: map<TermId, nat>, order: seq<nat>, p: nat)
    requires AllCounted(hpoList, counts)
    requires forall k :: 0 <= k < |order| ==> order[k] < |hpoList|
    requires ByCount(hpoList, counts, order) && p < |order|
    ensures forall x :: x in Processed(hpoList, order, p) ==> x in counts && counts[x] <= counts[hpoList[order[p]]]
  {
    var before := Processed(hpoList, order, p);
    forall x | x in before
      ensures x in counts && counts[x] <= counts[hpoList[order[p]]]
    {
      var k :| 0 <= k < p && before[k] == x;
      assert counts[hpoList[order[k]]] <= counts[hpoList[order[p]]];
    }
  }

  /** The invariant holds after every round of the outer loop. */
  lemma {:induction false} WalkAllInv(hpoList: seq<TermId>, chains: seq<seq<TermId>>, counts: map<TermId, nat>,
                                      order: seq<nat>, p: nat)
    requires |chains| == |hpoList| && Chained(hpoList, chains) && Counted(chains, counts)
    requires AllCounted(hpoList, counts)
    requires forall k :: 0 <= k < |order| ==> order[k] < |hpoList|
    requires ByCount(hpoList, counts, order)
    requires p <= |order|
    ensures Inv(WalkAll(hpoList, chains, counts, order, p).result, WalkAll(hpoList, chains, counts, order, p).seen,
                Processed(hpoList, order, p), chains)
    decreases p
  {
    if p > 0 {
      WalkAllInv(hpoList, chains, counts, order, p - 1);
      var g := WalkAll(hpoList, chains, counts, order, p - 1);
      var i := order[p - 1];
      var before := Processed(hpoList, order, p - 1);
      ProcessedNext(hpoList, chains, counts, order, p);
      assert ChainCounted(chains[i], counts);
      assert WalkAll(hpoList, chains, counts, order, p) == WalkStep(g, chains[i], counts, counts[chains[i][0]]);
      RoundInv(g, chains, i, counts, before);
    }
  }

  /** Round `p` adds the term of the chain it walks to the terms processed,
      and every term processed before has a count no larger than it. */
  lemma ProcessedNext(hpoList: seq<TermId>, chains: seq<seq<TermId>>, counts: map<TermId, nat>,
                      order: seq<nat>, p: nat)
    requires |chains| == |hpoList| && Chained(hpoList, chains)
    requires AllCounted(hpoList, counts)
    requires forall k :: 0 <= k < |order| ==> order[k] < |hpoList|
    requires ByCount(hpoList, counts, order)
    requires 0 < p <= |order|
    ensures chains[order[p - 1]][0] in counts
    ensures Processed(hpoList, order, p) == Processed(hpoList, order, p - 1) + [chains[order[p - 1]][0]]
    ensures forall x :: x in Processed(hpoList, order, p - 1) ==>
              x in counts && counts[x] <= counts[chains[order[p - 1]][0]]
  {
    var i := order[p - 1];
    assert chains[i][0] == hpoList[i];
    assert Processed(hpoList, order, p) == Processed(hpoList, order, p - 1) + [hpoList[i]];
    ProcessedBelow(hpoList, counts, order, p - 1);
  }

  /** One round of the outer loop keeps the invariant, with its term added
      to the terms processed. */
  lemma RoundInv(g: Graph, chains: seq<seq<TermId>>, i: nat, counts: map<TermId, nat>, before: seq<TermId>)
    requires i < |chains| && 0 < |chains[i]| && ChainCounted(chains[i], counts)
    requires Inv(g.result, g.seen, before, chains)
    requires forall x :: x in before ==> x in counts && counts[x] <= counts[chains[i][0]]
    ensures Inv(WalkStep(g, chains[i], counts, counts[chains[i][0]]).result,
                WalkStep(g, chains[i], counts, counts[chains[i][0]]).seen, before + [chains[i][0]], chains)
  {
    WalkChainInv(Cursor(g.result, g.seen, counts[chains[i][0]]), chains, i, counts, |chains[i]|, before);
  }

  /** A built ancestor list holds `[h] + get_ancestors(h)` for every term. */
  lemma {:induction false} AncestorListsOk(store: Store, hpoList: seq<TermId>, n: nat, rank: TermId -> nat,
                                           chains: seq<seq<TermId>>)
    requires Ranked(store, rank) && n <= |hpoList|
    requires AncestorLists(store, hpoList, n, rank) == Ok(chains)
    ensures forall i :: 0 <= i < n ==>
      (Ancestors(store, hpoList[i], rank).Ok? && chains[i] == [hpoList[i]] + Ancestors(store, hpoList[i], rank).value)
  {
    if n > 0 {
      var prev := AncestorLists(store, hpoList, n - 1, rank);
      assert prev.Ok? && Ancestors(store, hpoList[n - 1], rank).Ok?;
      AncestorListsOk(store, hpoList, n - 1, rank, prev.value);
      assert chains == prev.value + [[hpoList[n - 1]] + Ancestors(store, hpoList[n - 1], rank).value];
    }
  }

  /** Building the ancestor lists fails exactly when some term's lookup
      fails, and then with the error of the first such term. */
  lemma {:induction false} AncestorListsErr(store: Store, hpoList: seq<TermId>, n: nat, rank: TermId -> nat)
    requires Ranked(store, rank) && n <= |hpoList|
    ensures AncestorLists(store, hpoList, n, rank).Err?
        <==> exists i :: 0 <= i < n && Ancestors(store, hpoList[i], rank).Err?
    ensures AncestorLists(store, hpoList, n, rank).Err? ==>
      exists i :: 0 <= i < n && Ancestors(store, hpoList[i], rank) == Err(AncestorLists(store, hpoList, n, rank).error)
        && forall k :: 0 <= k < i ==> Ancestors(store, hpoList[k], rank).Ok?
  {
    if n > 0 {
      AncestorListsErr(store, hpoList, n - 1, rank);
      var prev := AncestorLists(store, hpoList, n - 1, rank);
      if prev.Ok? {
        assert forall i :: 0 <= i < n - 1 ==> Ancestors(store, hpoList[i], rank).Ok?;
      }
    }
  }

  /** `x` occurs at two different positions of `hpoList`. */
  ghost predicate Repeated(hpoList: seq<TermId>, x: TermId)
  {
    exists a, b :: 0 <= a < b < |hpoList| && hpoList[a] == x && hpoList[b] == x
  }

  /** `x` is listed by `get_ancestors` for one of the terms. */
  ghost predicate AncestorOfSome(store: Store, hpoList: seq<TermId>, rank: TermId -> nat, x: TermId)
    requires Ranked(store, rank)
  {
    exists i :: 0 <= i < |hpoList| && Ancestors(store, hpoList[i], rank).Ok?
      && x in Ancestors(store, hpoList[i], rank).value
  }

  /** A value that a sequence holds at least twice sits at two positions. */
  lemma {:induction false} MultisetTwice(s: seq<TermId>, x: TermId)
    requires multiset(s)[x] >= 2
    ensures exists a, b :: 0 <= a < b < |s| && s[a] == x && s[b] == x
    decreases |s|
  {
    var init := s[..|s| - 1];
    assert s == init + [s[|s| - 1]];
    assert multiset(s) == multiset(init) + multiset{s[|s| - 1]};
    if s[|s| - 1] == x {
      assert x in multiset(init);
      var a :| 0 <= a < |init| && init[a] == x;
      assert s[a] == x;
    } else {
      MultisetTwice(init, x);
      var a, b :| 0 <= a < b < |init| && init[a] == x && init[b] == x;
      assert s[a] == x && s[b] == x;
    }
  }

  /** The walk of the general branch, with the intermediate values
      `get_min_graph` computes, and the invariant at its end. */
  lemma MinGraphWalk(store: Store, hpoList: seq<TermId>, rank: TermId -> nat)
    returns (chains: seq<seq<TermId>>, counts: map<TermId, nat>, order: seq<nat>)
    requires Ranked(store, rank) && |hpoList| != 1 && MinGraph(store, hpoList, rank).Ok?
    ensures AncestorLists(store, hpoList, |hpoList|, rank) == Ok(chains)
    ensures counts == Tally(Groups(chains)) && Counted(chains, counts) && AllCounted(hpoList, counts)
    ensures order == GetSortedIndex(hpoList, counts)
    ensures Inv(MinGraph(store, hpoList, rank).value, WalkAll(hpoList, chains, counts, order, |order|).seen,
                Processed(hpoList, order, |order|), chains)
  {
    chains := AncestorLists(store, hpoList, |hpoList|, rank).value;
    MinGraphGeneral(store, hpoList, rank, chains);
    counts := Tally(Groups(chains));
    order := GetSortedIndex(hpoList, counts);
    WalkAllInv(hpoList, chains, counts, order, |order|);
  }

  /** An ancestor on a chain is listed by `get_ancestors` for its term. */
  lemma ChainAncestor(store: Store, hpoList: seq<TermId>, rank: TermId -> nat, chains: seq<seq<TermId>>, x: TermId)
    requires Ranked(store, rank) && AncestorLists(store, hpoList, |hpoList|, rank) == Ok(chains)
    requires IsAncestorIn(chains, x)
    ensures AncestorOfSome(store, hpoList, rank, x)
  {
    AncestorListsOk(store, hpoList, |hpoList|, rank, chains);
    var i, k :| 0 <= i < |chains| && 0 < k < |chains[i]| && chains[i][k] == x;
    assert Ancestors(store, hpoList[i], rank).value[k - 1] == x;
  }

  /** Every requested term gets a node. */
  lemma MinGraphCoversInputs(store: Store, hpoList: seq<TermId>, rank: TermId -> nat)
    requires Ranked(store, rank) && MinGraph(store, hpoList, rank).Ok?
    ensures forall i :: 0 <= i < |hpoList| ==> hpoList[i] in Ids(MinGraph(store, hpoList, rank).value)
  {
    if |hpoList| == 1 {
      MinGraphSingle(store, hpoList[0], rank);
      assert hpoList == [hpoList[0]];
      assert Ids(MinGraph(store, hpoList, rank).value)[0] == hpoList[0];
    } else {
      WalkCoversInputs(store, hpoList, rank);
    }
  }

  /** The general branch emits every term it walks. */
  lemma WalkCoversInputs(store: Store, hpoList: seq<TermId>, rank: TermId -> nat)
    requires Ranked(store, rank) && |hpoList| != 1 && MinGraph(store, hpoList, rank).Ok?
    ensures forall i :: 0 <= i < |hpoList| ==> hpoList[i] in Ids(MinGraph(store, hpoList, rank).value)
  {
    var result := MinGraph(store, hpoList, rank).value;
    var chains, counts, order := MinGraphWalk(store, hpoList, rank);
    var processed := Processed(hpoList, order, |order|);
    assert ProcessedEmitted(result, processed);
    forall i | 0 <= i < |hpoList|
      ensures hpoList[i] in Ids(result)
    {
      assert i in order;
      var k :| 0 <= k < |order| && order[k] == i;
      assert processed[k] == hpoList[i];
    }
  }

  /** In the general branch every node either has no parent or a single
      parent, and that parent is itself a node of the result and an ancestor
      of one of the terms. */
  lemma MinGraphLinks(store: Store, hpoList: seq<TermId>, rank: TermId -> nat)
    requires Ranked(store, rank) && |hpoList| != 1 && MinGraph(store, hpoList, rank).Ok?
    ensures forall n :: 0 <= n < |MinGraph(store, hpoList, rank).value| ==>
      var node := MinGraph(store, hpoList, rank).value[n];
      node.isA.NoParent? || (node.isA.Parent? && node.isA.id in Ids(MinGraph(store, hpoList, rank).value)
                             && AncestorOfSome(store, hpoList, rank, node.isA.id))
  {
    var result := MinGraph(store, hpoList, rank).value;
    var chains, counts, order := MinGraphWalk(store, hpoList, rank);
    var seen := WalkAll(hpoList, chains, counts, order, |order|).seen;
    forall n | 0 <= n < |result| && result[n].isA.Parent?
      ensures result[n].isA.id in Ids(result) && AncestorOfSome(store, hpoList, rank, result[n].isA.id)
    {
      assert result[n].isA.id in seen;
      ChainAncestor(store, hpoList, rank, chains, result[n].isA.id);
    }
  }

  /** Every node of the general branch is one of the terms or an ancestor of
      one of them. */
  lemma MinGraphNodesKnown(store: Store, hpoList: seq<TermId>, rank: TermId -> nat)
    requires Ranked(store, rank) && |hpoList| != 1 && MinGraph(store, hpoList, rank).Ok?
    ensures forall n :: 0 <= n < |MinGraph(store, hpoList, rank).value| ==>
      var id := MinGraph(store, hpoList, rank).value[n].id;
      id in hpoList || AncestorOfSome(store, hpoList, rank, id)
  {
    var result := MinGraph(store, hpoList, rank).value;
    var chains, counts, order := MinGraphWalk(store, hpoList, rank);
    var seen := WalkAll(hpoList, chains, counts, order, |order|).seen;
    var processed := Processed(hpoList, order, |order|);
    forall n | 0 <= n < |result|
      ensures result[n].id in hpoList || AncestorOfSome(store, hpoList, rank, result[n].id)
    {
      if result[n].id in seen {
        ChainAncestor(store, hpoList, rank, chains, result[n].id);
      } else {
        assert result[n].id in processed;
        var k :| 0 <= k < |processed| && processed[k] == result[n].id;
        assert hpoList[order[k]] == result[n].id;
      }
    }
  }

  /** In the general branch an id is emitted twice only when it was
      requested twice: `seen` keeps every ancestor from being emitted again,
      and an ancestor is emitted only with a count above every term walked so
      far, so it cannot already be on the list as a term. */
  lemma MinGraphDuplicates(store: Store, hpoList: seq<TermId>, rank: TermId -> nat)
    requires Ranked(store, rank) && |hpoList| != 1 && MinGraph(store, hpoList, rank).Ok?
    ensures forall i, j ::
      (0 <= i < j < |MinGraph(store, hpoList, rank).value| &&
       MinGraph(store, hpoList, rank).value[i].id == MinGraph(store, hpoList, rank).value[j].id) ==>
      Repeated(hpoList, MinGraph(store, hpoList, rank).value[i].id)
  {
    var result := MinGraph(store, hpoList, rank).value;
    var chains, counts, order := MinGraphWalk(store, hpoList, rank);
    var processed := Processed(hpoList, order, |order|);
    forall i, j | 0 <= i < j < |result| && result[i].id == result[j].id
      ensures Repeated(hpoList, result[i].id)
    {
      var x := result[i].id;
      MultisetTwice(processed, x);
      var a, b :| 0 <= a < b < |processed| && processed[a] == x && processed[b] == x;
      assert hpoList[order[a]] == x && hpoList[order[b]] == x;
      assert order[a] < order[b];
    }
  }

  /** Without repeated terms every node of the result has its own id. */
  lemma MinGraphDistinct(store: Store, hpoList: seq<TermId>, rank: TermId -> nat)
    requires Ranked(store, rank) && |hpoList| != 1 && MinGraph(store, hpoList, rank).Ok?
    requires forall a, b :: 0 <= a < b < |hpoList| ==> hpoList[a] != hpoList[b]
    ensures forall i, j :: 0 <= i < j < |MinGraph(store, hpoList, rank).value| ==>
      MinGraph(store, hpoList, rank).value[i].id != MinGraph(store, hpoList, rank).value[j].id
  {
    MinGraphDuplicates(store, hpoList, rank);
  }

  /** The general branch fails exactly when `get_ancestors` fails for some
      term, and then with the error of the first such term; the single-term
      branch fails exactly when the term itself is missing. */
  lemma MinGraphErrors(store: Store, hpoList: seq<TermId>, rank: TermId -> nat)
    requires Ranked(store, rank)
    ensures |hpoList| == 1 ==> (MinGraph(store, hpoList, rank).Err? <==> hpoList[0] !in store)
    ensures |hpoList| != 1 ==>
      (MinGraph(store, hpoList, rank).Err? <==> exists i :: 0 <= i < |hpoList| && Ancestors(store, hpoList[i], rank).Err?)
    ensures |hpoList| != 1 && MinGraph(store, hpoList, rank).Err? ==>
      exists i :: 0 <= i < |hpoList| && Ancestors(store, hpoList[i], rank) == Err(MinGraph(store, hpoList, rank).error)
        && forall k :: 0 <= k < i ==> Ancestors(store, hpoList[k], rank).Ok?
  {
    AncestorListsErr(store, hpoList, |hpoList|, rank);
  }

  /** No terms, no nodes. */
  lemma MinGraphEmpty(store: Store, rank: TermId -> nat)
    requires Ranked(store, rank)
    ensures MinGraph(store, [], rank) == Ok([])
  {
    assert AncestorLists(store, [], 0, rank) == Ok([]);
    MinGraphGeneral(store, [], rank, []);
  }

  /** The single-term branch: the term first, carrying all its direct
      parents as a list, then one parentless node per direct parent; the
      parents themselves are not looked up. */
  lemma MinGraphSingle(store: Store, h: TermId, rank: TermId -> nat)
    requires Ranked(store, rank) && h in store
    ensures MinGraph(store, [h], rank).Ok?
    ensures var result := MinGraph(store, [h], rank).value;
      var ps := ParentsOf(store, h);
      && |result| == 1 + |ps|
      && result[0] == Node(h, if ps == [] then NoParent else ParentList(ps))
      && forall k :: 0 <= k < |ps| ==> result[k + 1] == Node(ps[k], NoParent)
  {
    var ps := ParentsOf(store, h);
    assert [h][0] == h;
    assert MinGraph(store, [h], rank) == Ok(SingleTermGraph(h, ps));
    SingleTermShape(h, ps);
  }

  /** The nodes of the single-term branch, one by one. */
  lemma SingleTermShape(h: TermId, ps: seq<TermId>)
    ensures var result := SingleTermGraph(h, ps);
      && |result| == 1 + |ps|
      && result[0] == Node(h, if ps == [] then NoParent else ParentList(ps))
      && forall k :: 0 <= k < |ps| ==> result[k + 1] == Node(ps[k], NoParent)
  {
    if ps != [] {
      var tail := seq(|ps|, k requires 0 <= k < |ps| => Node(ps[k], NoParent));
      assert SingleTermGraph(h, ps) == [Node(h, ParentList(ps))] + tail;
      forall k | 0 <= k < |ps| ensures SingleTermGraph(h, ps)[k + 1] == Node(ps[k], NoParent) {
        assert SingleTermGraph(h, ps)[k + 1] == tail[k];
      }
    }
  }

  /** `next` keeps every node of `prev` in place under its id, and every
      link already written in `prev`. */
  ghost predicate Extends(prev: seq<Node>, next: seq<Node>)
  {
    && Ids(prev) <= Ids(next)
    && forall n :: 0 <= n < |prev| && prev[n].isA != NoParent ==> next[n] == prev[n]
  }

  lemma ExtendsTrans(a: seq<Node>, b: seq<Node>, c: seq<Node>)
    requires Extends(a, b) && Extends(b, c)
    ensures Extends(a, c)
  {
    assert |Ids(a)| == |a| && |Ids(b)| == |b|;
    forall n | 0 <= n < |a| && a[n].isA != NoParent
      ensures c[n] == a[n]
    {
      assert b[n] == a[n];
    }
  }

  /** Nothing the walk of one chain has emitted is renamed or dropped, only
      the node that was last before the walk can get `is_a`, and a link,
      once written, is never overwritten. */
  lemma {:induction false} WalkChainKeeps(st: Cursor, chain: seq<TermId>, counts: map<TermId, nat>, j: nat)
    requires 0 < |chain| && j <= |chain| && ChainCounted(chain, counts)
    requires st.count == counts[chain[0]] && SeenEmitted(st.result, st.seen)
    ensures Extends(st.result, WalkChain(st, chain, counts, j).result)
    ensures forall n :: 0 <= n < |st.result| - 1 ==> WalkChain(st, chain, counts, j).result[n] == st.result[n]
    decreases j
  {
    if j > 0 {
      WalkChainKeeps(st, chain, counts, j - 1);
      var prev := WalkChain(st, chain, counts, j - 1);
      var r := WalkChain(st, chain, counts, j);
      assert Extends(prev.result, r.result);
      ExtendsTrans(st.result, prev.result, r.result);
      assert |Ids(st.result)| == |st.result| && |Ids(prev.result)| == |prev.result|;
    }
  }

  /** Across the rounds of the outer loop, emitted nodes keep their ids and
      positions, and a node's `is_a` is written at most once: the source
      only assigns it while it is still `None`. */
  lemma WalkAllKeeps(hpoList: seq<TermId>, chains: seq<seq<TermId>>, counts: map<TermId, nat>,
                        order: seq<nat>, p1: nat, p2: nat)
    requires |chains| == |hpoList| && Chained(hpoList, chains) && Counted(chains, counts)
    requires forall k :: 0 <= k < |order| ==> order[k] < |hpoList|
    requires p1 <= p2 <= |order|
    ensures Extends(WalkAll(hpoList, chains, counts, order, p1).result, WalkAll(hpoList, chains, counts, order, p2).result)
  {
    var rs := seq(|order| + 1, p requires 0 <= p <= |order| => WalkAll(hpoList, chains, counts, order, p).result);
    forall p | 0 <= p < |rs| - 1
      ensures Extends(rs[p], rs[p + 1])
    {
      WalkAllStepKeeps(hpoList, chains, counts, order, p);
    }
    ExtendsAlong(rs, p1, p2);
  }

  /** In a sequence of node lists each extending the one before, every list
      extends all earlier ones. */
  lemma {:induction false} ExtendsAlong(rs: seq<seq<Node>>, p1: nat, p2: nat)
    requires forall p :: 0 <= p < |rs| - 1 ==> Extends(rs[p], rs[p + 1])
    requires p1 <= p2 < |rs|
    ensures Extends(rs[p1], rs[p2])
    decreases p2
  {
    if p1 < p2 {
      ExtendsAlong(rs, p1, p2 - 1);
      ExtendsTrans(rs[p1], rs[p2 - 1], rs[p2]);
    }
  }

  /** One round of the outer loop keeps what the rounds before it emitted. */
  lemma WalkAllStepKeeps(hpoList: seq<TermId>, chains: seq<seq<TermId>>, counts: map<TermId, nat>,
                         order: seq<nat>, p: nat)
    requires |chains| == |hpoList| && Chained(hpoList, chains) && Counted(chains, counts)
    requires forall k :: 0 <= k < |order| ==> order[k] < |hpoList|
    requires p < |order|
    ensures Extends(WalkAll(hpoList, chains, counts, order, p).result, WalkAll(hpoList, chains, counts, order, p + 1).result)
  {
    var g := WalkAll(hpoList, chains, counts, order, p);
    var i := order[p];
    assert ChainCounted(chains[i], counts);
    WalkChainKeeps(Cursor(g.result, g.seen, counts[hpoList[i]]), chains[i], counts, |chains[i]|);
  }

  /** A term already in `seen` when its round starts is not appended again at
      the head of its chain: that pass changes nothing. */
  lemma VisitSeenHead(st: Cursor, w: TermId, counts: map<TermId, nat>)
    requires w in counts && st.count == counts[w] && SeenEmitted(st.result, st.seen)
    requires w in st.seen
    ensures Visit(st, 0, w, counts) == st
  {
  }

  /** A chain whose term is not in `seen` appends a node for that term right
      after the nodes there before, and the rest of the chain keeps it there. */
  lemma {:induction false} WalkChainFreshHead(st: Cursor, chain: seq<TermId>, counts: map<TermId, nat>, j: nat)
    requires 0 < |chain| && 1 <= j <= |chain| && ChainCounted(chain, counts)
    requires st.count == counts[chain[0]] && SeenEmitted(st.result, st.seen)
    requires chain[0] !in st.seen
    ensures |st.result| < |WalkChain(st, chain, counts, j).result|
    ensures WalkChain(st, chain, counts, j).result[|st.result|].id == chain[0]
    decreases j
  {
    if j == 1 {
      assert WalkChain(st, chain, counts, 0) == st;
      assert WalkChain(st, chain, counts, 1) == Visit(st, 0, chain[0], counts);
    } else {
      WalkChainFreshHead(st, chain, counts, j - 1);
      var prev := WalkChain(st, chain, counts, j - 1);
      var r := Visit(prev, j - 1, chain[j - 1], counts);
      assert WalkChain(st, chain, counts, j) == r;
      assert Ids(prev.result)[|st.result|] == chain[0];
      assert Ids(r.result)[|st.result|] == chain[0];
    }
  }

  /** A round whose term is not in `seen` when it starts gives that term a
      new node, placed right after the nodes of the earlier rounds. So a
      term listed twice gets a second node unless by its second round an
      earlier walk has put it in `seen` as an ancestor. */
  lemma WalkAllFreshTerm(hpoList: seq<TermId>, chains: seq<seq<TermId>>, counts: map<TermId, nat>,
                         order: seq<nat>, p: nat)
    requires |chains| == |hpoList| && Chained(hpoList, chains) && Counted(chains, counts)
    requires forall k :: 0 <= k < |order| ==> order[k] < |hpoList|
    requires p < |order|
    requires hpoList[order[p]] !in WalkAll(hpoList, chains, counts, order, p).seen
    ensures |WalkAll(hpoList, chains, counts, order, p).result| < |WalkAll(hpoList, chains, counts, order, p + 1).result|
    ensures WalkAll(hpoList, chains, counts, order, p + 1).result[|WalkAll(hpoList, chains, counts, order, p).result|].id
         == hpoList[order[p]]
  {
    var g := WalkAll(hpoList, chains, counts, order, p);
    var i := order[p];
    assert ChainCounted(chains[i], counts);
    assert chains[i][0] == hpoList[i];
    WalkChainFreshHead(Cursor(g.result, g.seen, counts[hpoList[i]]), chains[i], counts, |chains[i]|);
  }

  /** The nodes the walk of one chain emits, from position `base` on, carry
      ids of the chain, with counts strictly increasing and never above the
      running count. */
  ghost predicate Records(result: seq<Node>, base: nat, chain: seq<TermId>, counts: map<TermId, nat>, count: nat)
  {
    && (forall n :: base <= n < |result| ==> result[n].id in chain)
    && (forall n :: base <= n < |result| ==> result[n].id in counts && counts[result[n].id] <= count)
    && (forall n, m :: base <= n < m < |result| ==>
          result[n].id in counts && result[m].id in counts && counts[result[n].id] < counts[result[m].id])
  }

  /** One pass of the inner loop keeps the emitted nodes record-breaking. */
  lemma VisitRecords(prev: Cursor, base: nat, chain: seq<TermId>, counts: map<TermId, nat>, ancIndex: nat)
    requires ancIndex < |chain| && ChainCounted(chain, counts) && SeenEmitted(prev.result, prev.seen)
    requires ancIndex == 0 ==> prev.count == counts[chain[0]] && |prev.result| == base
    requires ancIndex > 0 ==> |prev.result| > 0
    requires base <= |prev.result| && Records(prev.result, base, chain, counts, prev.count)
    ensures Records(Visit(prev, ancIndex, chain[ancIndex], counts).result, base, chain, counts,
                    Visit(prev, ancIndex, chain[ancIndex], counts).count)
    ensures |prev.result| <= |Visit(prev, ancIndex, chain[ancIndex], counts).result|
  {
    var a := chain[ancIndex];
    var r := Visit(prev, ancIndex, a, counts);
    assert a in chain;
    if ancIndex == 0 && a !in prev.seen {
      assert r.result == prev.result + [Node(a, NoParent)];
    } else if counts[a] > prev.count {
      var relinked := Relink(prev.result, a);
      if a !in prev.seen {
        assert r.result == relinked + [Node(a, NoParent)];
      } else {
        assert r.result == relinked;
      }
    }
  }

  /** Along one chain the walk emits only record-breaking ids: the term
      itself (unless already seen), then each ancestor whose count is above
      every count met before it on the chain. */
  lemma {:induction false} WalkChainRecords(st: Cursor, chain: seq<TermId>, counts: map<TermId, nat>, j: nat)
    requires 0 < |chain| && j <= |chain| && ChainCounted(chain, counts)
    requires st.count == counts[chain[0]] && SeenEmitted(st.result, st.seen)
    ensures Records(WalkChain(st, chain, counts, j).result, |st.result|, chain, counts,
                    WalkChain(st, chain, counts, j).count)
    ensures |st.result| <= |WalkChain(st, chain, counts, j).result|
    decreases j
  {
    if j > 0 {
      WalkChainRecords(st, chain, counts, j - 1);
      var prev := WalkChain(st, chain, counts, j - 1);
      var r := Visit(prev, j - 1, chain[j - 1], counts);
      assert WalkChain(st, chain, counts, j) == r;
      VisitRecords(prev, |st.result|, chain, counts, j - 1);
    }
  }
}
