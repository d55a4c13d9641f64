/** `Hpo.get_min_graph`: the node list a front end renders for a set of
    terms. With a single term the node lists that term and its direct
    parents. Otherwise every term is expanded to `[term] + get_ancestors(term)`,
    every id is counted over all these chains, the terms are visited from
    the least to the most counted. Along each chain, an ancestor whose count
    beats the running count raises it; it is then emitted if it is not yet in
    `seen`, and the last node emitted is linked to it if that node has no
    parent yet. */
module HpoMinGraph {
  import opened Text
  import opened Hpo
  import opened HpoCounting

  /** The `is_a` entry of an emitted node: `None`, one parent id, or (only
      in the single-term case) the list of direct parents. */
  datatype IsA = NoParent | Parent(id: TermId) | ParentList(ids: seq<TermId>)

  /** One `{'id': ..., 'is_a': ...}` dictionary of the result. */
  datatype Node = Node(id: TermId, isA: IsA)

  /** The ids of the emitted nodes, in order. */
  function Ids(result: seq<Node>): (ids: seq<TermId>)
    ensures |ids| == |result|
    ensures forall k :: 0 <= k < |result| ==> ids[k] == result[k].id
  {
    seq(|result|, k requires 0 <= k < |result| => result[k].id)
  }

  /** Appending a node appends its id. */
  lemma IdsSnoc(result: seq<Node>, node: Node)
    ensures Ids(result + [node]) == Ids(result) + [node.id]
  {
  }

  /** The single-term result: the term, carrying the list of its direct
      parents when it has any, followed by one parentless node per parent. */
  function SingleTermGraph(h: TermId, ps: seq<TermId>): (r: seq<Node>)
    ensures Ids(r) == [h] + ps
    ensures forall k :: 1 <= k < |r| ==> r[k].isA == NoParent
  {
    if ps == [] then [Node(h, NoParent)]
    else [Node(h, ParentList(ps))] + seq(|ps|, k requires 0 <= k < |ps| => Node(ps[k], NoParent))
  }

  /** `ancestor_list` for the first `n` terms: `[h] + get_ancestors(h)` for
      each, or the error of the first lookup that fails. */
  function AncestorLists(store: Store, hpoList: seq<TermId>, n: nat, ghost rank: TermId -> nat)
    : (r: Result<seq<seq<TermId>>>)
    requires Ranked(store, rank) && n <= |hpoList|
    ensures r.Ok? ==> |r.value| == n && Chained(hpoList, r.value)
    ensures r.Err? ==> r.error.id !in store
  {
    if n == 0 then Ok([])
    else
      match AncestorLists(store, hpoList, n - 1, rank)
      case Err(e) => Err(e)
      case Ok(lists) =>
        match Ancestors(store, hpoList[n - 1], rank)
        case Err(e) => Err(e)
        case Ok(anc) => Ok(lists + [[hpoList[n - 1]] + anc])
  }

  /** Chain `i` starts with term `i`. */
  predicate Chained(hpoList: seq<TermId>, chains: seq<seq<TermId>>)
  {
    && |chains| <= |hpoList|
    && forall i :: 0 <= i < |chains| ==> |chains[i]| > 0 && chains[i][0] == hpoList[i]
  }

  /** The argument of `counter(ancestor_list)`: every chain is a list. */
  function Groups(chains: seq<seq<TermId>>): (data: seq<Datum<TermId>>)
    ensures |data| == |chains|
    ensures forall i :: 0 <= i < |chains| ==> data[i] == Many(chains[i])
  {
    seq(|chains|, i requires 0 <= i < |chains| => Many(chains[i]))
  }

  /** Every id on every chain has a count. */
  predicate Counted(chains: seq<seq<TermId>>, counts: map<TermId, nat>)
  {
    forall i, k :: 0 <= i < |chains| && 0 <= k < |chains[i]| ==> chains[i][k] in counts
  }

  /** The counts of `counter(ancestor_list)` cover every chain. */
  lemma GroupsCounted(chains: seq<seq<TermId>>)
    ensures Counted(chains, Tally(Groups(chains)))
  {
    TallyCounts(Groups(chains));
    forall i, k | 0 <= i < |chains| && 0 <= k < |chains[i]|
      ensures chains[i][k] in Tally(Groups(chains))
    {
      FlattenContains(Groups(chains), i, k);
    }
  }

  /** Everything `seen` has been emitted. */
  predicate SeenEmitted(result: seq<Node>, seen: set<TermId>)
  {
    forall x :: x in seen ==> x in Ids(result)
  }

  /** The state of the walk along one chain: the emitted nodes, the set
      `seen`, and the running `count`. */
  datatype Cursor = Cursor(result: seq<Node>, seen: set<TermId>, count: nat)

  /** `result[-1]['is_a'] = ancestor` when the last node has no parent yet. */
  function Relink(result: seq<Node>, ancestor: TermId): (r: seq<Node>)
    requires |result| > 0
    ensures |r| == |result| && Ids(r) == Ids(result)
    ensures forall n :: 0 <= n < |r| - 1 ==> r[n] == result[n]
    ensures result[|result| - 1].isA != NoParent ==> r == result
    ensures result[|result| - 1].isA == NoParent ==> r[|r| - 1].isA == Parent(ancestor)
  {
    var last := result[|result| - 1];
    if last.isA == NoParent then result[|result| - 1 := last.(isA := Parent(ancestor))] else result
  }

  /** One pass of the inner loop of the walk, at position `ancIndex` of a
      chain, for the id `ancestor` found there. */
  function Visit(st: Cursor, ancIndex: nat, ancestor: TermId, counts: map<TermId, nat>): (r: Cursor)
    requires ancestor in counts && SeenEmitted(st.result, st.seen)
    requires ancIndex == 0 ==> st.count == counts[ancestor]
    requires ancIndex > 0 ==> |st.result| > 0
    ensures SeenEmitted(r.result, r.seen)
    ensures |r.result| > 0 && Ids(st.result) <= Ids(r.result)
    ensures st.seen <= r.seen && st.count <= r.count
    ensures forall n :: 0 <= n < |st.result| - 1 ==> r.result[n] == st.result[n]
    ensures forall n :: 0 <= n < |st.result| && st.result[n].isA != NoParent ==> r.result[n] == st.result[n]
    ensures ancIndex > 0 && counts[ancestor] <= st.count ==> r == st
    ensures r.count > st.count ==> r.count == counts[ancestor] && ancestor in r.seen
  {
    if ancIndex == 0 && ancestor !in st.seen then
      IdsSnoc(st.result, Node(ancestor, NoParent));
      st.(result := st.result + [Node(ancestor, NoParent)])
    else if counts[ancestor] > st.count then
      var result := Relink(st.result, ancestor);
      if ancestor !in st.seen then
        IdsSnoc(result, Node(ancestor, NoParent));
        Cursor(result + [Node(ancestor, NoParent)], st.seen + {ancestor}, counts[ancestor])
      else
        Cursor(result, st.seen, counts[ancestor])
    else
      st
  }

  /** Every id of `chain` has a count. */
  predicate ChainCounted(chain: seq<TermId>, counts: map<TermId, nat>)
  {
    forall k :: 0 <= k < |chain| ==> chain[k] in counts
  }

  /** The walk along `chain` after its first `j` positions, started with the
      count of the chain's own term. */
  function WalkChain(st: Cursor, chain: seq<TermId>, counts: map<TermId, nat>, j: nat): (r: Cursor)
    requires 0 < |chain| && j <= |chain| && ChainCounted(chain, counts)
    requires st.count == counts[chain[0]] && SeenEmitted(st.result, st.seen)
    ensures SeenEmitted(r.result, r.seen)
    ensures j > 0 ==> |r.result| > 0
    decreases j
  {
    if j == 0 then st
    else Visit(WalkChain(st, chain, counts, j - 1), j - 1, chain[j - 1], counts)
  }

  /** The emitted nodes and the set `seen` between two chains. */
  datatype Graph = Graph(result: seq<Node>, seen: set<TermId>)

  /** One round of the outer loop: the walk along `chain` from the count
      `count0` of its own term. */
  function WalkStep(g: Graph, chain: seq<TermId>, counts: map<TermId, nat>, count0: nat): (r: Graph)
    requires 0 < |chain| && ChainCounted(chain, counts)
    requires count0 == counts[chain[0]] && SeenEmitted(g.result, g.seen)
    ensures SeenEmitted(r.result, r.seen)
  {
    var c := WalkChain(Cursor(g.result, g.seen, count0), chain, counts, |chain|);
    Graph(c.result, c.seen)
  }

  /** The whole walk after its first `p` chains, taken in the order `order`. */
  function WalkAll(hpoList: seq<TermId>, chains: seq<seq<TermId>>, counts: map<TermId, nat>,
                   order: seq<nat>, p: nat): (g: Graph)
    requires |chains| == |hpoList| && Chained(hpoList, chains) && Counted(chains, counts)
    requires forall k :: 0 <= k < |order| ==> order[k] < |hpoList|
    requires p <= |order|
    ensures SeenEmitted(g.result, g.seen)
    decreases p
  {
    if p == 0 then Graph([], {})
    else
      var i := order[p - 1];
      assert ChainCounted(chains[i], counts);
      WalkStep(WalkAll(hpoList, chains, counts, order, p - 1), chains[i], counts, counts[hpoList[i]])
  }

  /** What `get_min_graph(hpo_list)` returns. */
  function MinGraph(store: Store, hpoList: seq<TermId>, ghost rank: TermId -> nat): (r: Result<seq<Node>>)
    requires Ranked(store, rank)
    ensures r.Err? ==> r.error.id !in store
  {
    if |hpoList| == 1 then
      if hpoList[0] !in store then Err(NotFound(hpoList[0]))
      else Ok(SingleTermGraph(hpoList[0], ParentsOf(store, hpoList[0])))
    else
      match AncestorLists(store, hpoList, |hpoList|, rank)
      case Err(e) => Err(e)
      case Ok(chains) =>
        var counts := Tally(Groups(chains));
        GroupsCounted(chains);
        var order := GetSortedIndex(hpoList, counts);
        Ok(WalkAll(hpoList, chains, counts, order, |order|).result)
  }

  /** `get_min_graph(hpo_list)`, with its loops. */
  method GetMinGraph(store: Store, hpoList: seq<TermId>, ghost rank: TermId -> nat)
    returns (r: Result<seq<Node>>)
    requires Ranked(store, rank)
    ensures r == MinGraph(store, hpoList, rank)
  {
    if |hpoList| == 1 {
      var h := hpoList[0];
      if h !in store {
        return Err(NotFound(h));
      }
      var result := SingleTermNodes(h, store[h]);
      return Ok(result);
    }

    var lists := CollectAncestors(store, hpoList, rank);
    if lists.Err? {
      return Err(lists.error);
    }
    var ancestorList := lists.value;
    var ancestorCount := Counter(Groups(ancestorList));
    MinGraphGeneral(store, hpoList, rank, ancestorList);
    var sortedIndex := GetSortedIndex(hpoList, ancestorCount);

    var result := EmitAll(hpoList, ancestorList, ancestorCount, sortedIndex);
    assert |sortedIndex| == |hpoList|;
    assert Ok(result) == MinGraph(store, hpoList, rank);
    return Ok(result);
  }

  /** The first loop: `[h] + get_ancestors(h)` for every term, stopping at
      the first lookup that fails. */
  method CollectAncestors(store: Store, hpoList: seq<TermId>, ghost rank: TermId -> nat)
    returns (r: Result<seq<seq<TermId>>>)
    requires Ranked(store, rank)
    ensures r == AncestorLists(store, hpoList, |hpoList|, rank)
  {
    var ancestorList := [];
    for i := 0 to |hpoList|
      invariant AncestorLists(store, hpoList, i, rank) == Ok(ancestorList)
    {
      var ancestors := Ancestors(store, hpoList[i], rank);
      if ancestors.Err? {
        assert AncestorLists(store, hpoList, i + 1, rank) == Err(ancestors.error);
        AncestorListsErrorSticks(store, hpoList, i + 1, |hpoList|, rank);
        return Err(ancestors.error);
      }
      ancestorList := ancestorList + [[hpoList[i]] + ancestors.value];
    }
    return Ok(ancestorList);
  }

  /** The outer loop of the walk, over the terms in the order `sortedIndex`. */
  method EmitAll(hpoList: seq<TermId>, ancestorList: seq<seq<TermId>>, ancestorCount: map<TermId, nat>,
                 sortedIndex: seq<nat>)
    returns (result: seq<Node>)
    requires |ancestorList| == |hpoList| && Chained(hpoList, ancestorList) && Counted(ancestorList, ancestorCount)
    requires forall k :: 0 <= k < |sortedIndex| ==> sortedIndex[k] < |hpoList|
    ensures result == WalkAll(hpoList, ancestorList, ancestorCount, sortedIndex, |sortedIndex|).result
  {
    var seen := {};
    result := [];
    for p := 0 to |sortedIndex|
      invariant Graph(result, seen) == WalkAll(hpoList, ancestorList, ancestorCount, sortedIndex, p)
    {
      var hpoIndex := sortedIndex[p];
      assert ChainCounted(ancestorList[hpoIndex], ancestorCount);
      result, seen := EmitChain(result, seen, ancestorCount[hpoList[hpoIndex]],
                                ancestorList[hpoIndex], ancestorCount);
    }
  }

  /** The single-term branch for a term that is in the store, given its
      stored `is_a` column. */
  method SingleTermNodes(h: TermId, isA: Option<string>) returns (result: seq<Node>)
    ensures result == SingleTermGraph(h, Parents(isA))
  {
    result := [Node(h, NoParent)];
    if isA.Some? && isA.value != "" {
      var ps := Split(isA.value, ';');
      result := [Node(h, ParentList(ps))];
      for k := 0 to |ps|
        invariant result == [Node(h, ParentList(ps))] + seq(k, m requires 0 <= m < k => Node(ps[m], NoParent))
      {
        result := result + [Node(ps[k], NoParent)];
      }
    }
  }

  /** The inner loop of the walk: one chain, from the count of its own term. */
  method EmitChain(result0: seq<Node>, seen0: set<TermId>, count0: nat,
                   chain: seq<TermId>, ancestorCount: map<TermId, nat>)
    returns (result: seq<Node>, seen: set<TermId>)
    requires 0 < |chain| && ChainCounted(chain, ancestorCount)
    requires count0 == ancestorCount[chain[0]] && SeenEmitted(result0, seen0)
    ensures Graph(result, seen) == WalkStep(Graph(result0, seen0), chain, ancestorCount, count0)
  {
    ghost var start := Cursor(result0, seen0, count0);
    var count := count0;
    result, seen := result0, seen0;
    for ancIndex := 0 to |chain|
      invariant Cursor(result, seen, count) == WalkChain(start, chain, ancestorCount, ancIndex)
    {
      var ancestor := chain[ancIndex];
      if ancIndex == 0 && ancestor !in seen {
        result := result + [Node(ancestor, NoParent)];
      } else if ancestorCount[ancestor] > count {
        count := ancestorCount[ancestor];
        if result[|result| - 1].isA == NoParent {
          result := result[|result| - 1 := result[|result| - 1].(isA := Parent(ancestor))];
        }
        if ancestor !in seen {
          result := result + [Node(ancestor, NoParent)];
          seen := seen + {ancestor};
        }
      }
    }
  }

  /** The general branch of `MinGraph` once the ancestor lists are built. */
  lemma MinGraphGeneral(store: Store, hpoList: seq<TermId>, rank: TermId -> nat, chains: seq<seq<TermId>>)
    requires Ranked(store, rank) && |hpoList| != 1
    requires AncestorLists(store, hpoList, |hpoList|, rank) == Ok(chains)
    ensures Counted(chains, Tally(Groups(chains)))
    ensures AllCounted(hpoList, Tally(Groups(chains)))
    ensures MinGraph(store, hpoList, rank)
         == Ok(WalkAll(hpoList, chains, Tally(Groups(chains)),
                       GetSortedIndex(hpoList, Tally(Groups(chains))), |hpoList|).result)
  {
    GroupsCounted(chains);
  }

  /** Once a lookup has failed, the ancestor lists stay failed. */
  lemma {:induction false} AncestorListsErrorSticks(store: Store, hpoList: seq<TermId>, i: nat, n: nat,
                                                    rank: TermId -> nat)
    requires Ranked(store, rank) && i <= n <= |hpoList|
    requires AncestorLists(store, hpoList, i, rank).Err?
    ensures AncestorLists(store, hpoList, n, rank) == AncestorLists(store, hpoList, i, rank)
    decreases n - i
  {
    if i < n {
      AncestorListsErrorSticks(store, hpoList, i + 1, n, rank);
    }
  }
}
