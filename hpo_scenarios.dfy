/** Three queries to `get_min_graph` on one small ontology, worked out by
    proof. They show how the walk treats an ancestor whose count does not beat
    the count of the term being walked, what happens when a term and its
    ancestors are all inputs, and how a repeated input that an earlier walk
    already emitted is left out.

    The ontology: `R` is the root, `A` and `B` are children of `R`, and `C`
    is a child of `A`. */
module HpoScenarios {
  import opened Text
  import opened Hpo
  import opened HpoCounting
  import opened HpoMinGraph

  const Sample: Store := map["R" := None, "A" := Some("R"), "B" := Some("R"), "C" := Some("A")]

  /** The depth of a term: a rank that first parents strictly lower. */
  function Depth(t: TermId): nat
  {
    if t == "C" then 2 else if t == "A" || t == "B" then 1 else 0
  }

  /** A single parent id without ';' is read back as itself. */
  lemma ParentsOfOne(p: TermId)
    requires p != "" && ';' !in p
    ensures Parents(Some(p)) == [p]
  {
    SplitJoin([p], ';');
  }

  lemma SampleParents()
    ensures ParentsOf(Sample, "R") == [] && ParentsOf(Sample, "A") == ["R"]
    ensures ParentsOf(Sample, "B") == ["R"] && ParentsOf(Sample, "C") == ["A"]
  {
    ParentsOfOne("R");
    ParentsOfOne("A");
  }

  lemma SampleRanked()
    ensures Ranked(Sample, Depth)
  {
    SampleParents();
    assert Sample.Keys == {"R", "A", "B", "C"};
    assert RankedAt(Sample, Depth, "R") && RankedAt(Sample, Depth, "A");
    assert RankedAt(Sample, Depth, "B") && RankedAt(Sample, Depth, "C");
  }

  /** The chains `[h] + get_ancestors(h)` of the sample. */
  lemma SampleAncestors()
    ensures Ranked(Sample, Depth)
    ensures Ancestors(Sample, "R", Depth) == Ok([])
    ensures Ancestors(Sample, "A", Depth) == Ok(["R"])
    ensures Ancestors(Sample, "B", Depth) == Ok(["R"])
    ensures Ancestors(Sample, "C", Depth) == Ok(["A", "R"])
  {
    SampleRanked();
    SampleParents();
    AncestorsOfRoot(Sample, "R", Depth);
    AncestorsUnfold(Sample, "A", Depth);
    AncestorsUnfold(Sample, "B", Depth);
    AncestorsUnfold(Sample, "C", Depth);
    assert ["R"] + [] == ["R"];
    assert ["A"] + ["R"] == ["A", "R"];
  }

  /** The count of each id over the chains `C A R` and `B R`. */
  predicate SkipCounts(counts: map<TermId, nat>)
  {
    && "C" in counts && "A" in counts && "R" in counts && "B" in counts
    && counts["C"] == 1 && counts["A"] == 1 && counts["R"] == 2 && counts["B"] == 1
  }

  /** Walking `C A R` from the count of `C`: `A` is met with the same count
      as `C` and is skipped, so `C` is linked straight to `R`. */
  lemma SkipFirstChain(counts: map<TermId, nat>)
    requires SkipCounts(counts)
    ensures ChainCounted(["C", "A", "R"], counts)
    ensures WalkChain(Cursor([], {}, 1), ["C", "A", "R"], counts, 3)
         == Cursor([Node("C", Parent("R")), Node("R", NoParent)], {"R"}, 2)
  {
    var chain: seq<TermId> := ["C", "A", "R"];
    var st := Cursor([], {}, 1);
    assert WalkChain(st, chain, counts, 1) == Cursor([Node("C", NoParent)], {}, 1);
    assert WalkChain(st, chain, counts, 2) == Cursor([Node("C", NoParent)], {}, 1);
  }

  /** Walking `B R` next: `B` is emitted and linked to the `R` already seen. */
  lemma SkipSecondChain(counts: map<TermId, nat>)
    requires SkipCounts(counts)
    ensures ChainCounted(["B", "R"], counts)
    ensures SeenEmitted([Node("C", Parent("R")), Node("R", NoParent)], {"R"})
    ensures WalkChain(Cursor([Node("C", Parent("R")), Node("R", NoParent)], {"R"}, 1), ["B", "R"], counts, 2)
         == Cursor([Node("C", Parent("R")), Node("R", NoParent), Node("B", Parent("R"))], {"R"}, 2)
  {
    var result := [Node("C", Parent("R")), Node("R", NoParent)];
    assert Ids(result) == ["C", "R"];
    var st := Cursor(result, {"R"}, 1);
    assert WalkChain(st, ["B", "R"], counts, 1) == Cursor(result + [Node("B", NoParent)], {"R"}, 1);
  }

  /** The values `counter` meets for the chains `C A R` and `B R`. */
  lemma SkipFlatten(chains: seq<seq<TermId>>)
    requires chains == [["C", "A", "R"], ["B", "R"]]
    ensures Flatten(Groups(chains)) == ["C", "A", "R", "B", "R"]
  {
    var data := Groups(chains);
    assert data == [Many(["C", "A", "R"]), Many(["B", "R"])];
    assert data[..1][..0] == [];
    assert Flatten(data[..1]) == ["C", "A", "R"];
    assert data[..1] == data[..|data| - 1];
    assert Flatten(data) == ["C", "A", "R"] + ["B", "R"];
  }

  /** The counts `counter` computes for the chains `C A R` and `B R`. */
  lemma SkipTally(chains: seq<seq<TermId>>)
    requires chains == [["C", "A", "R"], ["B", "R"]]
    ensures SkipCounts(Tally(Groups(chains)))
  {
    var all: seq<TermId> := ["C", "A", "R", "B", "R"];
    SkipFlatten(chains);
    TallyCounts(Groups(chains));
    assert "C" in all && "A" in all && "R" in all && "B" in all;
    var m := Tally(Groups(chains));
    assert m["C"] == multiset(all)["C"] && m["A"] == multiset(all)["A"];
    assert m["R"] == multiset(all)["R"] && m["B"] == multiset(all)["B"];
    SkipMultiplicities();
  }

  /** The ancestor lists of `C` and `B`. */
  lemma SkipChains()
    ensures Ranked(Sample, Depth)
    ensures AncestorLists(Sample, ["C", "B"], 2, Depth) == Ok([["C", "A", "R"], ["B", "R"]])
  {
    SampleAncestors();
    var hpoList: seq<TermId> := ["C", "B"];
    assert hpoList[0] == "C" && hpoList[1] == "B";
    assert Ancestors(Sample, hpoList[0], Depth) == Ok(["A", "R"]);
    assert Ancestors(Sample, hpoList[1], Depth) == Ok(["R"]);
    var c: seq<TermId> := ["C"] + ["A", "R"];
    assert c == ["C", "A", "R"];
    var b: seq<TermId> := ["B"] + ["R"];
    assert b == ["B", "R"];
    assert AncestorLists(Sample, hpoList, 1, Depth) == Ok([] + [c]);
    assert [] + [c] == [c];
    assert AncestorLists(Sample, hpoList, 2, Depth) == Ok([c] + [b]);
    assert [c] + [b] == [c, b];
  }

  lemma SkipMultiplicities()
    ensures multiset(["C", "A", "R", "B", "R"])["C"] == 1
    ensures multiset(["C", "A", "R", "B", "R"])["A"] == 1
    ensures multiset(["C", "A", "R", "B", "R"])["R"] == 2
    ensures multiset(["C", "A", "R", "B", "R"])["B"] == 1
  {
  }

  /** `get_min_graph(['C', 'B'])` is `C -> R, R, B -> R`: the walk from `C`
      leaves out `A`, whose count equals that of `C`. */
  lemma MinGraphSkipsEqualCount()
    ensures Ranked(Sample, Depth)
    ensures MinGraph(Sample, ["C", "B"], Depth)
         == Ok([Node("C", Parent("R")), Node("R", NoParent), Node("B", Parent("R"))])
  {
    SkipChains();
    var hpoList: seq<TermId> := ["C", "B"];
    var chains: seq<seq<TermId>> := [["C", "A", "R"], ["B", "R"]];
    MinGraphGeneral(Sample, hpoList, Depth, chains);
    var counts := Tally(Groups(chains));
    SkipTally(chains);
    SkipOrder(hpoList, counts);
    SkipWalk(hpoList, chains, counts, [0, 1]);
  }

  /** `C` and `B` have the same count, so they are visited in input order. */
  lemma SkipOrder(hpoList: seq<TermId>, counts: map<TermId, nat>)
    requires hpoList == ["C", "B"] && SkipCounts(counts)
    ensures AllCounted(hpoList, counts) && GetSortedIndex(hpoList, counts) == [0, 1]
  {
    var s: seq<nat> := [0, 1];
    assert counts[hpoList[s[0]]] == 1 && counts[hpoList[s[1]]] == 1;
    assert forall i :: 0 <= i < |hpoList| ==> i in s;
    SortedIndexUnique(hpoList, counts, s);
  }

  /** The walk over `C A R` then `B R`. */
  lemma SkipWalk(hpoList: seq<TermId>, chains: seq<seq<TermId>>, counts: map<TermId, nat>, order: seq<nat>)
    requires hpoList == ["C", "B"] && chains == [["C", "A", "R"], ["B", "R"]] && order == [0, 1]
    requires SkipCounts(counts) && Counted(chains, counts)
    ensures Chained(hpoList, chains)
    ensures WalkAll(hpoList, chains, counts, order, 2).result
         == [Node("C", Parent("R")), Node("R", NoParent), Node("B", Parent("R"))]
  {
    SkipFirstChain(counts);
    SkipSecondChain(counts);
    assert chains[0] == ["C", "A", "R"] && chains[1] == ["B", "R"];
    var g1 := WalkAll(hpoList, chains, counts, order, 1);
    assert g1 == WalkStep(Graph([], {}), chains[0], counts, 1);
    assert g1 == Graph([Node("C", Parent("R")), Node("R", NoParent)], {"R"});
  }

  /** The count of each id over the chains `C A R`, `A R` and `R`. */
  predicate SelfCounts(counts: map<TermId, nat>)
  {
    && "C" in counts && "A" in counts && "R" in counts
    && counts["C"] == 1 && counts["A"] == 2 && counts["R"] == 3
  }

  /** The ancestor lists of `C`, `A` and `R`. */
  lemma SelfChains()
    ensures Ranked(Sample, Depth)
    ensures AncestorLists(Sample, ["C", "A", "R"], 3, Depth) == Ok([["C", "A", "R"], ["A", "R"], ["R"]])
  {
    SampleAncestors();
    var hpoList: seq<TermId> := ["C", "A", "R"];
    assert hpoList[0] == "C" && hpoList[1] == "A" && hpoList[2] == "R";
    var c: seq<TermId> := ["C"] + ["A", "R"];
    assert c == ["C", "A", "R"];
    var a: seq<TermId> := ["A"] + ["R"];
    assert a == ["A", "R"];
    var r: seq<TermId> := ["R"] + [];
    assert r == ["R"];
    assert AncestorLists(Sample, hpoList, 1, Depth) == Ok([] + [c]);
    assert [] + [c] == [c];
    assert AncestorLists(Sample, hpoList, 2, Depth) == Ok([c] + [a]);
    assert [c] + [a] == [c, a];
    assert AncestorLists(Sample, hpoList, 3, Depth) == Ok([c, a] + [r]);
    assert [c, a] + [r] == [c, a, r];
  }

  /** The values `counter` meets for the chains `C A R`, `A R` and `R`. */
  lemma SelfFlatten(chains: seq<seq<TermId>>)
    requires chains == [["C", "A", "R"], ["A", "R"], ["R"]]
    ensures Flatten(Groups(chains)) == ["C", "A", "R", "A", "R", "R"]
  {
    var data := Groups(chains);
    assert data == [Many(["C", "A", "R"]), Many(["A", "R"]), Many(["R"])];
    assert data[..1][..0] == [];
    assert Flatten(data[..1]) == ["C", "A", "R"];
    assert data[..2][..1] == data[..1];
    assert Flatten(data[..2]) == ["C", "A", "R"] + ["A", "R"];
    assert data[..2] == data[..|data| - 1];
    assert Flatten(data) == ["C", "A", "R", "A", "R"] + ["R"];
  }

  /** The counts `counter` computes for the chains `C A R`, `A R` and `R`. */
  lemma SelfTally(chains: seq<seq<TermId>>)
    requires chains == [["C", "A", "R"], ["A", "R"], ["R"]]
    ensures SelfCounts(Tally(Groups(chains)))
  {
    var all: seq<TermId> := ["C", "A", "R", "A", "R", "R"];
    SelfFlatten(chains);
    TallyCounts(Groups(chains));
    assert "C" in all && "A" in all && "R" in all;
    var m := Tally(Groups(chains));
    assert m["C"] == multiset(all)["C"] && m["A"] == multiset(all)["A"] && m["R"] == multiset(all)["R"];
    SelfMultiplicities();
  }

  lemma SelfMultiplicities()
    ensures multiset(["C", "A", "R", "A", "R", "R"])["C"] == 1
    ensures multiset(["C", "A", "R", "A", "R", "R"])["A"] == 2
    ensures multiset(["C", "A", "R", "A", "R", "R"])["R"] == 3
  {
  }

  /** The terms are visited from `C` (count 1) to `R` (count 3). */
  lemma SelfOrder(hpoList: seq<TermId>, counts: map<TermId, nat>)
    requires hpoList == ["C", "A", "R"] && SelfCounts(counts)
    ensures AllCounted(hpoList, counts) && GetSortedIndex(hpoList, counts) == [0, 1, 2]
  {
    var s: seq<nat> := [0, 1, 2];
    assert counts[hpoList[s[0]]] == 1 && counts[hpoList[s[1]]] == 2 && counts[hpoList[s[2]]] == 3;
    assert forall i :: 0 <= i < |hpoList| ==> i in s;
    SortedIndexUnique(hpoList, counts, s);
  }

  /** Walking `C A R`: each ancestor beats the count before it, so the
      chain is emitted and linked in full. */
  lemma SelfFirstChain(counts: map<TermId, nat>)
    requires SelfCounts(counts)
    ensures ChainCounted(["C", "A", "R"], counts)
    ensures WalkChain(Cursor([], {}, 1), ["C", "A", "R"], counts, 3)
         == Cursor([Node("C", Parent("A")), Node("A", Parent("R")), Node("R", NoParent)], {"A", "R"}, 3)
  {
    var chain: seq<TermId> := ["C", "A", "R"];
    var c2 := Cursor([Node("C", Parent("A")), Node("A", NoParent)], {"A"}, 2);
    SelfFirstTwo(counts);
    SelfReachRoot(counts, c2);
    assert WalkChain(Cursor([], {}, 1), chain, counts, 3) == Visit(c2, 2, "R", counts);
  }

  /** The first two steps along `C A R`: `C` is emitted, then `A` beats the
      count of `C`, so `C` is linked to `A` and `A` is emitted. */
  lemma SelfFirstTwo(counts: map<TermId, nat>)
    requires SelfCounts(counts)
    ensures ChainCounted(["C", "A", "R"], counts)
    ensures WalkChain(Cursor([], {}, 1), ["C", "A", "R"], counts, 2)
         == Cursor([Node("C", Parent("A")), Node("A", NoParent)], {"A"}, 2)
  {
    var chain: seq<TermId> := ["C", "A", "R"];
    assert WalkChain(Cursor([], {}, 1), chain, counts, 1) == Cursor([Node("C", NoParent)], {}, 1);
  }

  /** The last step along `C A R`: `R` beats the count of `A`. */
  lemma SelfReachRoot(counts: map<TermId, nat>, c2: Cursor)
    requires SelfCounts(counts) && c2 == Cursor([Node("C", Parent("A")), Node("A", NoParent)], {"A"}, 2)
    ensures SeenEmitted(c2.result, c2.seen)
    ensures Visit(c2, 2, "R", counts)
         == Cursor([Node("C", Parent("A")), Node("A", Parent("R")), Node("R", NoParent)], {"A", "R"}, 3)
  {
    assert Ids(c2.result) == ["C", "A"];
    assert "R" !in c2.seen;
    assert Relink(c2.result, "R") == [Node("C", Parent("A")), Node("A", Parent("R"))];
  }

  /** Walking `A R` next: `A` was seen and `R` beats the count of `A`, so the
      last node emitted, which is `R` itself, gets `R` as its parent. */
  lemma SelfSecondChain(counts: map<TermId, nat>)
    requires SelfCounts(counts)
    ensures ChainCounted(["A", "R"], counts)
    ensures SeenEmitted([Node("C", Parent("A")), Node("A", Parent("R")), Node("R", NoParent)], {"A", "R"})
    ensures WalkChain(Cursor([Node("C", Parent("A")), Node("A", Parent("R")), Node("R", NoParent)], {"A", "R"}, 2),
                      ["A", "R"], counts, 2)
         == Cursor([Node("C", Parent("A")), Node("A", Parent("R")), Node("R", Parent("R"))], {"A", "R"}, 3)
  {
    var result := [Node("C", Parent("A")), Node("A", Parent("R")), Node("R", NoParent)];
    assert Ids(result) == ["C", "A", "R"];
    var st := Cursor(result, {"A", "R"}, 2);
    assert WalkChain(st, ["A", "R"], counts, 1) == st;
  }

  /** Walking `R` last changes nothing: `R` was seen and its count is the
      running count. */
  lemma SelfThirdChain(counts: map<TermId, nat>)
    requires SelfCounts(counts)
    ensures ChainCounted(["R"], counts)
    ensures SeenEmitted([Node("C", Parent("A")), Node("A", Parent("R")), Node("R", Parent("R"))], {"A", "R"})
    ensures WalkChain(Cursor([Node("C", Parent("A")), Node("A", Parent("R")), Node("R", Parent("R"))], {"A", "R"}, 3),
                      ["R"], counts, 1)
         == Cursor([Node("C", Parent("A")), Node("A", Parent("R")), Node("R", Parent("R"))], {"A", "R"}, 3)
  {
    var result := [Node("C", Parent("A")), Node("A", Parent("R")), Node("R", Parent("R"))];
    assert Ids(result) == ["C", "A", "R"];
  }

  /** The walk over `C A R`, `A R` and `R`. */
  lemma SelfWalk(hpoList: seq<TermId>, chains: seq<seq<TermId>>, counts: map<TermId, nat>, order: seq<nat>)
    requires hpoList == ["C", "A", "R"] && chains == [["C", "A", "R"], ["A", "R"], ["R"]] && order == [0, 1, 2]
    requires SelfCounts(counts) && Counted(chains, counts)
    ensures Chained(hpoList, chains)
    ensures WalkAll(hpoList, chains, counts, order, 3).result
         == [Node("C", Parent("A")), Node("A", Parent("R")), Node("R", Parent("R"))]
  {
    SelfFirstChain(counts);
    SelfSecondChain(counts);
    SelfThirdChain(counts);
    assert chains[0] == ["C", "A", "R"] && chains[1] == ["A", "R"] && chains[2] == ["R"];
    var g1 := WalkAll(hpoList, chains, counts, order, 1);
    assert g1 == WalkStep(Graph([], {}), chains[0], counts, 1);
    assert g1 == Graph([Node("C", Parent("A")), Node("A", Parent("R")), Node("R", NoParent)], {"A", "R"});
    var g2 := WalkAll(hpoList, chains, counts, order, 2);
    assert g2 == WalkStep(g1, chains[1], counts, 2);
    assert g2 == Graph([Node("C", Parent("A")), Node("A", Parent("R")), Node("R", Parent("R"))], {"A", "R"});
    assert WalkAll(hpoList, chains, counts, order, 3) == WalkStep(g2, chains[2], counts, 3);
  }

  /** `get_min_graph(['C', 'A', 'R'])` is `C -> A, A -> R, R -> R`: when the
      root is an input too, the walk from `A` reaches `R` while the last node
      emitted is `R` itself, which is then linked to itself. */
  lemma MinGraphSelfLink()
    ensures Ranked(Sample, Depth)
    ensures MinGraph(Sample, ["C", "A", "R"], Depth)
         == Ok([Node("C", Parent("A")), Node("A", Parent("R")), Node("R", Parent("R"))])
  {
    SelfChains();
    var hpoList: seq<TermId> := ["C", "A", "R"];
    var chains: seq<seq<TermId>> := [["C", "A", "R"], ["A", "R"], ["R"]];
    MinGraphGeneral(Sample, hpoList, Depth, chains);
    var counts := Tally(Groups(chains));
    SelfTally(chains);
    SelfOrder(hpoList, counts);
    SelfWalk(hpoList, chains, counts, [0, 1, 2]);
  }

  /** The count of each id over the chains `C A R`, `A R` and `A R`. */
  predicate RepeatCounts(counts: map<TermId, nat>)
  {
    && "C" in counts && "A" in counts && "R" in counts
    && counts["C"] == 1 && counts["A"] == 3 && counts["R"] == 3
  }

  /** The ancestor lists of `C`, `A` and `A`. */
  lemma RepeatChains()
    ensures Ranked(Sample, Depth)
    ensures AncestorLists(Sample, ["C", "A", "A"], 3, Depth) == Ok([["C", "A", "R"], ["A", "R"], ["A", "R"]])
  {
    SampleAncestors();
    var hpoList: seq<TermId> := ["C", "A", "A"];
    assert hpoList[0] == "C" && hpoList[1] == "A" && hpoList[2] == "A";
    var c: seq<TermId> := ["C"] + ["A", "R"];
    assert c == ["C", "A", "R"];
    var a: seq<TermId> := ["A"] + ["R"];
    assert a == ["A", "R"];
    assert AncestorLists(Sample, hpoList, 1, Depth) == Ok([] + [c]);
    assert [] + [c] == [c];
    assert AncestorLists(Sample, hpoList, 2, Depth) == Ok([c] + [a]);
    assert [c] + [a] == [c, a];
    assert AncestorLists(Sample, hpoList, 3, Depth) == Ok([c, a] + [a]);
    assert [c, a] + [a] == [c, a, a];
  }

  /** The values `counter` meets for the chains `C A R`, `A R` and `A R`. */
  lemma RepeatFlatten(chains: seq<seq<TermId>>)
    requires chains == [["C", "A", "R"], ["A", "R"], ["A", "R"]]
    ensures Flatten(Groups(chains)) == ["C", "A", "R", "A", "R", "A", "R"]
  {
    var data := Groups(chains);
    assert data == [Many(["C", "A", "R"]), Many(["A", "R"]), Many(["A", "R"])];
    assert data[..1][..0] == [];
    assert Flatten(data[..1]) == ["C", "A", "R"];
    assert data[..2][..1] == data[..1];
    assert Flatten(data[..2]) == ["C", "A", "R"] + ["A", "R"];
    assert data[..2] == data[..|data| - 1];
    assert Flatten(data) == ["C", "A", "R", "A", "R"] + ["A", "R"];
  }

  /** The counts `counter` computes for the chains `C A R`, `A R` and `A R`. */
  lemma RepeatTally(chains: seq<seq<TermId>>)
    requires chains == [["C", "A", "R"], ["A", "R"], ["A", "R"]]
    ensures RepeatCounts(Tally(Groups(chains)))
  {
    var all: seq<TermId> := ["C", "A", "R", "A", "R", "A", "R"];
    RepeatFlatten(chains);
    TallyCounts(Groups(chains));
    assert "C" in all && "A" in all && "R" in all;
    var m := Tally(Groups(chains));
    assert m["C"] == multiset(all)["C"] && m["A"] == multiset(all)["A"] && m["R"] == multiset(all)["R"];
    RepeatMultiplicities();
  }

  lemma RepeatMultiplicities()
    ensures multiset(["C", "A", "R", "A", "R", "A", "R"])["C"] == 1
    ensures multiset(["C", "A", "R", "A", "R", "A", "R"])["A"] == 3
    ensures multiset(["C", "A", "R", "A", "R", "A", "R"])["R"] == 3
  {
  }

  /** `C` comes first (count 1), then the two `A`s (count 3) in input order. */
  lemma RepeatOrder(hpoList: seq<TermId>, counts: map<TermId, nat>)
    requires hpoList == ["C", "A", "A"] && RepeatCounts(counts)
    ensures AllCounted(hpoList, counts) && GetSortedIndex(hpoList, counts) == [0, 1, 2]
  {
    var s: seq<nat> := [0, 1, 2];
    assert counts[hpoList[s[0]]] == 1 && counts[hpoList[s[1]]] == 3 && counts[hpoList[s[2]]] == 3;
    assert forall i :: 0 <= i < |hpoList| ==> i in s;
    SortedIndexUnique(hpoList, counts, s);
  }

  /** Walking `C A R`: `A` beats the count of `C`, so `C` is linked to `A`
      and `A` is emitted and seen; `R` only ties with `A` and is skipped. */
  lemma RepeatFirstChain(counts: map<TermId, nat>)
    requires RepeatCounts(counts)
    ensures ChainCounted(["C", "A", "R"], counts)
    ensures WalkChain(Cursor([], {}, 1), ["C", "A", "R"], counts, 3)
         == Cursor([Node("C", Parent("A")), Node("A", NoParent)], {"A"}, 3)
  {
    var chain: seq<TermId> := ["C", "A", "R"];
    assert WalkChain(Cursor([], {}, 1), chain, counts, 1) == Cursor([Node("C", NoParent)], {}, 1);
    var c2 := Cursor([Node("C", Parent("A")), Node("A", NoParent)], {"A"}, 3);
    assert WalkChain(Cursor([], {}, 1), chain, counts, 2) == c2;
    assert WalkChain(Cursor([], {}, 1), chain, counts, 3) == Visit(c2, 2, "R", counts);
  }

  /** Walking `A R` after that changes nothing: `A` is already seen, so it is
      not emitted again, and neither `A` nor `R` beats the running count. */
  lemma RepeatLaterChain(counts: map<TermId, nat>)
    requires RepeatCounts(counts)
    ensures ChainCounted(["A", "R"], counts)
    ensures SeenEmitted([Node("C", Parent("A")), Node("A", NoParent)], {"A"})
    ensures WalkChain(Cursor([Node("C", Parent("A")), Node("A", NoParent)], {"A"}, 3), ["A", "R"], counts, 2)
         == Cursor([Node("C", Parent("A")), Node("A", NoParent)], {"A"}, 3)
  {
    var result := [Node("C", Parent("A")), Node("A", NoParent)];
    assert Ids(result) == ["C", "A"];
    var st := Cursor(result, {"A"}, 3);
    assert WalkChain(st, ["A", "R"], counts, 1) == st;
  }

  /** The walk over `C A R`, `A R` and `A R`. */
  lemma RepeatWalk(hpoList: seq<TermId>, chains: seq<seq<TermId>>, counts: map<TermId, nat>, order: seq<nat>)
    requires hpoList == ["C", "A", "A"] && chains == [["C", "A", "R"], ["A", "R"], ["A", "R"]] && order == [0, 1, 2]
    requires RepeatCounts(counts) && Counted(chains, counts)
    ensures Chained(hpoList, chains)
    ensures WalkAll(hpoList, chains, counts, order, 3).result == [Node("C", Parent("A")), Node("A", NoParent)]
  {
    RepeatFirstChain(counts);
    RepeatLaterChain(counts);
    assert chains[0] == ["C", "A", "R"] && chains[1] == ["A", "R"] && chains[2] == ["A", "R"];
    var g := Graph([Node("C", Parent("A")), Node("A", NoParent)], {"A"});
    var g1 := WalkAll(hpoList, chains, counts, order, 1);
    assert g1 == WalkStep(Graph([], {}), chains[0], counts, 1);
    assert g1 == g;
    var g2 := WalkAll(hpoList, chains, counts, order, 2);
    assert g2 == WalkStep(g1, chains[1], counts, 3);
    assert g2 == g;
    assert WalkAll(hpoList, chains, counts, order, 3) == WalkStep(g2, chains[2], counts, 3);
  }

  /** `get_min_graph(['C', 'A', 'A'])` is `C -> A, A`: the walk from `C`
      already emits `A`, so neither occurrence of `A` as an input gets a node
      of its own, and `R`, which only ties with `A`, gets none at all. */
  lemma MinGraphRepeatedAncestor()
    ensures Ranked(Sample, Depth)
    ensures MinGraph(Sample, ["C", "A", "A"], Depth) == Ok([Node("C", Parent("A")), Node("A", NoParent)])
  {
    RepeatChains();
    var hpoList: seq<TermId> := ["C", "A", "A"];
    var chains: seq<seq<TermId>> := [["C", "A", "R"], ["A", "R"], ["A", "R"]];
    MinGraphGeneral(Sample, hpoList, Depth, chains);
    var counts := Tally(Groups(chains));
    RepeatTally(chains);
    RepeatOrder(hpoList, counts);
    RepeatWalk(hpoList, chains, counts, [0, 1, 2]);
  }
}
