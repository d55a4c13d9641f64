/** The term lookup and `get_ancestors` of `Hpo.py`. The SQLite table
    behind `SELECT * FROM hpo WHERE id = ?` is replaced by a map from a term
    id to the text stored in its `is_a` column, the only column these
    operations read. */
module Hpo {
  import opened Text
  import OboLoader

  type TermId = string

  /** The `hpo` table as seen through a lookup by id: the stored `is_a`
      column of every term (`None` is NULL). */
  type Store = map<TermId, Option<string>>

  /** `fetchone()` returned no row: the record cannot be built. */
  datatype Error = NotFound(id: TermId)

  datatype Result<T> = Ok(value: T) | Err(error: Error)

  /** The direct parents read from an `is_a` column: nothing when the column
      is NULL or empty (Python treats both as false), otherwise the pieces
      between the semicolons. */
  function Parents(isA: Option<string>): (ps: seq<TermId>)
    ensures ps == [] <==> isA == None || isA == Some("")
    ensures ps != [] ==> Join(ps, ';') == isA.value && NoSeparator(ps, ';')
  {
    if isA.Some? && isA.value != "" then
      JoinSplit(isA.value, ';');
      Split(isA.value, ';')
    else []
  }

  /** The parents of a term that is in the store. */
  function ParentsOf(store: Store, t: TermId): seq<TermId>
    requires t in store
  {
    Parents(store[t])
  }

  /** The walk of `get_ancestors` terminates: following first parents
      strictly lowers `rank`. This is what an acyclic ontology gives; it is
      assumed, not checked, by the source. */
  ghost predicate Ranked(store: Store, rank: TermId -> nat)
  {
    forall t {:trigger RankedAt(store, rank, t)} :: t in store ==> RankedAt(store, rank, t)
  }

  /** The first parent of `t`, if any, has a lower rank than `t`. */
  ghost predicate RankedAt(store: Store, rank: TermId -> nat, t: TermId)
    requires t in store
  {
    ParentsOf(store, t) != [] ==> rank(ParentsOf(store, t)[0]) < rank(t)
  }

  /** `get_ancestors(hpo_id, result)`: appends ALL direct parents of the
      term to `result`, then recurses on the FIRST parent only (the `return`
      inside the `for` loop); stops at a term without parents. A missing id
      on any hop is an error. */
  function GetAncestors(store: Store, hpoId: TermId, result: seq<TermId>, ghost rank: TermId -> nat)
    : (r: Result<seq<TermId>>)
    requires Ranked(store, rank)
    ensures r.Ok? ==> result <= r.value
    ensures r.Err? ==> r.error.id !in store
    decreases rank(hpoId)
  {
    if hpoId !in store then Err(NotFound(hpoId))
    else
      var ancestors := ParentsOf(store, hpoId);
      assert RankedAt(store, rank, hpoId);
      if ancestors != [] then GetAncestors(store, ancestors[0], result + ancestors, rank)
      else Ok(result)
  }

  /** `get_ancestors(hpo_id)` with the default empty accumulator. */
  function Ancestors(store: Store, hpoId: TermId, ghost rank: TermId -> nat): (r: Result<seq<TermId>>)
    requires Ranked(store, rank)
    ensures r.Err? ==> r.error.id !in store
  {
    GetAncestors(store, hpoId, [], rank)
  }

  /** `ps + _` on a successful result. */
  function Prepend(ps: seq<TermId>, r: Result<seq<TermId>>): Result<seq<TermId>>
  {
    match r
    case Ok(v) => Ok(ps + v)
    case Err(e) => Err(e)
  }

  /** The accumulator only prefixes the result. */
  lemma {:induction false} GetAncestorsAccumulates(store: Store, t: TermId, acc: seq<TermId>, rank: TermId -> nat)
    requires Ranked(store, rank)
    ensures GetAncestors(store, t, acc, rank) == Prepend(acc, Ancestors(store, t, rank))
    decreases rank(t)
  {
    if t in store && ParentsOf(store, t) != [] {
      var ps := ParentsOf(store, t);
      assert RankedAt(store, rank, t);
      assert GetAncestors(store, t, acc, rank) == GetAncestors(store, ps[0], acc + ps, rank);
      assert [] + ps == ps;
      assert Ancestors(store, t, rank) == GetAncestors(store, ps[0], ps, rank);
      GetAncestorsAccumulates(store, ps[0], acc + ps, rank);
      GetAncestorsAccumulates(store, ps[0], ps, rank);
      match Ancestors(store, ps[0], rank)
      case Err(_) =>
      case Ok(v) => assert (acc + ps) + v == acc + (ps + v);
    } else {
      assert acc + [] == acc;
    }
  }

  /** A term whose `is_a` is NULL or empty has no ancestors. */
  lemma AncestorsOfRoot(store: Store, t: TermId, rank: TermId -> nat)
    requires Ranked(store, rank) && t in store && ParentsOf(store, t) == []
    ensures Ancestors(store, t, rank) == Ok([])
  {
  }

  /** An id that is not in the store fails the lookup. */
  lemma AncestorsOfMissing(store: Store, t: TermId, rank: TermId -> nat)
    requires Ranked(store, rank) && t !in store
    ensures Ancestors(store, t, rank) == Err(NotFound(t))
  {
  }

  /** All direct parents come first, then the ancestors of the first parent
      only: `anc(T) == parents(T) + anc(parents(T)[0])`. */
  lemma AncestorsUnfold(store: Store, t: TermId, rank: TermId -> nat)
    requires Ranked(store, rank) && t in store && ParentsOf(store, t) != []
    ensures Ancestors(store, t, rank)
         == Prepend(ParentsOf(store, t), Ancestors(store, ParentsOf(store, t)[0], rank))
  {
    var ps := ParentsOf(store, t);
    assert Ancestors(store, t, rank) == GetAncestors(store, ps[0], [] + ps, rank);
    assert [] + ps == ps;
    GetAncestorsAccumulates(store, ps[0], ps, rank);
  }

  /** For a term with exactly one parent `p`, the ancestors are `p` followed
      by the ancestors of `p`; with several parents the second one is listed
      but never followed. */
  lemma AncestorsOfOneParent(store: Store, t: TermId, p: TermId, rank: TermId -> nat)
    requires Ranked(store, rank) && t in store && ParentsOf(store, t) == [p]
    requires Ancestors(store, p, rank).Ok?
    ensures Ancestors(store, t, rank).Ok?
    ensures Ancestors(store, t, rank).value[0] == p
    ensures Ancestors(store, t, rank).value[1..] == Ancestors(store, p, rank).value
  {
    AncestorsUnfold(store, t, rank);
  }

  /** Reading back what the loader wrote: for a term whose `is_a` values are
      free of ';' and not the single empty string, the parents seen by the
      lookup are exactly those values, in order; a term without `is_a` has
      no parents. */
  lemma ParentsOfLoadedTerm(rec: OboLoader.Record)
    requires NoSeparator(rec.isAs, ';') && rec.isAs != [""]
    ensures Parents(OboLoader.WriteToDb(rec).isA) == rec.isAs
  {
    var row := OboLoader.WriteToDb(rec);
    if rec.isAs != [] {
      JoinEmpty(rec.isAs, ';');
      assert row.isA == Some(Join(rec.isAs, ';'));
      SplitJoin(rec.isAs, ';');
    }
  }

  /** A single `is_a` value that is empty after comment stripping is stored
      as the empty string, which reads back as no parents at all. */
  lemma ParentsOfEmptyIsA(rec: OboLoader.Record)
    requires rec.isAs == [""]
    ensures Parents(OboLoader.WriteToDb(rec).isA) == []
  {
    assert Join(rec.isAs, ';') == "";
  }
}
