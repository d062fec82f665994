/**
 * Evolution stages. `parents` maps each pokemon id of an evolution chain to
 * its parent id (or `None` for a base form). A base form is stage 1, an
 * evolution is one more than its parent, and `None` itself is stage 0. A
 * parent that has no rows of its own (a pre-evolution introduced in a later
 * game) counts as stage 1 in pokemon.py and is a lookup failure in
 * dump_evchain.py; `StageOf` is the pokemon.py reading.
 *
 * Both programs recurse on the parent without a depth bound, so they only
 * terminate on acyclic maps. Acyclicity is stated with a ghost `rank` that
 * strictly decreases from every key to its parent, when that parent is a key.
 */
module Stages {
  import opened Wrappers
  import opened Grouping

  type Parents = map<Id, Option<Id>>

  /** Every key is ranked, and a parent that is a key ranks strictly below its child. */
  ghost predicate Ranked(parents: Parents, rank: map<Id, nat>)
  {
    forall id :: id in parents ==>
      id in rank &&
      (parents[id].Some? && parents[id].value in parents ==>
         parents[id].value in rank && rank[parents[id].value] < rank[id])
  }

  /** How far `id` is from the end of its parent chain. */
  ghost function Measure(parents: Parents, rank: map<Id, nat>, id: Option<Id>): nat
  {
    match id
    case None => 0
    case Some(x) => if x in parents && x in rank then rank[x] + 1 else 0
  }

  /** The stage of `id`: 0 for `None`, 1 for an id without rows, one more than the parent otherwise. */
  function StageOf(parents: Parents, ghost rank: map<Id, nat>, id: Option<Id>): (s: nat)
    requires Ranked(parents, rank)
    ensures id.Some? ==> s >= 1
    decreases Measure(parents, rank, id)
  {
    match id
    case None => 0
    case Some(x) =>
      if x !in parents then 1 else 1 + StageOf(parents, rank, parents[x])
  }

  /** Following parents from `id` never leaves `parents` before reaching `None`. */
  ghost predicate Closed(parents: Parents, rank: map<Id, nat>, id: Option<Id>)
    requires Ranked(parents, rank)
    decreases Measure(parents, rank, id)
  {
    match id
    case None => true
    case Some(x) => x in parents && Closed(parents, rank, parents[x])
  }

  /** On a chain that leaves `parents`, the first id that is not a key. */
  ghost function MissingAncestor(parents: Parents, rank: map<Id, nat>, id: Option<Id>): (m: Id)
    requires Ranked(parents, rank)
    requires !Closed(parents, rank, id)
    ensures m !in parents
    decreases Measure(parents, rank, id)
  {
    if id.value !in parents then id.value else MissingAncestor(parents, rank, parents[id.value])
  }

  /** Every parent that is not `None` is itself a key. */
  ghost predicate ParentsPresent(parents: Parents)
  {
    forall id :: id in parents && parents[id].Some? ==> parents[id].value in parents
  }

  /** All chains from the keys stay inside `parents` exactly when every named parent is a key. */
  lemma ClosedIffPresent(parents: Parents, rank: map<Id, nat>)
    requires Ranked(parents, rank)
    ensures (forall id :: id in parents ==> Closed(parents, rank, Some(id))) <==> ParentsPresent(parents)
  {
    if ParentsPresent(parents) {
      forall id | id in parents
        ensures Closed(parents, rank, Some(id))
      {
        PresentClosed(parents, rank, Some(id));
      }
    }
  }

  lemma {:induction false} PresentClosed(parents: Parents, rank: map<Id, nat>, id: Option<Id>)
    requires Ranked(parents, rank)
    requires ParentsPresent(parents)
    requires id.Some? ==> id.value in parents
    ensures Closed(parents, rank, id)
    decreases Measure(parents, rank, id)
  {
    if id.Some? {
      PresentClosed(parents, rank, parents[id.value]);
    }
  }

  /** The missing ancestor of a key is a named parent of some key that has no rows of its own. */
  lemma {:induction false} MissingAncestorIsParent(parents: Parents, rank: map<Id, nat>, id: Id)
    requires Ranked(parents, rank)
    requires id in parents
    requires !Closed(parents, rank, Some(id))
    ensures exists k :: k in parents && parents[k] == Some(MissingAncestor(parents, rank, Some(id)))
    decreases Measure(parents, rank, Some(id))
  {
    var p := parents[id];
    if p.value !in parents {
      assert parents[id] == Some(MissingAncestor(parents, rank, Some(id)));
    } else {
      MissingAncestorIsParent(parents, rank, p.value);
    }
  }
}
