/**
 * dump_evchain.py: `extract_moves` groups rows and sorts movesets by stage
 * like `moves_from_evid`, but its nested `stage` differs. It looks the id up
 * in `parents` unguarded, so an id with no rows raises `KeyError`; the
 * `except IndexError` around the lookup never catches that, so the
 * `ValueError('no parent')` it would raise is unreachable. It reads the memo
 * only for the parent, recurses without writing the memo, and the memo is
 * written only by the top-level loop.
 */
module EvChain {
  import opened Wrappers
  import opened Grouping
  import opened Stages
  import StableSort
  import Pokemon

  /** Every memoised id has a closed chain and its true stage. */
  ghost predicate ClosedSound(parents: Parents, rank: map<Id, nat>, memo: Pokemon.Memo)
    requires Ranked(parents, rank)
  {
    forall k :: k in memo ==> Closed(parents, rank, k) && memo[k] == StageOf(parents, rank, k)
  }

  /**
   * The nested `stage(id)`: it succeeds exactly when the parent chain from
   * `id` stays inside `parents`, with the same stage as pokemon.py, and
   * otherwise fails on the first id of the chain that has no rows.
   */
  function Stage(parents: Parents, ghost rank: map<Id, nat>, memo: Pokemon.Memo, id: Option<Id>): (r: Result<nat, PyError>)
    requires Ranked(parents, rank)
    requires ClosedSound(parents, rank, memo)
    ensures r.Success? <==> Closed(parents, rank, id)
    ensures r.Success? ==> r.value == StageOf(parents, rank, id)
    ensures r.Failure? ==> r.error == KeyError(MissingAncestor(parents, rank, id))
    decreases Measure(parents, rank, id)
  {
    match id
    case None => Success(0)
    case Some(x) =>
      if x !in parents then Failure(KeyError(x))
      else
        var p := parents[x];
        if p in memo then Success(1 + memo[p])
        else
          match Stage(parents, rank, memo, p)
          case Success(v) => Success(1 + v)
          case Failure(e) => Failure(e)
  }

  /** The loop `stages[id] = stage(id)` over the keys in the order given; the first failure escapes. */
  function FillStages(parents: Parents, ghost rank: map<Id, nat>, keys: seq<Id>, memo: Pokemon.Memo): (r: Result<Pokemon.Memo, PyError>)
    requires Ranked(parents, rank)
    requires ClosedSound(parents, rank, memo)
    ensures r.Success? <==> forall i :: 0 <= i < |keys| ==> Closed(parents, rank, Some(keys[i]))
    ensures r.Success? ==>
              ClosedSound(parents, rank, r.value) && memo.Keys <= r.value.Keys &&
              forall i :: 0 <= i < |keys| ==> Some(keys[i]) in r.value
    ensures r.Failure? ==>
              exists i :: 0 <= i < |keys| && !Closed(parents, rank, Some(keys[i])) &&
                          r.error == KeyError(MissingAncestor(parents, rank, Some(keys[i])))
    decreases |keys|
  {
    if keys == [] then Success(memo)
    else
      match Stage(parents, rank, memo, Some(keys[0]))
      case Failure(e) => Failure(e)
      case Success(v) =>
        var r := FillStages(parents, rank, keys[1..], memo[Some(keys[0]) := v]);
        assert forall i :: 1 <= i < |keys| ==> keys[i] == keys[1..][i - 1];
        r
  }

  /** The sort keys `stage(x[0][0])`, one per moveset in list order; the memo is not written. */
  function SortKeys(parents: Parents, ghost rank: map<Id, nat>, memo: Pokemon.Memo, ms: seq<Moveset>): (r: Result<seq<nat>, PyError>)
    requires Ranked(parents, rank)
    requires ClosedSound(parents, rank, memo)
    ensures r.Success? <==> forall i :: 0 <= i < |ms| ==> Closed(parents, rank, Some(ms[i].id))
    ensures r.Success? ==>
              |r.value| == |ms| && forall i :: 0 <= i < |ms| ==> r.value[i] == StageOf(parents, rank, Some(ms[i].id))
    decreases |ms|
  {
    if ms == [] then Success([])
    else
      match Stage(parents, rank, memo, Some(ms[0].id))
      case Failure(e) => Failure(e)
      case Success(v) =>
        match SortKeys(parents, rank, memo, ms[1..])
        case Failure(e) => Failure(e)
        case Success(vs) => Success([v] + vs)
  }

  /** A failing loop over keys of `parents` fails on a named parent that has no rows. */
  lemma FillFailure(parents: Parents, rank: map<Id, nat>, keys: seq<Id>, memo: Pokemon.Memo)
    requires Ranked(parents, rank)
    requires ClosedSound(parents, rank, memo)
    requires forall i :: 0 <= i < |keys| ==> keys[i] in parents
    requires FillStages(parents, rank, keys, memo).Failure?
    ensures var e := FillStages(parents, rank, keys, memo).error;
            e.KeyError? && e.key !in parents && exists id :: id in parents && parents[id] == Some(e.key)
  {
    var i :| 0 <= i < |keys| && !Closed(parents, rank, Some(keys[i])) &&
             FillStages(parents, rank, keys, memo).error == KeyError(MissingAncestor(parents, rank, Some(keys[i])));
    MissingAncestorIsParent(parents, rank, keys[i]);
  }

  /**
   * The body of `extract_moves` after grouping, for the dictionary `parents`,
   * its keys in iteration order, and the movesets.
   */
  function Extract(parents: Parents, ghost rank: map<Id, nat>, keys: seq<Id>, ms: seq<Moveset>): (r: Result<seq<Moveset>, PyError>)
    requires Ranked(parents, rank)
    requires forall id :: id in parents <==> id in keys
    requires forall i :: 0 <= i < |ms| ==> ms[i].id in parents
    ensures r.Success? <==> ParentsPresent(parents)
    ensures r.Failure? ==>
              r.error.KeyError? && r.error.key !in parents &&
              exists id :: id in parents && parents[id] == Some(r.error.key)
    ensures r.Success? ==> |r.value| == |ms| && multiset(r.value) == multiset(ms)
  {
    ClosedIffPresent(parents, rank);
    var fill := FillStages(parents, rank, keys, Pokemon.Seed);
    if fill.Failure? then
      FillFailure(parents, rank, keys, Pokemon.Seed);
      Failure(fill.error)
    else
      match SortKeys(parents, rank, fill.value, ms)
      case Failure(e) => Failure(e)
      case Success(ks) =>
        StableSort.SortItems(ks, ms);
        Success(StableSort.Items(StableSort.Sort(StableSort.Zip(ks, ms))))
  }

  /**
   * `extract_moves` on the rows its query returns: it fails exactly when some
   * pokemon names a parent that has no rows, and then with a `KeyError` on
   * such a parent.
   */
  function ExtractMoves(rows: seq<DbRow>, ghost rank: map<Id, nat>): (r: Result<seq<Moveset>, PyError>)
    requires Ranked(ParentMap(GroupBy(rows)), rank)
    ensures r.Success? <==> ParentsPresent(ParentMap(GroupBy(rows)))
    ensures r.Failure? ==>
              r.error.KeyError? && r.error.key !in ParentMap(GroupBy(rows)) &&
              exists id :: id in ParentMap(GroupBy(rows)) && ParentMap(GroupBy(rows))[id] == Some(r.error.key)
  {
    var gs := GroupBy(rows);
    var ms := Movesets(gs);
    assert forall i :: 0 <= i < |ms| ==> ms[i].id in Ids(gs) by {
      forall i | 0 <= i < |ms|
        ensures ms[i].id in Ids(gs)
      {
        assert ms[i].id == gs[i].key.id;
      }
    }
    Extract(ParentMap(gs), rank, KeyOrder(gs), ms)
  }

  /** A successful run sorts the movesets by their true stages. */
  lemma ExtractSortsByStage(parents: Parents, rank: map<Id, nat>, keys: seq<Id>, ms: seq<Moveset>, stages: seq<nat>)
    requires Ranked(parents, rank)
    requires forall id :: id in parents <==> id in keys
    requires forall i :: 0 <= i < |ms| ==> ms[i].id in parents
    requires |stages| == |ms|
    requires forall i :: 0 <= i < |ms| ==> stages[i] == StageOf(parents, rank, Some(ms[i].id))
    ensures Extract(parents, rank, keys, ms).Success? ==>
              Extract(parents, rank, keys, ms).value == StableSort.Items(StableSort.Sort(StableSort.Zip(stages, ms)))
  {
    var fill := FillStages(parents, rank, keys, Pokemon.Seed);
    if fill.Success? {
      var sk := SortKeys(parents, rank, fill.value, ms);
      if sk.Success? {
        assert sk.value == stages;
      }
    }
  }

  /** Where `extract_moves` succeeds it returns what `moves_from_evid` returns. */
  lemma ExtractMovesAgrees(rows: seq<DbRow>, rank: map<Id, nat>)
    requires Ranked(ParentMap(GroupBy(rows)), rank)
    ensures ExtractMoves(rows, rank).Success? ==> ExtractMoves(rows, rank).value == Pokemon.MovesFromEvid(rows, rank)
  {
    var gs := GroupBy(rows);
    var parents := ParentMap(gs);
    var ms := Movesets(gs);
    var pmemo := Pokemon.FillStages(parents, rank, KeyOrder(gs), Pokemon.Seed);
    var stages := Pokemon.SortKeys(parents, rank, pmemo, ms).0;
    assert forall i :: 0 <= i < |ms| ==> ms[i].id in parents by {
      forall i | 0 <= i < |ms|
        ensures ms[i].id in parents
      {
        assert ms[i].id == gs[i].key.id;
      }
    }
    ExtractSortsByStage(parents, rank, KeyOrder(gs), ms, stages);
  }

  /** On a closed chain both programs' `stage` give the same value, whatever their sound memos hold. */
  lemma StagesAgree(parents: Parents, rank: map<Id, nat>, memo: Pokemon.Memo, pmemo: Pokemon.Memo, id: Option<Id>)
    requires Ranked(parents, rank)
    requires ClosedSound(parents, rank, memo) && Pokemon.Sound(parents, rank, pmemo)
    requires Closed(parents, rank, id)
    ensures Stage(parents, rank, memo, id) == Success(Pokemon.Stage(parents, rank, pmemo, id).0)
  {
  }
}
