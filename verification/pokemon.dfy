/**
 * pokemon.py: `moves_from_evid` groups an evolution chain's rows into
 * movesets, computes every pokemon's stage with the memoising nested
 * `stage`, and stable-sorts the movesets by stage; `moves_from_pokemonid`
 * returns the first moveset of one pokemon's rows.
 */
module Pokemon {
  import opened Wrappers
  import opened Moves
  import opened Grouping
  import opened Stages
  import StableSort

  /** The dictionary `stages`, keyed by an id or `None`. */
  type Memo = map<Option<Id>, nat>

  /** Every memoised stage is the true stage. */
  ghost predicate Sound(parents: Parents, rank: map<Id, nat>, memo: Memo)
    requires Ranked(parents, rank)
  {
    forall k :: k in memo ==> memo[k] == StageOf(parents, rank, k)
  }

  /**
   * The nested `stage(id)`: 0 for `None`, 1 for an id that is not a key of
   * `parents`, and otherwise one more than the parent's memoised stage,
   * computing and memoising the parent's stage first when it is missing.
   * The memo comes back extended.
   */
  function Stage(parents: Parents, ghost rank: map<Id, nat>, memo: Memo, id: Option<Id>): (r: (nat, Memo))
    requires Ranked(parents, rank)
    requires Sound(parents, rank, memo)
    ensures r.0 == StageOf(parents, rank, id)
    ensures Sound(parents, rank, r.1)
    ensures memo.Keys <= r.1.Keys
    ensures id.Some? && id.value in parents ==> parents[id.value] in r.1
    decreases Measure(parents, rank, id)
  {
    match id
    case None => (0, memo)
    case Some(x) =>
      if x !in parents then (1, memo)
      else
        var p := parents[x];
        var m := if p in memo then memo else (var (v, m1) := Stage(parents, rank, memo, p); m1[p := v]);
        (1 + m[p], m)
  }

  /** `for id in parents.keys(): stages[id] = stage(id)`, for the keys in the order given. */
  function FillStages(parents: Parents, ghost rank: map<Id, nat>, keys: seq<Id>, memo: Memo): (r: Memo)
    requires Ranked(parents, rank)
    requires Sound(parents, rank, memo)
    ensures Sound(parents, rank, r)
    ensures memo.Keys <= r.Keys
    ensures forall i :: 0 <= i < |keys| ==> Some(keys[i]) in r
    decreases |keys|
  {
    if keys == [] then memo
    else
      var (v, m) := Stage(parents, rank, memo, Some(keys[0]));
      FillStages(parents, rank, keys[1..], m[Some(keys[0]) := v])
  }

  /** The sort keys `stage(x[0][0])`, computed once per moveset in list order, threading the memo. */
  function SortKeys(parents: Parents, ghost rank: map<Id, nat>, memo: Memo, ms: seq<Moveset>): (r: (seq<nat>, Memo))
    requires Ranked(parents, rank)
    requires Sound(parents, rank, memo)
    ensures |r.0| == |ms|
    ensures forall i :: 0 <= i < |ms| ==> r.0[i] == StageOf(parents, rank, Some(ms[i].id))
    ensures Sound(parents, rank, r.1)
    decreases |ms|
  {
    if ms == [] then ([], memo)
    else
      var (v, m) := Stage(parents, rank, memo, Some(ms[0].id));
      var (vs, m') := SortKeys(parents, rank, m, ms[1..]);
      ([v] + vs, m')
  }

  /** The memo seeded with `stages = {None: 0}`. */
  const Seed: Memo := map[None := 0]

  /** The stage of a moveset's pokemon, as the sort key. */
  ghost function StageKey(parents: Parents, rank: map<Id, nat>): Moveset -> int
    requires Ranked(parents, rank)
  {
    (m: Moveset) => StageOf(parents, rank, Some(m.id))
  }

  /**
   * `moves_from_evid` on the rows its query returns: the movesets sorted by
   * stage. `rank` witnesses that the parent links are acyclic.
   */
  function MovesFromEvid(rows: seq<DbRow>, ghost rank: map<Id, nat>): (r: seq<Moveset>)
    requires Ranked(ParentMap(GroupBy(rows)), rank)
    ensures |r| == |Movesets(GroupBy(rows))|
    ensures multiset(r) == multiset(Movesets(GroupBy(rows)))
  {
    var gs := GroupBy(rows);
    var parents := ParentMap(gs);
    var memo := FillStages(parents, rank, KeyOrder(gs), Seed);
    var (keys, _) := SortKeys(parents, rank, memo, Movesets(gs));
    StableSort.SortItems(keys, Movesets(gs));
    StableSort.Items(StableSort.Sort(StableSort.Zip(keys, Movesets(gs))))
  }

  /** After the loop every key of `parents` has its stage, at least 1, in `stages`. */
  lemma AfterFill(rows: seq<DbRow>, rank: map<Id, nat>)
    requires Ranked(ParentMap(GroupBy(rows)), rank)
    ensures var gs := GroupBy(rows);
            var parents := ParentMap(gs);
            var memo := FillStages(parents, rank, KeyOrder(gs), Seed);
            None in memo && memo[None] == 0 &&
            forall id :: id in parents ==>
              Some(id) in memo && memo[Some(id)] == StageOf(parents, rank, Some(id)) >= 1
  {
    var gs := GroupBy(rows);
    var parents := ParentMap(gs);
    var ids := KeyOrder(gs);
    var memo := FillStages(parents, rank, ids, Seed);
    forall id | id in parents
      ensures Some(id) in memo
    {
      var i :| 0 <= i < |ids| && ids[i] == id;
    }
  }

  /**
   * The result is the grouped movesets, sorted by stage, with movesets of
   * equal stage in their grouped order.
   */
  lemma MovesFromEvidSorted(rows: seq<DbRow>, rank: map<Id, nat>)
    requires Ranked(ParentMap(GroupBy(rows)), rank)
    ensures var parents := ParentMap(GroupBy(rows));
            var ms := Movesets(GroupBy(rows));
            var r := MovesFromEvid(rows, rank);
            multiset(r) == multiset(ms) &&
            |r| == |ms| &&
            (forall i, j :: 0 <= i < j < |r| ==>
               StageOf(parents, rank, Some(r[i].id)) <= StageOf(parents, rank, Some(r[j].id))) &&
            (forall s :: StableSort.Having(r, StageKey(parents, rank), s) ==
                         StableSort.Having(ms, StageKey(parents, rank), s))
  {
    var gs := GroupBy(rows);
    var parents := ParentMap(gs);
    var ms := Movesets(gs);
    var memo := FillStages(parents, rank, KeyOrder(gs), Seed);
    var keys := SortKeys(parents, rank, memo, ms).0;
    var f := StageKey(parents, rank);
    StableSort.SortByKey(keys, ms, f);
  }

  /** `moves` are the tails of the longest prefix of `rows` whose rows all carry the first row's key. */
  predicate FirstRun(rows: seq<DbRow>, moves: seq<Entry>)
  {
    0 < |moves| <= |rows| &&
    (forall i :: 0 <= i < |moves| ==> KeyOf(rows[i]) == KeyOf(rows[0]) && TailOf(rows[i]) == moves[i]) &&
    (|moves| < |rows| ==> KeyOf(rows[|moves|]) != KeyOf(rows[0]))
  }

  /** The first group of a non-empty row sequence is its first run. */
  lemma FirstGroupIsFirstRun(rows: seq<DbRow>)
    requires rows != []
    ensures FirstRun(rows, GroupBy(rows)[0].tails)
  {
    var gs := GroupBy(rows);
    var g := gs[0];
    GroupByUngroup(rows);
    assert gs == [g] + gs[1..];
    UngroupCons(g, gs[1..]);
    assert forall i :: 0 <= i < |g.tails| ==> rows[i] == Expand(g)[i];
    if |g.tails| < |rows| {
      var tail := gs[1..];
      assert tail != [] && tail[0] == gs[1];
      assert tail == [tail[0]] + tail[1..];
      UngroupCons(tail[0], tail[1..]);
      assert rows[|g.tails|] == Expand(gs[1])[0];
    }
  }

  /** `moves_from_pokemonid`: the first moveset, or an index error when the query returned no rows. */
  function MovesFromPokemonid(rows: seq<DbRow>): (r: Result<Moveset, PyError>)
    ensures r.Failure? <==> rows == []
    ensures r.Failure? ==> r.error == IndexError
    ensures r.Success? ==>
              r.value.id == rows[0].id && r.value.name == rows[0].name && FirstRun(rows, r.value.moves)
  {
    var gs := GroupBy(rows);
    if gs == [] then Failure(IndexError)
    else
      FirstGroupIsFirstRun(rows);
      Success(MovesetOf(gs[0]))
  }
}
