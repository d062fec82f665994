/**
 * The first half of `moves_from_evid`, `moves_from_pokemonid` and
 * `extract_moves`: the query's rows `(id, name, parent, level, move)` are
 * split by `itertools.groupby` into maximal runs of consecutive rows with
 * the same `(id, name, parent)`. Each run becomes one moveset
 * `((id, name), [(level, move), ...])` and records `parents[id] = parent`.
 *
 * The rows are taken as they come from the cursor; nothing here assumes the
 * query's ORDER BY, so an id may head two separate runs.
 */
module Grouping {
  import opened Wrappers
  import opened Moves

  type Id = int

  /** One row of the joined query: a pokemon, its evolution parent, one level-up move. */
  datatype DbRow = DbRow(id: Id, name: string, parent: Option<Id>, level: int, move: string)

  /** The `groupby` key, the row's first three columns. */
  datatype Key = Key(id: Id, name: string, parent: Option<Id>)

  /** One run of equal keys, with the rows' `(level, move)` suffixes in row order. */
  datatype Group = Group(key: Key, tails: seq<Entry>)

  /** An element of the returned list: `((id, name), moves)`. */
  datatype Moveset = Moveset(id: Id, name: string, moves: seq<Entry>)

  function KeyOf(row: DbRow): Key
  {
    Key(row.id, row.name, row.parent)
  }

  function TailOf(row: DbRow): Entry
  {
    Entry(row.level, row.move)
  }

  /** The rows a group stands for. */
  function Expand(g: Group): seq<DbRow>
  {
    seq(|g.tails|, i requires 0 <= i < |g.tails| =>
      DbRow(g.key.id, g.key.name, g.key.parent, g.tails[i].level, g.tails[i].move))
  }

  /** The rows a sequence of groups stands for, run after run. */
  function Ungroup(gs: seq<Group>): seq<DbRow>
  {
    if gs == [] then [] else Expand(gs[0]) + Ungroup(gs[1..])
  }

  /** What `groupby` produces: no empty run, and no two neighbouring runs share a key. */
  predicate Maximal(gs: seq<Group>)
  {
    (forall i :: 0 <= i < |gs| ==> gs[i].tails != []) &&
    (forall i :: 0 <= i < |gs| - 1 ==> gs[i].key != gs[i + 1].key)
  }

  lemma UngroupCons(g: Group, gs: seq<Group>)
    ensures Ungroup([g] + gs) == Expand(g) + Ungroup(gs)
  {
    assert ([g] + gs)[0] == g;
    assert ([g] + gs)[1..] == gs;
  }

  /** A non-empty group stands for its first row followed by the rest of the group. */
  lemma ExpandCons(g: Group)
    requires g.tails != []
    ensures Expand(g) == [Expand(g)[0]] + Expand(Group(g.key, g.tails[1..]))
    ensures KeyOf(Expand(g)[0]) == g.key && TailOf(Expand(g)[0]) == g.tails[0]
  {
    var e := Expand(g);
    var e' := Expand(Group(g.key, g.tails[1..]));
    assert forall i :: 0 <= i < |e'| ==> e'[i] == e[i + 1];
  }

  /** The row a group of one tail stands for. */
  lemma ExpandSingle(row: DbRow)
    ensures Expand(Group(KeyOf(row), [TailOf(row)])) == [row]
  {
  }

  /** `itertools.groupby(rows, lambda x: x[:3])`, each group's rows cut to `x[3:]`. */
  function GroupBy(rows: seq<DbRow>): (gs: seq<Group>)
    ensures Maximal(gs)
    ensures |gs| <= |rows|
    ensures rows == [] <==> gs == []
    ensures gs != [] ==> gs[0].key == KeyOf(rows[0])
  {
    if rows == [] then []
    else
      var rest := GroupBy(rows[1..]);
      var row := rows[0];
      if rest != [] && rest[0].key == KeyOf(row) then
        var r := [Group(KeyOf(row), [TailOf(row)] + rest[0].tails)] + rest[1..];
        assert forall i :: 1 <= i < |r| ==> r[i] == rest[i];
        r
      else
        var r := [Group(KeyOf(row), [TailOf(row)])] + rest;
        assert forall i :: 1 <= i < |r| ==> r[i] == rest[i - 1];
        r
  }

  /** Expanding the groups gives back the rows, in order. */
  lemma {:induction false} GroupByUngroup(rows: seq<DbRow>)
    ensures Ungroup(GroupBy(rows)) == rows
    decreases |rows|
  {
    if rows != [] {
      var rest := GroupBy(rows[1..]);
      var row := rows[0];
      GroupByUngroup(rows[1..]);
      assert rows == [row] + rows[1..];
      if rest != [] && rest[0].key == KeyOf(row) {
        assert GroupBy(rows) == [Group(KeyOf(row), [TailOf(row)] + rest[0].tails)] + rest[1..];
        UngroupJoin(row, rest);
      } else {
        assert GroupBy(rows) == [Group(KeyOf(row), [TailOf(row)])] + rest;
        UngroupCons(Group(KeyOf(row), [TailOf(row)]), rest);
        ExpandSingle(row);
      }
    }
  }

  /** Joining a row to the first group puts it ahead of the groups' rows. */
  lemma {:induction false} UngroupJoin(row: DbRow, rest: seq<Group>)
    requires rest != [] && rest[0].key == KeyOf(row)
    ensures Ungroup([Group(KeyOf(row), [TailOf(row)] + rest[0].tails)] + rest[1..]) == [row] + Ungroup(rest)
  {
    var g := Group(KeyOf(row), [TailOf(row)] + rest[0].tails);
    UngroupCons(g, rest[1..]);
    ExpandCons(g);
    assert Group(g.key, g.tails[1..]) == rest[0];
    assert rest == [rest[0]] + rest[1..];
    UngroupCons(rest[0], rest[1..]);
  }

  /**
   * Grouping is the only maximal split: any sequence of non-empty runs with
   * differing neighbours that stands for `rows` is `GroupBy(rows)`.
   */
  lemma {:induction false} GroupByUnique(rows: seq<DbRow>, gs: seq<Group>)
    requires Maximal(gs)
    requires Ungroup(gs) == rows
    ensures gs == GroupBy(rows)
    decreases |rows|
  {
    if gs != [] {
      var g := gs[0];
      var tail := gs[1..];
      var g' := Group(g.key, g.tails[1..]);
      MaximalSplit(gs);
      UngroupCons(g, tail);
      ExpandCons(g);
      assert rows[0] == Expand(g)[0];
      assert rows[1..] == Expand(g') + Ungroup(tail);
      if |g.tails| == 1 {
        assert Expand(g') == [];
        GroupByUnique(rows[1..], tail);
        UniqueSingle(rows, g, tail);
      } else {
        UngroupCons(g', tail);
        GroupByUnique(rows[1..], [g'] + tail);
        UniqueMerge(rows, g, tail);
      }
    }
  }

  /** Dropping the first group, or the first row of a longer first group, keeps a split maximal. */
  lemma MaximalSplit(gs: seq<Group>)
    requires Maximal(gs) && gs != []
    ensures gs == [gs[0]] + gs[1..]
    ensures Maximal(gs[1..])
    ensures gs[1..] != [] ==> gs[1..][0].key != gs[0].key
    ensures |gs[0].tails| > 1 ==> Maximal([Group(gs[0].key, gs[0].tails[1..])] + gs[1..])
  {
    var tail := gs[1..];
    assert forall i :: 0 <= i < |tail| ==> tail[i] == gs[i + 1];
    var gs' := [Group(gs[0].key, gs[0].tails[1..])] + tail;
    assert forall i :: 1 <= i < |gs'| ==> gs'[i] == gs[i];
  }

  /** The case of a first group of one row: grouping starts a fresh group. */
  lemma {:induction false} UniqueSingle(rows: seq<DbRow>, g: Group, tail: seq<Group>)
    requires rows != [] && g.tails == [TailOf(rows[0])] && g.key == KeyOf(rows[0])
    requires tail == GroupBy(rows[1..])
    requires tail != [] ==> tail[0].key != g.key
    ensures [g] + tail == GroupBy(rows)
  {
  }

  /** The case of a longer first group: grouping extends the group of the remaining rows. */
  lemma {:induction false} UniqueMerge(rows: seq<DbRow>, g: Group, tail: seq<Group>)
    requires rows != [] && |g.tails| > 1 && g.tails[0] == TailOf(rows[0]) && g.key == KeyOf(rows[0])
    requires [Group(g.key, g.tails[1..])] + tail == GroupBy(rows[1..])
    ensures [g] + tail == GroupBy(rows)
  {
    var rest := GroupBy(rows[1..]);
    assert rest[0] == Group(g.key, g.tails[1..]);
    assert rest[1..] == tail;
    assert g.tails == [TailOf(rows[0])] + rest[0].tails;
  }

  /** The moveset a group becomes. */
  function MovesetOf(g: Group): Moveset
  {
    Moveset(g.key.id, g.key.name, g.tails)
  }

  /** `movesets`, in group order. */
  function Movesets(gs: seq<Group>): seq<Moveset>
  {
    seq(|gs|, i requires 0 <= i < |gs| => MovesetOf(gs[i]))
  }

  /** The ids of the groups. */
  function Ids(gs: seq<Group>): set<Id>
  {
    set i | 0 <= i < |gs| :: gs[i].key.id
  }

  /** The dictionary `parents` after the loop: every group's id, mapped to the parent its last group carries. */
  function ParentMap(gs: seq<Group>): (parents: map<Id, Option<Id>>)
    ensures parents.Keys == Ids(gs)
    decreases |gs|
  {
    if gs == [] then map[]
    else
      var init := gs[..|gs| - 1];
      var last := gs[|gs| - 1];
      assert Ids(gs) == Ids(init) + {last.key.id} by {
        assert forall i :: 0 <= i < |init| ==> init[i] == gs[i];
      }
      ParentMap(init)[last.key.id := last.key.parent]
  }

  /** The last group with a given id decides its parent. */
  lemma {:induction false} ParentMapLast(gs: seq<Group>, i: nat)
    requires i < |gs|
    requires forall j :: i < j < |gs| ==> gs[j].key.id != gs[i].key.id
    ensures ParentMap(gs)[gs[i].key.id] == gs[i].key.parent
    decreases |gs|
  {
    if i < |gs| - 1 {
      var init := gs[..|gs| - 1];
      assert init[i] == gs[i];
      ParentMapLast(init, i);
    }
  }

  /**
   * The ids of `gs` without repetition, in order of first appearance: the
   * order `parents` receives its keys.
   */
  function KeyOrder(gs: seq<Group>): (ids: seq<Id>)
    ensures forall id :: id in ids <==> id in Ids(gs)
    ensures forall i, j :: 0 <= i < j < |ids| ==> ids[i] != ids[j]
    decreases |gs|
  {
    if gs == [] then []
    else
      var init := gs[..|gs| - 1];
      var last := gs[|gs| - 1];
      var ids := KeyOrder(init);
      assert Ids(gs) == Ids(init) + {last.key.id} by {
        assert forall i :: 0 <= i < |init| ==> init[i] == gs[i];
      }
      if last.key.id in ids then ids else ids + [last.key.id]
  }
}
