/**
 * Properties of the aligner that relate its passes to each other: the first
 * pass is greedy and order-preserving, the second pass stays inside the gaps
 * the first pass leaves, and the rows reproduce `a` exactly whenever the
 * locks are in order.
 */
module ComparifyProps {
  import opened Wrappers
  import opened Moves
  import opened Comparify

  // ---------------------------------------------------------------------------
  // The first pass is greedy

  /** `i` is at or past `start` and past every lock in `al[..k]`: the first pass's cursor has passed nothing above it. */
  ghost predicate Beyond(al: seq<Pair>, k: nat, start: nat, i: int)
    requires k <= |al|
  {
    start <= i && forall k' :: 0 <= k' < k && al[k'].left.Some? ==> al[k'].left.value < i
  }

  /**
   * Row `k` is locked to the smallest index beyond the cursor whose entry
   * equals `x` on both level and move, and is unlocked only when no such
   * index exists.
   */
  ghost predicate Greedy(a: seq<Entry>, al: seq<Pair>, start: nat, k: nat, x: Entry)
    requires k < |al|
  {
    match al[k].left
    case Some(i) =>
      && i < |a| && a[i] == x && Beyond(al, k, start, i)
      && forall i' :: 0 <= i' < i && Beyond(al, k, start, i') ==> a[i'] != x
    case None =>
      forall i' :: 0 <= i' < |a| && Beyond(al, k, start, i') ==> a[i'] != x
  }

  lemma BeyondCons(p: Pair, rest: seq<Pair>, k: nat, start: nat, i: int)
    requires 1 <= k <= |rest| + 1
    requires p.left.Some? ==> start <= p.left.value
    ensures Beyond([p] + rest, k, start, i) <==> Beyond(rest, k - 1, Step(p, start), i)
  {
    var al := [p] + rest;
    assert al[0] == p;
    if Beyond(al, k, start, i) {
      forall k' | 0 <= k' < k - 1 && rest[k'].left.Some?
        ensures rest[k'].left.value < i
      {
        assert al[k' + 1] == rest[k'];
      }
      assert Step(p, start) <= i;
    }
    if Beyond(rest, k - 1, Step(p, start), i) {
      assert start <= i;
      forall k' | 0 <= k' < k && al[k'].left.Some?
        ensures al[k'].left.value < i
      {
        if k' > 0 {
          assert al[k'] == rest[k' - 1];
        }
      }
    }
  }

  /** Greediness of a row survives putting one more row in front, with the cursor moved past it. */
  lemma GreedyCons(a: seq<Entry>, p: Pair, rest: seq<Pair>, start: nat, k: nat, x: Entry)
    requires 1 <= k <= |rest|
    requires p.left.Some? ==> start <= p.left.value
    requires Greedy(a, rest, Step(p, start), k - 1, x)
    ensures Greedy(a, [p] + rest, start, k, x)
  {
    assert ([p] + rest)[k] == rest[k - 1];
    forall i' {
      BeyondCons(p, rest, k, start, i');
    }
  }

  /** First-pass row `k` is locked greedily: to the earliest exact match beyond the previous lock. */
  lemma {:induction false} ExactPassGreedy(a: seq<Entry>, b: seq<Entry>, j: nat, prev: nat, k: nat)
    requires j + k < |b|
    ensures Greedy(a, ExactPass(a, b, j, prev), prev, k, b[j + k])
    decreases k
  {
    var r := ExactPass(a, b, j, prev);
    var p := r[0];
    var rest := ExactPass(a, b, j + 1, Step(p, prev));
    assert r == [p] + rest;
    if k > 0 {
      ExactPassGreedy(a, b, j + 1, Step(p, prev), k - 1);
      assert j + 1 + (k - 1) == j + k;
      GreedyCons(a, p, rest, prev, k, b[j + k]);
    }
  }

  /** The first-pass locks increase strictly, and each pairs entries equal on level and move. */
  lemma ExactPassIncreasing(a: seq<Entry>, b: seq<Entry>)
    ensures Increasing(ExactPass(a, b, 0, 0))
    ensures forall k :: 0 <= k < |b| && ExactPass(a, b, 0, 0)[k].left.Some? ==>
      a[ExactPass(a, b, 0, 0)[k].left.value] == b[k]
  {
    var r := ExactPass(a, b, 0, 0);
    forall k1, k2 | 0 <= k1 < k2 < |r| && r[k1].left.Some? && r[k2].left.Some?
      ensures r[k1].left.value < r[k2].left.value
    {
      ExactPassGreedy(a, b, 0, 0, k2);
    }
  }

  // ---------------------------------------------------------------------------
  // The second pass stays inside the gaps

  /**
   * The second pass keeps every first-pass lock, and a row it locks pairs
   * entries with the same level or move at an index strictly between the
   * first-pass locks before and after that row.
   */
  lemma SecondPassWithinGaps(a: seq<Entry>, b: seq<Entry>, k: nat)
    requires k < |b|
    ensures ExactPass(a, b, 0, 0)[k].left.Some? ==> Intermediate(a, b)[k] == ExactPass(a, b, 0, 0)[k]
    ensures ExactPass(a, b, 0, 0)[k].left.None? && Intermediate(a, b)[k].left.Some? ==>
      var i := Intermediate(a, b)[k].left.value;
      && LooseMatch(a[i], b[k])
      && forall k' :: 0 <= k' < |b| && ExactPass(a, b, 0, 0)[k'].left.Some? ==>
        (k' < k ==> ExactPass(a, b, 0, 0)[k'].left.value < i)
        && (k < k' ==> i < ExactPass(a, b, 0, 0)[k'].left.value)
  {
    var al := ExactPass(a, b, 0, 0);
    var r := Intermediate(a, b);
    assert r[k].right == k by {
      assert Rights(r)[k] == Range(0, |b|)[k];
    }
  }

  // ---------------------------------------------------------------------------
  // Materialising ordered locks

  /** Ordered locks at or past `prev` stay at or past one beyond the first lock once it is dropped. */
  lemma TailAbove(al: seq<Pair>, prev: nat)
    requires |al| > 0 && Increasing(al)
    requires forall k :: 0 <= k < |al| && al[k].left.Some? ==> prev <= al[k].left.value
    ensures Increasing(al[1..])
    ensures forall k :: 0 <= k < |al[1..]| && al[1..][k].left.Some? ==> Step(al[0], prev) <= al[1..][k].left.value
  {
    forall k | 0 <= k < |al[1..]| && al[1..][k].left.Some?
      ensures Step(al[0], prev) <= al[1..][k].left.value
    {
      assert al[1..][k] == al[k + 1];
    }
  }

  /** When the locks are in order and at or past `prev_i`, the left column lists every index from `prev_i` exactly once. */
  lemma {:induction false} LayoutMonotoneLefts(n: nat, al: seq<Pair>, prev: nat)
    requires LeftsBelow(al, n) && Increasing(al)
    requires forall k :: 0 <= k < |al| && al[k].left.Some? ==> prev <= al[k].left.value
    ensures LeftIx(Layout(n, al, prev)) == Range(prev, n)
    decreases |al|
  {
    if al != [] {
      TailAbove(al, prev);
      LayoutMonotoneLefts(n, al[1..], Step(al[0], prev));
      LayoutStep(n, al, prev);
    }
  }

  /** One step of `Layout` on the left column, for ordered locks. */
  lemma LayoutStep(n: nat, al: seq<Pair>, prev: nat)
    requires al != [] && LeftsBelow(al, n)
    requires al[0].left.Some? ==> prev <= al[0].left.value
    requires LeftIx(Layout(n, al[1..], Step(al[0], prev))) == Range(Step(al[0], prev), n)
    ensures LeftIx(Layout(n, al, prev)) == Range(prev, n)
  {
    LayoutLefts(n, al, prev);
    if al[0].left.None? {
      assert Step(al[0], prev) == prev;
    } else {
      var i := al[0].left.value;
      assert Step(al[0], prev) == i + 1;
      JoinRanges(prev, i, n);
    }
  }

  /** The indices below a lock, the lock, and those above it make up the whole range. */
  lemma JoinRanges(lo: nat, i: nat, hi: nat)
    requires lo <= i < hi
    ensures Range(lo, i) + [i] + Range(i + 1, hi) == Range(lo, hi)
  {
    RangeCons(i, hi);
    RangeSplit(lo, i, hi);
    assert Range(lo, i) + [i] + Range(i + 1, hi) == Range(lo, i) + ([i] + Range(i + 1, hi));
  }

  /** With the locks in order, there are as many rows as left entries from `prev_i` plus pairs, minus locked pairs. */
  lemma {:induction false} LayoutMonotoneLength(n: nat, al: seq<Pair>, prev: nat)
    requires LeftsBelow(al, n) && Increasing(al)
    requires forall k :: 0 <= k < |al| && al[k].left.Some? ==> prev <= al[k].left.value
    ensures |Layout(n, al, prev)| == (if prev < n then n - prev else 0) + |al| - Locked(al)
    decreases |al|
  {
    if al != [] {
      TailAbove(al, prev);
      LayoutMonotoneLength(n, al[1..], Step(al[0], prev));
    }
  }

  /**
   * When the locks of the materialised alignment are in order, the left
   * column reproduces `a` exactly and there are `|a| + |b| - locks` rows.
   */
  lemma AlignMonotone(a: seq<Entry>, b: seq<Entry>)
    requires |b| > 0 && Increasing(Intermediate(a, b))
    ensures Align(a, b).Success?
    ensures LeftEntries(Align(a, b).value) == a
    ensures |Align(a, b).value| == |a| + |b| - Locked(Intermediate(a, b))
  {
    var al := Intermediate(a, b);
    var slots := AlignSlots(a, b).value;
    assert slots == Layout(|a|, al, 0);
    LayoutMonotoneLefts(|a|, al, 0);
    LayoutMonotoneLength(|a|, al, 0);
    ResolveEntries(a, b, slots);
    PicksRange(a, LeftEntries(Resolve(a, b, slots)));
  }

  /** When the second pass locks nothing, the left column is exactly `a`. */
  lemma ExactOnlyKeepsLeftOrder(a: seq<Entry>, b: seq<Entry>)
    requires |b| > 0 && Intermediate(a, b) == ExactPass(a, b, 0, 0)
    ensures Align(a, b).Success?
    ensures LeftEntries(Align(a, b).value) == a
    ensures |Align(a, b).value| == |a| + |b| - Locked(ExactPass(a, b, 0, 0))
  {
    ExactPassIncreasing(a, b);
    AlignMonotone(a, b);
  }

  // ---------------------------------------------------------------------------
  // Self-alignment

  lemma {:induction false} SelfExact(a: seq<Entry>, j: nat)
    requires j <= |a|
    ensures ExactPass(a, a, j, j) == seq(|a| - j, k requires 0 <= k < |a| - j => Pair(Some(j + k), j + k))
  {
    var r := ExactPass(a, a, j, j);
    forall k | 0 <= k < |a| - j
      ensures r[k] == Pair(Some(j + k), j + k)
    {
      SelfExactAt(a, j, k);
    }
  }

  /** Row `k` of the first pass of `a` against itself from `j` locks `j + k` to itself. */
  lemma {:induction false} SelfExactAt(a: seq<Entry>, j: nat, k: nat)
    requires j + k < |a|
    ensures ExactPass(a, a, j, j)[k] == Pair(Some(j + k), j + k)
    decreases k
  {
    var p := Pair(Some(j), j);
    assert FirstExact(a, a[j], j) == Some(j);
    assert Step(p, j) == j + 1;
    var rest := ExactPass(a, a, j + 1, j + 1);
    assert ExactPass(a, a, j, j) == [p] + rest;
    if k > 0 {
      SelfExactAt(a, j + 1, k - 1);
      assert ([p] + rest)[k] == rest[k - 1];
    }
  }

  lemma {:induction false} SelfLayout(n: nat, j: nat)
    requires j <= n
    ensures Layout(n, seq(n - j, k requires 0 <= k < n - j => Pair(Some(j + k), j + k)), j)
      == seq(n - j, k requires 0 <= k < n - j => Slot(Some(j + k), Some(j + k)))
    decreases n - j
  {
    var al := seq(n - j, k requires 0 <= k < n - j => Pair(Some(j + k), j + k));
    if j < n {
      assert al[1..] == seq(n - (j + 1), k requires 0 <= k < n - (j + 1) => Pair(Some(j + 1 + k), j + 1 + k));
      SelfLayout(n, j + 1);
    }
  }

  /** Aligning a non-empty moveset with itself pairs every entry with itself, in order. */
  lemma SelfAlign(a: seq<Entry>)
    requires |a| > 0
    ensures Align(a, a) == Success(seq(|a|, k requires 0 <= k < |a| => Row(Some(a[k]), Some(a[k]))))
  {
    var diag := seq(|a|, k requires 0 <= k < |a| => Pair(Some(k), k));
    SelfExact(a, 0);
    assert ExactPass(a, a, 0, 0) == diag;
    assert LoosePass(a, a, diag) == diag;
    assert Intermediate(a, a) == diag;
    SelfLayout(|a|, 0);
    assert diag == seq(|a| - 0, k requires 0 <= k < |a| - 0 => Pair(Some(0 + k), 0 + k));
    var slots := seq(|a|, k requires 0 <= k < |a| => Slot(Some(k), Some(k)));
    assert slots == seq(|a| - 0, k requires 0 <= k < |a| - 0 => Slot(Some(0 + k), Some(0 + k)));
    assert AlignSlots(a, a) == Success(slots);
    assert Resolve(a, a, slots) == seq(|a|, k requires 0 <= k < |a| => Row(Some(a[k]), Some(a[k])));
  }

  // ---------------------------------------------------------------------------
  // Behaviour the code has as written

  /** The two passes on the crossing example: neither row locks exactly, and the second pass locks `b[0]` to `a[1]`, then `b[1]` to `a[0]`. */
  lemma CrossingPasses()
    ensures Intermediate([Entry(1, "x"), Entry(2, "y")], [Entry(2, "z"), Entry(1, "w")])
      == [Pair(Some(1), 0), Pair(Some(0), 1)]
  {
    var a := [Entry(1, "x"), Entry(2, "y")];
    var b := [Entry(2, "z"), Entry(1, "w")];
    assert FirstExact(a, b[0], 0) == None;
    assert FirstExact(a, b[1], 0) == None;
    var al := [Pair(None, 0), Pair(None, 1)];
    assert ExactPass(a, b, 0, 0) == al;
    assert PrevBound(al, 0) == -1 && PrevBound(al, 1) == -1;
    assert NextBound(al, 0, 2) == 2 && NextBound(al, 1, 2) == 2;
    assert FirstLoose(a, b[0], 0, 2) == Some(1);
    assert FirstLoose(a, b[1], 0, 2) == Some(0);
  }

  /** Materialising crossing locks emits `a[0]` and `a[1]` twice each. */
  lemma CrossingLayout()
    ensures Layout(2, [Pair(Some(1), 0), Pair(Some(0), 1)], 0)
      == [Slot(Some(0), None), Slot(Some(1), Some(0)), Slot(Some(0), Some(1)), Slot(Some(1), None)]
  {
    var al := [Pair(Some(1), 0), Pair(Some(0), 1)];
    var tail := [Pair(Some(0), 1)];
    assert al[1..] == tail && tail[1..] == [];
    assert Fill(1, 2) == [Slot(Some(1), None)];
    assert Layout(2, [], 1) == [Slot(Some(1), None)];
    assert Fill(2, 0) == [];
    assert Layout(2, tail, 2) == [Slot(Some(0), Some(1)), Slot(Some(1), None)];
    assert Fill(0, 1) == [Slot(Some(0), None)];
  }

  /**
   * The second-pass bounds are never updated, so two unlocked rows in one gap
   * can reuse and cross `a` indices: the rows are
   * `(a0, -), (a1, b0), (a0, b1), (a1, -)`.
   */
  lemma CrossingExample()
    ensures Align([Entry(1, "x"), Entry(2, "y")], [Entry(2, "z"), Entry(1, "w")])
      == Success([Row(Some(Entry(1, "x")), None),
                  Row(Some(Entry(2, "y")), Some(Entry(2, "z"))),
                  Row(Some(Entry(1, "x")), Some(Entry(1, "w"))),
                  Row(Some(Entry(2, "y")), None)])
  {
    var a := [Entry(1, "x"), Entry(2, "y")];
    var b := [Entry(2, "z"), Entry(1, "w")];
    var slots := [Slot(Some(0), None), Slot(Some(1), Some(0)), Slot(Some(0), Some(1)), Slot(Some(1), None)];
    CrossingPasses();
    CrossingLayout();
    assert AlignSlots(a, b) == Success(slots);
    CrossingRows();
  }

  lemma CrossingRows()
    ensures Resolve([Entry(1, "x"), Entry(2, "y")], [Entry(2, "z"), Entry(1, "w")],
                    [Slot(Some(0), None), Slot(Some(1), Some(0)), Slot(Some(0), Some(1)), Slot(Some(1), None)])
      == [Row(Some(Entry(1, "x")), None),
          Row(Some(Entry(2, "y")), Some(Entry(2, "z"))),
          Row(Some(Entry(1, "x")), Some(Entry(1, "w"))),
          Row(Some(Entry(2, "y")), None)]
  {
    var a := [Entry(1, "x"), Entry(2, "y")];
    var b := [Entry(2, "z"), Entry(1, "w")];
    var slots := [Slot(Some(0), None), Slot(Some(1), Some(0)), Slot(Some(0), Some(1)), Slot(Some(1), None)];
    var resolved := Resolve(a, b, slots);
    assert resolved[0] == Row(Some(a[0]), None);
    assert resolved[1] == Row(Some(a[1]), Some(b[0]));
    assert resolved[2] == Row(Some(a[0]), Some(b[1]));
    assert resolved[3] == Row(Some(a[1]), None);
  }

  /**
   * A gap's unlocked `b[j]` is emitted at once and the skipped `a[i]` after
   * it: `align([(1, x)], [(2, z)])` is `(-, z), (x, -)`.
   */
  lemma GapExample()
    ensures Align([Entry(1, "x")], [Entry(2, "z")])
      == Success([Row(None, Some(Entry(2, "z"))), Row(Some(Entry(1, "x")), None)])
  {
    var a := [Entry(1, "x")];
    var b := [Entry(2, "z")];
    var al := [Pair(None, 0)];
    assert FirstExact(a, b[0], 0) == None;
    assert ExactPass(a, b, 0, 0) == al;
    assert PrevBound(al, 0) == -1;
    assert NextBound(al, 0, 1) == 1;
    assert FirstLoose(a, b[0], 0, 1) == None;
    assert Intermediate(a, b) == al;
    assert al[1..] == [];
    assert Fill(0, 1) == [Slot(Some(0), None)];
    var slots := [Slot(None, Some(0)), Slot(Some(0), None)];
    assert Layout(1, al, 0) == slots;
    assert AlignSlots(a, b) == Success(slots);
    var resolved := Resolve(a, b, slots);
    assert resolved[0] == Row(None, Some(b[0]));
    assert resolved[1] == Row(Some(a[0]), None);
    assert resolved == [Row(None, Some(b[0])), Row(Some(a[0]), None)];
    assert Align(a, b) == Success(resolved);
  }
}
