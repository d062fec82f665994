/**
 * The heuristic aligner `align(a, b)` of comparify.py. It merges two level-up
 * movesets into rows `(entry of a or None, entry of b or None)` in three passes:
 *   1. every `b[j]`, in order, is locked to the earliest exactly equal `a[i]`
 *      beyond the previous lock;
 *   2. every `b[j]` left unlocked is locked to the first `a[i]` with the same
 *      level or the same move that lies strictly between the first-pass locks
 *      around it;
 *   3. the rows are materialised, with the skipped `a` entries emitted as
 *      left-only rows.
 * The rows are built in two layers: `Layout` places indices, `Resolve`
 * replaces them by the entries they index.
 */
module Comparify {
  import opened Wrappers
  import opened Moves

  /** One entry `(Maybe i, j)` of the intermediate alignment. */
  datatype Pair = Pair(left: Option<nat>, right: nat)

  /** One output row, by index into `a` and `b`. */
  datatype Slot = Slot(left: Option<nat>, right: Option<nat>)

  /** One output row: `(a[i] or None, b[j] or None)`. */
  datatype Row = Row(left: Option<Entry>, right: Option<Entry>)

  // ---------------------------------------------------------------------------
  // Index sequences and projections

  /** Python's `range(lo, hi)`. */
  function Range(lo: nat, hi: nat): (r: seq<nat>)
    ensures |r| == if lo < hi then hi - lo else 0
    ensures forall k :: 0 <= k < |r| ==> r[k] == lo + k
    decreases hi - lo
  {
    if lo >= hi then [] else [lo] + Range(lo + 1, hi)
  }

  lemma RangeCons(lo: nat, hi: nat)
    requires lo < hi
    ensures Range(lo, hi) == [lo] + Range(lo + 1, hi)
  {
  }

  lemma RangeSplit(lo: nat, mid: nat, hi: nat)
    requires lo <= mid <= hi
    ensures Range(lo, mid) + Range(mid, hi) == Range(lo, hi)
  {
  }

  /** The right indices of an alignment, in order. */
  function Rights(al: seq<Pair>): (r: seq<nat>)
    ensures |r| == |al|
    ensures forall k :: 0 <= k < |al| ==> r[k] == al[k].right
  {
    seq(|al|, k requires 0 <= k < |al| => al[k].right)
  }

  /** Every locked left index is a valid index below `n`. */
  predicate LeftsBelow(al: seq<Pair>, n: nat)
  {
    forall k :: 0 <= k < |al| && al[k].left.Some? ==> al[k].left.value < n
  }

  /** The locked left indices increase strictly down the alignment. */
  predicate Increasing(al: seq<Pair>)
  {
    forall k1, k2 :: 0 <= k1 < k2 < |al| && al[k1].left.Some? && al[k2].left.Some? ==>
      al[k1].left.value < al[k2].left.value
  }

  /** The number of locked pairs. */
  function Locked(al: seq<Pair>): (r: nat)
    ensures r <= |al|
  {
    if al == [] then 0 else (if al[0].left.Some? then 1 else 0) + Locked(al[1..])
  }

  /** The left indices carried by the rows, in row order. */
  function LeftIx(rows: seq<Slot>): seq<nat>
  {
    if rows == [] then []
    else (if rows[0].left.Some? then [rows[0].left.value] else []) + LeftIx(rows[1..])
  }


  /** The right indices carried by the rows, in row order. */
  function RightIx(rows: seq<Slot>): seq<nat>
  {
    if rows == [] then []
    else (if rows[0].right.Some? then [rows[0].right.value] else []) + RightIx(rows[1..])
  }


  lemma {:induction false} LeftIxAppend(x: seq<Slot>, y: seq<Slot>)
    ensures LeftIx(x + y) == LeftIx(x) + LeftIx(y)
    decreases |x|
  {
    if x == [] {
      assert x + y == y;
    } else {
      var h := if x[0].left.Some? then [x[0].left.value] else [];
      assert (x + y)[0] == x[0];
      assert (x + y)[1..] == x[1..] + y;
      assert LeftIx(x + y) == h + LeftIx(x[1..] + y);
      assert LeftIx(x) == h + LeftIx(x[1..]);
      LeftIxAppend(x[1..], y);
      assert h + (LeftIx(x[1..]) + LeftIx(y)) == (h + LeftIx(x[1..])) + LeftIx(y);
    }
  }

  lemma {:induction false} RightIxAppend(x: seq<Slot>, y: seq<Slot>)
    ensures RightIx(x + y) == RightIx(x) + RightIx(y)
    decreases |x|
  {
    if x == [] {
      assert x + y == y;
    } else {
      var h := if x[0].right.Some? then [x[0].right.value] else [];
      assert (x + y)[0] == x[0];
      assert (x + y)[1..] == x[1..] + y;
      assert RightIx(x + y) == h + RightIx(x[1..] + y);
      assert RightIx(x) == h + RightIx(x[1..]);
      RightIxAppend(x[1..], y);
      assert h + (RightIx(x[1..]) + RightIx(y)) == (h + RightIx(x[1..])) + RightIx(y);
    }
  }

  /** The rows that carry a right index, in order: one per pair of the alignment. */
  function Carrying(rows: seq<Slot>): seq<Slot>
  {
    if rows == [] then []
    else (if rows[0].right.Some? then [rows[0]] else []) + Carrying(rows[1..])
  }

  /** Each pair `(l, j)` as the row `(l, j)` that comparify.py:87-88 appends for it. */
  function AsSlots(al: seq<Pair>): seq<Slot>
  {
    seq(|al|, k requires 0 <= k < |al| => Slot(al[k].left, Some(al[k].right)))
  }

  lemma {:induction false} CarryingAppend(x: seq<Slot>, y: seq<Slot>)
    ensures Carrying(x + y) == Carrying(x) + Carrying(y)
    decreases |x|
  {
    if x == [] {
      assert x + y == y;
    } else {
      var h := if x[0].right.Some? then [x[0]] else [];
      assert (x + y)[0] == x[0];
      assert (x + y)[1..] == x[1..] + y;
      assert Carrying(x + y) == h + Carrying(x[1..] + y);
      assert Carrying(x) == h + Carrying(x[1..]);
      CarryingAppend(x[1..], y);
      assert h + (Carrying(x[1..]) + Carrying(y)) == (h + Carrying(x[1..])) + Carrying(y);
    }
  }

  /** The entries of the left column that are present, in row order. */
  function LeftEntries(rows: seq<Row>): seq<Entry>
  {
    if rows == [] then []
    else (if rows[0].left.Some? then [rows[0].left.value] else []) + LeftEntries(rows[1..])
  }

  /** The entries of the right column that are present, in row order. */
  function RightEntries(rows: seq<Row>): seq<Entry>
  {
    if rows == [] then []
    else (if rows[0].right.Some? then [rows[0].right.value] else []) + RightEntries(rows[1..])
  }

  /** `ys == [xs[i] for i in ix]`. */
  predicate Picks(xs: seq<Entry>, ix: seq<nat>, ys: seq<Entry>)
  {
    && |ys| == |ix|
    && forall k :: 0 <= k < |ix| ==> ix[k] < |xs| && ys[k] == xs[ix[k]]
  }

  lemma RangeHas(lo: nat, hi: nat, i: nat)
    requires lo <= i < hi
    ensures i in Range(lo, hi)
  {
    assert Range(lo, hi)[i - lo] == i;
  }

  // ---------------------------------------------------------------------------
  // Pass 1: lock when moves match (comparify.py:37-46)

  /** The inner loop `for i in range(from, len(a)): if a[i] == x: ...; break`. */
  function FirstExact(a: seq<Entry>, x: Entry, from: nat): (r: Option<nat>)
    ensures r.Some? ==> from <= r.value < |a| && a[r.value] == x
    ensures forall i :: from <= i < |a| && (r.None? || i < r.value) ==> a[i] != x
    decreases |a| - from
  {
    if from >= |a| then None
    else if a[from] == x then Some(from)
    else FirstExact(a, x, from + 1)
  }

  /** `prev_i` after a row: one past its lock, or unchanged when it is unlocked. */
  function Step(p: Pair, prev: nat): nat
  {
    if p.left.Some? then p.left.value + 1 else prev
  }

  /** The first-pass loop over `b[j..]` with `prev_i == prev`. */
  function ExactPass(a: seq<Entry>, b: seq<Entry>, j: nat, prev: nat): (r: seq<Pair>)
    requires j <= |b|
    ensures |r| == |b| - j
    ensures forall k :: 0 <= k < |r| ==> r[k].right == j + k
    ensures forall k :: 0 <= k < |r| && r[k].left.Some? ==>
      prev <= r[k].left.value < |a| && a[r[k].left.value] == b[j + k]
    decreases |b| - j
  {
    if j == |b| then []
    else
      var p := match FirstExact(a, b[j], prev)
        case Some(i) => Pair(Some(i), j)
        case None => Pair(None, j);
      [p] + ExactPass(a, b, j + 1, Step(p, prev))
  }

  /**
   * The extras loop `for j in range(j + 1, len(b))`, started one past the last
   * first-pass row: the items it would append, each carrying the whole of `b`
   * where an index belongs.
   */
  function ExtrasLoop(b: seq<Entry>, from: nat): (r: seq<seq<Entry>>)
    ensures |r| == if from < |b| then |b| - from else 0
    ensures forall k :: 0 <= k < |r| ==> r[k] == b
    decreases |b| - from
  {
    if from >= |b| then [] else [b] + ExtrasLoop(b, from + 1)
  }

  /**
   * The binding of the loop variable `j` after `for j in range(j, len(b))`,
   * given its binding `last` before the loop (`None` when unbound): every
   * iteration rebinds it, and a loop that never iterates leaves it as it was.
   */
  function LoopVar(b: seq<Entry>, j: nat, last: Option<nat>): Option<nat>
    requires j <= |b|
    decreases |b| - j
  {
    if j == |b| then last else LoopVar(b, j + 1, Some(j))
  }

  /** A loop that iterates leaves `j` at its last index; one that does not keeps the old binding. */
  lemma {:induction false} LoopVarLast(b: seq<Entry>, j: nat, last: Option<nat>)
    requires j <= |b|
    ensures LoopVar(b, j, last) == if j < |b| then Some(|b| - 1) else last
    decreases |b| - j
  {
    if j < |b| {
      LoopVarLast(b, j + 1, Some(j));
    }
  }

  /**
   * After the first pass `j` is unbound exactly when `b` is empty; otherwise
   * it is `|b| - 1`, so the extras loop starts at `|b|` and appends nothing.
   */
  lemma {:induction false} ExtrasAppendNothing(b: seq<Entry>)
    ensures LoopVar(b, 0, None).None? <==> |b| == 0
    ensures LoopVar(b, 0, None).Some? ==>
      LoopVar(b, 0, None).value == |b| - 1 && ExtrasLoop(b, LoopVar(b, 0, None).value + 1) == []
  {
    LoopVarLast(b, 0, None);
  }

  // ---------------------------------------------------------------------------
  // Pass 2: bounds, then lock remaining rows on a loose match (comparify.py:51-76)

  /** `prev_is[k]`: the running maximum of the locked indices before row `k`, from -1. */
  function PrevBound(al: seq<Pair>, k: nat): (r: int)
    requires k <= |al|
    ensures -1 <= r
    ensures forall k' :: 0 <= k' < k && al[k'].left.Some? ==> al[k'].left.value <= r
    ensures r == -1 || exists k' :: 0 <= k' < k && al[k'].left.Some? && al[k'].left.value == r
  {
    if k == 0 then -1
    else
      var p := PrevBound(al, k - 1);
      if al[k - 1].left.Some? && al[k - 1].left.value > p then al[k - 1].left.value else p
  }

  /** `next_is[k]`: the running minimum of the locked indices from row `k` on, from `n`. */
  function NextBound(al: seq<Pair>, k: nat, n: nat): (r: int)
    requires k <= |al|
    ensures r <= n
    ensures forall k' :: k <= k' < |al| && al[k'].left.Some? ==> r <= al[k'].left.value
    ensures r == n || exists k' :: k <= k' < |al| && al[k'].left.Some? && al[k'].left.value == r
    decreases |al| - k
  {
    if k == |al| then n
    else
      var q := NextBound(al, k + 1, n);
      if al[k].left.Some? && al[k].left.value < q then al[k].left.value else q
  }

  /** The inner loop `for i in range(lo, hi)` testing for a loose match with `x`. */
  function FirstLoose(a: seq<Entry>, x: Entry, lo: nat, hi: int): (r: Option<nat>)
    requires hi <= |a|
    ensures r.Some? ==> lo <= r.value < hi && LooseMatch(a[r.value], x)
    ensures forall i :: lo <= i < hi && (r.None? || i < r.value) ==> !LooseMatch(a[i], x)
    decreases hi - lo
  {
    if lo >= hi then None
    else if LooseMatch(a[lo], x) then Some(lo)
    else FirstLoose(a, x, lo + 1, hi)
  }

  /** Row `k` after the second pass, which reads the first-pass row `k` before writing it. */
  function LooseRow(a: seq<Entry>, b: seq<Entry>, al: seq<Pair>, k: nat): Pair
    requires k < |al| && al[k].right < |b|
  {
    if al[k].left.Some? then al[k]
    else
      match FirstLoose(a, b[al[k].right], PrevBound(al, k) + 1, NextBound(al, k, |a|))
      case Some(i) => Pair(Some(i), al[k].right)
      case None => al[k]
  }

  /** The second pass over the first-pass alignment `al`. */
  function LoosePass(a: seq<Entry>, b: seq<Entry>, al: seq<Pair>): (r: seq<Pair>)
    requires forall k :: 0 <= k < |al| ==> al[k].right < |b|
    ensures |r| == |al|
    ensures Rights(r) == Rights(al)
    ensures forall k :: 0 <= k < |al| && al[k].left.Some? ==> r[k] == al[k]
    ensures forall k :: 0 <= k < |al| && al[k].left.None? && r[k].left.Some? ==>
      var i := r[k].left.value;
      && PrevBound(al, k) < i < NextBound(al, k, |a|)
      && LooseMatch(a[i], b[al[k].right])
      && forall i' :: PrevBound(al, k) < i' < i ==> !LooseMatch(a[i'], b[al[k].right])
    ensures forall k :: 0 <= k < |al| && r[k].left.None? ==>
      forall i' :: PrevBound(al, k) < i' < NextBound(al, k, |a|) ==> !LooseMatch(a[i'], b[al[k].right])
  {
    seq(|al|, k requires 0 <= k < |al| => LooseRow(a, b, al, k))
  }

  /** Passes 1 and 2: the alignment that is materialised. */
  function Intermediate(a: seq<Entry>, b: seq<Entry>): (r: seq<Pair>)
    ensures |r| == |b|
    ensures Rights(r) == Range(0, |b|)
    ensures LeftsBelow(r, |a|)
  {
    LoosePass(a, b, ExactPass(a, b, 0, 0))
  }

  // ---------------------------------------------------------------------------
  // Pass 3: materialise the rows (comparify.py:78-90)

  /** `(a[i], None)` for `i` in `range(lo, hi)`. */
  function Fill(lo: nat, hi: nat): (r: seq<Slot>)
    ensures |r| == if lo < hi then hi - lo else 0
    ensures forall k :: 0 <= k < |r| ==> r[k] == Slot(Some(lo + k), None)
    ensures LeftIx(r) == Range(lo, hi)
    ensures RightIx(r) == []
    decreases hi - lo
  {
    if lo >= hi then [] else [Slot(Some(lo), None)] + Fill(lo + 1, hi)
  }

  /**
   * The materialising loop over `al` with `prev_i == prev`, followed by the
   * trailing `(a[i], None)` rows. A locked row first emits the skipped
   * entries `prev_i .. i - 1`, then sets `prev_i` to `i + 1`, which may move it
   * backwards.
   */
  function Layout(n: nat, al: seq<Pair>, prev: nat): (r: seq<Slot>)
    requires LeftsBelow(al, n)
    ensures forall k :: 0 <= k < |r| ==> r[k].left.Some? || r[k].right.Some?
    ensures forall k :: 0 <= k < |r| && r[k].left.Some? ==> r[k].left.value < n
    decreases |al|
  {
    if al == [] then Fill(prev, n)
    else
      var rest := Layout(n, al[1..], Step(al[0], prev));
      match al[0].left
      case None => [Slot(None, Some(al[0].right))] + rest
      case Some(i) => Fill(prev, i) + [Slot(Some(i), Some(al[0].right))] + rest
  }

  /** The right column of one step of `Layout`: the pair's right index, then the rest. */
  lemma LayoutRightsStep(n: nat, al: seq<Pair>, prev: nat)
    requires al != [] && LeftsBelow(al, n)
    ensures RightIx(Layout(n, al, prev)) == [al[0].right] + RightIx(Layout(n, al[1..], Step(al[0], prev)))
  {
    var rest := Layout(n, al[1..], Step(al[0], prev));
    match al[0].left
    case None =>
      var head := [Slot(None, Some(al[0].right))];
      assert Layout(n, al, prev) == head + rest;
      assert RightIx(head) == [al[0].right];
      RightIxAppend(head, rest);
    case Some(i) =>
      var mid := [Slot(Some(i), Some(al[0].right))];
      var head := Fill(prev, i) + mid;
      assert Layout(n, al, prev) == head + rest;
      assert RightIx(mid) == [al[0].right];
      RightIxAppend(Fill(prev, i), mid);
      RightIxAppend(head, rest);
  }

  /** Every pair of the alignment yields exactly one row carrying its right index, in order. */
  lemma {:induction false} LayoutRights(n: nat, al: seq<Pair>, prev: nat)
    requires LeftsBelow(al, n)
    ensures RightIx(Layout(n, al, prev)) == Rights(al)
    decreases |al|
  {
    if al != [] {
      LayoutRightsStep(n, al, prev);
      LayoutRights(n, al[1..], Step(al[0], prev));
      assert Rights(al) == [al[0].right] + Rights(al[1..]);
    }
  }

  /** The skipped-entry rows carry no right index. */
  lemma {:induction false} FillCarries(lo: nat, hi: nat)
    ensures Carrying(Fill(lo, hi)) == []
    decreases hi - lo
  {
    if lo < hi {
      FillCarries(lo + 1, hi);
      assert Fill(lo, hi) == [Slot(Some(lo), None)] + Fill(lo + 1, hi);
    }
  }

  /** The rows of one step of `Layout` that carry a right index: the pair's row, then the rest. */
  lemma LayoutPairsStep(n: nat, al: seq<Pair>, prev: nat)
    requires al != [] && LeftsBelow(al, n)
    ensures Carrying(Layout(n, al, prev)) ==
      [Slot(al[0].left, Some(al[0].right))] + Carrying(Layout(n, al[1..], Step(al[0], prev)))
  {
    var rest := Layout(n, al[1..], Step(al[0], prev));
    var mid := [Slot(al[0].left, Some(al[0].right))];
    assert Carrying(mid) == mid;
    match al[0].left
    case None =>
      assert Layout(n, al, prev) == mid + rest;
      CarryingAppend(mid, rest);
    case Some(i) =>
      var head := Fill(prev, i) + mid;
      assert Layout(n, al, prev) == head + rest;
      FillCarries(prev, i);
      CarryingAppend(Fill(prev, i), mid);
      CarryingAppend(head, rest);
  }

  /**
   * Each pair `(i, j)` of the alignment becomes exactly the row `(i, j)`, and
   * each unlocked pair the row `(None, j)`, in alignment order; every other
   * row is a skipped-entry row without a right index.
   */
  lemma {:induction false} LayoutPairs(n: nat, al: seq<Pair>, prev: nat)
    requires LeftsBelow(al, n)
    ensures Carrying(Layout(n, al, prev)) == AsSlots(al)
    decreases |al|
  {
    if al == [] {
      FillCarries(prev, n);
    } else {
      LayoutPairsStep(n, al, prev);
      LayoutPairs(n, al[1..], Step(al[0], prev));
      assert AsSlots(al) == [Slot(al[0].left, Some(al[0].right))] + AsSlots(al[1..]);
    }
  }

  /**
   * Inside a gap the right-only rows come first: a row without a right index
   * is followed only by a row with a left index. An unlocked `b[j]` is
   * appended at once, a skipped `a[i]` only when the next lock or the end is
   * reached.
   */
  predicate GapOrdered(rows: seq<Slot>)
  {
    forall k :: 0 <= k < |rows| - 1 && rows[k].right.None? ==> rows[k + 1].left.Some?
  }

  /** Two gap-ordered runs stay gap-ordered when the join respects the order. */
  lemma GapAppend(x: seq<Slot>, y: seq<Slot>)
    requires GapOrdered(x) && GapOrdered(y)
    requires x != [] && x[|x| - 1].right.None? ==> y == [] || y[0].left.Some?
    ensures GapOrdered(x + y)
  {
    var xy := x + y;
    forall k | 0 <= k < |xy| - 1 && xy[k].right.None?
      ensures xy[k + 1].left.Some?
    {
      if k < |x| - 1 {
        assert xy[k] == x[k] && xy[k + 1] == x[k + 1];
      } else if k == |x| - 1 {
        assert xy[k] == x[k] && xy[k + 1] == y[0];
      } else {
        assert xy[k] == y[k - |x|] && xy[k + 1] == y[k - |x| + 1];
      }
    }
  }

  /** The rows `align` materialises keep every gap's right-only rows ahead of its left-only rows. */
  lemma {:induction false} LayoutGapOrdered(n: nat, al: seq<Pair>, prev: nat)
    requires LeftsBelow(al, n)
    ensures GapOrdered(Layout(n, al, prev))
    decreases |al|
  {
    if al != [] {
      var rest := Layout(n, al[1..], Step(al[0], prev));
      var mid := [Slot(al[0].left, Some(al[0].right))];
      LayoutGapOrdered(n, al[1..], Step(al[0], prev));
      match al[0].left
      case None =>
        assert Layout(n, al, prev) == mid + rest;
        GapAppend(mid, rest);
      case Some(i) =>
        assert Layout(n, al, prev) == (Fill(prev, i) + mid) + rest;
        GapAppend(Fill(prev, i), mid);
        GapAppend(Fill(prev, i) + mid, rest);
    }
  }

  /** The left column of one step of `Layout`: the skipped indices and the lock, if any, then the rest. */
  lemma LayoutLefts(n: nat, al: seq<Pair>, prev: nat)
    requires al != [] && LeftsBelow(al, n)
    ensures al[0].left.None? ==>
      LeftIx(Layout(n, al, prev)) == LeftIx(Layout(n, al[1..], prev))
    ensures al[0].left.Some? ==>
      LeftIx(Layout(n, al, prev)) ==
        Range(prev, al[0].left.value) + [al[0].left.value] + LeftIx(Layout(n, al[1..], al[0].left.value + 1))
  {
    var rest := Layout(n, al[1..], Step(al[0], prev));
    match al[0].left
    case None =>
      var head := [Slot(None, Some(al[0].right))];
      assert Layout(n, al, prev) == head + rest;
      LeftIxAppend(head, rest);
    case Some(i0) =>
      var mid := [Slot(Some(i0), Some(al[0].right))];
      var head := Fill(prev, i0) + mid;
      assert Layout(n, al, prev) == head + rest;
      assert LeftIx(mid) == [i0];
      LeftIxAppend(Fill(prev, i0), mid);
      LeftIxAppend(head, rest);
  }

  /**
   * Every index from `prev` up to `n` is emitted: those below `prev_i` were
   * emitted before, and a lock that moves `prev_i` backwards only re-emits.
   */
  lemma {:induction false} LayoutCovers(n: nat, al: seq<Pair>, prev: nat, i: nat)
    requires LeftsBelow(al, n)
    requires prev <= i < n
    ensures i in LeftIx(Layout(n, al, prev))
    decreases |al|
  {
    if al == [] {
      RangeHas(prev, n, i);
    } else if al[0].left.None? {
      LayoutCovers(n, al[1..], prev, i);
      LayoutLefts(n, al, prev);
    } else {
      var i0 := al[0].left.value;
      if i > i0 {
        LayoutCovers(n, al[1..], i0 + 1, i);
      }
      CoversLocked(n, al, prev, i);
    }
  }

  /** A lock at `i0` emits the indices from `prev_i` up to `i0`, and the rest come after. */
  lemma CoversLocked(n: nat, al: seq<Pair>, prev: nat, i: nat)
    requires al != [] && LeftsBelow(al, n) && al[0].left.Some?
    requires prev <= i
    requires i <= al[0].left.value || i in LeftIx(Layout(n, al[1..], al[0].left.value + 1))
    ensures i in LeftIx(Layout(n, al, prev))
  {
    LayoutLefts(n, al, prev);
    InJoin(prev, al[0].left.value, i, LeftIx(Layout(n, al[1..], al[0].left.value + 1)));
  }

  lemma InJoin(lo: nat, i0: nat, i: nat, rest: seq<nat>)
    requires lo <= i
    requires i <= i0 || i in rest
    ensures i in Range(lo, i0) + [i0] + rest
  {
    if i < i0 {
      RangeHas(lo, i0, i);
    }
  }

  /** `x[i]` for a present index. */
  function At(xs: seq<Entry>, i: Option<nat>): Option<Entry>
    requires i.Some? ==> i.value < |xs|
  {
    match i
    case None => None
    case Some(v) => Some(xs[v])
  }

  /** Replace the indices of `slots` by the entries of `a` and `b` they index. */
  function Resolve(a: seq<Entry>, b: seq<Entry>, slots: seq<Slot>): (r: seq<Row>)
    requires forall k :: 0 <= k < |slots| && slots[k].left.Some? ==> slots[k].left.value < |a|
    requires forall k :: 0 <= k < |slots| && slots[k].right.Some? ==> slots[k].right.value < |b|
    ensures |r| == |slots|
    ensures forall k :: 0 <= k < |r| ==> r[k] == Row(At(a, slots[k].left), At(b, slots[k].right))
    decreases |slots|
  {
    if slots == [] then []
    else [Row(At(a, slots[0].left), At(b, slots[0].right))] + Resolve(a, b, slots[1..])
  }

  lemma {:induction false} ResolveEntries(a: seq<Entry>, b: seq<Entry>, slots: seq<Slot>)
    requires forall k :: 0 <= k < |slots| && slots[k].left.Some? ==> slots[k].left.value < |a|
    requires forall k :: 0 <= k < |slots| && slots[k].right.Some? ==> slots[k].right.value < |b|
    ensures Picks(a, LeftIx(slots), LeftEntries(Resolve(a, b, slots)))
    ensures Picks(b, RightIx(slots), RightEntries(Resolve(a, b, slots)))
    decreases |slots|
  {
    if slots != [] {
      var r := Resolve(a, b, slots);
      assert r[1..] == Resolve(a, b, slots[1..]);
      ResolveEntries(a, b, slots[1..]);
    }
  }

  lemma PicksRange(xs: seq<Entry>, ys: seq<Entry>)
    requires Picks(xs, Range(0, |xs|), ys)
    ensures ys == xs
  {
  }

  lemma PicksCovers(xs: seq<Entry>, ix: seq<nat>, ys: seq<Entry>)
    requires Picks(xs, ix, ys)
    requires forall i :: 0 <= i < |xs| ==> i in ix
    ensures forall i :: 0 <= i < |xs| ==> xs[i] in ys
  {
    forall i | 0 <= i < |xs|
      ensures xs[i] in ys
    {
      assert i in ix;
      var k :| 0 <= k < |ix| && ix[k] == i;
      assert ys[k] == xs[i];
    }
  }

  /** The rows that carry a right entry, in order. */
  function CarryingRows(rows: seq<Row>): seq<Row>
  {
    if rows == [] then []
    else (if rows[0].right.Some? then [rows[0]] else []) + CarryingRows(rows[1..])
  }

  /** Resolving keeps exactly the rows that carry a right index. */
  lemma {:induction false} ResolveCarrying(a: seq<Entry>, b: seq<Entry>, slots: seq<Slot>)
    requires forall k :: 0 <= k < |slots| && slots[k].left.Some? ==> slots[k].left.value < |a|
    requires forall k :: 0 <= k < |slots| && slots[k].right.Some? ==> slots[k].right.value < |b|
    ensures forall k :: 0 <= k < |Carrying(slots)| ==>
      (Carrying(slots)[k].left.Some? ==> Carrying(slots)[k].left.value < |a|) &&
      (Carrying(slots)[k].right.Some? ==> Carrying(slots)[k].right.value < |b|)
    ensures CarryingRows(Resolve(a, b, slots)) == Resolve(a, b, Carrying(slots))
    decreases |slots|
  {
    if slots != [] {
      var r := Resolve(a, b, slots);
      var rest := Carrying(slots[1..]);
      assert r[1..] == Resolve(a, b, slots[1..]);
      ResolveCarrying(a, b, slots[1..]);
      if slots[0].right.Some? {
        assert Carrying(slots) == [slots[0]] + rest;
        assert Resolve(a, b, [slots[0]] + rest)[1..] == Resolve(a, b, rest) by {
          assert ([slots[0]] + rest)[1..] == rest;
        }
      } else {
        assert Carrying(slots) == rest;
      }
    }
  }

  // ---------------------------------------------------------------------------
  // The whole aligner

  /**
   * `align(a, b)` by index. The extras loop reads the `j` the first loop left
   * behind: unbound, it raises before anything is returned; bound, the loop
   * appends nothing, so the rows come from the two passes alone.
   */
  function AlignSlots(a: seq<Entry>, b: seq<Entry>): (r: Result<seq<Slot>, PyError>)
    ensures r.Failure? <==> LoopVar(b, 0, None).None?
    ensures r.Failure? <==> |b| == 0
    ensures r.Failure? ==> r.error == UnboundLocalError
    ensures r.Success? ==> RightIx(r.value) == Range(0, |b|)
    ensures r.Success? ==> Carrying(r.value) == AsSlots(Intermediate(a, b))
    ensures r.Success? ==> GapOrdered(r.value)
    ensures r.Success? ==> forall i :: 0 <= i < |a| ==> i in LeftIx(r.value)
    ensures r.Success? ==> forall k :: 0 <= k < |r.value| ==>
      (r.value[k].left.Some? || r.value[k].right.Some?)
      && (r.value[k].left.Some? ==> r.value[k].left.value < |a|)
      && (r.value[k].right.Some? ==> r.value[k].right.value < |b|)
  {
    ExtrasAppendNothing(b);
    match LoopVar(b, 0, None)
    case None => Failure(UnboundLocalError)
    case Some(j) =>
      assert ExtrasLoop(b, j + 1) == [];
      var rows := Layout(|a|, Intermediate(a, b), 0);
      LayoutRights(|a|, Intermediate(a, b), 0);
      LayoutPairs(|a|, Intermediate(a, b), 0);
      LayoutGapOrdered(|a|, Intermediate(a, b), 0);
      assert forall i :: 0 <= i < |a| ==> i in LeftIx(rows) by {
        forall i | 0 <= i < |a|
          ensures i in LeftIx(rows)
        {
          LayoutCovers(|a|, Intermediate(a, b), 0, i);
        }
      }
      assert forall k :: 0 <= k < |rows| && rows[k].right.Some? ==> rows[k].right.value < |b| by {
        forall k | 0 <= k < |rows| && rows[k].right.Some?
          ensures rows[k].right.value < |b|
        {
          RightIxHasRow(rows, k);
        }
      }
      Success(rows)
  }

  lemma {:induction false} RightIxHasRow(rows: seq<Slot>, k: nat)
    requires k < |rows| && rows[k].right.Some?
    ensures rows[k].right.value in RightIx(rows)
    decreases k
  {
    if k > 0 {
      RightIxHasRow(rows[1..], k - 1);
    }
  }

  /** `align(a, b)`: the merged rows, or the exception it raises. */
  function Align(a: seq<Entry>, b: seq<Entry>): (r: Result<seq<Row>, PyError>)
    ensures r.Failure? <==> |b| == 0
    ensures r.Failure? ==> r.error == UnboundLocalError
    ensures r.Success? ==> RightEntries(r.value) == b
    ensures r.Success? ==> |CarryingRows(r.value)| == |b|
    ensures r.Success? ==> forall j :: 0 <= j < |b| ==>
      CarryingRows(r.value)[j] == Row(At(a, Intermediate(a, b)[j].left), Some(b[j]))
    ensures r.Success? ==> forall k :: 0 <= k < |r.value| ==> r.value[k].left.Some? || r.value[k].right.Some?
    ensures r.Success? ==> forall k :: 0 <= k < |r.value| - 1 && r.value[k].right.None? ==> r.value[k + 1].left.Some?
    ensures r.Success? ==> forall i :: 0 <= i < |a| ==> a[i] in LeftEntries(r.value)
  {
    match AlignSlots(a, b)
    case Failure(e) => Failure(e)
    case Success(slots) =>
      var rows := Resolve(a, b, slots);
      ResolveEntries(a, b, slots);
      PicksRange(b, RightEntries(rows));
      PicksCovers(a, LeftIx(slots), LeftEntries(rows));
      ResolveCarrying(a, b, slots);
      AlignPairs(a, b, Carrying(slots));
      Success(rows)
  }

  /** The resolved rows of the pairs: row `j` holds the entry its lock picks, if any, and `b[j]`. */
  lemma AlignPairs(a: seq<Entry>, b: seq<Entry>, cs: seq<Slot>)
    requires cs == AsSlots(Intermediate(a, b))
    requires forall k :: 0 <= k < |cs| ==>
      (cs[k].left.Some? ==> cs[k].left.value < |a|) && (cs[k].right.Some? ==> cs[k].right.value < |b|)
    ensures |Resolve(a, b, cs)| == |b|
    ensures forall j :: 0 <= j < |b| ==> Resolve(a, b, cs)[j] == Row(At(a, Intermediate(a, b)[j].left), Some(b[j]))
  {
    var al := Intermediate(a, b);
    forall j | 0 <= j < |b|
      ensures Resolve(a, b, cs)[j] == Row(At(a, al[j].left), Some(b[j]))
    {
      assert Rights(al)[j] == Range(0, |b|)[j];
      assert cs[j] == Slot(al[j].left, Some(j));
    }
  }
}
