/**
 * Sequence facts the loops of module Queue need at each step: how the
 * entries of a chain look part-way through a walk.
 */
module QueueSteps {
  import opened Strings
  import opened Rings
  import opened QueueSpec

  lemma Overwrite(m: map<nat, seq<Entry>>, k: nat, x: seq<Entry>, y: seq<Entry>)
    ensures m[k := x][k := y] == m[k := y]
  {
  }

  /** A scratch chain that ends empty again, around an update of chain `k`, leaves only that update behind. */
  lemma Restore(m: map<nat, seq<Entry>>, k: nat, p: nat, x: seq<Entry>, v: seq<Entry>, y: seq<Entry>)
    requires p in m && m[p] == [] && p != k
    ensures m[k := x][p := v][k := y][p := []] == m[k := y]
  {
  }

  /** Dropping a scratch chain that was not there at the start leaves only the update of chain `k`. */
  lemma Unscratch(m: map<nat, seq<Entry>>, k: nat, p: nat, x: seq<Entry>)
    requires p !in m && p != k
    ensures m[p := []][k := x] - {p} == m[k := x]
  {
  }

  /** Chains that agree from entry `i` on are visited alike from step `i` on. */
  lemma SlotsAgree(h: nat, r: seq<Entry>, o: seq<Entry>, i: nat)
    requires |r| == |o| && i <= |o| && r[i..] == o[i..]
    ensures forall j | i <= j <= |o| :: Slot(h, r, j) == Slot(h, o, j)
  {
    forall j | i <= j < |o| ensures r[j] == o[j] {
      assert r[j] == r[i..][j - i];
    }
  }

  lemma RemoveIndex(r: seq<Entry>, i: nat)
    requires i < |r|
    ensures |Remove(r, i)| == |r| - 1
    ensures forall j | 0 <= j < |r| - 1 :: Remove(r, i)[j] == if j < i then r[j] else r[j + 1]
  {
  }

  /**
   * The chain q_reverse has built after its first `i` moves: each move takes
   * the entry at index `j` (the first one not yet moved) to the front.
   */
  ghost function Reversing(o: seq<Entry>, i: nat): (r: seq<Entry>)
    requires i <= |o|
    ensures |r| == |o|
    decreases i
  {
    if i == 0 then o else var p := Reversing(o, i - 1); Insert(Remove(p, i - 1), 0, p[i - 1])
  }

  /** Reversing a chain with one more entry puts that entry first. */
  lemma ReverseSnoc(x: seq<Entry>, e: Entry)
    ensures Reverse(x + [e]) == [e] + Reverse(x)
  {
    var s := x + [e];
    assert s[|s| - 1] == e && s[..|s| - 1] == x;
  }

  /** Moving the first entry not yet reversed to the front extends the reversed prefix by it. */
  lemma MoveToFrontShape(x: seq<Entry>, y: seq<Entry>)
    requires y != []
    ensures var p := Reverse(x) + y; |x| < |p| && Insert(Remove(p, |x|), 0, p[|x|]) == Reverse(x + [y[0]]) + y[1..]
  {
    var rx, e := Reverse(x), y[0];
    ReverseIndex(x);
    var p := rx + y;
    assert p[..|x|] == rx && p[|x| + 1..] == y[1..];
    var q := Remove(p, |x|);
    assert q == rx + y[1..];
    assert Insert(q, 0, e) == [e] + q;
    ReverseSnoc(x, e);
    assert [e] + q == ([e] + rx) + y[1..];
  }

  /** After `i` moves the first `i` entries are reversed and the rest are untouched. */
  lemma {:induction false} ReversingShape(o: seq<Entry>, i: nat)
    requires i <= |o|
    ensures Reversing(o, i) == Reverse(o[..i]) + o[i..]
    ensures Reversing(o, i)[i..] == o[i..]
    decreases i
  {
    if i == 0 {
      assert Reverse(o[..0]) == [];
    } else {
      ReversingShape(o, i - 1);
      MoveToFrontShape(o[..i - 1], o[i - 1..]);
      assert o[..i - 1] + [o[i - 1..][0]] == o[..i];
      assert o[i - 1..][1..] == o[i..];
    }
    ReverseIndex(o[..i]);
    assert (Reverse(o[..i]) + o[i..])[i..] == o[i..];
  }

  /** Once every entry has moved, the chain is reversed. */
  lemma ReversingDone(o: seq<Entry>)
    ensures Reversing(o, |o|) == Reverse(o)
  {
    ReversingShape(o, |o|);
    assert o[..|o|] == o;
  }

  /** The slow pointer of a slow/fast walk that stopped with `2i` one or two short of `n` is on the middle. */
  lemma MiddleReached(i: nat, n: nat)
    requires 2 * i + 1 == n || 2 * i + 2 == n
    ensures n > 0 && Middle(n) == i
  {
  }

  /**
   * The chain q_swap has built after handling its first `p` pairs: those
   * pairs exchanged, the entries from index `2p` on untouched.
   */
  ghost function Swapped(o: seq<Entry>, p: nat): (r: seq<Entry>)
    requires 2 * p <= |o|
  {
    SwapPairs(o[..2 * p]) + o[2 * p..]
  }

  /** Moving the entry just after a prefix `x` one place back exchanges the first two entries of the rest. */
  lemma MoveBehind(x: seq<Entry>, r: seq<Entry>)
    requires |r| >= 2
    ensures Insert(Remove(x + r, |x|), |x| + 1, (x + r)[|x|]) == x + [r[1], r[0]] + r[2..]
  {
    var j := |x|;
    var s := x + r;
    assert s[..j] == x && s[j + 1..] == r[1..];
    var t := Remove(s, j);
    assert t == x + r[1..];
    assert t[..j + 1] == x + [r[1]] && t[j + 1..] == r[2..];
  }

  /** Swapping the first `m` pairs, which end at index `j`, and then one more pair. */
  lemma SwapPairsExtend(o: seq<Entry>, j: nat, m: nat)
    requires j == 2 * m && j + 2 <= |o|
    ensures SwapPairs(o[..j + 2]) == SwapPairs(o[..j]) + [o[j + 1], o[j]]
  {
    var pair := o[j..j + 2];
    assert o[..j] + pair == o[..j + 2];
    Even(m);
    assert |o[..j]| % 2 == 0;
    SwapPairsSplit(o[..j], pair);
    assert SwapPairs(pair) == [pair[1], pair[0]] + SwapPairs(pair[2..]);
    assert pair[2..] == [];
  }

  /** Nothing is swapped before the first step. */
  lemma SwappedStart(o: seq<Entry>)
    ensures Swapped(o, 0) == o
  {
    assert o[..0] == [];
  }

  /** The entries from index `2p` on are untouched after `p` steps. */
  lemma SwappedTail(o: seq<Entry>, p: nat)
    requires 2 * p <= |o|
    ensures |Swapped(o, p)| == |o| && Swapped(o, p)[2 * p..] == o[2 * p..]
  {
    assert |SwapPairs(o[..2 * p])| == 2 * p;
  }

  /** One q_swap step, moving the entry at index `2p` behind its successor, handles pair `p`. */
  lemma SwappedNext(o: seq<Entry>, p: nat)
    requires 2 * p + 2 <= |o|
    ensures var q := Swapped(o, p); |q| == |o| && Insert(Remove(q, 2 * p), 2 * p + 1, q[2 * p]) == Swapped(o, p + 1)
  {
    var j := 2 * p;
    var x := SwapPairs(o[..j]);
    var r := o[j..];
    assert Swapped(o, p) == x + r && |x| == j;
    MoveBehind(x, r);
    assert r[1] == o[j + 1] && r[0] == o[j] && r[2..] == o[j + 2..];
    SwapPairsExtend(o, j, p);
    assert j + 2 == 2 * (p + 1);
  }

  /** After step `p + 1` the entry from index `2p` sits one place later, and everything past the pair is untouched. */
  lemma SwappedPair(o: seq<Entry>, p: nat)
    requires 2 * p + 2 <= |o|
    ensures |Swapped(o, p + 1)| == |o|
    ensures Swapped(o, p + 1)[2 * p + 1] == o[2 * p]
    ensures Swapped(o, p + 1)[2 * p + 2..] == o[2 * p + 2..]
  {
    var j := 2 * p;
    var x := SwapPairs(o[..j]);
    assert |x| == j;
    SwapPairsExtend(o, j, p);
    assert j + 2 == 2 * (p + 1);
    assert Swapped(o, p + 1) == x + [o[j + 1], o[j]] + o[j + 2..];
  }

  /** Twice a count is even. */
  lemma Even(m: nat)
    ensures (2 * m) % 2 == 0
  {
  }

  /** Once no complete pair is left, the chain is swapped in pairs. */
  lemma SwappedDone(o: seq<Entry>, p: nat)
    requires 2 * p == |o| || 2 * p + 1 == |o|
    ensures Swapped(o, p) == SwapPairs(o)
  {
    var j := 2 * p;
    var front, rest := o[..j], o[j..];
    assert front + rest == o;
    assert |rest| < 2;
    assert SwapPairs(rest) == rest;
    Even(p);
    assert |front| % 2 == 0;
    SwapPairsSplit(front, rest);
  }

  /**
   * The chain q_delete_dup has left after handling its first `i` entries:
   * the lonely ones among them, then the entries not yet visited.
   */
  ghost function Deduping(o: seq<Entry>, i: nat): seq<Entry>
    requires i <= |o|
  {
    Thin(o, i) + o[i..]
  }

  lemma DedupingStart(o: seq<Entry>)
    ensures Deduping(o, 0) == o
  {
  }

  lemma DedupingDone(o: seq<Entry>)
    ensures Deduping(o, |o|) == DeleteDup(o)
  {
  }

  /** The entry q_delete_dup visits `i`-th stands just after the kept ones, followed by the rest of `o`. */
  lemma DedupingAt(o: seq<Entry>, i: nat)
    requires i < |o|
    ensures var d := Deduping(o, i); var t := |Thin(o, i)|;
      && t < |d| && |d| - t == |o| - i && d[t] == o[i]
      && (i + 1 < |o| ==> d[t + 1] == o[i + 1])
  {
    var t := |Thin(o, i)|;
    var d := Thin(o, i) + o[i..];
    assert d[t] == o[i..][0];
    if i + 1 < |o| {
      assert d[t + 1] == o[i..][1];
    }
  }

  /** A lonely entry stays where it is. */
  lemma DedupingKeep(o: seq<Entry>, i: nat)
    requires i < |o| && Lonely(o, i)
    ensures Deduping(o, i + 1) == Deduping(o, i)
  {
    assert Thin(o, i + 1) == Thin(o, i) + [o[i]];
    assert o[i..] == [o[i]] + o[i + 1..];
  }

  /** An entry with an equal neighbour is unlinked from where it stands. */
  lemma DedupingDrop(o: seq<Entry>, i: nat)
    requires i < |o| && !Lonely(o, i)
    ensures |Thin(o, i)| < |Deduping(o, i)| && Deduping(o, i + 1) == Remove(Deduping(o, i), |Thin(o, i)|)
  {
    var t := Thin(o, i);
    var d := t + o[i..];
    assert Thin(o, i + 1) == t;
    assert d[..|t|] == t && d[|t| + 1..] == o[i + 1..];
  }

  /**
   * `cur_min` (`descend` false) or `cur_max` of the backward scan of
   * q_ascend and q_descend once it has handled the entries from index `i`
   * on: NULL before the first, then the string of the last entry kept.
   */
  ghost function Running(o: seq<Entry>, i: nat, descend: bool): (c: Option<CString>)
    requires i <= |o|
    ensures c.None? <==> i == |o|
    decreases |o| - i
  {
    if i == |o| then None
    else
      var c := Running(o, i + 1, descend);
      if c.Some? && !Ordered(o[i].val, c.value, descend) then c else Some(o[i].val)
  }

  /** The scan keeps entry `i`: it is the first one seen, or `strcmp` does not put it after the running extreme. */
  ghost predicate Keeps(o: seq<Entry>, i: nat, descend: bool)
    requires i < |o|
  {
    var c := Running(o, i + 1, descend);
    c.None? || Ordered(o[i].val, c.value, descend)
  }

  /**
   * The chain q_ascend or q_descend has left once its backward scan has
   * handled every entry from index `i` on: each step keeps entry `i` or
   * unlinks it.
   */
  ghost function Pruning(o: seq<Entry>, i: nat, descend: bool): (r: seq<Entry>)
    requires i <= |o|
    ensures |r| >= i
    decreases |o| - i
  {
    if i == |o| then o
    else
      var p := Pruning(o, i + 1, descend);
      if Keeps(o, i, descend) then p else Remove(p, i)
  }

  /** The running extreme is `Extreme` of what the scan has seen, so the scan keeps exactly the dominating entries. */
  lemma {:induction false} RunningExtreme(o: seq<Entry>, i: nat, descend: bool)
    requires i < |o|
    ensures Running(o, i, descend) == Some(Extreme(o[i..], descend))
    ensures Keeps(o, i, descend) <==> Dominates(o[i..], descend)
    decreases |o| - i
  {
    if i + 1 == |o| {
      var s := o[i..];
      assert |s| == 1 && s[0] == o[i];
    } else {
      RunningExtreme(o, i + 1, descend);
      PruneChoice(o, i + 1, descend);
      assert i + 1 - 1 == i;
    }
  }

  /** `Survivors` on the entries from `i` on, unfolded once. */
  lemma SurvivorsFrom(o: seq<Entry>, i: nat, descend: bool)
    requires i < |o|
    ensures Survivors(o[i..], descend) == (if Dominates(o[i..], descend) then [o[i]] else []) + Survivors(o[i + 1..], descend)
  {
    var s := o[i..];
    assert s[0] == o[i] && s[1..] == o[i + 1..];
  }

  /** Unlinking entry `i` from a chain whose first `i + 1` entries are those of `o`. */
  lemma RemoveLast(o: seq<Entry>, i: nat, u: seq<Entry>)
    requires i < |o|
    ensures Remove(o[..i + 1] + u, i) == o[..i] + u
  {
    var p := o[..i + 1] + u;
    assert p[..i] == o[..i] && p[i + 1..] == u;
  }

  /** After the scan has handled the entries from `i` on, those before `i` are as they were and the rest are the survivors. */
  lemma {:induction false} PruningShape(o: seq<Entry>, i: nat, descend: bool)
    requires i <= |o|
    ensures Pruning(o, i, descend) == o[..i] + Survivors(o[i..], descend)
    decreases |o| - i
  {
    if i == |o| {
      assert o[i..] == [] && o[..i] == o;
    } else {
      PruningShape(o, i + 1, descend);
      RunningExtreme(o, i, descend);
      SurvivorsFrom(o, i, descend);
      var u := Survivors(o[i + 1..], descend);
      if Keeps(o, i, descend) {
        assert o[..i + 1] == o[..i] + [o[i]];
        assert o[..i + 1] + u == o[..i] + ([o[i]] + u);
      } else {
        RemoveLast(o, i, u);
        assert [] + u == u;
      }
    }
  }

  lemma PruningStart(o: seq<Entry>, descend: bool)
    ensures Pruning(o, |o|, descend) == o && Running(o, |o|, descend) == None
  {
  }

  lemma PruningDone(o: seq<Entry>, descend: bool)
    ensures Pruning(o, 0, descend) == Survivors(o, descend)
  {
    PruningShape(o, 0, descend);
    assert o[..0] == [] && o[0..] == o;
  }

  /** A step that keeps entry `i - 1` leaves the chain and makes that entry's string the running extreme. */
  lemma PruningKeep(o: seq<Entry>, i: nat, descend: bool)
    requires 0 < i <= |o|
    requires var c := Running(o, i, descend); c.None? || Ordered(o[i - 1].val, c.value, descend)
    ensures Pruning(o, i - 1, descend) == Pruning(o, i, descend)
    ensures Running(o, i - 1, descend) == Some(o[i - 1].val)
  {
    var j := i - 1;
    assert j + 1 == i;
  }

  /** A step that drops entry `i - 1` unlinks it and leaves the running extreme. */
  lemma PruningDrop(o: seq<Entry>, i: nat, descend: bool)
    requires 0 < i <= |o|
    requires var c := Running(o, i, descend); c.Some? && !Ordered(o[i - 1].val, c.value, descend)
    ensures i - 1 < |Pruning(o, i, descend)| && Pruning(o, i - 1, descend) == Remove(Pruning(o, i, descend), i - 1)
    ensures Running(o, i - 1, descend) == Running(o, i, descend)
  {
    var j := i - 1;
    assert j + 1 == i;
  }

  /** The entries before `i` are untouched. */
  lemma PruningFront(o: seq<Entry>, i: nat, descend: bool)
    requires i <= |o|
    ensures Pruning(o, i, descend)[..i] == o[..i]
  {
    PruningShape(o, i, descend);
    assert (o[..i] + Survivors(o[i..], descend))[..i] == o[..i];
  }

  /**
   * The test of the backward scan against the running extreme `cur_min` or
   * `cur_max` decides whether entry `i - 1` dominates what follows, and the
   * extreme moves to it exactly when it stays.
   */
  lemma PruneChoice(o: seq<Entry>, i: nat, descend: bool)
    requires 0 < i < |o|
    ensures Dominates(o[i - 1..], descend) <==> Ordered(o[i - 1].val, Extreme(o[i..], descend), descend)
    ensures Extreme(o[i - 1..], descend) == if Ordered(o[i - 1].val, Extreme(o[i..], descend), descend) then o[i - 1].val else Extreme(o[i..], descend)
  {
    var s := o[i - 1..];
    assert s[0] == o[i - 1] && s[1..] == o[i..];
    ExtremeBound(o[i..], descend, o[i - 1].val);
  }

  /**
   * The chain q_reverseK has built once the complete blocks among its first
   * `b` entries have been reversed: those `b` entries block-reversed, the
   * rest untouched.
   */
  ghost function BlockReversed(o: seq<Entry>, b: nat, k: int): (r: seq<Entry>)
    requires b <= |o|
    ensures |r| == |o|
  {
    ReverseKLength(o[..b], k);
    ReverseK(o[..b], k) + o[b..]
  }

  lemma BlockStart(o: seq<Entry>, k: int)
    ensures BlockReversed(o, 0, k) == o
  {
    assert o[..0] == [] && o[0..] == o;
  }

  /** Entries from `b` on are untouched. */
  lemma BlockTail(o: seq<Entry>, b: nat, k: int)
    requires b <= |o|
    ensures |BlockReversed(o, b, k)| == |o| && BlockReversed(o, b, k)[b..] == o[b..]
  {
    ReverseKLength(o[..b], k);
    assert (ReverseK(o[..b], k) + o[b..])[b..] == o[b..];
  }

  /** Reversing the block of `k` entries that ends at index `i` extends the reversed part to `i + 1`. */
  lemma BlockStep(o: seq<Entry>, b: nat, i: nat, k: int)
    requires k > 0 && Multiple(b, k) && b <= i < |o| && i + 1 - b == k
    ensures Multiple(i + 1, k)
    ensures var r := BlockReversed(o, b, k);
      r[..b] + Reverse(r[b..i + 1]) + r[i + 1..] == BlockReversed(o, i + 1, k)
  {
    var j := i + 1;
    assert Multiple(j, k) by {
      assert j - k == b;
    }
    var x := ReverseK(o[..b], k);
    ReverseKLength(o[..b], k);
    var r := x + o[b..];
    assert r[..b] == x && r[j..] == o[j..] && r[b..j] == o[b..j];
    var blk := o[b..j];
    assert ReverseK(blk, k) == Reverse(blk) by {
      assert ReverseK(blk, k) == Reverse(blk[..k]) + ReverseK(blk[k..], k);
      assert blk[..k] == blk && blk[k..] == [];
    }
    assert o[..j] == o[..b] + blk;
    ReverseKSplit(o[..b], blk, k);
  }

  /** The block q_reverseK cuts ends at entry `i`, which still sits where `o` had it. */
  lemma BlockCut(h: nat, o: seq<Entry>, b: nat, i: nat, k: int)
    requires b <= i < |o|
    ensures At(h, BlockReversed(o, b, k), i + 1) == Slot(h, o, i)
  {
    var r := BlockReversed(o, b, k);
    BlockTail(o, b, k);
    assert r[i] == r[b..][i - b];
  }

  /** Cutting entries `b` up to `j` out of a chain leaves the entry before them in place, followed by the rest. */
  lemma CutAt(h: nat, r: seq<Entry>, b: nat, j: nat)
    requires b <= j <= |r|
    ensures var c := r[..b] + r[j..]; b <= |c| && At(h, c, b) == At(h, r, b) && c[..b] == r[..b] && c[b..] == r[j..]
  {
  }

  /** Once fewer than `k` entries are left past the last complete block, the chain is block-reversed. */
  lemma BlockDone(o: seq<Entry>, b: nat, k: int)
    requires b <= |o|
    requires k > 0 ==> Multiple(b, k) && |o| - b < k
    requires k <= 0 ==> b == 0
    ensures BlockReversed(o, b, k) == ReverseK(o, k)
  {
    if k <= 0 {
      assert o[..0] == [] && o[0..] == o;
    } else {
      var rest := o[b..];
      assert ReverseK(rest, k) == rest;
      assert o[..b] + rest == o;
      ReverseKSplit(o[..b], rest, k);
    }
  }

  /*
   * mergeTwoLists
   */

  /** The chains during mergeTwoLists: what is left of `left` and `right`, and the merged prefix on the scratch chain `nh`. */
  ghost function Merging(m: map<nat, seq<Entry>>, left: nat, right: nat, nh: nat,
                         x: seq<Entry>, y: seq<Entry>, acc: seq<Entry>): map<nat, seq<Entry>>
  {
    m[left := x][right := y][nh := acc]
  }

  /** What each of the three chains holds during mergeTwoLists. */
  lemma MergingAt(m: map<nat, seq<Entry>>, left: nat, right: nat, nh: nat, x: seq<Entry>, y: seq<Entry>, acc: seq<Entry>)
    requires left != right && left != nh && right != nh
    ensures var g := Merging(m, left, right, nh, x, y, acc);
      left in g && right in g && nh in g && g[left] == x && g[right] == y && g[nh] == acc
  {
  }

  /** Moving the first entry of `left` to the tail of `nh`. */
  lemma MergingLeft(m: map<nat, seq<Entry>>, left: nat, right: nat, nh: nat, x: seq<Entry>, y: seq<Entry>, acc: seq<Entry>)
    requires left != right && left != nh && right != nh && x != []
    ensures var mid := Merging(m, left, right, nh, x, y, acc)[left := Remove(x, 0)];
      mid[nh := mid[nh] + [x[0]]] == Merging(m, left, right, nh, x[1..], y, acc + [x[0]])
  {
    assert Remove(x, 0) == x[1..];
  }

  /** Moving the first entry of `right` to the tail of `nh`. */
  lemma MergingRight(m: map<nat, seq<Entry>>, left: nat, right: nat, nh: nat, x: seq<Entry>, y: seq<Entry>, acc: seq<Entry>)
    requires left != right && left != nh && right != nh && y != []
    ensures var mid := Merging(m, left, right, nh, x, y, acc)[right := Remove(y, 0)];
      mid[nh := mid[nh] + [y[0]]] == Merging(m, left, right, nh, x, y[1..], acc + [y[0]])
  {
    assert Remove(y, 0) == y[1..];
  }

  /** A step of the merge loop that takes the head of the left side extends the merged prefix by it. */
  lemma MergeTakeLeft(l: seq<Entry>, r: seq<Entry>, x: seq<Entry>, y: seq<Entry>, acc: seq<Entry>, descend: bool)
    requires acc + Merge(x, y, descend) == Merge(l, r, descend) && x != [] && y != []
    requires TakesLeft(x[0].val, y[0].val, descend)
    ensures (acc + [x[0]]) + Merge(x[1..], y, descend) == Merge(l, r, descend)
  {
    var t := Merge(x[1..], y, descend);
    assert Merge(x, y, descend) == [x[0]] + t;
    assert (acc + [x[0]]) + t == acc + ([x[0]] + t);
  }

  /** A step of the merge loop that takes the head of the right side extends the merged prefix by it. */
  lemma MergeTakeRight(l: seq<Entry>, r: seq<Entry>, x: seq<Entry>, y: seq<Entry>, acc: seq<Entry>, descend: bool)
    requires acc + Merge(x, y, descend) == Merge(l, r, descend) && x != [] && y != []
    requires !TakesLeft(x[0].val, y[0].val, descend)
    ensures (acc + [y[0]]) + Merge(x, y[1..], descend) == Merge(l, r, descend)
  {
    var t := Merge(x, y[1..], descend);
    assert Merge(x, y, descend) == [y[0]] + t;
    assert (acc + [y[0]]) + t == acc + ([y[0]] + t);
  }

  /** When one side is used up, what is left of both sides completes the merge. */
  lemma MergeRest(l: seq<Entry>, r: seq<Entry>, x: seq<Entry>, y: seq<Entry>, acc: seq<Entry>, descend: bool)
    requires acc + Merge(x, y, descend) == Merge(l, r, descend) && (x == [] || y == [])
    ensures acc + x + y == Merge(l, r, descend)
  {
    if x == [] {
      assert acc + x + y == acc + y;
    } else {
      assert acc + x + y == acc + x;
    }
  }

  /** The chains after mergeTwoLists has spliced both remainders and the merged chain back, and dropped `nh`. */
  lemma MergeScratch(o: map<nat, seq<Entry>>, left: nat, right: nat, nh: nat, x: seq<Entry>, y: seq<Entry>, acc: seq<Entry>)
    requires left in o && right in o && nh !in o && left != right
    ensures var r0 := Merging(o[nh := []], left, right, nh, x, y, acc);
      var r1 := r0[nh := acc + x][left := []];
      var r2 := r1[nh := acc + x + y][right := []];
      var r3 := r2[left := [][..0] + (acc + x + y) + [][0..]][nh := []];
      r3 - {nh} == o[left := acc + x + y][right := []]
  {
    assert [][..0] + (acc + x + y) + [][0..] == acc + x + y;
  }

  /*
   * q_sort
   */

  /** The chains after q_sort's split: the first `j` entries of `head` on `left`, the rest on `right`. */
  lemma HalveScratch(m: map<nat, seq<Entry>>, head: nat, left: nat, right: nat, o: seq<Entry>, j: nat)
    requires head != left && head != right && left != right && j <= |o|
    ensures var r := m[head := o[..0] + o[j..]][left := o[0..j]];
      r[right := [][..0] + r[head] + [][0..]][head := []] == m[head := []][left := o[..j]][right := o[j..]]
  {
    assert o[..0] + o[j..] == o[j..] && o[0..j] == o[..j];
    assert [][..0] + o[j..] + [][0..] == o[j..];
  }

  /** The chains after q_sort has merged its sorted halves back onto `head` and dropped its two scratch chains. */
  lemma SortScratch(o: map<nat, seq<Entry>>, head: nat, left: nat, right: nat,
                    a: seq<Entry>, b: seq<Entry>, c: seq<Entry>, d: seq<Entry>, x: seq<Entry>)
    requires head in o && left !in o && right !in o && left != right
    ensures var r1 := o[left := []][right := []][head := []][left := a][right := b];
      var r4 := r1[left := c][right := d][left := x][right := []];
      r4[head := r4[head][..0] + r4[left] + r4[head][0..]][left := []] - {left} - {right} == o[head := x]
  {
    assert [][..0] + x + [][0..] == x;
  }
}
