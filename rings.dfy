/**
 * Circular doubly-linked chains with a sentinel, in the style of the Linux
 * kernel's `list_head`, laid out over slots of an arena: `next[s]` and
 * `prev[s]` are the links of slot `s`. A chain is described by its sentinel
 * `h` and the ordered entries `o` between it and itself; cyclic position 0 is
 * the sentinel and position k >= 1 is `o[k - 1]`.
 */
module Rings {
  import opened Strings

  /** A queue element as the chain sees it: the slot of its link and its string. */
  datatype Entry = Entry(slot: nat, val: CString)

  /** Where a slot sits: the sentinel of its chain and its cyclic position there. */
  datatype Home = Home(ring: nat, pos: nat)

  /** The slot at cyclic position `k` of the chain with sentinel `h` and entries `o`. */
  function At(h: nat, o: seq<Entry>, k: nat): nat
    requires k <= |o|
  {
    if k == 0 then h else o[k - 1].slot
  }

  /** The cyclic position after `k`. */
  function Nx(o: seq<Entry>, k: nat): nat
    requires k <= |o|
  {
    if k == |o| then 0 else k + 1
  }

  /** The cyclic position before `k`. */
  function Pv(o: seq<Entry>, k: nat): nat
    requires k <= |o|
  {
    if k == 0 then |o| else k - 1
  }

  /** The slot `list_for_each` visits after `i` steps: the `i`-th entry, or the sentinel once past the end. */
  function Slot(h: nat, o: seq<Entry>, i: nat): nat
    requires i <= |o|
  {
    if i < |o| then o[i].slot else h
  }

  /** `o` with its `i`-th entry taken out. */
  function Remove(o: seq<Entry>, i: nat): seq<Entry>
    requires i < |o|
  {
    o[..i] + o[i + 1..]
  }

  /** `o` with `e` placed after its first `k` entries. */
  function Insert(o: seq<Entry>, k: nat, e: Entry): seq<Entry>
    requires k <= |o|
  {
    o[..k] + [e] + o[k..]
  }

  /** Every link of the chain is in range, and both directions follow the cyclic order. */
  ghost predicate Ring(next: seq<nat>, prev: seq<nat>, h: nat, o: seq<Entry>)
  {
    forall k: nat | k <= |o| ::
      && At(h, o, k) < |next| && At(h, o, k) < |prev|
      && next[At(h, o, k)] == At(h, o, Nx(o, k))
      && prev[At(h, o, k)] == At(h, o, Pv(o, k))
  }

  /** Every slot of the chain records where it sits; so no slot occurs twice. */
  ghost predicate Homed(home: map<nat, Home>, h: nat, o: seq<Entry>)
  {
    forall k: nat | k <= |o| :: At(h, o, k) in home && home[At(h, o, k)] == Home(h, k)
  }

  /** Every entry's string is the payload stored in its slot. */
  ghost predicate Carries(value: seq<CString>, o: seq<Entry>)
  {
    forall i | 0 <= i < |o| :: o[i].slot < |value| && value[o[i].slot] == o[i].val
  }

  /** The arena invariant: every live chain is linked, homed and carries its payloads. */
  ghost predicate Wf(next: seq<nat>, prev: seq<nat>, value: seq<CString>,
                     rings: map<nat, seq<Entry>>, home: map<nat, Home>)
  {
    && |next| == |prev| == |value|
    && (forall s | s in home :: s < |next|)
    && (forall g | g in rings :: g < |next|)
    && (forall g | g in rings :: Ring(next, prev, g, rings[g]) && Homed(home, g, rings[g]) && Carries(value, rings[g]))
  }

  /** The slots of one chain are pairwise distinct. */
  lemma HomedDistinct(home: map<nat, Home>, h: nat, o: seq<Entry>, a: nat, b: nat)
    requires Homed(home, h, o) && a <= |o| && b <= |o| && a != b
    ensures At(h, o, a) != At(h, o, b)
  {
    assert home[At(h, o, a)] == Home(h, a);
  }

  /**
   * The symmetric-link invariant of a doubly-linked list: following `prev`
   * then `next`, or `next` then `prev`, from any slot of the chain returns to it.
   */
  lemma {:induction false} RingSymmetric(next: seq<nat>, prev: seq<nat>, h: nat, o: seq<Entry>, k: nat)
    requires Ring(next, prev, h, o) && k <= |o|
    ensures prev[At(h, o, k)] < |next| && next[prev[At(h, o, k)]] == At(h, o, k)
    ensures next[At(h, o, k)] < |prev| && prev[next[At(h, o, k)]] == At(h, o, k)
  {
    var p, n := Pv(o, k), Nx(o, k);
    assert next[At(h, o, p)] == At(h, o, Nx(o, p));
    assert prev[At(h, o, n)] == At(h, o, Pv(o, n));
  }

  /** A chain none of whose slots was relinked is still a chain. */
  lemma RingFrame(next: seq<nat>, prev: seq<nat>, next': seq<nat>, prev': seq<nat>, h: nat, o: seq<Entry>)
    requires Ring(next, prev, h, o) && |next| <= |next'| && |prev| <= |prev'|
    requires forall k: nat | k <= |o| :: next'[At(h, o, k)] == next[At(h, o, k)] && prev'[At(h, o, k)] == prev[At(h, o, k)]
    ensures Ring(next', prev', h, o)
  {
  }

  /** The chain with its `i`-th entry unlinked (`list_del`): its neighbours now point at each other. */
  lemma AfterDel(next: seq<nat>, prev: seq<nat>, home: map<nat, Home>, h: nat, o: seq<Entry>, i: nat)
    requires Ring(next, prev, h, o) && Homed(home, h, o) && i < |o|
    ensures var x := At(h, o, i + 1);
            Ring(next[prev[x] := next[x]], prev[next[x] := prev[x]], h, Remove(o, i))
  {
    var x := At(h, o, i + 1);
    var px, nx := prev[x], next[x];
    var next', prev' := next[px := nx], prev[nx := px];
    var o' := Remove(o, i);
    assert px == At(h, o, i) && nx == At(h, o, Nx(o, i + 1));
    forall k: nat | k <= |o'|
      ensures At(h, o', k) < |next'| && At(h, o', k) < |prev'|
      ensures next'[At(h, o', k)] == At(h, o', Nx(o', k))
      ensures prev'[At(h, o', k)] == At(h, o', Pv(o', k))
    {
      var k0 := if k <= i then k else k + 1;
      assert At(h, o', k) == At(h, o, k0);
      if k0 != i { HomedDistinct(home, h, o, k0, i); }
      if k0 != Nx(o, i + 1) { HomedDistinct(home, h, o, k0, Nx(o, i + 1)); }
      if k < |o'| { assert At(h, o', k + 1) == At(h, o, if k + 1 <= i then k + 1 else k + 2); }
      if k > 0 { assert At(h, o', k - 1) == At(h, o, if k - 1 <= i then k - 1 else k); }
    }
  }

  /** The chain with `x` linked in after its cyclic position `k` (`list_add` with that anchor). */
  lemma AfterAdd(next: seq<nat>, prev: seq<nat>, home: map<nat, Home>, h: nat, o: seq<Entry>, k: nat, e: Entry)
    requires Ring(next, prev, h, o) && Homed(home, h, o) && k <= |o|
    requires e.slot !in home && e.slot < |next| && e.slot < |prev|
    ensures var a := At(h, o, k); var b := next[a];
            Ring(next[e.slot := b][a := e.slot], prev[b := e.slot][e.slot := a], h, Insert(o, k, e))
  {
    var x, a := e.slot, At(h, o, k);
    var b := next[a];
    var next', prev' := next[x := b][a := x], prev[b := x][x := a];
    var o' := Insert(o, k, e);
    assert b == At(h, o, Nx(o, k));
    forall q: nat | q <= |o'|
      ensures At(h, o', q) < |next'| && At(h, o', q) < |prev'|
      ensures next'[At(h, o', q)] == At(h, o', Nx(o', q))
      ensures prev'[At(h, o', q)] == At(h, o', Pv(o', q))
    {
      if q == k + 1 {
        assert At(h, o', q) == x;
        if k == |o| { assert Nx(o', q) == 0; } else { assert At(h, o', k + 2) == At(h, o, k + 1); }
      } else {
        var q0 := if q <= k then q else q - 1;
        assert At(h, o', q) == At(h, o, q0);
        if q0 != k { HomedDistinct(home, h, o, q0, k); }
        if q0 != Nx(o, k) { HomedDistinct(home, h, o, q0, Nx(o, k)); }
        if q < |o'| { assert At(h, o', q + 1) == if q + 1 <= k then At(h, o, q + 1) else if q + 1 == k + 1 then x else At(h, o, q); }
        if q > 0 { assert At(h, o', q - 1) == if q - 1 <= k then At(h, o, q - 1) else if q - 1 == k + 1 then x else At(h, o, q - 2); }
      }
    }
  }

  /**
   * `list_cut_position(to, a, node)` where the anchor `a` sits at cyclic
   * position `k` and `node` at position `j > k`: the entries after the anchor
   * up to and including `node` become the chain of sentinel `t`.
   */
  lemma AfterCut(next: seq<nat>, prev: seq<nat>, home: map<nat, Home>, h: nat, o: seq<Entry>, k: nat, j: nat, t: nat)
    requires Ring(next, prev, h, o) && Homed(home, h, o) && k < j <= |o|
    requires t in home && home[t] == Home(t, 0) && t != h && t < |next| && t < |prev|
    ensures var a, node := At(h, o, k), At(h, o, j);
            var first, after := next[a], next[node];
            var next1, prev1 := next[a := after], prev[after := a];
            var prev2, next2 := prev1[t := node], next1[node := t];
            var next3, prev3 := next2[t := first], prev2[first := t];
            Ring(next3, prev3, h, o[..k] + o[j..]) && Ring(next3, prev3, t, o[k..j])
  {
    var a, node := At(h, o, k), At(h, o, j);
    var first, after := next[a], next[node];
    var next1, prev1 := next[a := after], prev[after := a];
    var prev2, next2 := prev1[t := node], next1[node := t];
    var next3, prev3 := next2[t := first], prev2[first := t];
    assert first == At(h, o, k + 1);
    assert after == At(h, o, Nx(o, j));
    forall q: nat | q <= |o| ensures At(h, o, q) != t {
      assert home[At(h, o, q)] == Home(h, q);
    }
    HomedDistinct(home, h, o, k, j);
    assert |next3| == |next| && |prev3| == |prev|;
    assert forall s | 0 <= s < |next| :: next3[s] == if s == a then after else if s == node then t else if s == t then first else next[s];
    if Nx(o, j) != k + 1 { HomedDistinct(home, h, o, Nx(o, j), k + 1); }
    assert forall s | 0 <= s < |prev| :: prev3[s] == if s == after then a else if s == t then node else if s == first then t else prev[s];
    CutRemainder(next, prev, next3, prev3, home, h, o, k, j, t);
    CutTaken(next, prev, next3, prev3, home, h, o, k, j, t);
  }

  /** The chain that keeps the anchor, after `list_cut_position`. */
  lemma CutRemainder(next: seq<nat>, prev: seq<nat>, next3: seq<nat>, prev3: seq<nat>, home: map<nat, Home>,
                     h: nat, o: seq<Entry>, k: nat, j: nat, t: nat)
    requires Ring(next, prev, h, o) && Homed(home, h, o) && k < j <= |o|
    requires forall q: nat | q <= |o| :: At(h, o, q) != t
    requires |next3| == |next| && |prev3| == |prev|
    requires forall s | 0 <= s < |next| ::
      next3[s] == if s == At(h, o, k) then At(h, o, Nx(o, j)) else if s == At(h, o, j) then t
                  else if s == t then At(h, o, k + 1) else next[s]
    requires forall s | 0 <= s < |prev| ::
      prev3[s] == if s == At(h, o, Nx(o, j)) then At(h, o, k) else if s == t then At(h, o, j)
                  else if s == At(h, o, k + 1) then t else prev[s]
    ensures Ring(next3, prev3, h, o[..k] + o[j..])
  {
    var o1 := o[..k] + o[j..];
    forall q: nat | q <= |o1|
      ensures At(h, o1, q) < |next3| && At(h, o1, q) < |prev3|
      ensures next3[At(h, o1, q)] == At(h, o1, Nx(o1, q))
      ensures prev3[At(h, o1, q)] == At(h, o1, Pv(o1, q))
    {
      var q0 := if q <= k then q else q + j - k;
      assert At(h, o1, q) == At(h, o, q0);
      if q0 != k { HomedDistinct(home, h, o, q0, k); }
      if q0 != j { HomedDistinct(home, h, o, q0, j); }
      if q0 != k + 1 { HomedDistinct(home, h, o, q0, k + 1); }
      if q0 != Nx(o, j) { HomedDistinct(home, h, o, q0, Nx(o, j)); }
      if q < |o1| { assert At(h, o1, q + 1) == At(h, o, if q + 1 <= k then q + 1 else q + 1 + j - k); }
      if q > 0 { assert At(h, o1, q - 1) == At(h, o, if q - 1 <= k then q - 1 else q - 1 + j - k); }
    }
  }

  /** The chain of the new sentinel `t`, after `list_cut_position`. */
  lemma CutTaken(next: seq<nat>, prev: seq<nat>, next3: seq<nat>, prev3: seq<nat>, home: map<nat, Home>,
                 h: nat, o: seq<Entry>, k: nat, j: nat, t: nat)
    requires Ring(next, prev, h, o) && Homed(home, h, o) && k < j <= |o|
    requires forall q: nat | q <= |o| :: At(h, o, q) != t
    requires t < |next| && t < |prev| && |next3| == |next| && |prev3| == |prev|
    requires forall s | 0 <= s < |next| ::
      next3[s] == if s == At(h, o, k) then At(h, o, Nx(o, j)) else if s == At(h, o, j) then t
                  else if s == t then At(h, o, k + 1) else next[s]
    requires forall s | 0 <= s < |prev| ::
      prev3[s] == if s == At(h, o, Nx(o, j)) then At(h, o, k) else if s == t then At(h, o, j)
                  else if s == At(h, o, k + 1) then t else prev[s]
    ensures Ring(next3, prev3, t, o[k..j])
  {
    var o2 := o[k..j];
    forall q: nat | q <= |o2|
      ensures At(t, o2, q) < |next3| && At(t, o2, q) < |prev3|
      ensures next3[At(t, o2, q)] == At(t, o2, Nx(o2, q))
      ensures prev3[At(t, o2, q)] == At(t, o2, Pv(o2, q))
    {
      if q > 0 {
        var q0 := q + k;
        assert At(t, o2, q) == At(h, o, q0);
        if q0 != k { HomedDistinct(home, h, o, q0, k); }
        if q0 != j { HomedDistinct(home, h, o, q0, j); }
        if q0 != k + 1 { HomedDistinct(home, h, o, q0, k + 1); }
        if q0 != Nx(o, j) { HomedDistinct(home, h, o, q0, Nx(o, j)); }
        if q < |o2| { assert At(t, o2, q + 1) == At(h, o, q0 + 1); }
        if q > 1 { assert At(t, o2, q - 1) == At(h, o, q0 - 1); }
      }
    }
  }

  /**
   * `list_splice(l, a)` followed by `INIT_LIST_HEAD(l)`, where the anchor `a`
   * sits at cyclic position `k` of chain `h` and chain `l` is not empty: the
   * entries of `l` now follow the anchor, and `l` is empty.
   */
  lemma AfterSplice(next: seq<nat>, prev: seq<nat>, home: map<nat, Home>, h: nat, o: seq<Entry>, k: nat, l: nat, lo: seq<Entry>)
    requires Ring(next, prev, h, o) && Homed(home, h, o) && k <= |o|
    requires Ring(next, prev, l, lo) && Homed(home, l, lo) && l != h && |lo| > 0
    requires l < |next| && l < |prev|
    ensures var a := At(h, o, k);
            var b, first, last := At(h, o, Nx(o, k)), At(l, lo, 1), At(l, lo, |lo|);
            var next', prev' := next[a := first][last := b][l := l], prev[first := a][b := last][l := l];
            Ring(next', prev', h, o[..k] + lo + o[k..]) && Ring(next', prev', l, [])
  {
    var a := At(h, o, k);
    var b, first, last := At(h, o, Nx(o, k)), At(l, lo, 1), At(l, lo, |lo|);
    var next', prev' := next[a := first][last := b][l := l], prev[first := a][b := last][l := l];
    forall p: nat, q: nat | p <= |o| && q <= |lo| ensures At(h, o, p) != At(l, lo, q) {
      assert home[At(h, o, p)] == Home(h, p) && home[At(l, lo, q)] == Home(l, q);
    }
    HomedDistinct(home, l, lo, 0, 1);
    HomedDistinct(home, l, lo, 0, |lo|);
    assert forall s | 0 <= s < |next| :: next'[s] == if s == l then l else if s == last then b else if s == a then first else next[s];
    assert forall s | 0 <= s < |prev| :: prev'[s] == if s == l then l else if s == b then last else if s == first then a else prev[s];
    SpliceJoined(next, prev, next', prev', home, h, o, k, l, lo);
  }

  /** The chain that received the spliced entries. */
  lemma SpliceJoined(next: seq<nat>, prev: seq<nat>, next': seq<nat>, prev': seq<nat>, home: map<nat, Home>,
                     h: nat, o: seq<Entry>, k: nat, l: nat, lo: seq<Entry>)
    requires Ring(next, prev, h, o) && Homed(home, h, o) && k <= |o|
    requires Ring(next, prev, l, lo) && Homed(home, l, lo) && |lo| > 0
    requires forall p: nat, q: nat | p <= |o| && q <= |lo| :: At(h, o, p) != At(l, lo, q)
    requires |next'| == |next| && |prev'| == |prev|
    requires forall s | 0 <= s < |next| ::
      next'[s] == if s == l then l else if s == At(l, lo, |lo|) then At(h, o, Nx(o, k))
                  else if s == At(h, o, k) then At(l, lo, 1) else next[s]
    requires forall s | 0 <= s < |prev| ::
      prev'[s] == if s == l then l else if s == At(h, o, Nx(o, k)) then At(l, lo, |lo|)
                  else if s == At(l, lo, 1) then At(h, o, k) else prev[s]
    ensures Ring(next', prev', h, o[..k] + lo + o[k..])
  {
    var o' := o[..k] + lo + o[k..];
    var m := |lo|;
    forall q: nat | q <= |o'|
      ensures At(h, o', q) < |next'| && At(h, o', q) < |prev'|
      ensures next'[At(h, o', q)] == At(h, o', Nx(o', q))
      ensures prev'[At(h, o', q)] == At(h, o', Pv(o', q))
    {
      if q <= k {
        SpliceJoinedFront(next, prev, next', prev', home, h, o, k, l, lo, q);
      } else if q <= k + m {
        SpliceJoinedMiddle(next, prev, next', prev', home, h, o, k, l, lo, q);
      } else {
        SpliceJoinedBack(next, prev, next', prev', home, h, o, k, l, lo, q);
      }
    }
  }

  lemma SpliceJoinedFront(next: seq<nat>, prev: seq<nat>, next': seq<nat>, prev': seq<nat>, home: map<nat, Home>,
                          h: nat, o: seq<Entry>, k: nat, l: nat, lo: seq<Entry>, q: nat)
    requires Ring(next, prev, h, o) && Homed(home, h, o) && k <= |o|
    requires Ring(next, prev, l, lo) && Homed(home, l, lo) && |lo| > 0
    requires forall p: nat, q: nat | p <= |o| && q <= |lo| :: At(h, o, p) != At(l, lo, q)
    requires |next'| == |next| && |prev'| == |prev|
    requires forall s | 0 <= s < |next| ::
      next'[s] == if s == l then l else if s == At(l, lo, |lo|) then At(h, o, Nx(o, k))
                  else if s == At(h, o, k) then At(l, lo, 1) else next[s]
    requires forall s | 0 <= s < |prev| ::
      prev'[s] == if s == l then l else if s == At(h, o, Nx(o, k)) then At(l, lo, |lo|)
                  else if s == At(l, lo, 1) then At(h, o, k) else prev[s]
    requires q <= k
    ensures var o' := o[..k] + lo + o[k..];
            && At(h, o', q) < |next'| && At(h, o', q) < |prev'|
            && next'[At(h, o', q)] == At(h, o', Nx(o', q))
            && prev'[At(h, o', q)] == At(h, o', Pv(o', q))
  {
    var o' := o[..k] + lo + o[k..];
    assert At(h, o', q) == At(h, o, q);
    assert At(l, lo, 0) == l;
    assert At(h, o, q) != l && At(h, o, q) != At(l, lo, |lo|) && At(h, o, q) != At(l, lo, 1);
    if q != k { HomedDistinct(home, h, o, q, k); }
    if q != Nx(o, k) { HomedDistinct(home, h, o, q, Nx(o, k)); }
    if q < k { assert At(h, o', q + 1) == At(h, o, q + 1); }
    if q == k { assert At(h, o', q + 1) == At(l, lo, 1); }
    if q > 0 { assert At(h, o', q - 1) == At(h, o, q - 1); }
    if q == 0 && k == |o| { assert At(h, o', |o'|) == At(l, lo, |lo|); }
  }

  lemma SpliceJoinedMiddle(next: seq<nat>, prev: seq<nat>, next': seq<nat>, prev': seq<nat>, home: map<nat, Home>,
                           h: nat, o: seq<Entry>, k: nat, l: nat, lo: seq<Entry>, q: nat)
    requires Ring(next, prev, h, o) && Homed(home, h, o) && k <= |o|
    requires Ring(next, prev, l, lo) && Homed(home, l, lo) && |lo| > 0
    requires forall p: nat, q: nat | p <= |o| && q <= |lo| :: At(h, o, p) != At(l, lo, q)
    requires |next'| == |next| && |prev'| == |prev|
    requires forall s | 0 <= s < |next| ::
      next'[s] == if s == l then l else if s == At(l, lo, |lo|) then At(h, o, Nx(o, k))
                  else if s == At(h, o, k) then At(l, lo, 1) else next[s]
    requires forall s | 0 <= s < |prev| ::
      prev'[s] == if s == l then l else if s == At(h, o, Nx(o, k)) then At(l, lo, |lo|)
                  else if s == At(l, lo, 1) then At(h, o, k) else prev[s]
    requires k < q <= k + |lo|
    ensures var o' := o[..k] + lo + o[k..];
            && At(h, o', q) < |next'| && At(h, o', q) < |prev'|
            && next'[At(h, o', q)] == At(h, o', Nx(o', q))
            && prev'[At(h, o', q)] == At(h, o', Pv(o', q))
  {
    var o' := o[..k] + lo + o[k..];
    var m := |lo|;
    assert At(h, o', q) == At(l, lo, q - k);
    assert At(l, lo, q - k) != At(h, o, k) && At(l, lo, q - k) != At(h, o, Nx(o, k));
    HomedDistinct(home, l, lo, q - k, 0);
    if q - k != 1 { HomedDistinct(home, l, lo, q - k, 1); }
    if q - k != m { HomedDistinct(home, l, lo, q - k, m); }
    if q < k + m { assert At(h, o', q + 1) == At(l, lo, q - k + 1); }
    if q == k + m && k < |o| { assert At(h, o', q + 1) == At(h, o, k + 1); }
    if q > k + 1 { assert At(h, o', q - 1) == At(l, lo, q - k - 1); }
    if q == k + 1 { assert At(h, o', q - 1) == At(h, o, k); }
  }

  lemma SpliceJoinedBack(next: seq<nat>, prev: seq<nat>, next': seq<nat>, prev': seq<nat>, home: map<nat, Home>,
                         h: nat, o: seq<Entry>, k: nat, l: nat, lo: seq<Entry>, q: nat)
    requires Ring(next, prev, h, o) && Homed(home, h, o) && k <= |o|
    requires Ring(next, prev, l, lo) && Homed(home, l, lo) && |lo| > 0
    requires forall p: nat, q: nat | p <= |o| && q <= |lo| :: At(h, o, p) != At(l, lo, q)
    requires |next'| == |next| && |prev'| == |prev|
    requires forall s | 0 <= s < |next| ::
      next'[s] == if s == l then l else if s == At(l, lo, |lo|) then At(h, o, Nx(o, k))
                  else if s == At(h, o, k) then At(l, lo, 1) else next[s]
    requires forall s | 0 <= s < |prev| ::
      prev'[s] == if s == l then l else if s == At(h, o, Nx(o, k)) then At(l, lo, |lo|)
                  else if s == At(l, lo, 1) then At(h, o, k) else prev[s]
    requires k + |lo| < q <= |o| + |lo|
    ensures var o' := o[..k] + lo + o[k..];
            && At(h, o', q) < |next'| && At(h, o', q) < |prev'|
            && next'[At(h, o', q)] == At(h, o', Nx(o', q))
            && prev'[At(h, o', q)] == At(h, o', Pv(o', q))
  {
    var o' := o[..k] + lo + o[k..];
    var m := |lo|;
    assert At(h, o', q) == At(h, o, q - m);
    assert At(l, lo, 0) == l;
    assert At(h, o, q - m) != l && At(h, o, q - m) != At(l, lo, |lo|) && At(h, o, q - m) != At(l, lo, 1);
    if q - m != k { HomedDistinct(home, h, o, q - m, k); }
    if q - m != Nx(o, k) { HomedDistinct(home, h, o, q - m, Nx(o, k)); }
    if q < |o'| { assert At(h, o', q + 1) == At(h, o, q - m + 1); }
    if q > k + m + 1 { assert At(h, o', q - 1) == At(h, o, q - m - 1); }
    if q == k + m + 1 { assert At(h, o', q - 1) == At(l, lo, m); }
  }
}
