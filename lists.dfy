/**
 * The `list_head` primitives of the kernel-style list header that queue.c is
 * built on, as methods of an arena holding every link in use. A queue handle
 * (`struct list_head *`) is the slot of its sentinel; an element's embedded
 * `list` member is the slot of the element. Stack-allocated list heads (the
 * local `struct list_head` variables of queue.c) are slots of the same arena.
 */
module Lists {
  import opened Strings
  import opened Rings

  /**
   * The payloads only ever grow: a slot keeps its string while anything may
   * still point at it, including an element a removal handed back to the caller.
   */
  predicate Grown(v0: seq<CString>, v1: seq<CString>)
  {
    |v0| <= |v1| && v1[..|v0|] == v0
  }

  lemma GrownTransitive(v0: seq<CString>, v1: seq<CString>, v2: seq<CString>)
    requires Grown(v0, v1) && Grown(v1, v2)
    ensures Grown(v0, v2)
  {
    assert v2[..|v0|] == v2[..|v1|][..|v0|];
  }

  /** `home` after `e.slot` was linked in after cyclic position `k` of chain `h`. */
  ghost function AddHome(home: map<nat, Home>, h: nat, k: nat, x: nat): map<nat, Home>
  {
    (map s | s in home :: if home[s].ring == h && home[s].pos > k then Home(h, home[s].pos + 1) else home[s])[x := Home(h, k + 1)]
  }

  /** `home` after the entry at cyclic position `i + 1` of chain `h`, slot `x`, was unlinked. */
  ghost function DelHome(home: map<nat, Home>, h: nat, i: nat, x: nat): map<nat, Home>
  {
    map s | s in home && s != x :: if home[s].ring == h && home[s].pos > i + 1 then Home(h, home[s].pos - 1) else home[s]
  }

  /** `home` after positions `k + 1 ..= j` of chain `h` were cut into chain `t`. */
  ghost function CutHome(home: map<nat, Home>, h: nat, k: nat, j: nat, t: nat): map<nat, Home>
  {
    map s | s in home ::
      if home[s].ring == h && k < home[s].pos <= j then Home(t, home[s].pos - k)
      else if home[s].ring == h && home[s].pos > j then Home(h, home[s].pos - (j - k))
      else home[s]
  }

  /** `home` after the `m` entries of chain `l` were spliced in after position `k` of chain `h`. */
  ghost function SpliceHome(home: map<nat, Home>, h: nat, k: nat, l: nat, m: nat): map<nat, Home>
  {
    map s | s in home ::
      if home[s].ring == l && home[s].pos > 0 then Home(h, home[s].pos + k)
      else if home[s].ring == h && home[s].pos > k then Home(h, home[s].pos + m)
      else home[s]
  }

  /** The sentinel of every live chain sits at position 0 of its own chain. */
  lemma SentinelsHomed(rings: map<nat, seq<Entry>>, home: map<nat, Home>, g: nat)
    requires g in rings && Homed(home, g, rings[g])
    ensures g in home && home[g] == Home(g, 0)
  {
    assert At(g, rings[g], 0) == g;
  }

  /** Slots of two different live chains are different. */
  lemma Apart(home: map<nat, Home>, g: nat, og: seq<Entry>, h: nat, oh: seq<Entry>, p: nat, q: nat)
    requires Homed(home, g, og) && Homed(home, h, oh) && g != h && p <= |og| && q <= |oh|
    ensures At(g, og, p) != At(h, oh, q)
  {
    assert home[At(g, og, p)] == Home(g, p) && home[At(h, oh, q)] == Home(h, q);
  }

  /** The invariant after chains `h` and `t` were given new entries, every other chain being untouched. */
  lemma WfUpdate2(next: seq<nat>, prev: seq<nat>, value: seq<CString>, rings: map<nat, seq<Entry>>, home: map<nat, Home>,
                  h: nat, o1: seq<Entry>, t: nat, o2: seq<Entry>)
    requires |next| == |prev| == |value| && h < |next| && t < |next|
    requires (forall s | s in home :: s < |next|) && (forall g | g in rings :: g < |next|)
    requires Ring(next, prev, h, o1) && Homed(home, h, o1) && Carries(value, o1)
    requires Ring(next, prev, t, o2) && Homed(home, t, o2) && Carries(value, o2)
    requires forall g | g in rings && g != h && g != t ::
      Ring(next, prev, g, rings[g]) && Homed(home, g, rings[g]) && Carries(value, rings[g])
    ensures Wf(next, prev, value, rings[h := o1][t := o2], home)
  {
    var rings' := rings[h := o1][t := o2];
    forall g | g in rings' ensures Ring(next, prev, g, rings'[g]) && Homed(home, g, rings'[g]) && Carries(value, rings'[g]) {
      if g != h && g != t {
        assert rings'[g] == rings[g];
      }
    }
  }

  /** The invariant after chain `h` was given new entries, every other chain being untouched. */
  lemma WfUpdate1(next: seq<nat>, prev: seq<nat>, value: seq<CString>, rings: map<nat, seq<Entry>>, home: map<nat, Home>,
                  h: nat, o1: seq<Entry>)
    requires |next| == |prev| == |value| && h < |next|
    requires (forall s | s in home :: s < |next|) && (forall g | g in rings :: g < |next|)
    requires Ring(next, prev, h, o1) && Homed(home, h, o1) && Carries(value, o1)
    requires forall g | g in rings && g != h ::
      Ring(next, prev, g, rings[g]) && Homed(home, g, rings[g]) && Carries(value, rings[g])
    ensures Wf(next, prev, value, rings[h := o1], home)
  {
    var rings' := rings[h := o1];
    forall g | g in rings' ensures Ring(next, prev, g, rings'[g]) && Homed(home, g, rings'[g]) && Carries(value, rings'[g]) {
      if g != h {
        assert rings'[g] == rings[g];
      }
    }
  }

  lemma AddWf(next: seq<nat>, prev: seq<nat>, value: seq<CString>, rings: map<nat, seq<Entry>>, home: map<nat, Home>,
              h: nat, k: nat, x: nat)
    requires Wf(next, prev, value, rings, home) && h in rings && k <= |rings[h]| && x < |next| && x !in home
    ensures var o := rings[h]; var a := At(h, o, k); var b := next[a];
            Wf(next[x := b][a := x], prev[b := x][x := a], value,
               rings[h := Insert(o, k, Entry(x, value[x]))], AddHome(home, h, k, x))
  {
    var o := rings[h];
    var a := At(h, o, k);
    var b := next[a];
    var next', prev' := next[x := b][a := x], prev[b := x][x := a];
    var o' := Insert(o, k, Entry(x, value[x]));
    var home' := AddHome(home, h, k, x);
    assert b == At(h, o, Nx(o, k));
    AfterAdd(next, prev, home, h, o, k, Entry(x, value[x]));
    AddHomed(home, h, o, k, x);
    InsertCarries(value, o, k, Entry(x, value[x]));
    AddOthers(next, prev, value, rings, home, h, k, x);
    assert forall s | s in home' :: s < |next'| by {
      forall s | s in home' ensures s < |next'| { assert s == x || s in home; }
    }
    WfUpdate1(next', prev', value, rings, home', h, o');
  }

  lemma AddHomed(home: map<nat, Home>, h: nat, o: seq<Entry>, k: nat, x: nat)
    requires Homed(home, h, o) && k <= |o| && x !in home
    ensures forall e: Entry | e.slot == x :: Homed(AddHome(home, h, k, x), h, Insert(o, k, e))
  {
    var home' := AddHome(home, h, k, x);
    forall e: Entry | e.slot == x ensures Homed(home', h, Insert(o, k, e)) {
      var o' := Insert(o, k, e);
      forall q: nat | q <= |o'| ensures At(h, o', q) in home' && home'[At(h, o', q)] == Home(h, q) {
        if q <= k { assert At(h, o', q) == At(h, o, q); }
        else if q > k + 1 { assert At(h, o', q) == At(h, o, q - 1); }
      }
    }
  }

  lemma InsertCarries(value: seq<CString>, o: seq<Entry>, k: nat, e: Entry)
    requires Carries(value, o) && k <= |o| && e.slot < |value| && value[e.slot] == e.val
    ensures Carries(value, Insert(o, k, e))
  {
    var o' := Insert(o, k, e);
    forall i | 0 <= i < |o'| ensures o'[i] == if i < k then o[i] else if i == k then e else o[i - 1] {
    }
  }

  /** The chains other than the one receiving `x` keep their links and positions. */
  lemma AddOthers(next: seq<nat>, prev: seq<nat>, value: seq<CString>, rings: map<nat, seq<Entry>>, home: map<nat, Home>,
                  h: nat, k: nat, x: nat)
    requires Wf(next, prev, value, rings, home) && h in rings && k <= |rings[h]| && x < |next| && x !in home
    ensures var o := rings[h]; var a := At(h, o, k); var b := next[a];
            forall g | g in rings && g != h ::
              Ring(next[x := b][a := x], prev[b := x][x := a], g, rings[g]) && Homed(AddHome(home, h, k, x), g, rings[g])
              && Carries(value, rings[g])
  {
    var o := rings[h];
    var a := At(h, o, k);
    var b := next[a];
    var next', prev' := next[x := b][a := x], prev[b := x][x := a];
    var home' := AddHome(home, h, k, x);
    assert b == At(h, o, Nx(o, k));
    forall g | g in rings && g != h
      ensures Ring(next', prev', g, rings[g]) && Homed(home', g, rings[g])
    {
      var og := rings[g];
      forall q: nat | q <= |og|
        ensures At(g, og, q) != a && At(g, og, q) != b && At(g, og, q) != x
        ensures At(g, og, q) in home' && home'[At(g, og, q)] == Home(g, q)
      {
        Apart(home, g, og, h, o, q, k);
        Apart(home, g, og, h, o, q, Nx(o, k));
      }
      RingFrame(next, prev, next', prev', g, og);
    }
  }

  lemma DelWf(next: seq<nat>, prev: seq<nat>, value: seq<CString>, rings: map<nat, seq<Entry>>, home: map<nat, Home>,
              h: nat, i: nat)
    requires Wf(next, prev, value, rings, home) && h in rings && i < |rings[h]|
    ensures var o := rings[h]; var x := At(h, o, i + 1);
            && Wf(next[prev[x] := next[x]], prev[next[x] := prev[x]], value,
                  rings[h := Remove(o, i)], DelHome(home, h, i, x))
            && x !in DelHome(home, h, i, x) && x < |next|
  {
    var o := rings[h];
    var x := At(h, o, i + 1);
    var px, nx := prev[x], next[x];
    var next', prev' := next[px := nx], prev[nx := px];
    var o' := Remove(o, i);
    var home' := DelHome(home, h, i, x);
    assert px == At(h, o, i) && nx == At(h, o, Nx(o, i + 1));
    AfterDel(next, prev, home, h, o, i);
    DelHomed(home, h, o, i);
    RemoveCarries(value, o, i);
    DelOthers(next, prev, value, rings, home, h, i);
    assert forall s | s in home' :: s < |next'| by {
      forall s | s in home' ensures s < |next'| { assert s in home; }
    }
    WfUpdate1(next', prev', value, rings, home', h, o');
  }

  lemma DelHomed(home: map<nat, Home>, h: nat, o: seq<Entry>, i: nat)
    requires Homed(home, h, o) && i < |o|
    ensures Homed(DelHome(home, h, i, At(h, o, i + 1)), h, Remove(o, i))
  {
    var x := At(h, o, i + 1);
    var o' := Remove(o, i);
    var home' := DelHome(home, h, i, x);
    forall q: nat | q <= |o'| ensures At(h, o', q) in home' && home'[At(h, o', q)] == Home(h, q) {
      var q0 := if q <= i then q else q + 1;
      assert At(h, o', q) == At(h, o, q0);
      HomedDistinct(home, h, o, q0, i + 1);
    }
  }

  lemma RemoveCarries(value: seq<CString>, o: seq<Entry>, i: nat)
    requires Carries(value, o) && i < |o|
    ensures Carries(value, Remove(o, i))
  {
    var o' := Remove(o, i);
    forall j | 0 <= j < |o'| ensures o'[j] == if j < i then o[j] else o[j + 1] {
    }
  }

  /** The chains other than the one losing its `i`-th entry keep their links and positions. */
  lemma DelOthers(next: seq<nat>, prev: seq<nat>, value: seq<CString>, rings: map<nat, seq<Entry>>, home: map<nat, Home>,
                  h: nat, i: nat)
    requires Wf(next, prev, value, rings, home) && h in rings && i < |rings[h]|
    ensures var o := rings[h]; var x := At(h, o, i + 1);
            forall g | g in rings && g != h ::
              Ring(next[prev[x] := next[x]], prev[next[x] := prev[x]], g, rings[g])
              && Homed(DelHome(home, h, i, x), g, rings[g]) && Carries(value, rings[g])
  {
    var o := rings[h];
    var x := At(h, o, i + 1);
    var px, nx := prev[x], next[x];
    var next', prev' := next[px := nx], prev[nx := px];
    var home' := DelHome(home, h, i, x);
    assert px == At(h, o, i) && nx == At(h, o, Nx(o, i + 1));
    forall g | g in rings && g != h
      ensures Ring(next', prev', g, rings[g]) && Homed(home', g, rings[g])
    {
      var og := rings[g];
      forall q: nat | q <= |og|
        ensures At(g, og, q) != px && At(g, og, q) != nx && At(g, og, q) != x
        ensures At(g, og, q) in home' && home'[At(g, og, q)] == Home(g, q)
      {
        Apart(home, g, og, h, o, q, i);
        Apart(home, g, og, h, o, q, i + 1);
        Apart(home, g, og, h, o, q, Nx(o, i + 1));
      }
      RingFrame(next, prev, next', prev', g, og);
    }
  }

  lemma CutWf(next: seq<nat>, prev: seq<nat>, value: seq<CString>, rings: map<nat, seq<Entry>>, home: map<nat, Home>,
              h: nat, k: nat, j: nat, t: nat)
    requires Wf(next, prev, value, rings, home) && h in rings && k < j <= |rings[h]|
    requires t in rings && t != h && rings[t] == []
    ensures var o := rings[h];
            var a, node := At(h, o, k), At(h, o, j);
            var first, after := next[a], next[node];
            var next1, prev1 := next[a := after], prev[after := a];
            var prev2, next2 := prev1[t := node], next1[node := t];
            var next3, prev3 := next2[t := first], prev2[first := t];
            Wf(next3, prev3, value, rings[h := o[..k] + o[j..]][t := o[k..j]], CutHome(home, h, k, j, t))
  {
    var o := rings[h];
    var a, node := At(h, o, k), At(h, o, j);
    var first, after := next[a], next[node];
    var next1, prev1 := next[a := after], prev[after := a];
    var prev2, next2 := prev1[t := node], next1[node := t];
    var next3, prev3 := next2[t := first], prev2[first := t];
    var o1, o2 := o[..k] + o[j..], o[k..j];
    var rings', home' := rings[h := o1][t := o2], CutHome(home, h, k, j, t);
    SentinelsHomed(rings, home, t);
    assert At(t, rings[t], 0) == t;
    AfterCut(next, prev, home, h, o, k, j, t);
    assert Ring(next3, prev3, h, o1) && Ring(next3, prev3, t, o2);
    CutHomedRemainder(home, h, o, k, j, t);
    CutHomedTaken(home, h, o, k, j, t);
    CutCarries(value, o, k, j);
    assert first == At(h, o, k + 1) && after == At(h, o, Nx(o, j));
    CutOthers(next, prev, next3, prev3, value, rings, home, h, k, j, t);
    assert forall s | s in home' :: s < |next3| by {
      forall s | s in home' ensures s < |next3| { assert s in home; }
    }
    WfUpdate2(next3, prev3, value, rings, home', h, o1, t, o2);
  }

  /** The chains other than the cut one and the receiving one keep their links and positions. */
  lemma CutOthers(next: seq<nat>, prev: seq<nat>, next3: seq<nat>, prev3: seq<nat>, value: seq<CString>,
                  rings: map<nat, seq<Entry>>, home: map<nat, Home>, h: nat, k: nat, j: nat, t: nat)
    requires Wf(next, prev, value, rings, home) && h in rings && k < j <= |rings[h]|
    requires t in rings && t != h && rings[t] == [] && |next| <= |next3| && |prev| <= |prev3|
    requires forall s | 0 <= s < |next| ::
      next3[s] == if s == At(h, rings[h], k) || s == At(h, rings[h], j) || s == t then next3[s] else next[s]
    requires forall s | 0 <= s < |prev| ::
      prev3[s] == if s == At(h, rings[h], Nx(rings[h], j)) || s == t || s == At(h, rings[h], k + 1) then prev3[s] else prev[s]
    ensures forall g | g in rings && g != h && g != t ::
      Ring(next3, prev3, g, rings[g]) && Homed(CutHome(home, h, k, j, t), g, rings[g]) && Carries(value, rings[g])
  {
    var home' := CutHome(home, h, k, j, t);
    forall g | g in rings && g != h && g != t
      ensures Ring(next3, prev3, g, rings[g]) && Homed(home', g, rings[g])
    {
      CutFrame(next, prev, next3, prev3, home, rings, h, k, j, t, g);
      forall q: nat | q <= |rings[g]| ensures At(g, rings[g], q) in home' && home'[At(g, rings[g], q)] == Home(g, q) {
        assert home[At(g, rings[g], q)] == Home(g, q);
      }
    }
  }

  lemma CutCarries(value: seq<CString>, o: seq<Entry>, k: nat, j: nat)
    requires Carries(value, o) && k <= j <= |o|
    ensures Carries(value, o[..k] + o[j..]) && Carries(value, o[k..j])
  {
    var o1 := o[..k] + o[j..];
    forall i | 0 <= i < |o1| ensures o1[i] == o[if i < k then i else i + j - k] {
    }
  }

  lemma CutHomedRemainder(home: map<nat, Home>, h: nat, o: seq<Entry>, k: nat, j: nat, t: nat)
    requires Homed(home, h, o) && k < j <= |o| && t != h
    ensures Homed(CutHome(home, h, k, j, t), h, o[..k] + o[j..])
  {
    var o1 := o[..k] + o[j..];
    var home' := CutHome(home, h, k, j, t);
    forall q: nat | q <= |o1| ensures At(h, o1, q) in home' && home'[At(h, o1, q)] == Home(h, q) {
      var q0 := if q <= k then q else q + j - k;
      assert At(h, o1, q) == At(h, o, q0);
    }
  }

  lemma CutHomedTaken(home: map<nat, Home>, h: nat, o: seq<Entry>, k: nat, j: nat, t: nat)
    requires Homed(home, h, o) && k < j <= |o| && t != h && t in home && home[t] == Home(t, 0)
    ensures Homed(CutHome(home, h, k, j, t), t, o[k..j])
  {
    var o2 := o[k..j];
    var home' := CutHome(home, h, k, j, t);
    forall q: nat | q <= |o2| ensures At(t, o2, q) in home' && home'[At(t, o2, q)] == Home(t, q) {
      if q > 0 { assert At(t, o2, q) == At(h, o, q + k); }
    }
  }

  lemma CutFrame(next: seq<nat>, prev: seq<nat>, next3: seq<nat>, prev3: seq<nat>, home: map<nat, Home>,
                 rings: map<nat, seq<Entry>>, h: nat, k: nat, j: nat, t: nat, g: nat)
    requires h in rings && t in rings && g in rings && g != h && g != t && k < j <= |rings[h]|
    requires Homed(home, h, rings[h]) && Homed(home, t, rings[t]) && Homed(home, g, rings[g])
    requires Ring(next, prev, g, rings[g]) && |next| <= |next3| && |prev| <= |prev3|
    requires forall s | 0 <= s < |next| ::
      next3[s] == if s == At(h, rings[h], k) || s == At(h, rings[h], j) || s == t then next3[s] else next[s]
    requires forall s | 0 <= s < |prev| ::
      prev3[s] == if s == At(h, rings[h], Nx(rings[h], j)) || s == t || s == At(h, rings[h], k + 1) then prev3[s] else prev[s]
    ensures Ring(next3, prev3, g, rings[g])
  {
    var o, og := rings[h], rings[g];
    forall q: nat | q <= |og|
      ensures At(g, og, q) != At(h, o, k) && At(g, og, q) != At(h, o, j) && At(g, og, q) != At(h, o, k + 1)
      ensures At(g, og, q) != At(h, o, Nx(o, j)) && At(g, og, q) != t
    {
      Apart(home, g, og, h, o, q, k);
      Apart(home, g, og, h, o, q, j);
      Apart(home, g, og, h, o, q, k + 1);
      Apart(home, g, og, h, o, q, Nx(o, j));
      Apart(home, g, og, t, rings[t], q, 0);
    }
    RingFrame(next, prev, next3, prev3, g, og);
  }

  lemma SpliceWf(next: seq<nat>, prev: seq<nat>, value: seq<CString>, rings: map<nat, seq<Entry>>, home: map<nat, Home>,
                 h: nat, k: nat, l: nat)
    requires Wf(next, prev, value, rings, home) && h in rings && k <= |rings[h]|
    requires l in rings && l != h && |rings[l]| > 0
    ensures var o, lo := rings[h], rings[l];
            var a := At(h, o, k);
            var b, first, last := At(h, o, Nx(o, k)), At(l, lo, 1), At(l, lo, |lo|);
            var next', prev' := next[a := first][last := b][l := l], prev[first := a][b := last][l := l];
            Wf(next', prev', value, rings[h := o[..k] + lo + o[k..]][l := []], SpliceHome(home, h, k, l, |lo|))
  {
    var o, lo := rings[h], rings[l];
    var a := At(h, o, k);
    var b, first, last := At(h, o, Nx(o, k)), At(l, lo, 1), At(l, lo, |lo|);
    var next', prev' := next[a := first][last := b][l := l], prev[first := a][b := last][l := l];
    var o' := o[..k] + lo + o[k..];
    var m := |lo|;
    var rings', home' := rings[h := o'][l := []], SpliceHome(home, h, k, l, m);
    SentinelsHomed(rings, home, l);
    assert At(l, lo, 0) == l;
    AfterSplice(next, prev, home, h, o, k, l, lo);
    assert Ring(next', prev', h, o') && Ring(next', prev', l, []);
    SpliceHomedJoined(home, h, o, k, l, lo);
    assert Homed(home', l, []) by { assert At(l, [], 0) == l; }
    SpliceCarries(value, o, k, lo);
    SpliceOthers(next, prev, value, rings, home, h, k, l);
    assert forall s | s in home' :: s < |next'| by {
      forall s | s in home' ensures s < |next'| { assert s in home; }
    }
    WfUpdate2(next', prev', value, rings, home', h, o', l, []);
  }

  lemma SpliceCarries(value: seq<CString>, o: seq<Entry>, k: nat, lo: seq<Entry>)
    requires Carries(value, o) && Carries(value, lo) && k <= |o|
    ensures Carries(value, o[..k] + lo + o[k..])
  {
    var o' := o[..k] + lo + o[k..];
    forall i | 0 <= i < |o'| ensures o'[i] == if i < k then o[i] else if i < k + |lo| then lo[i - k] else o[i - |lo|] {
    }
  }

  /** Positions in the joined chain, after `list_splice`. */
  lemma SpliceHomedJoined(home: map<nat, Home>, h: nat, o: seq<Entry>, k: nat, l: nat, lo: seq<Entry>)
    requires Homed(home, h, o) && Homed(home, l, lo) && k <= |o| && l != h && |lo| > 0
    ensures Homed(SpliceHome(home, h, k, l, |lo|), h, o[..k] + lo + o[k..])
  {
    var o' := o[..k] + lo + o[k..];
    var m := |lo|;
    var home' := SpliceHome(home, h, k, l, m);
    forall q: nat | q <= |o'| ensures At(h, o', q) in home' && home'[At(h, o', q)] == Home(h, q) {
      if q <= k { assert At(h, o', q) == At(h, o, q); }
      else if q <= k + m { assert At(h, o', q) == At(l, lo, q - k); }
      else { assert At(h, o', q) == At(h, o, q - m); }
    }
  }

  /** The chains other than the two spliced ones keep their links and positions. */
  lemma SpliceOthers(next: seq<nat>, prev: seq<nat>, value: seq<CString>, rings: map<nat, seq<Entry>>, home: map<nat, Home>,
                     h: nat, k: nat, l: nat)
    requires Wf(next, prev, value, rings, home) && h in rings && k <= |rings[h]|
    requires l in rings && l != h && |rings[l]| > 0
    ensures var o, lo := rings[h], rings[l];
            var a := At(h, o, k);
            var b, first, last := At(h, o, Nx(o, k)), At(l, lo, 1), At(l, lo, |lo|);
            var next', prev' := next[a := first][last := b][l := l], prev[first := a][b := last][l := l];
            forall g | g in rings && g != h && g != l ::
              Ring(next', prev', g, rings[g]) && Homed(SpliceHome(home, h, k, l, |lo|), g, rings[g]) && Carries(value, rings[g])
  {
    var o, lo := rings[h], rings[l];
    var a := At(h, o, k);
    var b, first, last := At(h, o, Nx(o, k)), At(l, lo, 1), At(l, lo, |lo|);
    var next', prev' := next[a := first][last := b][l := l], prev[first := a][b := last][l := l];
    var m := |lo|;
    var home' := SpliceHome(home, h, k, l, m);
    forall g | g in rings && g != h && g != l
      ensures Ring(next', prev', g, rings[g]) && Homed(home', g, rings[g])
    {
      var og := rings[g];
      forall q: nat | q <= |og|
        ensures At(g, og, q) != a && At(g, og, q) != b && At(g, og, q) != first
        ensures At(g, og, q) != last && At(g, og, q) != l
        ensures At(g, og, q) in home' && home'[At(g, og, q)] == Home(g, q)
      {
        Apart(home, g, og, h, o, q, k);
        Apart(home, g, og, h, o, q, Nx(o, k));
        Apart(home, g, og, l, lo, q, 1);
        Apart(home, g, og, l, lo, q, m);
        Apart(home, g, og, l, lo, q, 0);
      }
      RingFrame(next, prev, next', prev', g, og);
    }
  }

  /** All links in use: queue sentinels, local list heads and elements, each a slot. */
  class Arena {
    var next: seq<nat>
    var prev: seq<nat>
    /** The string owned by each element slot; sentinel slots hold "". */
    var value: seq<CString>
    /** Each live sentinel's chain of elements, in list order. */
    ghost var rings: map<nat, seq<Entry>>
    /** Where each linked slot sits (keeps slots of chains pairwise distinct). */
    ghost var home: map<nat, Home>

    /**
     * Every ring is linked in both directions (so `next[prev[i]] == i` and
     * `prev[next[i]] == i` on it, lemma Rings.RingSymmetric), no slot sits in
     * two places, and every entry's string is the one its slot holds.
     */
    ghost predicate Valid()
      reads this
    {
      Wf(next, prev, value, rings, home)
    }

    constructor ()
      ensures Valid() && rings == map[]
    {
      next, prev, value := [], [], [];
      rings, home := map[], map[];
    }

    /** The links of the slot at cyclic position `k` of chain `h`, read off the invariant. */
    lemma Links(h: nat, k: nat)
      requires Valid() && h in rings && k <= |rings[h]|
      ensures At(h, rings[h], k) < |next| && At(h, rings[h], k) < |prev| && h < |next|
      ensures next[At(h, rings[h], k)] == At(h, rings[h], Nx(rings[h], k))
      ensures prev[At(h, rings[h], k)] == At(h, rings[h], Pv(rings[h], k))
      ensures At(h, rings[h], k) == h <==> k == 0
    {
      if k != 0 { HomedDistinct(home, h, rings[h], k, 0); }
    }

    /** What a walk along chain `h` reads at its `i`-th step: the links and the string of `Slot(h, o, i)`. */
    lemma Visit(h: nat, i: nat)
      requires Valid() && h in rings && i <= |rings[h]|
      ensures var o := rings[h]; var x := Slot(h, o, i);
        && x < |next| && x < |prev| && h < |next| && h < |prev|
        && (x == h <==> i == |o|)
        && (i < |o| ==> next[x] == Slot(h, o, i + 1) && x < |value| && value[x] == o[i].val)
        && (0 < i ==> prev[x] == Slot(h, o, i - 1))
        && next[h] == Slot(h, o, 0)
        && prev[h] == (if |o| == 0 then h else o[|o| - 1].slot)
    {
      var o := rings[h];
      Links(h, 0);
      if i < |o| { Links(h, i + 1); }
      if o != [] { Links(h, 1); }
    }

    /** Distinct cyclic positions of a chain hold distinct slots, and only an empty chain's sentinel links to itself. */
    lemma Positions(h: nat, k: nat, j: nat)
      requires Valid() && h in rings && k <= |rings[h]| && j <= |rings[h]|
      ensures At(h, rings[h], k) == At(h, rings[h], j) ==> k == j
      ensures At(h, rings[h], k) < |next| && (next[At(h, rings[h], k)] == At(h, rings[h], k) ==> rings[h] == [])
    {
      if k != j { HomedDistinct(home, h, rings[h], k, j); }
      Links(h, k);
      if rings[h] != [] { HomedDistinct(home, h, rings[h], k, Nx(rings[h], k)); }
    }

    /** `list_empty(h)`: the sentinel points at itself exactly when its chain has no element. */
    lemma EmptyIff(h: nat)
      requires Valid() && h in rings
      ensures h < |next| && (next[h] == h <==> rings[h] == [])
    {
      Links(h, 0);
      if rings[h] != [] { Links(h, 1); }
    }

    /** Allocates a slot holding `v` whose links point at itself, as `INIT_LIST_HEAD` leaves them. */
    method NewNode(v: CString) returns (x: nat)
      requires Valid()
      modifies this
      ensures Valid() && rings == old(rings) && home == old(home) && value == old(value) + [v]
      ensures x == old(|next|) && x !in home && x < |next| && value[x] == v && next[x] == x && prev[x] == x
    {
      x := |next|;
      ghost var next0, prev0 := next, prev;
      next, prev, value := next + [x], prev + [x], value + [v];
      forall g | g in rings ensures Ring(next, prev, g, rings[g]) {
        RingFrame(next0, prev0, next, prev, g, rings[g]);
      }
    }

    /** A new empty list: a sentinel from `malloc` or a local `struct list_head`, after `INIT_LIST_HEAD`. */
    method NewHead() returns (h: nat)
      requires Valid()
      modifies this
      ensures Valid() && h !in old(rings) && rings == old(rings)[h := []]
      ensures value == old(value) + [""]
    {
      h := NewNode("");
      forall g | g in rings ensures g != h {
        SentinelsHomed(rings, home, g);
      }
      forall g, q: nat | g in rings && q <= |rings[g]| ensures At(g, rings[g], q) != h {
        assert home[At(g, rings[g], q)] == Home(g, q);
      }
      rings := rings[h := []];
      home := home[h := Home(h, 0)];
      assert Ring(next, prev, h, []) by { assert At(h, [], 0) == h; }
    }

    /** `list_add(node, anchor)`: links `node` right after `anchor`, found at cyclic position `k` of chain `h`. */
    method ListAdd(node: nat, anchor: nat, ghost h: nat, ghost k: nat)
      requires Valid() && h in rings && k <= |rings[h]| && anchor == At(h, rings[h], k)
      requires node < |next| && node !in home
      modifies this
      ensures Valid() && value == old(value)
      ensures rings == old(rings)[h := Insert(old(rings[h]), k, Entry(node, value[node]))]
    {
      Links(h, k);
      var nxt := next[anchor];
      var next': seq<nat> := next[node := nxt][anchor := node];
      var prev': seq<nat> := prev[nxt := node][node := anchor];
      ghost var rings': map<nat, seq<Entry>> := rings[h := Insert(rings[h], k, Entry(node, value[node]))];
      ghost var home' := AddHome(home, h, k, node);
      AddWf(next, prev, value, rings, home, h, k, node);
      assert Wf(next', prev', value, rings', home');
      next, prev := next', prev';
      rings, home := rings', home';
    }

    /** `list_add_tail(node, head)`: links `node` between the last element and the sentinel. */
    method ListAddTail(node: nat, head: nat)
      requires Valid() && head in rings && node < |next| && node !in home
      modifies this
      ensures Valid() && value == old(value)
      ensures rings == old(rings)[head := old(rings[head]) + [Entry(node, value[node])]]
    {
      ghost var o := rings[head];
      Links(head, 0);
      var last := prev[head];
      ListAdd(node, last, head, |o|);
      assert Insert(o, |o|, Entry(node, value[node])) == o + [Entry(node, value[node])];
    }

    /** `list_del(node)`: unlinks the `i`-th element of chain `h`; its own links are left stale. */
    method ListDel(node: nat, ghost h: nat, ghost i: nat)
      requires Valid() && h in rings && i < |rings[h]| && node == rings[h][i].slot
      modifies this
      ensures Valid() && value == old(value)
      ensures rings == old(rings)[h := Remove(old(rings[h]), i)]
      ensures node < |next| && node !in home
    {
      Links(h, i + 1);
      var nx, px := next[node], prev[node];
      var next': seq<nat> := next[px := nx];
      var prev': seq<nat> := prev[nx := px];
      ghost var rings': map<nat, seq<Entry>> := rings[h := Remove(rings[h], i)];
      ghost var home' := DelHome(home, h, i, node);
      DelWf(next, prev, value, rings, home, h, i);
      assert Wf(next', prev', value, rings', home');
      next, prev := next', prev';
      rings, home := rings', home';
    }

    /**
     * `list_move(node, anchor)`: `list_del` then `list_add`, within chain `h`;
     * the anchor sits at cyclic position `k` once `node` is out.
     */
    method ListMove(node: nat, anchor: nat, ghost h: nat, ghost i: nat, ghost k: nat)
      requires Valid() && h in rings && i < |rings[h]| && node == rings[h][i].slot
      requires k < |rings[h]| && anchor == At(h, Remove(rings[h], i), k)
      modifies this
      ensures Valid() && value == old(value)
      ensures rings == old(rings)[h := Insert(Remove(old(rings[h]), i), k, old(rings[h])[i])]
    {
      ghost var e := rings[h][i];
      ListDel(node, h, i);
      ListAdd(node, anchor, h, k);
    }

    /** `list_move_tail(node, head)`: the `i`-th element of chain `g` becomes the last of chain `head`. */
    method ListMoveTail(node: nat, head: nat, ghost g: nat, ghost i: nat)
      requires Valid() && g in rings && i < |rings[g]| && node == rings[g][i].slot && head in rings
      modifies this
      ensures Valid() && value == old(value)
      ensures var mid := old(rings)[g := Remove(old(rings[g]), i)];
              rings == mid[head := mid[head] + [old(rings[g])[i]]]
    {
      ghost var e := rings[g][i];
      ListDel(node, g, i);
      ListAddTail(node, head);
    }

    /**
     * `list_cut_position(to, from, node)`: with `from` at cyclic position `k`
     * and `node` at position `j` of chain `h`, the elements after `from` up to
     * and including `node` move, in order, to the empty chain `to`.
     */
    method ListCutPosition(to: nat, from: nat, node: nat, ghost h: nat, ghost k: nat, ghost j: nat)
      requires Valid() && h in rings && k <= j <= |rings[h]|
      requires from == At(h, rings[h], k) && node == At(h, rings[h], j)
      requires to in rings && to != h && rings[to] == []
      modifies this
      ensures Valid() && value == old(value)
      ensures rings == old(rings)[h := old(rings[h])[..k] + old(rings[h])[j..]][to := old(rings[h])[k..j]]
    {
      ghost var o := rings[h];
      Positions(h, k, j);
      if next[from] == from {
        assert o[..k] + o[j..] == o && o[k..j] == [];
        return;
      }
      if from == node {
        assert o[..k] + o[j..] == o && o[k..j] == [];
        Links(to, 0);
        assert next[to := to] == next && prev[to := to] == prev;
        next := next[to := to];
        prev := prev[to := to];
        return;
      }
      CutNonEmpty(to, from, node, h, k, j);
    }

    /** The general case of `list_cut_position`: at least one element moves. */
    method CutNonEmpty(to: nat, from: nat, node: nat, ghost h: nat, ghost k: nat, ghost j: nat)
      requires Valid() && h in rings && k < j <= |rings[h]|
      requires from == At(h, rings[h], k) && node == At(h, rings[h], j)
      requires to in rings && to != h && rings[to] == []
      modifies this
      ensures Valid() && value == old(value)
      ensures rings == old(rings)[h := old(rings[h])[..k] + old(rings[h])[j..]][to := old(rings[h])[k..j]]
    {
      ghost var o1, o2 := rings[h][..k] + rings[h][j..], rings[h][k..j];
      ghost var home' := CutHome(home, h, k, j, to);
      ghost var rings': map<nat, seq<Entry>> := rings[h := o1][to := o2];
      Links(h, k);
      Links(h, j);
      Links(to, 0);
      var first, after := next[from], next[node];
      var next': seq<nat>, prev': seq<nat> := next[from := after][node := to][to := first], prev[after := from][to := node][first := to];
      CutWf(next, prev, value, rings, home, h, k, j, to);
      assert Wf(next', prev', value, rings', home');
      next, prev := next', prev';
      home, rings := home', rings';
    }

    /**
     * `list_splice_init(list, anchor)`: the elements of chain `list` are linked
     * in, in order, right after `anchor` (cyclic position `k` of chain `h`),
     * and `list` is left empty.
     */
    method ListSpliceInit(list: nat, anchor: nat, ghost h: nat, ghost k: nat)
      requires Valid() && h in rings && k <= |rings[h]| && anchor == At(h, rings[h], k)
      requires list in rings && list != h
      modifies this
      ensures Valid() && value == old(value)
      ensures rings == old(rings)[h := old(rings[h])[..k] + old(rings[list]) + old(rings[h])[k..]][list := []]
    {
      ghost var o, lo := rings[h], rings[list];
      EmptyIff(list);
      if next[list] != list {
        SpliceNonEmpty(list, anchor, h, k);
      } else {
        Links(list, 0);
        next := next[list := list];
        prev := prev[list := list];
        assert o[..k] + lo + o[k..] == o;
        assert rings == rings[h := o[..k] + lo + o[k..]][list := []];
      }
    }

    /** The general case of `list_splice_init`: `list` has at least one element. */
    method SpliceNonEmpty(list: nat, anchor: nat, ghost h: nat, ghost k: nat)
      requires Valid() && h in rings && k <= |rings[h]| && anchor == At(h, rings[h], k)
      requires list in rings && list != h && rings[list] != []
      modifies this
      ensures Valid() && value == old(value)
      ensures rings == old(rings)[h := old(rings[h])[..k] + old(rings[list]) + old(rings[h])[k..]][list := []]
    {
      ghost var o, lo := rings[h], rings[list];
      Links(h, k);
      Links(list, 0);
      Links(list, |lo|);
      var headFirst, listFirst, listLast := next[anchor], next[list], prev[list];
      var next': seq<nat> := next[anchor := listFirst][listLast := headFirst][list := list];
      var prev': seq<nat> := prev[listFirst := anchor][headFirst := listLast][list := list];
      ghost var rings': map<nat, seq<Entry>> := rings[h := o[..k] + lo + o[k..]][list := []];
      ghost var home' := SpliceHome(home, h, k, list, |lo|);
      SpliceWf(next, prev, value, rings, home, h, k, list);
      assert Wf(next', prev', value, rings', home');
      next, prev := next', prev';
      rings, home := rings', home';
    }

    /** `list_splice_tail_init(list, head)`: the elements of `list` are appended to chain `head`; `list` is left empty. */
    method ListSpliceTailInit(list: nat, head: nat)
      requires Valid() && head in rings && list in rings && list != head
      modifies this
      ensures Valid() && value == old(value)
      ensures rings == old(rings)[head := old(rings[head]) + old(rings[list])][list := []]
    {
      ghost var o := rings[head];
      Links(head, 0);
      var last := prev[head];
      ListSpliceInit(list, last, head, |o|);
      assert o[..|o|] + old(rings[list]) + o[|o|..] == o + old(rings[list]);
    }

    /** A list head ceases to exist: a local `struct list_head` going out of scope, or `free(head)`. */
    ghost method Forget(h: nat)
      requires Valid() && h in rings
      modifies this
      ensures Valid() && rings == old(rings) - {h}
      ensures next == old(next) && prev == old(prev) && value == old(value)
    {
      rings := rings - {h};
    }
  }
}
