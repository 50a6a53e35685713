/**
 * The operations of queue.c over the arena of module Lists. A queue is
 * given by the slot of its sentinel (`None` stands for a NULL head); each
 * operation is proved to leave the queue's entries as the function of
 * module QueueSpec that describes it, and every other chain untouched.
 */
module Queue {
  import opened Strings
  import opened Rings
  import opened Lists
  import Spec = QueueSpec
  import Steps = QueueSteps

  /** The arena is sound and a non-NULL head is the sentinel of a live queue. */
  ghost predicate Live(a: Arena, head: Option<nat>)
    reads a
  {
    a.Valid() && (head.Some? ==> head.value in a.rings)
  }

  /** The entries of a possibly NULL queue; a NULL queue has none. */
  ghost function Entries(a: Arena, head: Option<nat>): seq<Entry>
    reads a
    requires Live(a, head)
  {
    if head.None? then [] else a.rings[head.value]
  }

  /** q_new: a fresh, empty queue (allocation failure is not modelled). */
  method New(a: Arena) returns (head: nat)
    requires a.Valid()
    modifies a
    ensures Grown(old(a.value), a.value)
    ensures a.Valid() && head !in old(a.rings) && a.rings == old(a.rings)[head := []]
  {
    head := a.NewHead();
  }

  /** q_free: the queue and all its elements cease to exist; a NULL queue is ignored. */
  method Free(a: Arena, head: Option<nat>)
    requires Live(a, head)
    modifies a
    ensures a.value == old(a.value)
    ensures a.Valid()
    ensures a.rings == if head.None? then old(a.rings) else old(a.rings) - {head.value}
  {
    if head.None? {
      return;
    }
    a.Forget(head.value);
  }

  /** q_insert_head: a new element holding a copy of `s` becomes the first; false, and no change, for a NULL queue. */
  method InsertHead(a: Arena, head: Option<nat>, s: CString) returns (ok: bool)
    requires Live(a, head)
    modifies a
    ensures Grown(old(a.value), a.value)
    ensures a.Valid() && ok == head.Some?
    ensures a.rings == if head.None? then old(a.rings)
                       else old(a.rings)[head.value := [Entry(old(|a.value|), s)] + old(a.rings[head.value])]
  {
    if head.None? {
      return false;
    }
    var x := a.NewNode(s);
    a.ListAdd(x, head.value, head.value, 0);
    assert Insert(old(a.rings[head.value]), 0, Entry(x, s)) == [Entry(x, s)] + old(a.rings[head.value]);
    return true;
  }

  /** q_insert_tail: a new element holding a copy of `s` becomes the last; false, and no change, for a NULL queue. */
  method InsertTail(a: Arena, head: Option<nat>, s: CString) returns (ok: bool)
    requires Live(a, head)
    modifies a
    ensures Grown(old(a.value), a.value)
    ensures a.Valid() && ok == head.Some?
    ensures a.rings == if head.None? then old(a.rings)
                       else old(a.rings)[head.value := old(a.rings[head.value]) + [Entry(old(|a.value|), s)]]
  {
    if head.None? {
      return false;
    }
    var x := a.NewNode(s);
    a.ListAddTail(x, head.value);
    return true;
  }

  /** `snprintf(sp, bufsize, "%s", s)`: the truncated copy, leaving the rest of the buffer as it was. */
  method CopyOut(sp: array<char>, bufsize: nat, s: CString)
    requires 0 < bufsize <= sp.Length
    modifies sp
    ensures sp[..] == Truncated(s, bufsize) + old(sp[..])[|Truncated(s, bufsize)|..]
  {
    var m := if |s| < bufsize - 1 then |s| else bufsize - 1;
    var i := 0;
    while i < m
      invariant 0 <= i <= m
      invariant forall j | 0 <= j < sp.Length :: sp[j] == if j < i then s[j] else old(sp[j])
    {
      sp[i] := s[i];
      i := i + 1;
    }
    sp[m] := '\0';
    ghost var w := Truncated(s, bufsize) + old(sp[..])[m + 1..];
    assert |w| == sp.Length;
    forall j | 0 <= j < sp.Length ensures sp[j] == w[j] {
      if j > m { assert w[j] == old(sp[..])[j]; }
    }
    assert sp[..] == w;
  }

  /**
   * q_remove_head and q_remove_tail: unlink the first (`last` false) or last
   * element and return its slot, copying its string into `sp` when `sp` is
   * non-NULL and `bufsize > 0`; NULL, and no change, for a NULL or empty queue.
   */
  method RemoveEnd(a: Arena, head: Option<nat>, sp: array?<char>, bufsize: nat, last: bool) returns (r: Option<nat>)
    requires Live(a, head)
    requires sp != null && bufsize > 0 ==> bufsize <= sp.Length
    modifies a, sp
    ensures a.value == old(a.value)
    ensures a.Valid()
    ensures var o := old(Entries(a, head));
            if o == [] then
              r.None? && a.rings == old(a.rings) && (sp != null ==> sp[..] == old(sp[..]))
            else
              var i := if last then |o| - 1 else 0;
              && r == Some(o[i].slot)
              && a.rings == old(a.rings)[head.value := Remove(o, i)]
              && o[i].slot < |a.value| && a.value[o[i].slot] == o[i].val
              && (sp != null && bufsize > 0 ==> sp[..] == Truncated(o[i].val, bufsize) + old(sp[..])[|Truncated(o[i].val, bufsize)|..])
              && (sp == null || bufsize == 0 ==> sp == null || sp[..] == old(sp[..]))
  {
    if head.None? {
      return None;
    }
    var h := head.value;
    ghost var o := a.rings[h];
    a.Visit(h, 0);
    if a.next[h] == h {
      return None;
    }
    ghost var i := if last then |o| - 1 else 0;
    a.Visit(h, i);
    var node := if last then a.prev[h] else a.next[h];
    var s := a.value[node];
    a.ListDel(node, h, i);
    if sp != null && bufsize > 0 {
      CopyOut(sp, bufsize, s);
    }
    return Some(node);
  }

  /** q_remove_head. */
  method RemoveHead(a: Arena, head: Option<nat>, sp: array?<char>, bufsize: nat) returns (r: Option<nat>)
    requires Live(a, head)
    requires sp != null && bufsize > 0 ==> bufsize <= sp.Length
    modifies a, sp
    ensures a.value == old(a.value)
    ensures a.Valid()
    ensures var o := old(Entries(a, head));
            if o == [] then
              r.None? && a.rings == old(a.rings) && (sp != null ==> sp[..] == old(sp[..]))
            else
              && r == Some(o[0].slot)
              && a.rings == old(a.rings)[head.value := o[1..]]
              && o[0].slot < |a.value| && a.value[o[0].slot] == o[0].val
              && (sp != null && bufsize > 0 ==> sp[..] == Truncated(o[0].val, bufsize) + old(sp[..])[|Truncated(o[0].val, bufsize)|..])
              && (sp != null && bufsize == 0 ==> sp[..] == old(sp[..]))
  {
    r := RemoveEnd(a, head, sp, bufsize, false);
    ghost var o := old(Entries(a, head));
    if o != [] {
      assert Remove(o, 0) == o[1..];
    }
  }

  /** q_remove_tail. */
  method RemoveTail(a: Arena, head: Option<nat>, sp: array?<char>, bufsize: nat) returns (r: Option<nat>)
    requires Live(a, head)
    requires sp != null && bufsize > 0 ==> bufsize <= sp.Length
    modifies a, sp
    ensures a.value == old(a.value)
    ensures a.Valid()
    ensures var o := old(Entries(a, head));
            if o == [] then
              r.None? && a.rings == old(a.rings) && (sp != null ==> sp[..] == old(sp[..]))
            else
              && r == Some(o[|o| - 1].slot)
              && a.rings == old(a.rings)[head.value := o[..|o| - 1]]
              && o[|o| - 1].slot < |a.value| && a.value[o[|o| - 1].slot] == o[|o| - 1].val
              && (sp != null && bufsize > 0 ==> sp[..] == Truncated(o[|o| - 1].val, bufsize) + old(sp[..])[|Truncated(o[|o| - 1].val, bufsize)|..])
              && (sp != null && bufsize == 0 ==> sp[..] == old(sp[..]))
  {
    r := RemoveEnd(a, head, sp, bufsize, true);
    ghost var o := old(Entries(a, head));
    if o != [] {
      assert Remove(o, |o| - 1) == o[..|o| - 1];
    }
  }

  /** q_insert_head then q_remove_head: the same element comes back with `s`, and the queue is as before (LIFO at the head). */
  method InsertHeadRemoveHead(a: Arena, head: nat, s: CString) returns (r: Option<nat>)
    requires Live(a, Some(head))
    modifies a
    ensures Grown(old(a.value), a.value)
    ensures a.Valid() && a.rings == old(a.rings)
    ensures r.Some? && r.value < |a.value| && a.value[r.value] == s
  {
    var ok := InsertHead(a, Some(head), s);
    r := RemoveHead(a, Some(head), null, 0);
    assert a.rings[head] == old(a.rings[head]);
  }

  /** q_insert_tail of `s` then `t` on an empty queue, then q_remove_head twice: `s` comes out first (FIFO), and the queue is empty again. */
  method InsertTailRemoveHead(a: Arena, head: nat, s: CString, t: CString) returns (r1: Option<nat>, r2: Option<nat>)
    requires Live(a, Some(head)) && a.rings[head] == []
    modifies a
    ensures Grown(old(a.value), a.value)
    ensures a.Valid() && a.rings == old(a.rings)
    ensures r1.Some? && r1.value < |a.value| && a.value[r1.value] == s
    ensures r2.Some? && r2.value < |a.value| && a.value[r2.value] == t
  {
    var ok := InsertTail(a, Some(head), s);
    ok := InsertTail(a, Some(head), t);
    r1 := RemoveHead(a, Some(head), null, 0);
    r2 := RemoveHead(a, Some(head), null, 0);
  }

  /** q_size: counts the elements by walking the chain; 0 for a NULL queue. */
  method Size(a: Arena, head: Option<nat>) returns (n: int)
    requires Live(a, head)
    ensures n == |Entries(a, head)|
  {
    if head.None? {
      return 0;
    }
    var h := head.value;
    ghost var o := a.rings[h];
    n := 0;
    a.Visit(h, 0);
    var node := a.next[h];
    while node != h
      invariant 0 <= n <= |o| && node == Slot(h, o, n)
      decreases |o| - n
    {
      a.Visit(h, n);
      node := a.next[node];
      n := n + 1;
    }
    a.Visit(h, n);
  }

  /** What the fast pointer of a slow/fast walk sees from the entry at index `f`: the next two slots. */
  lemma FastAt(a: Arena, h: nat, f: nat)
    requires a.Valid() && h in a.rings && f < |a.rings[h]|
    ensures var o := a.rings[h]; var s1 := Slot(h, o, f + 1);
      && o[f].slot < |a.next| && a.next[o[f].slot] == s1 && s1 < |a.next| && (s1 == h <==> f + 1 == |o|)
      && (f + 1 < |o| ==> a.next[s1] == Slot(h, o, f + 2) && (Slot(h, o, f + 2) == h <==> f + 2 == |o|))
  {
    a.Visit(h, f);
    a.Visit(h, f + 1);
    if f + 1 < |a.rings[h]| {
      a.Visit(h, f + 2);
    }
  }

  /**
   * The slow/fast walk of q_delete_mid and q_sort: `fast` takes two steps
   * for each step of `slow`, and `slow` stops on the entry at `Middle(n)`.
   */
  method FindMiddle(a: Arena, h: nat) returns (slow: nat)
    requires a.Valid() && h in a.rings && |a.rings[h]| > 0
    ensures slow == a.rings[h][Spec.Middle(|a.rings[h]|)].slot
  {
    ghost var o := a.rings[h];
    ghost var i, f := 0, 0;
    a.Visit(h, 0);
    FastAt(a, h, 0);
    slow := a.next[h];
    var fast := slow;
    while a.next[fast] != h && a.next[a.next[fast]] != h
      invariant f == 2 * i && f < |o| && slow == o[i].slot && fast == o[f].slot
      invariant fast < |a.next| && a.next[fast] == Slot(h, o, f + 1) && Slot(h, o, f + 1) < |a.next|
      invariant Slot(h, o, f + 1) == h <==> f + 1 == |o|
      invariant f + 1 < |o| ==> a.next[Slot(h, o, f + 1)] == Slot(h, o, f + 2)
      invariant f + 1 < |o| ==> (Slot(h, o, f + 2) == h <==> f + 2 == |o|)
      decreases |o| - f
    {
      a.Visit(h, i);
      slow := a.next[slow];
      fast := a.next[a.next[fast]];
      i, f := i + 1, f + 2;
      FastAt(a, h, f);
    }
    Steps.MiddleReached(i, |o|);
  }

  /**
   * q_delete_mid: removes the entry at `Middle(n)`, the first of the two
   * middles when `n` is even; false, and no change, for a NULL or empty queue.
   */
  method DeleteMid(a: Arena, head: Option<nat>) returns (ok: bool)
    requires Live(a, head)
    modifies a
    ensures a.value == old(a.value)
    ensures a.Valid()
    ensures var o := old(Entries(a, head));
            ok == (o != []) &&
            a.rings == if o == [] then old(a.rings) else old(a.rings)[head.value := Remove(o, Spec.Middle(|o|))]
  {
    if head.None? {
      return false;
    }
    var h := head.value;
    a.EmptyIff(h);
    if a.next[h] == h {
      return false;
    }
    var slow := FindMiddle(a, h);
    a.ListDel(slow, h, Spec.Middle(|a.rings[h]|));
    return true;
  }

  /**
   * A walk along chain `h` whose entries from index `i` on are those of `o`:
   * the slot it stands on, where that slot links to, and the string it holds.
   */
  lemma Follow(a: Arena, h: nat, o: seq<Entry>, i: nat)
    requires a.Valid() && h in a.rings && |a.rings[h]| == |o| && i <= |o| && a.rings[h][i..] == o[i..]
    ensures Slot(h, o, i) < |a.next| && h < |a.next| && (Slot(h, o, i) == h <==> i == |o|)
    ensures i == 0 ==> a.next[h] == Slot(h, o, 0)
    ensures i < |o| ==> a.next[Slot(h, o, i)] == Slot(h, o, i + 1) && (Slot(h, o, i + 1) == h <==> i + 1 == |o|)
    ensures i < |o| ==> Slot(h, o, i) < |a.value| && a.value[Slot(h, o, i)] == o[i].val
  {
    Steps.SlotsAgree(h, a.rings[h], o, i);
    a.Visit(h, i);
    if i < |o| {
      a.Visit(h, i + 1);
    }
  }

  /** One move of q_reverse: the entry at index `i`, the first not yet moved, goes to the front. */
  method MoveToFront(a: Arena, h: nat, node: nat, ghost o: seq<Entry>, ghost i: nat) returns (safe: nat)
    requires a.Valid() && h in a.rings && i < |o|
    requires a.rings[h] == Steps.Reversing(o, i) && node == Slot(h, o, i)
    modifies a
    ensures a.value == old(a.value)
    ensures a.Valid() && h in a.rings
    ensures a.rings == old(a.rings)[h := Steps.Reversing(o, i + 1)]
    ensures safe == Slot(h, o, i + 1) && (safe == h <==> i + 1 == |o|)
  {
    Steps.ReversingShape(o, i);
    Follow(a, h, o, i);
    safe := a.next[node];
    a.ListMove(node, h, h, i, 0);
  }

  /** q_reverse: the entries in the opposite order; nothing happens to a NULL or empty queue. */
  method Reverse(a: Arena, head: Option<nat>)
    requires Live(a, head)
    modifies a
    ensures a.value == old(a.value)
    ensures a.Valid()
    ensures a.rings == if head.None? then old(a.rings) else old(a.rings)[head.value := Spec.Reverse(old(a.rings[head.value]))]
  {
    if head.None? {
      return;
    }
    var h := head.value;
    ghost var o := a.rings[h];
    Follow(a, h, o, 0);
    if a.next[h] == h {
      assert a.rings == a.rings[h := Spec.Reverse(o)];
      return;
    }
    ghost var i := 0;
    var node := a.next[h];
    while node != h
      invariant a.value == old(a.value)
      invariant a.Valid() && h in a.rings && 0 <= i <= |o|
      invariant a.rings == old(a.rings)[h := Steps.Reversing(o, i)]
      invariant node == Slot(h, o, i) && (node == h <==> i == |o|)
      decreases |o| - i
    {
      ghost var mid := a.rings;
      node := MoveToFront(a, h, node, o, i);
      Steps.Overwrite(old(a.rings), h, mid[h], a.rings[h]);
      i := i + 1;
    }
    Steps.ReversingDone(o);
  }

  /** Before a q_swap step: the entry at index `2p` and its successor are still where `o` had them. */
  lemma SwapBefore(a: Arena, h: nat, o: seq<Entry>, p: nat)
    requires a.Valid() && h in a.rings && 2 * p + 1 < |o| && a.rings[h] == Steps.Swapped(o, p)
    ensures var q := a.rings[h]; |q| == |o| && q[2 * p] == o[2 * p]
    ensures Slot(h, o, 2 * p) == o[2 * p].slot && o[2 * p].slot < |a.next|
    ensures a.next[o[2 * p].slot] == At(h, Remove(a.rings[h], 2 * p), 2 * p + 1)
  {
    var i := 2 * p;
    Steps.SwappedTail(o, p);
    Follow(a, h, o, i);
    Steps.RemoveIndex(a.rings[h], i);
    assert a.rings[h][i..][1] == o[i..][1];
  }

  /** Whether an entry is left to pair with the one at index `2p`. */
  lemma SwapPeek(a: Arena, h: nat, o: seq<Entry>, p: nat)
    requires a.Valid() && h in a.rings && 2 * p < |o| && a.rings[h] == Steps.Swapped(o, p)
    ensures Slot(h, o, 2 * p) < |a.next| && (a.next[Slot(h, o, 2 * p)] == h <==> 2 * p + 1 == |o|)
  {
    Steps.SwappedTail(o, p);
    Follow(a, h, o, 2 * p);
  }

  /** After a q_swap step: the moved entry now links to the first entry of the next pair. */
  lemma SwapAfter(a: Arena, h: nat, o: seq<Entry>, p: nat)
    requires a.Valid() && h in a.rings && 2 * p + 2 <= |o| && a.rings[h] == Steps.Swapped(o, p + 1)
    ensures o[2 * p].slot < |a.next| && a.next[o[2 * p].slot] == Slot(h, o, 2 * p + 2)
    ensures Slot(h, o, 2 * p + 2) == h <==> 2 * p + 2 == |o|
  {
    var i := 2 * p + 2;
    var r := a.rings[h];
    Steps.SwappedPair(o, p);
    Steps.SlotsAgree(h, r, o, i);
    a.Visit(h, i - 1);
    a.Visit(h, i);
  }

  /** One step of q_swap: with `p` pairs done, the entry at index `2p` moves behind its successor. */
  method SwapAt(a: Arena, h: nat, node: nat, ghost o: seq<Entry>, ghost p: nat) returns (after: nat)
    requires a.Valid() && h in a.rings && 2 * p + 1 < |o|
    requires a.rings[h] == Steps.Swapped(o, p) && node == Slot(h, o, 2 * p)
    modifies a
    ensures a.value == old(a.value)
    ensures a.Valid() && h in a.rings
    ensures a.rings == old(a.rings)[h := Steps.Swapped(o, p + 1)]
    ensures after == Slot(h, o, 2 * (p + 1)) && (after == h <==> 2 * (p + 1) == |o|)
  {
    SwapBefore(a, h, o, p);
    Steps.SwappedNext(o, p);
    a.ListMove(node, a.next[node], h, 2 * p, 2 * p + 1);
    SwapAfter(a, h, o, p);
    after := a.next[node];
  }

  /** q_swap: the entries at 2i and 2i+1 exchanged for every complete pair; nothing happens to a NULL or empty queue. */
  method Swap(a: Arena, head: Option<nat>)
    requires Live(a, head)
    modifies a
    ensures a.value == old(a.value)
    ensures a.Valid()
    ensures a.rings == if head.None? then old(a.rings) else old(a.rings)[head.value := Spec.SwapPairs(old(a.rings[head.value]))]
  {
    if head.None? {
      return;
    }
    var h := head.value;
    ghost var o := a.rings[h];
    Follow(a, h, o, 0);
    if a.next[h] == h {
      assert a.rings == a.rings[h := Spec.SwapPairs(o)];
      return;
    }
    Steps.SwappedStart(o);
    ghost var p := 0;
    var node := a.next[h];
    while node != h
      invariant a.value == old(a.value)
      invariant a.Valid() && h in a.rings && 2 * p <= |o|
      invariant a.rings == old(a.rings)[h := Steps.Swapped(o, p)]
      invariant node == Slot(h, o, 2 * p) && (node == h <==> 2 * p == |o|)
      decreases |o| - 2 * p
    {
      SwapPeek(a, h, o, p);
      if a.next[node] == h {
        break;
      }
      ghost var mid := a.rings;
      node := SwapAt(a, h, node, o, p);
      Steps.Overwrite(old(a.rings), h, mid[h], a.rings[h]);
      p := p + 1;
    }
    Steps.SwappedDone(o, p);
  }

  /** Where q_reverseK stands on entry `i`: the chain past the last reversed block still reads as `o`. */
  lemma BlockPeek(a: Arena, h: nat, o: seq<Entry>, b: nat, i: nat, k: int)
    requires a.Valid() && h in a.rings && b <= i <= |o| && a.rings[h] == Steps.BlockReversed(o, b, k)
    ensures Slot(h, o, i) < |a.next| && (Slot(h, o, i) == h <==> i == |o|)
    ensures i < |o| ==> a.next[Slot(h, o, i)] == Slot(h, o, i + 1) && (Slot(h, o, i + 1) == h <==> i + 1 == |o|)
  {
    Steps.BlockTail(o, b, k);
    assert a.rings[h][i..] == a.rings[h][b..][i - b..];
    Follow(a, h, o, i);
  }

  /** After a block is reversed, the entry before `safe` is the last entry of the reversed part. */
  lemma BlockAfter(a: Arena, h: nat, o: seq<Entry>, j: nat, k: int)
    requires a.Valid() && h in a.rings && 0 < j <= |o| && a.rings[h] == Steps.BlockReversed(o, j, k)
    ensures Slot(h, o, j) < |a.prev| && a.prev[Slot(h, o, j)] == At(h, a.rings[h], j)
  {
    var r := a.rings[h];
    Steps.BlockTail(o, j, k);
    Steps.SlotsAgree(h, r, o, j);
    a.Visit(h, j);
  }

  /** list_cut_position followed by q_reverse: entries `b` up to `j` of chain `h` cut onto the empty chain `pending` and reversed there. */
  method CutReversed(a: Arena, h: nat, pending: nat, from: nat, node: nat, ghost b: nat, ghost j: nat)
    requires a.Valid() && h in a.rings && pending in a.rings && pending != h && a.rings[pending] == []
    requires b <= j <= |a.rings[h]| && from == At(h, a.rings[h], b) && node == At(h, a.rings[h], j)
    modifies a
    ensures a.value == old(a.value)
    ensures a.Valid()
    ensures a.rings == old(a.rings)[h := old(a.rings[h])[..b] + old(a.rings[h])[j..]][pending := Spec.Reverse(old(a.rings[h])[b..j])]
  {
    a.ListCutPosition(pending, from, node, h, b, j);
    Reverse(a, Some(pending));
  }

  /**
   * One block of q_reverseK: the entries from index `b` up to `j` are cut
   * onto the empty chain `pending`, reversed there and spliced back after
   * `from`, leaving `pending` empty.
   */
  method ReverseSegment(a: Arena, h: nat, pending: nat, from: nat, node: nat, ghost b: nat, ghost j: nat)
    requires a.Valid() && h in a.rings && pending in a.rings && pending != h && a.rings[pending] == []
    requires b <= j <= |a.rings[h]| && from == At(h, a.rings[h], b) && node == At(h, a.rings[h], j)
    modifies a
    ensures a.value == old(a.value)
    ensures a.Valid()
    ensures a.rings == old(a.rings)[h := old(a.rings[h])[..b] + Spec.Reverse(old(a.rings[h])[b..j]) + old(a.rings[h])[j..]]
  {
    ghost var r := a.rings[h];
    ghost var c := r[..b] + r[j..];
    ghost var x := Spec.Reverse(r[b..j]);
    Steps.CutAt(h, r, b, j);
    CutReversed(a, h, pending, from, node, b, j);
    a.ListSpliceInit(pending, from, h, b);
    Steps.Restore(old(a.rings), h, pending, c, x, c[..b] + x + c[b..]);
  }

  /** A complete block of q_reverseK ends at entry `i`: it is reversed in place. */
  method ReverseBlock(a: Arena, h: nat, pending: nat, prev: nat, node: nat,
                      ghost o: seq<Entry>, ghost b: nat, ghost i: nat, k: int)
    requires a.Valid() && h in a.rings && pending in a.rings && pending != h && a.rings[pending] == []
    requires k > 0 && Spec.Multiple(b, k) && b <= i < |o| && i + 1 - b == k
    requires a.rings[h] == Steps.BlockReversed(o, b, k) && prev == At(h, a.rings[h], b)
    requires node == Slot(h, o, i)
    modifies a
    ensures a.value == old(a.value)
    ensures a.Valid() && Spec.Multiple(i + 1, k)
    ensures a.rings == old(a.rings)[h := Steps.BlockReversed(o, i + 1, k)]
  {
    ghost var r := a.rings[h];
    ghost var y := Steps.BlockReversed(o, i + 1, k);
    Steps.BlockStep(o, b, i, k);
    assert r[..b] + Spec.Reverse(r[b..i + 1]) + r[i + 1..] == y;
    Steps.BlockCut(h, o, b, i, k);
    ReverseSegment(a, h, pending, prev, node, b, i + 1);
    assert a.rings == old(a.rings)[h := y];
  }

  /** One iteration of q_reverseK's loop, on entry `i`, with the entries before `b` already block-reversed. */
  method ReverseKStep(a: Arena, h: nat, pending: nat, node: nat, prev: nat, count: int,
                      ghost o: seq<Entry>, ghost b: nat, ghost i: nat, k: int)
    returns (safe: nat, last: nat, counted: int, ghost b': nat)
    requires a.Valid() && h in a.rings && pending in a.rings && pending != h && a.rings[pending] == []
    requires b <= i < |o| && count == i - b
    requires k > 0 ==> count < k && Spec.Multiple(b, k)
    requires k <= 0 ==> b == 0
    requires a.rings[h] == Steps.BlockReversed(o, b, k) && prev == At(h, a.rings[h], b)
    requires node == Slot(h, o, i)
    modifies a
    ensures a.value == old(a.value)
    ensures a.Valid() && b' <= i + 1 && counted == i + 1 - b'
    ensures k > 0 ==> counted < k && Spec.Multiple(b', k)
    ensures k <= 0 ==> b' == 0
    ensures a.rings == old(a.rings)[h := Steps.BlockReversed(o, b', k)]
    ensures last == At(h, Steps.BlockReversed(o, b', k), b')
    ensures safe == Slot(h, o, i + 1) && (safe == h <==> i + 1 == |o|)
  {
    BlockPeek(a, h, o, b, i, k);
    safe := a.next[node];
    counted := count + 1;
    b' := b;
    last := prev;
    if counted == k {
      counted := 0;
      ReverseBlock(a, h, pending, prev, node, o, b, i, k);
      b' := i + 1;
      BlockAfter(a, h, o, b', k);
      last := a.prev[safe];
    }
  }

  /** The loop of q_reverseK over the non-empty chain `h`, with `pending` as its scratch chain. */
  method ReverseBlocks(a: Arena, h: nat, pending: nat, k: int, ghost o: seq<Entry>)
    requires a.Valid() && h in a.rings && pending in a.rings && pending != h && a.rings[pending] == []
    requires a.rings[h] == o && o != []
    modifies a
    ensures a.value == old(a.value)
    ensures a.Valid()
    ensures a.rings == old(a.rings)[h := Spec.ReverseK(o, k)]
  {
    Follow(a, h, o, 0);
    Steps.BlockStart(o, k);
    var prev := h;
    var count := 0;
    ghost var b: nat, i: nat := 0, 0;
    var node := a.next[h];
    while node != h
      invariant a.value == old(a.value)
      invariant a.Valid() && h in a.rings && pending in a.rings && a.rings[pending] == []
      invariant b <= i <= |o| && count == i - b
      invariant k > 0 ==> count < k && Spec.Multiple(b, k)
      invariant k <= 0 ==> b == 0
      invariant a.rings == old(a.rings)[h := Steps.BlockReversed(o, b, k)]
      invariant prev == At(h, a.rings[h], b)
      invariant node == Slot(h, o, i) && (node == h <==> i == |o|)
      decreases |o| - i
    {
      ghost var mid := a.rings;
      node, prev, count, b := ReverseKStep(a, h, pending, node, prev, count, o, b, i, k);
      Steps.Overwrite(old(a.rings), h, mid[h], a.rings[h]);
      i := i + 1;
    }
    Steps.BlockDone(o, b, k);
  }

  /**
   * q_reverseK: every complete block of `k` entries reversed in place, a
   * trailing partial block left as it is; nothing happens when `k` is not
   * positive, or to a NULL or empty queue.
   */
  method ReverseK(a: Arena, head: Option<nat>, k: int)
    requires Live(a, head)
    modifies a
    ensures Grown(old(a.value), a.value)
    ensures a.Valid()
    ensures a.rings == if head.None? then old(a.rings) else old(a.rings)[head.value := Spec.ReverseK(old(a.rings[head.value]), k)]
  {
    if head.None? {
      return;
    }
    var h := head.value;
    ghost var o := a.rings[h];
    a.EmptyIff(h);
    if a.next[h] == h {
      assert a.rings == a.rings[h := Spec.ReverseK(o, k)];
      return;
    }
    var pending := a.NewHead();
    ReverseBlocks(a, h, pending, k, o);
    a.Forget(pending);
    Steps.Unscratch(old(a.rings), h, pending, Spec.ReverseK(o, k));
  }

  /**
   * Where q_delete_dup stands after handling `i` entries: on the entry `o[i]`,
   * right after the entries kept so far, linked to the entry after it in `o`.
   */
  lemma DupAt(a: Arena, h: nat, o: seq<Entry>, i: nat)
    requires a.Valid() && h in a.rings && i < |o| && a.rings[h] == Steps.Deduping(o, i)
    ensures |Spec.Thin(o, i)| < |a.rings[h]| && a.rings[h][|Spec.Thin(o, i)|] == o[i]
    ensures o[i].slot < |a.next| && o[i].slot < |a.value| && a.value[o[i].slot] == o[i].val
    ensures a.next[o[i].slot] == Slot(h, o, i + 1) && (Slot(h, o, i + 1) == h <==> i + 1 == |o|)
    ensures i + 1 < |o| ==> o[i + 1].slot < |a.value| && a.value[o[i + 1].slot] == o[i + 1].val
  {
    var t := |Spec.Thin(o, i)|;
    Steps.DedupingAt(o, i);
    a.Visit(h, t);
    a.Visit(h, t + 1);
  }

  /**
   * One pass of q_delete_dup's loop over the entry `o[i]` in `node`: it is
   * compared with its successor and unlinked when they match or when it
   * matched its predecessor (`has_duplicate`).
   */
  method DupStep(a: Arena, h: nat, node: nat, ghost o: seq<Entry>, ghost i: nat, dup: bool) returns (safe: nat, dup': bool)
    requires a.Valid() && h in a.rings && i < |o| && a.rings[h] == Steps.Deduping(o, i) && node == o[i].slot
    requires dup == (0 < i && o[i - 1].val == o[i].val)
    modifies a
    ensures a.value == old(a.value)
    ensures a.Valid() && h in a.rings
    ensures a.rings == old(a.rings)[h := Steps.Deduping(o, i + 1)]
    ensures safe == Slot(h, o, i + 1) && (safe == h <==> i + 1 == |o|)
    ensures dup' == (i + 1 < |o| && o[i].val == o[i + 1].val)
  {
    DupAt(a, h, o, i);
    safe := a.next[node];
    var matched := false;
    if safe != h {
      matched := StrCmp(a.value[node], a.value[safe]) == 0;
    }
    dup' := dup;
    if matched || dup {
      dup' := matched;
      Steps.DedupingDrop(o, i);
      a.ListDel(node, h, |Spec.Thin(o, i)|);
    } else {
      Steps.DedupingKeep(o, i);
    }
  }

  /**
   * q_delete_dup: every entry whose string equals that of a neighbour is
   * deleted, so on a sorted queue exactly the strings occurring more than once
   * disappear; false, and no change, for a NULL or empty queue.
   */
  method DeleteDup(a: Arena, head: Option<nat>) returns (ok: bool)
    requires Live(a, head)
    modifies a
    ensures a.value == old(a.value)
    ensures a.Valid()
    ensures var o := old(Entries(a, head));
            ok == (o != []) &&
            a.rings == if o == [] then old(a.rings) else old(a.rings)[head.value := Spec.DeleteDup(o)]
  {
    if head.None? {
      return false;
    }
    var h := head.value;
    ghost var o := a.rings[h];
    Follow(a, h, o, 0);
    if a.next[h] == h {
      return false;
    }
    Steps.DedupingStart(o);
    var dup := false;
    ghost var i := 0;
    var node := a.next[h];
    while node != h
      invariant a.value == old(a.value)
      invariant a.Valid() && h in a.rings && 0 <= i <= |o|
      invariant a.rings == old(a.rings)[h := Steps.Deduping(o, i)]
      invariant node == Slot(h, o, i) && (node == h <==> i == |o|)
      invariant i < |o| ==> dup == (0 < i && o[i - 1].val == o[i].val)
      decreases |o| - i
    {
      ghost var mid := a.rings;
      node, dup := DupStep(a, h, node, o, i, dup);
      Steps.Overwrite(old(a.rings), h, mid[h], a.rings[h]);
      i := i + 1;
    }
    Steps.DedupingDone(o);
    return true;
  }

  /**
   * Where the backward scan of q_ascend and q_descend stands with the entries
   * from index `i` handled: on `o[i - 1]`, which is still in place and links
   * back to the entry before it.
   */
  lemma PruneAt(a: Arena, h: nat, o: seq<Entry>, i: nat, descend: bool)
    requires a.Valid() && h in a.rings && 0 < i <= |o| && a.rings[h] == Steps.Pruning(o, i, descend)
    ensures i - 1 < |a.rings[h]| && a.rings[h][i - 1] == o[i - 1]
    ensures o[i - 1].slot < |a.prev| && o[i - 1].slot < |a.value| && a.value[o[i - 1].slot] == o[i - 1].val
    ensures a.prev[o[i - 1].slot] == At(h, o, i - 1) && (At(h, o, i - 1) == h <==> i - 1 == 0)
  {
    var r := a.rings[h];
    Steps.PruningFront(o, i, descend);
    assert r[i - 1] == r[..i][i - 1];
    a.Links(h, i);
    a.Links(h, i - 1);
    a.Visit(h, i - 1);
    if i > 1 {
      assert r[i - 2] == r[..i][i - 2];
    }
  }

  /**
   * One pass of the backward scan over `o[i - 1]` in `node`: the first entry
   * seen only sets `cur_min`/`cur_max`; a later one is unlinked when
   * `strcmp` puts it after the extreme (`> 0` for q_ascend, `< 0` for
   * q_descend) and otherwise becomes the new extreme.
   */
  method PruneStep(a: Arena, h: nat, node: nat, ghost o: seq<Entry>, ghost i: nat, descend: bool, cur: Option<CString>)
    returns (safe: nat, cur': Option<CString>)
    requires a.Valid() && h in a.rings && 0 < i <= |o| && a.rings[h] == Steps.Pruning(o, i, descend)
    requires node == At(h, o, i) && cur == Steps.Running(o, i, descend)
    modifies a
    ensures a.value == old(a.value)
    ensures a.Valid() && h in a.rings
    ensures a.rings == old(a.rings)[h := Steps.Pruning(o, i - 1, descend)]
    ensures safe == At(h, o, i - 1) && (safe == h <==> i - 1 == 0)
    ensures cur' == Steps.Running(o, i - 1, descend)
  {
    PruneAt(a, h, o, i, descend);
    safe := a.prev[node];
    if cur.None? {
      Steps.PruningKeep(o, i, descend);
      cur' := Some(a.value[node]);
      return;
    }
    var e := a.value[node];
    var c := StrCmp(e, cur.value);
    Spec.StrCmpSign(e, cur.value);
    if (if descend then c < 0 else c > 0) {
      Steps.PruningDrop(o, i, descend);
      a.ListDel(node, h, i - 1);
      cur' := cur;
    } else {
      Steps.PruningKeep(o, i, descend);
      cur' := Some(e);
    }
  }

  /**
   * The backward scan shared by q_ascend (`descend` false) and q_descend:
   * scanning from the tail, every entry that must not come before some entry
   * to its right is deleted; nothing happens to a NULL or empty queue.
   */
  method Prune(a: Arena, head: Option<nat>, descend: bool)
    requires Live(a, head)
    modifies a
    ensures a.value == old(a.value)
    ensures Live(a, head)
    ensures var o := old(Entries(a, head));
            a.rings == if o == [] then old(a.rings) else old(a.rings)[head.value := Spec.Survivors(o, descend)]
  {
    if head.None? {
      return;
    }
    var h := head.value;
    ghost var o := a.rings[h];
    a.EmptyIff(h);
    if a.next[h] == h {
      return;
    }
    a.Links(h, 0);
    Steps.PruningStart(o, descend);
    var cur: Option<CString> := None;
    ghost var j := 0;
    var node := a.prev[h];
    while node != h
      invariant a.value == old(a.value)
      invariant a.Valid() && h in a.rings && 0 <= j <= |o|
      invariant a.rings == old(a.rings)[h := Steps.Pruning(o, |o| - j, descend)]
      invariant node == At(h, o, |o| - j) && (node == h <==> j == |o|)
      invariant cur == Steps.Running(o, |o| - j, descend)
      decreases |o| - j
    {
      ghost var mid := a.rings;
      node, cur := PruneStep(a, h, node, o, |o| - j, descend, cur);
      Steps.Overwrite(old(a.rings), h, mid[h], a.rings[h]);
      j := j + 1;
    }
    Steps.PruningDone(o, descend);
  }

  /**
   * q_ascend: keeps exactly the entries no greater than every entry to their
   * right and returns how many are left (q_size), 0 for a NULL or empty queue.
   */
  method Ascend(a: Arena, head: Option<nat>) returns (n: int)
    requires Live(a, head)
    modifies a
    ensures a.value == old(a.value)
    ensures a.Valid()
    ensures var o := old(Entries(a, head));
            n == |Spec.Survivors(o, false)| &&
            a.rings == if o == [] then old(a.rings) else old(a.rings)[head.value := Spec.Survivors(o, false)]
  {
    Prune(a, head, false);
    n := Size(a, head);
  }

  /**
   * q_descend: keeps exactly the entries no less than every entry to their
   * right and returns how many are left (q_size), 0 for a NULL or empty queue.
   */
  method Descend(a: Arena, head: Option<nat>) returns (n: int)
    requires Live(a, head)
    modifies a
    ensures a.value == old(a.value)
    ensures a.Valid()
    ensures var o := old(Entries(a, head));
            n == |Spec.Survivors(o, true)| &&
            a.rings == if o == [] then old(a.rings) else old(a.rings)[head.value := Spec.Survivors(o, true)]
  {
    Prune(a, head, true);
    n := Size(a, head);
  }

  /** The first entry left on chain `g` is `s[i]`: where it sits, its string and what follows it. */
  lemma MergeHead(a: Arena, g: nat, s: seq<Entry>, i: nat)
    requires a.Valid() && g in a.rings && i < |s| && a.rings[g] == s[i..]
    ensures a.rings[g][0].slot == Slot(g, s, i) && Slot(g, s, i) < |a.next| && Slot(g, s, i) < |a.value|
    ensures a.value[Slot(g, s, i)] == s[i].val && a.next[Slot(g, s, i)] == Slot(g, s, i + 1)
    ensures Slot(g, s, i + 1) == g <==> i + 1 == |s|
  {
    a.Visit(g, 0);
    a.Visit(g, 1);
    assert Slot(g, a.rings[g], 1) == Slot(g, s, i + 1);
  }

  /** mergeTwoLists takes the head `l[il]` of `left`: it moves to the tail of `nh`. */
  method TakeLeft(a: Arena, left: nat, right: nat, nh: nat, ln: nat, descend: bool,
                  ghost m: map<nat, seq<Entry>>, ghost l: seq<Entry>, ghost r: seq<Entry>,
                  ghost il: nat, ghost ir: nat, ghost acc: seq<Entry>) returns (next: nat)
    requires a.Valid() && left != right && left != nh && right != nh && il < |l| && ir < |r|
    requires a.rings == Steps.Merging(m, left, right, nh, l[il..], r[ir..], acc) && ln == Slot(left, l, il)
    requires acc + Spec.Merge(l[il..], r[ir..], descend) == Spec.Merge(l, r, descend)
    requires Spec.TakesLeft(l[il].val, r[ir].val, descend)
    modifies a
    ensures a.value == old(a.value)
    ensures a.Valid()
    ensures a.rings == Steps.Merging(m, left, right, nh, l[il + 1..], r[ir..], acc + [l[il]])
    ensures next == Slot(left, l, il + 1) && (next == left <==> il + 1 == |l|)
    ensures (acc + [l[il]]) + Spec.Merge(l[il + 1..], r[ir..], descend) == Spec.Merge(l, r, descend)
  {
    MergeHead(a, left, l, il);
    next := a.next[ln];
    Steps.MergeTakeLeft(l, r, l[il..], r[ir..], acc, descend);
    Steps.MergingLeft(m, left, right, nh, l[il..], r[ir..], acc);
    a.ListMoveTail(ln, nh, left, 0);
    assert l[il..][1..] == l[il + 1..];
  }

  /** mergeTwoLists takes the head `r[ir]` of `right`: it moves to the tail of `nh`. */
  method TakeRight(a: Arena, left: nat, right: nat, nh: nat, rn: nat, descend: bool,
                   ghost m: map<nat, seq<Entry>>, ghost l: seq<Entry>, ghost r: seq<Entry>,
                   ghost il: nat, ghost ir: nat, ghost acc: seq<Entry>) returns (next: nat)
    requires a.Valid() && left != right && left != nh && right != nh && il < |l| && ir < |r|
    requires a.rings == Steps.Merging(m, left, right, nh, l[il..], r[ir..], acc) && rn == Slot(right, r, ir)
    requires acc + Spec.Merge(l[il..], r[ir..], descend) == Spec.Merge(l, r, descend)
    requires !Spec.TakesLeft(l[il].val, r[ir].val, descend)
    modifies a
    ensures a.value == old(a.value)
    ensures a.Valid()
    ensures a.rings == Steps.Merging(m, left, right, nh, l[il..], r[ir + 1..], acc + [r[ir]])
    ensures next == Slot(right, r, ir + 1) && (next == right <==> ir + 1 == |r|)
    ensures (acc + [r[ir]]) + Spec.Merge(l[il..], r[ir + 1..], descend) == Spec.Merge(l, r, descend)
  {
    MergeHead(a, right, r, ir);
    next := a.next[rn];
    Steps.MergeTakeRight(l, r, l[il..], r[ir..], acc, descend);
    Steps.MergingRight(m, left, right, nh, l[il..], r[ir..], acc);
    a.ListMoveTail(rn, nh, right, 0);
    assert r[ir..][1..] == r[ir + 1..];
  }

  /** The strings mergeTwoLists compares: those of the heads `l[il]` and `r[ir]`. */
  lemma MergeHeads(a: Arena, left: nat, right: nat, nh: nat, m: map<nat, seq<Entry>>, l: seq<Entry>, r: seq<Entry>,
                   il: nat, ir: nat, acc: seq<Entry>)
    requires a.Valid() && left != right && left != nh && right != nh && il < |l| && ir < |r|
    requires a.rings == Steps.Merging(m, left, right, nh, l[il..], r[ir..], acc)
    ensures Slot(left, l, il) < |a.value| && a.value[Slot(left, l, il)] == l[il].val
    ensures Slot(right, r, ir) < |a.value| && a.value[Slot(right, r, ir)] == r[ir].val
  {
    MergeHead(a, left, l, il);
    MergeHead(a, right, r, ir);
  }

  /**
   * The loop of mergeTwoLists: while both `left` and `right` have entries,
   * the head that comes first moves to the tail of `nh`.
   */
  method MergeLoop(a: Arena, left: nat, right: nat, nh: nat, ln: nat, rn: nat, descend: bool,
                   ghost l: seq<Entry>, ghost r: seq<Entry>)
    returns (size: int, ghost il: nat, ghost ir: nat, ghost acc: seq<Entry>)
    requires a.Valid() && left != right && left != nh && right != nh
    requires left in a.rings && right in a.rings && nh in a.rings
    requires a.rings[left] == l && a.rings[right] == r && a.rings[nh] == []
    requires ln == Slot(left, l, 0) && (ln == left <==> l == []) && rn == Slot(right, r, 0) && (rn == right <==> r == [])
    modifies a
    ensures a.value == old(a.value)
    ensures a.Valid() && il <= |l| && ir <= |r| && (il == |l| || ir == |r|)
    ensures a.rings == Steps.Merging(old(a.rings), left, right, nh, l[il..], r[ir..], acc)
    ensures acc + Spec.Merge(l[il..], r[ir..], descend) == Spec.Merge(l, r, descend)
    ensures size == |acc|
  {
    ghost var m := a.rings;
    il, ir, acc := 0, 0, [];
    assert l[0..] == l && r[0..] == r;
    assert a.rings == Steps.Merging(m, left, right, nh, l[il..], r[ir..], acc);
    size := 0;
    var ln, rn := ln, rn;
    while ln != left && rn != right
      invariant a.value == old(a.value)
      invariant a.Valid() && il <= |l| && ir <= |r|
      invariant a.rings == Steps.Merging(m, left, right, nh, l[il..], r[ir..], acc)
      invariant ln == Slot(left, l, il) && (ln == left <==> il == |l|)
      invariant rn == Slot(right, r, ir) && (rn == right <==> ir == |r|)
      invariant acc + Spec.Merge(l[il..], r[ir..], descend) == Spec.Merge(l, r, descend)
      invariant size == |acc| == il + ir
      decreases |l| - il + |r| - ir
    {
      MergeHeads(a, left, right, nh, m, l, r, il, ir, acc);
      var s1 := a.value[ln];
      var s2 := a.value[rn];
      if Spec.TakesLeft(s1, s2, descend) {
        ln := TakeLeft(a, left, right, nh, ln, descend, m, l, r, il, ir, acc);
        acc, il := acc + [l[il]], il + 1;
      } else {
        rn := TakeRight(a, left, right, nh, rn, descend, m, l, r, il, ir, acc);
        acc, ir := acc + [r[ir]], ir + 1;
      }
      size := size + 1;
    }
  }

  /**
   * mergeTwoLists: the entries of the two sorted chains `left` and `right`
   * merged onto `left`, taking from `left` on ties; `right` ends empty and the
   * result is the number of entries merged.
   */
  method MergeTwoLists(a: Arena, left: nat, right: nat, descend: bool) returns (size: int)
    requires a.Valid() && left in a.rings && right in a.rings && left != right
    modifies a
    ensures Grown(old(a.value), a.value)
    ensures a.Valid()
    ensures a.rings == old(a.rings)[left := Spec.Merge(old(a.rings[left]), old(a.rings[right]), descend)][right := []]
    ensures size == |old(a.rings[left])| + |old(a.rings[right])|
  {
    ghost var l, r := a.rings[left], a.rings[right];
    a.Visit(left, 0);
    a.Visit(right, 0);
    var ln := a.next[left];
    var rn := a.next[right];
    size := 0;
    if ln == left && rn == right {
      assert a.rings == old(a.rings)[left := Spec.Merge(l, r, descend)][right := []];
      return;
    }
    var nh := a.NewHead();
    ghost var il, ir, acc;
    size, il, ir, acc := MergeLoop(a, left, right, nh, ln, rn, descend, l, r);
    Steps.MergingAt(old(a.rings)[nh := []], left, right, nh, l[il..], r[ir..], acc);
    Steps.MergeRest(l, r, l[il..], r[ir..], acc, descend);
    Spec.MergeLength(l, r, descend);
    var rest := MergeFinish(a, left, right, nh, l[il..], r[ir..], acc);
    size := size + rest;
    Steps.MergeScratch(old(a.rings), left, right, nh, l[il..], r[ir..], acc);
  }

  /**
   * The end of mergeTwoLists: what is left of `left` and of `right` appended
   * to `nh` in that order, counted, and `nh` spliced back onto `left`.
   */
  method MergeFinish(a: Arena, left: nat, right: nat, nh: nat, ghost x: seq<Entry>, ghost y: seq<Entry>, ghost acc: seq<Entry>)
    returns (rest: int)
    requires a.Valid() && left != right && left != nh && right != nh
    requires left in a.rings && right in a.rings && nh in a.rings
    requires a.rings[left] == x && a.rings[right] == y && a.rings[nh] == acc
    modifies a
    ensures a.value == old(a.value)
    ensures a.Valid() && rest == |x| + |y|
    ensures var r1 := old(a.rings)[nh := acc + x][left := []];
      var r2 := r1[nh := acc + x + y][right := []];
      a.rings == r2[left := [][..0] + (acc + x + y) + [][0..]][nh := []] - {nh}
  {
    rest := Size(a, Some(left));
    a.ListSpliceTailInit(left, nh);
    var n := Size(a, Some(right));
    rest := rest + n;
    a.ListSpliceTailInit(right, nh);
    a.ListSpliceInit(nh, left, left, 0);
    a.Forget(nh);
  }

  /**
   * The split of q_sort: the entries up to and including `slow`, the middle
   * one, cut onto `left`, the others spliced onto `right`, leaving `head`
   * empty.
   */
  method Halve(a: Arena, head: nat, left: nat, right: nat, slow: nat, ghost o: seq<Entry>)
    requires a.Valid() && head in a.rings && left in a.rings && right in a.rings
    requires head != left && head != right && left != right
    requires a.rings[head] == o && a.rings[left] == [] && a.rings[right] == [] && o != []
    requires slow == o[Spec.Middle(|o|)].slot
    modifies a
    ensures a.value == old(a.value)
    ensures a.Valid()
    ensures a.rings == old(a.rings)[head := []][left := o[..(|o| + 1) / 2]][right := o[(|o| + 1) / 2..]]
  {
    ghost var j := Spec.Middle(|o|) + 1;
    assert j == (|o| + 1) / 2;
    Steps.HalveScratch(a.rings, head, left, right, o, j);
    a.ListCutPosition(left, head, slow, head, 0, j);
    a.ListSpliceInit(head, right, right, 0);
  }

  /**
   * q_sort on a non-NULL queue: the entries stably sorted in the chosen
   * direction, by splitting after the middle entry, sorting both halves and
   * merging them; a queue with fewer than two entries is left as it is.
   */
  method Sort(a: Arena, head: nat, descend: bool)
    requires a.Valid() && head in a.rings
    modifies a
    ensures Grown(old(a.value), a.value)
    ensures a.Valid()
    ensures a.rings == old(a.rings)[head := Spec.MergeSort(old(a.rings[head]), descend)]
    decreases |a.rings[head]|
  {
    ghost var o := a.rings[head];
    Follow(a, head, o, 0);
    if a.next[head] == head || a.next[a.next[head]] == head {
      assert a.rings == a.rings[head := Spec.MergeSort(o, descend)];
      return;
    }
    var slow := FindMiddle(a, head);
    ghost var v0 := a.value;
    var left := a.NewHead();
    var right := a.NewHead();
    ghost var m := (|o| + 1) / 2;
    Halve(a, head, left, right, slow, o);
    ghost var v1 := a.value;
    assert Grown(v0, v1) by { assert v1[..|v0|] == v0; }
    Sort(a, left, descend);
    GrownTransitive(v0, v1, a.value);
    ghost var v2 := a.value;
    Sort(a, right, descend);
    GrownTransitive(v0, v2, a.value);
    ghost var v3 := a.value;
    Join(a, head, left, right, descend);
    GrownTransitive(v0, v3, a.value);
    Steps.SortScratch(old(a.rings), head, left, right, o[..m], o[m..],
      Spec.MergeSort(o[..m], descend), Spec.MergeSort(o[m..], descend), Spec.MergeSort(o, descend));
  }

  /** The end of q_sort: the sorted halves merged onto `left`, spliced back onto the empty `head`, the scratch chains dropped. */
  method Join(a: Arena, head: nat, left: nat, right: nat, descend: bool)
    requires a.Valid() && head in a.rings && left in a.rings && right in a.rings
    requires head != left && head != right && left != right && a.rings[head] == []
    modifies a
    ensures Grown(old(a.value), a.value)
    ensures a.Valid()
    ensures var r4 := old(a.rings)[left := Spec.Merge(old(a.rings[left]), old(a.rings[right]), descend)][right := []];
      a.rings == r4[head := r4[head][..0] + r4[left] + r4[head][0..]][left := []] - {left} - {right}
  {
    var merged := MergeTwoLists(a, left, right, descend);
    a.ListSpliceInit(left, head, head, 0);
    a.Forget(left);
    a.Forget(right);
  }

  /**
   * q_merge as the source implements it: `chain` is the list of queue
   * contexts, each holding a possibly NULL queue. The result is 0 for a NULL
   * or empty chain, the size of the only queue when there is exactly one,
   * and 0 otherwise; no queue is changed.
   */
  method MergeAll(a: Arena, chain: Option<seq<Option<nat>>>, descend: bool) returns (n: int)
    requires a.Valid() && (chain.Some? ==> forall q | q in chain.value :: Live(a, q))
    ensures n == if chain.None? || |chain.value| != 1 then 0 else |Entries(a, chain.value[0])|
  {
    if chain.None? || chain.value == [] {
      return 0;
    }
    if |chain.value| == 1 {
      n := Size(a, chain.value[0]);
      return;
    }
    var size := 0;
    return size;
  }
}
