/**
 * What each queue operation does to the ordered entries of a queue, as
 * functions on sequences, and the properties queue.c promises about them.
 * The methods of module Queue are proved to transform a chain's entries by
 * exactly these functions.
 */
module QueueSpec {
  import opened Strings
  import opened Rings

  /*
   * Orders and sortedness
   */

  /** `x` may come before `y`: non-decreasing order, or non-increasing when `descend`. */
  predicate Ordered(x: CString, y: CString, descend: bool)
  {
    if descend then Leq(y, x) else Leq(x, y)
  }

  lemma OrderedReflexive(x: CString, descend: bool)
    ensures Ordered(x, x, descend)
  {
    LeqReflexive(x);
  }

  lemma OrderedTransitive(x: CString, y: CString, z: CString, descend: bool)
    requires Ordered(x, y, descend) && Ordered(y, z, descend)
    ensures Ordered(x, z, descend)
  {
    if descend { LeqTransitive(z, y, x); } else { LeqTransitive(x, y, z); }
  }

  lemma OrderedTotal(x: CString, y: CString, descend: bool)
    ensures Ordered(x, y, descend) || Ordered(y, x, descend)
  {
    LeqTotal(x, y);
  }

  predicate Sorted(s: seq<Entry>, descend: bool)
  {
    forall i, j | 0 <= i < j < |s| :: Ordered(s[i].val, s[j].val, descend)
  }

  /** `x` may come before every entry of `s`. */
  predicate Below(x: CString, s: seq<Entry>, descend: bool)
  {
    forall i | 0 <= i < |s| :: Ordered(x, s[i].val, descend)
  }

  lemma BelowTransitive(x: CString, y: CString, s: seq<Entry>, descend: bool)
    requires Ordered(x, y, descend) && Below(y, s, descend)
    ensures Below(x, s, descend)
  {
    forall i | 0 <= i < |s| ensures Ordered(x, s[i].val, descend) {
      OrderedTransitive(x, y, s[i].val, descend);
    }
  }

  lemma SortedCons(x: Entry, s: seq<Entry>, descend: bool)
    requires Sorted(s, descend) && Below(x.val, s, descend)
    ensures Sorted([x] + s, descend)
  {
    var t := [x] + s;
    forall i, j | 0 <= i < j < |t| ensures Ordered(t[i].val, t[j].val, descend) {
      if i > 0 { assert t[i] == s[i - 1] && t[j] == s[j - 1]; }
      else { assert t[j] == s[j - 1]; }
    }
  }

  /** The entries of `s` whose string is `v`, in order: stability is stated on these. */
  function Ties(s: seq<Entry>, v: CString): seq<Entry>
  {
    if s == [] then [] else (if s[0].val == v then [s[0]] else []) + Ties(s[1..], v)
  }

  lemma {:induction false} TiesAppend(s: seq<Entry>, t: seq<Entry>, v: CString)
    ensures Ties(s + t, v) == Ties(s, v) + Ties(t, v)
  {
    if s != [] {
      assert (s + t)[0] == s[0] && (s + t)[1..] == s[1..] + t;
      TiesAppend(s[1..], t, v);
      var h := if s[0].val == v then [s[0]] else [];
      assert Ties(s + t, v) == h + Ties(s[1..] + t, v);
      assert Ties(s, v) == h + Ties(s[1..], v);
      assert h + (Ties(s[1..], v) + Ties(t, v)) == (h + Ties(s[1..], v)) + Ties(t, v);
    } else {
      assert s + t == t;
    }
  }

  lemma Associative(x: seq<Entry>, y: seq<Entry>, z: seq<Entry>)
    ensures x + (y + z) == (x + y) + z
  {
  }

  lemma TiesCons(e: Entry, t: seq<Entry>, v: CString)
    ensures Ties([e] + t, v) == (if e.val == v then [e] else []) + Ties(t, v)
  {
    assert ([e] + t)[0] == e && ([e] + t)[1..] == t;
  }

  lemma TiesSplit(s: seq<Entry>, m: nat, v: CString)
    requires m <= |s|
    ensures Ties(s, v) == Ties(s[..m], v) + Ties(s[m..], v)
  {
    TiesAppend(s[..m], s[m..], v);
    assert s == s[..m] + s[m..];
  }

  lemma {:induction false} TiesNone(s: seq<Entry>, v: CString)
    requires forall i | 0 <= i < |s| :: s[i].val != v
    ensures Ties(s, v) == []
  {
    if s != [] { TiesNone(s[1..], v); }
  }

  /*
   * q_reverse
   */

  /** The entries in the opposite order. */
  function Reverse(s: seq<Entry>): seq<Entry>
  {
    if s == [] then [] else [s[|s| - 1]] + Reverse(s[..|s| - 1])
  }

  lemma {:induction false} ReverseIndex(s: seq<Entry>)
    ensures |Reverse(s)| == |s|
    ensures forall i | 0 <= i < |s| :: Reverse(s)[i] == s[|s| - 1 - i]
  {
    if s != [] { ReverseIndex(s[..|s| - 1]); }
  }

  /** Reversing twice restores the queue. */
  lemma ReverseInvolutive(s: seq<Entry>)
    ensures Reverse(Reverse(s)) == s
  {
    ReverseIndex(s);
    ReverseIndex(Reverse(s));
  }

  lemma ReversePermutes(s: seq<Entry>)
    ensures multiset(Reverse(s)) == multiset(s)
  {
    if s != [] {
      ReversePermutes(s[..|s| - 1]);
      assert s == s[..|s| - 1] + [s[|s| - 1]];
    }
  }

  /*
   * q_swap
   */

  /** Positions 2i and 2i+1 exchanged for every complete pair; a trailing odd entry stays. */
  function SwapPairs(s: seq<Entry>): (r: seq<Entry>)
    ensures |r| == |s|
  {
    if |s| < 2 then s else [s[1], s[0]] + SwapPairs(s[2..])
  }

  /** The position whose entry `SwapPairs` moves to position `i` of a queue of `n` entries. */
  function Mate(i: nat, n: nat): nat
  {
    if i % 2 == 1 then i - 1 else if i + 1 < n then i + 1 else i
  }

  lemma {:induction false} SwapPairsIndex(s: seq<Entry>)
    ensures |SwapPairs(s)| == |s|
    ensures forall i | 0 <= i < |s| :: Mate(i, |s|) < |s| && SwapPairs(s)[i] == s[Mate(i, |s|)]
  {
    if |s| >= 2 {
      SwapPairsIndex(s[2..]);
      forall i | 2 <= i < |s| ensures SwapPairs(s)[i] == s[Mate(i, |s|)] {
        assert Mate(i, |s|) == Mate(i - 2, |s| - 2) + 2;
      }
    }
  }

  /** Swapping pairs twice restores the queue. */
  lemma {:induction false} SwapPairsInvolutive(s: seq<Entry>)
    ensures SwapPairs(SwapPairs(s)) == s
  {
    if |s| >= 2 {
      var t := SwapPairs(s[2..]);
      SwapPairsIndex(s[2..]);
      assert SwapPairs(s) == [s[1], s[0]] + t;
      assert ([s[1], s[0]] + t)[2..] == t;
      SwapPairsInvolutive(s[2..]);
      assert s == [s[0], s[1]] + s[2..];
    }
  }

  lemma {:induction false} SwapPairsSplit(p: seq<Entry>, q: seq<Entry>)
    requires |p| % 2 == 0
    ensures SwapPairs(p + q) == SwapPairs(p) + SwapPairs(q)
  {
    if p != [] {
      assert |p| >= 2;
      assert (p + q)[0] == p[0] && (p + q)[1] == p[1] && (p + q)[2..] == p[2..] + q;
      SwapPairsSplit(p[2..], q);
      assert SwapPairs(p + q) == [p[1], p[0]] + SwapPairs(p[2..] + q);
      assert SwapPairs(p) == [p[1], p[0]] + SwapPairs(p[2..]);
      assert [p[1], p[0]] + (SwapPairs(p[2..]) + SwapPairs(q)) == ([p[1], p[0]] + SwapPairs(p[2..])) + SwapPairs(q);
    } else {
      assert p + q == q;
    }
  }

  /*
   * q_reverseK
   */

  /** Every complete block of `k` entries reversed in place; a shorter final block, or any `k <= 0`, left alone. */
  function ReverseK(s: seq<Entry>, k: int): seq<Entry>
    decreases |s|
  {
    if k <= 0 || |s| < k then s else Reverse(s[..k]) + ReverseK(s[k..], k)
  }

  /** `n` is a whole number of blocks of `k`. */
  predicate Multiple(n: nat, k: nat)
    requires k > 0
    decreases n
  {
    n == 0 || (n >= k && Multiple(n - k, k))
  }

  /** How many leading entries of a queue of `n` lie in complete blocks of `k`. */
  function FullBlocks(n: nat, k: nat): (b: nat)
    requires k > 0
    ensures b <= n && Multiple(b, k) && n - b < k
    decreases n
  {
    if n < k then 0 else k + FullBlocks(n - k, k)
  }

  lemma {:induction false} ReverseKLength(s: seq<Entry>, k: int)
    ensures |ReverseK(s, k)| == |s|
    decreases |s|
  {
    if k > 0 && |s| >= k {
      ReverseIndex(s[..k]);
      ReverseKLength(s[k..], k);
    }
  }

  /** The complete block starting at offset `b` comes out reversed in place. */
  lemma {:induction false} ReverseKBlock(s: seq<Entry>, k: int, b: nat)
    requires k > 0 && Multiple(b, k) && b + k <= |s|
    ensures |ReverseK(s, k)| == |s|
    ensures ReverseK(s, k)[b..b + k] == Reverse(s[b..b + k])
    decreases b
  {
    ReverseKLength(s, k);
    ReverseIndex(s[..k]);
    var t := ReverseK(s[k..], k);
    assert ReverseK(s, k) == Reverse(s[..k]) + t;
    if b > 0 {
      ReverseKBlock(s[k..], k, b - k);
      assert ReverseK(s, k)[b..b + k] == t[b - k..b];
      assert s[b..b + k] == s[k..][b - k..b];
    }
  }

  /** What lies past the last complete block is left as it was. */
  lemma {:induction false} ReverseKRest(s: seq<Entry>, k: int)
    requires k > 0
    ensures |ReverseK(s, k)| == |s|
    ensures ReverseK(s, k)[FullBlocks(|s|, k)..] == s[FullBlocks(|s|, k)..]
    decreases |s|
  {
    ReverseKLength(s, k);
    if |s| >= k {
      ReverseIndex(s[..k]);
      ReverseKRest(s[k..], k);
      var t := ReverseK(s[k..], k);
      assert ReverseK(s, k) == Reverse(s[..k]) + t;
      var f := FullBlocks(|s|, k);
      assert f == k + FullBlocks(|s| - k, k);
      assert ReverseK(s, k)[f..] == t[f - k..];
      assert s[f..] == s[k..][f - k..];
    }
  }

  lemma {:induction false} ReverseKPermutes(s: seq<Entry>, k: int)
    ensures multiset(ReverseK(s, k)) == multiset(s)
    decreases |s|
  {
    if k > 0 && |s| >= k {
      ReversePermutes(s[..k]);
      ReverseKPermutes(s[k..], k);
      assert s == s[..k] + s[k..];
    }
  }

  /** Applying the same block reversal twice restores the queue. */
  lemma {:induction false} ReverseKInvolutive(s: seq<Entry>, k: int)
    ensures ReverseK(ReverseK(s, k), k) == s
    decreases |s|
  {
    if k > 0 && |s| >= k {
      var r := ReverseK(s, k);
      ReverseIndex(s[..k]);
      ReverseKLength(s[k..], k);
      assert r[..k] == Reverse(s[..k]) && r[k..] == ReverseK(s[k..], k);
      ReverseInvolutive(s[..k]);
      ReverseKInvolutive(s[k..], k);
      assert s == s[..k] + s[k..];
    }
  }

  lemma {:induction false} ReverseKSplit(p: seq<Entry>, q: seq<Entry>, k: int)
    requires k > 0 && Multiple(|p|, k)
    ensures ReverseK(p + q, k) == ReverseK(p, k) + ReverseK(q, k)
    decreases |p|
  {
    if p != [] {
      assert |p| >= k && Multiple(|p| - k, k);
      assert (p + q)[..k] == p[..k] && (p + q)[k..] == p[k..] + q;
      ReverseKSplit(p[k..], q, k);
      assert ReverseK(p + q, k) == Reverse(p[..k]) + ReverseK(p[k..] + q, k);
      assert ReverseK(p, k) == Reverse(p[..k]) + ReverseK(p[k..], k);
      var r := Reverse(p[..k]);
      assert r + (ReverseK(p[k..], k) + ReverseK(q, k)) == (r + ReverseK(p[k..], k)) + ReverseK(q, k);
    } else {
      assert p + q == q;
    }
  }

  /** Swapping pairs is block reversal with blocks of two. */
  lemma {:induction false} SwapPairsIsReverseK(s: seq<Entry>)
    ensures SwapPairs(s) == ReverseK(s, 2)
    decreases |s|
  {
    if |s| >= 2 {
      assert Reverse(s[..2]) == [s[1], s[0]] by {
        var x := s[..2];
        assert x[..1] == [s[0]] && x[..1][..0] == [];
        assert Reverse(x[..1]) == [s[0]] + Reverse([]);
      }
      SwapPairsIsReverseK(s[2..]);
    }
  }

  /*
   * q_delete_mid and the split of q_sort
   */

  /** The index both slow/fast walks stop at: the first of the two middles when `n` is even. */
  function Middle(n: nat): nat
    requires n > 0
  {
    (n - 1) / 2
  }

  /** `Middle(n)` splits a queue so that the part after it is as long as the part before, or one longer. */
  lemma MiddleBalanced(n: nat)
    requires n > 0
    ensures Middle(n) < n
    ensures n - 1 - Middle(n) == Middle(n) || n - 1 - Middle(n) == Middle(n) + 1
    ensures Middle(n) + 1 == (n + 1) / 2
  {
  }

  /** Unlinking then relinking at the same place restores the chain (`list_del` against `list_add`). */
  lemma InsertRemove(o: seq<Entry>, i: nat)
    requires i < |o|
    ensures Insert(Remove(o, i), i, o[i]) == o
  {
    assert Remove(o, i)[..i] == o[..i] && Remove(o, i)[i..] == o[i + 1..];
  }

  /** Relinking then unlinking the same entry restores the chain (`list_add` against `list_del`). */
  lemma RemoveInsert(o: seq<Entry>, k: nat, e: Entry)
    requires k <= |o|
    ensures Remove(Insert(o, k, e), k) == o
  {
    assert Insert(o, k, e)[..k] == o[..k] && Insert(o, k, e)[k + 1..] == o[k..];
  }

  /*
   * q_delete_dup
   */

  /** Entry `i` has no neighbour holding an equal string. */
  predicate Lonely(s: seq<Entry>, i: nat)
    requires i < |s|
  {
    (i == 0 || s[i - 1].val != s[i].val) && (i + 1 == |s| || s[i].val != s[i + 1].val)
  }

  /** The lonely entries among the first `n` of `s`, in order. */
  function Thin(s: seq<Entry>, n: nat): (r: seq<Entry>)
    requires n <= |s|
    ensures |r| <= n
  {
    if n == 0 then [] else Thin(s, n - 1) + (if Lonely(s, n - 1) then [s[n - 1]] else [])
  }

  /** What q_delete_dup leaves: every entry with an equal neighbour is gone. */
  function DeleteDup(s: seq<Entry>): seq<Entry>
  {
    Thin(s, |s|)
  }

  /** `Thin` keeps exactly the lonely entries. */
  lemma {:induction false} ThinMembers(s: seq<Entry>, n: nat, x: Entry)
    requires n <= |s|
    ensures x in Thin(s, n) <==> exists i | 0 <= i < n :: s[i] == x && Lonely(s, i)
  {
    if n > 0 {
      ThinMembers(s, n - 1, x);
      if Lonely(s, n - 1) && s[n - 1] == x {
        assert x in Thin(s, n);
      }
    }
  }

  lemma {:induction false} ThinSubsequence(s: seq<Entry>, n: nat)
    requires n <= |s|
    ensures multiset(Thin(s, n)) <= multiset(s[..n])
  {
    if n > 0 {
      ThinSubsequence(s, n - 1);
      assert s[..n] == s[..n - 1] + [s[n - 1]];
    }
  }

  /**
   * On a sorted queue an entry is lonely exactly when no other entry holds
   * its string, so q_delete_dup keeps the strings that occur once and removes
   * every member of each run of equal strings.
   */
  lemma SortedLonely(s: seq<Entry>, descend: bool, i: nat)
    requires Sorted(s, descend) && i < |s|
    ensures Lonely(s, i) <==> forall j | 0 <= j < |s| && j != i :: s[j].val != s[i].val
  {
    if Lonely(s, i) {
      forall j | 0 <= j < |s| && j != i ensures s[j].val != s[i].val {
        if s[j].val == s[i].val {
          if j < i {
            assert Ordered(s[j].val, s[i - 1].val, descend) || j == i - 1;
            assert Ordered(s[i - 1].val, s[i].val, descend);
            if j < i - 1 { LeqAntisymmetricOrdered(s[i - 1].val, s[i].val, descend); }
          } else {
            assert Ordered(s[i + 1].val, s[j].val, descend) || j == i + 1;
            assert Ordered(s[i].val, s[i + 1].val, descend);
            if j > i + 1 { LeqAntisymmetricOrdered(s[i].val, s[i + 1].val, descend); }
          }
        }
      }
    }
  }

  /** Two strings each ordered before the other are equal. */
  lemma LeqAntisymmetricOrdered(x: CString, y: CString, descend: bool)
    requires Ordered(x, y, descend) && Ordered(y, x, descend)
    ensures x == y
  {
    LeqAntisymmetric(x, y);
  }

  /*
   * q_ascend and q_descend
   */

  /** The head of `s` may come before everything to its right. */
  predicate Dominates(s: seq<Entry>, descend: bool)
    requires |s| > 0
  {
    Below(s[0].val, s[1..], descend)
  }

  /**
   * What q_ascend (`descend` false) and q_descend (`descend` true) leave:
   * an entry survives iff it is ordered before every entry originally to its right.
   */
  function Survivors(s: seq<Entry>, descend: bool): seq<Entry>
  {
    if s == [] then [] else (if Dominates(s, descend) then [s[0]] else []) + Survivors(s[1..], descend)
  }

  /**
   * The running minimum (maximum when `descend`) of the backward scan,
   * `cur_min`/`cur_max`: the string of the last survivor seen.
   */
  function Extreme(s: seq<Entry>, descend: bool): CString
    requires |s| > 0
  {
    if |s| == 1 then s[0].val
    else if Ordered(s[0].val, Extreme(s[1..], descend), descend) then s[0].val
    else Extreme(s[1..], descend)
  }

  /** A string is ordered before the running extreme iff it is ordered before every entry scanned. */
  lemma {:induction false} ExtremeBound(s: seq<Entry>, descend: bool, v: CString)
    requires |s| > 0
    ensures Ordered(v, Extreme(s, descend), descend) <==> Below(v, s, descend)
  {
    ExtremeIsBelow(s, descend);
    if Ordered(v, Extreme(s, descend), descend) {
      BelowTransitive(v, Extreme(s, descend), s, descend);
    } else {
      ExtremeMember(s, descend);
    }
  }

  lemma {:induction false} ExtremeIsBelow(s: seq<Entry>, descend: bool)
    requires |s| > 0
    ensures Below(Extreme(s, descend), s, descend)
  {
    OrderedReflexive(s[0].val, descend);
    if |s| > 1 {
      var m := Extreme(s[1..], descend);
      ExtremeIsBelow(s[1..], descend);
      if Ordered(s[0].val, m, descend) {
        BelowTransitive(s[0].val, m, s[1..], descend);
      } else {
        OrderedTotal(s[0].val, m, descend);
      }
      assert forall i | 1 <= i < |s| :: s[i] == s[1..][i - 1];
    }
  }

  lemma {:induction false} ExtremeMember(s: seq<Entry>, descend: bool)
    requires |s| > 0
    ensures exists i | 0 <= i < |s| :: s[i].val == Extreme(s, descend)
  {
    if |s| > 1 && !Ordered(s[0].val, Extreme(s[1..], descend), descend) {
      ExtremeMember(s[1..], descend);
      var i :| 0 <= i < |s| - 1 && s[1..][i].val == Extreme(s[1..], descend);
      assert s[i + 1].val == Extreme(s, descend);
    } else {
      assert s[0].val == Extreme(s, descend);
    }
  }

  lemma {:induction false} SurvivorsBelow(x: CString, s: seq<Entry>, descend: bool)
    requires Below(x, s, descend)
    ensures Below(x, Survivors(s, descend), descend)
  {
    if s != [] {
      assert Below(x, s[1..], descend) by {
        assert forall i | 0 <= i < |s| - 1 :: s[1..][i] == s[i + 1];
      }
      SurvivorsBelow(x, s[1..], descend);
    }
  }

  /** The survivors of q_ascend are non-decreasing, those of q_descend non-increasing. */
  lemma {:induction false} SurvivorsSorted(s: seq<Entry>, descend: bool)
    ensures Sorted(Survivors(s, descend), descend)
  {
    if s != [] {
      SurvivorsSorted(s[1..], descend);
      if Dominates(s, descend) {
        SurvivorsBelow(s[0].val, s[1..], descend);
        SortedCons(s[0], Survivors(s[1..], descend), descend);
      }
    }
  }

  /** The last entry always survives. */
  lemma {:induction false} SurvivorsKeepLast(s: seq<Entry>, descend: bool)
    requires |s| > 0
    ensures |Survivors(s, descend)| > 0 && Survivors(s, descend)[|Survivors(s, descend)| - 1] == s[|s| - 1]
  {
    if |s| == 1 {
      assert Dominates(s, descend);
      assert Survivors(s, descend) == [s[0]] + Survivors([], descend);
    } else {
      SurvivorsKeepLast(s[1..], descend);
      var u := Survivors(s[1..], descend);
      assert Survivors(s, descend) == (if Dominates(s, descend) then [s[0]] else []) + u;
      assert s[|s| - 1] == s[1..][|s| - 2];
    }
  }

  /** Every survivor is an entry of `s`. */
  lemma {:induction false} SurvivorsSubset(s: seq<Entry>, descend: bool)
    ensures multiset(Survivors(s, descend)) <= multiset(s)
  {
    if s != [] {
      SurvivorsSubset(s[1..], descend);
      assert s == [s[0]] + s[1..];
    }
  }

  /*
   * mergeTwoLists and q_sort
   */

  /** The test of mergeTwoLists, `strcmp(s1, s2) * (1 - 2 * !descend) >= 0`: take from the left list. */
  function TakesLeft(x: CString, y: CString, descend: bool): (b: bool)
    ensures b <==> Ordered(x, y, descend)
  {
    StrCmpSign(x, y);
    StrCmp(x, y) * (1 - 2 * (if descend then 0 else 1)) >= 0
  }

  /** `strcmp(x, y) >= 0` exactly when `y` is ordered before `x`. */
  lemma StrCmpSign(x: CString, y: CString)
    ensures StrCmp(x, y) >= 0 <==> Leq(y, x)
  {
    LeqTotal(x, y);
    LeqReflexive(x);
    if Leq(x, y) && Leq(y, x) { LeqAntisymmetric(x, y); }
  }

  /** The merge of mergeTwoLists: repeatedly take the head of `l` unless the head of `r` must come first. */
  function Merge(l: seq<Entry>, r: seq<Entry>, descend: bool): seq<Entry>
    decreases |l| + |r|
  {
    if l == [] then r
    else if r == [] then l
    else if TakesLeft(l[0].val, r[0].val, descend) then [l[0]] + Merge(l[1..], r, descend)
    else [r[0]] + Merge(l, r[1..], descend)
  }

  lemma {:induction false} MergeLength(l: seq<Entry>, r: seq<Entry>, descend: bool)
    ensures |Merge(l, r, descend)| == |l| + |r|
    decreases |l| + |r|
  {
    if l != [] && r != [] {
      if TakesLeft(l[0].val, r[0].val, descend) {
        MergeLength(l[1..], r, descend);
      } else {
        MergeLength(l, r[1..], descend);
      }
    }
  }

  lemma {:induction false} MergePermutes(l: seq<Entry>, r: seq<Entry>, descend: bool)
    ensures multiset(Merge(l, r, descend)) == multiset(l) + multiset(r)
    decreases |l| + |r|
  {
    if l != [] && r != [] {
      if TakesLeft(l[0].val, r[0].val, descend) {
        MergePermutes(l[1..], r, descend);
        MergeLeftPermutes(l, r, descend);
      } else {
        MergePermutes(l, r[1..], descend);
        MergeRightPermutes(l, r, descend);
      }
    }
  }

  /** Taking the head of `l` first keeps the merge a permutation. */
  lemma MergeLeftPermutes(l: seq<Entry>, r: seq<Entry>, descend: bool)
    requires l != [] && r != [] && TakesLeft(l[0].val, r[0].val, descend)
    requires multiset(Merge(l[1..], r, descend)) == multiset(l[1..]) + multiset(r)
    ensures multiset(Merge(l, r, descend)) == multiset(l) + multiset(r)
  {
    var m := Merge(l[1..], r, descend);
    assert Merge(l, r, descend) == [l[0]] + m;
    assert l == [l[0]] + l[1..];
  }

  /** Taking the head of `r` first keeps the merge a permutation. */
  lemma MergeRightPermutes(l: seq<Entry>, r: seq<Entry>, descend: bool)
    requires l != [] && r != [] && !TakesLeft(l[0].val, r[0].val, descend)
    requires multiset(Merge(l, r[1..], descend)) == multiset(l) + multiset(r[1..])
    ensures multiset(Merge(l, r, descend)) == multiset(l) + multiset(r)
  {
    var m := Merge(l, r[1..], descend);
    assert Merge(l, r, descend) == [r[0]] + m;
    assert r == [r[0]] + r[1..];
  }


  lemma {:induction false} MergeBelow(x: CString, l: seq<Entry>, r: seq<Entry>, descend: bool)
    requires Below(x, l, descend) && Below(x, r, descend)
    ensures Below(x, Merge(l, r, descend), descend)
    decreases |l| + |r|
  {
    if l != [] && r != [] {
      if TakesLeft(l[0].val, r[0].val, descend) {
        MergeBelow(x, l[1..], r, descend);
        assert forall i | 1 <= i < |l| :: l[i] == l[1..][i - 1];
      } else {
        MergeBelow(x, l, r[1..], descend);
        assert forall i | 1 <= i < |r| :: r[i] == r[1..][i - 1];
      }
    }
  }

  lemma SortedTail(s: seq<Entry>, descend: bool)
    requires Sorted(s, descend) && |s| > 0
    ensures Sorted(s[1..], descend) && Below(s[0].val, s[1..], descend) && Below(s[0].val, s, descend)
  {
    OrderedReflexive(s[0].val, descend);
    assert forall i | 0 <= i < |s| - 1 :: s[1..][i] == s[i + 1];
  }

  /** Merging two lists sorted in the chosen direction gives a sorted list. */
  lemma {:induction false} MergeSorted(l: seq<Entry>, r: seq<Entry>, descend: bool)
    requires Sorted(l, descend) && Sorted(r, descend)
    ensures Sorted(Merge(l, r, descend), descend)
    decreases |l| + |r|
  {
    if l != [] && r != [] {
      SortedTail(l, descend);
      SortedTail(r, descend);
      if TakesLeft(l[0].val, r[0].val, descend) {
        MergeSorted(l[1..], r, descend);
        BelowTransitive(l[0].val, r[0].val, r, descend);
        MergeBelow(l[0].val, l[1..], r, descend);
        SortedCons(l[0], Merge(l[1..], r, descend), descend);
      } else {
        MergeSorted(l, r[1..], descend);
        OrderedTotal(l[0].val, r[0].val, descend);
        BelowTransitive(r[0].val, l[0].val, l, descend);
        MergeBelow(r[0].val, l, r[1..], descend);
        SortedCons(r[0], Merge(l, r[1..], descend), descend);
      }
    }
  }

  /** Stability of the merge: among equal strings, all of `l`'s come first, each side in its own order. */
  lemma {:induction false} MergeStable(l: seq<Entry>, r: seq<Entry>, descend: bool, v: CString)
    requires Sorted(l, descend) && Sorted(r, descend)
    ensures Ties(Merge(l, r, descend), v) == Ties(l, v) + Ties(r, v)
    decreases |l| + |r|
  {
    if l == [] {
    } else if r == [] {
      assert Ties(r, v) == [];
    } else if TakesLeft(l[0].val, r[0].val, descend) {
      SortedTail(l, descend);
      MergeStable(l[1..], r, descend, v);
      MergeLeftStable(l, r, descend, v);
    } else {
      SortedTail(r, descend);
      MergeStable(l, r[1..], descend, v);
      MergeRightStable(l, r, descend, v);
    }
  }

  /** No string of a sorted chain equals one that comes strictly before its head. */
  lemma TiesBefore(l: seq<Entry>, v: CString, descend: bool)
    requires l != [] && Sorted(l, descend) && !Ordered(l[0].val, v, descend)
    ensures Ties(l, v) == []
  {
    forall i | 0 <= i < |l| ensures l[i].val != v {
      OrderedReflexive(l[0].val, descend);
      assert Ordered(l[0].val, l[i].val, descend);
    }
    TiesNone(l, v);
  }

  /** Taking the head of `l` first keeps equal strings in their order. */
  lemma MergeLeftStable(l: seq<Entry>, r: seq<Entry>, descend: bool, v: CString)
    requires l != [] && r != [] && TakesLeft(l[0].val, r[0].val, descend)
    requires Ties(Merge(l[1..], r, descend), v) == Ties(l[1..], v) + Ties(r, v)
    ensures Ties(Merge(l, r, descend), v) == Ties(l, v) + Ties(r, v)
  {
    var m := Merge(l[1..], r, descend);
    assert Merge(l, r, descend) == [l[0]] + m;
    ConsTiesLeft(l[0], m, l[1..], r, v);
    assert l == [l[0]] + l[1..];
  }

  /**
   * Taking the head of sorted `r` first keeps equal strings in their order:
   * no string of sorted `l` equals it, since its head is strictly after it.
   */
  lemma MergeRightStable(l: seq<Entry>, r: seq<Entry>, descend: bool, v: CString)
    requires l != [] && r != [] && !TakesLeft(l[0].val, r[0].val, descend) && Sorted(l, descend)
    requires Ties(Merge(l, r[1..], descend), v) == Ties(l, v) + Ties(r[1..], v)
    ensures Ties(Merge(l, r, descend), v) == Ties(l, v) + Ties(r, v)
  {
    var m := Merge(l, r[1..], descend);
    assert Merge(l, r, descend) == [r[0]] + m;
    if r[0].val == v {
      TiesBefore(l, v, descend);
    }
    ConsTiesRight(r[0], m, l, r[1..], v);
    assert r == [r[0]] + r[1..];
  }

  /** An entry put in front of `m`, whose ties are those of `x` then `y`, joins the ties of `x`. */
  lemma ConsTiesLeft(e: Entry, m: seq<Entry>, x: seq<Entry>, y: seq<Entry>, v: CString)
    requires Ties(m, v) == Ties(x, v) + Ties(y, v)
    ensures Ties([e] + m, v) == Ties([e] + x, v) + Ties(y, v)
  {
    TiesCons(e, m, v);
    TiesCons(e, x, v);
    Associative(if e.val == v then [e] else [], Ties(x, v), Ties(y, v));
  }

  /** An entry put in front of `m` joins the ties of `y` when `x` has no tie with it. */
  lemma ConsTiesRight(e: Entry, m: seq<Entry>, x: seq<Entry>, y: seq<Entry>, v: CString)
    requires Ties(m, v) == Ties(x, v) + Ties(y, v)
    requires e.val == v ==> Ties(x, v) == []
    ensures Ties([e] + m, v) == Ties(x, v) + Ties([e] + y, v)
  {
    TiesCons(e, m, v);
    TiesCons(e, y, v);
    var h, a, b := (if e.val == v then [e] else []), Ties(x, v), Ties(y, v);
    if e.val == v {
      assert h + (a + b) == a + (h + b);
    } else {
      assert h + (a + b) == a + (h + b);
    }
  }

  /** q_sort's result: split after the first `(n + 1) / 2` entries, sort both halves, merge. */
  function MergeSort(s: seq<Entry>, descend: bool): seq<Entry>
    decreases |s|
  {
    if |s| <= 1 then s
    else
      var m := (|s| + 1) / 2;
      Merge(MergeSort(s[..m], descend), MergeSort(s[m..], descend), descend)
  }

  lemma {:induction false} MergeSortPermutes(s: seq<Entry>, descend: bool)
    ensures multiset(MergeSort(s, descend)) == multiset(s)
    decreases |s|
  {
    if |s| > 1 {
      var m := (|s| + 1) / 2;
      var x, y := MergeSort(s[..m], descend), MergeSort(s[m..], descend);
      assert MergeSort(s, descend) == Merge(x, y, descend);
      MergeSortPermutes(s[..m], descend);
      MergeSortPermutes(s[m..], descend);
      MergePermutes(x, y, descend);
      assert s == s[..m] + s[m..];
    }
  }

  lemma {:induction false} MergeSortSorted(s: seq<Entry>, descend: bool)
    ensures Sorted(MergeSort(s, descend), descend)
    decreases |s|
  {
    if |s| > 1 {
      var m := (|s| + 1) / 2;
      MergeSortSorted(s[..m], descend);
      MergeSortSorted(s[m..], descend);
      MergeSorted(MergeSort(s[..m], descend), MergeSort(s[m..], descend), descend);
    }
  }

  /** q_sort is stable: entries with equal strings keep their relative order. */
  lemma {:induction false} MergeSortStable(s: seq<Entry>, descend: bool, v: CString)
    ensures Ties(MergeSort(s, descend), v) == Ties(s, v)
    decreases |s|
  {
    if |s| > 1 {
      var m := (|s| + 1) / 2;
      var x, y := MergeSort(s[..m], descend), MergeSort(s[m..], descend);
      assert MergeSort(s, descend) == Merge(x, y, descend);
      MergeSortStable(s[..m], descend, v);
      MergeSortStable(s[m..], descend, v);
      MergeSortSorted(s[..m], descend);
      MergeSortSorted(s[m..], descend);
      MergeStable(x, y, descend, v);
      TiesSplit(s, m, v);
    }
  }
}
