// list_sort as a function of the node ids of the list: the merge of two
// runs, one pass over the list, and the whole bottom-up sort; and the proof
// that its result is the reverse of a stable ascending sort by count.

module MergeSort {
  import opened Ranking

  function Min(a: int, b: int): int {
    if a <= b then a else b
  }

  /** The payload of node x; ids outside the arena never occur in a list. */
  function At(cells: seq<Entry>, x: int): Entry {
    if 0 <= x < |cells| then cells[x] else Entry("", 0)
  }

  /** The merge loop of list_sort on the runs P and Q. When cmp(p, q) <= 0
      the node of Q goes first, so of two equal counts the one from the later
      run comes out first. */
  function Merge(cells: seq<Entry>, P: seq<int>, Q: seq<int>): (r: seq<int>)
    ensures |r| == |P| + |Q|
    decreases |P| + |Q|
  {
    if P == [] then Q
    else if Q == [] then P
    else if Cmp(At(cells, P[0]), At(cells, Q[0])) <= 0 then
      [Q[0]] + Merge(cells, P, Q[1..])
    else
      [P[0]] + Merge(cells, P[1..], Q)
  }

  /** The merge starts with the head of Qs when Ps is empty or its head does
      not rank above it. */
  lemma MergeHeadQ(cells: seq<Entry>, Ps: seq<int>, Qs: seq<int>)
    requires Qs != [] && (Ps == [] || Cmp(At(cells, Ps[0]), At(cells, Qs[0])) <= 0)
    ensures Merge(cells, Ps, Qs) == [Qs[0]] + Merge(cells, Ps, Qs[1..])
  {
    if Ps == [] {
      assert Qs == [Qs[0]] + Qs[1..];
    }
  }

  /** The merge starts with the head of Ps otherwise. */
  lemma MergeHeadP(cells: seq<Entry>, Ps: seq<int>, Qs: seq<int>)
    requires Ps != [] && (Qs == [] || Cmp(At(cells, Ps[0]), At(cells, Qs[0])) > 0)
    ensures Merge(cells, Ps, Qs) == [Ps[0]] + Merge(cells, Ps[1..], Qs)
  {
    if Qs == [] {
      assert Ps == [Ps[0]] + Ps[1..];
    }
  }

  lemma Regroup(a: seq<int>, b: seq<int>, c: seq<int>, M: seq<int>)
    requires a + (b + c) == M
    ensures (a + b) + c == M
  {
    assert (a + b) + c == a + (b + c);
  }

  /** One round of the merge loop, from Qs when fromQ and from Ps
      otherwise. */
  lemma MergeTake(cells: seq<Entry>, m: seq<int>, Ps: seq<int>, Qs: seq<int>, M: seq<int>, fromQ: bool)
    requires m + Merge(cells, Ps, Qs) == M
    requires fromQ ==> Qs != [] && (Ps == [] || Cmp(At(cells, Ps[0]), At(cells, Qs[0])) <= 0)
    requires !fromQ ==> Ps != [] && (Qs == [] || Cmp(At(cells, Ps[0]), At(cells, Qs[0])) > 0)
    ensures fromQ ==> (m + [Qs[0]]) + Merge(cells, Ps, Qs[1..]) == M
    ensures !fromQ ==> (m + [Ps[0]]) + Merge(cells, Ps[1..], Qs) == M
  {
    if fromQ {
      MergeHeadQ(cells, Ps, Qs);
      Regroup(m, [Qs[0]], Merge(cells, Ps, Qs[1..]), M);
    } else {
      MergeHeadP(cells, Ps, Qs);
      Regroup(m, [Ps[0]], Merge(cells, Ps[1..], Qs), M);
    }
  }

  /** One pass of list_sort with run size k: the list is cut into pairs of
      runs of k nodes and each pair merged. A last run of k nodes or fewer
      has no partner and is merged with nothing, which leaves it as it is. */
  function Pass(cells: seq<Entry>, s: seq<int>, k: int): (r: seq<int>)
    requires k >= 1
    ensures |r| == |s|
    decreases |s|
  {
    if |s| <= k then s
    else if |s| <= 2 * k then Merge(cells, s[..k], s[k..])
    else Merge(cells, s[..k], s[k..2 * k]) + Pass(cells, s[2 * k..], k)
  }

  /** A pass starts with the merge of the first run of p nodes and the at
      most k nodes after it, and goes on behind them. */
  lemma PassFront(cells: seq<Entry>, s: seq<int>, k: int, p: int, q: int)
    requires k >= 1 && s != []
    requires p == Min(k, |s|) && q == Min(k, |s| - p)
    ensures Pass(cells, s, k) == Merge(cells, s[..p], s[p..p + q]) + Pass(cells, s[p + q..], k)
  {
    if |s| <= k {
      assert p == |s| && q == 0;
      assert s[p..p + q] == [] && s[p + q..] == [] && s[..p] == s;
    } else if |s| <= 2 * k {
      assert p == k && q == |s| - k;
      assert s[p..p + q] == s[k..] && s[p + q..] == [];
    } else {
      assert p == k && q == k;
    }
  }

  /** The number of merges one pass over n nodes with run size k does. */
  function Merges(n: int, k: int): (c: nat)
    requires k >= 1
    ensures n <= 0 ==> c == 0
    ensures n > 0 ==> (c <= 1 <==> n <= 2 * k)
    decreases n
  {
    if n <= 0 then 0 else 1 + Merges(n - 2 * k, k)
  }

  /** The pass loop does one merge per round, for the first p + q nodes. */
  lemma MergesStep(n: int, k: int, p: int, q: int, r: int)
    requires k >= 1 && n > 0
    requires p == Min(k, n) && q == Min(k, n - p) && r == n - p - q
    ensures Merges(n, k) == 1 + Merges(r, k)
  {
    if n <= 2 * k {
      assert r == 0;
    }
  }

  /** Passes with run sizes k, 2k, 4k, ... until one pass does a single
      merge. */
  function SortFrom(cells: seq<Entry>, s: seq<int>, k: int): (r: seq<int>)
    requires k >= 1
    ensures |r| == |s|
    decreases |s| - k
  {
    var s' := Pass(cells, s, k);
    if Merges(|s|, k) <= 1 then s' else SortFrom(cells, s', 2 * k)
  }

  /** list_sort on the ids xs of the list from head to end. */
  function ListSort(cells: seq<Entry>, xs: seq<int>): (r: seq<int>)
    ensures |r| == |xs|
  {
    if xs == [] then [] else SortFrom(cells, xs, 1)
  }

  // ---------------------------------------------------------------------
  // The sort only relinks: every node of the list is kept, none is added.

  lemma {:induction false} MergePerm(cells: seq<Entry>, P: seq<int>, Q: seq<int>)
    ensures multiset(Merge(cells, P, Q)) == multiset(P) + multiset(Q)
    decreases |P| + |Q|
  {
    if P != [] && Q != [] {
      if Cmp(At(cells, P[0]), At(cells, Q[0])) <= 0 {
        var rest := Merge(cells, P, Q[1..]);
        MergePerm(cells, P, Q[1..]);
        assert Merge(cells, P, Q) == [Q[0]] + rest;
        assert multiset(Q) == multiset{Q[0]} + multiset(Q[1..]) by {
          assert Q == [Q[0]] + Q[1..];
        }
      } else {
        var rest := Merge(cells, P[1..], Q);
        MergePerm(cells, P[1..], Q);
        assert Merge(cells, P, Q) == [P[0]] + rest;
        assert multiset(P) == multiset{P[0]} + multiset(P[1..]) by {
          assert P == [P[0]] + P[1..];
        }
      }
    }
  }

  lemma {:induction false} PassPerm(cells: seq<Entry>, s: seq<int>, k: int)
    requires k >= 1
    ensures multiset(Pass(cells, s, k)) == multiset(s)
    decreases |s|
  {
    if |s| <= k {
    } else if |s| <= 2 * k {
      MergePerm(cells, s[..k], s[k..]);
      assert s == s[..k] + s[k..];
    } else {
      MergePerm(cells, s[..k], s[k..2 * k]);
      PassPerm(cells, s[2 * k..], k);
      assert s == s[..k] + s[k..2 * k] + s[2 * k..];
    }
  }

  lemma {:induction false} SortFromPerm(cells: seq<Entry>, s: seq<int>, k: int)
    requires k >= 1
    ensures multiset(SortFrom(cells, s, k)) == multiset(s)
    decreases |s| - k
  {
    PassPerm(cells, s, k);
    if Merges(|s|, k) > 1 {
      SortFromPerm(cells, Pass(cells, s, k), 2 * k);
    }
  }

  /** list_sort returns the nodes it was given, each once. */
  lemma ListSortPerm(cells: seq<Entry>, xs: seq<int>)
    ensures multiset(ListSort(cells, xs)) == multiset(xs)
  {
    if xs != [] {
      SortFromPerm(cells, xs, 1);
    }
  }

  // ---------------------------------------------------------------------
  // The order the sort produces.

  /** Every id of run stands at a position lo .. hi-1 of the input xs. */
  ghost predicate RanksIn(xs: seq<int>, run: seq<int>, lo: int, hi: int) {
    forall t :: 0 <= t < |run| ==> lo <= IndexOf(xs, run[t]) < hi
  }

  /** s is cut into runs of k nodes (the last possibly shorter), each in
      output order and each made of the nodes at the matching positions of
      the input xs, counted from base. */
  ghost predicate Runs(cells: seq<Entry>, xs: seq<int>, s: seq<int>, k: int, base: int)
    requires k >= 1
    decreases |s|
  {
    if |s| <= k then SortedAbove(cells, xs, s) && RanksIn(xs, s, base, base + |s|)
    else
      && SortedAbove(cells, xs, s[..k])
      && RanksIn(xs, s[..k], base, base + k)
      && Runs(cells, xs, s[k..], k, base + k)
  }

  lemma SortedCons(cells: seq<Entry>, xs: seq<int>, x: int, s: seq<int>)
    requires SortedAbove(cells, xs, s)
    requires forall t :: 0 <= t < |s| ==> Above(cells, xs, x, s[t])
    ensures SortedAbove(cells, xs, [x] + s)
  {
    var r := [x] + s;
    forall i, j | 0 <= i < j < |r| ensures Above(cells, xs, r[i], r[j]) {
      if i > 0 {
        assert r[i] == s[i - 1] && r[j] == s[j - 1];
      }
    }
  }

  lemma {:induction false} MergeRanks(cells: seq<Entry>, xs: seq<int>, P: seq<int>, Q: seq<int>,
                                      lo: int, mid: int, hi: int)
    requires lo <= mid <= hi
    requires RanksIn(xs, P, lo, mid) && RanksIn(xs, Q, mid, hi)
    ensures RanksIn(xs, Merge(cells, P, Q), lo, hi)
  {
    var r := Merge(cells, P, Q);
    MergePerm(cells, P, Q);
    forall t | 0 <= t < |r| ensures lo <= IndexOf(xs, r[t]) < hi {
      assert r[t] in multiset(P) + multiset(Q);
      if r[t] in multiset(P) {
        var u :| 0 <= u < |P| && P[u] == r[t];
      } else {
        var u :| 0 <= u < |Q| && Q[u] == r[t];
      }
    }
  }

  /** Merging two runs in output order, P from earlier input positions than
      Q, gives a run in output order. */
  lemma {:induction false} MergeOrdered(cells: seq<Entry>, xs: seq<int>, P: seq<int>, Q: seq<int>,
                                        lo: int, mid: int, hi: int)
    requires InArena(|cells|, P) && InArena(|cells|, Q)
    requires SortedAbove(cells, xs, P) && SortedAbove(cells, xs, Q)
    requires RanksIn(xs, P, lo, mid) && RanksIn(xs, Q, mid, hi)
    ensures SortedAbove(cells, xs, Merge(cells, P, Q))
    decreases |P| + |Q|
  {
    if P != [] && Q != [] {
      if Cmp(At(cells, P[0]), At(cells, Q[0])) <= 0 {
        var Q' := Q[1..];
        assert RanksIn(xs, Q', mid, hi) by {
          forall t | 0 <= t < |Q'| ensures mid <= IndexOf(xs, Q'[t]) < hi {
            assert Q'[t] == Q[t + 1];
          }
        }
        MergeOrdered(cells, xs, P, Q', lo, mid, hi);
        var rest := Merge(cells, P, Q');
        MergePerm(cells, P, Q');
        forall t | 0 <= t < |rest| ensures Above(cells, xs, Q[0], rest[t]) {
          assert rest[t] in multiset(P) + multiset(Q');
          if rest[t] in multiset(P) {
            var u :| 0 <= u < |P| && P[u] == rest[t];
            assert Above(cells, xs, Q[0], P[0]);
            if u > 0 {
              AboveTransitive(cells, xs, Q[0], P[0], P[u]);
            }
          } else {
            var u :| 0 <= u < |Q'| && Q'[u] == rest[t];
            assert Above(cells, xs, Q[0], Q[u + 1]);
          }
        }
        SortedCons(cells, xs, Q[0], rest);
      } else {
        var P' := P[1..];
        assert RanksIn(xs, P', lo, mid) by {
          forall t | 0 <= t < |P'| ensures lo <= IndexOf(xs, P'[t]) < mid {
            assert P'[t] == P[t + 1];
          }
        }
        MergeOrdered(cells, xs, P', Q, lo, mid, hi);
        var rest := Merge(cells, P', Q);
        MergePerm(cells, P', Q);
        forall t | 0 <= t < |rest| ensures Above(cells, xs, P[0], rest[t]) {
          assert rest[t] in multiset(P') + multiset(Q);
          if rest[t] in multiset(Q) {
            var u :| 0 <= u < |Q| && Q[u] == rest[t];
            assert Above(cells, xs, P[0], Q[0]);
            if u > 0 {
              AboveTransitive(cells, xs, P[0], Q[0], Q[u]);
            }
          } else {
            var u :| 0 <= u < |P'| && P'[u] == rest[t];
            assert Above(cells, xs, P[0], P[u + 1]);
          }
        }
        SortedCons(cells, xs, P[0], rest);
      }
    }
  }

  /** A pass with run size k turns runs of k into runs of 2k. */
  lemma {:induction false} PassRuns(cells: seq<Entry>, xs: seq<int>, s: seq<int>, k: int, base: int)
    requires k >= 1 && InArena(|cells|, s) && Runs(cells, xs, s, k, base)
    ensures Runs(cells, xs, Pass(cells, s, k), 2 * k, base)
    decreases |s|, 1
  {
    if k < |s| <= 2 * k {
      var P, Q := s[..k], s[k..];
      MergeOrdered(cells, xs, P, Q, base, base + k, base + |s|);
      MergeRanks(cells, xs, P, Q, base, base + k, base + |s|);
    } else if |s| > 2 * k {
      PassRunsOn(cells, xs, s, k, base);
    }
  }

  /** The first two runs of s merge into one run of 2k; the pass goes on
      behind them. */
  lemma {:induction false} PassRunsOn(cells: seq<Entry>, xs: seq<int>, s: seq<int>, k: int, base: int)
    requires k >= 1 && |s| > 2 * k && InArena(|cells|, s) && Runs(cells, xs, s, k, base)
    ensures Runs(cells, xs, Pass(cells, s, k), 2 * k, base)
    decreases |s|, 0
  {
    var P, Q, rest := s[..k], s[k..2 * k], s[2 * k..];
    RunsSplit(cells, xs, s, k, base);
    MergeOrdered(cells, xs, P, Q, base, base + k, base + 2 * k);
    MergeRanks(cells, xs, P, Q, base, base + k, base + 2 * k);
    PassRuns(cells, xs, rest, k, base + 2 * k);
    RunsJoin(cells, xs, Merge(cells, P, Q), Pass(cells, rest, k), 2 * k, base);
  }

  /** The first two runs of s and the runs behind them. */
  lemma RunsSplit(cells: seq<Entry>, xs: seq<int>, s: seq<int>, k: int, base: int)
    requires k >= 1 && |s| > 2 * k && InArena(|cells|, s) && Runs(cells, xs, s, k, base)
    ensures InArena(|cells|, s[..k]) && InArena(|cells|, s[k..2 * k]) && InArena(|cells|, s[2 * k..])
    ensures SortedAbove(cells, xs, s[..k]) && RanksIn(xs, s[..k], base, base + k)
    ensures SortedAbove(cells, xs, s[k..2 * k]) && RanksIn(xs, s[k..2 * k], base + k, base + 2 * k)
    ensures Runs(cells, xs, s[2 * k..], k, base + 2 * k)
  {
    assert Runs(cells, xs, s[k..], k, base + k);
    assert s[k..][..k] == s[k..2 * k] && s[k..][k..] == s[2 * k..];
    forall t | 0 <= t < |s| - 2 * k ensures 0 <= s[2 * k..][t] < |cells| {
      assert s[2 * k..][t] == s[2 * k + t];
    }
    forall t | 0 <= t < k ensures 0 <= s[k..2 * k][t] < |cells| {
      assert s[k..2 * k][t] == s[k + t];
    }
  }

  /** A run of n nodes followed by runs of n makes runs of n. */
  lemma RunsJoin(cells: seq<Entry>, xs: seq<int>, M: seq<int>, t: seq<int>, n: int, base: int)
    requires n >= 1 && |M| == n && t != []
    requires SortedAbove(cells, xs, M) && RanksIn(xs, M, base, base + n)
    requires Runs(cells, xs, t, n, base + n)
    ensures Runs(cells, xs, M + t, n, base)
  {
    assert (M + t)[..n] == M && (M + t)[n..] == t;
  }

  /** Before the first pass every node is a run of its own. */
  lemma {:induction false} FirstRuns(cells: seq<Entry>, xs: seq<int>, i: int)
    requires Distinct(xs) && 0 <= i <= |xs|
    ensures Runs(cells, xs, xs[i..], 1, i)
    decreases |xs| - i
  {
    if i < |xs| {
      IndexOfDistinct(xs, i);
      if i + 1 < |xs| {
        FirstRuns(cells, xs, i + 1);
        assert xs[i..][..1] == [xs[i]];
        assert xs[i..][1..] == xs[i + 1..];
      }
    }
  }

  lemma {:induction false} SortFromOrdered(cells: seq<Entry>, xs: seq<int>, s: seq<int>, k: int)
    requires k >= 1 && InArena(|cells|, s) && Runs(cells, xs, s, k, 0)
    ensures SortedAbove(cells, xs, SortFrom(cells, s, k))
    decreases |s| - k
  {
    var s' := Pass(cells, s, k);
    PassRuns(cells, xs, s, k, 0);
    if Merges(|s|, k) > 1 {
      PassPerm(cells, s, k);
      ArenaPerm(|cells|, s, s');
      SortFromOrdered(cells, xs, s', 2 * k);
    }
  }

  /** list_sort puts the higher counts first and, among equal counts, the
      node that stood later in the list first: its result is the reverse of
      a stable ascending sort by count. */
  lemma ListSortRankDesc(cells: seq<Entry>, xs: seq<int>)
    requires Distinct(xs) && InArena(|cells|, xs)
    ensures SortedAbove(cells, xs, ListSort(cells, xs))
    ensures InArena(|cells|, ListSort(cells, xs))
    ensures View(cells, ListSort(cells, xs)) == RankDesc(View(cells, xs))
  {
    if xs != [] {
      FirstRuns(cells, xs, 0);
      assert xs[0..] == xs;
      SortFromOrdered(cells, xs, xs, 1);
    }
    ListSortPerm(cells, xs);
    SortedIsRankDesc(cells, xs, ListSort(cells, xs));
  }
}
