// The (key, count) records of the collapser and the order list_sort puts
// them in.

module Ranking {

  /** The payload of one list node: its key and its occurrence count. */
  datatype Entry = Entry(key: string, count: int)

  /** cmp: compares two nodes by count alone; the keys play no part. */
  function Cmp(a: Entry, b: Entry): (r: int)
    ensures -1 <= r <= 1
    ensures r < 0 <==> a.count < b.count
    ensures r > 0 <==> a.count > b.count
  {
    if a.count < b.count then -1
    else if a.count > b.count then 1
    else 0
  }

  lemma CmpIgnoresKeys(a: Entry, b: Entry, ka: string, kb: string)
    ensures Cmp(a, b) == Cmp(a.(key := ka), b.(key := kb))
    ensures Cmp(a, b) == -Cmp(b, a)
  {
  }

  /** No id occurs twice in s. The quantifier fires only on Apart terms, so
      a proof names the two positions it compares. */
  ghost predicate Distinct(s: seq<int>) {
    forall i, j {:trigger Apart(s, i, j)} :: Apart(s, i, j)
  }

  ghost predicate Apart(s: seq<int>, i: int, j: int) {
    0 <= i < j < |s| ==> s[i] != s[j]
  }

  /** Position of the first occurrence of x in s, or |s| when x is absent. */
  function IndexOf(s: seq<int>, x: int): (i: nat)
    ensures i <= |s|
    ensures i < |s| ==> s[i] == x
  {
    if s == [] then 0
    else if s[0] == x then 0
    else 1 + IndexOf(s[1..], x)
  }

  /** No occurrence of x comes before IndexOf(s, x). */
  lemma {:induction false} IndexOfFirst(s: seq<int>, x: int, t: int)
    requires 0 <= t < IndexOf(s, x)
    ensures s[t] != x
  {
    if t > 0 {
      IndexOfFirst(s[1..], x, t - 1);
    }
  }

  lemma IndexOfDistinct(s: seq<int>, t: int)
    requires Distinct(s) && 0 <= t < |s|
    ensures IndexOf(s, s[t]) == t
  {
    if t < IndexOf(s, s[t]) {
      IndexOfFirst(s, s[t], t);
    } else if IndexOf(s, s[t]) < t {
      DistinctAt(s, IndexOf(s, s[t]), t);
    }
  }

  lemma DistinctAt(s: seq<int>, i: int, j: int)
    requires Distinct(s) && 0 <= i < j < |s|
    ensures s[i] != s[j]
  {
    assert Apart(s, i, j);
  }

  /** Every id in s names a node of an arena of n nodes. */
  ghost predicate InArena(n: int, s: seq<int>) {
    forall i :: 0 <= i < |s| ==> 0 <= s[i] < n
  }

  lemma ArenaPerm(n: int, a: seq<int>, b: seq<int>)
    requires InArena(n, a) && multiset(a) == multiset(b)
    ensures InArena(n, b)
  {
    forall i | 0 <= i < |b| ensures 0 <= b[i] < n {
      assert b[i] in multiset(a);
      var u :| 0 <= u < |a| && a[u] == b[i];
    }
  }

  ghost function View(cells: seq<Entry>, ids: seq<int>): seq<Entry>
    requires InArena(|cells|, ids)
  {
    seq(|ids|, i requires 0 <= i < |ids| => cells[ids[i]])
  }

  /** Writing one node of a list of distinct nodes changes that entry of the
      view and no other. */
  lemma ViewUpdate(cells: seq<Entry>, ids: seq<int>, u: int, e: Entry)
    requires InArena(|cells|, ids) && Distinct(ids) && 0 <= u < |ids|
    ensures View(cells[ids[u] := e], ids) == View(cells, ids)[u := e]
  {
    forall i | 0 <= i < |ids| && i != u ensures ids[i] != ids[u] {
      if i < u { DistinctAt(ids, i, u); } else { DistinctAt(ids, u, i); }
    }
  }

  /** Node x precedes node y in list_sort's output, xs being the list as it
      was handed to the sort: the higher count first, and of two equal counts
      the node that stood later in xs first. */
  ghost predicate Above(cells: seq<Entry>, xs: seq<int>, x: int, y: int) {
    && 0 <= x < |cells| && 0 <= y < |cells|
    && (|| cells[x].count > cells[y].count
        || (cells[x].count == cells[y].count && IndexOf(xs, x) > IndexOf(xs, y)))
  }

  ghost predicate SortedAbove(cells: seq<Entry>, xs: seq<int>, s: seq<int>) {
    forall i, j :: 0 <= i < j < |s| ==> Above(cells, xs, s[i], s[j])
  }

  lemma AboveTransitive(cells: seq<Entry>, xs: seq<int>, x: int, y: int, z: int)
    requires Above(cells, xs, x, y) && Above(cells, xs, y, z)
    ensures Above(cells, xs, x, z)
  {
  }

  /** Two orderings of the same nodes that are both sorted by Above coincide:
      Above is a strict total order on distinct nodes. */
  lemma {:induction false} RankedUnique(cells: seq<Entry>, xs: seq<int>, a: seq<int>, b: seq<int>)
    requires multiset(a) == multiset(b)
    requires SortedAbove(cells, xs, a) && SortedAbove(cells, xs, b)
    ensures a == b
    decreases |a|
  {
    if a == [] {
      assert |multiset(b)| == 0;
    } else {
      assert a[0] in multiset(b);
      assert b != [];
      // a[0] and b[0] each occur in the other sequence, so each is Above the
      // other unless they are the same node
      assert b[0] in multiset(a);
      assert a[0] == b[0];
      assert a == [a[0]] + a[1..];
      assert b == [b[0]] + b[1..];
      assert multiset(a[1..]) == multiset(a) - multiset{a[0]};
      assert multiset(b[1..]) == multiset(b) - multiset{b[0]};
      assert multiset(a[1..]) == multiset(b[1..]);
      RankedUnique(cells, xs, a[1..], b[1..]);
    }
  }

  // ---------------------------------------------------------------------
  // The reference order: the reverse of a stable ascending sort by count.

  ghost function Reverse<T>(s: seq<T>): (r: seq<T>)
    ensures |r| == |s|
    ensures forall i :: 0 <= i < |s| ==> r[i] == s[|s| - 1 - i]
  {
    if s == [] then [] else Reverse(s[1..]) + [s[0]]
  }

  /** Stable insertion: e goes before the first element whose count is not
      smaller, so it stays ahead of the equal counts already placed. */
  ghost function InsertAsc(e: Entry, s: seq<Entry>): seq<Entry> {
    if s == [] || s[0].count >= e.count then [e] + s
    else [s[0]] + InsertAsc(e, s[1..])
  }

  ghost function StableAsc(es: seq<Entry>): seq<Entry> {
    if es == [] then [] else InsertAsc(es[0], StableAsc(es[1..]))
  }

  /** The order list_sort leaves the entries es in. */
  ghost function RankDesc(es: seq<Entry>): seq<Entry> {
    Reverse(StableAsc(es))
  }

  ghost function InsertAscIds(cells: seq<Entry>, x: int, s: seq<int>): (r: seq<int>)
    requires 0 <= x < |cells| && InArena(|cells|, s)
    ensures InArena(|cells|, r)
    ensures multiset(r) == multiset(s) + multiset{x}
  {
    if s == [] || cells[s[0]].count >= cells[x].count then [x] + s
    else
      assert s == [s[0]] + s[1..];
      [s[0]] + InsertAscIds(cells, x, s[1..])
  }

  ghost function StableAscIds(cells: seq<Entry>, xs: seq<int>): (r: seq<int>)
    requires InArena(|cells|, xs)
    ensures InArena(|cells|, r)
    ensures multiset(r) == multiset(xs)
  {
    if xs == [] then []
    else
      assert xs == [xs[0]] + xs[1..];
      InsertAscIds(cells, xs[0], StableAscIds(cells, xs[1..]))
  }

  lemma {:induction false} ViewInsert(cells: seq<Entry>, x: int, s: seq<int>)
    requires 0 <= x < |cells| && InArena(|cells|, s)
    ensures View(cells, InsertAscIds(cells, x, s)) == InsertAsc(cells[x], View(cells, s))
  {
    if s == [] || cells[s[0]].count >= cells[x].count {
      ViewCons(cells, x, s);
    } else {
      ViewInsert(cells, x, s[1..]);
      ViewTail(cells, s);
      ViewCons(cells, s[0], InsertAscIds(cells, x, s[1..]));
    }
  }

  lemma {:induction false} ViewStableAsc(cells: seq<Entry>, xs: seq<int>)
    requires InArena(|cells|, xs)
    ensures View(cells, StableAscIds(cells, xs)) == StableAsc(View(cells, xs))
  {
    if xs != [] {
      ViewStableAsc(cells, xs[1..]);
      ViewInsert(cells, xs[0], StableAscIds(cells, xs[1..]));
      ViewTail(cells, xs);
    }
  }

  lemma ViewCons(cells: seq<Entry>, x: int, s: seq<int>)
    requires 0 <= x < |cells| && InArena(|cells|, s)
    ensures InArena(|cells|, [x] + s)
    ensures View(cells, [x] + s) == [cells[x]] + View(cells, s)
  {
  }

  lemma ViewSnoc(cells: seq<Entry>, s: seq<int>, x: int)
    requires InArena(|cells|, s) && 0 <= x < |cells|
    ensures InArena(|cells|, s + [x])
    ensures View(cells, s + [x]) == View(cells, s) + [cells[x]]
  {
  }

  /** The view of the first t + 1 ids is the view of the first t and one
      more entry. */
  lemma ViewPrefixStep(cells: seq<Entry>, s: seq<int>, t: int)
    requires InArena(|cells|, s) && 0 <= t < |s|
    ensures InArena(|cells|, s[..t]) && InArena(|cells|, s[..t + 1])
    ensures View(cells, s[..t + 1]) == View(cells, s[..t]) + [cells[s[t]]]
  {
  }

  lemma ViewTail(cells: seq<Entry>, xs: seq<int>)
    requires InArena(|cells|, xs) && xs != []
    ensures View(cells, xs)[0] == cells[xs[0]]
    ensures View(cells, xs)[1..] == View(cells, xs[1..])
  {
  }

  lemma ViewReverse(cells: seq<Entry>, s: seq<int>)
    requires InArena(|cells|, s)
    ensures InArena(|cells|, Reverse(s))
    ensures View(cells, Reverse(s)) == Reverse(View(cells, s))
  {
  }

  lemma {:induction false} ReverseMultiset<T>(s: seq<T>)
    ensures multiset(Reverse(s)) == multiset(s)
  {
    if s != [] {
      ReverseMultiset(s[1..]);
      assert s == [s[0]] + s[1..];
    }
  }

  /** Sorted ascending in the sense that reversing gives SortedAbove. */
  ghost predicate SortedBelow(cells: seq<Entry>, xs: seq<int>, s: seq<int>) {
    forall i, j :: 0 <= i < j < |s| ==> Above(cells, xs, s[j], s[i])
  }

  lemma {:induction false} InsertKeepsSorted(cells: seq<Entry>, xs: seq<int>, x: int, s: seq<int>)
    requires 0 <= x < |cells| && InArena(|cells|, s)
    requires SortedBelow(cells, xs, s)
    requires forall t :: 0 <= t < |s| ==> IndexOf(xs, x) < IndexOf(xs, s[t])
    ensures SortedBelow(cells, xs, InsertAscIds(cells, x, s))
  {
    var r := InsertAscIds(cells, x, s);
    if s == [] || cells[s[0]].count >= cells[x].count {
      forall j | 1 <= j < |r| ensures Above(cells, xs, r[j], r[0]) {
        if j > 1 { assert Above(cells, xs, s[j - 1], s[0]); }
      }
    } else {
      var rest := InsertAscIds(cells, x, s[1..]);
      InsertKeepsSorted(cells, xs, x, s[1..]);
      forall j | 1 <= j < |r| ensures Above(cells, xs, r[j], r[0]) {
        assert r[j] == rest[j - 1];
        assert r[j] in multiset(rest);
        if r[j] != x {
          assert r[j] in multiset(s[1..]);
          var u :| 0 <= u < |s[1..]| && s[1..][u] == r[j];
          assert Above(cells, xs, s[u + 1], s[0]);
        }
      }
    }
  }

  lemma {:induction false} StableAscSorted(cells: seq<Entry>, xs: seq<int>, k: int)
    requires Distinct(xs) && InArena(|cells|, xs) && 0 <= k <= |xs|
    ensures SortedBelow(cells, xs, StableAscIds(cells, xs[k..]))
    decreases |xs| - k
  {
    if k < |xs| {
      StableAscSorted(cells, xs, k + 1);
      assert xs[k..][1..] == xs[k + 1..];
      var s := StableAscIds(cells, xs[k + 1..]);
      forall t | 0 <= t < |s| ensures IndexOf(xs, xs[k]) < IndexOf(xs, s[t]) {
        assert s[t] in multiset(xs[k + 1..]);
        var u :| 0 <= u < |xs[k + 1..]| && xs[k + 1..][u] == s[t];
        IndexOfDistinct(xs, k);
        IndexOfDistinct(xs, k + 1 + u);
      }
      InsertKeepsSorted(cells, xs, xs[k], s);
    }
  }

  /** Any ordering of the nodes xs that list_sort's order relation accepts
      is the reverse of a stable ascending sort of xs by count. */
  lemma SortedIsRankDesc(cells: seq<Entry>, xs: seq<int>, out: seq<int>)
    requires Distinct(xs) && InArena(|cells|, xs)
    requires multiset(out) == multiset(xs) && SortedAbove(cells, xs, out)
    ensures InArena(|cells|, out)
    ensures View(cells, out) == RankDesc(View(cells, xs))
  {
    var asc := StableAscIds(cells, xs);
    StableAscSorted(cells, xs, 0);
    assert xs[0..] == xs;
    var r := Reverse(asc);
    ReverseMultiset(asc);
    assert SortedAbove(cells, xs, r);
    RankedUnique(cells, xs, out, r);
    ViewReverse(cells, asc);
    ViewStableAsc(cells, xs);
  }

  // ---------------------------------------------------------------------
  // RankDesc on the entries alone: a permutation with non-increasing
  // counts, which reverses entries of equal count.

  ghost predicate CountsAscending(es: seq<Entry>) {
    forall i, j :: 0 <= i < j < |es| ==> es[i].count <= es[j].count
  }

  ghost predicate CountsDescending(es: seq<Entry>) {
    forall i, j :: 0 <= i < j < |es| ==> es[i].count >= es[j].count
  }

  lemma {:induction false} InsertAscPerm(e: Entry, s: seq<Entry>)
    ensures multiset(InsertAsc(e, s)) == multiset(s) + multiset{e}
  {
    if !(s == [] || s[0].count >= e.count) {
      InsertAscPerm(e, s[1..]);
      assert s == [s[0]] + s[1..];
    }
  }

  /** A count no larger than e's and every count of s bounds every count of
      InsertAsc(e, s) from below. */
  lemma {:induction false} InsertAscAbove(e: Entry, s: seq<Entry>, c: int)
    requires c <= e.count && forall i :: 0 <= i < |s| ==> c <= s[i].count
    ensures forall i :: 0 <= i < |InsertAsc(e, s)| ==> c <= InsertAsc(e, s)[i].count
  {
    if !(s == [] || s[0].count >= e.count) {
      InsertAscAbove(e, s[1..], c);
    }
  }

  lemma {:induction false} InsertAscAscending(e: Entry, s: seq<Entry>)
    requires CountsAscending(s)
    ensures CountsAscending(InsertAsc(e, s))
  {
    if s == [] || s[0].count >= e.count {
      var r := [e] + s;
      forall i, j | 0 <= i < j < |r| ensures r[i].count <= r[j].count {
        if i > 0 {
          assert r[i] == s[i - 1] && r[j] == s[j - 1];
        } else {
          assert r[j] == s[j - 1];
        }
      }
    } else {
      var tl := s[1..];
      InsertAscAscending(e, tl);
      InsertAscAbove(e, tl, s[0].count);
      var t := InsertAsc(e, tl);
      var r := [s[0]] + t;
      forall i, j | 0 <= i < j < |r| ensures r[i].count <= r[j].count {
        assert r[j] == t[j - 1];
        if i > 0 {
          assert r[i] == t[i - 1];
        }
      }
    }
  }

  lemma {:induction false} StableAscAscending(es: seq<Entry>)
    ensures multiset(StableAsc(es)) == multiset(es)
    ensures CountsAscending(StableAsc(es))
  {
    if es != [] {
      StableAscAscending(es[1..]);
      InsertAscPerm(es[0], StableAsc(es[1..]));
      InsertAscAscending(es[0], StableAsc(es[1..]));
      assert es == [es[0]] + es[1..];
    }
  }

  /** list_sort's order holds the same entries, by non-increasing count. */
  lemma RankDescOrdered(es: seq<Entry>)
    ensures multiset(RankDesc(es)) == multiset(es)
    ensures CountsDescending(RankDesc(es))
  {
    StableAscAscending(es);
    ReverseMultiset(StableAsc(es));
    ReverseAscending(StableAsc(es));
  }

  lemma ReverseAscending(a: seq<Entry>)
    requires CountsAscending(a)
    ensures CountsDescending(Reverse(a))
  {
    var r := Reverse(a);
    forall i, j | 0 <= i < j < |r| ensures r[i].count >= r[j].count {
      assert r[i] == a[|a| - 1 - i] && r[j] == a[|a| - 1 - j];
    }
  }

  ghost predicate SameCounts(es: seq<Entry>) {
    forall i :: 0 <= i < |es| ==> es[i].count == es[0].count
  }

  lemma {:induction false} StableAscSameCounts(es: seq<Entry>)
    requires SameCounts(es)
    ensures StableAsc(es) == es
  {
    if es != [] {
      var tl := es[1..];
      assert SameCounts(tl) by {
        forall i | 0 <= i < |tl| ensures tl[i].count == tl[0].count {
          assert tl[i] == es[i + 1] && tl[0] == es[1];
        }
      }
      StableAscSameCounts(tl);
      assert es == [es[0]] + tl;
    }
  }

  /** Entries of one count come out in the reverse of their input order. */
  lemma RankDescSameCounts(es: seq<Entry>)
    requires SameCounts(es)
    ensures RankDesc(es) == Reverse(es)
  {
    StableAscSameCounts(es);
  }

  /** Two counts in either order come out larger first. */
  lemma SortTwoAndOne(e: Entry, f: Entry)
    requires e.count > f.count
    ensures RankDesc([e, f]) == [e, f] && RankDesc([f, e]) == [e, f]
  {
    assert StableAsc([f]) == [f] by { assert [f][1..] == []; }
    assert StableAsc([e]) == [e] by { assert [e][1..] == []; }
    assert [e, f][1..] == [f] && [f, e][1..] == [e];
    assert InsertAsc(e, [f]) == [f] + InsertAsc(e, []);
    assert StableAsc([e, f]) == [f, e];
    assert StableAsc([f, e]) == [f, e];
    assert Reverse([f, e]) == [e, f] by { assert [f, e][1..] == [e]; }
  }

  /** Sorting twice is not sorting once: a list of entries of one count is
      reversed by each sort and comes back to its first order. */
  lemma SortTwiceRestores(es: seq<Entry>)
    requires SameCounts(es)
    ensures RankDesc(RankDesc(es)) == es
    ensures |es| >= 2 && es[0] != es[|es| - 1] ==> RankDesc(es) != es
  {
    RankDescSameCounts(es);
    var r := Reverse(es);
    assert SameCounts(r) by {
      forall i | 0 <= i < |r| ensures r[i].count == r[0].count {
        assert r[i] == es[|es| - 1 - i];
      }
    }
    RankDescSameCounts(r);
    assert Reverse(r) == es;
    if |es| >= 2 && es[0] != es[|es| - 1] {
      assert r[0] == es[|es| - 1];
    }
  }

  // ---------------------------------------------------------------------
  // The sum of the counts: the number of reads a list accounts for.

  function SumCounts(es: seq<Entry>): int {
    if es == [] then 0 else es[0].count + SumCounts(es[1..])
  }

  lemma {:induction false} SumCountsAppend(a: seq<Entry>, b: seq<Entry>)
    ensures SumCounts(a + b) == SumCounts(a) + SumCounts(b)
  {
    if a == [] {
      assert a + b == b;
    } else {
      SumCountsAppend(a[1..], b);
      assert (a + b)[1..] == a[1..] + b;
    }
  }

  lemma {:induction false} SumCountsInsert(e: Entry, s: seq<Entry>)
    ensures SumCounts(InsertAsc(e, s)) == e.count + SumCounts(s)
  {
    if !(s == [] || s[0].count >= e.count) {
      SumCountsInsert(e, s[1..]);
    }
  }

  lemma {:induction false} SumCountsReverse(s: seq<Entry>)
    ensures SumCounts(Reverse(s)) == SumCounts(s)
  {
    if s != [] {
      SumCountsReverse(s[1..]);
      SumCountsAppend(Reverse(s[1..]), [s[0]]);
    }
  }

  /** list_sort's order keeps the sum of the counts. */
  lemma {:induction false} SumCountsRankDesc(es: seq<Entry>)
    ensures SumCounts(RankDesc(es)) == SumCounts(es)
  {
    SumCountsStableAsc(es);
    SumCountsReverse(StableAsc(es));
  }

  lemma {:induction false} SumCountsStableAsc(es: seq<Entry>)
    ensures SumCounts(StableAsc(es)) == SumCounts(es)
  {
    if es != [] {
      SumCountsStableAsc(es[1..]);
      SumCountsInsert(es[0], StableAsc(es[1..]));
    }
  }

  /** Changing one entry changes the sum by the difference of the counts. */
  lemma {:induction false} SumCountsUpdate(es: seq<Entry>, i: int, e: Entry)
    requires 0 <= i < |es|
    ensures SumCounts(es[i := e]) == SumCounts(es) - es[i].count + e.count
  {
    if i > 0 {
      SumCountsUpdate(es[1..], i - 1, e);
      assert es[i := e][1..] == es[1..][i - 1 := e];
    }
  }
}
