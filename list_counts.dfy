// The singly-linked (seq, count) list of list_counts.c.
//
// The nodes live in an arena owned by the list: node n has payload cells[n]
// (its seq and count) and successor next[n], with Null for the C NULL
// pointer. `order` is the ghost list of node ids from head to the end.

module ListCounts {
  import opened Ranking
  import opened MergeSort
  import opened OutputText

  const Null: int := -1

  /** A C string cannot hold the NUL byte. */
  predicate NulFree(s: string) {
    '\0' !in s
  }

  /** Every node's key came in through strcpy, so none holds a NUL; this is
      what lets == and %s stand for strcmp and printf on the keys. */
  predicate NulFreeKeys(cells: seq<Entry>) {
    forall x :: 0 <= x < |cells| ==> NulFree(cells[x].key)
  }

  lemma NulFreeKeysUpdate(cells: seq<Entry>, i: int, c: int)
    requires NulFreeKeys(cells) && 0 <= i < |cells|
    ensures NulFreeKeys(cells[i := cells[i].(count := c)])
  {
  }

  ghost predicate Linked(next: seq<int>, s: seq<int>)
    requires InArena(|next|, s)
  {
    forall i {:trigger LinkAt(next, s, i)} :: LinkAt(next, s, i)
  }

  /** The node at index i of s is followed by the node at index i + 1. As
      with Distinct, the quantifier of Linked fires only on LinkAt terms. */
  ghost predicate LinkAt(next: seq<int>, s: seq<int>, i: int)
    requires InArena(|next|, s)
  {
    0 <= i < |s| - 1 ==> next[s[i]] == s[i + 1]
  }

  /** Following next from h visits the distinct nodes s and then NULL. */
  ghost predicate Chain(next: seq<int>, h: int, s: seq<int>) {
    && InArena(|next|, s)
    && Distinct(s)
    && Linked(next, s)
    && h == (if s == [] then Null else s[0])
    && (s != [] ==> next[s[|s| - 1]] == Null)
  }

  lemma ChainStep(next: seq<int>, h: int, s: seq<int>, t: int)
    requires Chain(next, h, s) && 0 <= t < |s| && next[s[t]] != Null
    ensures t < |s| - 1 && next[s[t]] == s[t + 1]
  {
    assert LinkAt(next, s, t);
  }

  lemma ChainEnd(next: seq<int>, h: int, s: seq<int>, t: int)
    requires Chain(next, h, s) && 0 <= t < |s| && next[s[t]] == Null
    ensures t == |s| - 1
  {
    assert LinkAt(next, s, t);
  }

  /** A node added to the arena leaves every chain as it was. */
  lemma ChainGrow(next: seq<int>, h: int, s: seq<int>, x: int)
    requires Chain(next, h, s)
    ensures Chain(next + [x], h, s)
  {
    forall i ensures LinkAt(next + [x], s, i) {
      assert LinkAt(next, s, i);
    }
  }

  /** Linking a fresh NULL-terminated node n after the last node. */
  lemma ChainExtend(next: seq<int>, h: int, s: seq<int>, n: int)
    requires Chain(next, h, s) && s != []
    requires 0 <= n < |next| && n !in s && next[n] == Null
    ensures Chain(next[s[|s| - 1] := n], h, s + [n])
  {
    var next' := next[s[|s| - 1] := n];
    var s' := s + [n];
    forall i, j ensures Apart(s', i, j) {
      if 0 <= i < j < |s| {
        assert Apart(s, i, j);
      }
    }
    forall i ensures LinkAt(next', s', i) {
      if 0 <= i < |s| - 1 {
        assert LinkAt(next, s, i);
        assert Apart(s, i, |s| - 1);
      }
    }
  }

  /** The list a pass of list_sort has built so far: the nodes of done,
      linked in order from h to t; the last next is not set yet. */
  ghost predicate Built(next: seq<int>, done: seq<int>, h: int, t: int) {
    && InArena(|next|, done)
    && Linked(next, done)
    && h == (if done == [] then Null else done[0])
    && t == (if done == [] then Null else done[|done| - 1])
  }

  /** The state of a pass of list_sort: the merged list done, the nodes P
      of the current first run not merged yet (still linked one to the
      next), and the list from q on (QR), which still ends in NULL. No node
      is in two of these places. */
  ghost predicate Merging(next: seq<int>, done: seq<int>, h: int, t: int, P: seq<int>, q: int, QR: seq<int>) {
    && Built(next, done, h, t)
    && InArena(|next|, P)
    && Linked(next, P)
    && Chain(next, q, QR)
    && Distinct(done + P + QR)
  }

  /** tail->next = e, where t is the tail; nothing while there is no tail. */
  function LinkTail(next: seq<int>, t: int, e: int): seq<int> {
    if 0 <= t < |next| then next[t := e] else next
  }

  /** Where index k of a + c + b + d sits in a + b + c + d. */
  function Moved(na: int, nb: int, nc: int, k: int): int {
    if k < na then k
    else if k < na + nc then k + nb
    else if k < na + nc + nb then k - nc
    else k
  }

  /** Moving the block c in front of the block b keeps the elements apart. */
  lemma SwapBlocks(a: seq<int>, b: seq<int>, c: seq<int>, d: seq<int>)
    requires Distinct(a + b + c + d)
    ensures Distinct(a + c + b + d)
  {
    var s, s' := a + b + c + d, a + c + b + d;
    forall i, j ensures Apart(s', i, j) {
      if 0 <= i < j < |s'| {
        var fi := Moved(|a|, |b|, |c|, i);
        var fj := Moved(|a|, |b|, |c|, j);
        assert s'[i] == s[fi] && s'[j] == s[fj];
        if fi < fj {
          assert Apart(s, fi, fj);
        } else {
          assert Apart(s, fj, fi);
        }
      }
    }
  }

  /** A pass starts with nothing merged and the whole list ahead. */
  lemma StartPass(next: seq<int>, h: int, s: seq<int>)
    requires Chain(next, h, s)
    ensures Merging(next, [], Null, Null, [], h, s)
  {
    assert [] + [] + s == s;
    forall i ensures LinkAt(next, [], i) {
    }
  }

  /** The loop that steps along from q has cut the first k nodes off as the
      run P. */
  lemma SplitRun(next: seq<int>, done: seq<int>, h: int, t: int, q: int, QR: seq<int>, k: int, n: int)
    requires Merging(next, done, h, t, [], q, QR) && 0 <= k && 0 <= n && k + n <= |QR|
    ensures QR != [] ==> q == QR[0]
    ensures Merging(next, done, h, t, QR[..k], if k < |QR| then QR[k] else Null, QR[k..k + n] + QR[k + n..])
  {
    assert QR[k..] == QR[k..k + n] + QR[k + n..];
    assert done + [] + QR == done + QR[..k] + QR[k..];
    var P, R := QR[..k], QR[k..];
    forall i ensures LinkAt(next, P, i) {
      assert LinkAt(next, QR, i);
    }
    forall i ensures LinkAt(next, R, i) {
      assert LinkAt(next, QR, k + i);
    }
    forall i, j ensures Apart(R, i, j) {
      assert Apart(QR, k + i, k + j);
    }
    if 0 < k < |QR| {
      assert LinkAt(next, QR, k - 1);
    }
  }

  /** The merge loop takes the node q at the head of QR: it is linked
      behind t (or becomes the head) and the loop goes on from its next. */
  lemma TakeQ(next: seq<int>, done: seq<int>, h: int, t: int, P: seq<int>, q: int, QR: seq<int>)
    requires Merging(next, done, h, t, P, q, QR) && QR != []
    ensures q == QR[0] && 0 <= q < |next|
    ensures next[q] == if |QR| > 1 then QR[1] else Null
    ensures Merging(LinkTail(next, t, q), done + [q], if t == Null then q else h, q, P, next[q], QR[1..])
  {
    var rest := QR[1..];
    assert done + P + QR == done + P + [q] + rest;
    SwapBlocks(done, P, [q], rest);
    var s := done + [q] + P + rest;
    var n := |done|;
    var nx := LinkTail(next, t, q);
    if t != Null {
      forall i | 0 <= i < |P| ensures P[i] != t {
        assert Apart(s, n - 1, n + 1 + i);
      }
      forall i | 0 <= i < |rest| ensures rest[i] != t {
        assert Apart(s, n - 1, n + 1 + |P| + i);
      }
      forall i | 0 <= i < n - 1 ensures done[i] != t {
        assert Apart(s, i, n - 1);
      }
      assert Apart(s, n - 1, n);
    }
    var d := done + [q];
    forall i ensures LinkAt(nx, d, i) {
      assert LinkAt(next, done, i);
    }
    forall i ensures LinkAt(nx, P, i) {
      assert LinkAt(next, P, i);
    }
    forall i ensures LinkAt(nx, rest, i) {
      assert LinkAt(next, QR, i + 1);
    }
    forall i, j ensures Apart(rest, i, j) {
      assert Apart(QR, i + 1, j + 1);
    }
    assert LinkAt(next, QR, 0);
  }

  /** The merge loop takes the first node of P. */
  lemma TakeP(next: seq<int>, done: seq<int>, h: int, t: int, P: seq<int>, q: int, QR: seq<int>)
    requires Merging(next, done, h, t, P, q, QR) && P != []
    ensures 0 <= P[0] < |next|
    ensures |P| > 1 ==> next[P[0]] == P[1]
    ensures Merging(LinkTail(next, t, P[0]), done + [P[0]], if t == Null then P[0] else h, P[0], P[1..], q, QR)
  {
    var e, P' := P[0], P[1..];
    var s := done + [e] + P' + QR;
    assert done + P + QR == s;
    var n := |done|;
    var nx := LinkTail(next, t, e);
    if t != Null {
      forall i | 0 <= i < |P'| ensures P'[i] != t {
        assert Apart(s, n - 1, n + 1 + i);
      }
      forall i | 0 <= i < |QR| ensures QR[i] != t {
        assert Apart(s, n - 1, n + 1 + |P'| + i);
      }
      forall i | 0 <= i < n - 1 ensures done[i] != t {
        assert Apart(s, i, n - 1);
      }
      assert Apart(s, n - 1, n);
    }
    var d := done + [e];
    forall i ensures LinkAt(nx, d, i) {
      assert LinkAt(next, done, i);
    }
    forall i ensures LinkAt(nx, P', i) {
      assert LinkAt(next, P, i + 1);
    }
    forall i ensures LinkAt(nx, QR, i) {
      assert LinkAt(next, QR, i);
    }
    assert LinkAt(next, P, 0);
  }

  /** One round of the merge loop: the node e taken from QR when fromQ, and
      from P otherwise, is linked behind t. */
  lemma Take(next: seq<int>, done: seq<int>, h: int, t: int, P: seq<int>, q: int, QR: seq<int>,
             fromQ: bool, e: int)
    requires Merging(next, done, h, t, P, q, QR)
    requires if fromQ then QR != [] && e == q else P != [] && e == P[0]
    ensures 0 <= e < |next|
    ensures fromQ ==> q == QR[0] && next[q] == (if |QR| > 1 then QR[1] else Null)
    ensures fromQ ==> Merging(LinkTail(next, t, e), done + [e], if t == Null then e else h, e, P, next[q], QR[1..])
    ensures !fromQ ==> |P| > 1 ==> next[e] == P[1]
    ensures !fromQ ==> Merging(LinkTail(next, t, e), done + [e], if t == Null then e else h, e, P[1..], q, QR)
  {
    if fromQ {
      TakeQ(next, done, h, t, P, q, QR);
    } else {
      TakeP(next, done, h, t, P, q, QR);
    }
  }

  lemma TailOfAppend(a: seq<int>, b: seq<int>)
    requires a != []
    ensures (a + b)[1..] == a[1..] + b
  {
  }

  lemma AppendOne(a: seq<int>, m: seq<int>, e: int)
    ensures a + (m + [e]) == (a + m) + [e]
  {
  }

  /** The pass ends with tail->next = NULL, which closes the merged list. */
  lemma CloseList(next: seq<int>, done: seq<int>, h: int, t: int, q: int)
    requires Merging(next, done, h, t, [], q, []) && done != []
    ensures Chain(next[t := Null], h, done)
  {
    assert done + [] + [] == done;
    var next' := next[t := Null];
    forall i ensures LinkAt(next', done, i) {
      assert LinkAt(next, done, i);
      assert Apart(done, i, |done| - 1);
    }
  }

  /** add_seq's effect on the entries: the first node after the head that
      holds key gets one more; without one, a node (key, 1) is appended. */
  function AddedEntries(es: seq<Entry>, key: string): seq<Entry> {
    if es == [] then [Entry(key, 1)]
    else
      var i := FirstKeyFrom(es, key, 1);
      if i < |es| then es[i := es[i].(count := es[i].count + 1)]
      else es + [Entry(key, 1)]
  }

  /** The first index at or after from whose entry holds key, or |es|. */
  function FirstKeyFrom(es: seq<Entry>, key: string, from: int): (i: int)
    requires 0 <= from <= |es|
    ensures from <= i <= |es|
    ensures i < |es| ==> es[i].key == key
    ensures forall t :: from <= t < i ==> es[t].key != key
    decreases |es| - from
  {
    if from == |es| then from
    else if es[from].key == key then from
    else FirstKeyFrom(es, key, from + 1)
  }

  /** When a node after the head holds key, add_seq counts one more read
      at the first such node and adds no node. */
  lemma AddSeqFound(es: seq<Entry>, key: string, i: int)
    requires 1 <= i < |es| && es[i].key == key
    requires forall t :: 1 <= t < i ==> es[t].key != key
    ensures AddedEntries(es, key) == es[i := es[i].(count := es[i].count + 1)]
  {
    assert FirstKeyFrom(es, key, 1) == i;
  }

  /** When no node after the head holds key, add_seq appends (key, 1), even
      when the head itself holds key. */
  lemma AddSeqNotFound(es: seq<Entry>, key: string)
    requires es != [] && forall t :: 1 <= t < |es| ==> es[t].key != key
    ensures AddedEntries(es, key) == es + [Entry(key, 1)]
    ensures es[0].key == key ==> AddedEntries(es, key)[0].key == AddedEntries(es, key)[|es|].key
  {
    assert FirstKeyFrom(es, key, 1) == |es|;
  }

  /** add_seq accounts for exactly one more read. */
  lemma AddSeqCountsOne(es: seq<Entry>, key: string)
    ensures SumCounts(AddedEntries(es, key)) == SumCounts(es) + 1
  {
    if es == [] {
      assert SumCounts([Entry(key, 1)]) == 1 + SumCounts([]);
    } else {
      var i := FirstKeyFrom(es, key, 1);
      if i < |es| {
        SumCountsUpdate(es, i, es[i].(count := es[i].count + 1));
      } else {
        SumCountsAppend(es, [Entry(key, 1)]);
        assert SumCounts([Entry(key, 1)]) == 1 + SumCounts([]);
      }
    }
  }

  class ListCount {
    var head: int
    var tail: int
    var cells: seq<Entry>
    var next: seq<int>
    ghost var order: seq<int>

    ghost predicate Valid()
      reads this
    {
      |cells| == |next| && NulFreeKeys(cells) && Chain(next, head, order)
    }

    /** The (seq, count) pairs from head to the end of the list. */
    ghost function Entries(): seq<Entry>
      reads this
      requires Valid()
    {
      View(cells, order)
    }

    /** init_list_counts: an empty list, head and tail NULL. */
    constructor ()
      ensures Valid() && order == [] && Entries() == []
      ensures head == Null && tail == Null && cells == [] && next == []
    {
      head, tail := Null, Null;
      cells, next := [], [];
      order := [];
    }

    /** get_head */
    function GetHead(): (h: int)
      reads this
      requires Valid()
      ensures h == Null <==> order == []
      ensures order != [] ==> h == order[0]
    {
      head
    }

    /** set_head: the list continues from h, which must start a chain. */
    method SetHead(h: int, ghost ids: seq<int>)
      requires |cells| == |next| && NulFreeKeys(cells) && Chain(next, h, ids)
      modifies this
      ensures Valid() && order == ids && head == h
      ensures cells == old(cells) && next == old(next) && tail == old(tail)
    {
      head := h;
      order := ids;
    }

    /** init_seq_count: a fresh node holding a copy of sequence, with the
        given count and a NULL next. strcpy into a buffer of size bytes
        needs room for the terminating NUL. */
    method NewNode(sequence: string, size: int, count: int) returns (n: int)
      requires NulFree(sequence) && |sequence| < size
      requires Valid()
      modifies this
      ensures Valid()
      ensures n == |old(cells)| && cells == old(cells) + [Entry(sequence, count)]
      ensures next == old(next) + [Null]
      ensures head == old(head) && tail == old(tail) && order == old(order)
      ensures Entries() == old(Entries())
    {
      n := |cells|;
      ChainGrow(next, head, order, Null);
      cells := cells + [Entry(sequence, count)];
      next := next + [Null];
    }

    /** set_seq: appends (sequence, count) at the end of the list, starting
        the walk to the end from tail. */
    method SetSeq(sequence: string, size: int, count: int)
      requires Valid() && NulFree(sequence) && |sequence| < size
      requires head != Null ==> tail in order
      modifies this
      ensures Valid()
      ensures Entries() == old(Entries()) + [Entry(sequence, count)]
      ensures order == old(order) + [|old(cells)|]
      ensures tail == |old(cells)| && next[tail] == Null
      ensures old(order) != [] ==> head == old(head)
      ensures cells == old(cells) + [Entry(sequence, count)]
    {
      if head == Null {
        var n := NewNode(sequence, size, count);
        head := n;
        tail := head;
        order := [n];
      } else {
        var temp := tail;
        var n := NewNode(sequence, size, count);
        ghost var t :| 0 <= t < |order| && order[t] == temp;
        ghost var nx, os, cs := next, order, cells;
        while next[temp] != Null
          invariant next == nx && order == os && cells == cs && head == old(head)
          invariant 0 <= t < |os| && os[t] == temp
          decreases |os| - t
        {
          ChainStep(nx, head, os, t);
          temp := next[temp];
          t := t + 1;
        }
        ChainEnd(nx, head, os, t);
        Link(temp, n);
        tail := next[temp];
      }
    }

    /** add_seq: insert-or-increment by a linear walk. The walk compares
        sequence with the successors of each node, never with the head
        itself, and tail is never updated. */
    method AddSeq(sequence: string, size: int)
      requires Valid() && NulFree(sequence) && |sequence| < size
      modifies this
      ensures Valid()
      ensures Entries() == AddedEntries(old(Entries()), sequence)
      ensures old(order) != [] && FirstKeyFrom(old(Entries()), sequence, 1) < |old(order)| ==> order == old(order)
      ensures old(order) == [] || FirstKeyFrom(old(Entries()), sequence, 1) == |old(order)| ==> order == old(order) + [|old(cells)|]
      ensures tail == old(tail)
      ensures old(order) != [] ==> head == old(head)
    {
      if head == Null {
        var n := NewNode(sequence, size, 1);
        ViewSnoc(cells, [], n);
        head := n;
        order := [n];
        assert Entries() == AddedEntries(old(Entries()), sequence);
      } else {
        ghost var es := Entries();
        var temp := head;
        // The node is allocated before the walk; when the key is found it is
        // released again and stays unreachable in the arena.
        var n := NewNode(sequence, size, 1);
        var add := false;
        ghost var t := 0;
        ghost var nx, os, cs := next, order, cells;
        while next[temp] != Null
          invariant next == nx && order == os && cells == cs && head == old(head) && tail == old(tail) && !add
          invariant 0 <= t < |os| && os[t] == temp
          invariant forall u :: 1 <= u <= t ==> es[u].key != sequence
          decreases |os| - t
        {
          ChainStep(nx, head, os, t);
          if cells[next[temp]].key == sequence {
            assert es[t + 1].key == sequence;
            Bump(next[temp], t + 1);
            add := true;
            break;
          }
          temp := next[temp];
          t := t + 1;
        }
        if !add {
          ChainEnd(nx, head, os, t);
          assert FirstKeyFrom(es, sequence, 1) == |es|;
          assert AddedEntries(es, sequence) == es + [Entry(sequence, 1)];
          Link(temp, n);
          assert Entries() == es + [Entry(sequence, 1)];
          assert order == old(order) + [|old(cells)|];
        } else {
          assert FirstKeyFrom(es, sequence, 1) == t + 1;
          assert AddedEntries(es, sequence) == es[t + 1 := es[t + 1].(count := es[t + 1].count + 1)];
          assert order == old(order);
        }
      }
    }

    /** temp->next = n: the fresh NULL-terminated node n is linked after
        temp, the last node of a non-empty list. */
    method Link(temp: int, n: int)
      requires Valid() && order != [] && temp == order[|order| - 1]
      requires 0 <= n < |next| && n !in order && next[n] == Null
      modifies this
      ensures Valid()
      ensures next == old(next)[temp := n] && order == old(order) + [n]
      ensures Entries() == old(Entries()) + [cells[n]]
      ensures cells == old(cells) && head == old(head) && tail == old(tail)
    {
      ChainExtend(next, head, order, n);
      ViewSnoc(cells, order, n);
      next := next[temp := n];
      order := order + [n];
    }

    /** temp->next->count++: node x, at position u of the list, counts one
        more read; nothing else changes. */
    method Bump(x: int, ghost u: int)
      requires Valid() && 0 <= u < |order| && order[u] == x
      modifies this
      ensures Valid()
      ensures cells == old(cells)[x := old(cells)[x].(count := old(cells)[x].count + 1)]
      ensures Entries() == old(Entries())[u := old(Entries())[u].(count := old(Entries())[u].count + 1)]
      ensures next == old(next) && order == old(order) && head == old(head) && tail == old(tail)
    {
      ViewUpdate(cells, order, u, cells[x].(count := cells[x].count + 1));
      NulFreeKeysUpdate(cells, x, cells[x].count + 1);
      cells := cells[x := cells[x].(count := cells[x].count + 1)];
    }

    // -------------------------------------------------------------------
    // The print routines walk the list from head and write one line per
    // node; the text they write is returned instead of going to a stream.

    /** print_dat */
    method PrintDat() returns (text: string)
      requires Valid()
      ensures text == DatText(Entries())
    {
      var temp := head;
      text := "";
      ghost var t := 0;
      while temp != Null
        invariant 0 <= t <= |order|
        invariant temp == if t < |order| then order[t] else Null
        invariant InArena(|cells|, order[..t]) && text == DatText(View(cells, order[..t]))
        decreases |order| - t
      {
        ViewPrefixStep(cells, order, t);
        RenderSnoc(View(cells, order[..t]), cells[temp], DatLine);
        text := text + DatLine(cells[temp]);
        StepOn(t);
        temp := next[temp];
        t := t + 1;
      }
      assert order[..t] == order;
    }

    /** print_fasta: the count line and the key line of each node. */
    method PrintFasta() returns (text: string)
      requires Valid()
      ensures text == FastaText(Entries())
    {
      var temp := head;
      text := "";
      ghost var t := 0;
      while temp != Null
        invariant 0 <= t <= |order|
        invariant temp == if t < |order| then order[t] else Null
        invariant InArena(|cells|, order[..t]) && text == FastaText(View(cells, order[..t]))
        decreases |order| - t
      {
        ViewPrefixStep(cells, order, t);
        RenderSnoc(View(cells, order[..t]), cells[temp], FastaLine);
        text := text + FastaLine(cells[temp]);
        StepOn(t);
        temp := next[temp];
        t := t + 1;
      }
      assert order[..t] == order;
    }

    /** print_list: print_seq's line for each node whose count is not 1. */
    method PrintList() returns (text: string)
      requires Valid()
      ensures text == ListText(Entries())
    {
      var temp := head;
      text := "";
      ghost var t := 0;
      while temp != Null
        invariant 0 <= t <= |order|
        invariant temp == if t < |order| then order[t] else Null
        invariant InArena(|cells|, order[..t]) && text == ListText(View(cells, order[..t]))
        decreases |order| - t
      {
        ViewPrefixStep(cells, order, t);
        RenderSnoc(View(cells, order[..t]), cells[temp], ListLine);
        if cells[temp].count != 1 {
          text := text + SeqLine(cells[temp]);
        } else {
          assert text + ListLine(cells[temp]) == text;
        }
        StepOn(t);
        temp := next[temp];
        t := t + 1;
      }
      assert order[..t] == order;
    }

    /** The node after the t-th is the (t + 1)-th, or NULL after the last. */
    lemma StepOn(t: int)
      requires Valid() && 0 <= t < |order|
      ensures next[order[t]] == if t + 1 < |order| then order[t + 1] else Null
    {
      if next[order[t]] == Null {
        ChainEnd(next, head, order, t);
      } else {
        ChainStep(next, head, order, t);
      }
    }

    // -------------------------------------------------------------------
    // list_sort, Simon Tatham's bottom-up merge sort on the linked list.
    // The pass loop, the stepping loop and the merge loop are methods of
    // their own; together they are the body of list_sort.

    /** list_sort: relinks the nodes from head into list_sort's order and
        returns the new first node. Only next fields change; head and tail
        are left as they were, and nothing is allocated. */
    method Sort() returns (sortedHead: int, ghost sorted: seq<int>)
      requires Valid()
      modifies this
      ensures cells == old(cells) && |next| == |old(next)|
      ensures head == old(head) && tail == old(tail) && order == old(order)
      ensures Chain(next, sortedHead, sorted)
      ensures sorted == ListSort(cells, order)
      ensures View(cells, sorted) == RankDesc(old(Entries()))
    {
      ghost var xs := order;
      var listHead := head;
      if listHead == Null {
        ListSortRankDesc(cells, xs);
        return Null, [];
      }
      ghost var cur := xs;
      ghost var S := ListSort(cells, xs);
      var insize := 1;
      while true
        invariant cells == old(cells) && |next| == |old(next)|
        invariant head == old(head) && tail == old(tail) && order == old(order)
        invariant Chain(next, listHead, cur) && |cur| == |xs| > 0
        invariant insize >= 1 && SortFrom(cells, cur, insize) == S
        decreases |cur| - insize
      {
        var nmerges;
        listHead, nmerges, cur := MergePass(listHead, insize, cur);
        // If we have done only one merge, we're finished.
        if nmerges <= 1 {
          ListSortRankDesc(cells, xs);
          return listHead, cur;
        }
        insize := insize * 2;
      }
    }

    /** One pass of list_sort: merges each pair of adjacent runs of insize
        nodes and counts the merges. */
    method MergePass(listHead: int, insize: int, ghost cur: seq<int>)
      returns (newHead: int, nmerges: int, ghost newCur: seq<int>)
      requires |cells| == |next| && Chain(next, listHead, cur) && cur != [] && insize >= 1
      modifies this
      ensures cells == old(cells) && |next| == |old(next)|
      ensures head == old(head) && tail == old(tail) && order == old(order)
      ensures newCur == Pass(cells, cur, insize) && Chain(next, newHead, newCur)
      ensures nmerges == Merges(|cur|, insize)
    {
      var p := listHead;
      newHead := Null;
      var mergedTail := Null;
      nmerges := 0;
      ghost var cs := cells;
      ghost var rest := cur;
      newCur := [];
      ghost var M, C := Pass(cs, cur, insize), Merges(|cur|, insize);
      StartPass(next, listHead, cur);
      while p != Null
        invariant cells == cs && head == old(head) && tail == old(tail) && order == old(order)
        invariant |next| == |cs|
        invariant Merging(next, newCur, newHead, mergedTail, [], p, rest)
        invariant newCur + Pass(cs, rest, insize) == M
        invariant nmerges + Merges(|rest|, insize) == C
        decreases |rest|
      {
        nmerges := nmerges + 1;
        ghost var m, R;
        newHead, mergedTail, p, m, R := MergeNext(newHead, mergedTail, p, insize, newCur, rest);
        Regroup(newCur, m, Pass(cs, R, insize), M);
        newCur := newCur + m;
        rest := R;
      }
      assert rest == [] && newCur == M;
      CloseList(next, newCur, newHead, mergedTail, p);
      next := next[mergedTail := Null];
    }

    /** One round of the pass loop: steps along the run P of at most insize
        nodes from p, merges it with the at most insize nodes Q after it and
        goes on from the node after Q. */
    method MergeNext(listHead: int, mergedTail: int, p: int, insize: int, ghost done: seq<int>, ghost rest: seq<int>)
      returns (newHead: int, newTail: int, q: int, ghost m: seq<int>, ghost R: seq<int>)
      requires |cells| == |next| && insize >= 1 && rest != []
      requires Merging(next, done, listHead, mergedTail, [], p, rest)
      modifies this
      ensures cells == old(cells) && head == old(head) && tail == old(tail) && order == old(order)
      ensures |next| == |old(next)|
      ensures Merging(next, done + m, newHead, newTail, [], q, R)
      ensures m + Pass(cells, R, insize) == Pass(cells, rest, insize)
      ensures Merges(|rest|, insize) == 1 + Merges(|R|, insize) && |R| < |rest|
    {
      var psize;
      q, psize := StepAlong(p, insize, rest);
      ghost var qn := Min(insize, |rest| - psize);
      ghost var P, Q := rest[..psize], rest[psize..psize + qn];
      R := rest[psize + qn..];
      SplitRun(next, done, listHead, mergedTail, p, rest, psize, qn);
      newHead, newTail, q, m := MergeRuns(listHead, mergedTail, p, q, psize, insize, done, P, Q, R);
      PassFront(cells, rest, insize, psize, qn);
      MergesStep(|rest|, insize, psize, qn, |R|);
    }

    /** The loop that steps insize places along from p: psize is the length
        of the run starting at p and q the node after it. */
    method StepAlong(p: int, insize: int, ghost rest: seq<int>) returns (q: int, psize: int)
      requires Chain(next, p, rest) && rest != [] && insize >= 1
      ensures psize == Min(insize, |rest|)
      ensures q == if psize < |rest| then rest[psize] else Null
    {
      q := p;
      psize := 0;
      var i := 0;
      while i < insize
        invariant 0 <= i <= insize && psize == i && i < |rest| && q == rest[i]
      {
        psize := psize + 1;
        if next[q] == Null {
          ChainEnd(next, p, rest, i);
        } else {
          ChainStep(next, p, rest, i);
        }
        q := next[q];
        if q == Null {
          break;
        }
        i := i + 1;
      }
    }

    /** The merge loop of list_sort: merges the run P of pLen nodes from
        pStart with the run Q of at most qLen nodes from qStart onto the
        merged list done, from listHead to mergedTail; R is the rest of the
        list behind Q. The branch bodies do the opposite of the comments
        beside them in the C code: when cmp(p, q) <= 0 the node is taken
        from q, otherwise from p. */
    method MergeRuns(listHead: int, mergedTail: int, pStart: int, qStart: int, pLen: int, qLen: int,
                     ghost done: seq<int>, ghost P: seq<int>, ghost Q: seq<int>, ghost R: seq<int>)
      returns (newHead: int, newTail: int, rest: int, ghost m: seq<int>)
      requires |cells| == |next|
      requires Merging(next, done, listHead, mergedTail, P, qStart, Q + R)
      requires |P| == pLen >= 1 && pStart == P[0]
      requires |Q| <= qLen && (|Q| == qLen || R == [])
      modifies this
      ensures cells == old(cells) && head == old(head) && tail == old(tail) && order == old(order)
      ensures |next| == |old(next)|
      ensures m == Merge(cells, P, Q)
      ensures Merging(next, done + m, newHead, newTail, [], rest, R)
    {
      ghost var cs := cells;
      var p, q, psize, qsize := pStart, qStart, pLen, qLen;
      newHead, newTail := listHead, mergedTail;
      ghost var Ps, Qs := P, Q;
      m := [];
      assert done + m == done;
      while psize > 0 || (qsize > 0 && q != Null)
        invariant cells == cs && head == old(head) && tail == old(tail) && order == old(order)
        invariant |next| == |cs|
        invariant psize == |Ps| && (Ps != [] ==> p == Ps[0])
        invariant |Qs| <= qsize && (|Qs| == qsize || R == [])
        invariant Merging(next, done + m, newHead, newTail, Ps, q, Qs + R)
        invariant m + Merge(cs, Ps, Qs) == Merge(cs, P, Q)
        decreases psize + qsize
      {
        var e;
        ghost var fromQ;
        ghost var d, q0 := done + m, q;
        if psize == 0 {
          e := q; q := next[q]; qsize := qsize - 1;
          fromQ := true;
        } else if qsize == 0 || q == Null {
          e := p; p := next[p]; psize := psize - 1;
          fromQ := false;
        } else if Cmp(cells[p], cells[q]) <= 0 {
          e := q; q := next[q]; qsize := qsize - 1;
          fromQ := true;
        } else {
          e := p; p := next[p]; psize := psize - 1;
          fromQ := false;
        }
        Take(next, d, newHead, newTail, Ps, q0, Qs + R, fromQ, e);
        MergeTake(cs, m, Ps, Qs, Merge(cs, P, Q), fromQ);
        if newTail != Null {
          next := next[newTail := e];
        } else {
          newHead := e;
        }
        newTail := e;
        AppendOne(done, m, e);
        m := m + [e];
        if fromQ {
          TailOfAppend(Qs, R);
          Qs := Qs[1..];
        } else {
          Ps := Ps[1..];
        }
      }
      assert Qs == [];
      assert Qs + R == R;
      rest := q;
    }

  }
}
