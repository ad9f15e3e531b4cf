// The collapser of hash_collapser.c: every read is cut to a key of at most
// MAX_SEQ_SIZE bytes, the keys are counted in a string-keyed table, the
// table is drained into a list_count, the list is sorted by list_sort and
// written out by print_dat.
//
// The hash table is a map from key to count; the order in which its
// iterator yields the keys is a parameter. Whether ht_create and each
// allocation succeed is a parameter too.

module HashCollapser {
  import opened Ranking
  import opened OutputText
  import opened ListCounts

  /** MAX_SEQ_SIZE: the number of leading bytes of a read that form its key. */
  const MaxSeqSize: int := 10

  /** The buffer size transpose_hash passes to set_seq, as written. */
  const WrittenNodeSize: int := MaxSeqSize

  /** A buffer size that holds every key and its terminating NUL. */
  const NodeSize: int := MaxSeqSize + 1

  // -------------------------------------------------------------------------
  // Keys.

  /** The C string a buffer holds: its bytes up to the first NUL. */
  function CString(buf: string): (s: string)
    ensures NulFree(s) && s <= buf
    ensures |s| < |buf| ==> buf[|s|] == '\0'
    ensures NulFree(buf) ==> s == buf
  {
    buf[..FirstIndex(buf, '\0')]
  }

  /** The key of a read: the MAX_SEQ_SIZE bytes memcpy copies into temp,
      read as a C string (temp[MAX_SEQ_SIZE] stays NUL). The copy is
      unchecked, so a read must have at least MAX_SEQ_SIZE bytes. */
  function Key(read: string): (k: string)
    requires |read| >= MaxSeqSize
    ensures NulFree(k) && |k| <= MaxSeqSize && k <= read
    ensures |k| < MaxSeqSize ==> read[|k|] == '\0'
    ensures NulFree(read[..MaxSeqSize]) ==> k == read[..MaxSeqSize]
  {
    var k := CString(read[..MaxSeqSize]);
    assert k == read[..|k|];
    k
  }

  predicate Readable(records: seq<string>) {
    forall i :: 0 <= i < |records| ==> |records[i]| >= MaxSeqSize
  }

  function Keys(records: seq<string>): seq<string>
    requires Readable(records)
  {
    seq(|records|, i requires 0 <= i < |records| => Key(records[i]))
  }

  /** strcpy of s into a buffer of size bytes writes s and its NUL inside
      the buffer. */
  predicate CopyFits(s: string, size: int) {
    |s| < size
  }

  /** As written, transpose_hash gives every node a buffer of MAX_SEQ_SIZE
      bytes, and a read whose first MAX_SEQ_SIZE bytes hold no NUL has a key
      of MAX_SEQ_SIZE bytes: strcpy then writes its NUL past the buffer. */
  lemma WrittenSizeOverflows(read: string)
    requires |read| >= MaxSeqSize && NulFree(read[..MaxSeqSize])
    ensures |Key(read)| == MaxSeqSize && !CopyFits(Key(read), WrittenNodeSize)
  {
  }

  /** One such read. */
  lemma WrittenSizeExample()
    ensures !CopyFits(Key("ACGTACGTAC"), WrittenNodeSize)
  {
    WrittenSizeOverflows("ACGTACGTAC");
  }

  /** Every key fits a buffer of MAX_SEQ_SIZE + 1 bytes. */
  lemma NodeSizeFits(read: string)
    requires |read| >= MaxSeqSize
    ensures CopyFits(Key(read), NodeSize) && NulFree(Key(read))
  {
  }

  // -------------------------------------------------------------------------
  // Counting.

  /** The table after counting the keys ks: each key that occurs, with the
      number of its occurrences. */
  function Tally(ks: seq<string>): map<string, int> {
    map k | k in ks :: multiset(ks)[k]
  }

  /** The table holds exactly the keys read, each with a count of at least
      one: the number of its reads. */
  lemma TallyCounts(ks: seq<string>)
    ensures forall k :: k in Tally(ks) <==> k in ks
    ensures forall k :: k in Tally(ks) ==> Tally(ks)[k] == multiset(ks)[k] >= 1
  {
  }

  /** One more read of key k: an entry already there counts one more, a
      missing one is added with count 1, and no other entry changes. */
  lemma TallySnoc(ks: seq<string>, k: string)
    ensures Tally(ks + [k]) == Tally(ks)[k := if k in Tally(ks) then Tally(ks)[k] + 1 else 1]
  {
    var a := Tally(ks + [k]);
    var b := Tally(ks)[k := if k in Tally(ks) then Tally(ks)[k] + 1 else 1];
    assert multiset(ks + [k]) == multiset(ks) + multiset{k};
    forall x ensures x in a <==> x in b {
      assert x in ks + [k] <==> x in ks || x == k;
    }
    assert a.Keys == b.Keys;
  }

  /** The loop's step at read i, in terms of the table so far. */
  lemma CountStep(ks: seq<string>, i: int, table: map<string, int>)
    requires 0 <= i < |ks| && table == Tally(ks[..i])
    ensures ks[i] in table <==> !FirstOfKey(ks, i)
    ensures ks[i] in table ==> Tally(ks[..i + 1]) == table[ks[i] := table[ks[i]] + 1]
    ensures ks[i] !in table ==> Tally(ks[..i + 1]) == table[ks[i] := 1]
  {
    assert ks[..i + 1] == ks[..i] + [ks[i]];
    TallyCounts(ks[..i]);
    TallySnoc(ks[..i], ks[i]);
  }

  datatype Counting = Counted(table: map<string, int>, n: int) | CountNoMem

  /** Record i is the first read of its key: the loop finds no entry for it
      and allocates one. */
  predicate FirstOfKey(ks: seq<string>, i: int)
    requires 0 <= i < |ks|
  {
    ks[i] !in ks[..i]
  }

  /** Every allocation the loop makes succeeds; room[i] says whether the
      allocations made for record i would. */
  predicate Allocates(ks: seq<string>, room: seq<bool>)
    requires |room| == |ks|
  {
    AllocatesUpTo(ks, room, |ks|)
  }

  /** The allocations for the first n reads all succeed. */
  predicate AllocatesUpTo(ks: seq<string>, room: seq<bool>, n: int)
    requires |room| == |ks| && 0 <= n <= |ks|
  {
    forall i :: 0 <= i < n && FirstOfKey(ks, i) ==> room[i]
  }

  lemma AllocatesStep(ks: seq<string>, room: seq<bool>, n: int)
    requires |room| == |ks| && 0 <= n < |ks| && AllocatesUpTo(ks, room, n)
    ensures AllocatesUpTo(ks, room, n + 1) <==> (FirstOfKey(ks, n) ==> room[n])
  {
  }

  /** The read loop of main: counts the keys of the reads in a table. The
      run ends through exit_nomem when ht_create fails or an allocation for
      a new key does. */
  method CountRecords(records: seq<string>, tableMade: bool, room: seq<bool>) returns (r: Counting)
    requires Readable(records) && |room| == |records|
    ensures r.Counted? <==> tableMade && Allocates(Keys(records), room)
    ensures r.Counted? ==> r.table == Tally(Keys(records)) && r.n == |records|
  {
    if !tableMade {
      return CountNoMem;
    }
    ghost var ks := Keys(records);
    var table: map<string, int> := map[];
    var n := 0;
    var i := 0;
    while i < |records|
      invariant 0 <= i <= |records| && n == i
      invariant table == Tally(ks[..i])
      invariant AllocatesUpTo(ks, room, i)
    {
      n := n + 1;
      var key := Key(records[i]);
      assert key == ks[i];
      CountStep(ks, i, table);
      AllocatesStep(ks, room, i);
      if key in table {
        table := table[key := table[key] + 1];
      } else {
        if !room[i] {
          return CountNoMem;
        }
        table := table[key := 1];
      }
      i := i + 1;
    }
    assert ks[..i] == ks;
    return Counted(table, n);
  }

  // -------------------------------------------------------------------------
  // The counts add up to the number of reads.

  predicate NoDup(it: seq<string>) {
    forall i, j :: 0 <= i < j < |it| ==> it[i] != it[j]
  }

  /** The iterator yields every key of ks exactly once. */
  predicate Enumerates(it: seq<string>, ks: seq<string>) {
    && NoDup(it)
    && (forall i :: 0 <= i < |it| ==> it[i] in ks)
    && (forall k :: k in ks ==> k in it)
  }

  /** The number of reads of ks counted under the keys it. */
  function SumOcc(it: seq<string>, ks: seq<string>): int {
    if it == [] then 0 else multiset(ks)[it[0]] + SumOcc(it[1..], ks)
  }

  lemma {:induction false} SumOccNone(it: seq<string>)
    ensures SumOcc(it, []) == 0
  {
    if it != [] {
      SumOccNone(it[1..]);
    }
  }

  lemma {:induction false} SumOccSnoc(it: seq<string>, ks: seq<string>, k: string)
    requires NoDup(it)
    ensures SumOcc(it, ks + [k]) == SumOcc(it, ks) + (if k in it then 1 else 0)
  {
    if it != [] {
      var tl := it[1..];
      assert NoDup(tl) by {
        forall i, j | 0 <= i < j < |tl| ensures tl[i] != tl[j] {
          assert tl[i] == it[i + 1] && tl[j] == it[j + 1];
        }
      }
      SumOccSnoc(tl, ks, k);
      assert multiset(ks + [k]) == multiset(ks) + multiset{k};
      assert it == [it[0]] + tl;
      if k == it[0] {
        forall i | 0 <= i < |tl| ensures tl[i] != k {
          assert tl[i] == it[i + 1];
        }
      }
    }
  }

  /** Over keys that list every key of ks once, the counts sum to |ks|. */
  lemma {:induction false} SumOccAll(it: seq<string>, ks: seq<string>)
    requires NoDup(it) && forall k :: k in ks ==> k in it
    ensures SumOcc(it, ks) == |ks|
    decreases |ks|
  {
    if ks == [] {
      SumOccNone(it);
    } else {
      var init, last := ks[..|ks| - 1], ks[|ks| - 1];
      assert ks == init + [last];
      SumOccAll(it, init);
      SumOccSnoc(it, init, last);
    }
  }

  // -------------------------------------------------------------------------
  // Transposition.

  /** The entries transpose_hash appends: one per key the iterator yields,
      in that order, with the key's count. */
  function Transposed(table: map<string, int>, it: seq<string>): seq<Entry>
    requires forall i :: 0 <= i < |it| ==> it[i] in table
  {
    seq(|it|, i requires 0 <= i < |it| => Entry(it[i], table[it[i]]))
  }

  lemma TransposedPrefix(table: map<string, int>, it: seq<string>, i: int)
    requires forall j :: 0 <= j < |it| ==> it[j] in table
    requires 0 <= i < |it|
    ensures Transposed(table, it[..i + 1]) == Transposed(table, it[..i]) + [Entry(it[i], table[it[i]])]
  {
  }

  lemma TransposedTail(table: map<string, int>, it: seq<string>)
    requires forall j :: 0 <= j < |it| ==> it[j] in table
    requires it != []
    ensures Transposed(table, it)[1..] == Transposed(table, it[1..])
  {
  }

  /** A key shaped as Key makes it: no NUL, at most MAX_SEQ_SIZE bytes. */
  predicate KeyShaped(k: string) {
    NulFree(k) && |k| <= MaxSeqSize
  }

  /** transpose_hash: appends one node per key the iterator yields, holding
      the key and its count, in iteration order. Each node's buffer has
      NodeSize bytes; WrittenSizeOverflows shows why the size as written
      does not do. */
  method TransposeHash(lc: ListCount, table: map<string, int>, it: seq<string>)
    requires lc.Valid() && (lc.head != Null ==> lc.tail in lc.order)
    requires forall i :: 0 <= i < |it| ==> it[i] in table
    requires forall k :: k in table ==> KeyShaped(k)
    modifies lc
    ensures lc.Valid() && (lc.head != Null ==> lc.tail in lc.order)
    ensures lc.Entries() == old(lc.Entries()) + Transposed(table, it)
    ensures |lc.order| == |old(lc.order)| + |it|
  {
    var i := 0;
    while i < |it|
      invariant 0 <= i <= |it|
      invariant lc.Valid() && (lc.head != Null ==> lc.tail in lc.order)
      invariant lc.Entries() == old(lc.Entries()) + Transposed(table, it[..i])
      invariant |lc.order| == |old(lc.order)| + i
    {
      var key := it[i];
      lc.SetSeq(key, NodeSize, table[key]);
      TransposedPrefix(table, it, i);
      i := i + 1;
    }
    assert it[..i] == it;
  }

  lemma {:induction false} SumCountsTransposed(ks: seq<string>, it: seq<string>)
    requires forall i :: 0 <= i < |it| ==> it[i] in ks
    ensures SumCounts(Transposed(Tally(ks), it)) == SumOcc(it, ks)
  {
    if it != [] {
      SumCountsTransposed(ks, it[1..]);
      TransposedTail(Tally(ks), it);
    }
  }

  /** After transposition the list holds each key read exactly once, with
      the number of its reads, and the counts sum to the number of reads. */
  lemma TransposedCounts(ks: seq<string>, it: seq<string>)
    requires Enumerates(it, ks)
    ensures var es := Transposed(Tally(ks), it);
      && (forall i, j :: 0 <= i < j < |es| ==> es[i].key != es[j].key)
      && (forall i :: 0 <= i < |es| ==> es[i].key in ks && es[i].count == multiset(ks)[es[i].key] >= 1)
      && (forall k :: k in ks ==> exists i :: 0 <= i < |es| && es[i].key == k)
      && SumCounts(es) == |ks|
  {
    var es := Transposed(Tally(ks), it);
    forall k | k in ks ensures exists i :: 0 <= i < |es| && es[i].key == k {
      var i :| 0 <= i < |it| && it[i] == k;
      assert es[i].key == k;
    }
    SumCountsTransposed(ks, it);
    SumOccAll(it, ks);
  }

  lemma MultisetTwice(es: seq<Entry>, i: int, j: int)
    requires 0 <= i < j < |es| && es[i] == es[j]
    ensures multiset(es)[es[i]] >= 2
  {
    assert es == es[..i] + [es[i]] + es[i + 1..j] + [es[j]] + es[j + 1..];
  }

  lemma {:induction false} MultisetOnce(es: seq<Entry>, x: Entry)
    requires forall i, j :: 0 <= i < j < |es| ==> es[i].key != es[j].key
    ensures multiset(es)[x] <= 1
  {
    if es != [] {
      var tl := es[1..];
      MultisetOnce(tl, x);
      assert es == [es[0]] + tl;
      if es[0] == x {
        forall i | 0 <= i < |tl| ensures tl[i] != x {
          assert tl[i] == es[i + 1];
        }
      }
    }
  }

  /** A reordering of entries with distinct keys has distinct keys, and
      each side's entries occur on the other side. */
  lemma PermutedEntries(t: seq<Entry>, es: seq<Entry>)
    requires multiset(es) == multiset(t)
    requires forall u, v :: 0 <= u < v < |t| ==> t[u].key != t[v].key
    ensures forall i :: 0 <= i < |es| ==> es[i] in t
    ensures forall u :: 0 <= u < |t| ==> t[u] in es
    ensures forall i, j :: 0 <= i < j < |es| ==> es[i].key != es[j].key
  {
    forall i | 0 <= i < |es| ensures es[i] in t {
      assert es[i] in multiset(t);
    }
    forall u | 0 <= u < |t| ensures t[u] in es {
      assert t[u] in multiset(es);
    }
    forall i, j | 0 <= i < j < |es| ensures es[i].key != es[j].key {
      if es[i].key == es[j].key {
        assert es[i] in multiset(t) && es[j] in multiset(t);
        var u :| 0 <= u < |t| && t[u] == es[i];
        var v :| 0 <= v < |t| && t[v] == es[j];
        assert u == v;
        MultisetTwice(es, i, j);
        MultisetOnce(t, es[i]);
      }
    }
  }

  // -------------------------------------------------------------------------
  // The pipeline of main.

  /** The entries print_dat writes: the table in iteration order, put in
      list_sort's order. */
  ghost function Collapsed(records: seq<string>, it: seq<string>): seq<Entry>
    requires Readable(records) && Enumerates(it, Keys(records))
  {
    RankDesc(Transposed(Tally(Keys(records)), it))
  }

  /** The written list holds every key read exactly once, with the number
      of its reads, by non-increasing count; the counts sum to the number
      of reads. */
  lemma CollapsedCounts(records: seq<string>, it: seq<string>)
    requires Readable(records) && Enumerates(it, Keys(records))
    ensures var ks, es := Keys(records), Collapsed(records, it);
      && CountsDescending(es)
      && multiset(es) == multiset(Transposed(Tally(ks), it))
      && (forall i, j :: 0 <= i < j < |es| ==> es[i].key != es[j].key)
      && (forall i :: 0 <= i < |es| ==> es[i].key in ks && es[i].count == multiset(ks)[es[i].key] >= 1)
      && (forall k :: k in ks ==> exists i :: 0 <= i < |es| && es[i].key == k)
      && SumCounts(es) == |records|
  {
    var ks := Keys(records);
    var t := Transposed(Tally(ks), it);
    TransposedCounts(ks, it);
    SortedCounts(ks, t);
  }

  /** The facts of TransposedCounts carry over to list_sort's order. */
  lemma SortedCounts(ks: seq<string>, t: seq<Entry>)
    requires forall i, j :: 0 <= i < j < |t| ==> t[i].key != t[j].key
    requires forall u :: 0 <= u < |t| ==> t[u].key in ks && t[u].count == multiset(ks)[t[u].key] >= 1
    requires forall k :: k in ks ==> exists u :: 0 <= u < |t| && t[u].key == k
    requires SumCounts(t) == |ks|
    ensures var es := RankDesc(t);
      && CountsDescending(es)
      && multiset(es) == multiset(t)
      && (forall i, j :: 0 <= i < j < |es| ==> es[i].key != es[j].key)
      && (forall i :: 0 <= i < |es| ==> es[i].key in ks && es[i].count == multiset(ks)[es[i].key] >= 1)
      && (forall k :: k in ks ==> exists i :: 0 <= i < |es| && es[i].key == k)
      && SumCounts(es) == |ks|
  {
    var es := RankDesc(t);
    RankDescOrdered(t);
    SumCountsRankDesc(t);
    PermutedEntries(t, es);
    PermutedCounts(ks, t, es);
  }

  /** Reordering keeps each entry's count the number of reads of its key,
      and keeps every key read. */
  lemma PermutedCounts(ks: seq<string>, t: seq<Entry>, es: seq<Entry>)
    requires forall i :: 0 <= i < |es| ==> es[i] in t
    requires forall u :: 0 <= u < |t| ==> t[u] in es
    requires forall u :: 0 <= u < |t| ==> t[u].key in ks && t[u].count == multiset(ks)[t[u].key] >= 1
    requires forall k :: k in ks ==> exists u :: 0 <= u < |t| && t[u].key == k
    ensures forall i :: 0 <= i < |es| ==> es[i].key in ks && es[i].count == multiset(ks)[es[i].key] >= 1
    ensures forall k :: k in ks ==> exists i :: 0 <= i < |es| && es[i].key == k
  {
    forall i | 0 <= i < |es| ensures es[i].key in ks && es[i].count == multiset(ks)[es[i].key] >= 1 {
      var u :| 0 <= u < |t| && t[u] == es[i];
    }
    forall k | k in ks ensures exists i :: 0 <= i < |es| && es[i].key == k {
      var u :| 0 <= u < |t| && t[u].key == k;
      var i :| 0 <= i < |es| && es[i] == t[u];
    }
  }

  /** A run of main: the text written to the output file and the number of
      reads, or the exit through exit_nomem. */
  datatype Run = Done(text: string, readCount: int) | ExitNoMem

  /** main from the read loop to print_dat. tableMade says whether
      ht_create succeeds, room[i] whether the allocations for read i would,
      and it is the order in which the table's iterator yields its keys. */
  method Collapse(records: seq<string>, tableMade: bool, room: seq<bool>, it: seq<string>) returns (r: Run)
    requires Readable(records) && |room| == |records|
    requires Enumerates(it, Keys(records))
    ensures r.Done? <==> tableMade && Allocates(Keys(records), room)
    ensures r.Done? ==> r.readCount == |records| && r.text == DatText(Collapsed(records, it))
  {
    var counted := CountRecords(records, tableMade, room);
    if counted.CountNoMem? {
      return ExitNoMem;
    }
    ghost var ks := Keys(records);
    TallyCounts(ks);
    forall k | k in counted.table ensures KeyShaped(k) {
      var i :| 0 <= i < |ks| && ks[i] == k;
    }
    var lc := new ListCount();
    TransposeHash(lc, counted.table, it);
    assert lc.Entries() == Transposed(counted.table, it);
    var sortedHead, sorted := lc.Sort();
    lc.SetHead(sortedHead, sorted);
    var text := lc.PrintDat();
    return Done(text, counted.n);
  }

  /** When no key holds a blank or a newline, the written .dat text reads
      back as the written list. */
  lemma CollapsedReadsBack(records: seq<string>, it: seq<string>)
    requires Readable(records) && Enumerates(it, Keys(records))
    requires forall i :: 0 <= i < |records| ==> PlainKey(Key(records[i]))
    ensures ParseDat(DatText(Collapsed(records, it))) == Some(Collapsed(records, it))
  {
    var ks := Keys(records);
    var es := Collapsed(records, it);
    CollapsedCounts(records, it);
    forall i | 0 <= i < |es| ensures PlainKey(es[i].key) {
      var u :| 0 <= u < |ks| && ks[u] == es[i].key;
    }
    ParseDatText(es);
  }

  /** Three reads, two of one key: whatever order the table yields its
      keys in, the key read twice is written first. */
  lemma TwoAndOne(it: seq<string>)
    requires it == ["AAAAAAAAAA", "TTTTTTTTTT"] || it == ["TTTTTTTTTT", "AAAAAAAAAA"]
    ensures var records := ["AAAAAAAAAAX", "AAAAAAAAAAY", "TTTTTTTTTTZ"];
      && Readable(records) && Enumerates(it, Keys(records))
      && Collapsed(records, it) == [Entry("AAAAAAAAAA", 2), Entry("TTTTTTTTTT", 1)]
  {
    var records := ["AAAAAAAAAAX", "AAAAAAAAAAY", "TTTTTTTTTTZ"];
    KeysTwoAndOne(records);
    TallyTwoAndOne("AAAAAAAAAA", "TTTTTTTTTT");
    TransposeTwoAndOne(it);
  }

  lemma TransposeTwoAndOne(it: seq<string>)
    requires it == ["AAAAAAAAAA", "TTTTTTTTTT"] || it == ["TTTTTTTTTT", "AAAAAAAAAA"]
    ensures var a, t := "AAAAAAAAAA", "TTTTTTTTTT";
      && Enumerates(it, [a, a, t])
      && (forall i :: 0 <= i < |it| ==> it[i] in map[a := 2, t := 1])
      && RankDesc(Transposed(map[a := 2, t := 1], it)) == [Entry(a, 2), Entry(t, 1)]
  {
    var a, t := "AAAAAAAAAA", "TTTTTTTTTT";
    var e, f := Entry(a, 2), Entry(t, 1);
    SortTwoAndOne(e, f);
    if it == [a, t] {
      assert Transposed(map[a := 2, t := 1], it) == [e, f];
    } else {
      assert Transposed(map[a := 2, t := 1], it) == [f, e];
    }
  }

  lemma KeysTwoAndOne(records: seq<string>)
    requires records == ["AAAAAAAAAAX", "AAAAAAAAAAY", "TTTTTTTTTTZ"]
    ensures Readable(records) && Keys(records) == ["AAAAAAAAAA", "AAAAAAAAAA", "TTTTTTTTTT"]
  {
    assert records[0][..MaxSeqSize] == "AAAAAAAAAA" && records[1][..MaxSeqSize] == "AAAAAAAAAA";
    assert records[2][..MaxSeqSize] == "TTTTTTTTTT";
  }

  lemma TallyTwoAndOne(a: string, t: string)
    requires a != t
    ensures Tally([a, a, t]) == map[a := 2, t := 1]
  {
    var ks := [a, a, t];
    assert multiset(ks) == multiset{a, a, t};
    assert multiset(ks)[a] == 2 && multiset(ks)[t] == 1;
    assert Tally(ks).Keys == {a, t};
  }
}
