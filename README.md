# The read collapser of fast_trimming, modelled in Dafny

`colps` (fast_trimming/hash_collapser.c with fast_trimming/list_counts.c)
reads sequencing reads, cuts each one to a key of its first `MAX_SEQ_SIZE`
(10) bytes, and counts the keys in a string-keyed hash table. It then
copies the table into a singly-linked `list_count` of `(seq, count)` nodes,
sorts the list by count with `list_sort` (Simon Tatham's bottom-up merge
sort for linked lists), and writes the list as a `.dat` file.

The model has five modules:

- `Ranking` (ranking.dfy): the node payload `Entry`, the comparator `cmp`,
  and the order `list_sort` produces. `RankDesc` is that order, defined as
  the reverse of a stable ascending insertion sort by count.
- `MergeSort` (list_sort.dfy): `list_sort` as functions on the node ids of
  the list. These are one merge, one pass of run size `k`, and the doubling
  passes. The lemmas prove that the result is a permutation and that it
  equals `RankDesc`.
- `ListCounts` (list_counts.dfy): the list itself, as the class `ListCount`.
  - The nodes live in an arena. Node `n` has payload `cells[n]` and
    successor `next[n]`, and `Null` (-1) stands for `NULL`.
  - A ghost `order` lists the nodes from `head` to the end.
  - No key in the arena holds a NUL byte (`NulFreeKeys`, part of
    `Valid`), so comparing keys with `==` and writing them whole stand for
    `strcmp` and `%s`.
  - `set_seq`, `add_seq`, `set_head`, `list_sort` and the print routines
    are methods with the source's loops.
  - `list_sort` relinks `next` in place. It is proved against the
    `MergeSort` functions.
- `OutputText` (output_text.dfy): the text that `print_dat`, `print_fasta`
  and `print_list` write, as functions of the entries in list order, and a
  reader for the `.dat` text.
- `HashCollapser` (hash_collapser.dfy): the key of a read, the read loop of
  `main` over a `map<string, int>`, `transpose_hash`, and the pipeline from
  the read loop to `print_dat`.

In two places the code does not do what its comments say. The model
follows the code in each case.

- The comments at fast_trimming/list_counts.c:216-220 describe an
  ascending, stable merge, but the branch bodies are swapped:
  - `cmp(p, q) <= 0` takes from `q`, and otherwise the merge takes from `p`;
  - so the output has non-increasing counts, and nodes of equal count come
    out in the reverse of their input order;
  - so sorting is not idempotent: two sorts of a list of equal counts give
    back the original order (`Ranking.SortTwiceRestores`).
- The comment at fast_trimming/list_counts.c:112-113 says a sequence
  already stored only has its count incremented, but the walk compares the
  key only with the successors of each node (line 114), never with the
  head. A key held by the head alone is appended again. `add_seq` also
  never sets `tail`.

After `set_head(list_sort(...))` at fast_trimming/hash_collapser.c:145,
`tail` still names the node that was last before the sort: `list_sort`
relinks only `next` fields (fast_trimming/list_counts.c:169-245) and
`set_head` assigns only `head` (line 100). Nothing uses `tail` afterwards;
`print_dat` walks from `head`. The model's `SetHead` leaves `tail` as it
was.

## Model

| member | source | states |
|---|---|---|
| Ranking.Cmp | fast_trimming/list_counts.c:161-167 | cmp is -1, 0 or +1; it is negative exactly when a's count is smaller and positive exactly when it is larger |
| Ranking.CmpIgnoresKeys | fast_trimming/list_counts.c:161-167 | the keys play no part in cmp, and swapping the arguments negates it |
| Ranking.RankedUnique | fast_trimming/list_counts.c:206-231 | two orderings of the same nodes that both satisfy list_sort's order relation are equal, so that relation fixes the result |
| Ranking.SortedIsRankDesc | fast_trimming/list_counts.c:169-245 | any permutation of the list's nodes sorted by count descending, with equal counts in reverse input order, shows the entries RankDesc gives |
| Ranking.RankDescOrdered | fast_trimming/list_counts.c:215-221 | list_sort's order holds the same entries as its input, by non-increasing count |
| Ranking.RankDescSameCounts | fast_trimming/list_counts.c:215-218 | a list whose counts are all equal comes out reversed |
| Ranking.SortTwoAndOne | fast_trimming/list_counts.c:215-221 | two entries of different counts come out larger count first, whichever order they were in |
| Ranking.SortTwiceRestores | fast_trimming/list_counts.c:215-218 | sorting a list of equal counts twice gives back the list, and one sort changes it when its first and last entries differ: the sort is not idempotent |
| Ranking.SumCountsRankDesc | fast_trimming/list_counts.c:169-245 | sorting keeps the sum of the counts |
| MergeSort.MergeHeadQ | fast_trimming/list_counts.c:209-211 | the merge takes the head of q when p is empty, or when cmp(p, q) <= 0 (the swapped branch at lines 215-218) |
| MergeSort.MergeHeadP | fast_trimming/list_counts.c:212-214 | the merge takes the head of p when q is exhausted, or when cmp(p, q) > 0 (lines 219-221) |
| MergeSort.Merge | fast_trimming/list_counts.c:206-231 | the merge loop as a function of the two runs of node ids: it holds as many nodes as the two runs together, taking q's head when p is empty or cmp(p, q) <= 0 and p's head otherwise |
| MergeSort.Pass | fast_trimming/list_counts.c:191-236 | one pass with run size k as a function of the node order: merges each adjacent pair of runs of k and keeps the length of the list |
| MergeSort.SortFrom | fast_trimming/list_counts.c:184-244 | the doubling passes from run size k: stops after a pass with at most one merge, and keeps the length of the list |
| MergeSort.ListSort | fast_trimming/list_counts.c:169-245 | list_sort as a function of the node order: the empty list stays empty, any other starts the passes at insize 1; the length is kept |
| MergeSort.PassFront | fast_trimming/list_counts.c:191-235 | a pass merges the first run of min(insize, n) nodes with the at most insize nodes after it, then goes on from the node after those |
| MergeSort.Merges | fast_trimming/list_counts.c:189-192 | a pass over n > 0 nodes does at most one merge exactly when n <= 2 * insize, and none over an empty list |
| MergeSort.MergesStep | fast_trimming/list_counts.c:191-192 | each round of the pass loop counts one merge |
| MergeSort.MergePerm | fast_trimming/list_counts.c:206-231 | a merge holds the nodes of both runs, each once |
| MergeSort.PassPerm | fast_trimming/list_counts.c:191-235 | a pass keeps every node once |
| MergeSort.SortFromPerm | fast_trimming/list_counts.c:184-244 | the doubling passes keep every node once |
| MergeSort.ListSortPerm | fast_trimming/list_counts.c:169-245 | list_sort returns the nodes it was given, none added or lost |
| MergeSort.MergeOrdered | fast_trimming/list_counts.c:206-231 | merging two sorted runs, p from earlier input positions than q, gives a run sorted by count descending with equal counts in reverse input order |
| MergeSort.PassRuns | fast_trimming/list_counts.c:191-235 | a pass with run size k turns sorted runs of k nodes into sorted runs of 2k |
| MergeSort.FirstRuns | fast_trimming/list_counts.c:182 | with insize 1 every node is a sorted run of its own |
| MergeSort.SortFromOrdered | fast_trimming/list_counts.c:184-244 | the passes, stopping after one with at most one merge and doubling insize otherwise, end sorted |
| MergeSort.ListSortRankDesc | fast_trimming/list_counts.c:169-245 | list_sort's result is sorted by count descending with equal counts in reverse input order, and its entries are RankDesc of the input entries |
| ListCounts.ListCount.constructor | fast_trimming/list_counts.c:55-61 | init_list_counts: an empty list with head and tail NULL |
| ListCounts.ListCount.GetHead | fast_trimming/list_counts.c:51-53 | get_head is NULL exactly for the empty list and is the first node otherwise |
| ListCounts.ListCount.SetHead | fast_trimming/list_counts.c:99-101 | set_head: the list is the chain from the new head; no payload, link or tail changes |
| ListCounts.ListCount.NewNode | fast_trimming/list_counts.c:17-25 | init_seq_count needs strlen(sequence) < size for strcpy; it makes a node holding (sequence, count) with next NULL, and the list is as before |
| ListCounts.ListCount.SetSeq | fast_trimming/list_counts.c:82-96 | set_seq: the entries become old ++ [(seq, count)]; tail is the new last node, with next NULL; head changes only for an empty list |
| ListCounts.ListCount.AddSeq | fast_trimming/list_counts.c:103-127 | add_seq: the entries become AddedEntries(old, seq); the list keeps its nodes in order when a node after the head holds seq, and gains the new node at its end otherwise; tail never changes, and head changes only for an empty list |
| ListCounts.ListCount.Link | fast_trimming/list_counts.c:124 | `temp->next = new` after the last node (also line 93 of set_seq): the list gains the fresh node at its end, and its entries gain that node's payload |
| ListCounts.ListCount.Bump | fast_trimming/list_counts.c:115 | `temp->next->count++`: the node at position u counts one more read, and the list, its links, head and tail stay as they were |
| ListCounts.FirstKeyFrom | fast_trimming/list_counts.c:110-122 | the walk's stop: the first node at or after position `from` holding the key, or the end of the list |
| ListCounts.AddedEntries | fast_trimming/list_counts.c:103-127 | add_seq's effect on the entries: an empty list becomes [(seq, 1)]; otherwise the first node after the head holding seq counts one more, and without one (seq, 1) is appended |
| ListCounts.AddSeqFound | fast_trimming/list_counts.c:111-122 | when a node after the head holds seq, the first such node counts one more and no node is added |
| ListCounts.AddSeqNotFound | fast_trimming/list_counts.c:123-125 | when no node after the head holds seq, (seq, 1) is appended, even when the head holds seq |
| ListCounts.AddSeqCountsOne | fast_trimming/list_counts.c:103-127 | add_seq adds exactly one to the sum of the counts |
| ListCounts.ListCount.PrintDat | fast_trimming/list_counts.c:149-156 | print_dat writes "\n" + seq + " " + count for each node, in list order |
| ListCounts.ListCount.PrintFasta | fast_trimming/list_counts.c:139-147 | print_fasta writes "\n> " + count + "\n" + seq for each node, in list order |
| ListCounts.ListCount.PrintList | fast_trimming/list_counts.c:129-137 | print_list writes print_seq's line for each node whose count is not 1 |
| ListCounts.ListCount.Sort | fast_trimming/list_counts.c:169-245 | list_sort relinks only next fields: the returned chain is ListSort of the list, its entries are RankDesc of the old entries, and head, tail and payloads stay as they were |
| ListCounts.ListCount.MergePass | fast_trimming/list_counts.c:185-236 | one pass relinks the list into Pass(list, insize), ends it with NULL, and returns the number of merges |
| ListCounts.ListCount.MergeNext | fast_trimming/list_counts.c:191-235 | one round of the pass loop appends the merge of the next two runs and counts one merge |
| ListCounts.ListCount.StepAlong | fast_trimming/list_counts.c:193-200 | the stepping loop stops after min(insize, n) nodes, at the node after them or NULL |
| ListCounts.ListCount.MergeRuns | fast_trimming/list_counts.c:202-231 | the merge loop appends exactly Merge(p-run, q-run) to the merged list and leaves p at the start of the rest |
| OutputText.Dec | fast_trimming/list_counts.c:152 | %d writes digits, with a leading '-' for negative numbers, and never a blank or a newline |
| OutputText.ParseDecDec | fast_trimming/list_counts.c:152 | a count written with %d reads back as itself |
| OutputText.DecInjective | fast_trimming/list_counts.c:152 | different counts are written differently |
| OutputText.RenderAppend | fast_trimming/list_counts.c:149-156 | the text of a list is the text of its front followed by the text of its back |
| OutputText.DatLine | fast_trimming/list_counts.c:152 | print_dat's line for one node: "\n", the key, a blank, the count in %d |
| OutputText.FastaLine | fast_trimming/list_counts.c:142-143 | print_fasta's record for one node: "\n> ", the count, "\n", the key |
| OutputText.SeqLine | fast_trimming/list_counts.c:39 | print_seq's line: a blank, the key, a blank, the count, "\n" |
| OutputText.ListLine | fast_trimming/list_counts.c:132-133 | print_list's text for one node: SeqLine when its count is not 1, nothing otherwise |
| OutputText.Repeated | fast_trimming/list_counts.c:132 | an entry is kept exactly when it is in the list and its count is not 1 |
| OutputText.ListTextRepeated | fast_trimming/list_counts.c:129-137 | print_list's text is print_seq's line for exactly the nodes whose count is not 1, in list order |
| OutputText.ParseDatText | fast_trimming/list_counts.c:149-156 | the .dat text reads back as exactly the entries, in order, when no key holds a blank or a newline |
| HashCollapser.CString | fast_trimming/hash_collapser.c:62-63 | the string a NUL-padded buffer holds has no NUL, is a prefix of the buffer, and ends at the buffer's first NUL, so it is all of a NUL-free buffer |
| HashCollapser.Key | fast_trimming/hash_collapser.c:99 | a read's key has no NUL, has at most MAX_SEQ_SIZE bytes and is a prefix of the read; a shorter key stops at a NUL of the read; it is the first MAX_SEQ_SIZE bytes when they hold no NUL |
| HashCollapser.WrittenSizeOverflows | fast_trimming/hash_collapser.c:39 | as written, a read whose first 10 bytes hold no NUL has a 10-byte key, which does not fit the 10-byte node buffer with its NUL |
| HashCollapser.WrittenSizeExample | fast_trimming/hash_collapser.c:39 | the read ACGTACGTAC is such a read |
| HashCollapser.NodeSizeFits | fast_trimming/hash_collapser.c:62 | every key fits a buffer of MAX_SEQ_SIZE + 1 bytes, the size of temp |
| HashCollapser.TallyCounts | fast_trimming/hash_collapser.c:85-117 | after the loop the table holds exactly the keys read, each with its number of reads, which is at least 1 |
| HashCollapser.TallySnoc | fast_trimming/hash_collapser.c:101-116 | one more read counts one more for a key already there and adds the key with count 1 otherwise; no other entry changes |
| HashCollapser.Tally | fast_trimming/hash_collapser.c:85-117 | the table after the read loop, as a map from each key read to its number of reads (TallyCounts states its contents) |
| HashCollapser.CountRecords | fast_trimming/hash_collapser.c:66-117 | the read loop ends with the table Tally(keys) and n = number of reads, unless ht_create or an allocation for a new key fails; those are exactly the runs that exit through exit_nomem |
| HashCollapser.SumOccAll | fast_trimming/hash_collapser.c:85-117 | summed over keys that list every key read once, the counts give the number of reads |
| HashCollapser.TransposeHash | fast_trimming/hash_collapser.c:28-43 | transpose_hash appends one node (key, count) per key the iterator yields, in that order, and the list grows by the number of keys yielded |
| HashCollapser.Transposed | fast_trimming/hash_collapser.c:28-43 | the entries transpose_hash appends: (key, table[key]) for each key the iterator yields, in its order |
| HashCollapser.TransposedCounts | fast_trimming/hash_collapser.c:30-42 | after transposition the keys are pairwise distinct, every key read is there with its number of reads (at least 1), and the counts sum to the number of reads |
| HashCollapser.CollapsedCounts | fast_trimming/hash_collapser.c:145 | the list written out is a permutation of the transposed list: by non-increasing count, distinct keys, every key read, each with its number of reads, counts summing to the number of reads |
| HashCollapser.Collapsed | fast_trimming/hash_collapser.c:145-157 | the list print_dat writes: RankDesc of the transposed table of the reads |
| HashCollapser.Collapse | fast_trimming/hash_collapser.c:66-157 | main writes DatText of the sorted transposed table and has read every record, exactly when no allocation fails; otherwise it exits through exit_nomem |
| HashCollapser.CollapsedReadsBack | fast_trimming/hash_collapser.c:157 | when no key holds a blank or a newline, the written .dat text reads back as the sorted list |
| HashCollapser.TwoAndOne | fast_trimming/hash_collapser.c:99-157 | the reads AAAAAAAAAAX, AAAAAAAAAAY, TTTTTTTTTTZ are written as (AAAAAAAAAA, 2) then (TTTTTTTTTT, 1), in either iteration order: the larger count comes first |

## Left out

- I/O: `fopen`, `fclose`, the `FILE` argument of `print_dat` and
  `print_fasta`, `fprintf` to stdout and stderr, `fflush` and `sleep`. The
  print routines return the text they write.
- Progress output: the `floor` arithmetic on `double` at
  fast_trimming/hash_collapser.c:31-32 and the `n % 1000000` test at line 95
  only print `=`.
- FASTA/FASTQ parsing by kseq: the reads are a `seq<string>`. kseq is not
  part of this model.
- The `ht` hash table is not part of this model. It is a
  `map<string, int>`. Its iterator is a sequence `it` that lists every key
  once, in an order the caller chooses. `ht_length` feeds only the
  progress output.
- Allocation failure is a parameter:
  - `tableMade` says whether `ht_create` succeeds;
  - `room[i]` says whether both the `malloc` and the `ht_set` for a new key
    at read i succeed;
  - `exit_nomem` becomes the result `ExitNoMem`, without its message.
- The unchecked `malloc` calls in `init_seq_count` and
  `init_list_counts` are taken to succeed.
- Pointers are node ids in an arena owned by the list. The model does not
  capture aliasing between lists or nodes shared with other structures.
- Memory release: `free_seq_count`, `free_list`, `free_list_content`,
  `free(it.value)`, `ht_destroy` and `kseq_destroy` are not modelled.
- The commented-out `main` at fast_trimming/list_counts.c:256-317, and
  fast_trimming/list_counts.h, which holds only prototypes.
- Key: requires a read of at least `MAX_SEQ_SIZE` bytes, because the
  `memcpy` at fast_trimming/hash_collapser.c:99 copies 10 bytes whatever
  the read's length.
- CountRecords: counts and `n` are unbounded integers. The C `int`
  increments at fast_trimming/hash_collapser.c:86 and 105 would overflow
  past `INT_MAX` reads.
- ListCounts.ListCount.Sort: `insize` is unbounded. The C `insize *= 2` at
  fast_trimming/list_counts.c:243 would overflow only for lists of more
  than 2^31 nodes: it doubles only after a pass with more than one merge,
  that is when the list has more than 2 * insize nodes.
- ListCounts.ListCount.NewNode: `count` is an unbounded integer. `count++`
  in `add_seq` is likewise not bounded to `int`.
- print_seq is modelled only as the line `OutputText.SeqLine` that
  `print_list` writes through it.

## Findings

| source | as written | input that shows it | evidently intended | confidence | as-written member | corrected member |
|---|---|---|---|---|---|---|
| fast_trimming/hash_collapser.c:39 | `transpose_hash` passes `MAX_SEQ_SIZE` (10) as the node buffer size to `set_seq`. `init_seq_count` then `malloc`s 10 bytes and `strcpy`s the key into them | any read whose first 10 bytes hold no NUL, e.g. `ACGTACGTAC`: its key has 10 bytes, and `strcpy` writes 11 | a buffer of `MAX_SEQ_SIZE + 1` bytes, as `temp` has at line 62 | high (not executed) | HashCollapser.WrittenSizeOverflows | HashCollapser.TransposeHash |
