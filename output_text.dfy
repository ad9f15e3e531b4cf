// The text the print routines of list_counts.c write for a list of entries,
// as functions of the entries in list order, and the reading back of a
// .dat file.

module OutputText {
  import opened Ranking

  datatype Option<T> = None | Some(value: T)

  // -------------------------------------------------------------------------
  // printf's %d.

  predicate IsDigit(c: char) {
    '0' <= c <= '9'
  }

  predicate AllDigits(s: string) {
    forall i :: 0 <= i < |s| ==> IsDigit(s[i])
  }

  function DigitChar(d: int): (c: char)
    requires 0 <= d < 10
    ensures IsDigit(c)
  {
    (48 + d) as char
  }

  /** The decimal digits of n, most significant first, without leading
      zeros. */
  function Digits(n: nat): (s: string)
    ensures |s| >= 1 && AllDigits(s)
  {
    if n < 10 then [DigitChar(n)] else Digits(n / 10) + [DigitChar(n % 10)]
  }

  /** %d: a minus sign for a negative value, then the digits. */
  function Dec(n: int): (s: string)
    ensures s != [] && ' ' !in s && '\n' !in s
    ensures n >= 0 ==> AllDigits(s)
    ensures n < 0 ==> s[0] == '-' && AllDigits(s[1..])
  {
    var s := if n < 0 then "-" + Digits(-n) else Digits(n);
    assert forall i :: 0 <= i < |s| ==> s[i] == '-' || IsDigit(s[i]);
    s
  }

  /** The value of a string of decimal digits. */
  function DigitsValue(s: string): nat
    requires AllDigits(s)
  {
    if s == [] then 0
    else DigitsValue(s[..|s| - 1]) * 10 + (s[|s| - 1] as int - 48)
  }

  /** Reads back a number written with %d. */
  function ParseDec(s: string): Option<int> {
    if s == [] then None
    else if s[0] == '-' then
      if |s| > 1 && AllDigits(s[1..]) then Some(0 - DigitsValue(s[1..])) else None
    else if AllDigits(s) then Some(DigitsValue(s))
    else None
  }

  lemma {:induction false} DigitsValueDigits(n: nat)
    ensures DigitsValue(Digits(n)) == n
  {
    if n >= 10 {
      DigitsValueDigits(n / 10);
      var s := Digits(n);
      assert s[..|s| - 1] == Digits(n / 10);
    }
  }

  /** %d loses nothing: the number reads back as it was written. */
  lemma ParseDecDec(n: int)
    ensures ParseDec(Dec(n)) == Some(n)
  {
    if n < 0 {
      DigitsValueDigits(-n);
      assert Dec(n)[1..] == Digits(-n);
    } else {
      DigitsValueDigits(n);
      assert Digits(n)[0] != '-';
    }
  }

  /** Two different numbers are never written the same. */
  lemma DecInjective(m: int, n: int)
    requires Dec(m) == Dec(n)
    ensures m == n
  {
    ParseDecDec(m);
    ParseDecDec(n);
  }

  // -------------------------------------------------------------------------
  // The lines of each print routine, and the text of a whole list.

  /** print_dat's line for one node: "\n%s %d". */
  function DatLine(e: Entry): string {
    "\n" + e.key + " " + Dec(e.count)
  }

  /** print_fasta's record for one node: "\n> %d" then "\n%s". */
  function FastaLine(e: Entry): string {
    "\n> " + Dec(e.count) + "\n" + e.key
  }

  /** print_seq's line for one node: " %s %d\n". */
  function SeqLine(e: Entry): string {
    " " + e.key + " " + Dec(e.count) + "\n"
  }

  /** print_list prints a node only when its count is not 1. */
  function ListLine(e: Entry): string {
    if e.count != 1 then SeqLine(e) else ""
  }

  /** The lines of es written one after the other, in list order. */
  function Render(es: seq<Entry>, line: Entry -> string): string {
    if es == [] then "" else Render(es[..|es| - 1], line) + line(es[|es| - 1])
  }

  function DatText(es: seq<Entry>): string {
    Render(es, DatLine)
  }

  function FastaText(es: seq<Entry>): string {
    Render(es, FastaLine)
  }

  function ListText(es: seq<Entry>): string {
    Render(es, ListLine)
  }

  /** The text of a list is the text of its front followed by the text of
      its back. */
  lemma {:induction false} RenderAppend(a: seq<Entry>, b: seq<Entry>, line: Entry -> string)
    ensures Render(a + b, line) == Render(a, line) + Render(b, line)
    decreases |b|
  {
    if b != [] {
      var b' := b[..|b| - 1];
      assert a + b != [];
      assert (a + b)[..|a + b| - 1] == a + b';
      var x := line(b[|b| - 1]);
      assert (a + b)[|a + b| - 1] == b[|b| - 1];
      RenderAppend(a, b', line);
      assert Render(a, line) + Render(b', line) + x == Render(a, line) + (Render(b', line) + x);
    } else {
      assert a + b == a;
    }
  }

  /** One more node writes one more line. */
  lemma RenderSnoc(es: seq<Entry>, e: Entry, line: Entry -> string)
    ensures Render(es + [e], line) == Render(es, line) + line(e)
  {
    assert (es + [e])[..|es|] == es;
  }

  lemma RenderOne(e: Entry, line: Entry -> string)
    ensures Render([e], line) == line(e)
  {
    assert [e][..0] == [];
  }

  /** The nodes print_list shows: those whose count is not 1. */
  function Repeated(es: seq<Entry>): (r: seq<Entry>)
    ensures forall e :: e in r <==> e in es && e.count != 1
  {
    if es == [] then []
    else
      var r := Repeated(es[..|es| - 1]);
      assert es == es[..|es| - 1] + [es[|es| - 1]];
      if es[|es| - 1].count != 1 then r + [es[|es| - 1]] else r
  }

  /** print_list's text is print_seq's line for each node whose count is not
      1, in list order. */
  lemma {:induction false} ListTextRepeated(es: seq<Entry>)
    ensures ListText(es) == Render(Repeated(es), SeqLine)
  {
    if es != [] {
      var init, last := es[..|es| - 1], es[|es| - 1];
      ListTextRepeated(init);
      if last.count != 1 {
        RenderAppend(Repeated(init), [last], SeqLine);
        RenderOne(last, SeqLine);
      }
    }
  }

  // -------------------------------------------------------------------------
  // Reading a .dat file back.

  /** Position of the last occurrence of c in s, or -1. */
  function LastIndex(s: string, c: char): (i: int)
    ensures -1 <= i < |s|
    ensures i >= 0 ==> s[i] == c
    ensures forall j :: i < j < |s| ==> s[j] != c
  {
    if s == [] then -1
    else if s[|s| - 1] == c then |s| - 1
    else LastIndex(s[..|s| - 1], c)
  }

  /** Position of the first occurrence of c in s, or |s|. */
  function FirstIndex(s: string, c: char): (i: int)
    ensures 0 <= i <= |s|
    ensures i < |s| ==> s[i] == c
    ensures forall j :: 0 <= j < i ==> s[j] != c
  {
    if s == [] then 0
    else if s[0] == c then 0
    else 1 + FirstIndex(s[1..], c)
  }

  lemma FirstIndexAt(s: string, c: char, j: int)
    requires 0 <= j < |s| && s[j] == c && c !in s[..j]
    ensures FirstIndex(s, c) == j
  {
  }

  /** One line "%s %d" of a .dat file, split at its first blank. */
  function ParseDatLine(line: string): Option<Entry> {
    var j := FirstIndex(line, ' ');
    if j == |line| then None
    else match ParseDec(line[j + 1..])
      case None => None
      case Some(c) => Some(Entry(line[..j], c))
  }

  /** Reads a .dat file: each entry is introduced by a newline. */
  function ParseDat(s: string): Option<seq<Entry>>
    decreases |s|
  {
    if s == [] then Some([])
    else
      var i := LastIndex(s, '\n');
      if i < 0 then None
      else match (ParseDat(s[..i]), ParseDatLine(s[i + 1..]))
        case (Some(es), Some(e)) => Some(es + [e])
        case _ => None
  }

  /** A key print_dat can write so that it reads back: no blank and no
      newline in it. */
  predicate PlainKey(k: string) {
    ' ' !in k && '\n' !in k
  }

  lemma ParseDatLineWritten(e: Entry)
    requires PlainKey(e.key)
    ensures ParseDatLine(e.key + " " + Dec(e.count)) == Some(e)
  {
    var line := e.key + " " + Dec(e.count);
    var j := |e.key|;
    FirstIndexAt(line, ' ', j);
    assert line[j + 1..] == Dec(e.count);
    assert line[..j] == e.key;
    ParseDecDec(e.count);
  }

  /** The last line of a text whose last line holds no newline. */
  lemma SplitLastLine(a: string, line: string)
    requires '\n' !in line
    ensures LastIndex(a + "\n" + line, '\n') == |a|
    ensures (a + "\n" + line)[..|a|] == a && (a + "\n" + line)[|a| + 1..] == line
  {
    var s := a + "\n" + line;
    assert s[|a|] == '\n';
    assert forall i :: |a| < i < |s| ==> s[i] == line[i - |a| - 1];
  }

  /** Reading a text whose last line holds no newline: the text before it,
      then that line. */
  lemma ParseDatStep(a: string, line: string)
    requires '\n' !in line
    ensures ParseDat(a + "\n" + line) ==
      match (ParseDat(a), ParseDatLine(line))
        case (Some(es), Some(e)) => Some(es + [e])
        case _ => None
  {
    SplitLastLine(a, line);
  }

  lemma DatTextSnoc(es: seq<Entry>)
    requires es != []
    ensures DatText(es) == DatText(es[..|es| - 1]) + "\n" + (es[|es| - 1].key + " " + Dec(es[|es| - 1].count))
  {
    var e := es[|es| - 1];
    assert DatLine(e) == "\n" + (e.key + " " + Dec(e.count));
  }

  /** The .dat text lists exactly the entries, in list order, when no key
      holds a blank or a newline. */
  lemma {:induction false} ParseDatText(es: seq<Entry>)
    requires forall i :: 0 <= i < |es| ==> PlainKey(es[i].key)
    ensures ParseDat(DatText(es)) == Some(es)
  {
    if es != [] {
      var init, last := es[..|es| - 1], es[|es| - 1];
      ParseDatText(init);
      DatTextSnoc(es);
      ParseDatStep(DatText(init), last.key + " " + Dec(last.count));
      ParseDatLineWritten(last);
      assert es == init + [last];
    }
  }
}
