/** What the grid lister promises about the text it prints: the units it
    picks, the line breaks of the grid and of the size listing, the colour of
    each cell, and the order of the entries. */
module OutputProperties {
  import opened Console
  import opened Listing
  import opened Order
  import opened Output

  // ------------------------------------------------------------ file sizes

  lemma {:induction false} PowPositive(b: nat, e: nat)
    requires b >= 1
    ensures Pow(b, e) >= 1
  {
    if e > 0 {
      PowPositive(b, e - 1);
    }
  }

  lemma {:induction false} PowMonotone(b: nat, e: nat, f: nat)
    requires b >= 1 && e <= f
    ensures Pow(b, e) <= Pow(b, f)
  {
    if e < f {
      PowMonotone(b, e, f - 1);
      PowPositive(b, f - 1);
    }
  }

  /** Only one exponent of the ladder has its power at most `num` and the next
      power above it, so that is the one the lister picks. */
  lemma ExponentUnique(num: nat, divisor: nat, e: nat)
    requires num >= 1 && divisor >= 2 && e < |Units| && Pow(divisor, e) <= num
    requires e + 1 < |Units| ==> num < Pow(divisor, e + 1)
    ensures ExponentFrom(num, divisor, 0) == e
  {
    PowPositive(divisor, 0);
    var r := ExponentFrom(num, divisor, 0);
    if r < e {
      PowMonotone(divisor, r + 1, e);
    } else if r > e {
      PowMonotone(divisor, e + 1, r);
    }
  }

  /** The human-readable size of a nonzero length is written in the largest
      unit not exceeding it, capped at yottabytes. */
  lemma HumanReadableUnit(num: nat, base1000: bool, mantissa: (nat, nat) -> string, e: nat)
    requires num >= 1 && e < |Units|
    requires Pow(if base1000 then 1000 else 1024, e) <= num
    requires e + 1 < |Units| ==> num < Pow(if base1000 then 1000 else 1024, e + 1)
    ensures HumanReadableFilesize(num, base1000, mantissa)
            == mantissa(num, Pow(if base1000 then 1000 else 1024, e)) + " " + Units[e]
  {
    ExponentUnique(num, if base1000 then 1000 else 1024, e);
  }

  /** 1536 bytes are 1.5 kibibytes, but 1.536 kilobytes. */
  lemma KilobyteExamples(mantissa: (nat, nat) -> string)
    ensures HumanReadableFilesize(1536, false, mantissa) == mantissa(1536, 1024) + " kB"
    ensures HumanReadableFilesize(1536, true, mantissa) == mantissa(1536, 1000) + " kB"
    ensures HumanReadableFilesize(999, true, mantissa) == mantissa(999, 1) + " B"
  {
    HumanReadableUnit(1536, false, mantissa, 1);
    HumanReadableUnit(1536, true, mantissa, 1);
    HumanReadableUnit(999, true, mantissa, 0);
  }

  /** Without `h` the size column is the length in decimal digits and " B". */
  lemma SizeTextBytes(len: nat, flags: Flags, mantissa: (nat, nat) -> string)
    requires !flags.humanReadable
    ensures SizeText(len, flags, mantissa) == NatToDecimal(len) + " B"
    ensures exists digits :: IsDigits(digits) && DecimalValue(digits) == len
                             && |digits| >= 1 && (digits[0] != '0' || digits == "0")
                             && SizeText(len, flags, mantissa) == digits + " B"
  {
    DecimalRoundTrip(len);
    var digits := NatToDecimal(len);
    assert SizeText(len, flags, mantissa) == digits + " B";
  }

  // ---------------------------------------------------------------- layout

  lemma MulStep(x: nat, p: nat)
    ensures (x + 1) * p == x * p + p
  {
  }

  lemma {:induction false} MulMonotone(x: nat, y: nat, p: nat)
    requires x <= y
    ensures x * p <= y * p
  {
    if x < y {
      MulMonotone(x, y - 1, p);
      MulStep(y - 1, p);
    }
  }

  /** Division is determined by quotient and remainder. */
  lemma DivOf(a: nat, p: nat, q: nat, r: nat)
    requires p >= 1 && a == q * p + r && r < p
    ensures a / p == q && a % p == r
  {
    var q', r' := a / p, a % p;
    assert a == q' * p + r';
    if q' > q {
      MulMonotone(q + 1, q', p);
      MulStep(q, p);
    } else if q' < q {
      MulMonotone(q' + 1, q, p);
      MulStep(q', p);
    }
  }

  /** One more cell adds a row exactly when it completes one. */
  lemma DivStep(k: nat, p: nat)
    requires p >= 1
    ensures (k + 1) / p == k / p + (if k % p == p - 1 then 1 else 0)
  {
    var q, r := k / p, k % p;
    if r == p - 1 {
      DivOf(k + 1, p, q + 1, 0);
    } else {
      DivOf(k + 1, p, q, r + 1);
    }
  }

  lemma MulLeDiv(w: nat, n: nat, c: nat)
    requires w >= 1 && w * n <= c
    ensures n <= c / w
  {
    var d := c - w * n;
    DivOf(c, w, n + d / w, d % w);
  }

  /** The line breaks a cell ends with: in the size listing an entry that
      exists ends its line unless it is the last one; every other cell ends
      the line when it completes a row of the grid, except the last. */
  function CellBreaks(e: Entry, i: nat, plan: Plan, flags: Flags): nat
    requires plan.perLine >= 1
  {
    if e.present && flags.showSize then (if i + 1 < plan.count then 1 else 0)
    else if WrapAfter(i, plan.count, plan.perLine) then 1 else 0
  }

  lemma CellNewlines(e: Entry, i: nat, plan: Plan, flags: Flags, mantissa: (nat, nat) -> string)
    requires plan.perLine >= 1
    ensures Newlines(CellEvents(e, i, plan, flags, mantissa)) == CellBreaks(e, i, plan, flags)
    ensures i + 1 == plan.count ==> CellBreaks(e, i, plan, flags) == 0
  {
    NewlinesAppend(SetColors(ColorSteps(e)), CellWrites(e, i, plan, flags, mantissa));
    NewlinesSetColors(ColorSteps(e));
  }

  lemma CellsNewlines(entries: seq<Entry>, plan: Plan, flags: Flags, mantissa: (nat, nat) -> string)
    requires plan.perLine >= 1
    ensures forall i :: 0 <= i < |entries| ==>
              Newlines(Cells(entries, plan, flags, mantissa)[i]) == CellBreaks(entries[i], i, plan, flags)
  {
    forall i | 0 <= i < |entries|
      ensures Newlines(Cells(entries, plan, flags, mantissa)[i]) == CellBreaks(entries[i], i, plan, flags)
    {
      CellNewlines(entries[i], i, plan, flags, mantissa);
    }
  }

  /** Groups that end a row every `p` groups, except the last group. */
  predicate GridBreaks(groups: seq<seq<Event>>, p: nat)
    requires p >= 1
  {
    forall i :: 0 <= i < |groups| ==> Newlines(groups[i]) == if WrapAfter(i, |groups|, p) then 1 else 0
  }

  /** The number of full rows of `p` among the first `k` groups. */
  function Rows(k: nat, p: nat): nat
    requires p >= 1
  {
    k / p
  }

  /** The rows before one more group, plus the break that group ends
      with, when it is not the last group. */
  lemma RowStep(before: nat, last: nat, k: nat, n: nat, p: nat)
    requires p >= 1 && k + 1 < n && before == Rows(k, p)
    requires last == if WrapAfter(k, n, p) then 1 else 0
    ensures before + last == Rows(k + 1, p)
  {
    DivStep(k, p);
  }

  lemma {:induction false} GridCountPrefix(groups: seq<seq<Event>>, p: nat, k: nat)
    requires p >= 1 && GridBreaks(groups, p) && k < |groups|
    ensures Newlines(Flatten(groups[..k])) == Rows(k, p)
  {
    if k > 0 {
      GridCountPrefix(groups, p, k - 1);
      FlattenPrefix(groups, k - 1);
      NewlinesAppend(Flatten(groups[..k - 1]), groups[k - 1]);
      RowStep(Newlines(Flatten(groups[..k - 1])), Newlines(groups[k - 1]), k - 1, |groups|, p);
    }
  }

  /** The listing ends a line after every full row but the last. */
  lemma GridCount(groups: seq<seq<Event>>, p: nat)
    requires p >= 1 && GridBreaks(groups, p) && groups != []
    ensures Newlines(Flatten(groups)) == (|groups| - 1) / p
  {
    var n := |groups|;
    GridCountPrefix(groups, p, n - 1);
    FlattenPrefix(groups, n - 1);
    NewlinesAppend(Flatten(groups[..n - 1]), groups[n - 1]);
    assert groups[..n] == groups;
  }

  /** Groups that each end a line, except the last. */
  predicate LineBreaks(groups: seq<seq<Event>>) {
    forall i :: 0 <= i < |groups| ==> Newlines(groups[i]) == if i + 1 < |groups| then 1 else 0
  }

  lemma {:induction false} LineCountPrefix(groups: seq<seq<Event>>, k: nat)
    requires LineBreaks(groups) && k < |groups|
    ensures Newlines(Flatten(groups[..k])) == k
  {
    if k > 0 {
      LineCountPrefix(groups, k - 1);
      FlattenPrefix(groups, k - 1);
      NewlinesAppend(Flatten(groups[..k - 1]), groups[k - 1]);
    }
  }

  lemma LineCount(groups: seq<seq<Event>>)
    requires LineBreaks(groups) && groups != []
    ensures Newlines(Flatten(groups)) == |groups| - 1
  {
    var n := |groups|;
    LineCountPrefix(groups, n - 1);
    FlattenPrefix(groups, n - 1);
    NewlinesAppend(Flatten(groups[..n - 1]), groups[n - 1]);
    assert groups[..n] == groups;
  }

  /** The final colour reset adds no line break. */
  lemma DirContentsNewlines(entries: seq<Entry>, flags: Flags, consoleWidth: nat, mantissa: (nat, nat) -> string)
    requires consoleWidth >= 1
    ensures Newlines(DirContentsEvents(entries, flags, consoleWidth, mantissa))
            == Newlines(Flatten(Cells(entries, PlanFor(entries, consoleWidth), flags, mantissa)))
  {
    NewlinesAppend(Flatten(Cells(entries, PlanFor(entries, consoleWidth), flags, mantissa)), [SetColor(WhitePlain)]);
  }

  /** Without sizes every cell breaks the line exactly where the grid wraps. */
  lemma CellsGrid(entries: seq<Entry>, plan: Plan, flags: Flags, mantissa: (nat, nat) -> string)
    requires plan.perLine >= 1 && plan.count == |entries| && !flags.showSize
    ensures GridBreaks(Cells(entries, plan, flags, mantissa), plan.perLine)
  {
    var cells := Cells(entries, plan, flags, mantissa);
    forall i | 0 <= i < |cells|
      ensures Newlines(cells[i]) == if WrapAfter(i, |cells|, plan.perLine) then 1 else 0
    {
      CellNewlines(entries[i], i, plan, flags, mantissa);
    }
  }

  /** The grid of `n` cells, `perLine` to a row, has (n - 1) / perLine line
      breaks: one after every full row but the last. */
  lemma GridNewlines(entries: seq<Entry>, flags: Flags, consoleWidth: nat, mantissa: (nat, nat) -> string)
    requires consoleWidth >= 1 && entries != [] && !flags.showSize
    ensures Newlines(DirContentsEvents(entries, flags, consoleWidth, mantissa))
            == (|entries| - 1) / PlanFor(entries, consoleWidth).perLine
  {
    var plan := PlanFor(entries, consoleWidth);
    CellsGrid(entries, plan, flags, mantissa);
    GridCount(Cells(entries, plan, flags, mantissa), plan.perLine);
    DirContentsNewlines(entries, flags, consoleWidth, mantissa);
  }

  /** When every column fits side by side at its own width, the whole
      listing is one line. */
  lemma DenseIsOneLine(entries: seq<Entry>, flags: Flags, consoleWidth: nat, mantissa: (nat, nat) -> string)
    requires consoleWidth >= 1 && !flags.showSize && PlanFor(entries, consoleWidth).dense
    ensures Newlines(DirContentsEvents(entries, flags, consoleWidth, mantissa)) == 0
  {
    if entries != [] {
      var plan := PlanFor(entries, consoleWidth);
      MulLeDiv(plan.width, |entries|, consoleWidth);
      GridNewlines(entries, flags, consoleWidth, mantissa);
      DivOf(|entries| - 1, plan.perLine, 0, |entries| - 1);
    } else {
      DirContentsNewlines(entries, flags, consoleWidth, mantissa);
    }
  }

  /** Every entry exists. */
  predicate AllPresent(entries: seq<Entry>) {
    forall m :: 0 <= m < |entries| ==> entries[m].present
  }

  /** With `s`, entries that exist are listed one per line. */
  lemma SizeNewlines(entries: seq<Entry>, flags: Flags, consoleWidth: nat, mantissa: (nat, nat) -> string)
    requires consoleWidth >= 1 && entries != [] && flags.showSize && AllPresent(entries)
    ensures Newlines(DirContentsEvents(entries, flags, consoleWidth, mantissa)) == |entries| - 1
  {
    var plan := PlanFor(entries, consoleWidth);
    var cells := Cells(entries, plan, flags, mantissa);
    CellsNewlines(entries, plan, flags, mantissa);
    assert LineBreaks(cells);
    LineCount(cells);
    DirContentsNewlines(entries, flags, consoleWidth, mantissa);
  }

  /** With `s` an entry that exists writes its colours, then its size text
      padded to at least ten characters, then its cell text, which ends the
      line unless the entry is the last. */
  lemma SizeCell(e: Entry, i: nat, plan: Plan, flags: Flags, mantissa: (nat, nat) -> string)
    requires plan.perLine >= 1 && e.present && flags.showSize
    ensures var ev := CellEvents(e, i, plan, flags, mantissa);
            var c := |ColorSteps(e)|;
            |ev| == c + 2
            && ev[..c] == SetColors(ColorSteps(e))
            && ev[c].Write? && |ev[c].text| == Max(|SizeText(e.len, flags, mantissa)|, 10)
            && ev[c].text[..|SizeText(e.len, flags, mantissa)|] == SizeText(e.len, flags, mantissa)
            && ev[c + 1].text == CellText(e, plan)
            && (ev[c + 1].WriteLn? <==> i + 1 < plan.count)
  {
    var c := |ColorSteps(e)|;
    var ev := CellEvents(e, i, plan, flags, mantissa);
    assert ev[..c] == SetColors(ColorSteps(e));
  }

  /** The text of a cell is the name followed by spaces: two when the
      listing is dense, up to the column width otherwise. */
  lemma CellTextShape(e: Entry, plan: Plan)
    ensures CellText(e, plan)[..|e.name|] == e.name
    ensures forall k :: |e.name| <= k < |CellText(e, plan)| ==> CellText(e, plan)[k] == ' '
    ensures |CellText(e, plan)| == if plan.dense then |e.name| + 2 else Max(|e.name|, plan.width)
  {
  }

  // ---------------------------------------------------------------- colour

  /** The colour a cell is written in: red and bold for an entry that does
      not exist; otherwise the last colour set wins, so green for an
      executable that is not a directory, then cyan for a symlink, then blue
      and bold for a directory, and white for everything else. */
  function CellStyle(e: Entry): Style {
    if !e.present then RedBold
    else if Executable(e) && !e.isDir then GreenPlain
    else if e.isSymlink then CyanPlain
    else if e.isDir then BlueBold
    else WhitePlain
  }

  lemma ColorStepsLast(e: Entry)
    ensures ColorSteps(e) != [] && ColorSteps(e)[|ColorSteps(e)| - 1] == CellStyle(e)
  {
  }

  lemma CellFinalColor(e: Entry, i: nat, plan: Plan, flags: Flags, mantissa: (nat, nat) -> string)
    requires plan.perLine >= 1
    ensures LastColor(CellEvents(e, i, plan, flags, mantissa)) == Some(CellStyle(e))
  {
    ColorStepsLast(e);
    LastColorAppend(SetColors(ColorSteps(e)), CellWrites(e, i, plan, flags, mantissa));
    SetColorsLast(ColorSteps(e));
  }

  /** A missing entry is printed the same whatever its metadata and the
      flags: red, padded to the column width, as in the grid. */
  lemma MissingCell(e: Entry, d: Entry, i: nat, plan: Plan, flags: Flags, other: Flags,
                    mantissa: (nat, nat) -> string, mantissa': (nat, nat) -> string)
    requires plan.perLine >= 1 && !e.present && !d.present && e.name == d.name
    ensures CellEvents(e, i, plan, flags, mantissa) == CellEvents(d, i, plan, other, mantissa')
    ensures CellEvents(e, i, plan, flags, mantissa)
            == [SetColor(RedBold), Emit(Pad(e.name, plan.width), WrapAfter(i, plan.count, plan.perLine))]
  {
  }

  /** Every listing ends by resetting the colour to white; an empty one
      consists of that reset alone. */
  lemma ListingEndsWhite(entries: seq<Entry>, flags: Flags, consoleWidth: nat, mantissa: (nat, nat) -> string)
    requires consoleWidth >= 1
    ensures LastColor(DirContentsEvents(entries, flags, consoleWidth, mantissa)) == Some(WhitePlain)
    ensures entries == [] ==> DirContentsEvents(entries, flags, consoleWidth, mantissa) == [SetColor(WhitePlain)]
  {
  }

  // ----------------------------------------------------------------- order

  /** Sorting and reversing only rearrange the entries kept. */
  lemma ListedPermutation(entries: seq<Entry>, flags: Flags)
    ensures multiset(Listed(entries, flags)) == multiset(Kept(entries, flags.all))
  {
    var kept := Kept(entries, flags.all);
    var ordered := if flags.unsorted then kept else SortByKey(kept, flags.caseSensitive);
    SortByKeyPermutation(kept, flags.caseSensitive);
    ReversedMultiset(ordered);
  }

  /** An entry is listed exactly when it was read and either `a` is given or
      its name does not start with a dot. */
  lemma ListedMembers(entries: seq<Entry>, flags: Flags, e: Entry)
    ensures e in Listed(entries, flags) <==> e in entries && (flags.all || !Hidden(e))
  {
    ListedPermutation(entries, flags);
    assert e in Listed(entries, flags) <==> e in multiset(Listed(entries, flags));
    FilterSubsequence(entries, NotHidden);
  }

  /** Unless `u` is given the listing is sorted by the sort key, ascending,
      or descending with `r`. */
  lemma ListedSorted(entries: seq<Entry>, flags: Flags)
    requires !flags.unsorted
    ensures flags.reverse ==> Sorted(Reversed(Listed(entries, flags)), flags.caseSensitive)
    ensures !flags.reverse ==> Sorted(Listed(entries, flags), flags.caseSensitive)
  {
    var sorted := SortByKey(Kept(entries, flags.all), flags.caseSensitive);
    SortByKeySorted(Kept(entries, flags.all), flags.caseSensitive);
    ReversedInvolution(sorted);
  }

  /** The sort is stable: entries with equal keys keep the order read. */
  lemma ListedStable(entries: seq<Entry>, flags: Flags, k: string)
    requires !flags.unsorted && !flags.reverse
    ensures KeyClass(Listed(entries, flags), k, flags.caseSensitive)
            == KeyClass(Kept(entries, flags.all), k, flags.caseSensitive)
  {
    SortByKeyStable(Kept(entries, flags.all), k, flags.caseSensitive);
  }

  /** Any order that is sorted and keeps ties in the order read is the
      listing's order: the stable sort is determined by these two facts. */
  lemma ListedIsTheStableOrder(entries: seq<Entry>, flags: Flags, t: seq<Entry>)
    requires !flags.unsorted && !flags.reverse
    requires Sorted(t, flags.caseSensitive)
    requires SameKeyClasses(t, Kept(entries, flags.all), flags.caseSensitive)
    ensures t == Listed(entries, flags)
  {
    SortByKeyUnique(Kept(entries, flags.all), t, flags.caseSensitive);
  }

  /** With `u` the order read is kept, or reversed with `r`; with `a` too
      nothing is dropped. */
  lemma ListedUnsorted(entries: seq<Entry>, flags: Flags)
    requires flags.unsorted
    ensures Listed(entries, flags) == if flags.reverse then Reversed(Kept(entries, flags.all)) else Kept(entries, flags.all)
    ensures flags.all && !flags.reverse ==> Listed(entries, flags) == entries
    ensures !flags.reverse ==> IsSubsequence(Listed(entries, flags), entries)
  {
    if !flags.all {
      FilterSubsequence(entries, NotHidden);
    } else {
      SubsequenceRefl(entries);
    }
  }

  /** Reversing is the last step: `r` is the unreversed listing backwards. */
  lemma ListedReverse(entries: seq<Entry>, flags: Flags)
    requires flags.reverse
    ensures Listed(entries, flags) == Reversed(Listed(entries, flags.(reverse := false)))
    ensures Reversed(Listed(entries, flags)) == Listed(entries, flags.(reverse := false))
  {
    ReversedInvolution(Listed(entries, flags.(reverse := false)));
  }

  /** `print_entries` ends with one empty line after the listing. */
  lemma PrintEntriesFinalLine(entries: seq<Entry>, flags: Flags, consoleWidth: nat, mantissa: (nat, nat) -> string)
    requires consoleWidth >= 1
    ensures Lines(PrintEntriesEvents(entries, flags, consoleWidth, mantissa))
            == Lines(DirContentsEvents(Listed(entries, flags), flags, consoleWidth, mantissa)) + [""]
    ensures Listed(entries, flags) == [] ==> PrintEntriesEvents(entries, flags, consoleWidth, mantissa)
                                             == [SetColor(WhitePlain), WriteLn("")]
  {
    var body := DirContentsEvents(Listed(entries, flags), flags, consoleWidth, mantissa);
    LinesAppend(body, [WriteLn("")]);
    assert [WriteLn("")][..0] == [];
  }
}
