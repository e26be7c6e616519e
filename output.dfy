/** The grid lister of `src/output.rs`: hidden filter, sort and reverse on
    the collected paths, then one padded, coloured cell per entry, wrapped
    to the terminal width or laid out one per line with sizes. */
module Output {
  import opened Console
  import opened Listing
  import opened Order
  import opened Vecs

  function Max(a: int, b: int): int {
    if a < b then b else a
  }

  function Min(a: int, b: int): int {
    if a < b then a else b
  }

  lemma Associate<T>(a: seq<T>, b: seq<T>, c: seq<T>)
    ensures a + b + c == a + (b + c)
  {
  }

  // ---------------------------------------------------------------- padding

  function Spaces(n: nat): (r: string)
    ensures |r| == n
    ensures forall k :: 0 <= k < n ==> r[k] == ' '
  {
    seq(n, _ => ' ')
  }

  /** `s` padded on the right with spaces to at least `width` characters. */
  function Pad(s: string, width: nat): (r: string)
    ensures |r| == Max(|s|, width)
    ensures r[..|s|] == s
    ensures forall k :: |s| <= k < |r| ==> r[k] == ' '
    ensures |s| >= width ==> r == s
  {
    if |s| >= width then s else s + Spaces(width - |s|)
  }

  /** `right_pad`: pushes spaces onto a copy of `s` while it is shorter
      than `width`. */
  method RightPad(s: string, width: nat) returns (res: string)
    ensures res == Pad(s, width)
  {
    res := s;
    while |res| < width
      invariant |s| <= |res| <= Max(|s|, width)
      invariant res == s + Spaces(|res| - |s|)
      decreases width - |res|
    {
      res := res + [' '];
    }
  }

  // ------------------------------------------------------------ file sizes

  function DigitChar(d: nat): (c: char)
    requires d < 10
    ensures '0' <= c <= '9'
  {
    ('0' as int + d) as char
  }

  predicate IsDigits(s: string) {
    forall k :: 0 <= k < |s| ==> '0' <= s[k] <= '9'
  }

  /** The decimal rendering `{}` of a natural number. */
  function NatToDecimal(n: nat): (r: string)
    ensures |r| >= 1 && IsDigits(r)
    ensures r[0] == '0' ==> n == 0 && r == "0"
    decreases n
  {
    if n < 10 then [DigitChar(n)] else NatToDecimal(n / 10) + [DigitChar(n % 10)]
  }

  /** The number a string of decimal digits denotes. */
  function DecimalValue(s: string): nat
    requires IsDigits(s)
  {
    if s == [] then 0 else 10 * DecimalValue(s[..|s| - 1]) + (s[|s| - 1] as int - '0' as int)
  }

  /** Reading the decimal rendering back gives the number. */
  lemma {:induction false} DecimalRoundTrip(n: nat)
    ensures DecimalValue(NatToDecimal(n)) == n
  {
    if n >= 10 {
      DecimalRoundTrip(n / 10);
      var r := NatToDecimal(n);
      assert r[..|r| - 1] == NatToDecimal(n / 10);
    }
  }

  /** The unit ladder of `human_readable_filesize`. */
  const Units: seq<string> := ["B", "kB", "MB", "GB", "TB", "PB", "EB", "ZB", "YB"]

  function Pow(b: nat, e: nat): nat {
    if e == 0 then 1 else b * Pow(b, e - 1)
  }

  /** The largest exponent from `e` up to the top of the ladder whose power
      does not exceed `num`. */
  function ExponentFrom(num: nat, divisor: nat, e: nat): (r: nat)
    requires divisor >= 2 && e < |Units| && Pow(divisor, e) <= num
    ensures e <= r < |Units| && Pow(divisor, r) <= num
    ensures r + 1 < |Units| ==> num < Pow(divisor, r + 1)
    decreases |Units| - e
  {
    if e + 1 < |Units| && Pow(divisor, e + 1) <= num then ExponentFrom(num, divisor, e + 1) else e
  }

  /** `human_readable_filesize`. A size of zero has logarithm minus
      infinity, which the saturating cast turns into `i32::MIN`; cast to
      `usize` that exceeds the ladder, so the raw "0 B" is printed. Otherwise
      the exponent is floor(log(num) / log(divisor)), capped at the top of
      the ladder, and `mantissa(num, divisor^exponent)` is the floating-point
      text of the quotient rounded to two places. */
  function HumanReadableFilesize(num: nat, base1000: bool, mantissa: (nat, nat) -> string): (r: string)
    ensures num == 0 ==> r == "0 B"
  {
    var divisor := if base1000 then 1000 else 1024;
    if num == 0 then NatToDecimal(num) + " B"
    else
      var e := ExponentFrom(num, divisor, 0);
      mantissa(num, Pow(divisor, e)) + " " + Units[e]
  }

  /** The size column of one entry: its length in bytes, or in units. */
  function SizeText(len: nat, flags: Flags, mantissa: (nat, nat) -> string): string {
    if !flags.humanReadable then NatToDecimal(len) + " B"
    else HumanReadableFilesize(len, flags.base1000, mantissa)
  }

  // ---------------------------------------------------------------- layout

  /** The length of the longest name, 0 for no entries. */
  function LongestName(entries: seq<Entry>): (r: nat)
    ensures forall k :: 0 <= k < |entries| ==> |entries[k].name| <= r
    ensures entries == [] ==> r == 0
    ensures entries != [] ==> exists k :: 0 <= k < |entries| && |entries[k].name| == r
  {
    if entries == [] then 0
    else Max(LongestName(entries[..|entries| - 1]), |entries[|entries| - 1].name|)
  }

  /** The column width: the longest name and a two-space gap, but never
      wider than the terminal. */
  function BufferWidth(longest: nat, consoleWidth: nat): (w: nat)
    requires consoleWidth >= 1
    ensures 1 <= w <= consoleWidth && w <= longest + 2
    ensures w < longest + 2 ==> w == consoleWidth
  {
    Min(longest + 2, consoleWidth)
  }

  /** How many columns of `bufferWidth` fit in the terminal, at least one. */
  function EntriesPerLine(consoleWidth: nat, bufferWidth: nat): (r: nat)
    requires bufferWidth >= 1
    ensures r >= 1
    ensures bufferWidth <= consoleWidth ==> r * bufferWidth <= consoleWidth < (r + 1) * bufferWidth
    ensures bufferWidth > consoleWidth ==> r == 1
  {
    Max(consoleWidth / bufferWidth, 1)
  }

  /** The layout computed once per listing. */
  datatype Plan = Plan(width: nat, perLine: nat, count: nat, dense: bool)

  function PlanFor(entries: seq<Entry>, consoleWidth: nat): (p: Plan)
    requires consoleWidth >= 1
    ensures 1 <= p.width <= consoleWidth && p.perLine >= 1 && p.count == |entries|
    ensures p.dense <==> p.width * |entries| <= consoleWidth
  {
    var w := BufferWidth(LongestName(entries), consoleWidth);
    Plan(w, EntriesPerLine(consoleWidth, w), |entries|, w * |entries| <= consoleWidth)
  }

  /** The grid breaks the line after every `perLine`-th cell but the last. */
  predicate WrapAfter(i: nat, n: nat, perLine: nat)
    requires perLine >= 1
  {
    i % perLine == perLine - 1 && i != n - 1
  }

  // ----------------------------------------------------------------- cells

  function Emit(text: string, newline: bool): Event {
    if newline then WriteLn(text) else Write(text)
  }

  /** Any of the three execute bits (octal 111). */
  predicate Executable(e: Entry) {
    e.mode & 0x49 != 0
  }

  /** The colours `set_color` is called with for an entry, in the order
      made: red and bold for a missing entry; otherwise white, then blue for
      a directory, cyan for a symlink, green for an executable that is not a
      directory. */
  function ColorSteps(e: Entry): seq<Style> {
    if !e.present then [RedBold]
    else
      [WhitePlain]
        + (if e.isDir then [BlueBold] else [])
        + (if e.isSymlink then [CyanPlain] else [])
        + (if Executable(e) && !e.isDir then [GreenPlain] else [])
  }

  /** The text of the cell of an entry that exists: padded to its own width
      plus two when all columns fit densely, to the column width otherwise. */
  function CellText(e: Entry, plan: Plan): string {
    if plan.dense then Pad(e.name, |e.name| + 2) else Pad(e.name, plan.width)
  }

  function CellWrites(e: Entry, i: nat, plan: Plan, flags: Flags, mantissa: (nat, nat) -> string): seq<Event>
    requires plan.perLine >= 1
  {
    if !e.present then [Emit(Pad(e.name, plan.width), WrapAfter(i, plan.count, plan.perLine))]
    else if flags.showSize then
      [Write(Pad(SizeText(e.len, flags, mantissa), 10)), Emit(CellText(e, plan), i < plan.count - 1)]
    else [Emit(CellText(e, plan), WrapAfter(i, plan.count, plan.perLine))]
  }

  function CellEvents(e: Entry, i: nat, plan: Plan, flags: Flags, mantissa: (nat, nat) -> string): seq<Event>
    requires plan.perLine >= 1
  {
    SetColors(ColorSteps(e)) + CellWrites(e, i, plan, flags, mantissa)
  }

  /** The events of each cell, in the order of `entries`. */
  function Cells(entries: seq<Entry>, plan: Plan, flags: Flags, mantissa: (nat, nat) -> string): seq<seq<Event>>
    requires plan.perLine >= 1
  {
    seq(|entries|, i requires 0 <= i < |entries| => CellEvents(entries[i], i, plan, flags, mantissa))
  }

  /** Everything `write_dir_contents_to_buffer` writes for `entries`. */
  function DirContentsEvents(entries: seq<Entry>, flags: Flags, consoleWidth: nat, mantissa: (nat, nat) -> string): seq<Event>
    requires consoleWidth >= 1
  {
    Flatten(Cells(entries, PlanFor(entries, consoleWidth), flags, mantissa)) + [SetColor(WhitePlain)]
  }

  /** The `set_color` calls for an entry that exists. */
  method WriteColors(buffer: ColorBuffer, entry: Entry)
    modifies buffer
    requires entry.present
    ensures buffer.events == old(buffer.events) + SetColors(ColorSteps(entry))
  {
    ghost var steps := [WhitePlain];
    buffer.SetColor(WhitePlain);
    assert buffer.events == old(buffer.events) + SetColors(steps);
    if entry.isDir {
      SetColorsSnoc(steps, BlueBold);
      steps := steps + [BlueBold];
      buffer.SetColor(BlueBold);
    }
    if entry.isSymlink {
      SetColorsSnoc(steps, CyanPlain);
      steps := steps + [CyanPlain];
      buffer.SetColor(CyanPlain);
    }
    if entry.mode & 0x49 != 0 && !entry.isDir {
      SetColorsSnoc(steps, GreenPlain);
      steps := steps + [GreenPlain];
      buffer.SetColor(GreenPlain);
    }
    assert steps == ColorSteps(entry);
  }

  /** The body of the loop of `write_dir_contents_to_buffer` for the entry at
      index `i` of `n`; the early returns are the loop's `continue`s. */
  method WriteCell(buffer: ColorBuffer, entry: Entry, i: nat, n: nat, bufferWidth: nat,
                   entriesPerLine: nat, dense: bool, flags: Flags, mantissa: (nat, nat) -> string,
                   ghost plan: Plan)
    requires entriesPerLine >= 1 && plan == Plan(bufferWidth, entriesPerLine, n, dense)
    modifies buffer
    ensures buffer.events == old(buffer.events) + CellEvents(entry, i, plan, flags, mantissa)
  {
    var filename := entry.name;
    if !entry.present {
      buffer.SetColor(RedBold);
      assert [SetColor(RedBold)] == SetColors(ColorSteps(entry));
      var padded := RightPad(filename, bufferWidth);
      if i % entriesPerLine == entriesPerLine - 1 && i != n - 1 {
        buffer.WriteLn(padded);
      } else {
        buffer.Write(padded);
      }
      return;
    }
    WriteColors(buffer, entry);
    var outstr;
    if dense {
      outstr := RightPad(filename, |filename| + 2);
    } else {
      outstr := RightPad(filename, bufferWidth);
    }
    if flags.showSize {
      var fileSize := SizeText(entry.len, flags, mantissa);
      var sizeCell := RightPad(fileSize, 10);
      buffer.Write(sizeCell);
      if i < n - 1 {
        buffer.WriteLn(outstr);
      } else {
        buffer.Write(outstr);
      }
      return;
    }
    if i % entriesPerLine == entriesPerLine - 1 && i != n - 1 {
      buffer.WriteLn(outstr);
    } else {
      buffer.Write(outstr);
    }
  }

  /** The loop of `write_dir_contents_to_buffer`, one cell per entry. */
  method WriteCells(buffer: ColorBuffer, entries: seq<Entry>, bufferWidth: nat, entriesPerLine: nat,
                    dense: bool, flags: Flags, mantissa: (nat, nat) -> string, ghost plan: Plan)
    requires entriesPerLine >= 1 && plan == Plan(bufferWidth, entriesPerLine, |entries|, dense)
    modifies buffer
    ensures buffer.events == old(buffer.events) + Flatten(Cells(entries, plan, flags, mantissa))
  {
    ghost var cells := Cells(entries, plan, flags, mantissa);
    var n := |entries|;
    for i := 0 to n
      invariant buffer.events == old(buffer.events) + Flatten(cells[..i])
    {
      WriteCell(buffer, entries[i], i, n, bufferWidth, entriesPerLine, dense, flags, mantissa, plan);
      FlattenPrefix(cells, i);
      Associate(old(buffer.events), Flatten(cells[..i]), cells[i]);
    }
    assert cells[..n] == cells;
  }

  /** `write_dir_contents_to_buffer`. */
  method WriteDirContentsToBuffer(buffer: ColorBuffer, entries: seq<Entry>, flags: Flags,
                                  consoleWidth: nat, mantissa: (nat, nat) -> string)
    requires consoleWidth >= 1
    modifies buffer
    ensures buffer.events == old(buffer.events) + DirContentsEvents(entries, flags, consoleWidth, mantissa)
  {
    var longest := LongestName(entries);
    var bufferWidth := BufferWidth(longest, consoleWidth);
    var entriesPerLine := EntriesPerLine(consoleWidth, bufferWidth);
    var dense := bufferWidth * |entries| <= consoleWidth;
    ghost var plan := Plan(bufferWidth, entriesPerLine, |entries|, dense);
    assert plan == PlanFor(entries, consoleWidth);
    WriteCells(buffer, entries, bufferWidth, entriesPerLine, dense, flags, mantissa, plan);
    buffer.SetColor(WhitePlain);
  }

  // -------------------------------------------------------- print_entries

  /** The order `print_entries` lists a directory in: hidden entries
      dropped unless `all`, then sorted unless `unsorted`, then reversed if
      `reverse`. */
  function Listed(entries: seq<Entry>, flags: Flags): seq<Entry> {
    var kept := Kept(entries, flags.all);
    var ordered := if flags.unsorted then kept else SortByKey(kept, flags.caseSensitive);
    if flags.reverse then Reversed(ordered) else ordered
  }

  /** Everything `print_entries` writes for one directory. */
  function PrintEntriesEvents(entries: seq<Entry>, flags: Flags, consoleWidth: nat, mantissa: (nat, nat) -> string): seq<Event>
    requires consoleWidth >= 1
  {
    DirContentsEvents(Listed(entries, flags), flags, consoleWidth, mantissa) + [WriteLn("")]
  }

  /** The first half of `print_entries`: the entries collected into a
      vector, then filtered, sorted and reversed in place as the flags say. */
  method CollectListed(dirEntries: seq<Entry>, flags: Flags) returns (entries: seq<Entry>)
    ensures entries == Listed(dirEntries, flags)
  {
    var pathbufs := new EntryVec.FromSeq(dirEntries);
    if !flags.all {
      pathbufs.RetainVisible();
    }
    ghost var kept := pathbufs.Elements();
    assert kept == Kept(dirEntries, flags.all);
    if !flags.unsorted {
      pathbufs.Sort(flags.caseSensitive);
    }
    ghost var ordered := pathbufs.Elements();
    assert ordered == if flags.unsorted then kept else SortByKey(kept, flags.caseSensitive);
    if flags.reverse {
      pathbufs.Reverse();
    }
    entries := pathbufs.buf[..pathbufs.len];
  }

  /** `print_entries`, given the entries the directory read returned. */
  method PrintEntries(buffer: ColorBuffer, dirEntries: seq<Entry>, flags: Flags,
                      consoleWidth: nat, mantissa: (nat, nat) -> string)
    requires consoleWidth >= 1
    modifies buffer
    ensures buffer.events == old(buffer.events) + PrintEntriesEvents(dirEntries, flags, consoleWidth, mantissa)
  {
    var entries := CollectListed(dirEntries, flags);
    WriteDirContentsToBuffer(buffer, entries, flags, consoleWidth, mantissa);
    buffer.WriteLn("");
  }
}
