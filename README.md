# readdir: a verified model of the two directory listers

`readdir` is a small `ls`-like program. Its library has two listers. Both
take the entries of one already-read directory:

- `print_entries` (`src/output.rs`) is the grid lister. It collects the paths
  in a vector, drops hidden names unless `a` is given, and sorts case-sensitively
  (`c`) or by the lowercased path, unless `u` keeps the directory order. It
  reverses the result with `r`. `write_dir_contents_to_buffer` then writes one
  padded, coloured cell per entry. The cells are wrapped into rows that fit the
  terminal, or listed one per line after a size column with `s`. A missing
  entry is printed in red. The colour is reset to white at the end, and a final
  empty line follows.
- `write_to_stdout` (`src/lib.rs`) is the plain lister. It sorts the paths,
  reverses them with `r`, and drops hidden names unless `a` is given. It splits
  the rest into directories and other entries, then prints every directory
  name on a line in blue and bold, then every other name in white.

The model keeps the program's structure:

- `Console`: the events written to a colour-capable writer (`SetColor`,
  `Write`, `WriteLn`), and a `ColorBuffer` class that records them.
- `Listing`: the entry and flag records, and the hidden-name filter.
- `Order`: the string order on paths, the stable sort by a path key, and
  reversal.
- `Vecs`: the `Vec<PathBuf>` both listers mutate in place, as a class over an
  array with in-place `retain`, `sort` and `reverse`.
- `Output`: `src/output.rs` as methods that write to the buffer step by step,
  each proved equal to a function that describes the whole output.
- `Lib`: `src/lib.rs` in the same style.
- `OutputProperties` and `LibProperties`: what those output functions
  guarantee (line breaks, colours, order, membership).

Filesystem queries (`exists`, `is_dir`, `is_symlink`, the permission bits and
the length) are fields of each entry, filled in by the caller. The terminal
width is a parameter of at least 1. The text of a floating-point mantissa is a
caller-supplied function.

## Model

| member | source | states |
|---|---|---|
| Output.Pad | src/output.rs:173-179 | the padded string starts with `s`, continues with spaces only, has length max(len(s), width), and is `s` itself when `s` is already that wide |
| Output.RightPad | src/output.rs:173-179 | pushing spaces while the string is shorter than `width` yields exactly `Pad(s, width)` |
| Output.DecimalRoundTrip | src/output.rs:127 | reading back the decimal digits `{}` prints for a length gives the length |
| OutputProperties.SizeTextBytes | src/output.rs:125-127 | without `h` the size column is the length in canonical decimal digits (no leading zero unless it is "0") followed by " B" |
| OutputProperties.SizeCell | src/output.rs:125-138 | with `s` an entry that exists writes its size text padded to at least 10 characters, then its cell text, in that order, after its colours |
| Output.ExponentFrom | src/output.rs:183-185 | the unit exponent chosen is the largest one on the ladder (at most YB) whose power of the divisor does not exceed the size |
| Output.HumanReadableFilesize | src/output.rs:185-190 | a size of zero is printed as "0 B", through the guard on an exponent beyond the ladder |
| OutputProperties.ExponentUnique | src/output.rs:185 | exactly one exponent satisfies divisor^e <= size < divisor^(e+1) (or is the top unit), and it is the one chosen |
| OutputProperties.HumanReadableUnit | src/output.rs:182-194 | a nonzero size is printed as the mantissa for divisor^e, a space and the e-th unit, for that e and base 1000 or 1024 |
| OutputProperties.KilobyteExamples | src/output.rs:183-193 | 1536 bytes are written in kB in both bases, divided by 1024 or by 1000; 999 bytes in base 1000 stay in B |
| Output.LongestName | src/output.rs:76-79 | the result bounds every name length, is 0 for no entries, and is the length of some name otherwise |
| Output.BufferWidth | src/output.rs:81 | the column width lies in [1, consoleWidth], is at most longest + 2, and is less than that only when it equals the terminal width |
| Output.EntriesPerLine | src/output.rs:82 | at least one column; when a column fits, exactly as many as fit: perLine * width <= consoleWidth < (perLine + 1) * width |
| Output.PlanFor | src/output.rs:76-82 | the layout has a width in [1, consoleWidth], at least one cell per row, a cell count equal to the number of entries, and is dense iff width * count <= consoleWidth |
| Output.WriteColors | src/output.rs:103-115 | the colours are set white, then blue for a directory, cyan for a symlink, green for an executable that is not a directory, in that order |
| Output.WriteCell | src/output.rs:85-149 | one loop iteration writes exactly the cell events of the entry, missing and size-mode branches included |
| Output.WriteCells | src/output.rs:84-150 | the loop writes the cells of all entries, in order |
| Output.WriteDirContentsToBuffer | src/output.rs:57-154 | the buffer receives the cells computed with the layout of `PlanFor`, then a reset to white |
| OutputProperties.CellNewlines | src/output.rs:88-149 | a cell ends its line exactly when the grid wraps after it, or in size mode when it is not the last; the last cell never does |
| OutputProperties.GridNewlines | src/output.rs:143-149 | without `s`, n >= 1 cells produce exactly (n - 1) / perLine line breaks |
| OutputProperties.DenseIsOneLine | src/output.rs:118-122 | when width * n fits in the terminal, the grid has no line break |
| OutputProperties.SizeNewlines | src/output.rs:125-140 | with `s` and every entry present, n entries give n - 1 line breaks, one after each but the last |
| OutputProperties.CellTextShape | src/output.rs:117-122 | a cell is the name followed by spaces: exactly two when dense, up to the column width otherwise |
| OutputProperties.CellFinalColor | src/output.rs:103-115 | the last colour set for a cell is red bold when missing, else green for an executable non-directory, else cyan for a symlink, else blue for a directory, else white |
| OutputProperties.MissingCell | src/output.rs:87-98 | a missing entry is written the same whatever its metadata and flags: red bold, padded to the column width, wrapped as in the grid |
| OutputProperties.ListingEndsWhite | src/output.rs:151 | the colour ends white, and an empty listing writes only that reset |
| OutputProperties.PrintEntriesFinalLine | src/output.rs:49-51 | the printed lines are those of the listing followed by one empty line |
| Output.CollectListed | src/output.rs:14-43 | retaining, sorting and reversing the vector in place yields `Listed` of the entries read |
| Output.PrintEntries | src/output.rs:9-54 | the buffer receives the listing of the entries in `Listed` order, then an empty line |
| OutputProperties.ListedPermutation | src/output.rs:18-43 | sorting and reversing only rearrange the entries kept by the hidden filter |
| OutputProperties.ListedMembers | src/output.rs:18-21 | an entry is listed iff it was read and `a` is given or its name does not start with a dot |
| OutputProperties.ListedSorted | src/output.rs:24-37 | without `u` the listing is in ascending key order, or descending with `r` |
| OutputProperties.ListedStable | src/output.rs:28-36 | entries with equal keys keep the order in which they were read |
| OutputProperties.ListedIsTheStableOrder | src/output.rs:24-37 | every sorted order that keeps ties in read order is the listing's order |
| OutputProperties.ListedUnsorted | src/output.rs:23-24 | with `u` the read order is kept (reversed with `r`), is unchanged with `a`, and is a subsequence of what was read |
| OutputProperties.ListedReverse | src/output.rs:40-43 | with `r` the listing is the listing without `r`, backwards, and vice versa |
| Listing.FilterSubsequence | src/output.rs:20 | the filter keeps an order-preserving subsequence, holding exactly the entries that pass |
| Listing.FilterIdempotent | src/output.rs:20 | filtering twice is filtering once |
| Listing.FilterMultiset | src/output.rs:20 | the filter keeps every copy of an entry that passes and no copy of one that fails |
| Order.LessTotal | src/output.rs:26 | any two distinct paths are ordered one way or the other |
| Order.LessTransitive | src/output.rs:26 | the path order is transitive |
| Order.LowerChar | src/output.rs:33 | lowercasing changes exactly the ASCII capitals, adding 32 to the code point, and leaves no capital |
| Order.SortByKeySorted | src/output.rs:24-37 | the stable sort orders the entries by key |
| Order.SortByKeyPermutation | src/output.rs:24-37 | the stable sort is a permutation of its input |
| Order.SortByKeyStable | src/output.rs:28-36 | the stable sort keeps the order of the entries of every key |
| Order.SortByKeyUnique | src/output.rs:24-37 | any sorted permutation that keeps the entries of every key in order equals the stable sort |
| Order.ReversedInvolution | src/output.rs:41-43 | reversing twice restores the order |
| Order.FilterReversed | src/lib.rs:31-38 | filtering the reversed list is reversing the filtered list |
| Order.SubsequenceSorted | src/lib.rs:28-44 | dropping entries from a sorted list leaves it sorted |
| Vecs.CompactVisible | src/output.rs:20 | compacting the array keeps, at its front and in order, exactly the entries that are not hidden |
| Vecs.ReverseSlots | src/output.rs:42 | swapping from both ends reverses the first n slots |
| Vecs.EntryVec.FromSeq | src/output.rs:14-16 | the new vector holds the entries read, in order |
| Vecs.EntryVec.RetainVisible | src/output.rs:19-21 | `retain` leaves exactly the visible entries in the vector, in order |
| Vecs.EntryVec.Sort | src/output.rs:24-37 | sorting the buffer in place, by insertion, leaves it equal to the stable sort of its old contents |
| Vecs.EntryVec.SinkLast | src/output.rs:26-36 | moving one entry down past every greater key inserts it into the sorted prefix |
| Vecs.EntryVec.Reverse | src/output.rs:41-43 | `reverse` leaves the old contents backwards |
| Lib.SortedPaths | src/lib.rs:23-31 | the collected vector, sorted by path and reversed with `r`, is `PathOrder` of the entries |
| Lib.Partition | src/lib.rs:33-44 | the loop pushes exactly the kept directories onto `dirs` and the other kept entries onto `files`, each in visiting order |
| Lib.WriteNames | src/lib.rs:56-65 | each printing loop sets the colour and writes the name on a line, for every entry of its group |
| Lib.WriteToStdout | src/lib.rs:21-68 | the writer receives the directory lines and then the other lines, as `StdoutEvents` describes |
| LibProperties.NameLinesShape | src/lib.rs:56-65 | entry k of a group is printed as a colour change to the group's colour at position 2k and its name on a line at 2k + 1 |
| LibProperties.NameLinesLines | src/lib.rs:56-65 | the lines a group prints are its names, in order |
| LibProperties.StdoutLines | src/lib.rs:56-65 | the lines printed are all the directory names, then all the other names |
| LibProperties.PathOrderMultiset | src/lib.rs:28-31 | sorting and reversing only rearrange the entries read |
| LibProperties.StdoutPartition | src/lib.rs:36-44 | directories and other entries together are exactly the entries kept, with each copy printed once |
| LibProperties.StdoutCount | src/lib.rs:36-65 | one line is printed per kept entry, so one per entry with `a` |
| LibProperties.StdoutGroupsInOrder | src/lib.rs:28-44 | each group is an order-preserving subsequence of the sorted (or reversed) entries |
| LibProperties.StdoutShows | src/lib.rs:36-44 | an entry is printed as a directory iff it was read, is a directory and is not skipped as hidden; likewise for the other group |
| LibProperties.StdoutGroupsSorted | src/lib.rs:28 | without `r` both groups are in ascending path order |
| LibProperties.StdoutReverse | src/lib.rs:31 | with `r` each group is the group without `r`, backwards, and the directories still come first |
| LibProperties.StdoutNoHiddenNames | src/lib.rs:38 | without `a` no printed line starts with a dot |

## Left out

- Reading a directory (`fs::read_dir`), its errors and the `unwrap` calls on it (src/output.rs:14-16, src/lib.rs:23-27): the entries read are the input.
- The terminal width query `console_width` (src/output.rs:164-170): the width is a parameter of at least 1.
- `metadata()` failing, and errors from the writer: every `?` on them is taken to succeed, so the model has no error path for them.
- The floating-point text of a human-readable size (`ln`, `powi`, two-decimal formatting and parsing back): `mantissa(num, divisor^e)` is a parameter. For example, the code prints the parsed `f64` 1.0 as "1", so 1000 bytes in base 1000 read "1 kB".
- HumanReadableFilesize: its own contract states only the zero case. The unit chosen for a nonzero size is stated by HumanReadableUnit and ExponentUnique. The exponent is the exact integer floor of the logarithm; the model does not capture a rounding error in the floating-point `ln` quotient that picks a neighbouring exponent near an exact power.
- Unicode: `to_lowercase` is modelled as ASCII lowercasing, and name lengths count characters rather than UTF-8 bytes. Names that are not valid UTF-8 (the `unwrap_or("")` and `unwrap` calls) are not modelled.
- `PathBuf` ordering compares path components. The model orders paths as strings, which agrees for entries of a single directory, since they share their parent.
- The model describes `sort` and `sort_by` by the stable order they produce. The insertion sort in `Vecs.EntryVec.Sort` is not Rust's merge sort; `Order.SortByKeyUnique` shows that only one order meets that description.
- `usize` overflow in `length + 2`, `buffer_width * entries.len()` and the `i32` exponent: integers are unbounded.
- `args`, `run`, `write_str_to_buffer` and the binary's `main`: argument parsing, `canonicalize` and the per-directory header are outside the listers.
- Escape codes and `ColorSpec` details: a colour is an enumeration, with a bold flag.
- Behaviours a reader might not expect, kept as the code has them:
  - the classification order: a symlink to an executable is printed green, because the execute-bit test runs last;
  - the dense test is `buffer_width * n <= console_width`, not a sum of name widths;
  - a size of zero prints "0 B";
  - a missing entry in size mode is printed red in the grid layout, with no metadata error.
