/** The plain lister of `src/lib.rs`: every entry of a directory on a line
    of its own, directories first in blue and bold, then the other entries
    in white, each group in path order. */
module Lib {
  import opened Console
  import opened Listing
  import opened Order
  import opened Vecs

  /** The entries sorted by path, then reversed with `r`. */
  function PathOrder(entries: seq<Entry>, reverse: bool): seq<Entry> {
    if reverse then Reversed(SortByKey(entries, true)) else SortByKey(entries, true)
  }

  /** The entries shown, in the order the partition loop visits them. */
  function Shown(entries: seq<Entry>, flags: Flags): seq<Entry> {
    Kept(PathOrder(entries, flags.reverse), flags.all)
  }

  function DirsOf(s: seq<Entry>): seq<Entry> {
    Filter(s, IsDirectory)
  }

  function FilesOf(s: seq<Entry>): seq<Entry> {
    Filter(s, NotDirectory)
  }

  /** One `set_color` and one `writeln!` of the name per entry. */
  function NameLines(s: seq<Entry>, style: Style): seq<Event> {
    if s == [] then []
    else NameLines(s[..|s| - 1], style) + [SetColor(style), WriteLn(s[|s| - 1].name)]
  }

  /** Everything `write_to_stdout` writes for a directory. */
  function StdoutEvents(entries: seq<Entry>, flags: Flags): seq<Event> {
    NameLines(DirsOf(Shown(entries, flags)), BlueBold) + NameLines(FilesOf(Shown(entries, flags)), WhitePlain)
  }

  lemma NameLinesPrefix(s: seq<Entry>, i: nat, style: Style)
    requires i < |s|
    ensures NameLines(s[..i + 1], style) == NameLines(s[..i], style) + [SetColor(style), WriteLn(s[i].name)]
  {
    assert s[..i + 1][..i] == s[..i];
  }

  /** One more entry read extends the directories or the other entries,
      unless it is skipped as hidden. */
  lemma PartitionStep(s: seq<Entry>, i: nat, all: bool)
    requires i < |s|
    ensures DirsOf(Kept(s[..i + 1], all))
            == DirsOf(Kept(s[..i], all)) + (if (all || !Hidden(s[i])) && s[i].isDir then [s[i]] else [])
    ensures FilesOf(Kept(s[..i + 1], all))
            == FilesOf(Kept(s[..i], all)) + (if (all || !Hidden(s[i])) && !s[i].isDir then [s[i]] else [])
  {
    var entry, before := s[i], Kept(s[..i], all);
    FilterPrefix(s, i, NotHidden);
    assert s[..i + 1] == s[..i] + [entry];
    if all || !Hidden(entry) {
      assert Kept(s[..i + 1], all) == before + [entry];
      FilterAppend(before, [entry], IsDirectory);
      FilterAppend(before, [entry], NotDirectory);
      assert [entry][..0] == [];
    } else {
      assert Kept(s[..i + 1], all) == before;
      assert DirsOf(before) + [] == DirsOf(before);
      assert FilesOf(before) + [] == FilesOf(before);
    }
  }

  /** The loop of `write_to_stdout` that pushes each entry that is not
      skipped as hidden onto `dirs` or `files`. */
  method Partition(allEntries: seq<Entry>, all: bool) returns (dirs: seq<Entry>, files: seq<Entry>)
    ensures dirs == DirsOf(Kept(allEntries, all))
    ensures files == FilesOf(Kept(allEntries, all))
  {
    dirs, files := [], [];
    for i := 0 to |allEntries|
      invariant dirs == DirsOf(Kept(allEntries[..i], all))
      invariant files == FilesOf(Kept(allEntries[..i], all))
    {
      var entry := allEntries[i];
      PartitionStep(allEntries, i, all);
      if !all && |entry.name| > 0 && entry.name[0] == '.' {
        continue;
      }
      if entry.isDir {
        dirs := dirs + [entry];
      } else {
        files := files + [entry];
      }
    }
    assert allEntries[..|allEntries|] == allEntries;
  }

  /** One of the two printing loops: for each entry, set the colour and
      write its name on a line. */
  method WriteNames(stdout: ColorBuffer, s: seq<Entry>, style: Style)
    modifies stdout
    ensures stdout.events == old(stdout.events) + NameLines(s, style)
  {
    for i := 0 to |s|
      invariant stdout.events == old(stdout.events) + NameLines(s[..i], style)
    {
      NameLinesPrefix(s, i, style);
      stdout.SetColor(style);
      stdout.WriteLn(s[i].name);
    }
    assert s[..|s|] == s;
  }

  /** The first step of `write_to_stdout`: the entries collected into a
      vector, sorted by path, and reversed with `r`. */
  method SortedPaths(dirEntries: seq<Entry>, reverse: bool) returns (ordered: seq<Entry>)
    ensures ordered == PathOrder(dirEntries, reverse)
  {
    var allEntries := new EntryVec.FromSeq(dirEntries);
    allEntries.Sort(true);
    if reverse {
      allEntries.Reverse();
    }
    ordered := allEntries.buf[..allEntries.len];
  }

  /** `write_to_stdout`, given the entries the directory read returned. */
  method WriteToStdout(stdout: ColorBuffer, dirEntries: seq<Entry>, flags: Flags)
    modifies stdout
    ensures stdout.events == old(stdout.events) + StdoutEvents(dirEntries, flags)
  {
    var ordered := SortedPaths(dirEntries, flags.reverse);
    var dirs, files := Partition(ordered, flags.all);
    WriteNames(stdout, dirs, BlueBold);
    WriteNames(stdout, files, WhitePlain);
  }
}
