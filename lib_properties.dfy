/** What the plain lister promises: one line per entry shown, directories
    before the other entries, each group in path order (or its reverse), and
    every entry shown exactly once unless it is hidden. */
module LibProperties {
  import opened Console
  import opened Listing
  import opened Order
  import opened Lib

  function Names(s: seq<Entry>): (r: seq<string>)
    ensures |r| == |s|
    ensures forall k :: 0 <= k < |s| ==> r[k] == s[k].name
  {
    seq(|s|, k requires 0 <= k < |s| => s[k].name)
  }

  /** Each entry gets its colour set and then its own line. */
  lemma {:induction false} NameLinesShape(s: seq<Entry>, style: Style)
    ensures |NameLines(s, style)| == 2 * |s|
    ensures forall k :: 0 <= k < |s| ==> NameLines(s, style)[2 * k] == SetColor(style)
    ensures forall k :: 0 <= k < |s| ==> NameLines(s, style)[2 * k + 1] == WriteLn(s[k].name)
  {
    if s != [] {
      var init := s[..|s| - 1];
      NameLinesShape(init, style);
      assert forall k :: 0 <= k < |init| ==> s[k] == init[k];
    }
  }

  lemma ColorThenLine(style: Style, text: string)
    ensures Lines([SetColor(style), WriteLn(text)]) == [text]
  {
    assert [SetColor(style), WriteLn(text)][..1] == [SetColor(style)];
    assert [SetColor(style)][..0] == [];
  }

  /** The lines written are the names, in order. */
  lemma {:induction false} NameLinesLines(s: seq<Entry>, style: Style)
    ensures Lines(NameLines(s, style)) == Names(s)
  {
    if s != [] {
      var init, last := s[..|s| - 1], s[|s| - 1];
      NameLinesLines(init, style);
      LinesAppend(NameLines(init, style), [SetColor(style), WriteLn(last.name)]);
      ColorThenLine(style, last.name);
      assert Names(s) == Names(init) + [last.name];
    }
  }

  /** The directory names are printed first, then the other names. */
  lemma StdoutLines(entries: seq<Entry>, flags: Flags)
    ensures Lines(StdoutEvents(entries, flags))
            == Names(DirsOf(Shown(entries, flags))) + Names(FilesOf(Shown(entries, flags)))
  {
    var dirs, files := DirsOf(Shown(entries, flags)), FilesOf(Shown(entries, flags));
    LinesAppend(NameLines(dirs, BlueBold), NameLines(files, WhitePlain));
    NameLinesLines(dirs, BlueBold);
    NameLinesLines(files, WhitePlain);
  }

  lemma PathOrderMultiset(entries: seq<Entry>, reverse: bool)
    ensures multiset(PathOrder(entries, reverse)) == multiset(entries)
  {
    SortByKeyPermutation(entries, true);
    ReversedMultiset(SortByKey(entries, true));
  }

  /** Each entry that is not skipped as hidden is printed exactly once, in
      the group its kind says. */
  lemma StdoutPartition(entries: seq<Entry>, flags: Flags)
    ensures multiset(DirsOf(Shown(entries, flags))) + multiset(FilesOf(Shown(entries, flags)))
            == multiset(Kept(entries, flags.all))
  {
    PartitionMultiset(Shown(entries, flags));
    PathOrderMultiset(entries, flags.reverse);
    if !flags.all {
      FilterSameMultiset(PathOrder(entries, flags.reverse), entries, NotHidden);
    }
  }

  /** Exactly one line is printed per entry kept: every entry with `a`. */
  lemma StdoutCount(entries: seq<Entry>, flags: Flags)
    ensures |Lines(StdoutEvents(entries, flags))| == |Kept(entries, flags.all)|
    ensures flags.all ==> |Lines(StdoutEvents(entries, flags))| == |entries|
  {
    StdoutLines(entries, flags);
    StdoutPartition(entries, flags);
    var dirs, files := DirsOf(Shown(entries, flags)), FilesOf(Shown(entries, flags));
    assert |multiset(dirs) + multiset(files)| == |dirs| + |files|;
  }

  /** Each group keeps the path order (or its reverse) of the entries. */
  lemma StdoutGroupsInOrder(entries: seq<Entry>, flags: Flags)
    ensures IsSubsequence(DirsOf(Shown(entries, flags)), PathOrder(entries, flags.reverse))
    ensures IsSubsequence(FilesOf(Shown(entries, flags)), PathOrder(entries, flags.reverse))
  {
    var ordered, shown := PathOrder(entries, flags.reverse), Shown(entries, flags);
    if flags.all {
      SubsequenceRefl(ordered);
    } else {
      FilterSubsequence(ordered, NotHidden);
    }
    FilterSubsequence(shown, IsDirectory);
    SubsequenceTrans(DirsOf(shown), shown, ordered);
    FilterSubsequence(shown, NotDirectory);
    SubsequenceTrans(FilesOf(shown), shown, ordered);
  }

  /** A directory is printed exactly when it was read and `a` is given or
      its name does not start with a dot; likewise for the other entries. */
  lemma StdoutShows(entries: seq<Entry>, flags: Flags, e: Entry)
    ensures e in DirsOf(Shown(entries, flags)) <==> e in entries && e.isDir && (flags.all || !Hidden(e))
    ensures e in FilesOf(Shown(entries, flags)) <==> e in entries && !e.isDir && (flags.all || !Hidden(e))
  {
    var ordered := PathOrder(entries, flags.reverse);
    PathOrderMultiset(entries, flags.reverse);
    assert e in ordered <==> e in entries by {
      assert e in ordered <==> e in multiset(ordered);
    }
    FilterSubsequence(ordered, NotHidden);
    FilterSubsequence(Shown(entries, flags), IsDirectory);
    FilterSubsequence(Shown(entries, flags), NotDirectory);
  }

  /** Without `r` both groups are in path order. */
  lemma StdoutGroupsSorted(entries: seq<Entry>, flags: Flags)
    requires !flags.reverse
    ensures Sorted(DirsOf(Shown(entries, flags)), true)
    ensures Sorted(FilesOf(Shown(entries, flags)), true)
  {
    var sorted := SortByKey(entries, true);
    var shown := Shown(entries, flags);
    SortByKeySorted(entries, true);
    if !flags.all {
      FilterSubsequence(sorted, NotHidden);
      SubsequenceSorted(shown, sorted, true);
    }
    FilterSubsequence(shown, IsDirectory);
    SubsequenceSorted(DirsOf(shown), shown, true);
    FilterSubsequence(shown, NotDirectory);
    SubsequenceSorted(FilesOf(shown), shown, true);
  }

  /** `r` reverses each group but still prints the directories first. */
  lemma StdoutReverse(entries: seq<Entry>, flags: Flags)
    requires flags.reverse
    ensures DirsOf(Shown(entries, flags)) == Reversed(DirsOf(Shown(entries, flags.(reverse := false))))
    ensures FilesOf(Shown(entries, flags)) == Reversed(FilesOf(Shown(entries, flags.(reverse := false))))
  {
    var sorted := SortByKey(entries, true);
    var forward := Shown(entries, flags.(reverse := false));
    if !flags.all {
      FilterReversed(sorted, NotHidden);
    }
    assert Shown(entries, flags) == Reversed(forward);
    FilterReversed(forward, IsDirectory);
    FilterReversed(forward, NotDirectory);
  }

  /** The names of entries that are not hidden do not start with a dot. */
  lemma NamesNotHidden(s: seq<Entry>)
    requires forall k :: 0 <= k < |s| ==> !Hidden(s[k])
    ensures forall line :: line in Names(s) ==> !(|line| > 0 && line[0] == '.')
  {
    forall line | line in Names(s)
      ensures !(|line| > 0 && line[0] == '.')
    {
      var k :| 0 <= k < |s| && Names(s)[k] == line;
    }
  }

  /** Without `a` the entries of a group are not hidden. */
  lemma GroupNotHidden(entries: seq<Entry>, flags: Flags, t: Test)
    requires !flags.all
    ensures forall k :: 0 <= k < |Filter(Shown(entries, flags), t)| ==> !Hidden(Filter(Shown(entries, flags), t)[k])
  {
    var shown := Shown(entries, flags);
    FilterSubsequence(PathOrder(entries, flags.reverse), NotHidden);
    FilterSubsequence(shown, t);
    forall k | 0 <= k < |Filter(shown, t)|
      ensures !Hidden(Filter(shown, t)[k])
    {
      assert Filter(shown, t)[k] in Filter(shown, t);
    }
  }

  /** Without `a` no line printed is a name starting with a dot. */
  lemma StdoutNoHiddenNames(entries: seq<Entry>, flags: Flags)
    requires !flags.all
    ensures forall line :: line in Lines(StdoutEvents(entries, flags)) ==> !(|line| > 0 && line[0] == '.')
  {
    var dirs, files := DirsOf(Shown(entries, flags)), FilesOf(Shown(entries, flags));
    StdoutLines(entries, flags);
    GroupNotHidden(entries, flags, IsDirectory);
    GroupNotHidden(entries, flags, NotDirectory);
    NamesNotHidden(dirs);
    NamesNotHidden(files);
  }
}
