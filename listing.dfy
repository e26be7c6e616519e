/** Directory entries, display flags and the hidden-file filter. */
module Listing {

  /** One entry of an already-read directory. The filesystem queries the
      listers make (`exists`, `is_dir`, which follows links, `is_symlink`,
      the permission bits and the length from `metadata`) are fields that
      the caller fills in. */
  datatype Entry = Entry(
    name: string,       // last path component
    path: string,       // the whole path, as returned by the directory read
    present: bool,      // `exists()`: false for a missing entry or broken link
    isDir: bool,
    isSymlink: bool,
    mode: bv32,         // st_mode permission bits
    len: nat)           // size in bytes

  /** The display flags, keyed in the source by one character each. */
  datatype Flags = Flags(
    all: bool,            // 'a': show hidden entries
    unsorted: bool,       // 'u': keep the directory-read order
    caseSensitive: bool,  // 'c': sort by the path itself
    reverse: bool,        // 'r': reverse the final order
    showSize: bool,       // 's': one entry per line, with its size
    humanReadable: bool,  // 'h': sizes in units
    base1000: bool)       // 'b': units of 1000 rather than 1024

  /** A name starting with '.' is hidden. */
  predicate Hidden(e: Entry) {
    |e.name| > 0 && e.name[0] == '.'
  }

  /** The tests the listers filter entries by. */
  datatype Test = NotHidden | IsDirectory | NotDirectory

  predicate Passes(e: Entry, t: Test) {
    match t
    case NotHidden => !Hidden(e)
    case IsDirectory => e.isDir
    case NotDirectory => !e.isDir
  }

  /** The entries of `s` that pass `t`, in their original order. */
  function Filter(s: seq<Entry>, t: Test): seq<Entry> {
    if s == [] then []
    else Filter(s[..|s| - 1], t) + (if Passes(s[|s| - 1], t) then [s[|s| - 1]] else [])
  }

  /** The entries that are not hidden. */
  function Visible(s: seq<Entry>): seq<Entry> {
    Filter(s, NotHidden)
  }

  /** The entries shown at all: every one with `all`, else those not hidden. */
  function Kept(s: seq<Entry>, all: bool): seq<Entry> {
    if all then s else Visible(s)
  }

  /** Filtering one more entry of `s` keeps it exactly when it passes. */
  lemma FilterPrefix(s: seq<Entry>, i: nat, t: Test)
    requires i < |s|
    ensures Filter(s[..i + 1], t) == Filter(s[..i], t) + (if Passes(s[i], t) then [s[i]] else [])
  {
    assert s[..i + 1][..i] == s[..i];
  }

  /** `a` is `b` with some elements dropped and the others in the same order. */
  predicate IsSubsequence<T(==)>(a: seq<T>, b: seq<T>)
    decreases |b|
  {
    if a == [] then true
    else if b == [] then false
    else (a[|a| - 1] == b[|b| - 1] && IsSubsequence(a[..|a| - 1], b[..|b| - 1]))
         || IsSubsequence(a, b[..|b| - 1])
  }

  lemma {:induction false} SubsequenceRefl<T>(a: seq<T>)
    ensures IsSubsequence(a, a)
  {
    if a != [] {
      SubsequenceRefl(a[..|a| - 1]);
    }
  }

  /** What a subsequence holds, the sequence holds. */
  lemma {:induction false} SubsequenceMember<T>(a: seq<T>, b: seq<T>, x: T)
    requires IsSubsequence(a, b) && x in a
    ensures x in b
    decreases |b|
  {
    if a[|a| - 1] == b[|b| - 1] && IsSubsequence(a[..|a| - 1], b[..|b| - 1]) {
      if x != a[|a| - 1] {
        assert x in a[..|a| - 1] by {
          assert a == a[..|a| - 1] + [a[|a| - 1]];
        }
        SubsequenceMember(a[..|a| - 1], b[..|b| - 1], x);
      }
    } else {
      SubsequenceMember(a, b[..|b| - 1], x);
    }
  }

  /** A subsequence of a subsequence is a subsequence. */
  lemma {:induction false} SubsequenceTrans<T>(a: seq<T>, b: seq<T>, c: seq<T>)
    requires IsSubsequence(a, b) && IsSubsequence(b, c)
    ensures IsSubsequence(a, c)
    decreases |c|
  {
    if a != [] {
      var b', c' := b[..|b| - 1], c[..|c| - 1];
      if b[|b| - 1] == c[|c| - 1] && IsSubsequence(b', c') {
        if a[|a| - 1] == b[|b| - 1] && IsSubsequence(a[..|a| - 1], b') {
          SubsequenceTrans(a[..|a| - 1], b', c');
        } else {
          SubsequenceTrans(a, b', c');
        }
      } else {
        SubsequenceTrans(a, b, c');
      }
    }
  }

  /** Filtering keeps exactly the entries that pass, in order. */
  lemma {:induction false} FilterSubsequence(s: seq<Entry>, t: Test)
    ensures IsSubsequence(Filter(s, t), s)
    ensures forall e :: e in Filter(s, t) <==> e in s && Passes(e, t)
  {
    if s != [] {
      var init, last := s[..|s| - 1], s[|s| - 1];
      assert s == init + [last];
      FilterSubsequence(init, t);
      var r := Filter(s, t);
      if !Passes(last, t) {
        assert r == Filter(init, t);
        if r != [] {
          assert IsSubsequence(r, s[..|s| - 1]);
        }
      } else {
        assert r[..|r| - 1] == Filter(init, t);
      }
    }
  }

  /** When every entry passes, the filter changes nothing. */
  lemma {:induction false} FilterAllPass(s: seq<Entry>, t: Test)
    requires forall k :: 0 <= k < |s| ==> Passes(s[k], t)
    ensures Filter(s, t) == s
  {
    if s != [] {
      FilterAllPass(s[..|s| - 1], t);
    }
  }

  /** Filtering twice is filtering once. */
  lemma FilterIdempotent(s: seq<Entry>, t: Test)
    ensures Filter(Filter(s, t), t) == Filter(s, t)
  {
    FilterSubsequence(s, t);
    var r := Filter(s, t);
    assert forall k :: 0 <= k < |r| ==> r[k] in r;
    FilterAllPass(r, t);
  }

  /** The filter deletes exactly the entries that fail: no more, no fewer. */
  lemma {:induction false} FilterMultiset(s: seq<Entry>, t: Test, e: Entry)
    ensures multiset(Filter(s, t))[e] == if Passes(e, t) then multiset(s)[e] else 0
  {
    if s != [] {
      var init, last := s[..|s| - 1], s[|s| - 1];
      assert s == init + [last];
      FilterMultiset(init, t, e);
    }
  }

  /** Filters of sequences with the same elements have the same elements. */
  lemma FilterSameMultiset(s: seq<Entry>, u: seq<Entry>, t: Test)
    requires multiset(s) == multiset(u)
    ensures multiset(Filter(s, t)) == multiset(Filter(u, t))
  {
    forall e
      ensures multiset(Filter(s, t))[e] == multiset(Filter(u, t))[e]
    {
      FilterMultiset(s, t, e);
      FilterMultiset(u, t, e);
    }
  }

  /** Filtering a concatenation filters each part. */
  lemma {:induction false} FilterAppend(a: seq<Entry>, b: seq<Entry>, t: Test)
    ensures Filter(a + b, t) == Filter(a, t) + Filter(b, t)
  {
    if b == [] {
      assert a + b == a;
    } else {
      assert (a + b)[..|a + b| - 1] == a + b[..|b| - 1];
      FilterAppend(a, b[..|b| - 1], t);
    }
  }

  /** The directories and the other entries together are all the entries. */
  lemma {:induction false} PartitionMultiset(s: seq<Entry>)
    ensures multiset(Filter(s, IsDirectory)) + multiset(Filter(s, NotDirectory)) == multiset(s)
  {
    if s != [] {
      var init, last := s[..|s| - 1], s[|s| - 1];
      assert s == init + [last];
      PartitionMultiset(init);
    }
  }
}
