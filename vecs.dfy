/** The growable vector of paths both listers collect a directory into,
    with the in-place operations they apply to it. */
module Vecs {
  import opened Listing
  import opened Order

  /** Moving `x` one place down, past `p[j - 1]`, in a buffer holding
      `p[..j] + [x] + p[j..] + rest`. */
  lemma SwapDown<T>(q: seq<T>, p: seq<T>, x: T, j: nat, rest: seq<T>)
    requires 0 < j <= |p| && q == p[..j] + [x] + p[j..] + rest
    ensures q[j - 1] == p[j - 1] && q[j] == x
    ensures q[j - 1 := x][j := p[j - 1]] == p[..j - 1] + [x] + p[j - 1..] + rest
  {
  }

  lemma SplitHead<T>(p: seq<T>, s: seq<T>, i: nat)
    requires i < |s|
    ensures p + s[i..] == p + [s[i]] + s[i + 1..]
  {
    assert s[i..] == [s[i]] + s[i + 1..];
  }

  /** One step of the insertion sort: the sorted prefix, the next entry and
      the rest make up the buffer, and inserting the next entry sorts one
      more. */
  lemma SortStepFacts(s: seq<Entry>, i: nat, cs: bool)
    requires i < |s|
    ensures |SortByKey(s[..i], cs)| == i
    ensures SortByKey(s[..i], cs) + s[i..] == SortByKey(s[..i], cs) + [s[i]] + s[i + 1..]
    ensures Insert(SortByKey(s[..i], cs), s[i], cs) + s[i + 1..] == SortByKey(s[..i + 1], cs) + s[i + 1..]
  {
    SortByKeyLength(s[..i], cs);
    SplitHead(SortByKey(s[..i], cs), s, i);
    SortByKeyPrefix(s, i, cs);
  }

  /** Exchanges `a[j - 1]` and `a[j]`. */
  method SwapAdjacent<T>(a: array<T>, j: nat, n: nat)
    requires 0 < j < n <= a.Length
    modifies a
    ensures a[..n] == old(a[..n])[j - 1 := old(a[j])][j := old(a[j - 1])]
  {
    a[j - 1], a[j] := a[j], a[j - 1];
  }

  /** Stores `e` at `a[k]`, leaving the other slots alone. */
  method Put<T>(a: array<T>, k: nat, e: T)
    requires k < a.Length
    modifies a
    ensures a[..k + 1] == old(a[..k]) + [e]
    ensures forall m :: 0 <= m < a.Length && m != k ==> a[m] == old(a[m])
  {
    a[k] := e;
  }

  /** Moves the entries of `a[..n]` that are not hidden to the front of
      `a`, in order, and returns how many there are. */
  method CompactVisible(a: array<Entry>, n: nat) returns (kept: nat)
    requires n <= a.Length
    modifies a
    ensures kept <= n
    ensures a[..kept] == Visible(old(a[..n]))
  {
    ghost var s := a[..n];
    kept := 0;
    var i := 0;
    while i < n
      invariant kept <= i <= n
      invariant a[..kept] == Visible(s[..i])
      invariant forall m :: i <= m < n ==> a[m] == s[m]
    {
      var e := a[i];
      FilterPrefix(s, i, NotHidden);
      if !Hidden(e) {
        Put(a, kept, e);
        kept := kept + 1;
      }
      i := i + 1;
    }
    assert s[..n] == s;
  }

  /** Reverses `a[..n]` in place by swapping its slots pairwise from both
      ends. */
  method ReverseSlots<T>(a: array<T>, n: nat)
    requires n <= a.Length
    modifies a
    ensures a[..n] == Reversed(old(a[..n]))
  {
    ghost var s := a[..n];
    var lo := 0;
    while lo < n / 2
      invariant 0 <= lo <= n / 2
      invariant forall m :: 0 <= m < lo ==> a[m] == s[n - 1 - m] && a[n - 1 - m] == s[m]
      invariant forall m :: lo <= m < n - lo ==> a[m] == s[m]
    {
      a[lo], a[n - 1 - lo] := a[n - 1 - lo], a[lo];
      lo := lo + 1;
    }
    forall m | 0 <= m < n
      ensures a[..n][m] == Reversed(s)[m]
    {
      ReversedAt(s, m);
    }
  }

  /** A `Vec<PathBuf>`: a buffer whose first `len` slots hold the entries. */
  class EntryVec {
    var buf: array<Entry>
    var len: nat

    ghost predicate Valid()
      reads this
    {
      len <= buf.Length
    }

    /** The entries currently in the vector. */
    ghost function Elements(): seq<Entry>
      reads this, buf
      requires Valid()
    {
      buf[..len]
    }

    /** Collects the entries of one directory read, in the order read. */
    constructor FromSeq(s: seq<Entry>)
      ensures Valid() && fresh(buf) && Elements() == s
    {
      buf := new Entry[|s|](k requires 0 <= k < |s| => s[k]);
      len := |s|;
      new;
      assert buf[..len] == s;
    }

    /** `retain`: keeps the entries that are not hidden, compacting them to
        the front of the buffer in their original order. */
    method RetainVisible()
      requires Valid()
      modifies this, buf
      ensures Valid() && buf == old(buf)
      ensures Elements() == Visible(old(Elements()))
    {
      len := CompactVisible(buf, len);
    }

    /** `sort` (case-sensitive, by path) or `sort_by` on the lowercased
        path: both are stable, and both put the entries in the order of
        `SortByKey`. The buffer is sorted by insertion, one entry at a time. */
    method Sort(caseSensitive: bool)
      requires Valid()
      modifies buf
      ensures Valid()
      ensures Elements() == SortByKey(old(Elements()), caseSensitive)
    {
      ghost var s := buf[..len];
      var i := 0;
      while i < len
        invariant 0 <= i <= len
        invariant buf[..len] == SortByKey(s[..i], caseSensitive) + s[i..]
      {
        SortStepFacts(s, i, caseSensitive);
        SinkLast(i, caseSensitive, SortByKey(s[..i], caseSensitive), s[i], s[i + 1..]);
        i := i + 1;
      }
      assert s[..len] == s;
      assert s[len..] == [];
    }

    /** Moves the entry at `i` down past every entry before it with a
        greater key; the `i` entries before it are sorted by then. */
    method SinkLast(i: nat, caseSensitive: bool, ghost p: seq<Entry>, ghost x: Entry, ghost rest: seq<Entry>)
      requires Valid() && i < len && |p| == i && buf[..len] == p + [x] + rest
      modifies buf
      ensures Valid()
      ensures buf[..len] == Insert(p, x, caseSensitive) + rest
    {
      assert buf[..len][i] == x;
      assert p[..i] == p && p[i..] == [];
      assert buf[..len] == p[..i] + [x] + p[i..] + rest;
      assert Insert(p, x, caseSensitive) + [] == Insert(p, x, caseSensitive);
      var j := i;
      while j > 0 && Less(SortKey(buf[j], caseSensitive), SortKey(buf[j - 1], caseSensitive))
        invariant 0 <= j <= i
        invariant buf[..len] == p[..j] + [x] + p[j..] + rest
        invariant Insert(p, x, caseSensitive) == Insert(p[..j], x, caseSensitive) + p[j..]
      {
        SwapDown(buf[..len], p, x, j, rest);
        SwapAdjacent(buf, j, len);
        InsertStep(p, x, j, caseSensitive);
        j := j - 1;
      }
      if j > 0 {
        SwapDown(buf[..len], p, x, j, rest);
      }
      InsertStop(p, x, j, caseSensitive);
    }

    /** `reverse`. */
    method Reverse()
      requires Valid()
      modifies buf
      ensures Valid()
      ensures Elements() == Reversed(old(Elements()))
    {
      ReverseSlots(buf, len);
    }
  }
}
