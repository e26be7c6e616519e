/** Orderings of directory entries: the string order on paths, the stable
    sort by a path key, and reversal. */
module Order {
  import opened Listing

  /** The last element and the rest make up the multiset of a sequence. */
  lemma MultisetInit<T>(s: seq<T>)
    requires s != []
    ensures multiset(s) == multiset(s[..|s| - 1]) + multiset{s[|s| - 1]}
  {
    assert s == s[..|s| - 1] + [s[|s| - 1]];
  }

  /** Lexicographic order on strings, character by character; a proper
      prefix comes first. */
  predicate Less(a: string, b: string)
    decreases |a|
  {
    if a == [] then b != []
    else if b == [] then false
    else if a[0] != b[0] then a[0] < b[0]
    else Less(a[1..], b[1..])
  }

  lemma {:induction false} LessIrreflexive(a: string)
    ensures !Less(a, a)
  {
    if a != [] {
      LessIrreflexive(a[1..]);
    }
  }

  lemma {:induction false} LessTransitive(a: string, b: string, c: string)
    requires Less(a, b) && Less(b, c)
    ensures Less(a, c)
  {
    if a != [] && b != [] && c != [] && a[0] == b[0] == c[0] {
      LessTransitive(a[1..], b[1..], c[1..]);
    }
  }

  /** Any two distinct strings are ordered one way or the other. */
  lemma {:induction false} LessTotal(a: string, b: string)
    ensures a == b || Less(a, b) || Less(b, a)
  {
    if a != [] && b != [] && a[0] == b[0] {
      LessTotal(a[1..], b[1..]);
      if a[1..] == b[1..] {
        assert a == [a[0]] + a[1..] && b == [b[0]] + b[1..];
      }
    }
  }

  lemma LessAsymmetric(a: string, b: string)
    requires Less(a, b)
    ensures !Less(b, a)
  {
    if Less(b, a) {
      LessTransitive(a, b, a);
      LessIrreflexive(a);
    }
  }

  /** "not greater" is transitive: `a <= b <= c` gives `a <= c`. */
  lemma NotLessTransitive(a: string, b: string, c: string)
    requires !Less(b, a) && !Less(c, b)
    ensures !Less(c, a)
  {
    LessTotal(a, b);
    LessTotal(b, c);
    if Less(a, b) && Less(b, c) {
      LessTransitive(a, b, c);
      LessAsymmetric(a, c);
    }
  }

  /** ASCII lowercasing of one character. */
  function LowerChar(ch: char): (r: char)
    ensures !('A' <= r <= 'Z')
    ensures ('A' <= ch <= 'Z') == (r != ch)
    ensures r != ch ==> r as int == ch as int + 32
  {
    if 'A' <= ch <= 'Z' then (ch as int + 32) as char else ch
  }

  /** ASCII lowercasing of a string, character by character. */
  function LowerAscii(s: string): (r: string)
    ensures |r| == |s|
  {
    seq(|s|, k requires 0 <= k < |s| => LowerChar(s[k]))
  }

  /** The sort key: the path itself for the case-sensitive sort, its
      lowercased form otherwise. */
  function SortKey(e: Entry, caseSensitive: bool): string {
    if caseSensitive then e.path else LowerAscii(e.path)
  }

  /** No entry's key is smaller than the key of an entry before it. */
  ghost predicate Sorted(s: seq<Entry>, cs: bool) {
    forall i, j :: 0 <= i < j < |s| ==> !Less(SortKey(s[j], cs), SortKey(s[i], cs))
  }

  /** The entries of `s` whose key is `k`, in order. */
  function KeyClass(s: seq<Entry>, k: string, cs: bool): (r: seq<Entry>)
  {
    if s == [] then []
    else KeyClass(s[..|s| - 1], k, cs) + (if SortKey(s[|s| - 1], cs) == k then [s[|s| - 1]] else [])
  }

  /** `t` keeps, for every key, the entries of `s` with that key in their
      original order: what a stable sort promises. */
  ghost predicate SameKeyClasses(t: seq<Entry>, s: seq<Entry>, cs: bool) {
    forall k :: KeyClass(t, k, cs) == KeyClass(s, k, cs)
  }

  /** Inserts `x` into `p` after every entry whose key is not greater. */
  function Insert(p: seq<Entry>, x: Entry, cs: bool): seq<Entry>
    decreases |p|
  {
    if p != [] && Less(SortKey(x, cs), SortKey(p[|p| - 1], cs))
    then Insert(p[..|p| - 1], x, cs) + [p[|p| - 1]]
    else p + [x]
  }

  /** One step of insertion: `x` moves in front of `p[j - 1]`. */
  lemma InsertStep(p: seq<Entry>, x: Entry, j: nat, cs: bool)
    requires 0 < j <= |p| && Less(SortKey(x, cs), SortKey(p[j - 1], cs))
    ensures Insert(p[..j], x, cs) + p[j..] == Insert(p[..j - 1], x, cs) + p[j - 1..]
  {
    assert p[..j][..j - 1] == p[..j - 1];
    assert [p[j - 1]] + p[j..] == p[j - 1..];
  }

  /** Insertion stops in front of the first entry from the right whose key
      is not greater than that of `x`. */
  lemma InsertStop(p: seq<Entry>, x: Entry, j: nat, cs: bool)
    requires j <= |p| && (j == 0 || !Less(SortKey(x, cs), SortKey(p[j - 1], cs)))
    ensures Insert(p[..j], x, cs) == p[..j] + [x]
  {
  }

  /** The stable sort of `s` by key. */
  function SortByKey(s: seq<Entry>, cs: bool): seq<Entry>
    decreases |s|
  {
    if s == [] then [] else Insert(SortByKey(s[..|s| - 1], cs), s[|s| - 1], cs)
  }

  /** Sorting one more entry of `s` inserts it into the sorted prefix. */
  lemma SortByKeyPrefix(s: seq<Entry>, i: nat, cs: bool)
    requires i < |s|
    ensures SortByKey(s[..i + 1], cs) == Insert(SortByKey(s[..i], cs), s[i], cs)
  {
    assert s[..i + 1][..i] == s[..i];
  }

  lemma {:induction false} InsertMultiset(p: seq<Entry>, x: Entry, cs: bool)
    ensures multiset(Insert(p, x, cs)) == multiset(p) + multiset{x}
  {
    if p != [] && Less(SortKey(x, cs), SortKey(p[|p| - 1], cs)) {
      InsertMultiset(p[..|p| - 1], x, cs);
      MultisetInit(p);
    }
  }

  lemma {:induction false} InsertSorted(p: seq<Entry>, x: Entry, cs: bool)
    requires Sorted(p, cs)
    ensures Sorted(Insert(p, x, cs), cs)
  {
    var kx := SortKey(x, cs);
    if p != [] && Less(kx, SortKey(p[|p| - 1], cs)) {
      var init, last := p[..|p| - 1], p[|p| - 1];
      var kl := SortKey(last, cs);
      assert Sorted(init, cs) by {
        forall i, j | 0 <= i < j < |init|
          ensures !Less(SortKey(init[j], cs), SortKey(init[i], cs))
        {
          assert init[i] == p[i] && init[j] == p[j];
        }
      }
      InsertSorted(init, x, cs);
      var q := Insert(init, x, cs);
      InsertMultiset(init, x, cs);
      var r := q + [last];
      forall i, j | 0 <= i < j < |r|
        ensures !Less(SortKey(r[j], cs), SortKey(r[i], cs))
      {
        if j < |q| {
          assert r[i] == q[i] && r[j] == q[j];
        } else {
          assert r[i] == q[i] && r[j] == last;
          assert q[i] in multiset(init) + multiset{x};
          if q[i] == x {
            LessAsymmetric(kx, kl);
          } else {
            assert q[i] in init;
            var n :| 0 <= n < |init| && init[n] == q[i];
            assert p[n] == q[i] && p[|p| - 1] == last;
          }
        }
      }
      assert Insert(p, x, cs) == r;
    } else {
      var r := p + [x];
      forall i, j | 0 <= i < j < |r|
        ensures !Less(SortKey(r[j], cs), SortKey(r[i], cs))
      {
        if j < |p| {
          assert r[i] == p[i] && r[j] == p[j];
        } else {
          assert r[i] == p[i] && r[j] == x;
          var last := p[|p| - 1];
          if i < |p| - 1 {
            assert !Less(SortKey(last, cs), SortKey(p[i], cs));
            NotLessTransitive(SortKey(p[i], cs), SortKey(last, cs), kx);
          }
        }
      }
      assert Insert(p, x, cs) == r;
    }
  }

  /** Appending one entry extends its own key class only. */
  lemma KeyClassSnoc(s: seq<Entry>, y: Entry, k: string, cs: bool)
    ensures KeyClass(s + [y], k, cs) == KeyClass(s, k, cs) + (if SortKey(y, cs) == k then [y] else [])
  {
    assert (s + [y])[..|s + [y]| - 1] == s;
  }

  /** Inserting adds `x` at the end of its key class and leaves the other
      classes alone. */
  lemma {:induction false} InsertKeyClass(p: seq<Entry>, x: Entry, k: string, cs: bool)
    ensures KeyClass(Insert(p, x, cs), k, cs)
         == KeyClass(p, k, cs) + (if SortKey(x, cs) == k then [x] else [])
  {
    var kx := SortKey(x, cs);
    if p != [] && Less(kx, SortKey(p[|p| - 1], cs)) {
      var init, last := p[..|p| - 1], p[|p| - 1];
      var q := Insert(init, x, cs);
      var kp := KeyClass(init, k, cs);
      assert Insert(p, x, cs) == q + [last];
      assert p == init + [last];
      InsertKeyClass(init, x, k, cs);
      KeyClassSnoc(q, last, k, cs);
      KeyClassSnoc(init, last, k, cs);
      assert kp + [] == kp;
      if SortKey(last, cs) == k {
        LessIrreflexive(kx);
        assert kx != k;
      } else {
        assert KeyClass(q, k, cs) + [] == KeyClass(q, k, cs);
      }
    } else {
      KeyClassSnoc(p, x, k, cs);
    }
  }

  /** The stable sort orders by key ... */
  lemma {:induction false} SortByKeySorted(s: seq<Entry>, cs: bool)
    ensures Sorted(SortByKey(s, cs), cs)
  {
    if s != [] {
      SortByKeySorted(s[..|s| - 1], cs);
      InsertSorted(SortByKey(s[..|s| - 1], cs), s[|s| - 1], cs);
    }
  }

  /** ... is a permutation of its input ... */
  lemma {:induction false} SortByKeyPermutation(s: seq<Entry>, cs: bool)
    ensures multiset(SortByKey(s, cs)) == multiset(s)
  {
    if s != [] {
      SortByKeyPermutation(s[..|s| - 1], cs);
      InsertMultiset(SortByKey(s[..|s| - 1], cs), s[|s| - 1], cs);
      MultisetInit(s);
    }
  }

  lemma SortByKeyLength(s: seq<Entry>, cs: bool)
    ensures |SortByKey(s, cs)| == |s|
  {
    SortByKeyPermutation(s, cs);
    assert |multiset(SortByKey(s, cs))| == |multiset(s)|;
  }

  /** ... and keeps entries with equal keys in their original order. */
  lemma {:induction false} SortByKeyStable(s: seq<Entry>, k: string, cs: bool)
    ensures KeyClass(SortByKey(s, cs), k, cs) == KeyClass(s, k, cs)
  {
    if s != [] {
      SortByKeyStable(s[..|s| - 1], k, cs);
      InsertKeyClass(SortByKey(s[..|s| - 1], cs), s[|s| - 1], k, cs);
    }
  }

  lemma KeyClassMember(s: seq<Entry>, e: Entry, cs: bool)
    requires e in s
    ensures e in KeyClass(s, SortKey(e, cs), cs)
  {
    var k := SortKey(e, cs);
    var init := s[..|s| - 1];
    if e != s[|s| - 1] {
      assert e in init;
      KeyClassMember(init, e, cs);
    }
  }

  lemma KeyClassSubset(s: seq<Entry>, e: Entry, k: string, cs: bool)
    requires e in KeyClass(s, k, cs)
    ensures e in s
  {
    if s != [] {
      var init := s[..|s| - 1];
      if e != s[|s| - 1] {
        KeyClassSubset(init, e, k, cs);
      }
    }
  }

  lemma SortedInit(s: seq<Entry>, cs: bool)
    requires Sorted(s, cs) && s != []
    ensures Sorted(s[..|s| - 1], cs)
  {
    var init := s[..|s| - 1];
    forall i, j | 0 <= i < j < |init|
      ensures !Less(SortKey(init[j], cs), SortKey(init[i], cs))
    {
      assert init[i] == s[i] && init[j] == s[j];
    }
  }

  /** In a sorted sequence no key exceeds the last one. */
  lemma SortedLastIsMax(s: seq<Entry>, e: Entry, cs: bool)
    requires Sorted(s, cs) && e in s
    ensures !Less(SortKey(s[|s| - 1], cs), SortKey(e, cs))
  {
    var i :| 0 <= i < |s| && s[i] == e;
    if i < |s| - 1 {
      assert !Less(SortKey(s[|s| - 1], cs), SortKey(s[i], cs));
    } else {
      LessIrreflexive(SortKey(e, cs));
    }
  }

  /** An entry occurs in the other sequence when the key classes agree. */
  lemma SameKeyClassesMember(a: seq<Entry>, b: seq<Entry>, e: Entry, cs: bool)
    requires SameKeyClasses(a, b, cs) && e in a
    ensures e in b
  {
    KeyClassMember(a, e, cs);
    assert KeyClass(a, SortKey(e, cs), cs) == KeyClass(b, SortKey(e, cs), cs);
    KeyClassSubset(b, e, SortKey(e, cs), cs);
  }

  /** Dropping the last entry removes it from its own key class only. */
  lemma KeyClassInit(s: seq<Entry>, k: string, cs: bool)
    requires s != []
    ensures KeyClass(s, k, cs)
         == KeyClass(s[..|s| - 1], k, cs) + (if SortKey(s[|s| - 1], cs) == k then [s[|s| - 1]] else [])
  {
  }

  /** Equal key classes end with the same entry. */
  lemma SameLastOfClass(a: seq<Entry>, b: seq<Entry>, cs: bool)
    requires a != [] && b != []
    requires SortKey(a[|a| - 1], cs) == SortKey(b[|b| - 1], cs)
    requires KeyClass(a, SortKey(a[|a| - 1], cs), cs) == KeyClass(b, SortKey(a[|a| - 1], cs), cs)
    ensures a[|a| - 1] == b[|b| - 1]
  {
    var k := SortKey(a[|a| - 1], cs);
    KeyClassInit(a, k, cs);
    KeyClassInit(b, k, cs);
    var ca := KeyClass(a, k, cs);
    assert ca[|ca| - 1] == a[|a| - 1];
  }

  /** Removing the same last entry from both keeps the key classes equal. */
  lemma SameKeyClassesInit(a: seq<Entry>, b: seq<Entry>, cs: bool)
    requires a != [] && b != [] && a[|a| - 1] == b[|b| - 1]
    requires SameKeyClasses(a, b, cs)
    ensures SameKeyClasses(a[..|a| - 1], b[..|b| - 1], cs)
  {
    var a', b', l := a[..|a| - 1], b[..|b| - 1], a[|a| - 1];
    forall k
      ensures KeyClass(a', k, cs) == KeyClass(b', k, cs)
    {
      KeyClassInit(a, k, cs);
      KeyClassInit(b, k, cs);
      assert KeyClass(a, k, cs) == KeyClass(b, k, cs);
      if SortKey(l, cs) == k {
        var x, y := KeyClass(a', k, cs), KeyClass(b', k, cs);
        assert x + [l] == y + [l];
        assert |x| == |y|;
        assert x == (x + [l])[..|x|] == (y + [l])[..|y|] == y;
      } else {
        assert KeyClass(a', k, cs) + [] == KeyClass(a', k, cs);
        assert KeyClass(b', k, cs) + [] == KeyClass(b', k, cs);
      }
    }
  }

  /** Two sorted sequences with the same key classes are equal. */
  lemma {:induction false} SortedStableUnique(a: seq<Entry>, b: seq<Entry>, cs: bool)
    requires Sorted(a, cs) && Sorted(b, cs)
    requires SameKeyClasses(a, b, cs)
    ensures a == b
    decreases |a| + |b|
  {
    if a == [] && b == [] {
      return;
    }
    if a == [] {
      SameKeyClassesMember(b, a, b[0], cs);
      return;
    }
    if b == [] {
      SameKeyClassesMember(a, b, a[0], cs);
      return;
    }
    var la, lb := a[|a| - 1], b[|b| - 1];
    var ka, kb := SortKey(la, cs), SortKey(lb, cs);
    // the last keys are each the largest of both sequences
    SameKeyClassesMember(a, b, la, cs);
    SortedLastIsMax(b, la, cs);
    SameKeyClassesMember(b, a, lb, cs);
    SortedLastIsMax(a, lb, cs);
    LessTotal(ka, kb);
    // so both end with the last entry of that key class
    assert KeyClass(a, ka, cs) == KeyClass(b, ka, cs);
    SameLastOfClass(a, b, cs);
    SameKeyClassesInit(a, b, cs);
    SortedInit(a, cs);
    SortedInit(b, cs);
    SortedStableUnique(a[..|a| - 1], b[..|b| - 1], cs);
    assert a == a[..|a| - 1] + [la] && b == b[..|b| - 1] + [lb];
  }

  /** Every sorted sequence that keeps the key classes of `s` is the stable
      sort of `s`: the sort is determined by its specification. */
  lemma SortByKeyUnique(s: seq<Entry>, t: seq<Entry>, cs: bool)
    requires Sorted(t, cs)
    requires SameKeyClasses(t, s, cs)
    ensures t == SortByKey(s, cs)
  {
    SortByKeySorted(s, cs);
    forall k
      ensures KeyClass(t, k, cs) == KeyClass(SortByKey(s, cs), k, cs)
    {
      SortByKeyStable(s, k, cs);
    }
    SortedStableUnique(t, SortByKey(s, cs), cs);
  }

  /** `s` back to front. */
  function Reversed<T>(s: seq<T>): (r: seq<T>)
    ensures |r| == |s|
  {
    if s == [] then [] else [s[|s| - 1]] + Reversed(s[..|s| - 1])
  }

  lemma {:induction false} ReversedAt<T>(s: seq<T>, k: nat)
    requires k < |s|
    ensures Reversed(s)[k] == s[|s| - 1 - k]
  {
    if k > 0 {
      ReversedAt(s[..|s| - 1], k - 1);
    }
  }

  /** Reversing twice restores the order. */
  lemma ReversedInvolution<T>(s: seq<T>)
    ensures Reversed(Reversed(s)) == s
  {
    var r := Reversed(s);
    forall k | 0 <= k < |s|
      ensures Reversed(r)[k] == s[k]
    {
      ReversedAt(r, k);
      ReversedAt(s, |s| - 1 - k);
    }
  }

  lemma {:induction false} ReversedMultiset<T>(s: seq<T>)
    ensures multiset(Reversed(s)) == multiset(s)
  {
    if s != [] {
      ReversedMultiset(s[..|s| - 1]);
      MultisetInit(s);
    }
  }

  lemma {:induction false} ReversedAppend<T>(a: seq<T>, b: seq<T>)
    ensures Reversed(a + b) == Reversed(b) + Reversed(a)
  {
    if b == [] {
      assert a + b == a;
    } else {
      assert (a + b)[..|a + b| - 1] == a + b[..|b| - 1];
      ReversedAppend(a, b[..|b| - 1]);
    }
  }

  /** Filtering and reversing commute. */
  lemma {:induction false} FilterReversed(s: seq<Entry>, t: Test)
    ensures Filter(Reversed(s), t) == Reversed(Filter(s, t))
  {
    if s != [] {
      var init, last := s[..|s| - 1], s[|s| - 1];
      FilterReversed(init, t);
      FilterAppend([last], Reversed(init), t);
      assert Filter([last], t) == if Passes(last, t) then [last] else [] by {
        assert [last][..0] == [];
      }
      ReversedAppend(Filter(init, t), if Passes(last, t) then [last] else []);
    }
  }

  /** What is left of a sorted sequence after dropping entries is sorted. */
  lemma {:induction false} SubsequenceSorted(a: seq<Entry>, b: seq<Entry>, cs: bool)
    requires IsSubsequence(a, b) && Sorted(b, cs)
    ensures Sorted(a, cs)
    decreases |b|
  {
    if a != [] {
      var ai, bi := a[..|a| - 1], b[..|b| - 1];
      SortedInit(b, cs);
      if a[|a| - 1] == b[|b| - 1] && IsSubsequence(ai, bi) {
        SubsequenceSorted(ai, bi, cs);
        forall i, j | 0 <= i < j < |a|
          ensures !Less(SortKey(a[j], cs), SortKey(a[i], cs))
        {
          if j == |a| - 1 {
            assert a[i] == ai[i];
            SubsequenceMember(ai, bi, a[i]);
            assert a[i] in b by {
              assert b == bi + [b[|b| - 1]];
            }
            SortedLastIsMax(b, a[i], cs);
          } else {
            assert a[i] == ai[i] && a[j] == ai[j];
          }
        }
      } else {
        SubsequenceSorted(a, bi, cs);
      }
    }
  }
}
