/**
 * The top-down merge sort that orders search results: a functional
 * specification (`Merged`, `MergeSorted`) with its properties, and the in-place
 * `Merge` and `Sort` on arrays proved equal to it.
 */
module MergeSort {
  import opened Records

  /** Every record may stand before every later one under `Cmp`. */
  predicate Sorted(s: seq<FileRecord>)
  {
    forall i, j :: 0 <= i < j < |s| ==> Le(s[i], s[j])
  }

  /**
   * The records `merge` writes, in the order it writes them: the smaller head
   * first, the left head when the two compare Equal.
   */
  function Merged(l: seq<FileRecord>, r: seq<FileRecord>): (m: seq<FileRecord>)
    ensures |m| == |l| + |r|
    decreases |l| + |r|
  {
    if l == [] then r
    else if r == [] then l
    else if Cmp(l[0], r[0]) == Greater then [r[0]] + Merged(l, r[1..])
      else [l[0]] + Merged(l[1..], r)
  }

  /** The result of `sort`: split at the midpoint, sort both halves, merge. */
  function MergeSorted(s: seq<FileRecord>): (r: seq<FileRecord>)
    ensures |r| == |s|
    decreases |s|
  {
    if |s| < 2 then s
    else
      var mid := |s| / 2;
      Merged(MergeSorted(s[..mid]), MergeSorted(s[mid..]))
  }

  /** The records of `s` that `Cmp` calls Equal to `x`, in their order in `s`. */
  function Equivalents(s: seq<FileRecord>, x: FileRecord): seq<FileRecord>
  {
    if s == [] then []
    else (if Cmp(s[0], x) == Equal then [s[0]] else []) + Equivalents(s[1..], x)
  }

  /** A sequence is its prefix followed by its suffix. */
  lemma SplitAt<T>(s: seq<T>, k: nat)
    requires k <= |s|
    ensures s[..k] + s[k..] == s
  {
  }

  lemma AppendAssoc<T>(a: seq<T>, b: seq<T>, c: seq<T>)
    ensures (a + b) + c == a + (b + c)
  {
  }

  /** A non-empty sequence is its head followed by its tail. */
  lemma HeadTail<T>(s: seq<T>)
    requires s != []
    ensures [s[0]] + s[1..] == s
  {
  }

  // ---------------------------------------------------------------------------
  // What "sorted" means
  // ---------------------------------------------------------------------------

  /** Directories first, and within each kind names in lexicographic order. */
  ghost predicate DirectoriesThenNames(s: seq<FileRecord>)
  {
    (forall i, j :: 0 <= i < j < |s| && s[j].isDirectory ==> s[i].isDirectory) &&
    (forall i, j :: 0 <= i < j < |s| && s[i].isDirectory == s[j].isDirectory ==>
      !LexLess(s[j].name, s[i].name))
  }

  /** Sorted under `Cmp` is exactly "directories first, then names ascending". */
  lemma SortedIsDirectoriesThenNames(s: seq<FileRecord>)
    ensures Sorted(s) <==> DirectoriesThenNames(s)
  {
    forall i, j | 0 <= i < j < |s| && s[i].isDirectory == s[j].isDirectory
      ensures Le(s[i], s[j]) <==> !LexLess(s[j].name, s[i].name)
    {
      CmpSameKind(s[i], s[j]);
    }
  }

  // ---------------------------------------------------------------------------
  // Properties of Merged
  // ---------------------------------------------------------------------------

  lemma SortedCons(x: FileRecord, s: seq<FileRecord>)
    requires Sorted(s)
    requires forall y :: y in s ==> Le(x, y)
    ensures Sorted([x] + s)
  {
    var t := [x] + s;
    forall i, j | 0 <= i < j < |t| ensures Le(t[i], t[j]) {
      if i > 0 {
        assert t[i] == s[i - 1] && t[j] == s[j - 1];
      } else {
        assert t[j] in s;
      }
    }
  }

  /** Merging two sorted sequences gives a sorted sequence. */
  lemma {:induction false} MergedSorted(l: seq<FileRecord>, r: seq<FileRecord>)
    requires Sorted(l) && Sorted(r)
    ensures Sorted(Merged(l, r))
    decreases |l| + |r|
  {
    if l != [] && r != [] {
      if Cmp(l[0], r[0]) == Greater {
        var rest := Merged(l, r[1..]);
        MergedSorted(l, r[1..]);
        MergedPermutation(l, r[1..]);
        CmpAntisymmetric(r[0], l[0]);
        forall y | y in rest ensures Le(r[0], y) {
          assert y in multiset(rest);
          if y in l {
            var k :| 0 <= k < |l| && l[k] == y;
            if k > 0 { LeTransitive(r[0], l[0], y); }
          } else {
            assert y in r[1..];
          }
        }
        SortedCons(r[0], rest);
      } else {
        var rest := Merged(l[1..], r);
        MergedSorted(l[1..], r);
        MergedPermutation(l[1..], r);
        forall y | y in rest ensures Le(l[0], y) {
          assert y in multiset(rest);
          if y in r {
            var k :| 0 <= k < |r| && r[k] == y;
            if k > 0 { LeTransitive(l[0], r[0], y); }
          } else {
            assert y in l[1..];
          }
        }
        SortedCons(l[0], rest);
      }
    }
  }

  /** Merging loses and invents nothing: the result is a permutation of `l + r`. */
  lemma {:induction false} MergedPermutation(l: seq<FileRecord>, r: seq<FileRecord>)
    ensures multiset(Merged(l, r)) == multiset(l) + multiset(r)
    decreases |l| + |r|
  {
    if l != [] && r != [] {
      if Cmp(l[0], r[0]) == Greater {
        var rest := Merged(l, r[1..]);
        assert Merged(l, r) == [r[0]] + rest;
        MergedPermutation(l, r[1..]);
        HeadTail(r);
        assert multiset(r) == multiset{r[0]} + multiset(r[1..]);
      } else {
        var rest := Merged(l[1..], r);
        assert Merged(l, r) == [l[0]] + rest;
        MergedPermutation(l[1..], r);
        HeadTail(l);
        assert multiset(l) == multiset{l[0]} + multiset(l[1..]);
      }
    }
  }

  /** When nothing on the left comes after anything on the right, merging concatenates. */
  lemma {:induction false} MergedOrdered(l: seq<FileRecord>, r: seq<FileRecord>)
    requires forall x, y :: x in l && y in r ==> Le(x, y)
    ensures Merged(l, r) == l + r
    decreases |l|
  {
    if l == [] {
    } else if r == [] {
    } else {
      assert l[0] in l && r[0] in r;
      assert Merged(l, r) == [l[0]] + Merged(l[1..], r);
      MergedOrdered(l[1..], r);
      AppendAssoc([l[0]], l[1..], r);
      HeadTail(l);
    }
  }

  /**
   * One step of the merge loop: if the records still to be merged from
   * positions `i` and `j` make up `m[k..]`, the next one written is `m[k]`.
   */
  lemma MergedStep(l: seq<FileRecord>, r: seq<FileRecord>, i: nat, j: nat, m: seq<FileRecord>, k: nat)
    requires i < |l| && j < |r| && k <= |m| && Merged(l[i..], r[j..]) == m[k..]
    ensures k < |m|
    ensures Cmp(l[i], r[j]) != Greater ==> m[k] == l[i] && Merged(l[i + 1..], r[j..]) == m[k + 1..]
    ensures Cmp(l[i], r[j]) == Greater ==> m[k] == r[j] && Merged(l[i..], r[j + 1..]) == m[k + 1..]
  {
    assert l[i..][0] == l[i] && l[i..][1..] == l[i + 1..];
    assert r[j..][0] == r[j] && r[j..][1..] == r[j + 1..];
    assert m[k..][0] == m[k] && m[k..][1..] == m[k + 1..];
  }

  // ---------------------------------------------------------------------------
  // Stability
  // ---------------------------------------------------------------------------

  lemma {:induction false} EquivalentsConcat(a: seq<FileRecord>, b: seq<FileRecord>, x: FileRecord)
    ensures Equivalents(a + b, x) == Equivalents(a, x) + Equivalents(b, x)
    decreases |a|
  {
    if a != [] {
      assert (a + b)[1..] == a[1..] + b;
      EquivalentsConcat(a[1..], b, x);
    } else {
      assert a + b == b;
    }
  }

  /** A sorted sequence that starts after `x` holds nothing Equal to `x`. */
  lemma {:induction false} EquivalentsAfter(s: seq<FileRecord>, x: FileRecord)
    requires Sorted(s) && s != [] && Cmp(x, s[0]) == Less
    ensures Equivalents(s, x) == []
    decreases |s|
  {
    CmpAntisymmetric(x, s[0]);
    if |s| > 1 {
      LtLeTransitive(x, s[0], s[1]);
      EquivalentsAfter(s[1..], x);
    }
  }

  /**
   * The left tie-break of `merge`: the records Equal to `x` come out as those of
   * the left input followed by those of the right input.
   */
  lemma {:induction false} MergedStable(l: seq<FileRecord>, r: seq<FileRecord>, x: FileRecord)
    requires Sorted(l) && Sorted(r)
    ensures Equivalents(Merged(l, r), x) == Equivalents(l, x) + Equivalents(r, x)
    decreases |l| + |r|
  {
    if l == [] {
    } else if r == [] {
    } else if Cmp(l[0], r[0]) == Greater {
      var rest := Merged(l, r[1..]);
      assert Merged(l, r) == [r[0]] + rest;
      var head := if Cmp(r[0], x) == Equal then [r[0]] else [];
      assert Equivalents([r[0]] + rest, x) == head + Equivalents(rest, x);
      assert Equivalents(r, x) == head + Equivalents(r[1..], x);
      MergedStable(l, r[1..], x);
      if Cmp(r[0], x) == Equal {
        CmpAntisymmetric(l[0], r[0]);
        assert Cmp(x, l[0]) == Less;
        EquivalentsAfter(l, x);
      }
    } else {
      var rest := Merged(l[1..], r);
      assert Merged(l, r) == [l[0]] + rest;
      var head := if Cmp(l[0], x) == Equal then [l[0]] else [];
      assert Equivalents([l[0]] + rest, x) == head + Equivalents(rest, x);
      assert Equivalents(l, x) == head + Equivalents(l[1..], x);
      MergedStable(l[1..], r, x);
    }
  }

  // ---------------------------------------------------------------------------
  // Properties of MergeSorted
  // ---------------------------------------------------------------------------

  /** The sort is a permutation of its input. */
  lemma {:induction false} MergeSortedPermutation(s: seq<FileRecord>)
    ensures multiset(MergeSorted(s)) == multiset(s)
    decreases |s|
  {
    if |s| >= 2 {
      var mid := |s| / 2;
      var a, b := s[..mid], s[mid..];
      var sa, sb := MergeSorted(a), MergeSorted(b);
      assert MergeSorted(s) == Merged(sa, sb);
      MergeSortedPermutation(a);
      MergeSortedPermutation(b);
      MergedPermutation(sa, sb);
      SplitAt(s, mid);
    }
  }

  /** The result of the sort is sorted. */
  lemma {:induction false} MergeSortedSorted(s: seq<FileRecord>)
    ensures Sorted(MergeSorted(s))
    decreases |s|
  {
    if |s| >= 2 {
      var mid := |s| / 2;
      MergeSortedSorted(s[..mid]);
      MergeSortedSorted(s[mid..]);
      MergedSorted(MergeSorted(s[..mid]), MergeSorted(s[mid..]));
    }
  }

  /** The sort is stable: records Equal under `Cmp` keep their input order. */
  lemma {:induction false} MergeSortedStable(s: seq<FileRecord>, x: FileRecord)
    ensures Equivalents(MergeSorted(s), x) == Equivalents(s, x)
    decreases |s|
  {
    if |s| >= 2 {
      var mid := |s| / 2;
      var a, b := s[..mid], s[mid..];
      assert MergeSorted(s) == Merged(MergeSorted(a), MergeSorted(b));
      MergeSortedStable(a, x);
      MergeSortedStable(b, x);
      MergeSortedSorted(a);
      MergeSortedSorted(b);
      MergedStable(MergeSorted(a), MergeSorted(b), x);
      SplitAt(s, mid);
      EquivalentsConcat(a, b, x);
    }
  }

  /** Every slice of a sorted sequence is sorted. */
  lemma SortedSlice(s: seq<FileRecord>, lo: nat, hi: nat)
    requires Sorted(s) && lo <= hi <= |s|
    ensures Sorted(s[lo..hi])
  {
    var t := s[lo..hi];
    forall i, j | 0 <= i < j < |t| ensures Le(t[i], t[j]) {
      assert t[i] == s[lo + i] && t[j] == s[lo + j];
    }
  }

  /** In a sorted sequence, nothing before a split point comes after anything behind it. */
  lemma SortedSplit(s: seq<FileRecord>, mid: nat)
    requires Sorted(s) && mid <= |s|
    ensures forall x, y :: x in s[..mid] && y in s[mid..] ==> Le(x, y)
  {
    forall x, y | x in s[..mid] && y in s[mid..] ensures Le(x, y) {
      var i :| 0 <= i < mid && s[..mid][i] == x;
      var j :| 0 <= j < |s| - mid && s[mid..][j] == y;
      assert s[i] == x && s[mid + j] == y;
    }
  }

  /** Sorting an already sorted sequence leaves it as it is. */
  lemma {:induction false} MergeSortedIdempotent(s: seq<FileRecord>)
    requires Sorted(s)
    ensures MergeSorted(s) == s
    decreases |s|
  {
    if |s| >= 2 {
      var mid := |s| / 2;
      var a, b := s[..mid], s[mid..];
      assert MergeSorted(a) == a by {
        SortedSlice(s, 0, mid);
        assert s[0..mid] == a;
        MergeSortedIdempotent(a);
      }
      assert MergeSorted(b) == b by {
        SortedSlice(s, mid, |s|);
        assert s[mid..|s|] == b;
        MergeSortedIdempotent(b);
      }
      assert Merged(a, b) == a + b by {
        SortedSplit(s, mid);
        MergedOrdered(a, b);
      }
      assert MergeSorted(s) == Merged(MergeSorted(a), MergeSorted(b));
      SplitAt(s, mid);
    }
  }

  /** Sequences of length 0 or 1 are returned unchanged. */
  lemma MergeSortedShort(s: seq<FileRecord>)
    requires |s| < 2
    ensures MergeSorted(s) == s && Sorted(s)
  {
  }

  // ---------------------------------------------------------------------------
  // The in-place implementation
  // ---------------------------------------------------------------------------

  /**
   * `merge`: a three-pointer loop writing the smaller head into `arr`, the left
   * one on a tie, then a bulk copy of whatever remains of the side not yet
   * exhausted. The halves are copies that `merge` only reads, so they are
   * passed as values.
   */
  method Merge(arr: array<FileRecord>, left: seq<FileRecord>, right: seq<FileRecord>)
    requires arr.Length == |left| + |right|
    modifies arr
    ensures arr[..] == Merged(left, right)
    ensures multiset(arr[..]) == multiset(left) + multiset(right)
  {
    ghost var m := Merged(left, right);
    var i, j, k := 0, 0, 0;
    while i < |left| && j < |right|
      invariant 0 <= i <= |left| && 0 <= j <= |right| && k == i + j
      invariant forall t :: 0 <= t < k ==> arr[t] == m[t]
      invariant Merged(left[i..], right[j..]) == m[k..]
    {
      MergedStep(left, right, i, j, m, k);
      // Ties go to the left half, which is what makes the sort stable.
      var takeLeft := match Cmp(left[i], right[j])
        case Less => true
        case Greater => false
        case Equal => true;
      if takeLeft {
        assert m[k] == left[i] && Merged(left[i + 1..], right[j..]) == m[k + 1..];
        arr[k] := left[i];
        i := i + 1;
      } else {
        assert m[k] == right[j] && Merged(left[i..], right[j + 1..]) == m[k + 1..];
        arr[k] := right[j];
        j := j + 1;
      }
      k := k + 1;
    }
    if i < |left| {
      CopyFrom(arr, k, left[i..]);
    }
    if j < |right| {
      CopyFrom(arr, k, right[j..]);
    }
    assert arr[..] == m by {
      assert arr[..k] == m[..k];
      SplitAt(m, k);
    }
    MergedPermutation(left, right);
  }

  /** `arr[k..].clone_from_slice(src)`: overwrite the tail of `arr` from `k` on with `src`. */
  method CopyFrom(arr: array<FileRecord>, k: nat, src: seq<FileRecord>)
    requires k + |src| == arr.Length
    modifies arr
    ensures arr[..] == old(arr[..k]) + src
  {
    forall t | k <= t < arr.Length {
      arr[t] := src[t - k];
    }
  }

  /**
   * `sort`: copy the two halves, sort each, merge them back into `arr`. The
   * source sorts the left half on a spawned thread; the result is the same.
   */
  method Sort(arr: array<FileRecord>)
    modifies arr
    ensures arr[..] == MergeSorted(old(arr[..]))
    ensures arr.Length < 2 ==> arr[..] == old(arr[..])
    decreases arr.Length
  {
    ghost var input := arr[..];
    var len := arr.Length;
    if len < 2 {
      return;
    }
    assert MergeSorted(input) == Merged(MergeSorted(input[..len / 2]), MergeSorted(input[len / 2..]));
    var mid := len / 2;
    var left := new FileRecord[mid](i reads arr requires 0 <= i < mid => arr[i]);
    var right := new FileRecord[len - mid](i reads arr requires 0 <= i < len - mid => arr[mid + i]);
    assert left[..] == input[..mid];
    assert right[..] == input[mid..];
    Sort(left);
    Sort(right);
    Merge(arr, left[..], right[..]);
  }
}
