/** The directory-entry record that a search produces and the order it is sorted by. */
module Records {

  /** Rust's `std::cmp::Ordering`. */
  datatype Ordering = Less | Equal | Greater

  /** The ordering seen from the other side: `b.cmp(a)` given `a.cmp(b)`. */
  function Reverse(o: Ordering): Ordering
  {
    match o
    case Less => Greater
    case Equal => Equal
    case Greater => Less
  }

  /**
   * One filesystem entry. Only `isDirectory` and `name` take part in comparisons;
   * `path`, `icon` and `ext` are payload.
   */
  datatype FileRecord = FileRecord(
    name: string,
    path: string,
    isDirectory: bool,
    icon: string,
    ext: string)

  // ---------------------------------------------------------------------------
  // String order
  // ---------------------------------------------------------------------------

  /**
   * `String::cmp`: lexicographic, element by element. Rust compares the UTF-8
   * bytes, and UTF-8 byte order coincides with code point order, so comparing
   * the characters one by one gives the same answer.
   */
  function CompareNames(a: string, b: string): (r: Ordering)
    ensures r == Equal <==> a == b
    decreases |a|
  {
    if a == [] then (if b == [] then Equal else Less)
    else if b == [] then Greater
    else if a[0] < b[0] then Less
    else if a[0] > b[0] then Greater
    else CompareNames(a[1..], b[1..])
  }

  /**
   * The textbook definition of "a comes strictly before b": a is a proper prefix
   * of b, or they agree up to a first position where a's character is smaller.
   */
  ghost predicate LexLess(a: string, b: string)
  {
    (|a| < |b| && a == b[..|a|]) ||
    (exists k :: 0 <= k < |a| && k < |b| && a[..k] == b[..k] && a[k] < b[k])
  }

  /** `CompareNames` returns Less exactly when `a` is lexicographically smaller. */
  lemma {:induction false} CompareNamesIsLex(a: string, b: string)
    ensures CompareNames(a, b) == Less <==> LexLess(a, b)
    decreases |a|
  {
    if a == [] || b == [] {
    } else if a[0] < b[0] {
      assert a[..0] == b[..0];
    } else if a[0] > b[0] {
    } else {
      CompareNamesIsLex(a[1..], b[1..]);
      if LexLess(a, b) {
        LexLessTail(a, b);
      }
      if LexLess(a[1..], b[1..]) {
        LexLessUntail(a, b);
      }
    }
  }

  /** Dropping an equal first character keeps `a` before `b`. */
  lemma LexLessTail(a: string, b: string)
    requires a != [] && b != [] && a[0] == b[0] && LexLess(a, b)
    ensures LexLess(a[1..], b[1..])
  {
    var a', b' := a[1..], b[1..];
    if |a| < |b| && a == b[..|a|] {
      assert a' == b'[..|a'|];
    } else {
      var k :| 0 <= k < |a| && k < |b| && a[..k] == b[..k] && a[k] < b[k];
      assert k > 0;
      assert a'[..k - 1] == a[1..k] == b[1..k] == b'[..k - 1];
      assert a'[k - 1] < b'[k - 1];
    }
  }

  /** Putting an equal first character back keeps `a` before `b`. */
  lemma LexLessUntail(a: string, b: string)
    requires a != [] && b != [] && a[0] == b[0] && LexLess(a[1..], b[1..])
    ensures LexLess(a, b)
  {
    var a', b' := a[1..], b[1..];
    if |a'| < |b'| && a' == b'[..|a'|] {
      assert a == [a[0]] + a' && b[..|a|] == [b[0]] + b'[..|a'|];
    } else {
      var k :| 0 <= k < |a'| && k < |b'| && a'[..k] == b'[..k] && a'[k] < b'[k];
      assert a[..k + 1] == [a[0]] + a'[..k] && b[..k + 1] == [b[0]] + b'[..k];
      assert a[k + 1] < b[k + 1];
    }
  }

  /** Comparing the other way round gives the reversed answer. */
  lemma {:induction false} CompareNamesReverse(a: string, b: string)
    ensures CompareNames(b, a) == Reverse(CompareNames(a, b))
    decreases |a|
  {
    if a != [] && b != [] && a[0] == b[0] {
      CompareNamesReverse(a[1..], b[1..]);
    }
  }

  /** "Not after" is transitive on names. */
  lemma {:induction false} CompareNamesTransitive(a: string, b: string, c: string)
    requires CompareNames(a, b) != Greater && CompareNames(b, c) != Greater
    ensures CompareNames(a, c) != Greater
    decreases |a|
  {
    if a != [] && b != [] && c != [] && a[0] == b[0] == c[0] {
      CompareNamesTransitive(a[1..], b[1..], c[1..]);
    }
  }

  // ---------------------------------------------------------------------------
  // Record order and equality
  // ---------------------------------------------------------------------------

  /** `Ord::cmp` for records: directories first, then names ascending. */
  function Cmp(a: FileRecord, b: FileRecord): (r: Ordering)
    ensures a.isDirectory && !b.isDirectory ==> r == Less
    ensures !a.isDirectory && b.isDirectory ==> r == Greater
    ensures r == Equal <==> a.isDirectory == b.isDirectory && a.name == b.name
  {
    if a.isDirectory && !b.isDirectory then Less
    else if !a.isDirectory && b.isDirectory then Greater
    else CompareNames(a.name, b.name)
  }

  /** `a` may stand before `b` in a sorted list. */
  predicate Le(a: FileRecord, b: FileRecord)
  {
    Cmp(a, b) != Greater
  }

  /** `PartialEq::eq` for records: only the directory flag is compared. */
  predicate Eq(a: FileRecord, b: FileRecord): (r: bool)
    ensures r ==> Cmp(a, b) == CompareNames(a.name, b.name)
    ensures !r ==> Cmp(a, b) != Equal
  {
    a.isDirectory == b.isDirectory
  }

  /** Between two records of the same kind, `Cmp` is the name order. */
  lemma {:induction false} CmpSameKind(a: FileRecord, b: FileRecord)
    requires a.isDirectory == b.isDirectory
    ensures Cmp(a, b) == Less <==> LexLess(a.name, b.name)
    ensures Cmp(a, b) == Greater <==> LexLess(b.name, a.name)
  {
    CompareNamesIsLex(a.name, b.name);
    CompareNamesIsLex(b.name, a.name);
    CompareNamesReverse(a.name, b.name);
  }

  /** `Cmp` is antisymmetric: `a < b` exactly when `b > a`. */
  lemma CmpAntisymmetric(a: FileRecord, b: FileRecord)
    ensures Cmp(a, b) == Less <==> Cmp(b, a) == Greater
    ensures Cmp(b, a) == Reverse(Cmp(a, b))
  {
    CompareNamesReverse(a.name, b.name);
  }

  /** Any two records can be put in some order. */
  lemma LeTotal(a: FileRecord, b: FileRecord)
    ensures Le(a, b) || Le(b, a)
  {
    CmpAntisymmetric(a, b);
  }

  /** `Le` is transitive, so `Cmp` is a total preorder. */
  lemma LeTransitive(a: FileRecord, b: FileRecord, c: FileRecord)
    requires Le(a, b) && Le(b, c)
    ensures Le(a, c)
  {
    if a.isDirectory == b.isDirectory == c.isDirectory {
      CompareNamesTransitive(a.name, b.name, c.name);
    }
  }

  /** A strict step followed by a weak one is strict. */
  lemma LtLeTransitive(a: FileRecord, b: FileRecord, c: FileRecord)
    requires Cmp(a, b) == Less && Le(b, c)
    ensures Cmp(a, c) == Less
  {
    LeTransitive(a, b, c);
    CmpAntisymmetric(b, c);
  }

  /**
   * `Eq` is coarser than `Cmp`: records that `Cmp` calls Equal are `Eq`, but two
   * files (or two directories) with different names are `Eq` although `Cmp`
   * orders them.
   */
  lemma EqVersusCmp(a: FileRecord, b: FileRecord)
    ensures Cmp(a, b) == Equal ==> Eq(a, b)
    ensures Eq(a, b) && a.name != b.name ==> Cmp(a, b) != Equal
  {
  }
}
