/** Option and Result values shared by the crosswalk modules, and a subsequence relation. */
module Base {

  /** An optional value; `None` stands for Python's `None` or a pandas NaN. */
  datatype Option<+T> = None | Some(value: T)

  /** A table cell: pandas NaN or a string. */
  datatype Cell = Missing | Value(text: string)

  /** How Python renders a cell in an f-string or through `astype(str)`: NaN becomes "nan". */
  function Show(c: Cell): string
  {
    match c
    case Missing => "nan"
    case Value(s) => s
  }

  /** The outcome of an operation that can raise. */
  datatype Result<+T, +E> = Ok(value: T) | Err(error: E)

  /** `a` occurs inside `b` in the same order, possibly with gaps. */
  predicate IsSubseq<T(==)>(a: seq<T>, b: seq<T>)
    decreases |b|
  {
    if a == [] then true
    else if b == [] then false
    else if a[0] == b[0] then IsSubseq(a[1..], b[1..])
    else IsSubseq(a, b[1..])
  }

  /** A non-empty sequence is its head followed by its tail. */
  lemma ConsSplit<T>(s: seq<T>)
    requires |s| > 0
    ensures s == [s[0]] + s[1..]
  {
  }

  /** Dropping the head of a cons gives the tail back. */
  lemma ConsTail<T>(x: T, s: seq<T>)
    ensures ([x] + s)[1..] == s && |[x] + s| == |s| + 1 && ([x] + s)[0] == x
  {
  }

  /** A suffix is its first element followed by the next suffix. */
  lemma SuffixCons<T>(s: seq<T>, k: nat)
    requires k < |s|
    ensures s[k..] == [s[k]] + s[k + 1..]
  {
  }

  /** A sequence is its prefix followed by its suffix. */
  lemma SplitAt<T>(s: seq<T>, k: nat)
    requires k <= |s|
    ensures s == s[..k] + s[k..]
  {
  }

  /** Every sequence is a subsequence of itself with any suffix appended. */
  lemma {:induction false} SubseqOfSelf<T>(a: seq<T>)
    ensures IsSubseq(a, a)
  {
    if a != [] {
      SubseqOfSelf(a[1..]);
    }
  }

  /** Appending to the larger sequence keeps a subsequence. */
  lemma {:induction false} SubseqSnoc<T>(a: seq<T>, b: seq<T>, y: T)
    requires IsSubseq(a, b)
    ensures IsSubseq(a, b + [y])
    decreases |b|
  {
    if a != [] && b != [] {
      assert (b + [y])[1..] == b[1..] + [y];
      if a[0] == b[0] {
        SubseqSnoc(a[1..], b[1..], y);
      } else {
        SubseqSnoc(a, b[1..], y);
      }
    }
  }

  /** Appending the same element to both sides keeps a subsequence. */
  lemma {:induction false} SubseqSnocBoth<T>(a: seq<T>, b: seq<T>, y: T)
    requires IsSubseq(a, b)
    ensures IsSubseq(a + [y], b + [y])
    decreases |b|
  {
    if a == [] {
      assert a + [y] == [y];
      if b != [] {
        assert (b + [y])[1..] == b[1..] + [y];
        SubseqSnocBoth(a, b[1..], y);
      }
    } else {
      assert (b + [y])[1..] == b[1..] + [y];
      assert (a + [y])[1..] == a[1..] + [y];
      assert (a + [y])[0] == a[0];
      if a[0] == b[0] {
        SubseqSnocBoth(a[1..], b[1..], y);
      } else {
        SubseqSnocBoth(a, b[1..], y);
      }
    }
  }
}
