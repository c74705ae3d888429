/**
 * Field paths and field masks, in the minimal form the document value needs:
 * a path is a sequence of segments; a mask is a set of non-empty paths kept in
 * lexicographic order without repetition.
 */
module FieldPaths {
  type FieldPath = seq<string>

  /** All segments but the last: the path of the parent. */
  function PopLast(p: FieldPath): (r: FieldPath)
    requires p != []
    ensures |r| + 1 == |p| && r <= p
  {
    p[..|p| - 1]
  }

  function LastSegment(p: FieldPath): string
    requires p != []
  {
    p[|p| - 1]
  }

  /** `q` is `p` extended by exactly one segment. */
  predicate IsImmediateParentOf(p: FieldPath, q: FieldPath) {
    |p| + 1 == |q| && p <= q
  }

  lemma SplitLast(p: FieldPath)
    requires p != []
    ensures PopLast(p) + [LastSegment(p)] == p
  {
  }

  /** Taking one more segment of a path. */
  lemma TakeOneMore(p: FieldPath, i: nat)
    requires i < |p|
    ensures p[..i + 1] == p[..i] + [p[i]]
  {
  }

  /** The running-parent test in the merge is the same as comparing parents. */
  lemma ImmediateParentIsPopLast(p: FieldPath, q: FieldPath)
    requires q != []
    ensures IsImmediateParentOf(p, q) <==> p == PopLast(q)
  {
  }

  /** Lexicographic order of segments, character by character. */
  predicate SegmentLess(a: string, b: string) {
    if a == [] then b != []
    else if b == [] then false
    else if a[0] != b[0] then a[0] < b[0]
    else SegmentLess(a[1..], b[1..])
  }

  /** Lexicographic order of paths, segment by segment. */
  predicate PathLess(p: FieldPath, q: FieldPath) {
    if p == [] then q != []
    else if q == [] then false
    else if p[0] != q[0] then SegmentLess(p[0], q[0])
    else PathLess(p[1..], q[1..])
  }

  /** A field mask: non-empty paths in strictly increasing order. */
  predicate IsFieldMask(m: seq<FieldPath>) {
    && (forall i :: 0 <= i < |m| ==> m[i] != [])
    && (forall i, j :: 0 <= i < j < |m| ==> PathLess(m[i], m[j]))
  }

  predicate Distinct<T(==)>(s: seq<T>) {
    forall i, j :: 0 <= i < j < |s| ==> s[i] != s[j]
  }

  lemma {:induction false} PathLessIrreflexive(p: FieldPath)
    ensures !PathLess(p, p)
  {
    if p != [] {
      PathLessIrreflexive(p[1..]);
    }
  }

  /** The strict order makes the paths of a mask pairwise distinct. */
  lemma FieldMaskDistinct(m: seq<FieldPath>)
    requires IsFieldMask(m)
    ensures Distinct(m)
  {
    forall i, j | 0 <= i < j < |m|
      ensures m[i] != m[j]
    {
      PathLessIrreflexive(m[i]);
    }
  }
}
