/** Ranges of integers and the tests between them (nl_range_*), with the integer results of the
    originals.  Integers are unbounded here. */
module Ranges {

  datatype Range = Range(from: int, to: int)

  predicate Has(r: Range, x: int) { r.from <= x <= r.to }

  function RangeSet(v1: int, v2: int): Range {
    if v1 <= v2 then Range(v1, v2) else Range(v2, v1)
  }

  predicate Check(r: Range) { r.from <= r.to }

  function Compare(r1: Range, r2: Range): int {
    if !Check(r1) || !Check(r2) then 0
    else if r1 == r2 then 0
    else if r1.to < r2.from then -1
    else 1
  }

  predicate Intersects(r1: Range, r2: Range) {
    && Check(r1) && Check(r2)
    && (|| (r2.to == r2.from && r1.from <= r2.to <= r1.to)
        || (r1.to == r1.from && r2.from <= r1.to <= r2.to)
        || (r2.to >= r1.from && r2.from <= r1.to)
        || (r1.to >= r2.from && r1.from <= r2.to))
  }

  function Contiguous(r1: Range, r2: Range): int {
    if !Check(r1) || !Check(r2) then -1
    else if r1.to + 1 != r2.from && r1.from - 1 != r2.to then 0
    else if r1.to < r2.from then 1
    else 2
  }

  function Includes(r1: Range, r2: Range): int {
    if !Check(r1) || !Check(r2) then -1
    else if r2.from >= r1.from && r2.to <= r1.to then 1
    else if r1.from >= r2.from && r1.to <= r2.to then 2
    else 0
  }

  /** The union overwrites `out` when it succeeds and leaves it alone when it does not. */
  function UnionInto(r1: Range, r2: Range, out: Range): (int, Range) {
    if !Check(r1) || !Check(r2) then (-1, out)
    else if !Intersects(r1, r2) && Contiguous(r1, r2) == 0 then (-1, out)
    else (0, Range(if r1.from < r2.from then r1.from else r2.from, if r1.to > r2.to then r1.to else r2.to))
  }

  /** There is at least one integer between the two ranges. */
  predicate Apart(r1: Range, r2: Range) { r1.to + 1 < r2.from || r2.to + 1 < r1.from }

  /** The two tests of the merging pass, on ranges in order: both negative means a gap between. */
  lemma ApartIffNeither(r1: Range, r2: Range)
    requires Check(r1) && Check(r2)
    ensures !Intersects(r1, r2) && Contiguous(r1, r2) == 0 <==> Apart(r1, r2)
    ensures Intersects(r1, r2) <==> exists x :: Has(r1, x) && Has(r2, x)
    ensures !Apart(r1, r2) ==> forall x :: Has(UnionInto(r1, r2, r2).1, x) <==> Has(r1, x) || Has(r2, x)
  {
    if Intersects(r1, r2) {
      var x := if r1.from < r2.from then r2.from else r1.from;
      assert Has(r1, x) && Has(r2, x);
    }
  }

  /** A range set from two bounds holds what is between them, in whichever order they come. */
  lemma SetHoldsBetween(v1: int, v2: int, x: int)
    ensures Has(RangeSet(v1, v2), x) <==> v1 <= x <= v2 || v2 <= x <= v1
  {
  }

  /** The inclusion test on well-formed ranges: 1 when the second is a subset of the first, 2 when only the
      first is one of the second, 0 when neither is. */
  lemma IncludesIffSubset(r1: Range, r2: Range)
    requires Check(r1) && Check(r2)
    ensures Includes(r1, r2) == 1 <==> forall x :: Has(r2, x) ==> Has(r1, x)
    ensures Includes(r1, r2) == 2 <==>
            (forall x :: Has(r1, x) ==> Has(r2, x)) && !(forall x :: Has(r2, x) ==> Has(r1, x))
    ensures Includes(r1, r2) in {0, 1, 2}
  {
    assert Has(r1, r1.from) && Has(r1, r1.to) && Has(r2, r2.from) && Has(r2, r2.to);
  }

  /** The contiguity test: 1 when the first range ends right before the second, 2 when it starts right
      after it, 0 when neither, -1 when one of them is not well formed. */
  lemma ContiguousIff(r1: Range, r2: Range)
    ensures Contiguous(r1, r2) == 1 <==> Check(r1) && Check(r2) && r1.to + 1 == r2.from
    ensures Contiguous(r1, r2) == 2 <==> Check(r1) && Check(r2) && r2.to + 1 == r1.from
    ensures Contiguous(r1, r2) == -1 <==> !Check(r1) || !Check(r2)
    ensures Contiguous(r1, r2) in {-1, 0, 1, 2}
  {
  }

  ghost predicate PairwiseApart(s: seq<Range>) {
    && (forall i :: 0 <= i < |s| ==> Check(s[i]))
    && (forall i, j :: 0 <= i < j < |s| ==> Apart(s[i], s[j]))
  }

  /** Strictly increasing under the comparison function. */
  ghost predicate Increasing(s: seq<Range>) {
    forall i, j :: 0 <= i < j < |s| ==> Compare(s[i], s[j]) < 0
  }

  /** The comparison function is not antisymmetric: of two distinct overlapping ranges each is greater
      than the other.  It is for exactly the other pairs. */
  lemma CompareIsAntisymmetricIff(r1: Range, r2: Range)
    ensures Compare(r1, r2) == -Compare(r2, r1) <==> r1 == r2 || !Intersects(r1, r2)
    ensures r1 != r2 && Intersects(r1, r2) ==> Compare(r1, r2) == 1 && Compare(r2, r1) == 1
    ensures !Check(r1) || !Check(r2) ==> Compare(r1, r2) == 0
    ensures Compare(r1, r2) == -1 <==> Check(r1) && Check(r2) && r1.to < r2.from
  {
  }

  /** On ranges that are pairwise apart it is a strict total order. */
  lemma CompareOrdersRangesApart(s: seq<Range>, i: nat, j: nat, k: nat)
    requires PairwiseApart(s) && i < |s| && j < |s| && k < |s|
    ensures Compare(s[i], s[j]) == 0 <==> i == j
    ensures Compare(s[i], s[j]) == -Compare(s[j], s[i])
    ensures Compare(s[i], s[j]) < 0 && Compare(s[j], s[k]) < 0 ==> Compare(s[i], s[k]) < 0
    ensures Compare(s[i], s[j]) < 0 <==> i != j && s[i].to + 1 < s[j].from
  {
  }

  // ----- canonical lists -----

  /** In increasing order, with a gap between neighbours. */
  ghost predicate Canonical(s: seq<Range>) {
    && (forall i :: 0 <= i < |s| ==> Check(s[i]))
    && (forall i, j :: 0 <= i < j < |s| ==> s[i].to + 1 < s[j].from)
  }

  /** The set of integers a list of ranges stands for. */
  ghost predicate In(s: seq<Range>, x: int) {
    exists i :: 0 <= i < |s| && Has(s[i], x)
  }

  lemma InPrefix(s: seq<Range>, i: nat, x: int)
    requires i < |s|
    ensures In(s[..i + 1], x) <==> In(s[..i], x) || Has(s[i], x)
  {
  }

  lemma InAppend(s: seq<Range>, r: Range, x: int)
    ensures In(s + [r], x) <==> In(s, x) || Has(r, x)
  {
    assert (s + [r])[..|s|] == s && (s + [r])[..|s| + 1] == s + [r];
    InPrefix(s + [r], |s|, x);
  }

  /** The list with the right order is unique: a set of integers has at most one canonical list.
      So the canonical form and the set together determine the result of an operation. */
  lemma {:induction false} CanonicalIsUnique(s: seq<Range>, t: seq<Range>)
    requires Canonical(s) && Canonical(t)
    requires forall x :: In(s, x) <==> In(t, x)
    ensures s == t
    decreases |s|
  {
    assert s == [] <==> t == [] by {
      if s != [] { FirstIsIn(s); }
      if t != [] { FirstIsIn(t); }
    }
    if s != [] {
      FirstRangesAgree(s, t);
      forall x ensures In(s[1..], x) <==> In(t[1..], x) {
        InTail(s, x);
        InTail(t, x);
      }
      CanonicalIsUnique(s[1..], t[1..]);
      assert s == [s[0]] + s[1..] && t == [t[0]] + t[1..];
    }
  }

  lemma FirstIsIn(s: seq<Range>)
    requires Canonical(s) && s != []
    ensures In(s, s[0].from)
  {
  }

  lemma InTail(s: seq<Range>, x: int)
    requires Canonical(s) && s != []
    ensures In(s[1..], x) <==> In(s, x) && x > s[0].to
  {
  }

  /** The least element and the end of the first run are determined by the set. */
  lemma FirstRangesAgree(s: seq<Range>, t: seq<Range>)
    requires Canonical(s) && Canonical(t) && s != [] && t != []
    requires forall x :: In(s, x) <==> In(t, x)
    ensures s[0] == t[0]
  {
    LeastIn(s, t);
    LeastIn(t, s);
    RunEnd(s, t);
    RunEnd(t, s);
  }

  lemma LeastIn(s: seq<Range>, t: seq<Range>)
    requires Canonical(s) && Canonical(t) && s != [] && t != []
    requires forall x :: In(s, x) ==> In(t, x)
    ensures t[0].from <= s[0].from
  {
    assert Has(s[0], s[0].from);
    assert In(s, s[0].from);
    var i :| 0 <= i < |t| && Has(t[i], s[0].from);
    if i > 0 { assert t[0].to + 1 < t[i].from; }
  }

  lemma RunEnd(s: seq<Range>, t: seq<Range>)
    requires Canonical(s) && Canonical(t) && s != [] && t != [] && s[0].from == t[0].from
    requires forall x :: In(s, x) ==> In(t, x)
    ensures s[0].to <= t[0].to
  {
    var x := t[0].to + 1;
    assert !In(t, x) by {
      forall i | 0 <= i < |t| ensures !Has(t[i], x) {
        if i > 0 { assert t[0].to + 1 < t[i].from; }
      }
    }
    assert !Has(s[0], x);
  }
}
