/** Sorted lists of ranges as sets of integers (nl_rangelist_*): a growable array that adding keeps
    canonical in one merging pass, and from which ranges can be removed. */
module RangeLists {
  import opened Ranges

  const DEFAULT_RANGELIST_SIZE: nat := 16
  const DEFAULT_RANGELIST_INC_SIZE: nat := 8

  /** Already inside one of the ranges? */
  method AlreadyPresent(s: seq<Range>, r: Range) returns (present: bool)
    ensures present <==> exists i :: 0 <= i < |s| && Includes(s[i], r) == 1
  {
    for i := 0 to |s|
      invariant forall k :: 0 <= k < i ==> Includes(s[k], r) != 1
    {
      if Includes(s[i], r) == 1 {
        return true;
      }
    }
    return false;
  }

  /** Where a range belongs among ranges in order. */
  method FindPlace(s: seq<Range>, x: Range) returns (pos: nat)
    requires Increasing(s) && Check(x)
    requires forall k :: 0 <= k < |s| ==> Check(s[k]) && Apart(s[k], x)
    ensures pos <= |s|
    ensures forall k :: 0 <= k < pos ==> Compare(s[k], x) < 0
    ensures forall k :: pos <= k < |s| ==> Compare(x, s[k]) < 0
  {
    pos := |s|;
    while pos > 0 && Compare(s[pos - 1], x) > 0
      invariant 0 <= pos <= |s|
      invariant forall k :: pos <= k < |s| ==> Compare(x, s[k]) < 0
    {
      pos := pos - 1;
    }
    forall k | 0 <= k < pos ensures Compare(s[k], x) < 0 {
      assert k < pos - 1 ==> Compare(s[k], s[pos - 1]) < 0;
    }
  }

  lemma InsertedElements(s: seq<Range>, x: Range, pos: nat)
    requires pos <= |s|
    ensures multiset(s[..pos] + [x] + s[pos..]) == multiset(s) + multiset{x}
  {
    assert s == s[..pos] + s[pos..];
  }

  lemma PlacedAreApart(a: seq<Range>, n: nat, out: seq<Range>)
    requires PairwiseApart(a) && n < |a| && multiset(out) == multiset(a[..n])
    ensures forall k :: 0 <= k < |out| ==> Check(out[k]) && Apart(out[k], a[n])
    ensures multiset(a[..n + 1]) == multiset(out) + multiset{a[n]}
  {
    forall k | 0 <= k < |out| ensures Check(out[k]) && Apart(out[k], a[n]) {
      assert out[k] in multiset(a[..n]);
      var i :| 0 <= i < n && a[i] == out[k];
    }
    assert a[..n + 1] == a[..n] + [a[n]];
  }

  method InsertRange(s: seq<Range>, x: Range) returns (out: seq<Range>)
    requires Increasing(s) && Check(x)
    requires forall k :: 0 <= k < |s| ==> Check(s[k]) && Apart(s[k], x)
    ensures Increasing(out) && multiset(out) == multiset(s) + multiset{x}
  {
    var pos := FindPlace(s, x);
    InsertedInOrder(s, x, pos);
    InsertedElements(s, x, pos);
    out := s[..pos] + [x] + s[pos..];
  }

  /** A sort under the comparison function, on lists where that function is an order.  The library
      routine is any such sort: `SortIsUnique` below leaves it no choice of result. */
  method SortRanges(a: seq<Range>) returns (out: seq<Range>)
    requires PairwiseApart(a) || |a| <= 1
    ensures |a| <= 1 ==> out == a
    ensures multiset(out) == multiset(a)
    ensures Increasing(out)
  {
    if |a| <= 1 {
      return a;
    }
    out := [];
    for n := 0 to |a|
      invariant multiset(out) == multiset(a[..n])
      invariant Increasing(out)
    {
      PlacedAreApart(a, n, out);
      out := InsertRange(out, a[n]);
    }
    assert a[..|a|] == a;
  }

  lemma InsertedInOrder(s: seq<Range>, x: Range, pos: nat)
    requires pos <= |s| && Increasing(s)
    requires forall k :: 0 <= k < pos ==> Compare(s[k], x) < 0
    requires forall k :: pos <= k < |s| ==> Compare(x, s[k]) < 0
    ensures Increasing(s[..pos] + [x] + s[pos..])
  {
  }

  lemma IncreasingIsCanonical(s: seq<Range>, a: seq<Range>)
    requires PairwiseApart(a) && multiset(s) == multiset(a) && Increasing(s)
    ensures Canonical(s)
    ensures forall x :: In(s, x) <==> In(a, x)
  {
    forall i | 0 <= i < |s| ensures Check(s[i]) {
      assert s[i] in multiset(a);
      var k :| 0 <= k < |a| && a[k] == s[i];
    }
    forall i, j | 0 <= i < j < |s| ensures s[i].to + 1 < s[j].from {
      assert s[i] in multiset(a) && s[j] in multiset(a);
      var k :| 0 <= k < |a| && a[k] == s[i];
      var l :| 0 <= l < |a| && a[l] == s[j];
      assert Compare(s[i], s[j]) < 0;
      assert k != l;
      assert if k < l then Apart(a[k], a[l]) else Apart(a[l], a[k]);
    }
    forall x ensures In(s, x) <==> In(a, x) {
      if i :| 0 <= i < |s| && Has(s[i], x) {
        assert s[i] in multiset(a);
        var k :| 0 <= k < |a| && a[k] == s[i];
      }
      if i :| 0 <= i < |a| && Has(a[i], x) {
        assert a[i] in multiset(s);
        var k :| 0 <= k < |s| && s[k] == a[i];
      }
    }
  }

  /** Every increasing arrangement of ranges that are apart is the same list. */
  lemma SortIsUnique(a: seq<Range>, s: seq<Range>, t: seq<Range>)
    requires PairwiseApart(a) && multiset(s) == multiset(a) && multiset(t) == multiset(a)
    requires Increasing(s) && Increasing(t)
    ensures s == t
  {
    IncreasingIsCanonical(s, a);
    IncreasingIsCanonical(t, a);
    CanonicalIsUnique(s, t);
  }

  /** What is left in a list that had a reversed range added to it; it stands for the empty set. */
  ghost predicate Spoilt(s: seq<Range>) { |s| == 1 && !Check(s[0]) }

  /** What adding the ranges of a list one by one comes to: a reversed one drops all before it. */
  function Kept(s: seq<Range>, added: seq<Range>): seq<Range> {
    if added == [] then s
    else
      var r := added[|added| - 1];
      if Check(r) then Kept(s, added[..|added| - 1]) + [r] else [r]
  }

  /** With well-formed ranges only nothing is dropped. */
  lemma {:induction false} AllKept(s: seq<Range>, added: seq<Range>)
    requires forall i :: 0 <= i < |added| ==> Check(added[i])
    ensures Kept(s, added) == s + added
  {
    if added != [] {
      AllKept(s, added[..|added| - 1]);
      assert added == added[..|added| - 1] + [added[|added| - 1]];
    }
  }

  class RangeList {
    var ranges: seq<Range>
    var capacity: nat

    ghost predicate Valid()
      reads this
    {
      capacity >= 1 && |ranges| <= capacity && Canonical(ranges)
    }

    /** Valid, or spoilt by a reversed range. */
    ghost predicate Usable()
      reads this
    {
      capacity >= 1 && |ranges| <= capacity && (Canonical(ranges) || Spoilt(ranges))
    }

    constructor ()
      ensures Valid() && ranges == [] && capacity == DEFAULT_RANGELIST_SIZE
    {
      ranges, capacity := [], DEFAULT_RANGELIST_SIZE;
    }

    method IncrementSize()
      modifies this`capacity
      ensures capacity == old(capacity) + DEFAULT_RANGELIST_INC_SIZE
    {
      capacity := capacity + DEFAULT_RANGELIST_INC_SIZE;
    }

    /** Store a range in the next cell of the array, growing the array first when it is full. */
    method Append(r: Range)
      requires |ranges| <= capacity
      modifies this
      ensures ranges == old(ranges) + [r] && |ranges| <= capacity && capacity >= old(capacity)
    {
      if |ranges| == capacity {
        IncrementSize();
      }
      ranges := ranges + [r];
    }

    method CopyFrom(other: RangeList)
      requires |other.ranges| <= other.capacity
      modifies this
      ensures ranges == other.ranges && capacity == other.capacity
    {
      ranges, capacity := other.ranges, other.capacity;
    }

    /** The merging pass: ranges apart from `r` are kept in `this`, the others are merged into `r`,
        which may grow as the pass goes.  What was kept stays apart from what `r` grows into.
        A reversed range is recognised by no test: where either is reversed the stored range is taken
        for one to merge, the merge fails, and the stored range is not copied. */
    method MergePass(s: seq<Range>, r0: Range) returns (r: Range)
      requires (Canonical(s) || Spoilt(s)) && ranges == [] && capacity >= 1
      modifies this
      ensures capacity >= old(capacity) && |ranges| <= capacity
      ensures Check(r0) ==> PairwiseApart(ranges + [r])
      ensures Check(r0) ==> forall x :: In(ranges + [r], x) <==> In(s, x) || Has(r0, x)
      ensures !Check(r0) ==> ranges == [] && r == r0
    {
      r := r0;
      for i := 0 to |s|
        invariant |ranges| <= capacity && capacity >= old(capacity)
        invariant Check(r) <==> Check(r0)
        invariant PairwiseApart(ranges)
        invariant forall k :: 0 <= k < |ranges| ==> Apart(ranges[k], r)
        invariant forall k, j :: 0 <= k < |ranges| && i <= j < |s| ==> ranges[k].to + 1 < s[j].from
        invariant forall x :: In(ranges, x) || Has(r, x) <==> (Check(r0) && In(s[..i], x)) || Has(r0, x)
        invariant !Check(r0) ==> ranges == [] && r == r0
      {
        ghost var was, r1 := ranges, r;
        if Check(r) && Check(s[i]) { ApartIffNeither(s[i], r); }
        if !Intersects(s[i], r) && Contiguous(s[i], r) == 0 {
          Append(s[i]);
          assert forall k :: 0 <= k < |was| ==> ranges[k] == was[k];
          forall x ensures In(ranges, x) <==> In(was, x) || Has(s[i], x) {
            InAppend(was, s[i], x);
          }
        } else {
          r := UnionInto(s[i], r, r).1;
          forall k | 0 <= k < |ranges| ensures Apart(ranges[k], r) {
            assert Apart(ranges[k], r1) && ranges[k].to + 1 < s[i].from;
          }
        }
        forall x ensures In(s[..i + 1], x) <==> In(s[..i], x) || Has(s[i], x) {
          InPrefix(s, i, x);
        }
      }
      assert s[..|s|] == s;
      forall x ensures In(ranges + [r], x) <==> In(ranges, x) || Has(r, x) {
        InAppend(ranges, r, x);
      }
    }

    /** Adding a range.  A well-formed range: the list is canonical and stands for the union.  A reversed
        range: every stored range is dropped and the reversed one is all that is left. */
    method AddRange(rin: Range)
      requires Usable()
      modifies this
      ensures Usable()
      ensures Check(rin) ==> Valid()
      ensures Check(rin) ==> forall x :: In(ranges, x) <==> In(old(ranges), x) || Has(rin, x)
      ensures !Check(rin) ==> ranges == [rin]
    {
      if |ranges| == 0 {
        ranges := [rin];
        forall x ensures In(ranges, x) <==> Has(rin, x) {
          if Has(rin, x) { assert Has(ranges[0], x); }
        }
        assert forall x :: !In(old(ranges), x);
      } else {
        var present := AlreadyPresent(ranges, rin);
        if present {
          ghost var i :| 0 <= i < |ranges| && Includes(ranges[i], rin) == 1;
          assert forall x :: Has(rin, x) ==> Has(ranges[i], x);
        } else {
          var work := new RangeList();
          var r := work.MergePass(ranges, rin);
          work.Append(r);
          ghost var unsorted := work.ranges;
          work.ranges := SortRanges(work.ranges);
          assert |multiset(work.ranges)| == |multiset(unsorted)|;
          if Check(rin) {
            IncreasingIsCanonical(work.ranges, unsorted);
          }
          CopyFrom(work);
        }
      }
    }

    method AddRangelist(rlin: seq<Range>)
      requires Usable()
      modifies this
      ensures Usable()
      ensures forall x :: In(ranges, x) <==> In(Kept(old(ranges), rlin), x)
      ensures old(Valid()) && (forall i :: 0 <= i < |rlin| ==> Check(rlin[i])) ==> Valid()
    {
      for i := 0 to |rlin|
        invariant Usable()
        invariant old(Valid()) && (forall k :: 0 <= k < i ==> Check(rlin[k])) ==> Valid()
        invariant forall x :: In(ranges, x) <==> In(Kept(old(ranges), rlin[..i]), x)
      {
        AddRange(rlin[i]);
        assert rlin[..i + 1][..i] == rlin[..i];
        forall x ensures In(Kept(old(ranges), rlin[..i]) + [rlin[i]], x)
                         <==> In(Kept(old(ranges), rlin[..i]), x) || Has(rlin[i], x) {
          InAppend(Kept(old(ranges), rlin[..i]), rlin[i], x);
        }
      }
      assert rlin[..|rlin|] == rlin;
    }

    /** What is left of one stored range is added to `this`, the list being rebuilt. */
    method AddRemains(pr: Range, r: Range)
      requires Usable()
      modifies this
      ensures Usable()
      ensures old(Valid()) && Check(pr) ==> Valid()
      ensures Check(pr) ==> forall x :: In(ranges, x) <==> In(old(ranges), x) || (Has(pr, x) && !Has(r, x))
      ensures !Check(pr) ==> ranges == [pr]
    {
      if !Intersects(pr, r) {
        AddRange(pr);
      } else if pr.from != pr.to {
        if Includes(r, pr) != 1 {
          if pr.from < r.from {
            AddRange(RangeSet(pr.from, r.from - 1));
          }
          if pr.to > r.to {
            AddRange(RangeSet(r.to + 1, pr.to));
          }
        }
      }
    }

    /** Removing a range: the list stays canonical, or spoilt, and stands for the difference, for every
        range, reversed ones included (they remove nothing). */
    method RemoveRange(rin: Range)
      requires Usable()
      modifies this
      ensures Usable() && (old(Valid()) ==> Valid())
      ensures forall x :: In(ranges, x) <==> In(old(ranges), x) && !Has(rin, x)
    {
      if |ranges| != 0 {
        var work := new RangeList();
        for id := 0 to |ranges|
          invariant work.Usable() && fresh(work) && ranges == old(ranges)
          invariant Canonical(ranges) ==> work.Valid()
          invariant forall x :: In(work.ranges, x) <==> In(ranges[..id], x) && !Has(rin, x)
        {
          work.AddRemains(ranges[id], rin);
          forall x ensures In(ranges[..id + 1], x) <==> In(ranges[..id], x) || Has(ranges[id], x) {
            InPrefix(ranges, id, x);
          }
        }
        assert ranges[..|ranges|] == ranges;
        CopyFrom(work);
      }
    }

    method RemoveRangelist(rlin: seq<Range>)
      requires Usable()
      modifies this
      ensures Usable() && (old(Valid()) ==> Valid())
      ensures forall x :: In(ranges, x) <==> In(old(ranges), x) && !In(rlin, x)
    {
      for i := 0 to |rlin|
        invariant Usable() && (old(Valid()) ==> Valid())
        invariant forall x :: In(ranges, x) <==> In(old(ranges), x) && !In(rlin[..i], x)
      {
        RemoveRange(rlin[i]);
        forall x ensures In(rlin[..i + 1], x) <==> In(rlin[..i], x) || Has(rlin[i], x) {
          InPrefix(rlin, i, x);
        }
      }
      assert rlin[..|rlin|] == rlin;
    }
  }
}
