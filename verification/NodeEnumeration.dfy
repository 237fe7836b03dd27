/** Counting and visiting the nodes of one sublist (nl_nl_non_recursive_nodes_quantity, nl_map). */
module NodeEnumeration {
  import opened Ranges

  /** The integers of one interval, and how many they are. */
  ghost function Filled(from: int, to: int): (r: set<int>)
    ensures forall x :: x in r <==> from <= x <= to
    ensures |r| == (if from <= to then to - from + 1 else 0)
    decreases (to - from + 1)
  {
    if from > to then {} else Filled(from, to - 1) + {to}
  }

  /** The set of integers a range list stands for. */
  ghost function Members(s: seq<Range>): set<int> {
    if s == [] then {} else Members(s[..|s| - 1]) + Filled(s[|s| - 1].from, s[|s| - 1].to)
  }

  lemma {:induction false} MembersAreIn(s: seq<Range>, x: int)
    ensures x in Members(s) <==> In(s, x)
  {
    if s != [] {
      var n := |s| - 1;
      MembersAreIn(s[..n], x);
      InPrefix(s, n, x);
      assert s[..n + 1] == s;
    }
  }

  function Total(s: seq<Range>): int {
    if s == [] then 0 else Total(s[..|s| - 1]) + (s[|s| - 1].to - s[|s| - 1].from + 1)
  }

  /** The sum of the lengths, for a sublist of numbered nodes; one for a bare name. */
  method Quantity(basic: bool, s: seq<Range>) returns (quantity: int)
    ensures basic ==> quantity == 1
    ensures !basic ==> quantity == Total(s)
    ensures !basic && Canonical(s) ==> quantity == |Members(s)|
  {
    quantity := 0;
    if basic {
      quantity := quantity + 1;
    } else {
      for i := 0 to |s|
        invariant quantity == Total(s[..i])
      {
        assert s[..i + 1][..i] == s[..i];
        quantity := quantity + (s[i].to - s[i].from + 1);
      }
      assert s[..|s|] == s;
      if Canonical(s) {
        TotalIsCardinality(s);
      }
    }
  }

  /** On a canonical list the sum of the lengths is the size of the set: no id is counted twice. */
  lemma {:induction false} TotalIsCardinality(s: seq<Range>)
    requires Canonical(s)
    ensures Total(s) == |Members(s)|
  {
    if s != [] {
      var n := |s| - 1;
      var p, r := s[..n], s[n];
      TotalIsCardinality(p);
      forall x | x in Members(p) ensures x < r.from {
        MembersAreIn(p, x);
        var i :| 0 <= i < |p| && Has(p[i], x);
        assert p[i] == s[i];
      }
      assert Members(p) !! Filled(r.from, r.to);
    }
  }

  /** One visited node: a bare name, or a name with a number. */
  datatype Visit = Bare | Numbered(id: int)

  function Run(from: int, to: int): seq<int>
    decreases (to - from + 1)
  {
    if from > to then [] else Run(from, to - 1) + [to]
  }

  function Enumeration(s: seq<Range>): seq<int> {
    if s == [] then [] else Enumeration(s[..|s| - 1]) + Run(s[|s| - 1].from, s[|s| - 1].to)
  }

  /** The visits in the order they are made, and the status returned, for any callback.  A failing
      callback does not stop the walk: the status is that of the last visit. */
  method MapNodes(basic: bool, s: seq<Range>, callback: Visit -> int) returns (visits: seq<Visit>, status: int)
    ensures basic ==> visits == [Bare]
    ensures !basic ==> |visits| == |Enumeration(s)|
                       && forall k :: 0 <= k < |visits| ==> visits[k] == Numbered(Enumeration(s)[k])
    ensures status == if visits == [] then 0 else callback(visits[|visits| - 1])
  {
    visits, status := [], 0;
    if basic {
      visits, status := [Bare], callback(Bare);
      return;
    }
    ghost var ids: seq<int> := [];
    for i := 0 to |s|
      invariant ids == Enumeration(s[..i])
      invariant |visits| == |ids| && forall k :: 0 <= k < |visits| ==> visits[k] == Numbered(ids[k])
      invariant status == if visits == [] then 0 else callback(visits[|visits| - 1])
    {
      assert s[..i + 1][..i] == s[..i];
      var j := s[i].from;
      ghost var before := ids;
      while j <= s[i].to
        invariant s[i].from <= j && (if s[i].from <= s[i].to then j <= s[i].to + 1 else j == s[i].from)
        invariant ids == before + Run(s[i].from, j - 1)
        invariant |visits| == |ids| && forall k :: 0 <= k < |visits| ==> visits[k] == Numbered(ids[k])
        invariant status == if visits == [] then 0 else callback(visits[|visits| - 1])
      {
        status := callback(Numbered(j));
        visits := visits + [Numbered(j)];
        assert before + Run(s[i].from, j) == (before + Run(s[i].from, j - 1)) + [j];
        ids := ids + [j];
        j := j + 1;
      }
      assert Run(s[i].from, s[i].to) == Run(s[i].from, j - 1) by {
        if s[i].from > s[i].to { assert Run(s[i].from, s[i].to) == []; }
      }
    }
    assert s[..|s|] == s;
  }

  lemma {:induction false} RunIsAscending(from: int, to: int)
    ensures forall k :: 0 <= k < |Run(from, to)| ==> Run(from, to)[k] == from + k
    ensures |Run(from, to)| == (if from <= to then to - from + 1 else 0)
    decreases (to - from + 1)
  {
    if from <= to {
      RunIsAscending(from, to - 1);
    }
  }

  /** On a canonical list every id is visited exactly once, in ascending order, and the number of
      visits is the quantity reported. */
  lemma {:induction false} EnumerationIsExact(s: seq<Range>)
    requires Canonical(s)
    ensures forall k, l :: 0 <= k < l < |Enumeration(s)| ==> Enumeration(s)[k] < Enumeration(s)[l]
    ensures forall x :: x in Enumeration(s) <==> In(s, x)
    ensures |Enumeration(s)| == Total(s)
  {
    if s != [] {
      var n := |s| - 1;
      var p, r := s[..n], s[n];
      var e, run := Enumeration(p), Run(r.from, r.to);
      EnumerationIsExact(p);
      RunIsAscending(r.from, r.to);
      assert Enumeration(s) == e + run;
      forall k | 0 <= k < |e| ensures e[k] < r.from {
        assert e[k] in e;
        assert In(p, e[k]);
        var i :| 0 <= i < |p| && Has(p[i], e[k]);
        assert p[i] == s[i];
      }
      forall x ensures x in Enumeration(s) <==> In(s, x) {
        InPrefix(s, n, x);
        assert s[..n + 1] == s;
        if Has(r, x) { assert run[x - r.from] == x; }
      }
    }
  }
}
