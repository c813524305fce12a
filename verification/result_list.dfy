/** The miner's ranked result list (AddResult in
    OJWebService/Graphs/GraphMining.cs): results are kept best first, at
    most `limit` of them, and no two kept results have edge sets one of
    which contains the other. A new result goes where a binary search puts
    it; it is refused when it falls past the limit or when a better result
    is nested with it; otherwise the worse results nested with it are
    removed and the list is cut back to the limit. */
module ResultList {
  import opened PathResult

  ghost predicate AllWellFormed(rs: seq<Result>) {
    forall i {:trigger WellFormed(rs[i])} :: 0 <= i < |rs| ==> WellFormed(rs[i])
  }

  /** No result is ranked before one that comes earlier in the list. */
  predicate Sorted(rs: seq<Result>) {
    forall i, j {:trigger Precedes(rs[j], rs[i])} :: 0 <= i < j < |rs| ==> !Precedes(rs[j], rs[i])
  }

  /** One path's edge set contains the other's (IsSupersetOf / IsSubsetOf). */
  predicate Nested(a: Result, b: Result) {
    a.path.edges <= b.path.edges || b.path.edges <= a.path.edges
  }

  /** No two kept results have nested edge sets. */
  predicate NoNesting(rs: seq<Result>) {
    forall i, j :: 0 <= i < j < |rs| ==> !Nested(rs[i], rs[j])
  }

  /** CompareTo on results the miner builds, where it never throws. */
  function Compare(a: Result, b: Result): (r: int)
    requires WellFormed(a) && WellFormed(b)
    ensures r < 0 <==> Precedes(a, b)
    ensures r > 0 <==> Precedes(b, a)
    ensures r == 0 <==> a.score == b.score && a.path == b.path
  {
    CompareToMeaning(a, b);
    CompareTo(a, b).value
  }

  /** List<T>.BinarySearch between `lo` and `hi`: the position of a result
      comparing equal, or the complement of the position to insert at. */
  function Search(rs: seq<Result>, x: Result, lo: int, hi: int): (r: int)
    requires AllWellFormed(rs) && WellFormed(x)
    requires 0 <= lo <= hi + 1 <= |rs|
    ensures if r >= 0 then lo <= r <= hi else lo <= -r - 1 <= hi + 1
    decreases hi - lo + 1
  {
    if lo > hi then -lo - 1
    else
      var i := lo + (hi - lo) / 2;
      var order := Compare(rs[i], x);
      if order == 0 then i
      else if order < 0 then Search(rs, x, i + 1, hi)
      else Search(rs, x, lo, i - 1)
  }

  /** Where AddResult inserts: the search result, complemented when negative. */
  function InsertionIndex(rs: seq<Result>, x: Result): (idx: nat)
    requires AllWellFormed(rs) && WellFormed(x)
    ensures idx <= |rs|
  {
    var r := Search(rs, x, 0, |rs| - 1);
    if r < 0 then -r - 1 else r
  }

  /** The removal loop of AddResult, from position `i` down to `lo`: each
      result nested with `x` is removed. */
  function Prune(rs: seq<Result>, lo: nat, i: int, x: Result): (r: seq<Result>)
    requires lo <= |rs| && i < |rs|
    ensures lo <= |r| <= |rs|
    decreases i + 1
  {
    if i < lo then rs
    else Prune(if Nested(x, rs[i]) then rs[..i] + rs[i + 1..] else rs, lo, i - 1, x)
  }

  /** The results of `s` not nested with `x`, in order. */
  function Unnested(s: seq<Result>, x: Result): (r: seq<Result>)
    ensures |r| <= |s|
  {
    if |s| == 0 then []
    else Unnested(s[..|s| - 1], x) + (if Nested(x, s[|s| - 1]) then [] else [s[|s| - 1]])
  }

  /** Filtering keeps only results of the list, and none nested with `x`. */
  lemma {:induction false} UnnestedMembers(s: seq<Result>, x: Result)
    ensures forall y :: y in Unnested(s, x) ==> y in s && !Nested(x, y)
    decreases |s|
  {
    if |s| > 0 {
      UnnestedMembers(s[..|s| - 1], x);
    }
  }

  /** AddResult: the new list and whether `x` was added. */
  function AddResult(rs: seq<Result>, limit: int, x: Result): (r: (seq<Result>, bool))
    requires AllWellFormed(rs) && WellFormed(x)
    ensures !r.1 ==> r.0 == rs
    ensures r.1 ==> 0 < |r.0| <= limit
  {
    var idx := InsertionIndex(rs, x);
    if idx >= limit then (rs, false)
    else if exists j :: 0 <= j < idx && Nested(x, rs[j]) then (rs, false)
    else
      var kept := Prune(rs, idx, |rs| - 1, x);
      var inserted := kept[..idx] + [x] + kept[idx..];
      (if |inserted| > limit then inserted[..limit] else inserted, true)
  }

  // ---------------------------------------------------------------------
  // AddResult keeps the list ranked, unnested and short

  /** Between `lo` and `hi` the search keeps to its invariant: everything
      before the returned position may precede `x`, nothing from it on does. */
  /** `idx` splits the list for `x`: `x` precedes none of the results
      before it, and none from it on precedes `x`. */
  predicate SplitsAt(rs: seq<Result>, x: Result, lo: int, idx: int, hi: int)
  {
    && (forall j :: lo <= j < idx && 0 <= j < |rs| ==> !Precedes(x, rs[j]))
    && (forall j :: idx <= j < hi && 0 <= j < |rs| ==> !Precedes(rs[j], x))
  }

  function Position(r: int): int {
    if r < 0 then -r - 1 else r
  }

  lemma {:induction false} SearchMeaning(rs: seq<Result>, x: Result, lo: int, hi: int)
    requires AllWellFormed(rs) && WellFormed(x) && Sorted(rs)
    requires 0 <= lo <= hi + 1 <= |rs|
    requires SplitsAt(rs, x, 0, lo, lo) && SplitsAt(rs, x, hi + 1, hi + 1, |rs|)
    ensures SplitsAt(rs, x, 0, Position(Search(rs, x, lo, hi)), |rs|)
    decreases hi - lo + 1
  {
    if lo <= hi {
      var i := lo + (hi - lo) / 2;
      var order := Compare(rs[i], x);
      if order == 0 {
        SearchFound(rs, x, i);
        assert Search(rs, x, lo, hi) == i;
      } else if order < 0 {
        SearchBelow(rs, x, lo, i);
        assert SplitsAt(rs, x, 0, i + 1, i + 1);
        SearchMeaning(rs, x, i + 1, hi);
        assert Search(rs, x, lo, hi) == Search(rs, x, i + 1, hi);
      } else {
        SearchAbove(rs, x, i, hi);
        assert SplitsAt(rs, x, i, i, |rs|);
        SearchMeaning(rs, x, lo, i - 1);
        assert Search(rs, x, lo, hi) == Search(rs, x, lo, i - 1);
      }
    } else {
      assert Search(rs, x, lo, hi) == -lo - 1;
    }
  }

  /** A result with the score and path of `x` splits a ranked list as `x`
      would. */
  lemma SearchFound(rs: seq<Result>, x: Result, i: int)
    requires Sorted(rs) && 0 <= i < |rs| && rs[i].score == x.score && rs[i].path == x.path
    ensures forall j :: 0 <= j < i ==> !Precedes(x, rs[j])
    ensures forall j :: i <= j < |rs| ==> !Precedes(rs[j], x)
  {
    PrecedesIrreflexive(rs[i]);
    forall j | 0 <= j < |rs| ensures j < i ==> !Precedes(x, rs[j]) ensures i <= j ==> !Precedes(rs[j], x) {
      assert Precedes(x, rs[j]) == Precedes(rs[i], rs[j]);
      assert Precedes(rs[j], x) == Precedes(rs[j], rs[i]);
    }
  }

  /** When a result precedes `x`, `x` precedes none of the results up to it. */
  lemma SearchBelow(rs: seq<Result>, x: Result, lo: int, i: int)
    requires Sorted(rs) && 0 <= lo <= i < |rs| && Precedes(rs[i], x)
    ensures forall j :: lo <= j <= i ==> !Precedes(x, rs[j])
  {
    PrecedesIrreflexive(rs[i]);
    forall j | lo <= j <= i ensures !Precedes(x, rs[j]) {
      if Precedes(x, rs[j]) {
        PrecedesTransitive(rs[i], x, rs[j]);
        assert false;
      }
    }
  }

  /** When `x` precedes a result, none of the results from it on precedes `x`. */
  lemma SearchAbove(rs: seq<Result>, x: Result, i: int, hi: int)
    requires Sorted(rs) && 0 <= i <= hi < |rs| && Precedes(x, rs[i])
    ensures forall j :: i <= j <= hi ==> !Precedes(rs[j], x)
  {
    PrecedesIrreflexive(rs[i]);
    forall j | i <= j <= hi ensures !Precedes(rs[j], x) {
      if Precedes(rs[j], x) {
        PrecedesTransitive(rs[j], x, rs[i]);
        assert false;
      }
    }
  }

  /** The insertion index splits a ranked list into the results `x` does
      not precede and those that do not precede `x`. */
  lemma InsertionIndexMeaning(rs: seq<Result>, x: Result)
    requires AllWellFormed(rs) && WellFormed(x) && Sorted(rs)
    ensures var idx := InsertionIndex(rs, x);
      && (forall j :: 0 <= j < idx ==> !Precedes(x, rs[j]))
      && (forall j :: idx <= j < |rs| ==> !Precedes(rs[j], x))
  {
    SearchMeaning(rs, x, 0, |rs| - 1);
    assert Position(Search(rs, x, 0, |rs| - 1)) == InsertionIndex(rs, x);
  }

  /** Removing from the back leaves the untouched prefix, the unnested
      results of the scanned part, and the unscanned tail. */
  lemma {:induction false} PruneMeaning(rs: seq<Result>, lo: nat, i: int, x: Result)
    requires lo <= |rs| && lo - 1 <= i < |rs|
    ensures Prune(rs, lo, i, x) == rs[..lo] + Unnested(rs[lo..i + 1], x) + rs[i + 1..]
    decreases i + 1
  {
    if i >= lo {
      var rs' := if Nested(x, rs[i]) then rs[..i] + rs[i + 1..] else rs;
      var t := if Nested(x, rs[i]) then [] else [rs[i]];
      assert Prune(rs, lo, i, x) == Prune(rs', lo, i - 1, x);
      PruneMeaning(rs', lo, i - 1, x);
      PruneStep(rs, lo, i, x);
      assert Prune(rs, lo, i, x) == rs[..lo] + Unnested(rs[lo..i], x) + (t + rs[i + 1..]);
      Regroup(rs[..lo], Unnested(rs[lo..i], x), t, rs[i + 1..]);
    } else {
      assert rs[lo..i + 1] == [];
      assert rs == rs[..lo] + rs[lo..];
    }
  }

  /** One step of the removal loop, on the pieces of the list. */
  lemma PruneStep(rs: seq<Result>, lo: nat, i: int, x: Result)
    requires lo <= i < |rs|
    ensures var rs' := if Nested(x, rs[i]) then rs[..i] + rs[i + 1..] else rs;
      var t := if Nested(x, rs[i]) then [] else [rs[i]];
      && rs'[..lo] == rs[..lo] && rs'[lo..i] == rs[lo..i] && rs'[i..] == t + rs[i + 1..]
      && Unnested(rs[lo..i + 1], x) == Unnested(rs[lo..i], x) + t
  {
    var s := rs[lo..i + 1];
    assert s[..|s| - 1] == rs[lo..i];
    assert s[|s| - 1] == rs[i];
  }

  lemma Regroup<T>(a: seq<T>, b: seq<T>, c: seq<T>, d: seq<T>)
    ensures a + b + (c + d) == a + (b + c) + d
  {
  }

  lemma SortedSnoc(a: seq<Result>, e: Result)
    requires Sorted(a) && forall y :: y in a ==> !Precedes(e, y)
    ensures Sorted(a + [e])
  {
    forall i, j | 0 <= i < j < |a + [e]| ensures !Precedes((a + [e])[j], (a + [e])[i]) {
      if j < |a| {
        assert (a + [e])[j] == a[j] && (a + [e])[i] == a[i];
      } else {
        assert (a + [e])[i] == a[i] && a[i] in a;
      }
    }
  }

  lemma NoNestingSnoc(a: seq<Result>, e: Result)
    requires NoNesting(a) && forall y :: y in a ==> !Nested(y, e)
    ensures NoNesting(a + [e])
  {
    forall i, j | 0 <= i < j < |a + [e]| ensures !Nested((a + [e])[i], (a + [e])[j]) {
      if j < |a| {
        assert (a + [e])[j] == a[j] && (a + [e])[i] == a[i];
      } else {
        assert (a + [e])[i] == a[i] && a[i] in a;
      }
    }
  }

  /** The unnested results of a ranked, unnested list are ranked and unnested. */
  lemma {:induction false} UnnestedKeeps(s: seq<Result>, x: Result)
    requires Sorted(s) && NoNesting(s)
    ensures Sorted(Unnested(s, x)) && NoNesting(Unnested(s, x))
    decreases |s|
  {
    if |s| > 0 {
      var init := s[..|s| - 1];
      var e := s[|s| - 1];
      UnnestedKeeps(init, x);
      UnnestedMembers(init, x);
      if !Nested(x, e) {
        var a := Unnested(init, x);
        forall y | y in a ensures !Precedes(e, y) && !Nested(y, e) {
          var j :| 0 <= j < |init| && init[j] == y;
          assert s[j] == y;
        }
        SortedSnoc(a, e);
        NoNestingSnoc(a, e);
      }
    }
  }

  /** The list AddResult builds before truncation is ranked and unnested. */
  lemma JoinKeeps(a: seq<Result>, x: Result, u: seq<Result>)
    requires Sorted(a) && NoNesting(a) && Sorted(u) && NoNesting(u)
    requires forall y :: y in a ==> !Precedes(x, y) && !Nested(y, x)
    requires forall y :: y in u ==> !Precedes(y, x) && !Nested(x, y)
    requires forall y, z :: y in a && z in u ==> !Precedes(z, y) && !Nested(y, z)
    ensures Sorted(a + [x] + u) && NoNesting(a + [x] + u)
  {
    var s := a + [x] + u;
    forall i, j | 0 <= i < j < |s| ensures !Precedes(s[j], s[i]) && !Nested(s[i], s[j]) {
      if j < |a| {
        assert s[i] == a[i] && s[j] == a[j];
      } else if j == |a| {
        assert s[i] == a[i] && s[i] in a && s[j] == x;
      } else if i < |a| {
        assert s[i] == a[i] && s[i] in a && s[j] == u[j - |a| - 1] && s[j] in u;
      } else if i == |a| {
        assert s[i] == x && s[j] == u[j - |a| - 1] && s[j] in u;
      } else {
        assert s[i] == u[i - |a| - 1] && s[j] == u[j - |a| - 1];
      }
    }
  }

  /** Nesting is symmetric. */
  lemma NestedSymmetric(a: Result, b: Result)
    ensures Nested(a, b) == Nested(b, a)
  {
  }

  /** AddResult as a definition: the results ranked before the insertion
      index, then `x`, then the later results not nested with `x`, cut to
      the limit. */
  lemma AddResultShape(rs: seq<Result>, limit: int, x: Result)
    requires AllWellFormed(rs) && WellFormed(x)
    requires AddResult(rs, limit, x).1
    ensures var idx := InsertionIndex(rs, x);
      var full := Joined(rs, idx, x);
      AddResult(rs, limit, x).0 == if |full| > limit then full[..limit] else full
  {
    var idx := InsertionIndex(rs, x);
    PruneMeaning(rs, idx, |rs| - 1, x);
    var kept := Prune(rs, idx, |rs| - 1, x);
    assert rs[idx..|rs| - 1 + 1] == rs[idx..] && rs[|rs| - 1 + 1..] == [];
    assert kept[..idx] == rs[..idx];
    assert kept[idx..] == Unnested(rs[idx..], x);
  }

  /** AddResult rejects `x` exactly when its insertion index is past the
      limit or a result ranked before that index is nested with it, and
      then leaves the list as it was. */
  lemma AddResultRejects(rs: seq<Result>, limit: int, x: Result)
    requires AllWellFormed(rs) && WellFormed(x)
    ensures var idx := InsertionIndex(rs, x);
      && (AddResult(rs, limit, x).1 <==> idx < limit && forall j :: 0 <= j < idx ==> !Nested(rs[j], x))
      && (!AddResult(rs, limit, x).1 ==> AddResult(rs, limit, x).0 == rs)
  {
    var idx := InsertionIndex(rs, x);
    forall j | 0 <= j < idx ensures Nested(rs[j], x) == Nested(x, rs[j]) {
      NestedSymmetric(rs[j], x);
    }
  }

  /** When AddResult adds `x`, `x` sits at the insertion index, the results
      before it are untouched, and every result comes from the old list or
      is `x`. */
  lemma AddResultPlaces(rs: seq<Result>, limit: int, x: Result)
    requires AllWellFormed(rs) && WellFormed(x)
    requires AddResult(rs, limit, x).1
    ensures var rs' := AddResult(rs, limit, x).0;
      var idx := InsertionIndex(rs, x);
      && idx < |rs'| && rs'[idx] == x && rs'[..idx] == rs[..idx]
      && (forall y :: y in rs' ==> y in rs || y == x)
  {
    var idx := InsertionIndex(rs, x);
    var rs' := AddResult(rs, limit, x).0;
    AddResultShape(rs, limit, x);
    UnnestedMembers(rs[idx..], x);
    var full := Joined(rs, idx, x);
    assert full[idx] == x && full[..idx] == rs[..idx];
    forall y | y in full ensures y in rs || y == x {
      if y in Unnested(rs[idx..], x) {
        assert y in rs[idx..];
      }
    }
    if |full| > limit {
      assert rs' == full[..limit];
      assert forall y :: y in rs' ==> y in full;
    }
  }

  /** The list before truncation: the results ranked before the insertion
      index, `x`, and the later results not nested with `x`. */
  function Joined(rs: seq<Result>, idx: nat, x: Result): seq<Result>
    requires idx <= |rs|
  {
    rs[..idx] + [x] + Unnested(rs[idx..], x)
  }

  /** What `x` belonging at `idx` says about the results before it. */
  lemma BeforeIndex(rs: seq<Result>, idx: nat, x: Result)
    requires idx <= |rs|
    requires forall j :: 0 <= j < idx ==> !Precedes(x, rs[j]) && !Nested(x, rs[j])
    ensures forall y :: y in rs[..idx] ==> !Precedes(x, y) && !Nested(y, x)
  {
    forall y | y in rs[..idx] ensures !Precedes(x, y) && !Nested(y, x) {
      var j :| 0 <= j < idx && rs[..idx][j] == y;
      assert rs[j] == y;
    }
  }

  /** What `x` belonging at `idx` says about the kept results after it. */
  lemma AfterIndex(rs: seq<Result>, idx: nat, x: Result)
    requires idx <= |rs|
    requires forall j :: idx <= j < |rs| ==> !Precedes(rs[j], x)
    ensures forall y :: y in Unnested(rs[idx..], x) ==> !Precedes(y, x) && !Nested(x, y) && y in rs[idx..]
  {
    UnnestedMembers(rs[idx..], x);
    forall y | y in Unnested(rs[idx..], x) ensures !Precedes(y, x) {
      var j :| 0 <= j < |rs[idx..]| && rs[idx..][j] == y;
      assert rs[idx + j] == y;
    }
  }

  /** A result before `idx` and a kept one after it are in ranked order and
      not nested. */
  lemma AcrossIndex(rs: seq<Result>, idx: nat, x: Result)
    requires idx <= |rs| && Sorted(rs) && NoNesting(rs)
    ensures forall y, z :: y in rs[..idx] && z in Unnested(rs[idx..], x) ==> !Precedes(z, y) && !Nested(y, z)
  {
    UnnestedMembers(rs[idx..], x);
    forall y, z | y in rs[..idx] && z in Unnested(rs[idx..], x) ensures !Precedes(z, y) && !Nested(y, z) {
      var i :| 0 <= i < idx && rs[..idx][i] == y;
      var j :| 0 <= j < |rs[idx..]| && rs[idx..][j] == z;
      assert rs[i] == y && rs[idx + j] == z;
    }
  }

  /** Joining keeps the list ranked and unnested when `x` belongs at `idx`
      and nothing before `idx` is nested with it. */
  lemma JoinedKeeps(rs: seq<Result>, idx: nat, x: Result)
    requires idx <= |rs| && Sorted(rs) && NoNesting(rs)
    requires forall j :: 0 <= j < idx ==> !Precedes(x, rs[j]) && !Nested(x, rs[j])
    requires forall j :: idx <= j < |rs| ==> !Precedes(rs[j], x)
    ensures Sorted(Joined(rs, idx, x)) && NoNesting(Joined(rs, idx, x))
  {
    UnnestedKeeps(rs[idx..], x);
    BeforeIndex(rs, idx, x);
    AfterIndex(rs, idx, x);
    AcrossIndex(rs, idx, x);
    JoinKeeps(rs[..idx], x, Unnested(rs[idx..], x));
  }

  /** Joining keeps every result well formed. */
  lemma JoinedWellFormed(rs: seq<Result>, idx: nat, x: Result)
    requires idx <= |rs| && AllWellFormed(rs) && WellFormed(x)
    ensures AllWellFormed(Joined(rs, idx, x))
  {
    UnnestedMembers(rs[idx..], x);
    var s := Joined(rs, idx, x);
    forall i | 0 <= i < |s| ensures WellFormed(s[i]) {
      if i > idx {
        assert s[i] in Unnested(rs[idx..], x);
        assert s[i] in rs[idx..];
      }
    }
  }

  /** A prefix of a ranked, unnested, well-formed list is one too. */
  lemma PrefixKeeps(s: seq<Result>, n: nat)
    requires n <= |s| && AllWellFormed(s) && Sorted(s) && NoNesting(s)
    ensures AllWellFormed(s[..n]) && Sorted(s[..n]) && NoNesting(s[..n])
  {
  }

  /** AddResult keeps the list ranked and free of nested edge sets. */
  lemma AddResultKeeps(rs: seq<Result>, limit: int, x: Result)
    requires AllWellFormed(rs) && WellFormed(x) && Sorted(rs) && NoNesting(rs)
    ensures var rs' := AddResult(rs, limit, x).0;
      AllWellFormed(rs') && Sorted(rs') && NoNesting(rs')
  {
    if AddResult(rs, limit, x).1 {
      var idx := InsertionIndex(rs, x);
      AddResultRejects(rs, limit, x);
      InsertionIndexMeaning(rs, x);
      forall j | 0 <= j < idx ensures !Nested(x, rs[j]) {
        NestedSymmetric(rs[j], x);
      }
      JoinedKeeps(rs, idx, x);
      JoinedWellFormed(rs, idx, x);
      AddResultShape(rs, limit, x);
      var full := Joined(rs, idx, x);
      if |full| > limit {
        PrefixKeeps(full, limit);
      }
    }
  }

  /** The properties of AddResult together. */
  lemma AddResultMeaning(rs: seq<Result>, limit: int, x: Result)
    requires AllWellFormed(rs) && WellFormed(x) && Sorted(rs) && NoNesting(rs)
    ensures var (rs', added) := AddResult(rs, limit, x);
      var idx := InsertionIndex(rs, x);
      && (added <==> idx < limit && forall j :: 0 <= j < idx ==> !Nested(rs[j], x))
      && (!added ==> rs' == rs)
      && (added ==> idx < |rs'| && rs'[idx] == x && rs'[..idx] == rs[..idx] && |rs'| <= limit)
      && (forall y :: y in rs' ==> y in rs || y == x)
      && AllWellFormed(rs') && Sorted(rs') && NoNesting(rs')
  {
    AddResultRejects(rs, limit, x);
    if AddResult(rs, limit, x).1 {
      AddResultPlaces(rs, limit, x);
    }
    AddResultKeeps(rs, limit, x);
  }
}
