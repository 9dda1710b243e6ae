/** Whether two decoded record lists hold the same transactions. The first
    list is put into a hash set; each record of the second list must still
    be in the set and is removed from it; at the end the set must be empty. */
module Comparer {
  import opened Model

  function Elements(s: seq<Record>): set<Record> {
    set r | r in s
  }

  /** No record occurs twice. */
  predicate Distinct(s: seq<Record>) {
    forall i, j :: 0 <= i < j < |s| ==> s[i] != s[j]
  }

  /** What the comparison accepts: both lists hold the same records, and
      the second holds none twice. A repeat in the first list disappears
      in the hash set; a repeat in the second finds its record already
      removed. */
  predicate SameRecordSet(first: seq<Record>, second: seq<Record>) {
    Elements(first) == Elements(second) && Distinct(second)
  }

  /** `is_equal_transactions`. */
  method IsEqualTransactions(first: seq<Record>, second: seq<Record>) returns (equal: bool)
    ensures equal <==> SameRecordSet(first, second)
  {
    var remaining := Elements(first);
    var i := 0;
    while i < |second|
      invariant 0 <= i <= |second|
      invariant remaining == Elements(first) - Elements(second[..i])
      invariant Elements(second[..i]) <= Elements(first)
      invariant Distinct(second[..i])
    {
      var t := second[i];
      if t !in remaining {
        assert t in Elements(first) ==> t in second[..i];
        NotDistinctOrMissing(first, second, i);
        return false;
      }
      remaining := remaining - {t};
      assert second[..i + 1] == second[..i] + [t];
      i := i + 1;
    }
    assert second[..i] == second;
    DrainedExactly(Elements(first), Elements(second));
    return remaining == {};
  }

  /** Removing a subset leaves nothing exactly when it was the whole set. */
  lemma DrainedExactly(whole: set<Record>, part: set<Record>)
    requires part <= whole
    ensures whole - part == {} <==> whole == part
  {
    if whole - part == {} {
      forall r | r in whole
        ensures r in part
      {
        assert r !in whole - part;
      }
    }
  }

  /** A record of the second list that the scan no longer finds was either
      never in the first list or already met in the second. */
  lemma NotDistinctOrMissing(first: seq<Record>, second: seq<Record>, i: nat)
    requires i < |second|
    requires second[i] !in Elements(first) || second[i] in second[..i]
    ensures !SameRecordSet(first, second)
  {
    var t := second[i];
    if t in second[..i] {
      var j :| 0 <= j < i && second[..i][j] == t;
      assert second[j] == second[i];
    } else {
      assert t in Elements(second);
    }
  }

  /** Each record compared with itself: true exactly when it has no
      repeats. */
  lemma SelfComparison(rs: seq<Record>)
    ensures SameRecordSet(rs, rs) <==> Distinct(rs)
  {
  }

  /** Repeats count in the second list only: `[a, a]` against `[a]` is
      accepted, `[a]` against `[a, a]` is not. */
  lemma RepeatsAreAsymmetric(a: Record)
    ensures SameRecordSet([a, a], [a])
    ensures !SameRecordSet([a], [a, a])
  {
    assert Elements([a, a]) == {a} == Elements([a]);
    assert [a, a][0] == [a, a][1];
  }

  /** A repeat means at most once in the multiset of the list. */
  lemma {:induction false} DistinctByCount(s: seq<Record>)
    ensures Distinct(s) <==> forall r :: multiset(s)[r] <= 1
    decreases |s|
  {
    if |s| > 0 {
      var x, rest := s[0], s[1..];
      DistinctByCount(rest);
      assert s == [x] + rest;
      assert multiset(s) == multiset{x} + multiset(rest);
      DistinctCons(s);
      if Distinct(s) {
        assert multiset(rest)[x] == 0;
        forall r
          ensures multiset(s)[r] <= 1
        {
          assert multiset(s)[r] == multiset{x}[r] + multiset(rest)[r];
        }
      }
      if forall r :: multiset(s)[r] <= 1 {
        forall r
          ensures multiset(rest)[r] <= 1
        {
          assert multiset(s)[r] == multiset{x}[r] + multiset(rest)[r];
        }
        assert multiset(s)[x] == 1 + multiset(rest)[x];
        assert x !in multiset(rest);
      }
    }
  }

  lemma DistinctCons(s: seq<Record>)
    requires |s| > 0
    ensures Distinct(s) <==> s[0] !in s[1..] && Distinct(s[1..])
  {
    if Distinct(s) {
      forall i, j | 0 <= i < j < |s| - 1
        ensures s[1..][i] != s[1..][j]
      {
        assert s[1..][i] == s[i + 1] && s[1..][j] == s[j + 1];
      }
    }
    if s[0] !in s[1..] && Distinct(s[1..]) {
      forall i, j | 0 <= i < j < |s|
        ensures s[i] != s[j]
      {
        if i == 0 {
          assert s[j] == s[1..][j - 1];
        } else {
          assert s[i] == s[1..][i - 1] && s[j] == s[1..][j - 1];
        }
      }
    }
  }

  /** The comparison ignores the order of both lists. */
  lemma OrderIndependent(first: seq<Record>, first': seq<Record>, second: seq<Record>, second': seq<Record>)
    requires multiset(first) == multiset(first') && multiset(second) == multiset(second')
    ensures SameRecordSet(first, second) <==> SameRecordSet(first', second')
  {
    SameElements(first, first');
    SameElements(second, second');
    DistinctByCount(second);
    DistinctByCount(second');
  }

  lemma SameElements(a: seq<Record>, b: seq<Record>)
    requires multiset(a) == multiset(b)
    ensures Elements(a) == Elements(b)
  {
    forall r
      ensures r in Elements(a) <==> r in Elements(b)
    {
      assert r in a <==> r in multiset(a);
      assert r in b <==> r in multiset(b);
    }
  }

  // Comparing as multisets

  /** Two lists are the same collection of records: every record occurs as
      often in one as in the other. */
  predicate SameRecords(first: seq<Record>, second: seq<Record>) {
    multiset(first) == multiset(second)
  }

  /** The multiset comparison is an equivalence that ignores order, and
      lists it accepts hold the same records and are equally long. */
  lemma SameRecordsIsEquivalence(a: seq<Record>, b: seq<Record>, c: seq<Record>)
    ensures SameRecords(a, a)
    ensures SameRecords(a, b) ==> SameRecords(b, a)
    ensures SameRecords(a, b) && SameRecords(b, c) ==> SameRecords(a, c)
    ensures SameRecords(a, b) ==> Elements(a) == Elements(b) && |a| == |b|
  {
    if SameRecords(a, b) {
      SameElements(a, b);
      assert |a| == |multiset(a)| == |multiset(b)| == |b|;
    }
  }

  /** On lists without repeats the hash-set scan and the multiset
      comparison agree. */
  lemma DistinctListsAgree(first: seq<Record>, second: seq<Record>)
    requires Distinct(first) && Distinct(second)
    ensures SameRecordSet(first, second) <==> SameRecords(first, second)
  {
    DistinctByCount(first);
    DistinctByCount(second);
    if SameRecordSet(first, second) {
      forall r
        ensures multiset(first)[r] == multiset(second)[r]
      {
        assert r in first <==> r in Elements(first);
        assert r in second <==> r in Elements(second);
        assert r in first <==> r in multiset(first);
        assert r in second <==> r in multiset(second);
      }
      assert multiset(first) == multiset(second);
    }
    if SameRecords(first, second) {
      SameElements(first, second);
    }
  }

  /** A list holding a repeated record, compared with itself: the scan
      reports a difference, the multiset comparison does not. */
  lemma RepeatedRecordAgainstItself(a: Record)
    ensures !SameRecordSet([a, a], [a, a])
    ensures SameRecords([a, a], [a, a])
  {
    assert [a, a][0] == [a, a][1];
  }
}
