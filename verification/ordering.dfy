/**
 * The ordering of strings used by `Vec<String>::sort` and the two in-place
 * vector operations `sort` and `dedup`. Rust orders strings by their UTF-8
 * bytes, which is the same as ordering them by code point, which is how
 * Dafny compares `char`s.
 */
module Ordering {

  /** Strict lexicographic order: a proper prefix comes first. */
  predicate Less(a: string, b: string) {
    if a == [] then b != []
    else if b == [] then false
    else a[0] < b[0] || (a[0] == b[0] && Less(a[1..], b[1..]))
  }

  lemma {:induction false} LessIrreflexive(a: string)
    ensures !Less(a, a)
  {
    if a != [] {
      LessIrreflexive(a[1..]);
    }
  }

  lemma {:induction false} LessTransitive(a: string, b: string, c: string)
    requires Less(a, b) && Less(b, c)
    ensures Less(a, c)
  {
    if a != [] && b != [] && c != [] && a[0] == b[0] == c[0] {
      LessTransitive(a[1..], b[1..], c[1..]);
    }
  }

  lemma {:induction false} LessTotal(a: string, b: string)
    ensures a == b || Less(a, b) || Less(b, a)
  {
    if a != [] && b != [] && a[0] == b[0] {
      LessTotal(a[1..], b[1..]);
      if a[1..] == b[1..] {
        assert a == [a[0]] + a[1..] && b == [b[0]] + b[1..];
      }
    }
  }

  lemma {:induction false} LessAsymmetric(a: string, b: string)
    requires Less(a, b)
    ensures !Less(b, a)
  {
    if Less(b, a) {
      LessTransitive(a, b, a);
      LessIrreflexive(a);
    }
  }

  /** Non-decreasing: no element is greater than a later one. */
  predicate Sorted(s: seq<string>) {
    forall i, j :: 0 <= i < j < |s| ==> !Less(s[j], s[i])
  }

  /** Sorted with no repeated element. */
  predicate StrictlyIncreasing(s: seq<string>) {
    forall i, j :: 0 <= i < j < |s| ==> Less(s[i], s[j])
  }

  /**
   * A helper for the solver: naming the head as a member lets the
   * membership hypotheses of the lemmas below fire on it.
   */
  lemma {:induction false} HeadIsMember(s: seq<string>)
    requires s != []
    ensures s[0] in s
  {
  }

  /**
   * A strictly increasing sequence is determined by its elements: two of
   * them holding the same strings are equal.
   */
  lemma {:induction false} StrictlyIncreasingUnique(a: seq<string>, b: seq<string>)
    requires StrictlyIncreasing(a) && StrictlyIncreasing(b)
    requires forall x :: x in a <==> x in b
    ensures a == b
    decreases |a|
  {
    if a == [] {
      if b != [] {
        HeadIsMember(b);
        assert false;
      }
    } else {
      HeadIsMember(a);
      if a[0] != b[0] {
        assert a[0] in b && b[0] in a;
        var j :| 0 <= j < |b| && b[j] == a[0];
        var k :| 0 <= k < |a| && a[k] == b[0];
        assert j > 0 && k > 0;
        assert Less(b[0], a[0]) && Less(a[0], b[0]);
        LessAsymmetric(a[0], b[0]);
      }
      forall x
        ensures x in a[1..] <==> x in b[1..]
      {
        if x in a[1..] {
          var k :| 1 <= k < |a| && a[k] == x;
          if x == b[0] {
            LessIrreflexive(x);
          }
          assert x in b;
        }
        if x in b[1..] {
          var k :| 1 <= k < |b| && b[k] == x;
          if x == a[0] {
            LessIrreflexive(x);
          }
          assert x in a;
        }
      }
      StrictlyIncreasingUnique(a[1..], b[1..]);
      assert a == [a[0]] + a[1..] && b == [b[0]] + b[1..];
    }
  }

  lemma {:induction false} MultisetTail(s: seq<string>)
    requires s != []
    ensures multiset(s[1..]) == multiset(s) - multiset{s[0]}
  {
    assert s == [s[0]] + s[1..];
  }

  /** Two sorted sequences with the same elements start with the same one. */
  lemma {:induction false} SortedHeadsEqual(a: seq<string>, b: seq<string>)
    requires Sorted(a) && Sorted(b) && a != []
    requires multiset(a) == multiset(b)
    ensures b != [] && a[0] == b[0]
  {
    assert |multiset(b)| == |a|;
    assert a[0] in multiset(b) && b[0] in multiset(a);
    var k :| 0 <= k < |a| && a[k] == b[0];
    var j :| 0 <= j < |b| && b[j] == a[0];
    if k == 0 || j == 0 {
      LessIrreflexive(a[0]);
    }
    LessTotal(a[0], b[0]);
  }

  /**
   * A sorted sequence is determined by its multiset of elements, so every
   * correct sort, whatever its algorithm, gives the same result.
   */
  lemma {:induction false} SortedPermutationUnique(a: seq<string>, b: seq<string>)
    requires Sorted(a) && Sorted(b)
    requires multiset(a) == multiset(b)
    ensures a == b
    decreases |a|
  {
    if a == [] {
      assert |multiset(b)| == 0;
    } else {
      SortedHeadsEqual(a, b);
      MultisetTail(a);
      MultisetTail(b);
      SortedPermutationUnique(a[1..], b[1..]);
      assert a == [a[0]] + a[1..] && b == [b[0]] + b[1..];
    }
  }

  /**
   * Sorting and deduplicating is idempotent: applied to a result of its own
   * (a strictly increasing sequence), the sort and then the dedup, whose
   * contracts are taken as the hypotheses here, both give it back unchanged.
   */
  lemma {:induction false} SortDedupIdempotent(r: seq<string>, sorted: seq<string>, deduped: seq<string>)
    requires StrictlyIncreasing(r)
    requires Sorted(sorted) && multiset(sorted) == multiset(r)
    requires StrictlyIncreasing(deduped) && forall x :: x in deduped <==> x in sorted
    ensures sorted == r && deduped == r
  {
    forall i, j | 0 <= i < j < |r|
      ensures !Less(r[j], r[i])
    {
      LessAsymmetric(r[i], r[j]);
    }
    SortedPermutationUnique(sorted, r);
    StrictlyIncreasingUnique(deduped, r);
  }

  /**
   * Inserting `x` after every element not greater than it, in a sorted
   * sequence, keeps it sorted.
   */
  lemma {:induction false} InsertKeepsSorted(s: seq<string>, j: nat, x: string)
    requires Sorted(s) && j <= |s|
    requires forall k :: 0 <= k < j ==> !Less(x, s[k])
    requires j < |s| ==> Less(x, s[j])
    ensures Sorted(s[..j] + [x] + s[j..])
  {
    var t := s[..j] + [x] + s[j..];
    forall k | j <= k < |s|
      ensures !Less(s[k], x)
    {
      if Less(s[k], x) {
        LessTransitive(s[k], x, s[j]);
        if k == j {
          LessIrreflexive(s[j]);
        }
      }
    }
    forall a, b | 0 <= a < b < |t|
      ensures !Less(t[b], t[a])
    {
      if b == j {
        assert t[a] == s[a];
      } else if a == j {
        assert t[b] == s[b - 1];
      } else {
        assert t[a] == s[if a < j then a else a - 1];
        assert t[b] == s[if b < j then b else b - 1];
      }
    }
  }

  /** `Vec::sort`: the same strings, sorted. */
  method Sort(v: seq<string>) returns (s: seq<string>)
    ensures Sorted(s)
    ensures multiset(s) == multiset(v)
  {
    s := [];
    for i := 0 to |v|
      invariant Sorted(s)
      invariant multiset(s) == multiset(v[..i])
    {
      var x := v[i];
      var j := 0;
      while j < |s| && !Less(x, s[j])
        invariant j <= |s|
        invariant forall k :: 0 <= k < j ==> !Less(x, s[k])
      {
        j := j + 1;
      }
      InsertKeepsSorted(s, j, x);
      assert s == s[..j] + s[j..];
      assert v[..i + 1] == v[..i] + [x];
      s := s[..j] + [x] + s[j..];
    }
    assert v[..|v|] == v;
  }

  /**
   * `Vec::dedup`: drops every element equal to the one before it. The
   * result holds the same strings with no two neighbours equal, and a sorted
   * input becomes strictly increasing.
   */
  method Dedup(s: seq<string>) returns (d: seq<string>)
    ensures |d| <= |s|
    ensures forall x :: x in d <==> x in s
    ensures forall k :: 0 < k < |d| ==> d[k - 1] != d[k]
    ensures Sorted(s) ==> StrictlyIncreasing(d)
  {
    d := [];
    for i := 0 to |s|
      invariant |d| <= i
      invariant forall x :: x in d <==> x in s[..i]
      invariant forall k :: 0 < k < |d| ==> d[k - 1] != d[k]
      invariant i > 0 ==> d != [] && d[|d| - 1] == s[i - 1]
      invariant Sorted(s) ==> StrictlyIncreasing(d)
    {
      assert s[..i + 1] == s[..i] + [s[i]];
      if i == 0 || s[i] != s[i - 1] {
        if i > 0 && Sorted(s) {
          LessTotal(s[i - 1], s[i]);
          forall k | 0 <= k < |d|
            ensures Less(d[k], s[i])
          {
            if k < |d| - 1 {
              LessTransitive(d[k], s[i - 1], s[i]);
            }
          }
        }
        d := d + [s[i]];
      }
    }
    assert s[..|s|] == s;
  }

  /** `v.sort(); v.dedup();`: the same strings, strictly increasing. */
  method SortDedup(v: seq<string>) returns (d: seq<string>)
    ensures StrictlyIncreasing(d)
    ensures forall x :: x in d <==> x in v
    ensures |d| <= |v|
  {
    var sorted := Sort(v);
    d := Dedup(sorted);
    assert forall x :: x in sorted <==> x in v by {
      assert forall x :: x in sorted <==> x in multiset(sorted);
      assert forall x :: x in v <==> x in multiset(v);
    }
    assert |sorted| == |v| by {
      assert |multiset(sorted)| == |multiset(v)|;
    }
  }
}
