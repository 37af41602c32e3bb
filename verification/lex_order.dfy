/**
 The order `Array.prototype.sort()` uses when called without a comparator:
 plain code-unit comparison, with a proper prefix before any extension.
 The names it sorts are percent-encoded, hence ASCII, so comparing their
 bytes is the same as comparing their UTF-16 code units. The sort is
 modelled as an insertion sort; since a strictly sorted arrangement of a
 set is unique, any correct sorting algorithm gives the same result.
 */
module LexOrder {
  import opened Text

  /** `a < b` on strings: lexicographic by code unit. */
  predicate Less(a: Bytes, b: Bytes)
    decreases |a|
  {
    |b| > 0 && (|a| == 0 || a[0] < b[0] || (a[0] == b[0] && Less(a[1..], b[1..])))
  }

  lemma {:induction false} LessIrreflexive(a: Bytes)
    ensures !Less(a, a)
    decreases |a|
  {
    if |a| > 0 {
      LessIrreflexive(a[1..]);
    }
  }

  lemma {:induction false} LessTransitive(a: Bytes, b: Bytes, c: Bytes)
    requires Less(a, b) && Less(b, c)
    ensures Less(a, c)
    decreases |a|
  {
    if |a| > 0 && a[0] == b[0] && b[0] == c[0] {
      LessTransitive(a[1..], b[1..], c[1..]);
    }
  }

  /** Any two different texts are ordered one way or the other. */
  lemma {:induction false} LessTotal(a: Bytes, b: Bytes)
    requires a != b
    ensures Less(a, b) || Less(b, a)
    decreases |a|
  {
    if |a| > 0 && |b| > 0 && a[0] == b[0] {
      assert a == [a[0]] + a[1..] && b == [b[0]] + b[1..];
      LessTotal(a[1..], b[1..]);
    }
  }

  lemma LessAsymmetric(a: Bytes, b: Bytes)
    requires Less(a, b)
    ensures !Less(b, a)
  {
    if Less(b, a) {
      LessTransitive(a, b, a);
      LessIrreflexive(a);
    }
  }

  predicate StrictlySorted(s: seq<Bytes>)
  {
    forall i, j :: 0 <= i < j < |s| ==> Less(s[i], s[j])
  }

  predicate Distinct(s: seq<Bytes>)
  {
    forall i, j :: 0 <= i < j < |s| ==> s[i] != s[j]
  }

  lemma SortedIsDistinct(s: seq<Bytes>)
    requires StrictlySorted(s)
    ensures Distinct(s)
  {
    forall i, j | 0 <= i < j < |s| ensures s[i] != s[j] {
      LessIrreflexive(s[i]);
    }
  }

  /** Every element of the sorted `s` after its head is above the head. */
  lemma HeadBelowRest(s: seq<Bytes>, y: Bytes)
    requires StrictlySorted(s) && |s| > 0 && y in s[1..]
    ensures Less(s[0], y)
  {
    var j :| 0 <= j < |s[1..]| && s[1..][j] == y;
    assert s[j + 1] == y;
  }

  /** Inserts `x` at its place in the strictly sorted `s`. */
  function Insert(x: Bytes, s: seq<Bytes>): (r: seq<Bytes>)
    requires StrictlySorted(s) && x !in s
    ensures StrictlySorted(r)
    ensures multiset(r) == multiset(s) + multiset{x}
    decreases |s|
  {
    if s == [] then [x]
    else if Less(x, s[0]) then
      InsertFront(x, s);
      [x] + s
    else
      assert s == [s[0]] + s[1..];
      var t := Insert(x, s[1..]);
      LessTotal(x, s[0]);
      InsertBehind(x, s, t);
      [s[0]] + t
  }

  lemma InsertFront(x: Bytes, s: seq<Bytes>)
    requires StrictlySorted(s) && |s| > 0 && Less(x, s[0])
    ensures StrictlySorted([x] + s)
  {
    var r := [x] + s;
    forall i, j | 0 <= i < j < |r| ensures Less(r[i], r[j]) {
      if i == 0 && j > 1 {
        LessTransitive(x, s[0], s[j - 1]);
      }
    }
  }

  lemma InsertBehind(x: Bytes, s: seq<Bytes>, t: seq<Bytes>)
    requires StrictlySorted(s) && |s| > 0 && Less(s[0], x)
    requires StrictlySorted(t) && multiset(t) == multiset(s[1..]) + multiset{x}
    ensures StrictlySorted([s[0]] + t)
  {
    var r := [s[0]] + t;
    forall i, j | 0 <= i < j < |r| ensures Less(r[i], r[j]) {
      if i == 0 {
        var y := t[j - 1];
        assert y in multiset(t);
        if y != x {
          assert y in multiset(s[1..]);
          HeadBelowRest(s, y);
        }
      }
    }
  }

  /** `Array.prototype.sort()` on distinct names, as an insertion sort. */
  function Sort(s: seq<Bytes>): (r: seq<Bytes>)
    requires Distinct(s)
    ensures StrictlySorted(r)
    ensures multiset(r) == multiset(s)
    decreases |s|
  {
    if s == [] then []
    else
      assert s == [s[0]] + s[1..];
      var t := Sort(s[1..]);
      assert s[0] !in multiset(s[1..]);
      Insert(s[0], t)
  }

  /** A strictly sorted sequence is determined by its set of elements. */
  lemma {:induction false} SortedUnique(a: seq<Bytes>, b: seq<Bytes>)
    requires StrictlySorted(a) && StrictlySorted(b)
    requires forall x :: x in a <==> x in b
    ensures a == b
    decreases |a|
  {
    if a == [] {
      FirstIsMember(b);
    } else {
      assert a[0] in a;
      assert b != [] && b[0] in b;
      if a[0] != b[0] {
        assert a[0] in b[1..] by {
          var j :| 0 <= j < |b| && b[j] == a[0];
          assert j != 0 && b[1..][j - 1] == a[0];
        }
        assert b[0] in a[1..] by {
          var i :| 0 <= i < |a| && a[i] == b[0];
          assert i != 0 && a[1..][i - 1] == b[0];
        }
        HeadBelowRest(a, b[0]);
        HeadBelowRest(b, a[0]);
        LessAsymmetric(a[0], b[0]);
      }
      SortedIsDistinct(a);
      SortedIsDistinct(b);
      forall x ensures x in a[1..] <==> x in b[1..] {
        TailMembers(a, x);
        TailMembers(b, x);
      }
      SortedUnique(a[1..], b[1..]);
      assert a == [a[0]] + a[1..] && b == [b[0]] + b[1..];
    }
  }

  lemma FirstIsMember(s: seq<Bytes>)
    ensures |s| > 0 ==> s[0] in s
  {
  }

  lemma TailMembers(s: seq<Bytes>, x: Bytes)
    requires Distinct(s) && |s| > 0
    ensures x in s[1..] <==> x in s && x != s[0]
  {
    if x in s && x != s[0] {
      var i :| 0 <= i < |s| && s[i] == x;
      assert s[1..][i - 1] == x;
    }
    if x in s[1..] {
      var i :| 0 <= i < |s[1..]| && s[1..][i] == x;
      assert s[i + 1] == x;
    }
  }
}
