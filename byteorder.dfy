/**
 * The order in which printResult lists the station names: Go compares
 * strings byte by byte, a proper prefix coming first. `Sort` stands in
 * for the library sort of the names; only its contract (an ordered
 * permutation) is meant to match it.
 */
module ByteOrder {
  import opened Common

  /** `a` comes no later than `b` in byte-wise lexicographic order. */
  predicate Below(a: seq<byte>, b: seq<byte>)
    decreases |a|
  {
    |a| == 0 || (|b| > 0 && (a[0] < b[0] || (a[0] == b[0] && Below(a[1..], b[1..]))))
  }

  lemma {:induction false} BelowReflexive(a: seq<byte>)
    ensures Below(a, a)
    decreases |a|
  {
    if |a| > 0 {
      BelowReflexive(a[1..]);
    }
  }

  lemma {:induction false} BelowTotal(a: seq<byte>, b: seq<byte>)
    ensures Below(a, b) || Below(b, a)
    decreases |a|
  {
    if |a| > 0 && |b| > 0 && a[0] == b[0] {
      BelowTotal(a[1..], b[1..]);
    }
  }

  lemma {:induction false} BelowTransitive(a: seq<byte>, b: seq<byte>, c: seq<byte>)
    requires Below(a, b) && Below(b, c)
    ensures Below(a, c)
    decreases |a|
  {
    if |a| > 0 && a[0] == b[0] && b[0] == c[0] {
      BelowTransitive(a[1..], b[1..], c[1..]);
    }
  }

  lemma {:induction false} BelowAntisymmetric(a: seq<byte>, b: seq<byte>)
    requires Below(a, b) && Below(b, a)
    ensures a == b
    decreases |a|
  {
    if |a| > 0 {
      BelowAntisymmetric(a[1..], b[1..]);
      assert a == [a[0]] + a[1..] && b == [b[0]] + b[1..];
    }
  }

  predicate Sorted(s: seq<seq<byte>>) {
    forall i, j :: 0 <= i < j < |s| ==> Below(s[i], s[j])
  }

  /** Ascending with no name twice. */
  predicate StrictlySorted(s: seq<seq<byte>>) {
    forall i, j :: 0 <= i < j < |s| ==> Below(s[i], s[j]) && s[i] != s[j]
  }

  /** `x` placed into a sorted sequence before the first element it is below. */
  function Insert(x: seq<byte>, s: seq<seq<byte>>): (r: seq<seq<byte>>)
    requires Sorted(s)
    ensures Sorted(r)
    ensures multiset(r) == multiset(s) + multiset{x}
  {
    if s == [] then [x]
    else if Below(x, s[0]) then
      assert forall j :: 0 <= j < |s| ==> Below(x, s[j]) by {
        forall j | 0 <= j < |s| ensures Below(x, s[j]) {
          if j > 0 { BelowTransitive(x, s[0], s[j]); }
        }
      }
      [x] + s
    else
      var t := Insert(x, s[1..]);
      assert s == [s[0]] + s[1..];
      BelowTotal(x, s[0]);
      LowerBound(s[0], t, s[1..], x);
      [s[0]] + t
  }

  /** A lower bound of `x` and of every element of `s` bounds every element
      of a sequence holding exactly those. */
  lemma LowerBound(b: seq<byte>, t: seq<seq<byte>>, s: seq<seq<byte>>, x: seq<byte>)
    requires multiset(t) == multiset(s) + multiset{x}
    requires Below(b, x)
    requires forall j :: 0 <= j < |s| ==> Below(b, s[j])
    ensures forall j :: 0 <= j < |t| ==> Below(b, t[j])
  {
    forall j | 0 <= j < |t|
      ensures Below(b, t[j])
    {
      assert t[j] in multiset(t);
      if t[j] != x {
        assert t[j] in multiset(s);
      }
    }
  }

  /** Insertion sort: an ordered permutation of its input. */
  function Sort(s: seq<seq<byte>>): (r: seq<seq<byte>>)
    ensures Sorted(r)
    ensures multiset(r) == multiset(s)
  {
    if s == [] then []
    else
      assert s == [s[0]] + s[1..];
      Insert(s[0], Sort(s[1..]))
  }

  /** A sorted sequence that holds each element at most once is strictly sorted. */
  lemma SortedDistinct(s: seq<seq<byte>>)
    requires Sorted(s)
    requires forall x :: multiset(s)[x] <= 1
    ensures StrictlySorted(s)
  {
    forall i, j | 0 <= i < j < |s|
      ensures s[i] != s[j]
    {
      var left, right := s[..j], s[j..];
      assert s == left + right;
      assert s[i] in left && s[j] in right;
      assert multiset(s) == multiset(left) + multiset(right);
      assert multiset(left)[s[i]] >= 1 && multiset(right)[s[j]] >= 1;
      assert multiset(s)[s[i]] == multiset(left)[s[i]] + multiset(right)[s[i]];
      assert multiset(s)[s[j]] == multiset(left)[s[j]] + multiset(right)[s[j]];
    }
  }

  /** Two strictly sorted sequences of the same names are the same sequence:
      the listing of a set of names is unique. */
  lemma {:induction false} ListingUnique(a: seq<seq<byte>>, b: seq<seq<byte>>)
    requires StrictlySorted(a) && StrictlySorted(b)
    requires forall x :: x in a <==> x in b
    ensures a == b
  {
    if a != [] {
      assert a[0] in b;
    }
    if b != [] {
      assert b[0] in a;
    }
    if a != [] && b != [] {
      var i :| 0 <= i < |b| && b[i] == a[0];
      var j :| 0 <= j < |a| && a[j] == b[0];
      BelowReflexive(a[0]);
      assert Below(b[0], a[0]);
      assert Below(a[0], b[0]);
      BelowAntisymmetric(a[0], b[0]);
      forall x ensures x in a[1..] <==> x in b[1..] {
        if x in a[1..] {
          var k :| 0 <= k < |a[1..]| && a[1..][k] == x;
          assert a[k + 1] == x && x != a[0] && x in a;
          var l :| 0 <= l < |b| && b[l] == x;
          assert l > 0 && b[1..][l - 1] == x;
        }
        if x in b[1..] {
          var k :| 0 <= k < |b[1..]| && b[1..][k] == x;
          assert b[k + 1] == x && x != b[0] && x in b;
          var l :| 0 <= l < |a| && a[l] == x;
          assert l > 0 && a[1..][l - 1] == x;
        }
      }
      ListingUnique(a[1..], b[1..]);
      assert a == [a[0]] + a[1..] && b == [b[0]] + b[1..];
    }
  }

  /** Some sequence holding each element of `keys` exactly once. */
  ghost function Enumerate(keys: set<seq<byte>>): (r: seq<seq<byte>>)
    ensures multiset(r) == multiset(keys)
  {
    if keys == {} then []
    else
      var x :| x in keys;
      assert keys == (keys - {x}) + {x};
      [x] + Enumerate(keys - {x})
  }

  /** The station names of a table in output order. */
  ghost function SortedKeys(keys: set<seq<byte>>): (r: seq<seq<byte>>)
    ensures StrictlySorted(r)
    ensures forall x :: x in r <==> x in keys
    ensures |r| == |keys|
  {
    var r := Sort(Enumerate(keys));
    SortedDistinct(r);
    assert forall x :: x in r <==> x in multiset(keys);
    assert |r| == |multiset(r)| == |multiset(keys)| == |keys|;
    r
  }

  /** Any ordered sequence holding exactly the names of `keys` is their listing. */
  lemma IsSortedKeys(s: seq<seq<byte>>, keys: set<seq<byte>>)
    requires Sorted(s)
    requires multiset(s) == multiset(keys)
    ensures s == SortedKeys(keys)
  {
    SortedDistinct(s);
    assert forall x :: x in s <==> x in multiset(keys);
    ListingUnique(s, SortedKeys(keys));
  }
}
