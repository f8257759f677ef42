/**
 * Kotlin's `sorted()` on strings: ascending in `String.compareTo` order,
 * which compares character by character and puts a proper prefix first.
 * The sort itself is library code; it is modelled by an insertion sort
 * proved to return the unique sorted permutation of its input.
 */
module StringOrder {

  /** `a.compareTo(b) <= 0`; a prefix comes no later than any extension of it. */
  predicate LessEq(a: string, b: string): (lessEq: bool)
    ensures a <= b ==> lessEq
  {
    if a == [] then true
    else if b == [] then false
    else if a[0] != b[0] then a[0] < b[0]
    else LessEq(a[1..], b[1..])
  }

  lemma {:induction false} LessEqTotal(a: string, b: string)
    ensures LessEq(a, b) || LessEq(b, a)
  {
    if a != [] && b != [] && a[0] == b[0] {
      LessEqTotal(a[1..], b[1..]);
    }
  }

  lemma {:induction false} LessEqReflexive(a: string)
    ensures LessEq(a, a)
  {
    if a != [] {
      LessEqReflexive(a[1..]);
    }
  }

  lemma {:induction false} LessEqAntisymmetric(a: string, b: string)
    requires LessEq(a, b) && LessEq(b, a)
    ensures a == b
  {
    if a != [] && b != [] {
      LessEqAntisymmetric(a[1..], b[1..]);
      assert a == [a[0]] + a[1..] && b == [b[0]] + b[1..];
    }
  }

  lemma {:induction false} LessEqTransitive(a: string, b: string, c: string)
    requires LessEq(a, b) && LessEq(b, c)
    ensures LessEq(a, c)
  {
    if a != [] && b != [] && c != [] && a[0] == b[0] == c[0] {
      LessEqTransitive(a[1..], b[1..], c[1..]);
    }
  }

  predicate IsSorted(s: seq<string>)
  {
    forall i, j :: 0 <= i < j < |s| ==> LessEq(s[i], s[j])
  }

  /** A lower bound of a sorted list can be put in front of it. */
  lemma ConsSorted(y: string, s: seq<string>)
    requires IsSorted(s)
    requires forall z :: z in s ==> LessEq(y, z)
    ensures IsSorted([y] + s)
  {
    var r := [y] + s;
    forall i, j | 0 <= i < j < |r| ensures LessEq(r[i], r[j]) {
      assert r[j] == s[j - 1];
      if i > 0 { assert r[i] == s[i - 1]; }
    }
  }

  /** Everything in a sorted list is at least its head. */
  lemma HeadIsLeast(s: seq<string>, z: string)
    requires IsSorted(s) && s != [] && z in s
    ensures LessEq(s[0], z)
  {
    var k :| 0 <= k < |s| && s[k] == z;
    if k == 0 { LessEqReflexive(z); }
  }

  /** Inserts `x` into a sorted list, keeping it sorted. */
  function Insert(x: string, s: seq<string>): (r: seq<string>)
    requires IsSorted(s)
    ensures IsSorted(r)
    ensures multiset(r) == multiset(s) + multiset{x}
  {
    if s == [] then [x]
    else if LessEq(x, s[0]) then
      assert IsSorted([x] + s) by {
        forall z | z in s ensures LessEq(x, z) {
          HeadIsLeast(s, z);
          LessEqTransitive(x, s[0], z);
        }
        ConsSorted(x, s);
      }
      [x] + s
    else
      assert s == [s[0]] + s[1..];
      var rest := Insert(x, s[1..]);
      assert IsSorted([s[0]] + rest) by {
        LessEqTotal(x, s[0]);
        forall z | z in rest ensures LessEq(s[0], z) {
          assert z in multiset(rest);
          if z != x {
            assert z in multiset(s[1..]);
            HeadIsLeast(s, z);
          }
        }
        ConsSorted(s[0], rest);
      }
      [s[0]] + rest
  }

  /** `sorted()`: the input's elements, duplicates kept, in ascending order. */
  function Sort(s: seq<string>): (r: seq<string>)
    ensures IsSorted(r)
    ensures multiset(r) == multiset(s)
  {
    if s == [] then []
    else
      assert s == [s[0]] + s[1..];
      Insert(s[0], Sort(s[1..]))
  }

  /** Two sorted permutations of each other start with the same element. */
  lemma SortedPermutationsSameHead(a: seq<string>, b: seq<string>)
    requires IsSorted(a) && IsSorted(b)
    requires multiset(a) == multiset(b)
    requires a != []
    ensures b != [] && a[0] == b[0]
  {
    assert a[0] in multiset(b);
    assert b[0] in multiset(a);
    var i :| 0 <= i < |a| && a[i] == b[0];
    var j :| 0 <= j < |b| && b[j] == a[0];
    assert LessEq(a[0], b[0]) by { if i > 0 { assert LessEq(a[0], a[i]); } else { LessEqReflexive(a[0]); } }
    assert LessEq(b[0], a[0]) by { if j > 0 { assert LessEq(b[0], b[j]); } else { LessEqReflexive(b[0]); } }
    LessEqAntisymmetric(a[0], b[0]);
  }

  lemma TailMultiset(a: seq<string>)
    requires a != []
    ensures multiset(a[1..]) == multiset(a) - multiset{a[0]}
  {
    assert a == [a[0]] + a[1..];
  }

  /** A list has one sorted permutation at most: sorting is determined by the elements alone. */
  lemma {:induction false} SortedPermutationUnique(a: seq<string>, b: seq<string>)
    requires IsSorted(a) && IsSorted(b)
    requires multiset(a) == multiset(b)
    ensures a == b
  {
    if a == [] {
      assert |b| == |multiset(b)| == 0;
    } else {
      SortedPermutationsSameHead(a, b);
      TailMultiset(a);
      TailMultiset(b);
      SortedPermutationUnique(a[1..], b[1..]);
      assert a == [a[0]] + a[1..] && b == [b[0]] + b[1..];
    }
  }

  /** The order of the input does not matter: any rearrangement sorts to the same list. */
  lemma SortIgnoresInputOrder(a: seq<string>, b: seq<string>)
    requires multiset(a) == multiset(b)
    ensures Sort(a) == Sort(b)
  {
    SortedPermutationUnique(Sort(a), Sort(b));
  }

  /** Kotlin's `indexOf`: the first position of `x`, or -1 when `x` is absent. */
  function IndexOf(s: seq<string>, x: string): (r: int)
    ensures -1 <= r < |s|
    ensures r == -1 <==> x !in s
    ensures 0 <= r ==> s[r] == x && x !in s[..r]
  {
    if s == [] then -1
    else if s[0] == x then 0
    else
      var r := IndexOf(s[1..], x);
      assert s == [s[0]] + s[1..];
      if r == -1 then -1
      else
        assert s[..r + 1] == [s[0]] + s[1..][..r];
        r + 1
  }
}
