/**
 Python's ordering of `str` values, for strings of Unicode scalar values:
 code points compared left to right, and a proper prefix sorts before the
 longer string. `sorted` over a set of strings yields its elements in this order.
 */
module StringOrder {

  /** `a < b` on Python strings. */
  predicate Less(a: string, b: string)
    decreases |a|
  {
    if |a| == 0 then |b| > 0
    else if |b| == 0 then false
    else if a[0] != b[0] then a[0] < b[0]
    else Less(a[1..], b[1..])
  }

  lemma {:induction false} LessIrreflexive(a: string)
    ensures !Less(a, a)
    decreases |a|
  {
    if |a| > 0 {
      LessIrreflexive(a[1..]);
    }
  }

  lemma {:induction false} LessTransitive(a: string, b: string, c: string)
    requires Less(a, b) && Less(b, c)
    ensures Less(a, c)
    decreases |a|
  {
    if |a| > 0 && a[0] == b[0] && b[0] == c[0] {
      LessTransitive(a[1..], b[1..], c[1..]);
    }
  }

  lemma {:induction false} LessTotal(a: string, b: string)
    ensures Less(a, b) || a == b || Less(b, a)
    decreases |a|
  {
    if |a| > 0 && |b| > 0 && a[0] == b[0] {
      LessTotal(a[1..], b[1..]);
      if a[1..] == b[1..] {
        assert a == [a[0]] + a[1..] && b == [b[0]] + b[1..];
      }
    }
  }

  lemma LessAsymmetric(a: string, b: string)
    requires Less(a, b)
    ensures !Less(b, a)
  {
    if Less(b, a) {
      LessTransitive(a, b, a);
      LessIrreflexive(a);
    }
  }

  /** `m` is the smallest element of `s`. */
  predicate IsLeast(m: string, s: set<string>) {
    m in s && forall x :: x in s ==> m == x || Less(m, x)
  }

  lemma {:induction false} LeastExists(s: set<string>)
    requires s != {}
    ensures exists m :: IsLeast(m, s)
    decreases |s|
  {
    var x :| x in s;
    if s == {x} {
      assert IsLeast(x, s);
    } else {
      var rest := s - {x};
      LeastExists(rest);
      var m :| IsLeast(m, rest);
      LessTotal(x, m);
      if Less(x, m) {
        forall y | y in s ensures x == y || Less(x, y) {
          if y != x && y != m {
            LessTransitive(x, m, y);
          }
        }
        assert IsLeast(x, s);
      } else {
        assert IsLeast(m, s);
      }
    }
  }

  lemma LeastUnique(s: set<string>)
    ensures forall m, n :: IsLeast(m, s) && IsLeast(n, s) ==> m == n
  {
    forall m, n | IsLeast(m, s) && IsLeast(n, s) ensures m == n {
      if m != n {
        assert Less(m, n);
        LessAsymmetric(m, n);
      }
    }
  }

  /** The smallest element of a non-empty set of strings. */
  function Least(s: set<string>): (m: string)
    requires s != {}
    ensures IsLeast(m, s)
  {
    LeastExists(s);
    LeastUnique(s);
    var m :| IsLeast(m, s);
    m
  }

  /** Every element is smaller than every later one, so in particular no element repeats. */
  predicate StrictlySorted(xs: seq<string>) {
    forall i, j :: 0 <= i < j < |xs| ==> Less(xs[i], xs[j])
  }

  /** `sorted(list(s))` for a set `s` of strings. */
  function Sorted(s: set<string>): (xs: seq<string>)
    ensures StrictlySorted(xs)
    ensures forall x :: x in xs <==> x in s
    ensures |xs| == |s|
    decreases |s|
  {
    if s == {} then []
    else
      var m := Least(s);
      var rest := Sorted(s - {m});
      var xs := [m] + rest;
      assert StrictlySorted(xs) by {
        forall i, j | 0 <= i < j < |xs| ensures Less(xs[i], xs[j]) {
          if i == 0 {
            assert xs[j] == rest[j - 1];
            assert xs[j] in s - {m};
          } else {
            assert xs[i] == rest[i - 1] && xs[j] == rest[j - 1];
          }
        }
      }
      xs
  }

  /** In a strictly sorted sequence the elements are pairwise distinct. */
  lemma StrictlySortedDistinct(xs: seq<string>, i: int, j: int)
    requires StrictlySorted(xs)
    requires 0 <= i < |xs| && 0 <= j < |xs| && i != j
    ensures xs[i] != xs[j]
  {
    if i < j {
      LessIrreflexive(xs[i]);
    } else {
      LessIrreflexive(xs[j]);
    }
  }

  /** In a strictly sorted sequence, position order and string order agree. */
  lemma StrictlySortedOrder(xs: seq<string>, i: int, j: int)
    requires StrictlySorted(xs)
    requires 0 <= i < |xs| && 0 <= j < |xs|
    ensures Less(xs[i], xs[j]) <==> i < j
  {
    if j == i {
      LessIrreflexive(xs[i]);
    } else if j < i {
      LessAsymmetric(xs[j], xs[i]);
    }
  }

  /** The number of elements of `s` that sort before `a`. */
  ghost function Rank(a: string, s: set<string>): nat {
    |set b | b in s && Less(b, a)|
  }

  /** The first `i` elements of a sequence, as a set. */
  ghost function PrefixElements(xs: seq<string>, i: nat): set<string>
    requires i <= |xs|
  {
    set j | 0 <= j < i :: xs[j]
  }

  lemma {:induction false} PrefixElementsSize(xs: seq<string>, i: nat)
    requires StrictlySorted(xs)
    requires i <= |xs|
    ensures |PrefixElements(xs, i)| == i
    decreases i
  {
    if i > 0 {
      PrefixElementsSize(xs, i - 1);
      assert PrefixElements(xs, i) == PrefixElements(xs, i - 1) + {xs[i - 1]};
      if xs[i - 1] in PrefixElements(xs, i - 1) {
        var j :| 0 <= j < i - 1 && xs[j] == xs[i - 1];
        StrictlySortedDistinct(xs, j, i - 1);
      }
    }
  }

  /** The element at position `i` of a strictly sorted sequence has exactly `i` smaller elements. */
  lemma SortedPositionIsRank(xs: seq<string>, s: set<string>, i: int)
    requires StrictlySorted(xs)
    requires forall x :: x in xs <==> x in s
    requires 0 <= i < |xs|
    ensures Rank(xs[i], s) == i
  {
    var smaller := set b | b in s && Less(b, xs[i]);
    assert smaller == PrefixElements(xs, i) by {
      forall b | b in smaller ensures b in PrefixElements(xs, i) {
        var j :| 0 <= j < |xs| && xs[j] == b;
        StrictlySortedOrder(xs, j, i);
      }
      forall b | b in PrefixElements(xs, i) ensures b in smaller {
        var j :| 0 <= j < i && xs[j] == b;
        assert xs[j] in xs;
      }
    }
    PrefixElementsSize(xs, i);
  }
}
