/** Small shared vocabulary: an optional value, ascending enumeration of a
    finite set of identifiers, and cardinality facts about finite sets. */
module Base {

  /** A value that may be missing (Python's `None`). */
  datatype Option<+T> = None | Some(value: T)

  /** `s` is strictly increasing, so it lists each element once, in order. */
  predicate Increasing(s: seq<nat>) {
    forall i, j :: 0 <= i < j < |s| ==> s[i] < s[j]
  }

  /** `m` is the least element of `s`. */
  predicate IsLeast(s: set<nat>, m: nat) {
    m in s && forall x :: x in s ==> m <= x
  }

  lemma {:induction false} MinExists(s: set<nat>)
    requires s != {}
    ensures exists m :: IsLeast(s, m)
    decreases |s|
  {
    var y :| y in s;
    var t := s - {y};
    if t == {} {
      assert IsLeast(s, y) by {
        forall x | x in s ensures y <= x {
          assert x == y || x in t;
        }
      }
    } else {
      MinExists(t);
      var m :| IsLeast(t, m);
      var k := if y < m then y else m;
      assert IsLeast(s, k) by {
        forall x | x in s ensures k <= x {
          assert x == y || x in t;
        }
      }
    }
  }

  /** The least element of a non-empty finite set. */
  function Min(s: set<nat>): (m: nat)
    requires s != {}
    ensures m in s
    ensures forall x :: x in s ==> m <= x
  {
    MinExists(s);
    var m :| IsLeast(s, m); m
  }

  /** The elements of `s` in ascending order: a database table scanned by
      primary key. */
  function Sorted(s: set<nat>): (r: seq<nat>)
    ensures Increasing(r)
    ensures forall x :: x in s <==> x in r
    ensures |r| == |s|
    decreases |s|
  {
    if s == {} then []
    else
      var m := Min(s);
      var rest := Sorted(s - {m});
      assert forall x :: x in rest ==> m < x;
      [m] + rest
  }

  /** A subset is never larger than its superset. */
  lemma {:induction false} SubsetCard<T>(a: set<T>, b: set<T>)
    requires a <= b
    ensures |a| <= |b|
    decreases |a|
  {
    if a != {} {
      var x :| x in a;
      SubsetCard(a - {x}, b - {x});
    }
  }

  /** A subset of the same size is the whole set. */
  lemma {:induction false} SubsetSameCard<T>(a: set<T>, b: set<T>)
    requires a <= b
    requires |a| == |b|
    ensures a == b
    decreases |a|
  {
    if a != {} {
      var x :| x in a;
      SubsetSameCard(a - {x}, b - {x});
      assert a == (a - {x}) + {x};
      assert b == (b - {x}) + {x};
    }
  }

  /** The outcome of a check that may reject its input with a message. */
  datatype Result<+T> = Success(value: T) | Failure(error: string)

  /** The sum of `w` over a finite set of identifiers, taken in ascending
      order. */
  function SumOver(s: set<nat>, w: nat -> nat): (r: nat)
    decreases |s|
  {
    if s == {} then 0
    else
      var m := Min(s);
      w(m) + SumOver(s - {m}, w)
  }

  /** Adding one identifier adds its weight, wherever it falls in the
      order. */
  lemma {:induction false} SumOverAdd(s: set<nat>, x: nat, w: nat -> nat)
    requires x !in s
    ensures SumOver(s + {x}, w) == SumOver(s, w) + w(x)
    decreases |s|
  {
    var t := s + {x};
    var m := Min(t);
    if m == x {
      assert t - {m} == s;
    } else {
      assert m in s;
      assert Min(s) == m;
      assert t - {m} == (s - {m}) + {x};
      SumOverAdd(s - {m}, x, w);
    }
  }

  /** Removing one identifier removes its weight. */
  lemma SumOverRemove(s: set<nat>, x: nat, w: nat -> nat)
    requires x in s
    ensures SumOver(s, w) == SumOver(s - {x}, w) + w(x)
  {
    SumOverAdd(s - {x}, x, w);
    assert (s - {x}) + {x} == s;
  }

  /** Only the weights of the members matter. */
  lemma {:induction false} SumOverSameWeights(s: set<nat>, w: nat -> nat, v: nat -> nat)
    requires forall x :: x in s ==> w(x) == v(x)
    ensures SumOver(s, w) == SumOver(s, v)
    decreases |s|
  {
    if s != {} {
      SumOverSameWeights(s - {Min(s)}, w, v);
    }
  }

  /** A subset never weighs more. */
  lemma {:induction false} SumOverSubset(a: set<nat>, b: set<nat>, w: nat -> nat)
    requires a <= b
    ensures SumOver(a, w) <= SumOver(b, w)
    decreases |b|
  {
    if a != b {
      assert !(b <= a);
      var x :| x in b && x !in a;
      SumOverRemove(b, x, w);
      SumOverSubset(a, b - {x}, w);
    }
  }
}
