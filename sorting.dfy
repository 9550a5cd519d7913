/** Python's `sorted(set(xs))`: the distinct elements of a list, in ascending order.
    Written once over any strict total order, and used for port numbers (integer
    order) and host names (string order). */
module Sorting {
  import PyText

  function Elems<T>(s: seq<T>): set<T> {
    set x | x in s
  }

  lemma ElemsConcat<T>(a: seq<T>, b: seq<T>)
    ensures Elems(a + b) == Elems(a) + Elems(b)
  {
    assert forall x | x in a + b :: x in a || x in b;
  }

  lemma ElemsEmpty<T>(s: seq<T>)
    ensures |s| == 0 <==> Elems(s) == {}
  {
    if |s| > 0 { assert s[0] in Elems(s); }
  }

  ghost predicate StrictTotalOrder<T(!new)>(less: (T, T) -> bool) {
    && (forall x :: !less(x, x))
    && (forall x, y, z :: less(x, y) && less(y, z) ==> less(x, z))
    && (forall x, y :: x != y ==> less(x, y) || less(y, x))
  }

  predicate Ascending<T>(s: seq<T>, less: (T, T) -> bool) {
    forall i, j | 0 <= i < j < |s| :: less(s[i], s[j])
  }

  function NatLess(a: nat, b: nat): bool { a < b }

  lemma NatLessIsStrictTotalOrder()
    ensures StrictTotalOrder(NatLess)
  {
  }

  lemma StringOrderIsStrictTotalOrder()
    ensures StrictTotalOrder(PyText.LexLess)
  {
    forall x: string ensures !PyText.LexLess(x, x) {
      PyText.LexLessIrreflexive(x);
    }
    forall x: string, y: string, z: string | PyText.LexLess(x, y) && PyText.LexLess(y, z)
      ensures PyText.LexLess(x, z)
    {
      PyText.LexLessTransitive(x, y, z);
    }
    forall x: string, y: string | x != y ensures PyText.LexLess(x, y) || PyText.LexLess(y, x) {
      PyText.LexLessTotal(x, y);
    }
  }

  /** Adds `x` to an ascending list, where it belongs, unless it is there already. */
  function Insert<T(==, !new)>(x: T, s: seq<T>, less: (T, T) -> bool): (r: seq<T>)
    requires StrictTotalOrder(less) && Ascending(s, less)
    ensures Ascending(r, less)
    ensures Elems(r) == Elems(s) + {x}
    decreases |s|
  {
    if |s| == 0 then [x]
    else if x == s[0] then s
    else if less(x, s[0]) then
      var r := [x] + s;
      assert forall j | 0 < j < |r| :: r[j] == s[j - 1];
      assert Elems(r) == Elems(s) + {x} by {
        assert forall y | y in r :: y == x || y in s;
      }
      r
    else
      var tail := Insert(x, s[1..], less);
      assert s == [s[0]] + s[1..];
      assert Elems(s) == {s[0]} + Elems(s[1..]);
      var r := [s[0]] + tail;
      assert forall j | 0 < j < |r| :: r[j] == tail[j - 1];
      assert forall j | 0 < j < |r| :: less(s[0], r[j]) by {
        forall j | 0 < j < |r| ensures less(s[0], r[j]) {
          assert r[j] in Elems(tail);
          if r[j] != x {
            assert r[j] in Elems(s[1..]);
            var k :| 0 <= k < |s[1..]| && s[1..][k] == r[j];
            assert s[k + 1] == r[j];
          }
        }
      }
      assert Elems(r) == {s[0]} + Elems(tail);
      r
  }

  /** `sorted(set(xs))` */
  function SortedSet<T(==, !new)>(xs: seq<T>, less: (T, T) -> bool): (r: seq<T>)
    requires StrictTotalOrder(less)
    ensures Ascending(r, less)
    ensures Elems(r) == Elems(xs)
    ensures forall i, j | 0 <= i < j < |r| :: r[i] != r[j]
    decreases |xs|
  {
    if |xs| == 0 then []
    else
      var init := xs[..|xs| - 1];
      assert xs == init + [xs[|xs| - 1]];
      assert Elems(xs) == Elems(init) + {xs[|xs| - 1]};
      Insert(xs[|xs| - 1], SortedSet(init, less), less)
  }

  /** An ascending list is fixed by its elements: whatever order the input came
      in, `sorted(set(xs))` yields the same list for the same set. */
  lemma {:induction false} AscendingUnique<T(!new)>(a: seq<T>, b: seq<T>, less: (T, T) -> bool)
    requires StrictTotalOrder(less)
    requires Ascending(a, less) && Ascending(b, less)
    requires Elems(a) == Elems(b)
    ensures a == b
    decreases |a|
  {
    if |a| == 0 {
      ElemsEmpty(b);
    } else {
      assert a[0] in Elems(b);
      assert |b| > 0;
      assert b[0] in Elems(a);
      var i :| 0 <= i < |a| && a[i] == b[0];
      var j :| 0 <= j < |b| && b[j] == a[0];
      assert a[0] == b[0];
      assert Elems(a[1..]) == Elems(b[1..]) by {
        forall y | y in Elems(a[1..]) ensures y in Elems(b[1..]) {
          var k :| 1 <= k < |a| && a[k] == y;
          assert less(a[0], y);
          assert y in Elems(b);
          var m :| 0 <= m < |b| && b[m] == y;
          assert m != 0;
          assert b[1..][m - 1] == y;
        }
        forall y | y in Elems(b[1..]) ensures y in Elems(a[1..]) {
          var k :| 1 <= k < |b| && b[k] == y;
          assert less(b[0], y);
          assert y in Elems(a);
          var m :| 0 <= m < |a| && a[m] == y;
          assert m != 0;
          assert a[1..][m - 1] == y;
        }
      }
      AscendingUnique(a[1..], b[1..], less);
      assert a == [a[0]] + a[1..] && b == [b[0]] + b[1..];
    }
  }
}
