/**
 * Ordered iteration. A `BTreeMap`, a `BTreeSet` and a sled tree all hand out
 * their elements in ascending order of a strict total order on keys; the
 * model captures this once, generically, as `Enumerate`, and the
 * lexicographic order Rust derives for byte strings, strings and tuples as
 * `LexLess`.
 */
module Ordering {

  /** `less` is irreflexive, transitive and total on distinct values. */
  ghost predicate StrictTotal<T(!new)>(less: (T, T) -> bool)
  {
    (forall x :: !less(x, x)) &&
    (forall x, y, z :: less(x, y) && less(y, z) ==> less(x, z)) &&
    (forall x, y :: x != y ==> less(x, y) || less(y, x))
  }

  /** Strictly ascending: each element is below every later one. */
  predicate Ascending<T>(s: seq<T>, less: (T, T) -> bool)
  {
    forall i, j :: 0 <= i < j < |s| ==> less(s[i], s[j])
  }

  /** `s` lists exactly the members of `u`. */
  ghost predicate Lists<T(!new)>(s: seq<T>, u: set<T>)
  {
    forall x :: x in s <==> x in u
  }

  /** `m` is the least member of `u`. */
  ghost predicate IsLeast<T(!new)>(m: T, u: set<T>, less: (T, T) -> bool)
  {
    m in u && forall y :: y in u && y != m ==> less(m, y)
  }

  /** A non-empty finite set has a least element. */
  lemma {:induction false} MinimumExists<T(!new)>(u: set<T>, less: (T, T) -> bool)
    requires StrictTotal(less) && u != {}
    ensures exists m :: IsLeast(m, u, less)
    decreases |u|
  {
    var x :| x in u;
    var rest := u - {x};
    if rest == {} {
      assert u == {x};
      assert IsLeast(x, u, less);
    } else {
      MinimumExists(rest, less);
      var m :| IsLeast(m, rest, less);
      if less(m, x) {
        assert IsLeast(m, u, less);
      } else {
        assert less(x, m);
        forall y | y in u && y != x ensures less(x, y) {
          if y != m {
            assert y in rest && less(m, y);
          }
        }
        assert IsLeast(x, u, less);
      }
    }
  }

  /** Iterates a finite set in ascending order, the way an ordered map's range or a sled scan does. */
  method Enumerate<T(!new)>(u: set<T>, less: (T, T) -> bool) returns (r: seq<T>)
    requires StrictTotal(less)
    ensures Ascending(r, less) && Lists(r, u)
  {
    r := [];
    var rest := u;
    while rest != {}
      invariant rest <= u
      invariant forall x :: x in u <==> x in rest || x in r
      invariant forall x :: x in r ==> x !in rest
      invariant Ascending(r, less)
      invariant forall i, y :: 0 <= i < |r| && y in rest ==> less(r[i], y)
      decreases rest
    {
      MinimumExists(rest, less);
      var m :| m in rest && forall y :: y in rest && y != m ==> less(m, y);
      r := r + [m];
      rest := rest - {m};
    }
  }

  /** An ascending listing of a set is unique: ordered iteration is deterministic. */
  lemma {:induction false} AscendingUnique<T(!new)>(a: seq<T>, b: seq<T>, less: (T, T) -> bool)
    requires StrictTotal(less)
    requires Ascending(a, less) && Ascending(b, less)
    requires forall x :: x in a <==> x in b
    ensures a == b
    decreases |a|
  {
    if a != [] {
      assert a[0] in a;
      assert b != [];
      assert a[0] in b && b[0] in a;
      assert a[0] == b[0];
      forall x
        ensures x in a[1..] <==> x in b[1..]
      {
        if x in a[1..] {
          var k :| 1 <= k < |a| && a[k] == x;
          assert x != a[0];
          assert x in b;
          var l :| 0 <= l < |b| && b[l] == x;
          assert b[1..][l - 1] == x;
        }
        if x in b[1..] {
          var k :| 1 <= k < |b| && b[k] == x;
          assert x != b[0];
          assert x in a;
          var l :| 0 <= l < |a| && a[l] == x;
          assert a[1..][l - 1] == x;
        }
      }
      AscendingUnique(a[1..], b[1..], less);
      assert a == [a[0]] + a[1..] && b == [b[0]] + b[1..];
    }
  }

  /** The lexicographic order Rust derives for sequences: a proper prefix comes first. */
  predicate LexLess<T(==)>(a: seq<T>, b: seq<T>, lt: (T, T) -> bool)
    decreases |a|
  {
    if a == [] then b != []
    else if b == [] then false
    else if a[0] == b[0] then LexLess(a[1..], b[1..], lt)
    else lt(a[0], b[0])
  }

  lemma {:induction false} LexIrreflexive<T(!new)>(a: seq<T>, lt: (T, T) -> bool)
    ensures !LexLess(a, a, lt)
    decreases |a|
  {
    if a != [] { LexIrreflexive(a[1..], lt); }
  }

  lemma {:induction false} LexTransitive<T(!new)>(a: seq<T>, b: seq<T>, c: seq<T>, lt: (T, T) -> bool)
    requires StrictTotal(lt)
    requires LexLess(a, b, lt) && LexLess(b, c, lt)
    ensures LexLess(a, c, lt)
    decreases |a|
  {
    if a != [] && b != [] && c != [] && a[0] == b[0] && b[0] == c[0] {
      LexTransitive(a[1..], b[1..], c[1..], lt);
    }
  }

  lemma {:induction false} LexTotal<T(!new)>(a: seq<T>, b: seq<T>, lt: (T, T) -> bool)
    requires StrictTotal(lt)
    requires a != b
    ensures LexLess(a, b, lt) || LexLess(b, a, lt)
    decreases |a|
  {
    if a != [] && b != [] && a[0] == b[0] {
      assert a == [a[0]] + a[1..] && b == [b[0]] + b[1..];
      LexTotal(a[1..], b[1..], lt);
    }
  }

  /** The lexicographic extension of a strict total order is a strict total order. */
  lemma LexStrictTotal<T(!new)>(lt: (T, T) -> bool)
    requires StrictTotal(lt)
    ensures StrictTotal((a: seq<T>, b: seq<T>) => LexLess(a, b, lt))
  {
    forall a: seq<T> ensures !LexLess(a, a, lt) { LexIrreflexive(a, lt); }
    forall a: seq<T>, b: seq<T>, c: seq<T> | LexLess(a, b, lt) && LexLess(b, c, lt)
      ensures LexLess(a, c, lt)
    {
      LexTransitive(a, b, c, lt);
    }
    forall a: seq<T>, b: seq<T> | a != b ensures LexLess(a, b, lt) || LexLess(b, a, lt) {
      LexTotal(a, b, lt);
    }
  }

  /** The order on integers and on characters. */
  predicate IntLess(x: int, y: int) { x < y }
  predicate CharLess(x: char, y: char) { x < y }

  lemma IntLessStrictTotal()
    ensures StrictTotal(IntLess)
  {
  }

  lemma CharLessStrictTotal()
    ensures StrictTotal(CharLess)
  {
  }
}
