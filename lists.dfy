/**
 * The few java.util.ArrayList operations the search relies on, over
 * sequences. Lists compare their elements by reference (Node does not
 * override equals), which is Dafny's `==` on objects.
 */
module Lists {

  /**
   * s[i], under a name of its own: Distinct is stated with it, so that its
   * quantifier is only instantiated where a proof asks for it (DistinctAt).
   */
  function At<T>(s: seq<T>, i: nat): T
    requires i < |s|
  {
    s[i]
  }

  /** No element occurs twice. */
  predicate Distinct<T(==)>(s: seq<T>)
  {
    forall i, j {:trigger At(s, i), At(s, j)} :: 0 <= i < j < |s| ==> At(s, i) != At(s, j)
  }

  /** Two positions of a duplicate-free list hold different elements. */
  lemma DistinctAt<T>(s: seq<T>, i: nat, j: nat)
    requires Distinct(s) && i < |s| && j < |s| && i != j
    ensures s[i] != s[j]
  {
    if i < j {
      assert At(s, i) != At(s, j);
    } else {
      assert At(s, j) != At(s, i);
    }
  }

  /** Appending is associative. */
  lemma AppendAssoc<T>(a: seq<T>, b: seq<T>, c: seq<T>)
    ensures (a + b) + c == a + (b + c)
  {
  }

  /** Position of the first occurrence of `x` (what ArrayList.indexOf returns). */
  function IndexOf<T(==)>(s: seq<T>, x: T): (r: nat)
    requires x in s
    ensures r < |s| && s[r] == x
    ensures forall j :: 0 <= j < r ==> s[j] != x
  {
    if s[0] == x then 0 else 1 + IndexOf(s[1..], x)
  }

  /**
   * ArrayList.remove(Object): drops the first occurrence of `x` (the
   * elements before it stay in place, those after it move up by one), and
   * leaves a list without `x` as it is.
   */
  function Remove<T(==)>(s: seq<T>, x: T): (r: seq<T>)
    ensures x !in s ==> r == s
    ensures x in s ==> |r| == |s| - 1
    ensures Distinct(s) ==> Distinct(r) && x !in r
    ensures forall i :: 0 <= i < |r| ==> r[i] in s
    ensures forall i :: 0 <= i < |s| && s[i] != x ==> s[i] in r
    ensures x in s ==>
      var i := IndexOf(s, x);
      && (forall k :: 0 <= k < i ==> r[k] == s[k])
      && (forall k :: i <= k < |r| ==> r[k] == s[k + 1])
  {
    if x in s then
      var i := IndexOf(s, x);
      CutFacts(s, i);
      s[..i] + s[i + 1..]
    else
      s
  }

  /** Remove takes away exactly one occurrence of `x`, if there is one. */
  lemma RemoveOne<T>(s: seq<T>, x: T)
    ensures multiset(Remove(s, x)) == multiset(s) - multiset{x}
  {
    if x in s {
      CutFacts(s, IndexOf(s, x));
    }
  }

  /** What cutting out position `i` does to a list. */
  lemma CutFacts<T>(s: seq<T>, i: nat)
    requires i < |s|
    ensures var r := s[..i] + s[i + 1..];
      && |r| == |s| - 1
      && (forall k :: 0 <= k < i ==> r[k] == s[k])
      && (forall k :: i <= k < |r| ==> r[k] == s[k + 1])
      && multiset(r) == multiset(s) - multiset{s[i]}
      && (Distinct(s) ==> Distinct(r) && s[i] !in r)
  {
    var r := s[..i] + s[i + 1..];
    assert s == s[..i] + [s[i]] + s[i + 1..];
    assert multiset(s) == multiset(s[..i]) + multiset{s[i]} + multiset(s[i + 1..]);
    if Distinct(s) {
      forall a, b | 0 <= a < b < |r| ensures At(r, a) != At(r, b) {
        var a', b' := if a < i then a else a + 1, if b < i then b else b + 1;
        assert r[a] == s[a'] && r[b] == s[b'];
        DistinctAt(s, a', b');
      }
      forall k | 0 <= k < |r| ensures r[k] != s[i] {
        var k' := if k < i then k else k + 1;
        assert r[k] == s[k'];
        DistinctAt(s, k', i);
      }
    }
  }

  /** Appending an element the list lacks keeps it duplicate-free. */
  lemma DistinctSnoc<T>(s: seq<T>, x: T)
    requires Distinct(s) && x !in s
    ensures Distinct(s + [x])
  {
    var r := s + [x];
    forall i, j | 0 <= i < j < |r| ensures At(r, i) != At(r, j) {
      if j < |s| {
        DistinctAt(s, i, j);
      }
    }
  }

  /** The last element of a duplicate-free list does not occur before it. */
  lemma DistinctLast<T>(s: seq<T>)
    requires Distinct(s) && s != []
    ensures s[|s| - 1] !in s[..|s| - 1]
  {
    forall i | 0 <= i < |s| - 1 ensures s[i] != s[|s| - 1] {
      DistinctAt(s, i, |s| - 1);
    }
  }

  /** The elements among the first `k` of `s` that are not in `t`, in their order in `s`. */
  function NotIn<T(==)>(s: seq<T>, k: nat, t: seq<T>): (kept: seq<T>)
    requires k <= |s|
  {
    if k == 0 then []
    else NotIn(s, k - 1, t) + (if s[k - 1] in t then [] else [s[k - 1]])
  }

  /**
   * NotIn keeps exactly the elements of the prefix missing from `t`, and
   * keeps a duplicate-free list duplicate-free.
   */
  lemma {:induction false} NotInMembers<T>(s: seq<T>, k: nat, t: seq<T>)
    requires k <= |s|
    ensures forall i :: 0 <= i < |NotIn(s, k, t)| ==> NotIn(s, k, t)[i] in s[..k] && NotIn(s, k, t)[i] !in t
    ensures forall i :: 0 <= i < k && s[i] !in t ==> s[i] in NotIn(s, k, t)
    ensures Distinct(s) ==> Distinct(NotIn(s, k, t))
  {
    if k > 0 {
      NotInMembers(s, k - 1, t);
      assert s[..k] == s[..k - 1] + [s[k - 1]];
      if Distinct(s) && s[k - 1] !in t {
        forall i | 0 <= i < k - 1 ensures s[i] != s[k - 1] {
          DistinctAt(s, i, k - 1);
        }
        DistinctSnoc(NotIn(s, k - 1, t), s[k - 1]);
      } else if s[k - 1] in t {
        assert NotIn(s, k, t) == NotIn(s, k - 1, t);
      }
    }
  }

  /** An element missing from the prefix is missing from what NotIn keeps of it. */
  lemma {:induction false} NotInAvoids<T>(s: seq<T>, k: nat, t: seq<T>, x: T)
    requires k <= |s| && x !in s[..k]
    ensures x !in NotIn(s, k, t)
  {
    if k > 0 {
      assert s[..k] == s[..k - 1] + [s[k - 1]];
      NotInAvoids(s, k - 1, t, x);
    }
  }

  /** A duplicate-free list drawn from `pool` is no longer than `pool` is large. */
  lemma {:induction false} DistinctBound<T>(s: seq<T>, pool: set<T>)
    requires Distinct(s)
    requires forall x :: x in s ==> x in pool
    ensures |s| <= |pool|
  {
    if s != [] {
      var last := s[|s| - 1];
      var rest := s[..|s| - 1];
      DistinctLast(s);
      assert forall x :: x in rest ==> x in pool - {last} by {
        forall x | x in rest ensures x in pool - {last} {
          var i :| 0 <= i < |rest| && rest[i] == x;
          assert s[i] == x;
        }
      }
      forall i, j | 0 <= i < j < |rest| ensures At(rest, i) != At(rest, j) {
        assert rest[i] == s[i] && rest[j] == s[j];
        DistinctAt(s, i, j);
      }
      DistinctBound(rest, pool - {last});
    }
  }

  /** The rows of a two-dimensional table, one after another. */
  function Flatten<T>(rows: seq<seq<T>>): (flat: seq<T>)
  {
    if rows == [] then [] else Flatten(rows[..|rows| - 1]) + rows[|rows| - 1]
  }

  /** A table of rows of length `k` flattens to |rows| * k entries, every entry among them. */
  lemma {:induction false} FlattenFacts<T>(rows: seq<seq<T>>, k: nat)
    requires forall i :: 0 <= i < |rows| ==> |rows[i]| == k
    ensures |Flatten(rows)| == |rows| * k
    ensures forall i, j :: 0 <= i < |rows| && 0 <= j < k ==> rows[i][j] in Flatten(rows)
  {
    if rows != [] {
      var n := |rows|;
      var init := rows[..n - 1];
      FlattenFacts(init, k);
      assert (n - 1) * k + k == n * k;
      forall i, j | 0 <= i < n && 0 <= j < k ensures rows[i][j] in Flatten(rows) {
        if i < n - 1 {
          assert rows[i] == init[i];
          assert rows[i][j] in Flatten(init);
        } else {
          assert Flatten(rows)[|Flatten(init)| + j] == rows[i][j];
        }
      }
    }
  }

  /** A set drawn from the elements of a list is no larger than the list is long. */
  lemma {:induction false} SetBound<T>(t: set<T>, s: seq<T>)
    requires forall x :: x in t ==> x in s
    ensures |t| <= |s|
  {
    if s == [] {
      assert t == {};
    } else {
      var last := s[|s| - 1];
      var init := s[..|s| - 1];
      forall x | x in t - {last} ensures x in init {
        var i :| 0 <= i < |s| && s[i] == x;
        assert init[i] == x;
      }
      SetBound(t - {last}, init);
    }
  }
}
