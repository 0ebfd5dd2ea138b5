/**
 * Swift's `Set<Element>` for element types whose `==` is their own
 * (Line.swift:48-51, Edge.swift:46-49). Membership, insertion and removal go by
 * that equality `eq`, not by the identity of the stored values: inserting an
 * element equal to a member keeps the member, and removing an element removes
 * the member equal to it. The hashes of both types are consistent with their
 * `==`, so hashing adds nothing to this description.
 */
module HashedSets {

  /** `s.contains(x)`. */
  predicate Contains<T>(s: set<T>, x: T, eq: (T, T) -> bool)
  {
    exists y :: y in s && eq(y, x)
  }

  /**
   * `s.insert(x)`: every member stays, nothing but `x` comes in, and `x`
   * comes in only when no member equal to it exists.
   */
  function Insert<T>(s: set<T>, x: T, eq: (T, T) -> bool): (r: set<T>)
    ensures s <= r <= s + {x}
    ensures Contains(s, x, eq) ==> r == s
    ensures !Contains(s, x, eq) ==> x in r
  {
    if Contains(s, x, eq) then s else s + {x}
  }

  /**
   * `s.remove(x)`: afterwards the set no longer contains `x`, it has lost
   * nothing else, and it gained nothing.
   */
  function Remove<T>(s: set<T>, x: T, eq: (T, T) -> bool): (r: set<T>)
    ensures r <= s && !Contains(r, x, eq)
    ensures forall y :: y in s && !eq(y, x) ==> y in r
    ensures !Contains(s, x, eq) ==> r == s
  {
    set y | y in s && !eq(y, x)
  }

  /** `contains` after `insert(x)`: the old members and `x`, up to the equality. */
  lemma ContainsAfterInsert<T(!new)>(s: set<T>, x: T, y: T, eq: (T, T) -> bool)
    requires IsEquivalence(eq)
    ensures Contains(Insert(s, x, eq), y, eq) <==> Contains(s, y, eq) || eq(x, y)
  {
    if Contains(s, x, eq) && eq(x, y) {
      var m :| m in s && eq(m, x);
      assert eq(m, y);
    }
  }

  /** `contains` after `remove(x)`: the old members, less those equal to `x`. */
  lemma ContainsAfterRemove<T>(s: set<T>, x: T, y: T, eq: (T, T) -> bool)
    ensures Contains(Remove(s, x, eq), y, eq) <==> exists m :: m in s && eq(m, y) && !eq(m, x)
  {
  }

  /** No two members of `s` are equal: the state a Swift set is always in. */
  predicate Distinct<T>(s: set<T>, eq: (T, T) -> bool)
  {
    forall a, b :: a in s && b in s && eq(a, b) ==> a == b
  }

  /** `eq` is an equivalence relation. */
  ghost predicate IsEquivalence<T(!new)>(eq: (T, T) -> bool)
  {
    && (forall a :: eq(a, a))
    && (forall a, b :: eq(a, b) ==> eq(b, a))
    && (forall a, b, c :: eq(a, b) && eq(b, c) ==> eq(a, c))
  }

  /** `xs` lists every member of `s` exactly once: an iteration order of `s`. */
  ghost predicate Enumerates<T>(xs: seq<T>, s: set<T>)
  {
    && (forall i, j :: 0 <= i < j < |xs| ==> xs[i] != xs[j])
    && (forall x :: x in xs ==> x in s)
    && (forall x :: x in s ==> x in xs)
  }

  /** After `insert(x)` the set contains `x`, and it contains all it did before. */
  lemma InsertContains<T(!new)>(s: set<T>, x: T, eq: (T, T) -> bool)
    requires IsEquivalence(eq)
    ensures Contains(Insert(s, x, eq), x, eq)
    ensures s <= Insert(s, x, eq)
  {
    if !Contains(s, x, eq) {
      assert x in Insert(s, x, eq) && eq(x, x);
    }
  }

  /** Insertion keeps a set free of equal members... */
  lemma InsertDistinct<T(!new)>(s: set<T>, x: T, eq: (T, T) -> bool)
    requires IsEquivalence(eq) && Distinct(s, eq)
    ensures Distinct(Insert(s, x, eq), eq)
  {
  }

  /** ...and so does removal. */
  lemma RemoveDistinct<T>(s: set<T>, x: T, eq: (T, T) -> bool)
    requires Distinct(s, eq)
    ensures Distinct(Remove(s, x, eq), eq)
  {
  }

  /** In a set without equal members, removing a member removes exactly that member. */
  lemma RemoveMember<T(!new)>(s: set<T>, x: T, eq: (T, T) -> bool)
    requires IsEquivalence(eq) && Distinct(s, eq) && x in s
    ensures Remove(s, x, eq) == s - {x}
  {
    forall y | y in s && y != x
      ensures !eq(y, x)
    {
    }
  }

  /** Inserting a new element adds one to the size; inserting a present one adds nothing. */
  lemma InsertCardinality<T(!new)>(s: set<T>, x: T, eq: (T, T) -> bool)
    requires IsEquivalence(eq)
    ensures |Insert(s, x, eq)| == if Contains(s, x, eq) then |s| else |s| + 1
  {
    if !Contains(s, x, eq) {
      assert x !in s by {
        assert eq(x, x);
      }
    }
  }

  /** A set that contains `x` contains everything equal to `x`. */
  lemma ContainsEqual<T(!new)>(s: set<T>, x: T, y: T, eq: (T, T) -> bool)
    requires IsEquivalence(eq) && Contains(s, x, eq) && eq(x, y)
    ensures Contains(s, y, eq)
  {
    var m :| m in s && eq(m, x);
    assert eq(m, y);
  }

  /**
   * Inserting `a` and `b` and then removing `x`, where neither is equal to
   * `x`: both are contained afterwards, `x` is not, every member not equal to
   * `x` stays, and nothing but `a` and `b` is new.
   */
  lemma ReplaceByTwo<T(!new)>(s: set<T>, x: T, a: T, b: T, eq: (T, T) -> bool)
    requires IsEquivalence(eq) && !eq(a, x) && !eq(b, x)
    ensures Contains(Remove(Insert(Insert(s, a, eq), b, eq), x, eq), a, eq)
    ensures Contains(Remove(Insert(Insert(s, a, eq), b, eq), x, eq), b, eq)
    ensures !Contains(Remove(Insert(Insert(s, a, eq), b, eq), x, eq), x, eq)
    ensures forall y :: y in s && !eq(y, x) ==> y in Remove(Insert(Insert(s, a, eq), b, eq), x, eq)
    ensures forall y :: y in Remove(Insert(Insert(s, a, eq), b, eq), x, eq) ==> y in s || y == a || y == b
  {
    var t1 := Insert(s, a, eq);
    var t2 := Insert(t1, b, eq);
    var r := Remove(t2, x, eq);
    InsertContains(s, a, eq);
    InsertContains(t1, b, eq);
    var ma :| ma in t2 && eq(ma, a);
    var mb :| mb in t2 && eq(mb, b);
    assert !eq(ma, x) && !eq(mb, x);
    assert ma in r && mb in r;
  }

  /**
   * Inserting `a` and `b` and then removing `x` keeps every member not equal
   * to `x` and adds nothing but `a` and `b`, whatever `eq` is.
   */
  lemma ReplaceByTwoFrame<T>(s: set<T>, x: T, a: T, b: T, eq: (T, T) -> bool)
    ensures forall y :: y in s && !eq(y, x) ==> y in Remove(Insert(Insert(s, a, eq), b, eq), x, eq)
    ensures forall y :: y in Remove(Insert(Insert(s, a, eq), b, eq), x, eq) ==> y in s || y == a || y == b
  {
  }

  /** Every finite set has an iteration order. */
  lemma {:induction false} SomeEnumeration<T>(s: set<T>) returns (xs: seq<T>)
    ensures Enumerates(xs, s)
    decreases s
  {
    if s == {} {
      xs := [];
    } else {
      var x :| x in s;
      var rest := SomeEnumeration(s - {x});
      xs := [x] + rest;
      forall i, j | 0 <= i < j < |xs|
        ensures xs[i] != xs[j]
      {
        if i == 0 {
          assert xs[j] == rest[j - 1] && rest[j - 1] in rest;
        } else {
          assert xs[i] == rest[i - 1] && xs[j] == rest[j - 1];
        }
      }
    }
  }

  /** An iteration order is as long as the set it lists. */
  lemma {:induction false} EnumerationSize<T>(xs: seq<T>, s: set<T>)
    requires Enumerates(xs, s)
    ensures |xs| == |s|
    decreases xs
  {
    if xs != [] {
      var rest := s - {xs[0]};
      forall x | x in xs[1..]
        ensures x in rest
      {
        var k :| 1 <= k < |xs| && xs[k] == x;
        assert xs[0] != xs[k];
      }
      forall x | x in rest
        ensures x in xs[1..]
      {
        var k :| 0 <= k < |xs| && xs[k] == x;
        assert k != 0;
        assert xs[1..][k - 1] == x;
      }
      assert Enumerates(xs[1..], rest);
      EnumerationSize(xs[1..], rest);
    }
  }
}
