/**
  A set-like collection backed by an ordered sequence.

  The group keeps its elements in insertion order. Membership is a linear
  scan with strict equality, `Add` appends only when the element is absent,
  `Delete` filters out every equal element, and `From` wraps a sequence as it
  is, without removing duplicates. The source mutates the group in place; here
  each operation returns the new group value.
 */
module Groups {

  /** The group's state: its backing sequence. */
  datatype Group<T> = Group(content: seq<T>)

  /** No two positions of `s` hold equal elements. */
  predicate NoDuplicates<T(==)>(s: seq<T>) {
    forall i, j :: 0 <= i < j < |s| ==> s[i] != s[j]
  }

  /** `r` is obtained from `s` by dropping some positions, keeping the order of the rest. */
  ghost predicate IsSubsequence<T>(r: seq<T>, s: seq<T>)
    decreases |s|
  {
    if |r| == 0 then true
    else if |s| == 0 then false
    else (r[0] == s[0] && IsSubsequence(r[1..], s[1..])) || IsSubsequence(r, s[1..])
  }

  /** Linear scan from the front, stopping at the first element equal to `e`. */
  function Scan<T(==)>(s: seq<T>, e: T): (found: bool)
    ensures found <==> exists i :: 0 <= i < |s| && s[i] == e
  {
    if |s| == 0 then false
    else if s[0] == e then true
    else
      var rest := Scan(s[1..], e);
      assert rest ==> exists i :: 0 <= i < |s| && s[i] == e by {
        if rest {
          var k :| 0 <= k < |s[1..]| && s[1..][k] == e;
          assert s[k + 1] == e;
        }
      }
      assert (exists i :: 0 <= i < |s| && s[i] == e) ==> rest by {
        if exists i :: 0 <= i < |s| && s[i] == e {
          var k :| 0 <= k < |s| && s[k] == e;
          assert k != 0;
          assert s[1..][k - 1] == e;
        }
      }
      rest
  }

  /** `has`: true exactly when some element of the group equals `e`. */
  function Has<T(==)>(g: Group<T>, e: T): (r: bool)
    ensures r <==> e in g.content
  {
    Scan(g.content, e)
  }

  /** `add`: append `e` at the end unless the group already has it. */
  function Add<T(==)>(g: Group<T>, e: T): (r: Group<T>)
    ensures Has(r, e)
    ensures e in g.content ==> r == g
    ensures e !in g.content ==> r.content == g.content + [e]
    ensures |r.content| <= |g.content| + 1
  {
    if !Has(g, e) then Group(g.content + [e]) else g
  }

  /** The source's `filter(x => x !== e)`: every element unequal to `e`, in order. */
  function Without<T(==)>(s: seq<T>, e: T): (r: seq<T>)
    ensures e !in r
    ensures forall x | x in s && x != e :: x in r
    ensures forall x | x in r :: x in s
    ensures multiset(r) == multiset(s)[e := 0]
    ensures |r| <= |s|
  {
    if |s| == 0 then []
    else
      assert s == [s[0]] + s[1..];
      var rest := Without(s[1..], e);
      if s[0] == e then rest else [s[0]] + rest
  }

  /** `delete`: remove every element equal to `e`. */
  function Delete<T(==)>(g: Group<T>, e: T): (r: Group<T>)
    ensures !Has(r, e)
    ensures forall x | x in g.content && x != e :: Has(r, x)
    ensures forall x | x in r.content :: Has(g, x)
    ensures multiset(r.content) == multiset(g.content)[e := 0]
  {
    Group(Without(g.content, e))
  }

  /** `Group.from`: a group whose content is exactly `s`, duplicates and order included. */
  function From<T>(s: seq<T>): (r: Group<T>)
    ensures r.content == s
  {
    Group(s)
  }

  // ---------------------------------------------------------------------
  // Add
  // ---------------------------------------------------------------------

  /** Adding twice is the same as adding once. */
  lemma AddIdempotent<T>(g: Group<T>, e: T)
    ensures Add(Add(g, e), e) == Add(g, e)
  {
  }

  /** After `Add`, the members are the old members plus `e`, and old elements keep their positions. */
  lemma AddMembership<T>(g: Group<T>, e: T)
    ensures forall x :: Has(Add(g, e), x) <==> x == e || Has(g, x)
    ensures Add(g, e).content[..|g.content|] == g.content
  {
  }

  /** `Add` keeps a duplicate-free group duplicate-free. */
  lemma AddPreservesNoDuplicates<T>(g: Group<T>, e: T)
    requires NoDuplicates(g.content)
    ensures NoDuplicates(Add(g, e).content)
  {
  }

  // ---------------------------------------------------------------------
  // Delete
  // ---------------------------------------------------------------------

  /** Filtering distributes over concatenation: each part keeps its surviving elements in order. */
  lemma {:induction false} WithoutConcat<T>(a: seq<T>, b: seq<T>, e: T)
    ensures Without(a + b, e) == Without(a, e) + Without(b, e)
  {
    if |a| == 0 {
      assert a + b == b;
    } else {
      assert (a + b)[0] == a[0];
      assert (a + b)[1..] == a[1..] + b;
      WithoutConcat(a[1..], b, e);
    }
  }

  /** The survivors of `Delete` appear in the source sequence in the same relative order. */
  lemma {:induction false} WithoutIsSubsequence<T>(s: seq<T>, e: T)
    ensures IsSubsequence(Without(s, e), s)
  {
    if |s| > 0 {
      WithoutIsSubsequence(s[1..], e);
      var r := Without(s, e);
      if s[0] != e {
        assert r[0] == s[0] && r[1..] == Without(s[1..], e);
      }
    }
  }

  /** The elements of a sequence that contains no `e` all survive the filter. */
  lemma {:induction false} WithoutAbsent<T>(s: seq<T>, e: T)
    requires e !in s
    ensures Without(s, e) == s
  {
    if |s| > 0 {
      assert e !in s[1..];
      WithoutAbsent(s[1..], e);
      assert s == [s[0]] + s[1..];
    }
  }

  /** Deleting an absent element leaves the group unchanged. */
  lemma DeleteAbsent<T>(g: Group<T>, e: T)
    requires !Has(g, e)
    ensures Delete(g, e) == g
  {
    WithoutAbsent(g.content, e);
  }

  /** Deleting twice is the same as deleting once. */
  lemma DeleteIdempotent<T>(g: Group<T>, e: T)
    ensures Delete(Delete(g, e), e) == Delete(g, e)
  {
    DeleteAbsent(Delete(g, e), e);
  }

  /** Filtering a duplicate-free sequence leaves it duplicate-free. */
  lemma {:induction false} WithoutPreservesNoDuplicates<T>(s: seq<T>, e: T)
    requires NoDuplicates(s)
    ensures NoDuplicates(Without(s, e))
  {
    if |s| > 0 {
      var t := s[1..];
      assert NoDuplicates(t) by {
        forall i, j | 0 <= i < j < |t|
          ensures t[i] != t[j]
        {
          assert t[i] == s[i + 1] && t[j] == s[j + 1];
        }
      }
      WithoutPreservesNoDuplicates(t, e);
      if s[0] != e {
        assert s[0] !in t by {
          forall k | 0 <= k < |t|
            ensures t[k] != s[0]
          {
            assert t[k] == s[k + 1];
          }
        }
      }
    }
  }

  /** `Delete` keeps a duplicate-free group duplicate-free. */
  lemma DeletePreservesNoDuplicates<T>(g: Group<T>, e: T)
    requires NoDuplicates(g.content)
    ensures NoDuplicates(Delete(g, e).content)
  {
    WithoutPreservesNoDuplicates(g.content, e);
  }

  /** Deleting an element that was just added to a group lacking it restores the group. */
  lemma DeleteUndoesAdd<T>(g: Group<T>, e: T)
    requires !Has(g, e)
    ensures Delete(Add(g, e), e) == g
  {
    WithoutConcat(g.content, [e], e);
    WithoutAbsent(g.content, e);
    assert Without([e], e) == [] by {
      assert [e][1..] == [];
    }
  }

  // ---------------------------------------------------------------------
  // From
  // ---------------------------------------------------------------------

  /** `From` does not deduplicate, yet `Delete` still removes every copy. */
  lemma FromKeepsDuplicates<T>(x: T)
    ensures From([x, x]).content == [x, x]
    ensures !NoDuplicates(From([x, x]).content)
    ensures Has(From([x, x]), x)
    ensures !Has(Delete(From([x, x]), x), x)
  {
    assert From([x, x]).content[0] == From([x, x]).content[1];
  }

  /** The demonstration: `from([10, 20])`, then `add(10)` and `delete(10)`. */
  lemma Demo()
    ensures var g := From([10, 20]);
      Has(g, 10) && !Has(g, 30)
    ensures var g := Delete(Add(From([10, 20]), 10), 10);
      !Has(g, 10) && Has(g, 20) && g.content == [20]
  {
  }
}
