/**
 * Array operations the two stores perform on lists of habit ids:
 * `list.filter(x => x !== v)`, `list.includes(v)` (Dafny's `in`) and
 * `[...list, v]` (Dafny's `+ [v]`).
 */
module Lists {

  predicate NoDuplicates(s: seq<string>) {
    forall i, j :: 0 <= i < j < |s| ==> s[i] != s[j]
  }

  /** `s.filter(x => x !== v)`: every occurrence of v dropped, the rest in order. */
  function Remove(s: seq<string>, v: string): (r: seq<string>)
    ensures v !in r
    ensures forall x :: x != v ==> (x in r <==> x in s)
    ensures |r| <= |s|
  {
    if s == [] then []
    else (if s[0] == v then [] else [s[0]]) + Remove(s[1..], v)
  }

  /** Filtering drops every copy of v and keeps the count of every other value. */
  lemma {:induction false} RemoveMultiset(s: seq<string>, v: string)
    ensures multiset(Remove(s, v)) == multiset(s)[v := 0]
  {
    if s != [] {
      var head := if s[0] == v then [] else [s[0]];
      RemoveMultiset(s[1..], v);
      assert Remove(s, v) == head + Remove(s[1..], v);
      assert multiset(s) == multiset([s[0]]) + multiset(s[1..]) by {
        assert s == [s[0]] + s[1..];
      }
    }
  }

  /** Filtering a list without v returns it unchanged. */
  lemma {:induction false} RemoveAbsent(s: seq<string>, v: string)
    requires v !in s
    ensures Remove(s, v) == s
  {
    if s != [] {
      RemoveAbsent(s[1..], v);
    }
  }

  /** Filtering distributes over concatenation, so the kept ids keep their relative order. */
  lemma {:induction false} RemoveAppend(a: seq<string>, b: seq<string>, v: string)
    ensures Remove(a + b, v) == Remove(a, v) + Remove(b, v)
  {
    if a == [] {
      assert a + b == b;
    } else {
      assert (a + b)[1..] == a[1..] + b;
      RemoveAppend(a[1..], b, v);
    }
  }

  /** Filtering keeps a duplicate-free list duplicate-free. */
  lemma {:induction false} RemoveNoDuplicates(s: seq<string>, v: string)
    requires NoDuplicates(s)
    ensures NoDuplicates(Remove(s, v))
  {
    if s != [] {
      RemoveNoDuplicates(s[1..], v);
      var rest := Remove(s[1..], v);
      if s[0] != v {
        assert s[0] !in s[1..];
        assert Remove(s, v) == [s[0]] + rest;
      }
    }
  }

  /** Removing v if present, otherwise appending it at the end. */
  function Toggle(s: seq<string>, v: string): (r: seq<string>)
    ensures v in r <==> v !in s
    ensures forall x :: x != v ==> (x in r <==> x in s)
  {
    if v in s then Remove(s, v) else s + [v]
  }

  /** Toggling keeps a list duplicate-free. */
  lemma ToggleNoDuplicates(s: seq<string>, v: string)
    requires NoDuplicates(s)
    ensures NoDuplicates(Toggle(s, v))
  {
    if v in s {
      RemoveNoDuplicates(s, v);
    }
  }

  /** Toggling an absent value twice gives the list back unchanged. */
  lemma ToggleTwiceAbsent(s: seq<string>, v: string)
    requires v !in s
    ensures Toggle(Toggle(s, v), v) == s
  {
    RemoveAppend(s, [v], v);
    RemoveAbsent(s, v);
    assert Remove([v], v) == [];
  }

  /**
   * Toggling a present value twice, in a duplicate-free list, gives back the
   * same values with v moved to the end.
   */
  lemma ToggleTwicePresent(s: seq<string>, v: string)
    requires NoDuplicates(s) && v in s
    ensures Toggle(Toggle(s, v), v) == Remove(s, v) + [v]
    ensures multiset(Toggle(Toggle(s, v), v)) == multiset(s)
  {
    var r := Remove(s, v);
    assert Toggle(s, v) == r;
    assert Toggle(r, v) == r + [v];
    OccursOnce(s, v);
    RemoveMultiset(s, v);
    assert multiset(r + [v]) == multiset(r) + multiset([v]);
  }

  /** In a list without duplicates, a member occurs exactly once. */
  lemma OccursOnce(s: seq<string>, v: string)
    requires NoDuplicates(s) && v in s
    ensures multiset(s)[v] == 1
  {
    var i :| 0 <= i < |s| && s[i] == v;
    assert s == s[..i] + [v] + s[i + 1..];
    assert v !in s[..i] && v !in s[i + 1..];
    assert multiset(s) == multiset(s[..i]) + multiset([v]) + multiset(s[i + 1..]);
  }

  /** A list without duplicates whose elements all lie in a set is no longer than the set. */
  lemma {:induction false} NoDuplicatesWithin(s: seq<string>, keys: set<string>)
    requires NoDuplicates(s)
    requires forall x <- s :: x in keys
    ensures |s| <= |keys|
  {
    if s != [] {
      assert s[0] !in s[1..];
      NoDuplicatesWithin(s[1..], keys - {s[0]});
    }
  }
}
