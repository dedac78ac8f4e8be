/** The two MongoDB array update operators the service applies to a user's
    `assignedTasks`: `$pull` (remove every occurrence) and `$addToSet` (append unless
    already present). */
module ArrayOps {

  predicate NoDuplicates(s: seq<string>) {
    forall i, j :: 0 <= i < j < |s| ==> s[i] != s[j]
  }

  /** `$pull: { field: x }` */
  function Pull(s: seq<string>, x: string): (r: seq<string>)
    ensures forall y :: y in r <==> y in s && y != x
    ensures forall y :: multiset(r)[y] == if y == x then 0 else multiset(s)[y]
    ensures x !in s ==> r == s
    ensures |r| <= |s|
  {
    if s == [] then []
    else
      assert s == [s[0]] + s[1..];
      if s[0] == x then Pull(s[1..], x)
      else [s[0]] + Pull(s[1..], x)
  }

  /** `$addToSet: { field: x }` */
  function AddToSet(s: seq<string>, x: string): (r: seq<string>)
    ensures forall y :: y in r <==> y in s || y == x
    ensures x in s ==> r == s
    ensures x !in s ==> |r| == |s| + 1 && r[..|s|] == s && r[|s|] == x
  {
    if x in s then s else s + [x]
  }

  /** `$pull` keeps the remaining elements in their order: it works element by
      element over a concatenation. */
  lemma {:induction false} PullConcat(a: seq<string>, b: seq<string>, x: string)
    ensures Pull(a + b, x) == Pull(a, x) + Pull(b, x)
  {
    if a != [] {
      assert (a + b)[0] == a[0] && (a + b)[1..] == a[1..] + b;
      PullConcat(a[1..], b, x);
    } else {
      assert a + b == b;
    }
  }

  /** On a one-element list `$pull` removes the element or keeps it. */
  lemma PullSingle(y: string, x: string)
    ensures Pull([y], x) == if y == x then [] else [y]
  {
    assert [y][1..] == [];
  }

  /** A duplicate-free list holds each of its elements exactly once. */
  lemma {:induction false} NoDuplicatesCount(s: seq<string>, y: string)
    requires NoDuplicates(s)
    ensures multiset(s)[y] == if y in s then 1 else 0
  {
    if s != [] {
      assert s == [s[0]] + s[1..];
      assert NoDuplicates(s[1..]);
      NoDuplicatesCount(s[1..], y);
      assert s[0] !in s[1..];
    }
  }

  /** Pulling twice removes nothing more than pulling once. */
  lemma PullIdempotent(s: seq<string>, x: string)
    ensures Pull(Pull(s, x), x) == Pull(s, x)
  {
    assert x !in Pull(s, x);
  }

  lemma {:induction false} PullKeepsNoDuplicates(s: seq<string>, x: string)
    requires NoDuplicates(s)
    ensures NoDuplicates(Pull(s, x))
  {
    if s != [] {
      assert NoDuplicates(s[1..]);
      PullKeepsNoDuplicates(s[1..], x);
      if s[0] != x {
        assert s[0] !in s[1..];
        assert s[0] !in Pull(s[1..], x);
      }
    }
  }

  /** On a list without duplicates, pulling a present element shortens it by exactly one. */
  lemma {:induction false} PullShortensByOne(s: seq<string>, x: string)
    requires NoDuplicates(s) && x in s
    ensures |Pull(s, x)| == |s| - 1
  {
    assert NoDuplicates(s[1..]);
    if s[0] == x {
      assert x !in s[1..];
    } else {
      assert x in s[1..];
      PullShortensByOne(s[1..], x);
    }
  }

  lemma AddToSetKeepsNoDuplicates(s: seq<string>, x: string)
    requires NoDuplicates(s)
    ensures NoDuplicates(AddToSet(s, x))
  {
  }
}
