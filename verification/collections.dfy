/** `List<T>` as the library's collections of users, groups and sessions
    use it (`Users`, `Groups`, `IMSessions` wrap one): `Add` appends,
    `Remove` drops the first occurrence, `Contains` is membership under
    reference equality, which is id equality in the model. Also LINQ's
    `Except`, which the sync cleanup enumerates. */
module Collections {

  predicate NoDuplicates<T(==,!new)>(s: seq<T>) {
    forall i, j :: 0 <= i < j < |s| ==> s[i] != s[j]
  }

  /** A list with a head: no duplicates exactly when the head is not in
      the tail and the tail has none. */
  lemma NoDuplicatesCons<T(!new)>(h: T, t: seq<T>)
    ensures NoDuplicates([h] + t) <==> h !in t && NoDuplicates(t)
  {
    var s := [h] + t;
    assert forall i :: 0 <= i < |t| ==> s[i + 1] == t[i];
    if h in t {
      var j :| 0 <= j < |t| && t[j] == h;
      assert s[0] == s[j + 1];
    }
    if NoDuplicates(s) {
      forall i, j | 0 <= i < j < |t| ensures t[i] != t[j] {
        assert s[i + 1] != s[j + 1];
      }
    }
    if h !in t && NoDuplicates(t) {
      forall i, j | 0 <= i < j < |s| ensures s[i] != s[j] {
        if i > 0 {
          assert s[i] == t[i - 1] && s[j] == t[j - 1];
        } else {
          assert s[j] in t;
        }
      }
    }
  }

  /** `Add` of a new element keeps a list free of duplicates. */
  lemma NoDuplicatesAppend<T(!new)>(s: seq<T>, x: T)
    requires NoDuplicates(s) && x !in s
    ensures NoDuplicates(s + [x])
  {
    var r := s + [x];
    forall i, j | 0 <= i < j < |r| ensures r[i] != r[j] {
      if j == |s| {
        assert r[i] == s[i];
      } else {
        assert r[i] == s[i] && r[j] == s[j];
      }
    }
  }

  /** `List<T>.Remove`: the first occurrence, if any, is dropped and the
      rest keep their order. */
  function RemoveFirst<T(==,!new)>(s: seq<T>, x: T): (r: seq<T>)
    ensures x !in s ==> r == s
    ensures x in s ==> |r| == |s| - 1
    ensures forall y :: y != x ==> (y in r <==> y in s)
    ensures forall y :: y in r ==> y in s
    ensures NoDuplicates(s) ==> NoDuplicates(r) && x !in r
    decreases |s|
  {
    if |s| == 0 then []
    else
      assert s == [s[0]] + s[1..];
      NoDuplicatesCons(s[0], s[1..]);
      if s[0] == x then s[1..]
      else
        var rest := RemoveFirst(s[1..], x);
        NoDuplicatesCons(s[0], rest);
        [s[0]] + rest
  }

  /** `Add` then `Remove` of an element the list did not hold gives the
      list back. */
  lemma {:induction false} RemoveFirstAppended<T(!new)>(s: seq<T>, x: T)
    requires x !in s
    ensures RemoveFirst(s + [x], x) == s
    decreases |s|
  {
    if |s| > 0 {
      assert (s + [x])[1..] == s[1..] + [x];
      RemoveFirstAppended(s[1..], x);
      assert s == [s[0]] + s[1..];
    }
  }

  /** LINQ `first.Except(second)`: the distinct elements of `first`, in
      order of first appearance, that are not in `second`. */
  function Except<T(==,!new)>(first: seq<T>, second: seq<T>): (r: seq<T>)
    ensures NoDuplicates(r)
    ensures forall y :: y in r <==> y in first && y !in second
  {
    ExceptFrom(first, second, [])
  }

  /** `Except` continued after `seen` has been yielded. */
  function ExceptFrom<T(==,!new)>(first: seq<T>, second: seq<T>, seen: seq<T>): (r: seq<T>)
    requires NoDuplicates(seen) && forall y :: y in seen ==> y !in second
    ensures NoDuplicates(r)
    ensures forall y :: y in r <==> y in first && y !in second && y !in seen
    decreases |first|
  {
    if |first| == 0 then []
    else
      var x := first[0];
      assert first == [x] + first[1..];
      if x in second || x in seen then ExceptFrom(first[1..], second, seen)
      else
        var seen' := seen + [x];
        assert NoDuplicates(seen') by {
          forall i, j | 0 <= i < j < |seen'| ensures seen'[i] != seen'[j] {
            if j == |seen| {
              assert seen'[i] == seen[i];
            } else {
              assert seen'[i] == seen[i] && seen'[j] == seen[j];
            }
          }
        }
        var rest := ExceptFrom(first[1..], second, seen');
        var r := [x] + rest;
        assert x !in rest;
        assert NoDuplicates(r) by {
          forall i, j | 0 <= i < j < |r| ensures r[i] != r[j] {
            if i > 0 {
              assert r[i] == rest[i - 1] && r[j] == rest[j - 1];
            } else {
              assert r[j] in rest;
            }
          }
        }
        r
  }

  /** Every element of `xs` removed in turn. */
  function RemoveAll<T(==,!new)>(s: seq<T>, xs: seq<T>): (r: seq<T>)
    ensures NoDuplicates(s) ==> NoDuplicates(r)
    ensures NoDuplicates(s) ==> forall y :: y in r <==> y in s && y !in xs
    ensures forall y :: y in r ==> y in s
    decreases |xs|
  {
    if |xs| == 0 then s
    else
      var r := RemoveAll(RemoveFirst(s, xs[0]), xs[1..]);
      assert forall y :: y in xs <==> y == xs[0] || y in xs[1..] by {
        assert xs == [xs[0]] + xs[1..];
      }
      r
  }
}
