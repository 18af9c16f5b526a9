/** `ByteExt`, `StringExtensions.Split` and the `TakeUntil` observable
    operator of Helpers.cs, written once over sequences of any equality type
    so that they serve both bytes and characters. */
module Helpers {

  /** An unsigned 8-bit value. */
  type byte = x: int | 0 <= x < 256

  /** `ByteExt.Concat`: a fresh array holding `a` then `b`. */
  function Concat<T>(a: seq<T>, b: seq<T>): (r: seq<T>)
    ensures |r| == |a| + |b|
    ensures r[..|a|] == a && r[|a|..] == b
  {
    a + b
  }

  /** `ByteExt.Compare`: the loop fails at the first position that is out of
      bounds of either array or where the elements differ. */
  function Compare<T(==)>(a: seq<T>, offset1: nat, b: seq<T>, offset2: nat, count: nat): (r: bool)
    ensures r <==> count == 0 ||
                   (offset1 + count <= |a| && offset2 + count <= |b| &&
                    a[offset1..offset1 + count] == b[offset2..offset2 + count])
    decreases count
  {
    if count == 0 then true
    else if offset1 >= |a| || offset2 >= |b| || a[offset1] != b[offset2] then false
    else
      var rest := Compare(a, offset1 + 1, b, offset2 + 1, count - 1);
      assert offset1 + count <= |a| ==> a[offset1..offset1 + count] == [a[offset1]] + a[offset1 + 1..offset1 + count];
      assert offset2 + count <= |b| ==> b[offset2..offset2 + count] == [b[offset2]] + b[offset2 + 1..offset2 + count];
      rest
  }

  /** `value` occurs in full in `src` at position `i`. */
  predicate OccursAt<T(==)>(src: seq<T>, value: seq<T>, i: nat) {
    i + |value| <= |src| && src[i..i + |value|] == value
  }

  /** The search loop of `ByteExt.IndexOf`, started at index `i`. */
  function IndexFrom<T(==)>(src: seq<T>, value: seq<T>, i: nat): (r: int)
    requires i <= |src|
    ensures r == -1 || i <= r < |src|
    ensures r >= 0 ==> Compare(src, r, value, 0, |value|)
    ensures r >= 0 ==> forall j :: i <= j < r ==> !Compare(src, j, value, 0, |value|)
    ensures r == -1 ==> forall j :: i <= j < |src| ==> !Compare(src, j, value, 0, |value|)
    decreases |src| - i
  {
    if i == |src| then -1
    else if Compare(src, i, value, 0, |value|) then i
    else IndexFrom(src, value, i + 1)
  }

  /** `ByteExt.IndexOf`: the least index at which `value` occurs in full,
      or -1. Only indices of `src` are tried. */
  function IndexOf<T(==)>(src: seq<T>, value: seq<T>): (r: int)
    ensures -1 <= r < |src|
    ensures r >= 0 ==> OccursAt(src, value, r)
    ensures r >= 0 ==> forall j :: 0 <= j < r ==> !OccursAt(src, value, j)
    ensures r == -1 ==> forall j :: 0 <= j < |src| ==> !OccursAt(src, value, j)
  {
    var r := IndexFrom(src, value, 0);
    assert forall j :: 0 <= j < |src| ==> (Compare(src, j, value, 0, |value|) <==> OccursAt(src, value, j)) by {
      forall j | 0 <= j < |src|
        ensures Compare(src, j, value, 0, |value|) <==> OccursAt(src, value, j)
      {
        assert value[0..|value|] == value;
      }
    }
    r
  }

  /** An empty search value is found at 0 in a non-empty source and not at
      all in an empty one, because the loop only visits indices of `src`. */
  lemma IndexOfEmptyValue<T>(src: seq<T>)
    ensures IndexOf(src, []) == (if |src| == 0 then -1 else 0)
  {
    if |src| > 0 {
      assert OccursAt(src, [], 0);
    }
  }

  /** `ByteExt.Split`: cut `src` around the first occurrence of `separator`. */
  datatype SplitResult<T> = SplitResult(found: bool, out1: seq<T>, out2: seq<T>)

  function Split<T(==)>(src: seq<T>, separator: seq<T>): (r: SplitResult<T>)
    ensures !r.found <==> Absent(src, separator)
    ensures !r.found ==> r.out1 == [] && r.out2 == []
    ensures r.found ==> src == r.out1 + separator + r.out2
    ensures r.found ==> Absent(r.out1, separator)
  {
    var i := IndexOf(src, separator);
    if i == -1 then SplitResult(false, [], [])
    else
      assert !Absent(src, separator) by {
        assert OccursAt(src, separator, i);
      }
      assert src == src[..i] + src[i..i + |separator|] + src[i + |separator|..];
      OccursInPrefix(src, separator, i);
      SplitResult(true, src[..i], src[i + |separator|..])
  }

  /** An occurrence inside a prefix is an occurrence in the whole. */
  lemma OccursInPrefix<T>(src: seq<T>, separator: seq<T>, i: nat)
    requires i <= |src|
    ensures forall j :: 0 <= j < i && OccursAt(src[..i], separator, j) ==> OccursAt(src, separator, j)
  {
    forall j | 0 <= j < i && OccursAt(src[..i], separator, j)
      ensures OccursAt(src, separator, j)
    {
      assert src[j..j + |separator|] == src[..i][j..j + |separator|];
    }
  }

  /** `separator` occurs nowhere in `p`. */
  predicate Absent<T(==)>(p: seq<T>, separator: seq<T>) {
    forall j :: 0 <= j < |p| ==> !OccursAt(p, separator, j)
  }

  /** `StringExtensions.Split` (a string separator, `StringSplitOptions.None`):
      every occurrence of `separator`, taken from the left, cuts the source,
      and empty parts are kept. An empty separator cuts nowhere. */
  function SplitOn<T(==)>(s: seq<T>, separator: seq<T>): (parts: seq<seq<T>>)
    ensures |parts| >= 1
    decreases |s|
  {
    if |separator| == 0 then [s]
    else
      var i := IndexOf(s, separator);
      if i < 0 then [s]
      else [s[..i]] + SplitOn(s[i + |separator|..], separator)
  }

  /** `String.Join`: the parts with `separator` between neighbours. */
  function JoinOn<T>(parts: seq<seq<T>>, separator: seq<T>): (s: seq<T>)
    requires |parts| >= 1
    decreases |parts|
  {
    if |parts| == 1 then parts[0]
    else parts[0] + separator + JoinOn(parts[1..], separator)
  }

  /** Joining two non-empty runs of parts is joining each and putting one
      separator between them. */
  lemma {:induction false} JoinOnAppend<T>(a: seq<seq<T>>, b: seq<seq<T>>, separator: seq<T>)
    requires |a| >= 1 && |b| >= 1
    ensures JoinOn(a + b, separator) == JoinOn(a, separator) + separator + JoinOn(b, separator)
    decreases |a|
  {
    if |a| == 1 {
      assert (a + b)[1..] == b;
    } else {
      assert (a + b)[1..] == a[1..] + b;
      JoinOnAppend(a[1..], b, separator);
    }
  }

  /** The first cut of `SplitOn`: the part before the first occurrence,
      then the parts of what follows it. */
  lemma SplitOnCut<T>(s: seq<T>, separator: seq<T>)
    requires |separator| > 0 && IndexOf(s, separator) >= 0
    ensures var i := IndexOf(s, separator);
      SplitOn(s, separator) == [s[..i]] + SplitOn(s[i + |separator|..], separator) &&
      s == s[..i] + separator + s[i + |separator|..]
  {
    var i := IndexOf(s, separator);
    assert s == s[..i] + s[i..i + |separator|] + s[i + |separator|..];
  }

  /** Joining a part in front of at least one more. */
  lemma JoinOnCons<T>(p: seq<T>, parts: seq<seq<T>>, separator: seq<T>)
    requires |parts| >= 1
    ensures JoinOn([p] + parts, separator) == p + separator + JoinOn(parts, separator)
  {
    assert ([p] + parts)[1..] == parts;
  }

  /** The outer pieces of a three-piece concatenation come back by slicing. */
  lemma ConcatSlices<T>(a: seq<T>, b: seq<T>, c: seq<T>)
    ensures (a + b + c)[..|a|] == a && (a + b + c)[|a| + |b|..] == c
  {
  }

  /** Because empty parts are kept, joining the parts rebuilds the source. */
  lemma {:induction false} JoinSplit<T>(s: seq<T>, separator: seq<T>)
    ensures JoinOn(SplitOn(s, separator), separator) == s
    decreases |s|
  {
    if |separator| > 0 && IndexOf(s, separator) >= 0 {
      var i := IndexOf(s, separator);
      var rest := s[i + |separator|..];
      SplitOnCut(s, separator);
      JoinSplit(rest, separator);
      JoinOnCons(s[..i], SplitOn(rest, separator), separator);
    }
  }

  /** No occurrence of `separator` starts inside `p` when `p` is followed by
      the separator: the condition under which `p` comes back whole. */
  predicate SeparatorFree<T(==)>(p: seq<T>, separator: seq<T>) {
    forall j :: 0 <= j < |p| ==> !OccursAt(p + separator, separator, j)
  }

  /** For a one-element separator, being separator-free is just not
      containing it. */
  lemma SeparatorFreeSingle<T>(p: seq<T>, c: T)
    requires c !in p
    ensures SeparatorFree(p, [c])
  {
    forall j | 0 <= j < |p|
      ensures !OccursAt(p + [c], [c], j)
    {
      assert (p + [c])[j..j + 1] == [p[j]];
    }
  }

  /** A one-element separator is absent exactly when it is not contained. */
  lemma AbsentSingle<T>(p: seq<T>, c: T)
    requires c !in p
    ensures Absent(p, [c])
  {
    forall j | 0 <= j < |p|
      ensures !OccursAt(p, [c], j)
    {
      if j + 1 <= |p| {
        assert p[j..j + 1] == [p[j]];
      }
    }
  }

  /** For a two-element separator with distinct elements (CR LF, colon
      space), it is enough that the separator does not occur inside `p`. */
  lemma SeparatorFreePair<T>(p: seq<T>, separator: seq<T>)
    requires |separator| == 2 && separator[0] != separator[1]
    requires forall j :: 0 <= j && j + 2 <= |p| ==> !OccursAt(p, separator, j)
    ensures SeparatorFree(p, separator)
  {
    forall j | 0 <= j < |p|
      ensures !OccursAt(p + separator, separator, j)
    {
      if j + 2 <= |p| {
        assert (p + separator)[j..j + 2] == p[j..j + 2];
        assert !OccursAt(p, separator, j);
      } else {
        assert (p + separator)[j + 1] == separator[0];
      }
    }
  }

  /** A separator-free first part is found exactly where the separator
      was placed. */
  lemma IndexOfAfterPart<T>(p: seq<T>, separator: seq<T>, rest: seq<T>)
    requires |separator| > 0
    requires SeparatorFree(p, separator)
    ensures IndexOf(p + separator + rest, separator) == |p|
  {
    var s := p + separator + rest;
    assert OccursAt(s, separator, |p|) by {
      assert s[|p|..|p| + |separator|] == separator;
    }
    forall j | 0 <= j < |p|
      ensures !OccursAt(s, separator, j)
    {
      if OccursAt(s, separator, j) {
        assert s[j..j + |separator|] == (p + separator)[j..j + |separator|];
        assert OccursAt(p + separator, separator, j);
      }
    }
  }

  /** Splitting undoes joining when every part but the last is
      separator-free and the last does not contain the separator. */
  lemma {:induction false} SplitJoin<T>(parts: seq<seq<T>>, separator: seq<T>)
    requires |parts| >= 1 && |separator| > 0
    requires forall k :: 0 <= k < |parts| - 1 ==> SeparatorFree(parts[k], separator)
    requires Absent(parts[|parts| - 1], separator)
    ensures SplitOn(JoinOn(parts, separator), separator) == parts
    decreases |parts|
  {
    if |parts| == 1 {
      assert IndexOf(parts[0], separator) == -1;
    } else {
      var rest := parts[1..];
      forall k | 0 <= k < |rest| - 1 ensures SeparatorFree(rest[k], separator) {
        assert rest[k] == parts[k + 1];
      }
      assert rest[|rest| - 1] == parts[|parts| - 1];
      SplitJoin(rest, separator);
      SplitAfterPart(parts[0], separator, JoinOn(rest, separator), rest);
      assert parts == [parts[0]] + rest;
    }
  }

  /** A separator-free part in front of a joined tail splits off as one
      part. */
  lemma SplitAfterPart<T>(p: seq<T>, separator: seq<T>, tail: seq<T>, tailParts: seq<seq<T>>)
    requires |separator| > 0 && SeparatorFree(p, separator)
    requires SplitOn(tail, separator) == tailParts
    ensures SplitOn(p + separator + tail, separator) == [p] + tailParts
  {
    var s := p + separator + tail;
    IndexOfAfterPart(p, separator, tail);
    SplitOnCut(s, separator);
    ConcatSlices(p, separator, tail);
  }

  /** Single-character `String.Split(c)` and its joining partner. */
  function SplitChar<T(==)>(s: seq<T>, c: T): (parts: seq<seq<T>>)
    ensures |parts| >= 1
  {
    SplitOn(s, [c])
  }

  /** Split then join with a one-element separator: a part is recovered
      intact exactly when it does not contain the separator. */
  lemma SplitJoinChar<T>(parts: seq<seq<T>>, c: T)
    requires |parts| >= 1
    requires forall k :: 0 <= k < |parts| ==> c !in parts[k]
    ensures SplitChar(JoinOn(parts, [c]), c) == parts
  {
    forall k | 0 <= k < |parts| - 1
      ensures SeparatorFree(parts[k], [c])
    {
      SeparatorFreeSingle(parts[k], c);
    }
    AbsentSingle(parts[|parts| - 1], c);
    SplitJoin(parts, [c]);
  }

  /** `TakeUntil`: every item is passed on, and the stream completes right
      after the first item that satisfies the predicate. */
  function TakeUntil<T>(xs: seq<T>, stop: T -> bool): (r: seq<T>)
    ensures |r| <= |xs| && r == xs[..|r|]
    ensures forall j :: 0 <= j < |r| - 1 ==> !stop(r[j])
    ensures |r| < |xs| ==> |r| > 0 && stop(r[|r| - 1])
    ensures |r| == |xs| && |r| > 0 && !stop(r[|r| - 1]) ==> forall j :: 0 <= j < |xs| ==> !stop(xs[j])
    decreases |xs|
  {
    if |xs| == 0 then []
    else if stop(xs[0]) then [xs[0]]
    else [xs[0]] + TakeUntil(xs[1..], stop)
  }
}
