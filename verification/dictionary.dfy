/** `Dictionary<K, V>` as the library uses it: a sequence of entries in
    enumeration order (insertion order, since the library's dictionaries
    that are enumerated never lose an entry), keys distinct. */
module Dict {

  import opened Wrappers
  import opened Failures

  type Dict<K, V> = seq<(K, V)>

  predicate DistinctKeys<K(==), V>(d: Dict<K, V>) {
    forall i, j :: 0 <= i < j < |d| ==> d[i].0 != d[j].0
  }

  predicate ContainsKey<K(==), V>(d: Dict<K, V>, k: K) {
    exists i :: 0 <= i < |d| && d[i].0 == k
  }

  /** The position of the entry for `k`, if any. */
  function Find<K(==), V>(d: Dict<K, V>, k: K): (i: Option<nat>)
    ensures i.Some? ==> i.value < |d| && d[i.value].0 == k
    ensures i.Some? ==> forall j :: 0 <= j < i.value ==> d[j].0 != k
    ensures i.None? <==> !ContainsKey(d, k)
    decreases |d|
  {
    if |d| == 0 then None
    else if d[0].0 == k then Some(0)
    else
      match Find(d[1..], k)
      case None =>
        assert forall j :: 1 <= j < |d| ==> d[j] == d[1..][j - 1];
        None
      case Some(j) => Some(j + 1)
  }

  /** `TryGetValue`: the value stored under `k`. */
  function Get<K(==), V>(d: Dict<K, V>, k: K): (v: Option<V>)
    ensures v.Some? <==> ContainsKey(d, k)
    ensures v.Some? ==> (k, v.value) in d
    ensures DistinctKeys(d) ==> forall i :: 0 <= i < |d| && d[i].0 == k ==> v == Some(d[i].1)
  {
    match Find(d, k)
    case None => None
    case Some(i) => Some(d[i].1)
  }

  /** The indexer's getter: a missing key throws `KeyNotFoundException`. */
  function Index<K(==), V>(d: Dict<K, V>, k: K): (r: Result<V, Failure>)
    ensures r.Ok? <==> ContainsKey(d, k)
    ensures r.Err? ==> r.error == KeyNotFound
    ensures r.Ok? ==> Get(d, k) == Some(r.value)
  {
    match Get(d, k)
    case None => Err(KeyNotFound)
    case Some(v) => Ok(v)
  }

  /** The indexer's setter: a present key keeps its place and takes the new
      value; a missing key is appended. */
  function Set<K(==,!new), V>(d: Dict<K, V>, k: K, v: V): (r: Dict<K, V>)
    ensures Get(r, k) == Some(v)
    ensures forall k' :: k' != k ==> Get(r, k') == Get(d, k')
    ensures DistinctKeys(d) ==> DistinctKeys(r)
    ensures ContainsKey(d, k) ==> |r| == |d| && forall i :: 0 <= i < |d| ==> r[i].0 == d[i].0
    ensures !ContainsKey(d, k) ==> r == d + [(k, v)]
  {
    match Find(d, k)
    case None =>
      var r := d + [(k, v)];
      assert Find(r, k) == Some(|d|) by {
        assert r[|d|].0 == k;
        assert forall j :: 0 <= j < |d| ==> r[j] == d[j];
      }
      forall k' | k' != k ensures Get(r, k') == Get(d, k') {
        GetAppend(d, k', k, v);
      }
      r
    case Some(i) =>
      var r := d[i := (k, v)];
      assert forall j :: 0 <= j < |d| ==> r[j].0 == d[j].0;
      assert Find(r, k) == Some(i);
      forall k' | k' != k ensures Get(r, k') == Get(d, k') {
        GetReplace(d, i, k', v);
      }
      r
  }

  /** An appended entry does not hide the entries before it. */
  lemma GetAppend<K, V>(d: Dict<K, V>, k': K, k: K, v: V)
    requires k' != k
    ensures Get(d + [(k, v)], k') == Get(d, k')
  {
    var r := d + [(k, v)];
    assert forall j :: 0 <= j < |d| ==> r[j] == d[j];
    match Find(d, k')
    case None =>
      assert !ContainsKey(r, k');
    case Some(i) =>
      assert Find(r, k') == Some(i);
  }

  /** Replacing the value under one key leaves the other keys' values. */
  lemma GetReplace<K, V>(d: Dict<K, V>, i: nat, k': K, v: V)
    requires i < |d| && d[i].0 != k'
    ensures Get(d[i := (d[i].0, v)], k') == Get(d, k')
  {
    var r := d[i := (d[i].0, v)];
    assert forall j :: 0 <= j < |d| && j != i ==> r[j] == d[j];
    assert forall j :: 0 <= j < |d| ==> r[j].0 == d[j].0;
    match Find(d, k')
    case None =>
      assert !ContainsKey(r, k');
    case Some(j) =>
      assert Find(r, k') == Some(j);
  }

  /** `Add`: a present key throws `ArgumentException`; otherwise the entry
      is appended. */
  function Add<K(==,!new), V>(d: Dict<K, V>, k: K, v: V): (r: Result<Dict<K, V>, Failure>)
    ensures r.Err? <==> ContainsKey(d, k)
    ensures r.Err? ==> r.error == Argument
    ensures r.Ok? ==> r.value == d + [(k, v)] && Get(r.value, k) == Some(v)
    ensures r.Ok? && DistinctKeys(d) ==> DistinctKeys(r.value)
  {
    if Find(d, k).Some? then Err(Argument)
    else Ok(Set(d, k, v))
  }

  /** `ToDictionary(keySelector, elementSelector)` continuing from `d`: each
      item in order gives its entry (the selectors may throw) and is added
      (a repeated key throws). */
  function ToDictionary<T, K(==,!new), V>(d: Dict<K, V>, items: seq<T>, entry: T -> Result<(K, V), Failure>)
    : (r: Result<Dict<K, V>, Failure>)
    ensures r.Ok? ==> |r.value| == |d| + |items| && r.value[..|d|] == d
    decreases |items|
  {
    if |items| == 0 then Ok(d)
    else
      var e :- entry(items[0]);
      var d2 :- Add(d, e.0, e.1);
      match ToDictionary(d2, items[1..], entry)
      case Err(f) => Err(f)
      case Ok(r) =>
        assert r[..|d|] == r[..|d2|][..|d|];
        Ok(r)
  }

  /** Each item's entry sits at the item's position after `d`. */
  lemma {:induction false} ToDictionaryEntries<T, K(!new), V>(d: Dict<K, V>, items: seq<T>, entry: T -> Result<(K, V), Failure>)
    ensures var r := ToDictionary(d, items, entry);
      r.Ok? ==> forall i :: 0 <= i < |items| ==> entry(items[i]) == Ok(r.value[|d| + i])
    decreases |items|
  {
    if |items| > 0 && entry(items[0]).Ok? {
      var e := entry(items[0]).value;
      var a := Add(d, e.0, e.1);
      if a.Ok? {
        var d2 := a.value;
        ToDictionaryEntries(d2, items[1..], entry);
        var r := ToDictionary(d2, items[1..], entry);
        if r.Ok? {
          assert d2[|d|] == e;
          ToDictionaryStep(d, d2, r.value, items, entry);
        }
      }
    }
  }

  /** The entries after `d2 = d + [e]` for the rest of the items are those
      after `d` for all of them. */
  lemma ToDictionaryStep<T, K, V>(d: Dict<K, V>, d2: Dict<K, V>, r: Dict<K, V>, items: seq<T>, entry: T -> Result<(K, V), Failure>)
    requires |items| > 0 && |d2| == |d| + 1 && d2[..|d|] == d && entry(items[0]) == Ok(d2[|d|])
    requires |r| == |d2| + |items[1..]| && r[..|d2|] == d2
    requires forall i :: 0 <= i < |items[1..]| ==> entry(items[1..][i]) == Ok(r[|d2| + i])
    ensures forall i :: 0 <= i < |items| ==> entry(items[i]) == Ok(r[|d| + i])
  {
    assert r[|d|] == r[..|d2|][|d|];
    forall i | 1 <= i < |items| ensures entry(items[i]) == Ok(r[|d| + i]) {
      assert items[i] == items[1..][i - 1];
    }
  }

  /** The keys of a built dictionary are distinct (`Add` refuses a
      repeated one). */
  lemma {:induction false} ToDictionaryDistinct<T, K(!new), V>(d: Dict<K, V>, items: seq<T>, entry: T -> Result<(K, V), Failure>)
    requires DistinctKeys(d)
    ensures ToDictionary(d, items, entry).Ok? ==> DistinctKeys(ToDictionary(d, items, entry).value)
    decreases |items|
  {
    if |items| > 0 && entry(items[0]).Ok? {
      var e := entry(items[0]).value;
      var a := Add(d, e.0, e.1);
      if a.Ok? {
        ToDictionaryDistinct(a.value, items[1..], entry);
      }
    }
  }

  /** When every item gives an entry and the keys are distinct, the result
      is exactly those entries after `d`. */
  lemma {:induction false} ToDictionaryOk<T, K(!new), V>(d: Dict<K, V>, items: seq<T>, entry: T -> Result<(K, V), Failure>,
                                                   entries: Dict<K, V>)
    requires |entries| == |items|
    requires forall i :: 0 <= i < |items| ==> entry(items[i]) == Ok(entries[i])
    requires DistinctKeys(d + entries)
    ensures ToDictionary(d, items, entry) == Ok(d + entries)
    decreases |items|
  {
    if |items| == 0 {
      assert d + entries == d;
    } else {
      var (k, v) := entries[0];
      assert !ContainsKey(d, k) by {
        forall j | 0 <= j < |d| ensures d[j].0 != k {
          assert (d + entries)[j] == d[j] && (d + entries)[|d|] == (k, v);
        }
      }
      var d2 := d + [(k, v)];
      assert d2 + entries[1..] == d + entries;
      ToDictionaryOk(d2, items[1..], entry, entries[1..]);
    }
  }
}
