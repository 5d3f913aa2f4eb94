/** PHP's ordered associative arrays with string keys, as the sequence of
    their (key, value) entries in insertion order. */
module PhpArray {
  import opened Wrappers
  import PhpString

  type Assoc<V> = seq<(string, V)>

  /** `array_keys($a)`. */
  function Keys<V>(a: Assoc<V>): (ks: seq<string>)
    ensures |ks| == |a|
    ensures forall i :: 0 <= i < |a| ==> ks[i] == a[i].0
  {
    if a == [] then [] else [a[0].0] + Keys(a[1..])
  }

  /** Every key occurs once, as in any PHP array. */
  predicate UniqueKeys<V>(a: Assoc<V>) {
    a == [] || (a[0].0 !in Keys(a[1..]) && UniqueKeys(a[1..]))
  }

  /** `$a[$k]`, `None` when `array_key_exists($k, $a)` is false. */
  function Lookup<V>(a: Assoc<V>, k: string): (r: Option<V>)
    ensures r.Some? <==> k in Keys(a)
  {
    if a == [] then None
    else if a[0].0 == k then Some(a[0].1)
    else
      assert Keys(a) == [a[0].0] + Keys(a[1..]);
      Lookup(a[1..], k)
  }

  /** `array_search($k, array_keys($a))`: the place of key `k`, counted
      from 0 in insertion order. */
  function KeyIndex<V>(a: Assoc<V>, k: string): (r: Option<nat>)
    ensures r.Some? <==> k in Keys(a)
    ensures r.Some? ==> r.value < |a| && a[r.value].0 == k && k !in Keys(a)[..r.value]
  {
    PhpString.IndexOf(Keys(a), k)
  }

  /** `$a[$k] = $v`: an existing key keeps its place and gets the new value,
      a new key is appended. */
  function Set<V>(a: Assoc<V>, k: string, v: V): (r: Assoc<V>)
    ensures SetsEntry(a, k, v, r)
    ensures Lookup(r, k) == Some(v)
    ensures forall k' :: k' != k ==> Lookup(r, k') == Lookup(a, k')
    ensures Keys(r) == if k in Keys(a) then Keys(a) else Keys(a) + [k]
    ensures UniqueKeys(a) ==> UniqueKeys(r)
  {
    if a == [] then [(k, v)]
    else if a[0].0 == k then
      SetFront(a, k, v);
      [(k, v)] + a[1..]
    else
      var rest := Set(a[1..], k, v);
      SetBehind(a, k, v, rest);
      [a[0]] + rest
  }

  /** What `$a[$k] = $v` promises about the array `r` it leaves. */
  ghost predicate SetsEntry<V>(a: Assoc<V>, k: string, v: V, r: Assoc<V>) {
    Lookup(r, k) == Some(v) &&
    (forall k' :: k' != k ==> Lookup(r, k') == Lookup(a, k')) &&
    Keys(r) == (if k in Keys(a) then Keys(a) else Keys(a) + [k]) &&
    (UniqueKeys(a) ==> UniqueKeys(r))
  }

  /** Setting the first key replaces its value in place. */
  lemma SetFront<V>(a: Assoc<V>, k: string, v: V)
    requires a != [] && a[0].0 == k
    ensures SetsEntry(a, k, v, [(k, v)] + a[1..])
  {
    ConsFacts(a[0], a[1..]);
    ConsFacts((k, v), a[1..]);
    assert a == [a[0]] + a[1..];
  }

  /** Setting a later key leaves the first entry in front. */
  lemma SetBehind<V>(a: Assoc<V>, k: string, v: V, rest: Assoc<V>)
    requires a != [] && a[0].0 != k && SetsEntry(a[1..], k, v, rest)
    ensures SetsEntry(a, k, v, [a[0]] + rest)
  {
    var x, tail := a[0], a[1..];
    assert a == [x] + tail;
    SetBehindLookup(x, tail, k, v, rest);
    SetBehindKeys(x, tail, k, rest);
    SetBehindUnique(x, tail, k, rest);
  }

  lemma SetBehindLookup<V>(x: (string, V), tail: Assoc<V>, k: string, v: V, rest: Assoc<V>)
    requires x.0 != k && Lookup(rest, k) == Some(v)
    requires forall k' :: k' != k ==> Lookup(rest, k') == Lookup(tail, k')
    ensures Lookup([x] + rest, k) == Some(v)
    ensures forall k' :: k' != k ==> Lookup([x] + rest, k') == Lookup([x] + tail, k')
  {
    ConsFacts(x, tail);
    ConsFacts(x, rest);
  }

  lemma SetBehindKeys<V>(x: (string, V), tail: Assoc<V>, k: string, rest: Assoc<V>)
    requires x.0 != k && Keys(rest) == (if k in Keys(tail) then Keys(tail) else Keys(tail) + [k])
    ensures Keys([x] + rest) == (if k in Keys([x] + tail) then Keys([x] + tail) else Keys([x] + tail) + [k])
  {
    KeysCons(x, tail);
    KeysCons(x, rest);
    var ks := Keys(tail);
    assert k in [x.0] + ks <==> k in ks;
    if k !in ks {
      assert [x.0] + (ks + [k]) == ([x.0] + ks) + [k];
    }
  }

  lemma SetBehindUnique<V>(x: (string, V), tail: Assoc<V>, k: string, rest: Assoc<V>)
    requires x.0 != k && Keys(rest) == (if k in Keys(tail) then Keys(tail) else Keys(tail) + [k])
    requires UniqueKeys(tail) ==> UniqueKeys(rest)
    ensures UniqueKeys([x] + tail) ==> UniqueKeys([x] + rest)
  {
    ConsFacts(x, tail);
    ConsFacts(x, rest);
  }

  lemma KeysCons<V>(x: (string, V), rest: Assoc<V>)
    ensures Keys([x] + rest) == [x.0] + Keys(rest)
  {
    assert ([x] + rest)[1..] == rest;
  }

  /** An array with one more entry in front. */
  lemma ConsFacts<V>(x: (string, V), rest: Assoc<V>)
    ensures Keys([x] + rest) == [x.0] + Keys(rest)
    ensures forall k :: Lookup([x] + rest, k) == if x.0 == k then Some(x.1) else Lookup(rest, k)
    ensures UniqueKeys([x] + rest) <==> x.0 !in Keys(rest) && UniqueKeys(rest)
  {
    assert ([x] + rest)[1..] == rest;
  }

  /** The keys other than `k`, in order. */
  function Without(ks: seq<string>, k: string): (r: seq<string>)
    ensures k !in r
    ensures forall x :: x in r <==> x in ks && x != k
  {
    if ks == [] then []
    else if ks[0] == k then Without(ks[1..], k)
    else [ks[0]] + Without(ks[1..], k)
  }

  /** `unset($a[$k])`: the entry with key `k` goes, the others stay in
      order. */
  function Unset<V>(a: Assoc<V>, k: string): (r: Assoc<V>)
    ensures Lookup(r, k) == None
    ensures forall k' :: k' != k ==> Lookup(r, k') == Lookup(a, k')
    ensures Keys(r) == Without(Keys(a), k)
    ensures UniqueKeys(a) ==> UniqueKeys(r)
  {
    if a == [] then []
    else
      var rest := Unset(a[1..], k);
      assert Keys(a) == [a[0].0] + Keys(a[1..]);
      if a[0].0 == k then rest
      else
        var r := [a[0]] + rest;
        assert Keys(r) == [a[0].0] + Keys(rest);
        assert r[1..] == rest;
        r
  }

  /** The array a PHP array literal with these entries gives: a repeated key
      keeps its first place and its last value. */
  function FromPairs<V>(pairs: seq<(string, V)>): (r: Assoc<V>)
    ensures UniqueKeys(r)
    ensures forall k :: k in Keys(r) <==> k in Keys(pairs)
  {
    if pairs == [] then []
    else
      var init := pairs[..|pairs| - 1];
      assert Keys(pairs) == Keys(init) + [pairs[|pairs| - 1].0];
      Set(FromPairs(init), pairs[|pairs| - 1].0, pairs[|pairs| - 1].1)
  }

  /** The value of the last pair with key `k`, if any. */
  function LastWith<V>(pairs: seq<(string, V)>, k: string): (r: Option<V>)
    ensures r.Some? <==> k in Keys(pairs)
  {
    if pairs == [] then None
    else
      var init := pairs[..|pairs| - 1];
      assert Keys(pairs) == Keys(init) + [pairs[|pairs| - 1].0];
      if pairs[|pairs| - 1].0 == k then Some(pairs[|pairs| - 1].1) else LastWith(init, k)
  }

  /** The keys in the order of their first occurrence, each once. */
  function FirstOccurrences(ks: seq<string>): seq<string> {
    if ks == [] then []
    else
      var seen := FirstOccurrences(ks[..|ks| - 1]);
      if ks[|ks| - 1] in seen then seen else seen + [ks[|ks| - 1]]
  }

  /** `array_combine` with a repeated key: the value of every key is the
      one its last pair gives. */
  lemma {:induction false} FromPairsLast<V>(pairs: seq<(string, V)>, k: string)
    ensures Lookup(FromPairs(pairs), k) == LastWith(pairs, k)
  {
    if pairs != [] {
      FromPairsLast(pairs[..|pairs| - 1], k);
    }
  }

  /** `array_combine` with a repeated key: the keys stand in the order of
      their first occurrence. */
  lemma {:induction false} FromPairsOrder<V>(pairs: seq<(string, V)>)
    ensures Keys(FromPairs(pairs)) == FirstOccurrences(Keys(pairs))
  {
    if pairs != [] {
      var init := pairs[..|pairs| - 1];
      FromPairsOrder(init);
      assert Keys(pairs)[..|pairs| - 1] == Keys(init);
    }
  }

  /** Unsetting a key that is not there changes nothing. */
  lemma {:induction false} UnsetAbsent<V>(a: Assoc<V>, k: string)
    requires k !in Keys(a)
    ensures Unset(a, k) == a
  {
    if a != [] {
      var rest := a[1..];
      assert Keys(a)[0] == a[0].0;
      assert Keys(a)[1..] == Keys(rest);
      UnsetAbsent(rest, k);
      assert Unset(a, k) == [a[0]] + Unset(rest, k);
      assert a == [a[0]] + rest;
    }
  }
}
