/** A Ruby `Hash` with string keys: an insertion-ordered list of key/value pairs.
    A Ruby hash never holds a key twice; the type does not enforce this, and the
    theorems that rely on it require `NoDuplicates(Keys(h))` of the hashes involved. */
module OrderedHash {
  import opened Optional
  import opened Lists

  type Hash<V> = seq<(string, V)>

  function Keys<V>(h: Hash<V>): seq<string>
  {
    seq(|h|, i requires 0 <= i < |h| => h[i].0)
  }

  function Vals<V>(h: Hash<V>): seq<V>
  {
    seq(|h|, i requires 0 <= i < |h| => h[i].1)
  }

  lemma KeysAppend<V>(a: Hash<V>, b: Hash<V>)
    ensures Keys(a + b) == Keys(a) + Keys(b)
  {
  }

  /** `h[k]`, with `None` for a missing key. */
  function Lookup<V>(h: Hash<V>, k: string): Option<V>
  {
    if |h| == 0 then None
    else if h[0].0 == k then Some(h[0].1)
    else Lookup(h[1..], k)
  }

  /** `h[k] = v`: an existing key keeps its position and takes the new value,
      a new key goes to the end. */
  function Store<V>(h: Hash<V>, k: string, v: V): (r: Hash<V>)
    ensures Keys(r) == if k in Keys(h) then Keys(h) else Keys(h) + [k]
    ensures k !in Keys(h) ==> r == h + [(k, v)]
    ensures Lookup(r, k) == Some(v)
    ensures forall k' :: k' != k ==> Lookup(r, k') == Lookup(h, k')
  {
    if |h| == 0 then [(k, v)]
    else
      assert h == [h[0]] + h[1..];
      KeysAppend([h[0]], h[1..]);
      if h[0].0 == k then
        KeysAppend([(k, v)], h[1..]);
        assert Keys([(k, v)]) == Keys([h[0]]) == [k];
        [(k, v)] + h[1..]
      else
        var t := Store(h[1..], k, v);
        KeysAppend([h[0]], t);
        assert ([h[0]] + t)[1..] == t;
        [h[0]] + t
  }

  /** Stores the pairs one after another, as `pairs.each { |k, v| h[k] = v }` does. */
  function StoreAll<V>(h: Hash<V>, pairs: Hash<V>): Hash<V>
  {
    if |pairs| == 0 then h
    else
      var last := pairs[|pairs| - 1];
      Store(StoreAll(h, pairs[..|pairs| - 1]), last.0, last.1)
  }

  /** Storing one more pair of a list stores it after the ones before it. */
  lemma StoreAllPrefix<V>(h: Hash<V>, pairs: Hash<V>, i: nat)
    requires i < |pairs|
    ensures StoreAll(h, pairs[..i + 1]) == Store(StoreAll(h, pairs[..i]), pairs[i].0, pairs[i].1)
  {
    assert pairs[..i + 1][..i] == pairs[..i];
  }

  /** Storing pairs whose keys are all new appends them. */
  lemma {:induction false} StoreAllFresh<V>(h: Hash<V>, pairs: Hash<V>)
    requires NoDuplicates(Keys(h) + Keys(pairs))
    ensures StoreAll(h, pairs) == h + pairs
  {
    if |pairs| > 0 {
      var init, last := pairs[..|pairs| - 1], pairs[|pairs| - 1];
      assert pairs == init + [last];
      KeysAppend(init, [last]);
      KeysAppend(h, init);
      assert Keys(h) + Keys(pairs) == (Keys(h) + Keys(init)) + [last.0];
      NoDuplicatesSplit(Keys(h) + Keys(init), [last.0], last.0);
      StoreAllFresh(h, init);
    }
  }
}
