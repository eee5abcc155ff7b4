/**
 * A PHP array with string keys, as the validator builds its included data:
 * entries keep their insertion order, and writing `$a[$k] = $v` overwrites
 * the value of an existing key in place or appends a new entry at the end.
 */
module PhpArray {
  import opened Wrappers

  /** Entries in insertion order. */
  type Assoc<V> = seq<(string, V)>

  /** The keys of an array, in order. */
  function Keys<V>(a: Assoc<V>): seq<string>
  {
    if a == [] then [] else [a[0].0] + Keys(a[1..])
  }

  ghost predicate Distinct(s: seq<string>)
  {
    forall i, j :: 0 <= i < j < |s| ==> s[i] != s[j]
  }

  /** No key appears twice, as in every PHP array. */
  ghost predicate WellFormed<V>(a: Assoc<V>)
  {
    Distinct(Keys(a))
  }

  /** `$a[$k]` for a key that may be missing. */
  function Lookup<V>(a: Assoc<V>, k: string): (r: Option<V>)
    ensures r.Some? <==> k in Keys(a)
  {
    if a == [] then None
    else if a[0].0 == k then Some(a[0].1)
    else Lookup(a[1..], k)
  }

  /**
   * `$a[$k] = $v`: an existing key keeps its position and takes the new
   * value; a new key is appended; every other key keeps its value.
   */
  function Put<V>(a: Assoc<V>, k: string, v: V): (r: Assoc<V>)
    ensures Keys(r) == KeysAfterPut(Keys(a), k)
    ensures Lookup(r, k) == Some(v)
    ensures forall k' :: k' != k ==> Lookup(r, k') == Lookup(a, k')
  {
    if a == [] then [(k, v)]
    else if a[0].0 == k then [(k, v)] + a[1..]
    else
      var rest := Put(a[1..], k, v);
      assert ([a[0]] + rest)[0] == a[0] && ([a[0]] + rest)[1..] == rest;
      [a[0]] + rest
  }

  /** The elements of `s`, each kept at its first occurrence only. */
  function Dedup(s: seq<string>): seq<string>
  {
    if s == [] then []
    else
      var init := s[..|s| - 1];
      var last := s[|s| - 1];
      if last in init then Dedup(init) else Dedup(init) + [last]
  }

  /** The index of the first occurrence of `x` in `s`. */
  function FirstIndex(s: seq<string>, x: string): (i: nat)
    requires x in s
    ensures i < |s| && s[i] == x
    ensures forall j :: 0 <= j < i ==> s[j] != x
  {
    if s[0] == x then 0 else 1 + FirstIndex(s[1..], x)
  }

  lemma {:induction false} FirstIndexAppend(s: seq<string>, x: string, y: string)
    requires y in s
    ensures FirstIndex(s + [x], y) == FirstIndex(s, y)
  {
    if s[0] != y {
      assert (s + [x])[1..] == s[1..] + [x];
      FirstIndexAppend(s[1..], x, y);
    }
  }

  /**
   * Dedup keeps exactly the elements of `s`, each once, ordered by where
   * they first occur in `s`.
   */
  lemma {:induction false} DedupSpec(s: seq<string>)
    ensures forall x :: x in Dedup(s) <==> x in s
    ensures Distinct(Dedup(s))
    ensures forall i, j :: 0 <= i < j < |Dedup(s)| ==>
              FirstIndex(s, Dedup(s)[i]) < FirstIndex(s, Dedup(s)[j])
  {
    if s != [] {
      var init, last := s[..|s| - 1], s[|s| - 1];
      assert s == init + [last];
      DedupSpec(init);
      var d := Dedup(init);
      forall y | y in init
        ensures FirstIndex(s, y) == FirstIndex(init, y)
      {
        FirstIndexAppend(init, last, y);
      }
      if last !in init {
        assert FirstIndex(s, last) == |init|;
        assert Dedup(s) == d + [last];
        forall i, j | 0 <= i < j < |Dedup(s)|
          ensures FirstIndex(s, Dedup(s)[i]) < FirstIndex(s, Dedup(s)[j])
        {
          assert Dedup(s)[i] == d[i] && d[i] in init;
          if j < |d| {
            assert Dedup(s)[j] == d[j] && d[j] in init;
          }
        }
      }
    }
  }

  /** A sequence whose elements are already distinct is its own Dedup. */
  lemma {:induction false} DedupDistinct(s: seq<string>)
    requires Distinct(s)
    ensures Dedup(s) == s
  {
    if s != [] {
      var init, last := s[..|s| - 1], s[|s| - 1];
      assert s == init + [last];
      assert forall i :: 0 <= i < |init| ==> init[i] == s[i] != s[|s| - 1];
      DedupDistinct(init);
    }
  }

  /** Deduplicating a prefix first does not change the result. */
  lemma {:induction false} DedupPrefix(s: seq<string>, t: seq<string>)
    ensures Dedup(Dedup(s) + t) == Dedup(s + t)
  {
    if t == [] {
      assert Dedup(s) + t == Dedup(s) && s + t == s;
      DedupSpec(s);
      DedupDistinct(Dedup(s));
    } else {
      var t', y := t[..|t| - 1], t[|t| - 1];
      assert Dedup(s) + t == (Dedup(s) + t') + [y];
      assert s + t == (s + t') + [y];
      assert (Dedup(s) + t')[..|Dedup(s) + t'|] == Dedup(s) + t';
      DedupPrefix(s, t');
      DedupSpec(s);
      assert y in Dedup(s) + t' <==> y in s + t';
    }
  }

  /** The keys after writing `k`: unchanged when present, else `k` appended. */
  function KeysAfterPut(ks: seq<string>, k: string): seq<string>
  {
    if k in ks then ks else ks + [k]
  }

  /**
   * Writing a key keeps the keys distinct, and the new keys are the old
   * keys followed by the written one, duplicates dropped.
   */
  lemma KeysAfterPutDedup(ks: seq<string>, k: string)
    requires Distinct(ks)
    ensures Distinct(KeysAfterPut(ks, k))
    ensures KeysAfterPut(ks, k) == Dedup(ks + [k])
  {
    DedupDistinct(ks);
    assert (ks + [k])[..|ks|] == ks;
    if k !in ks {
      forall i, j | 0 <= i < j < |ks| + 1
        ensures (ks + [k])[i] != (ks + [k])[j]
      {
        if j == |ks| { assert ks[i] in ks; }
      }
    }
  }

  /** Writing `k` and then the keys `rest`, duplicates dropped, is the old keys followed by `k` and `rest`, duplicates dropped. */
  lemma DedupAfterPut(ks: seq<string>, k: string, rest: seq<string>)
    requires Distinct(ks)
    ensures Distinct(KeysAfterPut(ks, k))
    ensures Dedup(KeysAfterPut(ks, k) + rest) == Dedup(ks + ([k] + rest))
  {
    KeysAfterPutDedup(ks, k);
    DedupPrefix(ks + [k], rest);
    assert ks + [k] + rest == ks + ([k] + rest);
  }
}
