/** The object hooks the JSON decoder is given (PrettyJson.py): `duplicate_key_hook`,
    used by the validate command, and the default `OrderedDict`. A decoded object is
    the sequence of its `(key, value)` pairs in document order. */
module DuplicateKeys {
  import opened Wrappers

  /** Positions `i < j` carry the same key. */
  predicate Clash<K(==), V>(pairs: seq<(K, V)>, i: nat, j: nat) {
    i < j < |pairs| && pairs[i].0 == pairs[j].0
  }

  /** Some key occurs at two positions. */
  predicate HasDuplicateKey<K(==), V>(pairs: seq<(K, V)>) {
    exists i: nat, j: nat | i < j < |pairs| :: Clash(pairs, i, j)
  }

  /** `pairs[j]` repeats a key of an earlier pair, and is the first pair that does. */
  predicate FirstRepeat<K(==), V>(pairs: seq<(K, V)>, j: nat) {
    && j < |pairs|
    && (exists i | 0 <= i < j :: pairs[i].0 == pairs[j].0)
    && !HasDuplicateKey(pairs[..j])
  }

  function KeysOf<K, V>(pairs: seq<(K, V)>): set<K> {
    set i | 0 <= i < |pairs| :: pairs[i].0
  }

  lemma KeysOfAppend<K, V>(ps: seq<(K, V)>, qs: seq<(K, V)>)
    ensures KeysOf(ps + qs) == KeysOf(ps) + KeysOf(qs)
  {
    var all := ps + qs;
    forall k | k in KeysOf(all)
      ensures k in KeysOf(ps) + KeysOf(qs)
    {
      var i :| 0 <= i < |all| && all[i].0 == k;
      if i >= |ps| {
        assert qs[i - |ps|] == all[i];
      }
    }
    forall k | k in KeysOf(ps) + KeysOf(qs)
      ensures k in KeysOf(all)
    {
      if k in KeysOf(ps) {
        var i :| 0 <= i < |ps| && ps[i].0 == k;
        assert all[i] == ps[i];
      } else {
        var i :| 0 <= i < |qs| && qs[i].0 == k;
        assert all[|ps| + i] == qs[i];
      }
    }
  }

  lemma KeysOfOne<K, V>(x: (K, V))
    ensures KeysOf([x]) == {x.0}
  {
    assert [x][0] == x;
  }

  /** One more pair keeps the keys distinct exactly when its key is new. */
  lemma AppendNoDuplicate<K, V>(ps: seq<(K, V)>, x: (K, V))
    ensures !HasDuplicateKey(ps + [x]) <==> !HasDuplicateKey(ps) && x.0 !in KeysOf(ps)
  {
    var all := ps + [x];
    if HasDuplicateKey(ps) {
      var i: nat, j: nat :| i < j < |ps| && Clash(ps, i, j);
      assert all[i] == ps[i] && all[j] == ps[j];
      assert Clash(all, i, j);
    } else if x.0 in KeysOf(ps) {
      var i :| 0 <= i < |ps| && ps[i].0 == x.0;
      assert Clash(all, i, |ps|);
    } else {
      forall i: nat, j: nat
        ensures !Clash(all, i, j)
      {
        if j < |ps| {
          assert !Clash(ps, i, j);
        } else if i < j == |ps| {
          assert all[i] == ps[i];
        }
      }
    }
  }

  /** `duplicate_key_hook(pairs)`: build the mapping pair by pair and raise
      `KeyError(key)` at the first key that is already in it. */
  method DuplicateKeyHook<K(==), V>(pairs: seq<(K, V)>) returns (r: Result<map<K, V>, K>)
    ensures r.Failure? <==> HasDuplicateKey(pairs)
    ensures r.Failure? ==> exists j | 0 <= j < |pairs| :: FirstRepeat(pairs, j) && pairs[j].0 == r.error
    ensures r.Success? ==> r.value.Keys == KeysOf(pairs)
    ensures r.Success? ==> forall i | 0 <= i < |pairs| :: r.value[pairs[i].0] == pairs[i].1
  {
    var result: map<K, V> := map[];
    var n := 0;
    while n < |pairs|
      invariant 0 <= n <= |pairs|
      invariant !HasDuplicateKey(pairs[..n])
      invariant result.Keys == KeysOf(pairs[..n])
      invariant forall i | 0 <= i < n :: pairs[i].0 in result && result[pairs[i].0] == pairs[i].1
    {
      var (key, val) := pairs[n];
      if key in result {
        assert key in KeysOf(pairs[..n]);
        var i :| 0 <= i < n && pairs[..n][i].0 == key;
        assert Clash(pairs, i, n);
        assert FirstRepeat(pairs, n);
        return Failure(key);
      }
      assert pairs[..n + 1] == pairs[..n] + [pairs[n]];
      AppendNoDuplicate(pairs[..n], pairs[n]);
      KeysOfAppend(pairs[..n], [pairs[n]]);
      KeysOfOne(pairs[n]);
      result := result[key := val];
      n := n + 1;
    }
    assert pairs[..n] == pairs;
    return Success(result);
  }

  /** `OrderedDict(pairs)`, the hook of every other command: a repeated key keeps the
      position of its first occurrence and takes the value of its last. Entries are
      `(key, value)` in insertion order. */
  function OrderedDict<K(==), V>(pairs: seq<(K, V)>): (d: seq<(K, V)>)
    ensures !HasDuplicateKey(d)
    ensures KeysOf(d) == KeysOf(pairs)
    decreases |pairs|
  {
    if |pairs| == 0 then []
    else
      var d := OrderedDict(pairs[..|pairs| - 1]);
      var (key, val) := pairs[|pairs| - 1];
      assert pairs == pairs[..|pairs| - 1] + [pairs[|pairs| - 1]];
      KeysOfAppend(pairs[..|pairs| - 1], [pairs[|pairs| - 1]]);
      KeysOfOne(pairs[|pairs| - 1]);
      Store(d, key, val)
  }

  /** The position of `key` in `d`. */
  function IndexOf<K(==), V>(d: seq<(K, V)>, key: K): (i: nat)
    requires key in KeysOf(d)
    ensures i < |d| && d[i].0 == key
    decreases |d|
  {
    if d[0].0 == key then 0
    else
      assert key in KeysOf(d[1..]) by {
        var i :| 0 <= i < |d| && d[i].0 == key;
        assert d[1..][i - 1] == d[i];
      }
      1 + IndexOf(d[1..], key)
  }

  /** `d[key] = val` on an ordered mapping: an existing entry is overwritten in place,
      a new key is appended. */
  function Store<K(==), V>(d: seq<(K, V)>, key: K, val: V): (e: seq<(K, V)>)
    requires !HasDuplicateKey(d)
    ensures !HasDuplicateKey(e)
    ensures KeysOf(e) == KeysOf(d) + {key}
    ensures key !in KeysOf(d) ==> e == d + [(key, val)]
    ensures key in KeysOf(d) ==> |e| == |d|
    ensures forall i | 0 <= i < |e| :: if e[i].0 == key then e[i].1 == val else i < |d| && e[i] == d[i]
  {
    if key in KeysOf(d) then
      var k := IndexOf(d, key);
      var e := d[k := (key, val)];
      assert KeysOf(e) == KeysOf(d) by {
        assert forall i | 0 <= i < |d| :: e[i].0 == d[i].0;
      }
      assert !HasDuplicateKey(e) by {
        forall i: nat, j: nat
          ensures !Clash(e, i, j)
        {
          assert !Clash(d, i, j);
        }
      }
      assert forall i | 0 <= i < |e| && e[i].0 == key :: i == k by {
        forall i | 0 <= i < |e| && e[i].0 == key
          ensures i == k
        {
          assert !Clash(d, i, k) && !Clash(d, k, i);
        }
      }
      e
    else
      KeysOfAppend(d, [(key, val)]);
      KeysOfOne((key, val));
      AppendNoDuplicate(d, (key, val));
      d + [(key, val)]
  }

  /** The value of the last pair with key `k`. */
  function LastValue<K(==), V>(pairs: seq<(K, V)>, k: K): V
    requires k in KeysOf(pairs)
    decreases |pairs|
  {
    var n := |pairs| - 1;
    if pairs[n].0 == k then pairs[n].1
    else
      assert k in KeysOf(pairs[..n]) by {
        var i :| 0 <= i < |pairs| && pairs[i].0 == k;
        assert pairs[..n][i] == pairs[i];
      }
      LastValue(pairs[..n], k)
  }

  // ---------------------------------------------------------------------------
  // Properties

  /** Every key of the decoded object carries the value of its last occurrence. */
  lemma {:induction false} OrderedDictLastWins<K, V>(pairs: seq<(K, V)>)
    ensures forall i | 0 <= i < |OrderedDict(pairs)| ::
      OrderedDict(pairs)[i].0 in KeysOf(pairs) && OrderedDict(pairs)[i].1 == LastValue(pairs, OrderedDict(pairs)[i].0)
    decreases |pairs|
  {
    var d := OrderedDict(pairs);
    if |pairs| > 0 {
      var n := |pairs| - 1;
      var prev := OrderedDict(pairs[..n]);
      OrderedDictLastWins(pairs[..n]);
      forall i | 0 <= i < |d|
        ensures d[i].0 in KeysOf(pairs) && d[i].1 == LastValue(pairs, d[i].0)
      {
        assert d[i].0 in KeysOf(d);
        if d[i].0 != pairs[n].0 {
          assert d[i] == prev[i];
        }
      }
    }
  }

  /** Without repeated keys the ordinary decoder keeps the pairs exactly as written, so
      it agrees with the mapping `duplicate_key_hook` builds. */
  lemma {:induction false} OrderedDictWithoutDuplicates<K, V>(pairs: seq<(K, V)>)
    requires !HasDuplicateKey(pairs)
    ensures OrderedDict(pairs) == pairs
    decreases |pairs|
  {
    if |pairs| > 0 {
      var n := |pairs| - 1;
      assert pairs[..n] + [pairs[n]] == pairs;
      AppendNoDuplicate(pairs[..n], pairs[n]);
      OrderedDictWithoutDuplicates(pairs[..n]);
    }
  }
}
