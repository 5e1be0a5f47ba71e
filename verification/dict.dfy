/**
 A Python dict built by a comprehension over a sequence of (key, value) pairs:
 pairs are inserted in order, so a later pair overwrites an earlier one with the
 same key.
 */
module Dict {

  /** The keys occurring in the pairs. */
  ghost function KeysOf<K, V>(pairs: seq<(K, V)>): set<K> {
    set i | 0 <= i < |pairs| :: pairs[i].0
  }

  /** Position `i` holds the last pair whose key is `k`. */
  ghost predicate LastWithKey<K, V>(pairs: seq<(K, V)>, i: int, k: K) {
    && 0 <= i < |pairs|
    && pairs[i].0 == k
    && forall j :: i < j < |pairs| ==> pairs[j].0 != k
  }

  /** No key occurs in two pairs. */
  ghost predicate DistinctKeys<K, V>(pairs: seq<(K, V)>) {
    forall i, j :: 0 <= i < j < |pairs| ==> pairs[i].0 != pairs[j].0
  }

  /** The dict obtained by inserting the pairs one after another. */
  function FromPairs<K, V>(pairs: seq<(K, V)>): (m: map<K, V>)
    ensures m.Keys == KeysOf(pairs)
    ensures forall k :: k in m ==> exists i :: LastWithKey(pairs, i, k) && m[k] == pairs[i].1
    decreases |pairs|
  {
    if |pairs| == 0 then map[]
    else
      var init := pairs[..|pairs| - 1];
      var last := pairs[|pairs| - 1];
      var m := FromPairs(init)[last.0 := last.1];
      assert KeysOf(pairs) == KeysOf(init) + {last.0} by {
        forall k | k in KeysOf(pairs) ensures k in KeysOf(init) + {last.0} {
          var i :| 0 <= i < |pairs| && pairs[i].0 == k;
          if i < |pairs| - 1 {
            assert init[i] == pairs[i];
          }
        }
        forall k | k in KeysOf(init) ensures k in KeysOf(pairs) {
          var i :| 0 <= i < |init| && init[i].0 == k;
          assert pairs[i] == init[i];
        }
      }
      assert forall k :: k in m ==> exists i :: LastWithKey(pairs, i, k) && m[k] == pairs[i].1 by {
        forall k | k in m ensures exists i :: LastWithKey(pairs, i, k) && m[k] == pairs[i].1 {
          if k == last.0 {
            assert LastWithKey(pairs, |pairs| - 1, k);
          } else {
            var i :| LastWithKey(init, i, k) && FromPairs(init)[k] == init[i].1;
            assert pairs[i] == init[i];
            assert LastWithKey(pairs, i, k);
          }
        }
      }
      m
  }

  /** The value stored under a key is the one of the last pair carrying it. */
  lemma FromPairsLastWins<K, V>(pairs: seq<(K, V)>, i: int)
    requires 0 <= i < |pairs| && LastWithKey(pairs, i, pairs[i].0)
    ensures pairs[i].0 in FromPairs(pairs)
    ensures FromPairs(pairs)[pairs[i].0] == pairs[i].1
  {
    var k := pairs[i].0;
    assert k in KeysOf(pairs);
    var i' :| LastWithKey(pairs, i', k) && FromPairs(pairs)[k] == pairs[i'].1;
    assert LastWithKey(pairs, i', k);
    assert 0 <= i' < |pairs|;
    if i < i' {
      assert false;
    } else if i' < i {
      assert false;
    }
  }

  /** With distinct keys every pair is stored as given. */
  lemma FromPairsDistinct<K, V>(pairs: seq<(K, V)>, i: int)
    requires DistinctKeys(pairs)
    requires 0 <= i < |pairs|
    ensures pairs[i].0 in FromPairs(pairs)
    ensures FromPairs(pairs)[pairs[i].0] == pairs[i].1
  {
    FromPairsLastWins(pairs, i);
  }

  /** Keys are distinct iff they are distinct before the last pair and the last key is new. */
  lemma DistinctKeysSnoc<K, V>(pairs: seq<(K, V)>)
    requires |pairs| > 0
    ensures DistinctKeys(pairs) <==>
      DistinctKeys(pairs[..|pairs| - 1]) && pairs[|pairs| - 1].0 !in KeysOf(pairs[..|pairs| - 1])
  {
    var init := pairs[..|pairs| - 1];
    var n := |pairs| - 1;
    if DistinctKeys(pairs) {
      forall i, j | 0 <= i < j < |init| ensures init[i].0 != init[j].0 {
        assert init[i] == pairs[i] && init[j] == pairs[j];
      }
    }
    if DistinctKeys(init) && pairs[n].0 !in KeysOf(init) {
      forall i, j | 0 <= i < j < |pairs| ensures pairs[i].0 != pairs[j].0 {
        assert init[i] == pairs[i];
        if j < n {
          assert init[j] == pairs[j];
        } else {
          assert init[i].0 in KeysOf(init);
        }
      }
    }
  }

  /** The dict has at most one entry per pair, and exactly one per pair iff keys are distinct. */
  lemma {:induction false} FromPairsSize<K, V>(pairs: seq<(K, V)>)
    ensures |FromPairs(pairs)| <= |pairs|
    ensures |FromPairs(pairs)| == |pairs| <==> DistinctKeys(pairs)
    decreases |pairs|
  {
    if |pairs| > 0 {
      var init := pairs[..|pairs| - 1];
      var last := pairs[|pairs| - 1];
      FromPairsSize(init);
      DistinctKeysSnoc(pairs);
      var m0 := FromPairs(init);
      assert FromPairs(pairs) == m0[last.0 := last.1];
      if last.0 in m0 {
        assert FromPairs(pairs).Keys == m0.Keys;
      } else {
        assert FromPairs(pairs).Keys == m0.Keys + {last.0};
      }
    }
  }
}
