/** Lists of distinct keys, the insertion order of a JavaScript Map. */
module KeyList {
  import opened JsText

  ghost predicate Distinct(keys: seq<Text>) {
    forall i, j :: 0 <= i < j < |keys| ==> keys[i] != keys[j]
  }

  /** The list after Map.delete. */
  function Without(keys: seq<Text>, k: Text): seq<Text> {
    if keys == [] then []
    else Without(keys[..|keys| - 1], k) + (if keys[|keys| - 1] == k then [] else [keys[|keys| - 1]])
  }

  lemma {:induction false} WithoutMembers(keys: seq<Text>, k: Text)
    requires Distinct(keys)
    ensures Distinct(Without(keys, k))
    ensures forall x :: x in Without(keys, k) <==> x in keys && x != k
  {
    if keys != [] {
      var init, last := keys[..|keys| - 1], keys[|keys| - 1];
      WithoutMembers(init, k);
      assert keys == init + [last] && last !in init;
    }
  }

  lemma {:induction false} WithoutAbsent(keys: seq<Text>, k: Text)
    requires k !in keys
    ensures Without(keys, k) == keys
  {
    if keys != [] {
      WithoutAbsent(keys[..|keys| - 1], k);
    }
  }

  lemma {:induction false} WithoutAt(keys: seq<Text>, k: Text, i: nat)
    requires Distinct(keys) && i < |keys| && keys[i] == k
    ensures Without(keys, k) == keys[..i] + keys[i + 1..]
  {
    var n := |keys| - 1;
    var init := keys[..n];
    if i < n {
      WithoutAt(init, k, i);
      assert keys[n] != k && init[..i] == keys[..i] && keys[i + 1..] == init[i + 1..] + [keys[n]];
    } else {
      WithoutAbsent(init, k);
      assert keys[..i] == init && keys[i + 1..] == [];
    }
  }

  /** Removing a key closes the gap and keeps the order of the others. */
  lemma WithoutMeans(keys: seq<Text>, k: Text)
    requires Distinct(keys)
    ensures k !in keys ==> Without(keys, k) == keys
    ensures forall i :: 0 <= i < |keys| && keys[i] == k ==> Without(keys, k) == keys[..i] + keys[i + 1..]
  {
    if k !in keys {
      WithoutAbsent(keys, k);
    }
    forall i | 0 <= i < |keys| && keys[i] == k ensures Without(keys, k) == keys[..i] + keys[i + 1..] {
      WithoutAt(keys, k, i);
    }
  }
}
