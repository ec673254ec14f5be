/** The dictionary a loop `for ...: d[key] = value` builds: later assignments
    to a key overwrite earlier ones. Several parsers of the server fill a
    dict this way; each describes its items as a list of optional pairs, None
    standing for an item the loop skips. */
module LastWins {
  import opened Basics

  /** The dict after assigning every present pair in order, from an empty dict. */
  function ToMap<K, V>(entries: seq<Option<(K, V)>>): map<K, V>
    decreases |entries|
  {
    if entries == [] then map[]
    else
      var m := ToMap(entries[..|entries| - 1]);
      match entries[|entries| - 1]
      case None => m
      case Some(kv) => m[kv.0 := kv.1]
  }

  /** One more entry: the dict with its pair assigned, if it has one. */
  lemma ToMapPush<K, V>(es: seq<Option<(K, V)>>, e: Option<(K, V)>)
    ensures ToMap(es + [e]) == if e.Some? then ToMap(es)[e.value.0 := e.value.1] else ToMap(es)
  {
    assert (es + [e])[..|es|] == es;
  }

  /** Entry `e` assigns key `k`. */
  predicate HasKey<K(==), V>(e: Option<(K, V)>, k: K)
  {
    e.Some? && e.value.0 == k
  }

  /** Position `i` is the last one that assigns key `k`. */
  predicate LastWith<K(==), V>(entries: seq<Option<(K, V)>>, k: K, i: int)
  {
    0 <= i < |entries| && HasKey(entries[i], k)
    && forall j :: i < j < |entries| ==> !HasKey(entries[j], k)
  }

  /** The dict holds exactly the keys some entry assigns, and each with the
      value of the last entry that assigns it. */
  lemma {:induction false} ToMapSpec<K, V>(entries: seq<Option<(K, V)>>)
    ensures forall k :: k in ToMap(entries) <==> exists i :: 0 <= i < |entries| && HasKey(entries[i], k)
    ensures forall k, i :: LastWith(entries, k, i) ==> k in ToMap(entries) && ToMap(entries)[k] == entries[i].value.1
    decreases |entries|
  {
    if entries != [] {
      var n := |entries| - 1;
      var init := entries[..n];
      ToMapSpec(init);
      forall k
        ensures k in ToMap(entries) <==> exists i :: 0 <= i < |entries| && HasKey(entries[i], k)
      {
        if k in ToMap(entries) && !HasKey(entries[n], k) {
          assert k in ToMap(init);
          var i :| 0 <= i < |init| && HasKey(init[i], k);
          assert HasKey(entries[i], k);
        }
        if exists i :: 0 <= i < |entries| && HasKey(entries[i], k) {
          var i :| 0 <= i < |entries| && HasKey(entries[i], k);
          if i < n {
            assert HasKey(init[i], k);
          }
        }
      }
      forall k, i | LastWith(entries, k, i)
        ensures k in ToMap(entries) && ToMap(entries)[k] == entries[i].value.1
      {
        if i < n {
          assert LastWith(init, k, i);
        }
      }
    }
  }

  /** The key of the last entry assigning it holds that entry's value. */
  lemma ToMapLast<K, V>(entries: seq<Option<(K, V)>>, k: K, i: int)
    requires LastWith(entries, k, i)
    ensures k in ToMap(entries) && ToMap(entries)[k] == entries[i].value.1
  {
    ToMapSpec(entries);
  }

  /** The last entry decides, whatever came before it. */
  lemma ToMapLastEntry<K, V>(entries: seq<Option<(K, V)>>, k: K, v: V)
    ensures ToMap(entries + [Some((k, v))])[k] == v
    ensures ToMap(entries + [None]) == ToMap(entries)
  {
    assert (entries + [Some((k, v))])[..|entries|] == entries;
    assert (entries + [None])[..|entries|] == entries;
  }
}
