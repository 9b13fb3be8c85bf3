/** A Python `dict`: a finite map whose keys remember the order in which they were first inserted.
    Assigning to an existing key keeps its position, `del` drops the key from the order. */
module PyDict {

  datatype Dict<K(==, !new), V> = Dict(keys: seq<K>, entries: map<K, V>)

  /** The order lists every key exactly once. */
  ghost predicate Valid<K(!new), V>(d: Dict<K, V>)
  {
    && Distinct(d.keys)
    && (forall k :: k in d.entries <==> k in d.keys)
  }

  function Empty<K(==, !new), V>(): (d: Dict<K, V>)
    ensures Valid(d) && d.entries == map[]
  {
    Dict([], map[])
  }

  /** `d[k] = v` */
  function Put<K(==, !new), V>(d: Dict<K, V>, k: K, v: V): (r: Dict<K, V>)
    requires Valid(d)
    ensures Valid(r)
    ensures r.entries == d.entries[k := v]
    ensures k in d.entries ==> r.keys == d.keys
    ensures k !in d.entries ==> r.keys == d.keys + [k]
  {
    if k in d.entries then Dict(d.keys, d.entries[k := v]) else Dict(d.keys + [k], d.entries[k := v])
  }

  /** The sequence `s` with every occurrence of `k` dropped, the rest in order. */
  function Without<K(==, !new)>(s: seq<K>, k: K): (r: seq<K>)
    ensures forall x :: x in r <==> x in s && x != k
    ensures |r| <= |s|
  {
    if s == [] then [] else (if s[0] == k then [] else [s[0]]) + Without(s[1..], k)
  }

  ghost predicate Distinct<K>(s: seq<K>)
  {
    forall i, j :: 0 <= i < j < |s| ==> s[i] != s[j]
  }

  lemma {:induction false} WithoutDistinct<K(!new)>(s: seq<K>, k: K)
    requires Distinct(s)
    ensures Distinct(Without(s, k))
  {
    if s != [] {
      WithoutDistinct(s[1..], k);
      var rest := Without(s[1..], k);
      assert s[0] !in s[1..] by {
        forall j | 0 <= j < |s[1..]| ensures s[1..][j] != s[0] {
          assert s[1..][j] == s[j + 1];
        }
      }
      assert s[0] !in rest;
      if s[0] != k {
        var r := [s[0]] + rest;
        assert Without(s, k) == r;
        forall i, j | 0 <= i < j < |r| ensures r[i] != r[j] {
          assert r[j] == rest[j - 1];
          if i > 0 {
            assert r[i] == rest[i - 1];
          }
        }
      } else {
        assert Without(s, k) == rest;
      }
    }
  }

  lemma {:induction false} WithoutAbsent<K(!new)>(s: seq<K>, k: K)
    requires k !in s
    ensures Without(s, k) == s
  {
    if s != [] {
      WithoutAbsent(s[1..], k);
      assert [s[0]] + s[1..] == s;
    }
  }

  lemma {:induction false} WithoutAppended<K(!new)>(s: seq<K>, k: K)
    requires k !in s
    ensures Without(s + [k], k) == s
  {
    if s == [] {
      assert Without([k], k) == [] + Without([], k);
    } else {
      assert (s + [k])[1..] == s[1..] + [k];
      WithoutAppended(s[1..], k);
      assert [s[0]] + s[1..] == s;
    }
  }

  /** `del d[k]`; the source only deletes keys that are present. */
  function Delete<K(==, !new), V>(d: Dict<K, V>, k: K): (r: Dict<K, V>)
    requires Valid(d) && k in d.entries
    ensures Valid(r)
    ensures r.entries == d.entries - {k}
    ensures r.keys == Without(d.keys, k)
    ensures |r.keys| == |d.keys| - 1
  {
    WithoutDistinct(d.keys, k);
    var r := Dict(Without(d.keys, k), d.entries - {k});
    assert |r.keys| == |d.keys| - 1 by { WithoutLength(d.keys, k); }
    r
  }

  lemma {:induction false} WithoutLength<K(!new)>(s: seq<K>, k: K)
    requires Distinct(s)
    requires k in s
    ensures |Without(s, k)| == |s| - 1
  {
    if s[0] == k {
      assert k !in s[1..] by {
        forall j | 0 <= j < |s[1..]| ensures s[1..][j] != k {
          assert s[1..][j] == s[j + 1];
        }
      }
      WithoutAbsent(s[1..], k);
    } else {
      assert k in s[1..] by {
        var j :| 0 <= j < |s| && s[j] == k;
        assert s[1..][j - 1] == k;
      }
      WithoutLength(s[1..], k);
    }
  }

  /** Deleting a key that was just inserted restores the dict, order included. */
  lemma PutThenDelete<K(!new), V>(d: Dict<K, V>, k: K, v: V)
    requires Valid(d) && k !in d.entries
    ensures Delete(Put(d, k, v), k) == d
  {
    WithoutAppended(d.keys, k);
    assert d.entries[k := v] - {k} == d.entries;
  }

  /** `list(d.values())`: the values in key order. */
  function Values<K(==, !new), V>(d: Dict<K, V>): (vs: seq<V>)
    requires Valid(d)
    ensures |vs| == |d.keys|
    ensures forall i :: 0 <= i < |vs| ==> vs[i] == d.entries[d.keys[i]]
    ensures forall k :: k in d.entries ==> d.entries[k] in vs
  {
    var vs := seq(|d.keys|, i requires 0 <= i < |d.keys| && d.keys[i] in d.entries => d.entries[d.keys[i]]);
    assert forall k :: k in d.entries ==> d.entries[k] in vs by {
      forall k | k in d.entries ensures d.entries[k] in vs {
        var i :| 0 <= i < |d.keys| && d.keys[i] == k;
        assert vs[i] == d.entries[k];
      }
    }
    vs
  }
}
