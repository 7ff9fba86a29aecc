/** A JavaScript plain object used as a dictionary: string keys, assignment,
    `delete`, and `for ... in` enumeration of the own keys in the order in
    which they were first assigned. */
module Dicts {

  import opened Wrappers

  datatype Dict<V> = Dict(keys: seq<string>, entries: map<string, V>)

  predicate Distinct(s: seq<string>) {
    forall i, j :: 0 <= i < j < |s| ==> s[i] != s[j]
  }

  /** The enumeration order lists every own key exactly once. */
  predicate Valid<V>(d: Dict<V>) {
    && Distinct(d.keys)
    && (forall k :: k in d.keys ==> k in d.entries)
    && (forall k :: k in d.entries ==> k in d.keys)
  }

  function Empty<V>(): (d: Dict<V>)
    ensures Valid(d) && d.keys == [] && d.entries == map[]
  {
    Dict([], map[])
  }

  function Get<V>(d: Dict<V>, k: string): Option<V> {
    if k in d.entries then Some(d.entries[k]) else None
  }

  /** `d[k] = v`: an existing key keeps its place in the enumeration order,
      a new key goes last. */
  function Put<V>(d: Dict<V>, k: string, v: V): (r: Dict<V>)
    requires Valid(d)
    ensures Valid(r)
    ensures Get(r, k) == Some(v)
    ensures forall k' :: k' != k ==> Get(r, k') == Get(d, k')
    ensures k in d.entries ==> r.keys == d.keys
    ensures k !in d.entries ==> r.keys == d.keys + [k]
  {
    if k in d.entries then Dict(d.keys, d.entries[k := v])
    else Dict(d.keys + [k], d.entries[k := v])
  }

  /** The keys of `s` other than `k`, in their order. */
  function RemoveKey(s: seq<string>, k: string): (r: seq<string>)
    ensures forall x :: x in r <==> x in s && x != k
    ensures |r| <= |s|
    ensures k !in s ==> r == s
  {
    if s == [] then []
    else if s[0] == k then RemoveKey(s[1..], k)
    else [s[0]] + RemoveKey(s[1..], k)
  }

  lemma {:induction false} RemoveKeyDistinct(s: seq<string>, k: string)
    requires Distinct(s)
    ensures Distinct(RemoveKey(s, k))
    ensures k in s ==> |RemoveKey(s, k)| == |s| - 1
  {
    if s != [] {
      assert Distinct(s[1..]) by {
        forall i, j | 0 <= i < j < |s[1..]| ensures s[1..][i] != s[1..][j] {
          assert s[1..][i] == s[i + 1] && s[1..][j] == s[j + 1];
        }
      }
      RemoveKeyDistinct(s[1..], k);
      if s[0] != k {
        var r' := RemoveKey(s[1..], k);
        assert s[0] !in s[1..] by {
          forall i | 0 <= i < |s[1..]| ensures s[1..][i] != s[0] {
            assert s[1..][i] == s[i + 1];
          }
        }
        assert s[0] !in r';
        var r := [s[0]] + r';
        forall i, j | 0 <= i < j < |r| ensures r[i] != r[j] {
          if i == 0 {
            assert r[j] == r'[j - 1];
            assert r'[j - 1] in r';
          } else {
            assert r[i] == r'[i - 1] && r[j] == r'[j - 1];
          }
        }
      } else {
        assert k !in s[1..] by {
          forall i | 0 <= i < |s[1..]| ensures s[1..][i] != s[0] {
            assert s[1..][i] == s[i + 1];
          }
        }
      }
    }
  }

  /** `delete d[k]`: the other keys keep their values and their order. */
  function Delete<V>(d: Dict<V>, k: string): (r: Dict<V>)
    requires Valid(d)
    ensures Valid(r)
    ensures Get(r, k) == None
    ensures forall k' :: k' != k ==> Get(r, k') == Get(d, k')
    ensures r.keys == RemoveKey(d.keys, k)
  {
    RemoveKeyDistinct(d.keys, k);
    Dict(RemoveKey(d.keys, k), d.entries - {k})
  }

  /** Filtering commutes with appending one key at the end. */
  lemma {:induction false} RemoveKeyAppend(s: seq<string>, x: string, k: string)
    ensures RemoveKey(s + [x], k) == RemoveKey(s, k) + (if x == k then [] else [x])
  {
    if s == [] {
      assert s + [x] == [x];
    } else {
      assert (s + [x])[0] == s[0] && (s + [x])[1..] == s[1..] + [x];
      RemoveKeyAppend(s[1..], x, k);
    }
  }

  lemma {:induction false} RemoveKeyCommutes(s: seq<string>, a: string, b: string)
    ensures RemoveKey(RemoveKey(s, a), b) == RemoveKey(RemoveKey(s, b), a)
  {
    if s != [] {
      RemoveKeyCommutes(s[1..], a, b);
    }
  }

  lemma {:induction false} DistinctCardinality(s: seq<string>)
    requires Distinct(s)
    ensures |set x | x in s| == |s|
  {
    if s != [] {
      var t := s[1..];
      assert Distinct(t) by {
        forall i, j | 0 <= i < j < |t| ensures t[i] != t[j] {
          assert t[i] == s[i + 1] && t[j] == s[j + 1];
        }
      }
      DistinctCardinality(t);
      assert s[0] !in t by {
        forall i | 0 <= i < |t| ensures t[i] != s[0] {
          assert t[i] == s[i + 1];
        }
      }
      assert (set x | x in s) == (set x | x in t) + {s[0]} by {
        assert s == [s[0]] + t;
      }
    }
  }

  /** Counting the enumerated keys counts the entries. */
  lemma KeyCountIsSize<V>(d: Dict<V>)
    requires Valid(d)
    ensures |d.keys| == |d.entries|
  {
    DistinctCardinality(d.keys);
    assert (set x | x in d.keys) == d.entries.Keys;
  }


  /** Every key enumerated so far has an entry. */
  lemma PrefixKeys<V>(d: Dict<V>, n: nat)
    requires Valid(d) && n <= |d.keys|
    ensures forall k :: k in d.keys[..n] ==> k in d.entries
  {
    forall k | k in d.keys[..n] ensures k in d.entries {
      assert k in d.keys;
    }
  }

}
