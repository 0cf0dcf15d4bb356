/** A JavaScript plain object with string keys, as the layout code uses it:
    a finite map whose keys also remember the order in which they were first
    assigned (`Object.keys` and `Object.values` enumerate in that order;
    assigning an existing key keeps its place, `delete` drops it). */
module OrderedMaps {
  import opened Basics

  ghost predicate NoDup(s: seq<string>) {
    forall i, j :: 0 <= i < j < |s| ==> s[i] != s[j]
  }

  /** The raw pair: the key order and the key-to-value map. */
  datatype Assoc<V> = Assoc(keys: seq<string>, vals: map<string, V>)

  /** The key sequence lists every key of the map exactly once. */
  ghost predicate Coherent<V>(a: Assoc<V>) {
    && NoDup(a.keys)
    && (forall k :: k in a.keys ==> k in a.vals)
    && (forall k :: k in a.vals ==> k in a.keys)
  }

  type OMap<V> = a: Assoc<V> | Coherent(a) witness Assoc([], map[])

  /** `{}` */
  function Empty<V>(): OMap<V> {
    Assoc([], map[])
  }

  /** `Object.hasOwn(m, k)` */
  predicate Has<V>(m: OMap<V>, k: string) {
    k in m.vals
  }

  /** `m[k] = v` on a copy: an existing key keeps its position, a new key is
      enumerated last. */
  function Put<V>(m: OMap<V>, k: string, v: V): OMap<V> {
    if k in m.vals then Assoc(m.keys, m.vals[k := v])
    else Assoc(m.keys + [k], m.vals[k := v])
  }

  /** The keys of `s` that are not in `d`, in their order. */
  function DropKeys(s: seq<string>, d: set<string>): (r: seq<string>)
    ensures forall x :: x in r <==> x in s && x !in d
    ensures NoDup(s) ==> NoDup(r)
    ensures |r| <= |s|
  {
    if |s| == 0 then []
    else
      var rest := DropKeys(s[1..], d);
      assert forall x :: x in s <==> x == s[0] || x in s[1..];
      if s[0] in d then rest
      else
        var r := [s[0]] + rest;
        assert NoDup(s) ==> s[0] !in rest;
        assert NoDup(s) ==> NoDup(s[1..]) by {
          if NoDup(s) {
            forall i, j | 0 <= i < j < |s[1..]| ensures s[1..][i] != s[1..][j] {
              assert s[1..][i] == s[i + 1] && s[1..][j] == s[j + 1];
            }
          }
        }
        r
  }

  /** `delete m[k]` on a copy. */
  function Remove<V>(m: OMap<V>, k: string): OMap<V> {
    Assoc(DropKeys(m.keys, {k}), m.vals - {k})
  }

  /** Every key of `d` deleted from `m`. */
  function RemoveAll<V>(m: OMap<V>, d: set<string>): OMap<V> {
    Assoc(DropKeys(m.keys, d), m.vals - d)
  }

  /** The values stored under `ks`, in that order. */
  function ValuesAt<V>(ks: seq<string>, vals: map<string, V>): (r: seq<V>)
    requires forall k :: k in ks ==> k in vals
    ensures |r| == |ks|
    ensures forall i :: 0 <= i < |ks| ==> r[i] == vals[ks[i]]
  {
    if |ks| == 0 then [] else [vals[ks[0]]] + ValuesAt(ks[1..], vals)
  }

  /** `Object.values(m)`: the values in key order. */
  function Values<V>(m: OMap<V>): (r: seq<V>)
    ensures |r| == |m.keys|
    ensures forall i :: 0 <= i < |m.keys| ==> r[i] == m.vals[m.keys[i]]
  {
    ValuesAt(m.keys, m.vals)
  }

  lemma NoDupTail(s: seq<string>)
    requires NoDup(s) && |s| > 0
    ensures NoDup(s[1..]) && s[0] !in s[1..]
  {
    forall i, j | 0 <= i < j < |s[1..]| ensures s[1..][i] != s[1..][j] {
      assert s[1..][i] == s[i + 1] && s[1..][j] == s[j + 1];
    }
  }

  /** A prefix of a duplicate-free key list is duplicate free and does not
      hold the key that follows it. */
  lemma NoDupPrefix(s: seq<string>, n: nat)
    requires NoDup(s) && n < |s|
    ensures NoDup(s[..n]) && s[n] !in s[..n]
  {
    forall i, j | 0 <= i < j < n ensures s[..n][i] != s[..n][j] {
      assert s[..n][i] == s[i] && s[..n][j] == s[j];
    }
    forall i | 0 <= i < n ensures s[..n][i] != s[n] {
      assert s[..n][i] == s[i];
    }
  }

  /** After assigning `k`, the object holds `k` with the new value. */
  lemma PutSame<V>(m: OMap<V>, k: string, v: V)
    ensures k in Put(m, k, v).vals && Put(m, k, v).vals[k] == v
  {
  }

  /** Assigning `k` leaves every other key and its value as they were. */
  lemma PutOther<V>(m: OMap<V>, k: string, v: V, j: string)
    requires j in m.vals && j != k
    ensures j in Put(m, k, v).vals && Put(m, k, v).vals[j] == m.vals[j]
  {
  }

  /** Assigning a key the object does not hold appends it. */
  lemma PutFresh<V>(m: OMap<V>, k: string, v: V)
    requires k !in m.keys
    ensures Put(m, k, v).keys == m.keys + [k] && Put(m, k, v).vals == m.vals[k := v]
  {
  }

  /** Assigning a key replaces its value in place, or appends a new value. */
  lemma ValuesPut<V>(m: OMap<V>, k: string, v: V)
    ensures Has(m, k) ==> Values(Put(m, k, v)) == Values(m)[IndexOf(m.keys, k) := v]
    ensures !Has(m, k) ==> Values(Put(m, k, v)) == Values(m) + [v]
  {
    if Has(m, k) {
      var i := IndexOf(m.keys, k);
      var a, b := Values(Put(m, k, v)), Values(m)[i := v];
      forall j | 0 <= j < |a| ensures a[j] == b[j] {
        if j != i {
          assert m.keys[j] != k;
        }
      }
    } else {
      var a, b := Values(Put(m, k, v)), Values(m) + [v];
      forall j | 0 <= j < |a| ensures a[j] == b[j] {
        if j < |m.keys| {
          assert m.keys[j] != k;
        }
      }
    }
  }

  /** Deleting a key: its value leaves the sequence of values. */
  lemma ValuesRemove<V>(m: OMap<V>, k: string)
    ensures Values(Remove(m, k)) == ValuesAt(DropKeys(m.keys, {k}), m.vals)
  {
  }

  /** Dropping one key more is the same as dropping the larger set. */
  lemma {:induction false} DropKeysAdd(s: seq<string>, d: set<string>, k: string)
    ensures DropKeys(DropKeys(s, d), {k}) == DropKeys(s, d + {k})
  {
    if |s| > 0 {
      DropKeysAdd(s[1..], d, k);
      if s[0] !in d {
        var r := [s[0]] + DropKeys(s[1..], d);
        assert r[1..] == DropKeys(s[1..], d);
      }
    }
  }

  lemma RemoveAfterRemoveAll<V>(m: OMap<V>, d: set<string>, k: string)
    ensures Remove(RemoveAll(m, d), k) == RemoveAll(m, d + {k})
  {
    DropKeysAdd(m.keys, d, k);
    assert (m.vals - d) - {k} == m.vals - (d + {k});
  }

  lemma RemoveAllNothing<V>(m: OMap<V>)
    ensures RemoveAll(m, {}) == m
  {
    DropKeysDisjoint(m.keys, {});
  }

  /** Dropping keys that do not occur changes nothing. */
  lemma {:induction false} DropKeysDisjoint(s: seq<string>, d: set<string>)
    requires forall x :: x in s ==> x !in d
    ensures DropKeys(s, d) == s
  {
    if |s| > 0 {
      assert forall x :: x in s[1..] ==> x in s;
      DropKeysDisjoint(s[1..], d);
    }
  }

  /** The distinct keys of a duplicate-free sequence number its length. */
  lemma {:induction false} DistinctCount(s: seq<string>)
    requires NoDup(s)
    ensures |(set x | x in s)| == |s|
  {
    if |s| > 0 {
      NoDupTail(s);
      DistinctCount(s[1..]);
      assert (set x | x in s) == {s[0]} + (set x | x in s[1..]);
    }
  }

  lemma {:induction false} SubsetSize(a: set<string>, b: set<string>)
    requires a <= b
    ensures |a| <= |b|
    decreases a
  {
    if a != {} {
      var y :| y in a;
      SubsetSize(a - {y}, b - {y});
    }
  }

  lemma SubsetSameSize(a: set<string>, b: set<string>)
    requires a <= b && |a| == |b|
    ensures a == b
  {
    if a != b {
      var x :| x in b && x !in a;
      SubsetSize(a, b - {x});
    }
  }

  /** Two objects list the same keys (as a set) exactly when their key lists
      are equally long and one's keys all occur in the other: the check
      `a.length === b.length && a.every((k) => b.includes(k))`. */
  lemma SameKeys<V, W>(m: OMap<V>, n: OMap<W>)
    ensures (|m.keys| == |n.keys| && forall k :: k in m.keys ==> k in n.keys) <==> m.vals.Keys == n.vals.Keys
  {
    DistinctCount(m.keys);
    DistinctCount(n.keys);
    assert m.vals.Keys == (set x | x in m.keys);
    assert n.vals.Keys == (set x | x in n.keys);
    if |m.keys| == |n.keys| && forall k :: k in m.keys ==> k in n.keys {
      SubsetSameSize(m.vals.Keys, n.vals.Keys);
    }
  }
}
