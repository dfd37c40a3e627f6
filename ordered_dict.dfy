/**
 * Python dictionaries as the ABI helpers use them: a map from keys to values
 * that also remembers the order in which keys were first inserted, since
 * iteration over a dict follows that order.
 */
module OrderedDict {

  /** A dict: its keys in insertion order, and what each key maps to. */
  datatype Dict<K(!new), V> = Dict(keys: seq<K>, entries: map<K, V>) {

    /** Every key is listed exactly once, and the listed keys are the map's domain. */
    ghost predicate Valid() {
      Distinct(keys) && forall k :: k in entries <==> k in keys
    }
  }

  ghost predicate Distinct<K(!new)>(s: seq<K>) {
    forall i, j :: 0 <= i < j < |s| ==> s[i] != s[j]
  }

  /** The elements of a sequence, as a set. */
  ghost function Elems<K(!new)>(s: seq<K>): (r: set<K>) {
    set x | x in s
  }

  /**
   * The elements of the first `i` entries of `s`, grown by one entry; for
   * distinct `s`, entry `i` is not among the ones before it.
   */
  lemma ElemsPrefix<K(!new)>(s: seq<K>, i: nat)
    requires i <= |s|
    ensures Elems(s[..0]) == {}
    ensures Elems(s[..|s|]) == Elems(s)
    ensures i < |s| ==> Elems(s[..i + 1]) == Elems(s[..i]) + {s[i]}
    ensures i < |s| && Distinct(s) ==> s[i] !in Elems(s[..i])
  {
    assert s[..|s|] == s;
    if i < |s| {
      assert s[..i + 1] == s[..i] + [s[i]];
    }
  }

  /** The elements of `s` that are not in `ks`, in their original order. */
  function Drop<K(!new)>(s: seq<K>, ks: set<K>): (r: seq<K>)
    ensures forall x :: x in r <==> x in s && x !in ks
    ensures |r| <= |s|
  {
    if s == [] then []
    else
      var last := s[|s| - 1];
      assert s == s[..|s| - 1] + [last];
      Drop(s[..|s| - 1], ks) + (if last in ks then [] else [last])
  }

  lemma {:induction false} DropDistinct<K(!new)>(s: seq<K>, ks: set<K>)
    requires Distinct(s)
    ensures Distinct(Drop(s, ks))
  {
    if s != [] {
      var prefix := s[..|s| - 1];
      DropDistinct(prefix, ks);
      assert forall x :: x in Drop(prefix, ks) ==> x in prefix;
      assert s[|s| - 1] !in prefix;
    }
  }

  lemma {:induction false} DropAppend<K(!new)>(a: seq<K>, b: seq<K>, ks: set<K>)
    ensures Drop(a + b, ks) == Drop(a, ks) + Drop(b, ks)
    decreases |b|
  {
    if b == [] {
      assert a + b == a;
    } else {
      var prefix := b[..|b| - 1];
      assert (a + b)[..|a + b| - 1] == a + prefix;
      DropAppend(a, prefix, ks);
    }
  }

  lemma {:induction false} DropDrop<K(!new)>(s: seq<K>, ks: set<K>, more: set<K>)
    ensures Drop(Drop(s, ks), more) == Drop(s, ks + more)
  {
    if s != [] {
      var prefix := s[..|s| - 1];
      var last := s[|s| - 1];
      DropDrop(prefix, ks, more);
      DropAppend(Drop(prefix, ks), if last in ks then [] else [last], more);
    }
  }

  /** A sequence none of whose elements survive the drop drops to nothing. */
  lemma DropAll<K(!new)>(s: seq<K>, ks: set<K>)
    requires forall x :: x in s ==> x in ks
    ensures Drop(s, ks) == []
  {
  }

  /** `d[k] = v`: a key already present keeps its place, a new key goes last. */
  function Put<K(!new), V>(d: Dict<K, V>, k: K, v: V): (r: Dict<K, V>)
    requires d.Valid()
    ensures r.Valid()
  {
    if k in d.entries then Dict(d.keys, d.entries[k := v])
    else Dict(d.keys + [k], d.entries[k := v])
  }

  /** `del d[k]` for every key in `ks` that `d` holds; the other keys keep their order. */
  function Without<K(!new), V>(d: Dict<K, V>, ks: set<K>): (r: Dict<K, V>)
    requires d.Valid()
    ensures r.Valid()
  {
    DropDistinct(d.keys, ks);
    Dict(Drop(d.keys, ks), d.entries - ks)
  }

  /** `d[k] = m[k]` for every `k` of `ks`, in the order of `ks`. */
  function PutAll<K(!new), V>(d: Dict<K, V>, ks: seq<K>, m: map<K, V>): (r: Dict<K, V>)
    requires d.Valid()
    requires forall k :: k in ks ==> k in m
    ensures r.Valid()
  {
    if ks == [] then d
    else
      var last := ks[|ks| - 1];
      Put(PutAll(d, ks[..|ks| - 1], m), last, m[last])
  }

  /** Copying every item of `src` into `d` in `src`'s iteration order. */
  function Update<K(!new), V>(d: Dict<K, V>, src: Dict<K, V>): (r: Dict<K, V>)
    requires d.Valid() && src.Valid()
    ensures r.Valid()
  {
    PutAll(d, src.keys, src.entries)
  }

  /**
   * Putting the keys `ks` one by one: every one of them maps to its value in
   * `m` (overwriting) and every other key keeps its value.
   */
  lemma {:induction false} PutAllEntries<K(!new), V>(d: Dict<K, V>, ks: seq<K>, m: map<K, V>)
    requires d.Valid()
    requires forall k :: k in ks ==> k in m
    ensures forall k :: k in PutAll(d, ks, m).entries <==> k in d.entries || k in ks
    ensures forall k :: k in ks ==> PutAll(d, ks, m).entries[k] == m[k]
    ensures forall k :: k in d.entries && k !in ks ==> PutAll(d, ks, m).entries[k] == d.entries[k]
  {
    if ks != [] {
      var prefix := ks[..|ks| - 1];
      var last := ks[|ks| - 1];
      assert ks == prefix + [last];
      PutAllEntries(d, prefix, m);
    }
  }

  /**
   * Putting the distinct keys `ks` one by one: the old keys keep their order
   * and the new keys follow in the order of `ks`.
   */
  lemma {:induction false} PutAllKeys<K(!new), V>(d: Dict<K, V>, ks: seq<K>, m: map<K, V>)
    requires d.Valid() && Distinct(ks)
    requires forall k :: k in ks ==> k in m
    ensures PutAll(d, ks, m).keys == d.keys + Drop(ks, d.entries.Keys)
  {
    if ks == [] {
      assert d.keys + [] == d.keys;
    } else {
      var prefix := ks[..|ks| - 1];
      var last := ks[|ks| - 1];
      DistinctSnoc(ks);
      PutAllKeys(d, prefix, m);
      PutAllHas(d, prefix, m, last);
      var tail := if last in d.entries then [] else [last];
      DropSnoc(ks, d.entries.Keys);
      PutKeys(PutAll(d, prefix, m), last, m[last]);
      ConcatAssoc(d.keys, Drop(prefix, d.entries.Keys), tail);
    }
  }

  /** `d[k] = v` appends `k` to the keys exactly when it is new. */
  lemma PutKeys<K(!new), V>(d: Dict<K, V>, k: K, v: V)
    requires d.Valid()
    ensures Put(d, k, v).keys == d.keys + (if k in d.entries then [] else [k])
  {
    if k in d.entries {
      assert d.keys + [] == d.keys;
    }
  }

  lemma ConcatAssoc<K>(a: seq<K>, b: seq<K>, c: seq<K>)
    ensures a + (b + c) == (a + b) + c
  {
  }

  /** Without its last element a distinct sequence stays distinct, and does not hold that element. */
  lemma DistinctSnoc<K(!new)>(s: seq<K>)
    requires Distinct(s) && s != []
    ensures Distinct(s[..|s| - 1]) && s[|s| - 1] !in s[..|s| - 1]
  {
  }

  /** Whether one key is present after putting the keys `ks`. */
  lemma {:induction false} PutAllHas<K(!new), V>(d: Dict<K, V>, ks: seq<K>, m: map<K, V>, k: K)
    requires d.Valid()
    requires forall k :: k in ks ==> k in m
    ensures k in PutAll(d, ks, m).entries <==> k in d.entries || k in ks
  {
    if ks != [] {
      var prefix := ks[..|ks| - 1];
      assert ks == prefix + [ks[|ks| - 1]];
      PutAllHas(d, prefix, m, k);
    }
  }

  /** Dropping from a non-empty sequence: the prefix's survivors, then the last element if it survives. */
  lemma DropSnoc<K(!new)>(s: seq<K>, ks: set<K>)
    requires s != []
    ensures Drop(s, ks) == Drop(s[..|s| - 1], ks) + (if s[|s| - 1] in ks then [] else [s[|s| - 1]])
  {
  }

  /** A map that agrees with `a + b` on every key is `a + b`. */
  lemma MapUnion<K(!new), V>(a: map<K, V>, b: map<K, V>, r: map<K, V>)
    requires forall k :: k in r <==> k in a || k in b
    requires forall k :: k in b ==> r[k] == b[k]
    requires forall k :: k in a && k !in b ==> r[k] == a[k]
    ensures r == a + b
  {
  }

  /**
   * `Update(d, src)`: every key of `src` now maps to its value in `src`
   * (overwriting on collision), every other key of `d` is unchanged, and the
   * keys new to `d` are appended in `src`'s order.
   */
  lemma UpdateSpec<K(!new), V>(d: Dict<K, V>, src: Dict<K, V>)
    requires d.Valid() && src.Valid()
    ensures Update(d, src).entries == d.entries + src.entries
    ensures forall k :: k in src.entries ==> Update(d, src).entries[k] == src.entries[k]
    ensures forall k :: k in d.entries && k !in src.entries ==> Update(d, src).entries[k] == d.entries[k]
    ensures Update(d, src).keys == d.keys + Drop(src.keys, d.entries.Keys)
  {
    PutAllEntries(d, src.keys, src.entries);
    PutAllKeys(d, src.keys, src.entries);
    MapUnion(d.entries, src.entries, Update(d, src).entries);
  }

  /** The entries `Update(d, src)` leaves: `d`'s, overridden by `src`'s. */
  lemma UpdateEntries<K(!new), V>(d: Dict<K, V>, src: Dict<K, V>)
    requires d.Valid() && src.Valid()
    ensures Update(d, src).entries == d.entries + src.entries
  {
    UpdateSpec(d, src);
  }

  /**
   * After copying `src` in, every key of `src` is present, so deleting them
   * all succeeds; and it leaves exactly what deleting them from the original
   * would: the original minus those keys, in the original order.
   */
  lemma RemoveAfterUpdate<K(!new), V>(d: Dict<K, V>, src: Dict<K, V>)
    requires d.Valid() && src.Valid()
    ensures forall k :: k in src.keys ==> k in Update(d, src).entries
    ensures Without(Update(d, src), src.entries.Keys) == Without(d, src.entries.Keys)
  {
    var ks := src.entries.Keys;
    var u := Update(d, src);
    UpdateSpec(d, src);
    var added := Drop(src.keys, d.entries.Keys);
    DropAppend(d.keys, added, ks);
    DropAll(added, ks);
    assert Drop(u.keys, ks) == Drop(d.keys, ks) + [];
    MapUnionMinus(d.entries, src.entries);
  }

  lemma MapUnionMinus<K(!new), V>(a: map<K, V>, b: map<K, V>)
    ensures (a + b) - b.Keys == a - b.Keys
  {
  }

  lemma {:induction false} DropNothing<K(!new)>(s: seq<K>)
    ensures Drop(s, {}) == s
  {
    if s != [] {
      var prefix := s[..|s| - 1];
      DropNothing(prefix);
      assert s == prefix + [s[|s| - 1]];
    }
  }

  /** Deleting no key leaves a dict as it was. */
  lemma WithoutNothing<K(!new), V>(d: Dict<K, V>)
    requires d.Valid()
    ensures Without(d, {}) == d
  {
    DropNothing(d.keys);
  }

  /**
   * `del d[k]` for each `k` of `ks` in turn. An absent key is skipped here, where
   * Python would raise; `RemoveFunctions` only deletes keys it has found present.
   */
  function DeleteEach<K(!new), V>(d: Dict<K, V>, ks: seq<K>): (r: Dict<K, V>)
    requires d.Valid()
    ensures r.Valid()
  {
    if ks == [] then d
    else Without(DeleteEach(d, ks[..|ks| - 1]), {ks[|ks| - 1]})
  }

  /** Deleting keys one at a time equals deleting them all at once. */
  lemma {:induction false} DeleteEachSpec<K(!new), V>(d: Dict<K, V>, ks: seq<K>)
    requires d.Valid()
    ensures DeleteEach(d, ks) == Without(d, Elems(ks))
  {
    ElemsPrefix(ks, |ks|);
    if ks == [] {
      WithoutNothing(d);
    } else {
      var prefix := ks[..|ks| - 1];
      var last := ks[|ks| - 1];
      ElemsPrefix(ks, |ks| - 1);
      DeleteEachSpec(d, prefix);
      WithoutOneMore(d, Elems(prefix), last);
      assert DeleteEach(d, ks) == Without(Without(d, Elems(prefix)), {last});
    }
  }

  /** Deleting one more key from a dict with some keys already deleted. */
  lemma WithoutOneMore<K(!new), V>(d: Dict<K, V>, ks: set<K>, k: K)
    requires d.Valid()
    ensures Without(Without(d, ks), {k}) == Without(d, ks + {k})
  {
    DropDrop(d.keys, ks, {k});
    MapMinusMinus(d.entries, ks, {k});
  }

  lemma MapMinusMinus<K(!new), V>(m: map<K, V>, ks: set<K>, more: set<K>)
    ensures (m - ks) - more == m - (ks + more)
  {
    var a := (m - ks) - more;
    var b := m - (ks + more);
    assert forall k :: k in a <==> k in b;
    assert forall k :: k in a ==> a[k] == b[k];
  }
}
