/** The sequential key/value map: a list of key/value pairs with distinct keys,
    searched front to back.  Callbacks that the source passes as
    `std::function<void()>` are recorded in the `fired` result of each
    operation, in the order they run. */
module SequentialMap {
  import opened Wrappers

  /** The callbacks an operation can run. */
  datatype Callback = OnSuccess | OnInsert | OnUpdate | Then

  /** No key occurs twice in the list. */
  ghost predicate UniqueKeys<K, V>(s: seq<(K, V)>)
  {
    forall i, j :: 0 <= i < j < |s| ==> s[i].0 != s[j].0
  }

  /** The mapping that a list of pairs with distinct keys stands for. */
  ghost function MapOf<K, V>(s: seq<(K, V)>): (m: map<K, V>)
    requires UniqueKeys(s)
    ensures forall i :: 0 <= i < |s| ==> s[i].0 in m && m[s[i].0] == s[i].1
    ensures forall k :: k in m ==> exists i :: 0 <= i < |s| && s[i].0 == k
  {
    map i | 0 <= i < |s| :: s[i].0 := s[i].1
  }

  /** The keys of a list of pairs, in list order. */
  function KeysOf<K, V>(s: seq<(K, V)>): (ks: seq<K>)
    ensures |ks| == |s|
    ensures forall i :: 0 <= i < |s| ==> ks[i] == s[i].0
  {
    if s == [] then [] else [s[0].0] + KeysOf(s[1..])
  }

  /** Apply `f` to an accumulator and every pair in list order: what a
      read-only traversal computes. */
  function FoldPairs<K, V, A>(s: seq<(K, V)>, f: (A, K, V) -> A, acc: A): A
  {
    if s == [] then acc else FoldPairs(s[1..], f, f(acc, s[0].0, s[0].1))
  }

  /** Folding in one more pair. */
  lemma {:induction false} FoldPairsSnoc<K, V, A>(s: seq<(K, V)>, p: (K, V), f: (A, K, V) -> A, acc: A)
    ensures FoldPairs(s + [p], f, acc) == f(FoldPairs(s, f, acc), p.0, p.1)
  {
    if s != [] {
      assert (s + [p])[1..] == s[1..] + [p];
      FoldPairsSnoc(s[1..], p, f, f(acc, s[0].0, s[0].1));
    } else {
      assert (s + [p])[1..] == [];
    }
  }

  /** The values of a list of pairs, in list order. */
  function ValuesOf<K, V>(s: seq<(K, V)>): (vs: seq<V>)
    ensures |vs| == |s|
    ensures forall i :: 0 <= i < |s| ==> vs[i] == s[i].1
  {
    if s == [] then [] else [s[0].1] + ValuesOf(s[1..])
  }

  /** The concatenation of `g` of every value, in list order. */
  function ConcatValues<K, V, T>(s: seq<(K, V)>, g: V -> seq<T>): seq<T>
  {
    if s == [] then [] else g(s[0].1) + ConcatValues(s[1..], g)
  }

  /** A traversal that appends `g` of each value to the accumulator yields
      the accumulator followed by `g` of every value, each once, in order. */
  lemma {:induction false} FoldAppends<K, V, T>(s: seq<(K, V)>, f: (seq<T>, K, V) -> seq<T>, g: V -> seq<T>, acc: seq<T>)
    requires forall a, k, v :: f(a, k, v) == a + g(v)
    ensures FoldPairs(s, f, acc) == acc + ConcatValues(s, g)
  {
    if s != [] {
      var head := g(s[0].1);
      FoldAppends(s[1..], f, g, acc + head);
      assert acc + head + ConcatValues(s[1..], g) == acc + (head + ConcatValues(s[1..], g));
    }
  }

  /** With distinct keys, the key list names every mapped key exactly once. */
  lemma KeysOfContents<K, V>(s: seq<(K, V)>)
    requires UniqueKeys(s)
    ensures forall k :: k in KeysOf(s) <==> k in MapOf(s)
    ensures forall i, j :: 0 <= i < j < |s| ==> KeysOf(s)[i] != KeysOf(s)[j]
  {
    var ks, m := KeysOf(s), MapOf(s);
    forall k | k in m
      ensures k in ks
    {
      var i :| 0 <= i < |s| && s[i].0 == k;
      assert ks[i] == k;
    }
    forall k | k in ks
      ensures k in m
    {
      var i :| 0 <= i < |ks| && ks[i] == k;
      assert s[i].0 == k;
    }
    forall i, j | 0 <= i < j < |s|
      ensures ks[i] != ks[j]
    {
      assert ks[i] == s[i].0 && ks[j] == s[j].0;
    }
  }

  /** A list with distinct keys stands for the map `m` when it lists every
      mapping of `m` and nothing else. */
  lemma MapOfIs<K, V>(t: seq<(K, V)>, m: map<K, V>)
    requires UniqueKeys(t)
    requires forall j :: 0 <= j < |t| ==> t[j].0 in m && m[t[j].0] == t[j].1
    requires forall k :: k in m ==> exists j :: 0 <= j < |t| && t[j].0 == k
    ensures MapOf(t) == m
  {
    var m' := MapOf(t);
    forall k | k in m'
      ensures k in m && m'[k] == m[k]
    {
      var j :| 0 <= j < |t| && t[j].0 == k;
    }
    forall k | k in m
      ensures k in m'
    {
      var j :| 0 <= j < |t| && t[j].0 == k;
    }
    assert m.Keys == m'.Keys;
  }

  /** Appending a pair whose key is new keeps keys distinct and adds exactly
      that mapping. */
  lemma AppendNew<K, V>(s: seq<(K, V)>, key: K, val: V)
    requires UniqueKeys(s)
    requires forall i :: 0 <= i < |s| ==> s[i].0 != key
    ensures UniqueKeys(s + [(key, val)])
    ensures MapOf(s + [(key, val)]) == MapOf(s)[key := val]
  {
    var t := s + [(key, val)];
    var m := MapOf(s)[key := val];
    forall a, b | 0 <= a < b < |t|
      ensures t[a].0 != t[b].0
    {
      assert t[a] == s[a];
      if b < |s| {
        assert t[b] == s[b];
      }
    }
    forall j | 0 <= j < |t|
      ensures t[j].0 in m && m[t[j].0] == t[j].1
    {
      if j < |s| {
        assert t[j] == s[j];
      }
    }
    forall k | k in m
      ensures exists j :: 0 <= j < |t| && t[j].0 == k
    {
      if k == key {
        assert t[|s|].0 == k;
      } else {
        var j :| 0 <= j < |s| && s[j].0 == k;
        assert t[j] == s[j];
      }
    }
    MapOfIs(t, m);
  }

  /** Replacing the value at position `i` keeps keys distinct and remaps
      exactly that key. */
  lemma ReplaceAt<K, V>(s: seq<(K, V)>, i: nat, val: V)
    requires UniqueKeys(s) && i < |s|
    ensures UniqueKeys(s[i := (s[i].0, val)])
    ensures MapOf(s[i := (s[i].0, val)]) == MapOf(s)[s[i].0 := val]
  {
    var t := s[i := (s[i].0, val)];
    var m := MapOf(s)[s[i].0 := val];
    forall a, b | 0 <= a < b < |t|
      ensures t[a].0 != t[b].0
    {
      assert t[a].0 == s[a].0 && t[b].0 == s[b].0;
    }
    forall j | 0 <= j < |t| && j != i
      ensures t[j].0 in m && m[t[j].0] == t[j].1
    {
      assert t[j] == s[j];
      assert s[j].0 != s[i].0;
    }
    assert t[i].0 in m && m[t[i].0] == t[i].1;
    forall k | k in m
      ensures exists j :: 0 <= j < |t| && t[j].0 == k
    {
      var j :| 0 <= j < |s| && s[j].0 == k;
      assert t[j].0 == k;
    }
    MapOfIs(t, m);
  }

  /** Removing position `i` keeps keys distinct. */
  lemma RemoveAtUnique<K, V>(s: seq<(K, V)>, i: nat)
    requires UniqueKeys(s) && i < |s|
    ensures UniqueKeys(s[..i] + s[i + 1..])
  {
    var t := s[..i] + s[i + 1..];
    forall a, b | 0 <= a < b < |t|
      ensures t[a].0 != t[b].0
    {
      var a' := if a < i then a else a + 1;
      var b' := if b < i then b else b + 1;
      assert t[a] == s[a'] && t[b] == s[b'];
    }
  }

  /** Removing position `i` unmaps exactly the key stored there. */
  lemma RemoveAt<K, V>(s: seq<(K, V)>, i: nat)
    requires UniqueKeys(s) && i < |s|
    ensures UniqueKeys(s[..i] + s[i + 1..])
    ensures MapOf(s[..i] + s[i + 1..]) == MapOf(s) - {s[i].0}
  {
    RemoveAtUnique(s, i);
    var t := s[..i] + s[i + 1..];
    var m := MapOf(s) - {s[i].0};
    forall j | 0 <= j < i
      ensures t[j].0 in m && m[t[j].0] == t[j].1
    {
      assert t[j] == s[j];
    }
    forall j | i <= j < |t|
      ensures t[j].0 in m && m[t[j].0] == t[j].1
    {
      assert t[j] == s[j + 1];
    }
    forall k | k in m
      ensures exists j :: 0 <= j < |t| && t[j].0 == k
    {
      var j :| 0 <= j < |s| && s[j].0 == k;
      if j < i {
        assert t[j] == s[j];
      } else {
        assert t[j - 1] == s[j];
      }
    }
    MapOfIs(t, m);
  }

  /** A map from K to V kept as a list of pairs with distinct keys. */
  class SeqMap<K(==), V> {
    /** The key/value pairs, in insertion order. */
    var entries: seq<(K, V)>

    ghost predicate Valid()
      reads this
    {
      UniqueKeys(entries)
    }

    /** The mapping this map stands for. */
    ghost function Contents(): map<K, V>
      reads this
      requires Valid()
    {
      MapOf(entries)
    }

    /** A new map is empty. */
    constructor ()
      ensures Valid() && entries == [] && Contents() == map[]
    {
      entries := [];
    }

    /** The position of `key`'s pair, or -1 when `key` is not mapped. */
    method Find(key: K) returns (i: int)
      requires Valid()
      ensures -1 <= i < |entries|
      ensures i == -1 <==> key !in Contents()
      ensures i >= 0 ==> entries[i].0 == key
    {
      i := 0;
      while i < |entries|
        invariant 0 <= i <= |entries|
        invariant forall j :: 0 <= j < i ==> entries[j].0 != key
      {
        if entries[i].0 == key {
          return;
        }
        i := i + 1;
      }
      i := -1;
    }

    /** Remove every mapping. */
    method Clear()
      requires Valid()
      modifies this
      ensures Valid() && entries == [] && Contents() == map[]
    {
      entries := [];
    }

    /** Map `key` to `val` only if `key` is not mapped yet; `on_success` runs
        exactly when the pair is inserted.  An existing value is never
        overwritten. */
    method Insert(key: K, val: V) returns (inserted: bool, fired: seq<Callback>)
      requires Valid()
      modifies this
      ensures Valid()
      ensures inserted <==> key !in old(Contents())
      ensures Contents() == if inserted then old(Contents())[key := val] else old(Contents())
      ensures entries == if inserted then old(entries) + [(key, val)] else old(entries)
      ensures fired == if inserted then [OnSuccess] else []
    {
      var i := Find(key);
      if i >= 0 {
        return false, [];
      }
      AppendNew(entries, key, val);
      entries := entries + [(key, val)];
      return true, [OnSuccess];
    }

    /** Map `key` to `val`, inserting when `key` is absent (running `on_ins`)
        and replacing its value otherwise (running `on_upd`).  Exactly one of
        the two callbacks runs; the result is true for an insert. */
    method Upsert(key: K, val: V) returns (inserted: bool, fired: seq<Callback>)
      requires Valid()
      modifies this
      ensures Valid()
      ensures inserted <==> key !in old(Contents())
      ensures Contents() == old(Contents())[key := val]
      ensures fired == if inserted then [OnInsert] else [OnUpdate]
    {
      var i := Find(key);
      if i < 0 {
        AppendNew(entries, key, val);
        entries := entries + [(key, val)];
        return true, [OnInsert];
      }
      ReplaceAt(entries, i, val);
      entries := entries[i := (key, val)];
      return false, [OnUpdate];
    }

    /** Replace the value of `key` by `f` of it.  When `key` is absent the map
        is unchanged and false is returned. */
    method DoWith(key: K, f: V -> V) returns (found: bool)
      requires Valid()
      modifies this
      ensures Valid()
      ensures found <==> key in old(Contents())
      ensures Contents() == if found then old(Contents())[key := f(old(Contents())[key])] else old(Contents())
      ensures |entries| == |old(entries)|
    {
      var i := Find(key);
      if i < 0 {
        return false;
      }
      ReplaceAt(entries, i, f(entries[i].1));
      entries := entries[i := (key, f(entries[i].1))];
      return true;
    }

    /** Apply `f` to the value of `key` without changing it.  The source's
        boolean result is whether the result is Some; the callback's effect
        is what `f` returns: Some(f(value)) when `key` is mapped, None (and
        `f` not applied) otherwise. */
    method DoWithReadonly<R>(key: K, f: V -> R) returns (res: Option<R>)
      requires Valid()
      ensures res.Some? <==> key in Contents()
      ensures res.Some? ==> res.value == f(Contents()[key])
    {
      var i := Find(key);
      if i < 0 {
        return None;
      }
      return Some(f(entries[i].1));
    }

    /** Unmap `key`; `on_success` runs exactly when a pair was removed.  Every
        other key keeps its value. */
    method Remove(key: K) returns (removed: bool, fired: seq<Callback>)
      requires Valid()
      modifies this
      ensures Valid()
      ensures removed <==> key in old(Contents())
      ensures Contents() == old(Contents()) - {key}
      ensures fired == if removed then [OnSuccess] else []
    {
      var i := Find(key);
      if i < 0 {
        assert Contents() == Contents() - {key};
        return false, [];
      }
      RemoveAt(entries, i);
      entries := entries[..i] + entries[i + 1..];
      return true, [OnSuccess];
    }

    /** Apply `f` to every pair, once each, in list order, threading what it
        produces through `acc`; then the `then` callback runs once.  The map
        is not changed. */
    method DoAllReadonly<A>(f: (A, K, V) -> A, init: A) returns (acc: A, fired: seq<Callback>)
      requires Valid()
      ensures acc == FoldPairs(entries, f, init)
      ensures fired == [Then]
    {
      acc := init;
      var i := 0;
      while i < |entries|
        invariant 0 <= i <= |entries|
        invariant acc == FoldPairs(entries[..i], f, init)
      {
        assert entries[..i + 1] == entries[..i] + [entries[i]];
        FoldPairsSnoc(entries[..i], entries[i], f, init);
        acc := f(acc, entries[i].0, entries[i].1);
        i := i + 1;
      }
      assert entries[..i] == entries;
      fired := [Then];
    }
  }
}
