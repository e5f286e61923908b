/** What the dictionary encoder relies on from `BTreeMap<String, _>`: its
    `iter()` visits every entry exactly once, in ascending key order. The
    tree itself (nodes, balancing, `insert`) is not modelled; a map is a
    Dafny `map`, and its iteration is the unique ascending listing of it. */
module SortedMap {
  import opened Bytes
  import opened KeyOrder
  import opened Bencode

  /** The map a sequence of entries denotes; an earlier entry wins over a later
      one with the same key (which an ascending sequence never has). */
  function AsMap(es: seq<Entry>): (m: map<seq<Byte>, Value>)
    ensures forall i :: 0 <= i < |es| ==> es[i].key in m
    ensures forall k :: k in m ==> exists i :: 0 <= i < |es| && es[i].key == k
  {
    if es == [] then map[] else AsMap(es[1..])[es[0].key := es[0].value]
  }

  /** In an ascending sequence the first key is absent from the rest, so the
      rest denotes the map without it. */
  lemma AsMapTail(es: seq<Entry>)
    requires es != [] && Ascending(es)
    ensures es[0].key !in AsMap(es[1..])
    ensures AsMap(es) == AsMap(es[1..])[es[0].key := es[0].value]
    ensures AsMap(es[1..]) == AsMap(es) - {es[0].key}
  {
    var tail := AsMap(es[1..]);
    var k := es[0].key;
    UpdateRemove(tail, k, es[0].value);
  }

  lemma UpdateRemove(m: map<seq<Byte>, Value>, k: seq<Byte>, v: Value)
    requires k !in m
    ensures m[k := v] - {k} == m
  {
    assert (m[k := v] - {k}).Keys == m.Keys;
  }

  /** An ascending sequence maps each of its keys to that entry's value. */
  lemma {:induction false} AsMapValues(es: seq<Entry>)
    requires Ascending(es)
    ensures forall i :: 0 <= i < |es| ==> AsMap(es)[es[i].key] == es[i].value
    decreases |es|
  {
    if es != [] {
      AsMapTail(es);
      AsMapValues(es[1..]);
      forall i | 0 < i < |es|
        ensures AsMap(es)[es[i].key] == es[i].value
      {
        assert es[i].key == es[1..][i - 1].key;
        assert es[i].key in AsMap(es[1..]);
      }
    }
  }

  /** The least key of a non-empty set of keys. */
  ghost function MinKey(keys: set<seq<Byte>>): (k: seq<Byte>)
    requires keys != {}
    ensures k in keys
    ensures forall k' :: k' in keys && k' != k ==> Less(k, k')
    decreases keys
  {
    var x :| x in keys;
    if keys == {x} then x
    else
      var m := MinKey(keys - {x});
      if Less(x, m) then
        forall k' | k' in keys - {x} && k' != m ensures Less(x, k') {
          LessTransitive(x, m, k');
        }
        x
      else
        LessTotal(x, m);
        m
  }

  /** `iter()` on a `BTreeMap`: the entries of `m` with keys strictly ascending. */
  ghost function Entries(m: map<seq<Byte>, Value>): (es: seq<Entry>)
    ensures Ascending(es)
    ensures AsMap(es) == m
    decreases |m|
  {
    if |m| == 0 then
      assert m == map[];
      []
    else
      var k := MinKey(m.Keys);
      var rest := Entries(m - {k});
      forall j | 0 <= j < |rest| ensures Less(k, rest[j].key) {
        assert rest[j].key in m - {k};
      }
      ConsAscending(Entry(k, m[k]), rest);
      RemoveUpdate(m, k);
      [Entry(k, m[k])] + rest
  }

  lemma ConsAscending(e: Entry, rest: seq<Entry>)
    requires Ascending(rest)
    requires forall j :: 0 <= j < |rest| ==> Less(e.key, rest[j].key)
    ensures Ascending([e] + rest)
    ensures AsMap([e] + rest) == AsMap(rest)[e.key := e.value]
  {
    assert ([e] + rest)[1..] == rest;
  }

  lemma RemoveUpdate(m: map<seq<Byte>, Value>, k: seq<Byte>)
    requires k in m
    ensures (m - {k})[k := m[k]] == m
  {
    assert (m - {k})[k := m[k]].Keys == m.Keys;
  }

  /** Iteration order is fully determined: any ascending sequence of entries
      that denotes `m` is the one `Entries` gives. */
  lemma {:induction false} EntriesUnique(es: seq<Entry>, m: map<seq<Byte>, Value>)
    requires Ascending(es) && AsMap(es) == m
    ensures es == Entries(m)
    decreases |es|
  {
    AscendingUnique(es, Entries(m));
  }

  lemma {:induction false} AscendingUnique(a: seq<Entry>, b: seq<Entry>)
    requires Ascending(a) && Ascending(b) && AsMap(a) == AsMap(b)
    ensures a == b
    decreases |a|
  {
    if a != [] && b != [] {
      var ka, kb := a[0].key, b[0].key;
      FirstKeyLeast(a);
      FirstKeyLeast(b);
      if ka != kb {
        LessAsymmetric(ka, kb);
      }
      assert ka == kb;
      AsMapTail(a);
      AsMapTail(b);
      assert a[0] == b[0];
      AscendingTail(a);
      AscendingTail(b);
      AscendingUnique(a[1..], b[1..]);
      assert a == [a[0]] + a[1..] && b == [b[0]] + b[1..];
    }
  }

  lemma AscendingTail(es: seq<Entry>)
    requires es != [] && Ascending(es)
    ensures Ascending(es[1..])
  {
    var t := es[1..];
    forall i, j | 0 <= i < j < |t| ensures Less(t[i].key, t[j].key) {
      assert t[i] == es[i + 1] && t[j] == es[j + 1];
    }
  }

  /** The first key of an ascending sequence is below every other key of its map. */
  lemma FirstKeyLeast(es: seq<Entry>)
    requires es != [] && Ascending(es)
    ensures forall k :: k in AsMap(es) && k != es[0].key ==> Less(es[0].key, k)
  {
  }

  /** A `BTreeMap` whose values are well formed gives a well-formed dictionary. */
  lemma EntriesWellFormed(m: map<seq<Byte>, Value>)
    requires forall k :: k in m ==> WellFormed(m[k])
    ensures WellFormed(BDict(Entries(m)))
  {
    var es := Entries(m);
    AsMapValues(es);
  }

  /** The dictionary encoder on a `BTreeMap`: 'd', then for every entry of the
      map, in strictly ascending key order, the key as a byte string and the
      value's encoding, then 'e'. */
  lemma EncodeMap(m: map<seq<Byte>, Value>)
    ensures var es := Entries(m);
      Ascending(es) && AsMap(es) == m &&
      Encode(BDict(es)) == [TAG_DICT] + ConcatEntries(es) + [TAG_END]
  {
    EncodeDictShape(Entries(m));
  }
}
