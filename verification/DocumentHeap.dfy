/**
 The redaction as it runs: the parsed document is a tree of mutable mappings and
 slices, and the drop overwrites them in place. Each method is proved against the
 functions of `Documents`, with the objects it may touch as its frame.
 */
module DocumentHeap {
  import opened Optional
  import opened Text
  import opened Documents
  import opened DeclaredKeys

  class Mapping {
    var entries: map<Key, Any>

    constructor (entries: map<Key, Any>)
      ensures this.entries == entries
    {
      this.entries := entries;
    }
  }

  /** What the parser hands over: a scalar, or a reference to a mapping or a slice. */
  datatype Any = Plain(value: Value) | MapRef(mapping: Mapping) | ListRef(slice: array<Any>)

  const REDACTED := Plain(HIDDEN.value)

  /** A document together with the objects that hold it. */
  datatype Owned =
    | OwnedPlain(value: Value)
    | OwnedMap(mapping: Mapping, fields: map<Key, Owned>)
    | OwnedList(slice: array<Any>, items: seq<Owned>)

  ghost function Footprint(o: Owned): (objects: set<object>)
    ensures o.OwnedMap? ==> o.mapping in objects
    ensures o.OwnedMap? ==> forall key | key in o.fields :: Footprint(o.fields[key]) <= objects
    ensures o.OwnedList? ==> o.slice in objects
    ensures o.OwnedList? ==> forall i | 0 <= i < |o.items| :: Footprint(o.items[i]) <= objects
  {
    match o
    case OwnedPlain(_) => {}
    case OwnedMap(m, fields) => {m} + Union(set key | key in fields :: Footprint(fields[key]))
    case OwnedList(a, items) => {a} + Union(set i | 0 <= i < |items| :: Footprint(items[i]))
  }

  ghost function Union(sets: set<set<object>>): (objects: set<object>)
    ensures forall s | s in sets :: s <= objects
  {
    set s, x | s in sets && x in s :: x
  }

  /** No object is reached twice. */
  ghost predicate Tree(o: Owned) {
    match o
    case OwnedPlain(_) => true
    case OwnedMap(m, fields) =>
      && (forall key | key in fields :: Tree(fields[key]) && m !in Footprint(fields[key]))
      && (forall k1, k2 | k1 in fields && k2 in fields && k1 != k2 :: Footprint(fields[k1]) !! Footprint(fields[k2]))
    case OwnedList(a, items) =>
      && (forall i | 0 <= i < |items| :: Tree(items[i]) && a !in Footprint(items[i]))
      && (forall i, j | 0 <= i < j < |items| :: Footprint(items[i]) !! Footprint(items[j]))
  }

  /** The objects hold this document now. */
  ghost predicate Live(o: Owned, node: Any)
    reads Footprint(o)
    decreases o
  {
    match o
    case OwnedPlain(value) => node == Plain(value)
    case OwnedMap(m, fields) =>
      && node == MapRef(m) && m.entries.Keys == fields.Keys
      && forall key | key in fields :: Live(fields[key], m.entries[key])
    case OwnedList(a, items) =>
      && node == ListRef(a) && a.Length == |items|
      && forall i | 0 <= i < |items| :: Live(items[i], a[i])
  }

  ghost function Erase(o: Owned): Doc {
    match o
    case OwnedPlain(value) => Scalar(value)
    case OwnedMap(_, fields) => Fields(map key | key in fields :: Erase(fields[key]))
    case OwnedList(_, items) => Items(seq(|items|, i requires 0 <= i < |items| => Erase(items[i])))
  }

  /** A node whose mapping lacks the first name of the path, or that is none, loses nothing. */
  lemma DropsNothing(o: Owned, path: Path)
    requires path == [] || !o.OwnedMap? || Named(path[0].name) !in o.fields
    ensures Drop(Erase(o), path) == Erase(o) && Count(Erase(o), path) == 0
  {
  }

  /** Otherwise the drop is the drop of that one entry. */
  lemma DropsInEntry(m: Mapping, fields: map<Key, Owned>, path: Path, kid: Owned)
    requires path != [] && Named(path[0].name) in fields
    requires Erase(kid) == DropEntry(Erase(fields[Named(path[0].name)]), path)
    ensures Erase(OwnedMap(m, fields[Named(path[0].name) := kid])) == Drop(Erase(OwnedMap(m, fields)), path)
    ensures Count(Erase(OwnedMap(m, fields)), path) == CountEntry(Erase(fields[Named(path[0].name)]), path)
  {
  }

  /** Putting a smaller kid in place of one keeps the tree and never widens its footprint. */
  lemma FieldReplaced(m: Mapping, fields: map<Key, Owned>, key: Key, kid: Owned)
    requires Tree(OwnedMap(m, fields)) && key in fields
    requires Tree(kid) && Footprint(kid) <= Footprint(fields[key])
    ensures Tree(OwnedMap(m, fields[key := kid]))
    ensures Footprint(OwnedMap(m, fields[key := kid])) <= Footprint(OwnedMap(m, fields))
  {
    var fields' := fields[key := kid];
    forall k | k in fields'
      ensures Footprint(fields'[k]) <= Footprint(fields[k])
    {
    }
  }

  /** A live mapping, opened into its entries and closed over them again. */
  lemma MapOpens(o: Owned, node: Any)
    requires Tree(o) && Live(o, node)
    ensures o.OwnedMap? <==> node.MapRef?
    ensures o.OwnedMap? ==>
              && o.mapping == node.mapping && o.mapping.entries.Keys == o.fields.Keys
              && (forall key | key in o.fields :: Live(o.fields[key], o.mapping.entries[key]))
  {
  }

  lemma MapCloses(m: Mapping, fields: map<Key, Owned>)
    requires m.entries.Keys == fields.Keys
    requires forall key | key in fields :: Live(fields[key], m.entries[key])
    ensures Live(OwnedMap(m, fields), MapRef(m))
  {
  }

  /** A live slice, opened into its elements and closed over them again. */
  lemma ListOpens(o: Owned, slice: array<Any>)
    requires Tree(o) && Live(o, ListRef(slice))
    ensures o.OwnedList? && o.slice == slice && |o.items| == slice.Length
    ensures forall i | 0 <= i < |o.items| :: Tree(o.items[i]) && Live(o.items[i], slice[i])
    ensures Tree(OwnedList(slice, o.items))
  {
  }

  lemma ListCloses(slice: array<Any>, items: seq<Owned>)
    requires |items| == slice.Length
    requires forall i | 0 <= i < |items| :: Live(items[i], slice[i])
    ensures Live(OwnedList(slice, items), ListRef(slice))
  {
  }

  lemma ItemsErased(a: array<Any>, items: seq<Owned>)
    ensures var d := Erase(OwnedList(a, items));
            d.Items? && |d.items| == |items| && forall i | 0 <= i < |items| :: d.items[i] == Erase(items[i])
  {
  }

  lemma DisjointFields(m: Mapping, fields: map<Key, Owned>, key: Key)
    requires Tree(OwnedMap(m, fields)) && key in fields
    ensures Tree(fields[key]) && m !in Footprint(fields[key])
    ensures forall k | k in fields && k != key :: Footprint(fields[k]) !! Footprint(fields[key]) && m !in Footprint(fields[k])
  {
  }

  lemma DisjointItems(a: array<Any>, items: seq<Owned>, index: nat)
    requires Tree(OwnedList(a, items)) && index < |items|
    ensures a !in Footprint(items[index])
    ensures forall i | 0 <= i < |items| && i != index :: Footprint(items[i]) !! Footprint(items[index])
  {
  }

  lemma ItemsReplaced(a: array<Any>, items: seq<Owned>, items': seq<Owned>)
    requires Tree(OwnedList(a, items)) && |items'| == |items|
    requires forall i | 0 <= i < |items| :: Tree(items'[i]) && Footprint(items'[i]) <= Footprint(items[i])
    ensures Tree(OwnedList(a, items'))
    ensures Footprint(OwnedList(a, items')) <= Footprint(OwnedList(a, items))
  {
  }

  /** Replaces the value at a path in place and says how many values it replaced. */
  method DropPath(node: Any, path: Path, ghost o: Owned) returns (count: nat, ghost o': Owned)
    requires Tree(o) && Live(o, node)
    modifies Footprint(o)
    ensures Tree(o') && Live(o', node) && Footprint(o') <= Footprint(o)
    ensures Erase(o') == Drop(Erase(o), path)
    ensures count == Count(Erase(o), path)
    decreases |path|, 2
  {
    hide Drop, Count, DropEntry, CountEntry, Erase, Tree, Union, Live;
    MapOpens(o, node);
    if path == [] || !node.MapRef? || Named(path[0].name) !in node.mapping.entries {
      DropsNothing(o, path);
      return 0, o;
    }
    var m, key := node.mapping, Named(path[0].name);
    var entry' := m.entries[key];
    ghost var kid := o.fields[key];
    ghost var kid';
    DisjointFields(m, o.fields, key);
    assert forall other | other in o.fields :: allocated(Footprint(o.fields[other]));
    count, entry', kid' := DropValue(m.entries[key], path, kid);
    if !path[0].list && |path| == 1 {
      m.entries := m.entries[key := entry'];
    }
    forall other | other in o.fields && other != key
      ensures Live(o.fields[other], m.entries[other])
    {
      assert Footprint(o.fields[other]) !! Footprint(kid) && m !in Footprint(o.fields[other]);
    }
    o' := OwnedMap(m, o.fields[key := kid']);
    MapCloses(m, o'.fields);
    FieldReplaced(m, o.fields, key, kid');
    DropsInEntry(m, o.fields, path, kid');
  }

  /** The value under the first name of the path: hidden, walked as a list, or walked on. */
  method DropValue(entry: Any, path: Path, ghost kid: Owned) returns (count: nat, entry': Any, ghost kid': Owned)
    requires path != [] && Tree(kid) && Live(kid, entry)
    modifies Footprint(kid)
    ensures Tree(kid') && Live(kid', entry') && Footprint(kid') <= Footprint(kid)
    ensures Erase(kid') == DropEntry(Erase(kid), path)
    ensures count == CountEntry(Erase(kid), path)
    ensures path[0].list || |path| > 1 ==> entry' == entry
    decreases |path|, 1
  {
    entry' := entry;
    if path[0].list {
      if !entry.ListRef? {
        count, kid' := 0, kid;
      } else if |path| == 1 {
        count, kid' := HideAll(entry.slice, kid);
      } else {
        count, kid' := DropItems(entry.slice, path[1..], kid);
      }
    } else if |path| == 1 {
      count, entry', kid' := 1, REDACTED, OwnedPlain(REDACTED.value);
    } else {
      count, kid' := DropPath(entry, path[1..], kid);
    }
  }

  /** The loop that overwrites every element of a slice. */
  method HideAll(slice: array<Any>, ghost o: Owned) returns (count: nat, ghost o': Owned)
    requires Tree(o) && Live(o, ListRef(slice))
    modifies slice
    ensures o' == OwnedList(slice, seq(slice.Length, _ => OwnedPlain(REDACTED.value)))
    ensures Live(o', ListRef(slice)) && Footprint(o') <= Footprint(o)
    ensures count == slice.Length
  {
    for index := 0 to slice.Length
      invariant forall i | 0 <= i < index :: slice[i] == REDACTED
    {
      slice[index] := REDACTED;
    }
    o' := OwnedList(slice, seq(slice.Length, _ => OwnedPlain(REDACTED.value)));
    count := slice.Length;
  }

  /** The loop that carries the rest of the path into every element. */
  method DropItems(slice: array<Any>, path: Path, ghost o: Owned) returns (count: nat, ghost o': Owned)
    requires Tree(o) && Live(o, ListRef(slice)) && path != []
    modifies Footprint(o)
    ensures Tree(o') && Live(o', ListRef(slice)) && Footprint(o') <= Footprint(o)
    ensures Erase(o') == Items(seq(|Erase(o).items|, i requires 0 <= i < |Erase(o).items| => Drop(Erase(o).items[i], path)))
    ensures count == CountItems(Erase(o).items, path)
    decreases |path|, 4
  {
    hide Drop, Count, Tree, Union, Live, Erase;
    ListOpens(o, slice);
    ItemsErased(slice, o.items);
    ghost var items, docs := o.items, Erase(o).items;
    ghost var items' := items;
    count := 0;
    for index := 0 to slice.Length
      invariant |items'| == |items| == slice.Length == |docs|
      invariant forall i | 0 <= i < slice.Length :: slice[i] == old(slice[i])
      invariant forall i | 0 <= i < |items| :: Tree(items'[i]) && Footprint(items'[i]) <= Footprint(items[i])
      invariant forall i | 0 <= i < |items| :: Live(items'[i], slice[i])
      invariant forall i | 0 <= i < index :: Erase(items'[i]) == Drop(docs[i], path)
      invariant forall i | index <= i < |items| :: items'[i] == items[i]
      invariant count == CountItems(docs[..index], path)
    {
      assert Footprint(items[index]) <= Footprint(o);
      var one, item' := DropItem(slice, index, path, items, items');
      items' := items'[index := item'];
      count := count + one;
      assert docs[..index + 1][..index] == docs[..index];
    }
    assert docs[..|docs|] == docs;
    ItemsReplaced(slice, items, items');
    ListCloses(slice, items');
    ItemsErased(slice, items');
    o' := OwnedList(slice, items');
  }

  /** One turn of that loop: the other elements and the slice itself are out of its reach. */
  method DropItem(slice: array<Any>, index: nat, path: Path, ghost items: seq<Owned>, ghost now: seq<Owned>)
    returns (count: nat, ghost item': Owned)
    requires |items| == |now| == slice.Length && index < slice.Length
    requires Tree(OwnedList(slice, items))
    requires forall i | 0 <= i < |items| :: Tree(now[i]) && Footprint(now[i]) <= Footprint(items[i])
    requires forall i | 0 <= i < |items| :: Live(now[i], slice[i])
    modifies Footprint(now[index])
    ensures Tree(item') && Footprint(item') <= Footprint(items[index]) && Live(item', slice[index])
    ensures Erase(item') == Drop(Erase(now[index]), path) && count == Count(Erase(now[index]), path)
    ensures forall i | 0 <= i < slice.Length :: slice[i] == old(slice[i])
    ensures forall i | 0 <= i < |items| && i != index :: Live(now[i], slice[i])
    decreases |path|, 3
  {
    hide Drop, Count, Erase, Tree, Union;
    DisjointItems(slice, items, index);
    assert slice !in Footprint(items[index]);
    assert forall i | 0 <= i < |items| :: allocated(Footprint(now[i]));
    count, item' := DropPath(slice[index], path, now[index]);
    forall i | 0 <= i < |items| && i != index
      ensures Live(now[i], slice[i])
    {
      assert Footprint(now[i]) !! Footprint(now[index]);
    }
  }

  function Paths(keys: seq<string>): (paths: seq<Path>)
    ensures |paths| == |keys| && [] !in paths
  {
    seq(|keys|, i requires 0 <= i < |keys| => PathOf(keys[i]))
  }

  /** What the manifest reports for a key: its own counts, each after the keys before it. */
  function Reported(d: Doc, keys: seq<string>, key: string): nat {
    if keys == [] then 0
    else
      var rest := keys[..|keys| - 1];
      Reported(d, rest, key)
      + if keys[|keys| - 1] == key then Count(DropAll(d, Paths(rest)), PathOf(key)) else 0
  }

  datatype Shipped = AsCollected | Rewritten | Unparsable

  /**
   The redaction of one structured file. `parsed` is the parser's answer; the
   bytes that ship are the collected ones or what the marshaller makes of the
   document as it now stands.
   */
  method RedactDocument(content: string, keys: seq<string>, parsed: Option<Any>, ghost o: Owned)
    returns (shipped: Shipped, dropped: map<string, nat>, ghost o': Owned)
    requires parsed.Some? ==> Tree(o) && Live(o, parsed.value)
    modifies if parsed.Some? then Footprint(o) else {}
    ensures shipped.Unparsable? <==> TrimSpace(content) != [] && parsed.None?
    ensures parsed.Some? ==> Tree(o') && Live(o', parsed.value)
    ensures TrimSpace(content) != [] && parsed.Some? ==>
              && Erase(o') == DropAll(Erase(o), Paths(keys))
              && (shipped.Rewritten? <==> exists key | key in keys :: Targets(Erase(o), PathOf(key)) != {})
              && (forall key: string :: Reported(Erase(o), keys, key) == if key in dropped then dropped[key] else 0)
    ensures !shipped.Rewritten? ==> dropped == map[] && (parsed.Some? ==> Erase(o') == Erase(o))
    ensures TrimSpace(content) == [] ==> shipped.AsCollected?
    ensures TrimSpace(content) != [] && parsed.Some? ==> ListKeysHide(Erase(o'), keys) && PlainKeysHide(Erase(o'), keys)
  {
    hide DropAll, CountAll, Tree, Live, Footprint, Erase, Count, Targets, PathOf, Drop, Paths, ListKeysHide, PlainKeysHide;
    dropped, o' := map[], o;
    if TrimSpace(content) == [] {
      return AsCollected, dropped, o';
    }
    if parsed.None? {
      return Unparsable, dropped, o';
    }
    ghost var d := Erase(o);
    var changed := false;
    NoKeyYet(d, keys);
    for i := 0 to |keys|
      invariant Tree(o') && Live(o', parsed.value) && Footprint(o') <= Footprint(o)
      invariant Erase(o') == DropAll(d, Paths(keys[..i]))
      invariant changed <==> CountAll(d, Paths(keys[..i])) > 0
      invariant !changed ==> dropped == map[]
      invariant forall key: string :: Reported(d, keys[..i], key) == if key in dropped then dropped[key] else 0
    {
      var key := keys[i];
      var count;
      count, o' := DropPath(parsed.value, PathOf(key), o');
      if count > 0 {
        dropped := dropped[key := (if key in dropped then dropped[key] else 0) + count];
        changed := true;
      }
      OneMoreKey(d, keys, i);
    }
    assert keys[..|keys|] == keys;
    NothingDroppedIff(d, Paths(keys));
    AnyTarget(d, keys);
    KeysHide(d, keys);
    shipped := if changed then Rewritten else AsCollected;
  }

  /** A declared key spelled a[].b leaves no secret in that field of any element. */
  ghost predicate ListKeysHide(d: Doc, keys: seq<string>) {
    forall a, b, i: nat | Spellable(Segment(a, true)) && Spellable(Segment(b, false)) && a + "[]." + b in keys ::
      Hidden(At(d, InEach(a, i, b)))
  }

  /** And one spelled a.b none in that field. */
  ghost predicate PlainKeysHide(d: Doc, keys: seq<string>) {
    forall a, b | Spellable(Segment(a, false)) && Spellable(Segment(b, false)) && a + "." + b in keys ::
      Hidden(At(d, Inside(a, b)))
  }

  lemma PathIn(keys: seq<string>, key: string)
    requires key in keys
    ensures PathOf(key) in Paths(keys)
  {
    hide PathOf;
    var i :| 0 <= i < |keys| && keys[i] == key;
    assert Paths(keys)[i] == PathOf(key);
  }

  lemma KeysHide(d: Doc, keys: seq<string>)
    ensures ListKeysHide(DropAll(d, Paths(keys)), keys) && PlainKeysHide(DropAll(d, Paths(keys)), keys)
  {
    hide PathOf, Paths, DropAll, At, Hidden, Spellable;
    forall a, b, i: nat | Spellable(Segment(a, true)) && Spellable(Segment(b, false)) && a + "[]." + b in keys
      ensures Hidden(At(DropAll(d, Paths(keys)), InEach(a, i, b)))
    {
      PathIn(keys, a + "[]." + b);
      ListKeyIs(a, b);
      ListKeyFits(a, i, b);
      DescribedIsHidden(d, Paths(keys), PathOf(a + "[]." + b), InEach(a, i, b));
    }
    forall a, b | Spellable(Segment(a, false)) && Spellable(Segment(b, false)) && a + "." + b in keys
      ensures Hidden(At(DropAll(d, Paths(keys)), Inside(a, b)))
    {
      PathIn(keys, a + "." + b);
      PlainKeyIs(a, b);
      PlainKeyFits(a, b);
      DescribedIsHidden(d, Paths(keys), PathOf(a + "." + b), Inside(a, b));
    }
  }

  lemma NoKeyYet(d: Doc, keys: seq<string>)
    ensures DropAll(d, Paths(keys[..0])) == d && CountAll(d, Paths(keys[..0])) == 0
  {
  }

  lemma OneMoreKey(d: Doc, keys: seq<string>, i: nat)
    requires i < |keys|
    ensures var before, after := keys[..i], keys[..i + 1];
            && DropAll(d, Paths(after)) == Drop(DropAll(d, Paths(before)), PathOf(keys[i]))
            && CountAll(d, Paths(after))
               == CountAll(d, Paths(before)) + Count(DropAll(d, Paths(before)), PathOf(keys[i]))
            && (forall key: string ::
                  Reported(d, after, key) == Reported(d, before, key)
                  + if keys[i] == key then Count(DropAll(d, Paths(before)), PathOf(key)) else 0)
  {
    hide PathOf, Drop, Count;
    assert keys[..i + 1][..i] == keys[..i];
    assert Paths(keys[..i + 1])[..i] == Paths(keys[..i]);
  }

  lemma AnyTarget(d: Doc, keys: seq<string>)
    ensures (forall p | p in Paths(keys) :: Targets(d, p) == {})
            <==> !exists key | key in keys :: Targets(d, PathOf(key)) != {}
  {
    hide PathOf, Targets;
    assert forall i | 0 <= i < |keys| :: keys[i] in keys && Paths(keys)[i] == PathOf(keys[i]);
  }
}
