/**
 The record flattener `unembed_ebay_item_data`. The two copies of the class
 hold the same flattener; only the wording of the assertion message differs.

 The nested loops are modelled as the ordered list of assignments
 `unembedded_dict[name] = value` they perform (`Writes`), and the flat record
 as that list performed on an empty dict (`FlattenItem`). The naming rule is
 fixed by depth:
 - a top-level non-dict value keeps its own key;
 - a non-dict value inside a top-level dict is named `outer_inner`;
 - a value one level deeper is named `middle_inner` (the outermost key is
   dropped) and stored as it is, even when it is itself a dict.
 */
module Unembed {
  import opened Py
  import opened Dicts
  import opened Seqs

  /** A JSON-like value as the search service's reply decodes: a dict
      (ordered key/value pairs), a list, or a scalar carried as text. */
  datatype Value =
    | Scalar(text: string)
    | List(elems: seq<Value>)
    | Dict(entries: seq<Entry<Value>>)

  /** One flat row: `unembedded_dict`. */
  type Record = seq<Entry<Value>>

  /** The separator placed between the two keys that name a nested value. */
  const Sep: string := "_"

  function Join(outer: string, inner: string): string
  {
    outer + Sep + inner
  }

  // ---- The write list of one item ---------------------------------------

  /** The write for one pair `(k3, v3)` of a dict found two levels down under key `k2`. */
  function DeepEntryWrites(k2: string, e3: Entry<Value>): seq<Entry<Value>>
  {
    [(Join(k2, e3.0), e3.1)]
  }

  /** Writes for the pairs of a dict found two levels down under key `k2`. */
  function DeepWrites(k2: string, fs: seq<Entry<Value>>): seq<Entry<Value>>
  {
    FlatMap(fs, e3 => DeepEntryWrites(k2, e3))
  }

  /** Writes for one pair `(k2, v2)` of a dict found under top-level key `k`. */
  function MidEntryWrites(k: string, e2: Entry<Value>): seq<Entry<Value>>
  {
    if e2.1.Dict? then DeepWrites(e2.0, e2.1.entries) else [(Join(k, e2.0), e2.1)]
  }

  /** Writes for the pairs of a dict found under top-level key `k`. */
  function MidWrites(k: string, es: seq<Entry<Value>>): seq<Entry<Value>>
  {
    FlatMap(es, e2 => MidEntryWrites(k, e2))
  }

  /** Writes for one top-level pair. */
  function EntryWrites(e: Entry<Value>): seq<Entry<Value>>
  {
    if e.1.Dict? then MidWrites(e.0, e.1.entries) else [e]
  }

  /** Every assignment the nested loops make for one item, in loop order. */
  function Writes(entries: seq<Entry<Value>>): seq<Entry<Value>>
  {
    FlatMap(entries, EntryWrites)
  }

  /** The flat row built for one dict item. */
  function FlattenItem(entries: seq<Entry<Value>>): Record
  {
    PutAll([], Writes(entries))
  }

  /** Every item is a dict, as the flattener asserts. */
  predicate AllDicts(items: seq<Value>)
  {
    forall i :: 0 <= i < |items| ==> items[i].Dict?
  }

  /** `unembed_ebay_item_data`: one flat row per item, in input order; an item
      that is not a dict fails the function's assertion. */
  function FlattenItems(items: seq<Value>): (r: Result<seq<Record>>)
    ensures r.Ok? <==> AllDicts(items)
    ensures r.Err? ==> r.error == AssertionError
    ensures r.Ok? ==> |r.value| == |items|
  {
    if items == [] then Ok([])
    else if !items[0].Dict? then Err(AssertionError)
    else
      match FlattenItems(items[1..])
      case Err(e) => Err(e)
      case Ok(rest) => Ok([FlattenItem(items[0].entries)] + rest)
  }

  /** Row `i` of the frame is item `i` flattened on its own: items neither
      share nor reorder their rows. */
  lemma {:induction false} FlattenItemsRows(items: seq<Value>)
    requires AllDicts(items)
    ensures forall i :: 0 <= i < |items| ==> FlattenItems(items).value[i] == FlattenItem(items[i].entries)
    decreases |items|
  {
    if items != [] {
      FlattenItemsRows(items[1..]);
      assert forall i :: 1 <= i < |items| ==> items[i] == items[1..][i - 1];
    }
  }

  // ---- The naming rule, stated by position -------------------------------

  /** `w` is the write for pair `l` of the dict under `k2`. */
  ghost predicate DeepProduces(k2: string, fs: seq<Entry<Value>>, w: Entry<Value>)
  {
    exists l :: 0 <= l < |fs| && w == (Join(k2, fs[l].0), fs[l].1)
  }

  /** `w` is a write caused by pair `e2` of the dict under top-level key `k`. */
  ghost predicate MidProduces(k: string, e2: Entry<Value>, w: Entry<Value>)
  {
    if e2.1.Dict? then DeepProduces(e2.0, e2.1.entries, w) else w == (Join(k, e2.0), e2.1)
  }

  /** `w` is a write caused by top-level pair `e`. */
  ghost predicate EntryProduces(e: Entry<Value>, w: Entry<Value>)
  {
    if e.1.Dict? then exists j :: 0 <= j < |e.1.entries| && MidProduces(e.0, e.1.entries[j], w)
    else w == e
  }

  /** `w` is a write the naming rule assigns to some pair of the item. */
  ghost predicate Produces(entries: seq<Entry<Value>>, w: Entry<Value>)
  {
    exists i :: 0 <= i < |entries| && EntryProduces(entries[i], w)
  }

  lemma EntryWritesExact(e: Entry<Value>, w: Entry<Value>)
    ensures w in EntryWrites(e) <==> EntryProduces(e, w)
  {
    if e.1.Dict? {
      var es := e.1.entries;
      FlatMapMember(es, e2 => MidEntryWrites(e.0, e2), w);
      forall j | 0 <= j < |es| && es[j].1.Dict?
        ensures w in MidEntryWrites(e.0, es[j]) <==> MidProduces(e.0, es[j], w)
      {
        FlatMapMember(es[j].1.entries, e3 => DeepEntryWrites(es[j].0, e3), w);
      }
    }
  }

  /** The write list holds exactly the writes the naming rule assigns, no
      more and no fewer. */
  lemma WritesExact(entries: seq<Entry<Value>>, w: Entry<Value>)
    ensures w in Writes(entries) <==> Produces(entries, w)
  {
    FlatMapMember(entries, EntryWrites, w);
    forall i | 0 <= i < |entries| ensures w in EntryWrites(entries[i]) <==> EntryProduces(entries[i], w) {
      EntryWritesExact(entries[i], w);
    }
  }

  // ---- Splitting the write list at one pair ------------------------------

  /** The writes of pair `i` sit between those of the pairs before and after it. */
  lemma WritesAround(entries: seq<Entry<Value>>, i: int)
    requires 0 <= i < |entries|
    ensures Writes(entries) == Writes(entries[..i]) + EntryWrites(entries[i]) + Writes(entries[i + 1..])
  {
    FlatMapAround(entries, EntryWrites, i);
  }

  lemma MidWritesAround(k: string, es: seq<Entry<Value>>, j: int)
    requires 0 <= j < |es|
    ensures MidWrites(k, es) == MidWrites(k, es[..j]) + MidEntryWrites(k, es[j]) + MidWrites(k, es[j + 1..])
  {
    FlatMapAround(es, e2 => MidEntryWrites(k, e2), j);
  }

  lemma DeepWritesAround(k2: string, fs: seq<Entry<Value>>, l: int)
    requires 0 <= l < |fs|
    ensures DeepWrites(k2, fs) == DeepWrites(k2, fs[..l]) + [(Join(k2, fs[l].0), fs[l].1)] + DeepWrites(k2, fs[l + 1..])
  {
    FlatMapAround(fs, e3 => DeepEntryWrites(k2, e3), l);
  }

  /** No write in `ws` targets key `k`. */
  predicate Untouched(ws: seq<Entry<Value>>, k: string)
  {
    forall i :: 0 <= i < |ws| ==> ws[i].0 != k
  }

  // ---- Where each value lands --------------------------------------------

  /** A top-level non-dict value is stored under its own key, and keeps it
      unless a later top-level pair writes the same name. */
  lemma TopLevelKeepsKey(entries: seq<Entry<Value>>, i: int)
    requires 0 <= i < |entries| && !entries[i].1.Dict?
    ensures HasKey(FlattenItem(entries), entries[i].0)
    ensures Untouched(Writes(entries[i + 1..]), entries[i].0) ==>
              Lookup(FlattenItem(entries), entries[i].0) == Some(entries[i].1)
  {
    var (k, v) := entries[i];
    WritesAround(entries, i);
    var before, after := Writes(entries[..i]), Writes(entries[i + 1..]);
    assert Writes(entries) == before + [(k, v)] + after;
    PutAllKeys([], Writes(entries), k);
    assert Writes(entries)[|before|].0 == k;
    if Untouched(after, k) {
      LaterWriteWins([], before, k, v, after);
    }
  }

  /** A write placed between `before` and `after` leaves its key in the row,
      and its value too when nothing after it takes the same name. */
  lemma WriteLands(ws: seq<Entry<Value>>, before: seq<Entry<Value>>, k: string, v: Value, after: seq<Entry<Value>>)
    requires ws == before + [(k, v)] + after
    ensures HasKey(PutAll([], ws), k)
    ensures Untouched(after, k) ==> Lookup(PutAll([], ws), k) == Some(v)
  {
    PutAllKeys([], ws, k);
    assert ws[|before|].0 == k;
    if Untouched(after, k) {
      LaterWriteWins([], before, k, v, after);
    }
  }

  /** A non-dict value `v2` under `k2` inside the dict under `k` is stored
      under `k_k2`, unless a later write takes that name. */
  lemma NestedJoinsKeys(entries: seq<Entry<Value>>, i: int, j: int)
    requires 0 <= i < |entries| && entries[i].1.Dict?
    requires 0 <= j < |entries[i].1.entries| && !entries[i].1.entries[j].1.Dict?
    ensures HasKey(FlattenItem(entries), Join(entries[i].0, entries[i].1.entries[j].0))
    ensures
      var k := Join(entries[i].0, entries[i].1.entries[j].0);
      Untouched(MidWrites(entries[i].0, entries[i].1.entries[j + 1..]) + Writes(entries[i + 1..]), k) ==>
        Lookup(FlattenItem(entries), k) == Some(entries[i].1.entries[j].1)
  {
    var es := entries[i].1.entries;
    var k := Join(entries[i].0, es[j].0);
    var v := es[j].1;
    var w0, w2 := Writes(entries[..i]), Writes(entries[i + 1..]);
    var m0, m2 := MidWrites(entries[i].0, es[..j]), MidWrites(entries[i].0, es[j + 1..]);
    WritesAround(entries, i);
    assert EntryWrites(entries[i]) == MidWrites(entries[i].0, es);
    MidWritesAround(entries[i].0, es, j);
    assert MidEntryWrites(entries[i].0, es[j]) == [(k, v)];
    assert Writes(entries) == w0 + (m0 + [(k, v)] + m2) + w2;
    assert Writes(entries) == (w0 + m0) + [(k, v)] + (m2 + w2);
    WriteLands(Writes(entries), w0 + m0, k, v, m2 + w2);
  }

  /** Where the write for a depth-three pair sits in the write list. */
  lemma DeepWritePosition(entries: seq<Entry<Value>>, i: int, j: int, l: int)
    requires 0 <= i < |entries| && entries[i].1.Dict?
    requires 0 <= j < |entries[i].1.entries| && entries[i].1.entries[j].1.Dict?
    requires 0 <= l < |entries[i].1.entries[j].1.entries|
    ensures
      var (k, es) := (entries[i].0, entries[i].1.entries);
      var (k2, fs) := (es[j].0, es[j].1.entries);
      Writes(entries) ==
        (Writes(entries[..i]) + MidWrites(k, es[..j]) + DeepWrites(k2, fs[..l]))
        + [(Join(k2, fs[l].0), fs[l].1)]
        + (DeepWrites(k2, fs[l + 1..]) + MidWrites(k, es[j + 1..]) + Writes(entries[i + 1..]))
  {
    var k := entries[i].0;
    var es := entries[i].1.entries;
    var k2 := es[j].0;
    var fs := es[j].1.entries;
    var w0, w2 := Writes(entries[..i]), Writes(entries[i + 1..]);
    var m0, m2 := MidWrites(k, es[..j]), MidWrites(k, es[j + 1..]);
    var d0, d2 := DeepWrites(k2, fs[..l]), DeepWrites(k2, fs[l + 1..]);
    var x := [(Join(k2, fs[l].0), fs[l].1)];
    var mid := m0 + (d0 + x + d2) + m2;
    assert EntryWrites(entries[i]) == mid by {
      MidWritesAround(k, es, j);
      assert MidEntryWrites(k, es[j]) == DeepWrites(k2, fs);
      DeepWritesAround(k2, fs, l);
    }
    assert Writes(entries) == w0 + mid + w2 by {
      WritesAround(entries, i);
    }
    Regroup(w0, m0, d0, x, d2, m2, w2);
  }

  /** A value `v3` under `k3` inside the dict under `k2` inside the dict
      under `k` is stored unchanged (a dict stays a dict) under `k2_k3`: the
      outermost key `k` takes no part in the name. */
  lemma DeepDropsOuterKey(entries: seq<Entry<Value>>, i: int, j: int, l: int)
    requires 0 <= i < |entries| && entries[i].1.Dict?
    requires 0 <= j < |entries[i].1.entries| && entries[i].1.entries[j].1.Dict?
    requires 0 <= l < |entries[i].1.entries[j].1.entries|
    ensures
      var (k2, fs) := (entries[i].1.entries[j].0, entries[i].1.entries[j].1.entries);
      HasKey(FlattenItem(entries), Join(k2, fs[l].0))
    ensures
      var (k, k2, fs) := (entries[i].0, entries[i].1.entries[j].0, entries[i].1.entries[j].1.entries);
      Untouched(DeepWrites(k2, fs[l + 1..]) + MidWrites(k, entries[i].1.entries[j + 1..]) + Writes(entries[i + 1..]),
                Join(k2, fs[l].0)) ==>
        Lookup(FlattenItem(entries), Join(k2, fs[l].0)) == Some(fs[l].1)
  {
    var k := entries[i].0;
    var es := entries[i].1.entries;
    var k2 := es[j].0;
    var fs := es[j].1.entries;
    DeepWritePosition(entries, i, j, l);
    WriteLands(Writes(entries),
               Writes(entries[..i]) + MidWrites(k, es[..j]) + DeepWrites(k2, fs[..l]),
               Join(k2, fs[l].0), fs[l].1,
               DeepWrites(k2, fs[l + 1..]) + MidWrites(k, es[j + 1..]) + Writes(entries[i + 1..]));
  }

  /** The flat row has a key exactly for each name some write uses. */
  lemma FlattenKeys(entries: seq<Entry<Value>>, name: string)
    ensures HasKey(FlattenItem(entries), name) <==> exists w :: Produces(entries, w) && w.0 == name
  {
    var ws := Writes(entries);
    PutAllKeys([], ws, name);
    if HasKey(FlattenItem(entries), name) {
      var i :| 0 <= i < |ws| && ws[i].0 == name;
      WritesExact(entries, ws[i]);
    }
    if exists w :: Produces(entries, w) && w.0 == name {
      var w :| Produces(entries, w) && w.0 == name;
      WritesExact(entries, w);
      var i :| 0 <= i < |ws| && ws[i] == w;
    }
  }

  // ---- Depth, flatness and idempotence -----------------------------------

  /** No value of the row is a dict. */
  predicate IsFlat(r: seq<Entry<Value>>)
  {
    forall e :: e in r ==> !e.1.Dict?
  }

  /** A value reached two levels down holds no further dict. */
  predicate DeepShallow(v: Value)
  {
    v.Dict? ==> forall l :: 0 <= l < |v.entries| ==> !v.entries[l].1.Dict?
  }

  /** A value reached one level down nests at most two more levels. */
  predicate MidShallow(v: Value)
  {
    v.Dict? ==> forall j :: 0 <= j < |v.entries| ==> DeepShallow(v.entries[j].1)
  }

  /** The item nests dicts at most three levels deep. */
  predicate Shallow(entries: seq<Entry<Value>>)
  {
    forall i :: 0 <= i < |entries| ==> MidShallow(entries[i].1)
  }

  /** The writes carry a dict value exactly when the item nests dicts more
      than three levels deep. */
  lemma WritesFlatIffShallow(entries: seq<Entry<Value>>)
    ensures IsFlat(Writes(entries)) <==> Shallow(entries)
  {
    if Shallow(entries) {
      forall w | w in Writes(entries) ensures !w.1.Dict? {
        WritesExact(entries, w);
        var i :| 0 <= i < |entries| && EntryProduces(entries[i], w);
        if entries[i].1.Dict? {
          var es := entries[i].1.entries;
          var j :| 0 <= j < |es| && MidProduces(entries[i].0, es[j], w);
          assert DeepShallow(es[j].1);
        }
      }
    } else {
      var i :| 0 <= i < |entries| && !MidShallow(entries[i].1);
      var es := entries[i].1.entries;
      var j :| 0 <= j < |es| && !DeepShallow(es[j].1);
      var fs := es[j].1.entries;
      var l :| 0 <= l < |fs| && fs[l].1.Dict?;
      var w := (Join(es[j].0, fs[l].0), fs[l].1);
      assert DeepProduces(es[j].0, fs, w);
      assert MidProduces(entries[i].0, es[j], w);
      assert EntryProduces(entries[i], w);
      WritesExact(entries, w);
    }
  }

  /** An item at most three levels deep flattens to a row without dicts. */
  lemma FlattenShallowIsFlat(entries: seq<Entry<Value>>)
    requires Shallow(entries)
    ensures IsFlat(FlattenItem(entries))
  {
    WritesFlatIffShallow(entries);
    PutAllFrom([], Writes(entries));
  }

  lemma WritesOfFlat(entries: seq<Entry<Value>>)
    requires IsFlat(entries)
    ensures Writes(entries) == entries
  {
    forall i | 0 <= i < |entries| ensures EntryWrites(entries[i]) == [entries[i]] {
      assert entries[i] in entries;
    }
    FlatMapSingletons(entries, EntryWrites);
  }

  /** A dict that is already flat comes back unchanged. */
  lemma FlattenFlatItem(entries: seq<Entry<Value>>)
    requires IsFlat(entries) && UniqueKeys(entries)
    ensures FlattenItem(entries) == entries
  {
    WritesOfFlat(entries);
    assert [] + entries == entries;
    PutAllDistinct([], entries);
  }

  /** Flattening twice gives what flattening once gives, for items that nest
      at most three levels deep (deeper dicts survive the first pass and are
      flattened by the second). */
  lemma FlattenIdempotent(entries: seq<Entry<Value>>)
    requires Shallow(entries)
    ensures FlattenItem(FlattenItem(entries)) == FlattenItem(entries)
  {
    FlattenShallowIsFlat(entries);
    PutAllUnique([], Writes(entries));
    FlattenFlatItem(FlattenItem(entries));
  }

  /** An item whose two top-level dicts both hold an inner dict `price`. */
  const CollidingItem: Record :=
    [("a", Dict([("price", Dict([("value", Scalar("1"))]))])),
     ("b", Dict([("price", Dict([("value", Scalar("2"))]))]))]

  lemma CollidingItemWrites()
    ensures Writes(CollidingItem) == [("price_value", Scalar("1")), ("price_value", Scalar("2"))]
  {
    var item := CollidingItem;
    var name := Join("price", "value");
    assert name == "price_value";
    assert MidWrites("a", item[0].1.entries) == [(name, Scalar("1"))] by {
      assert DeepWrites("price", [("value", Scalar("1"))]) == [(name, Scalar("1"))];
    }
    assert Writes(item[1..]) == [(name, Scalar("2"))] by {
      assert MidWrites("b", item[1].1.entries) == [(name, Scalar("2"))] by {
        assert DeepWrites("price", [("value", Scalar("2"))]) == [(name, Scalar("2"))];
      }
    }
  }

  /** Writing the same key twice into an empty dict keeps one pair, the second. */
  lemma WriteTwice(name: string, v1: Value, v2: Value)
    ensures PutAll([], [(name, v1), (name, v2)]) == [(name, v2)]
  {
    var d1 := Put([], name, v1);
    assert d1 == [(name, v1)];
    assert HasKey(d1, name) by {
      assert d1[0].0 == name;
    }
    var d2 := Put(d1, name, v2);
    assert |d2| == 1 && d2[0].0 == name;
    assert Lookup(d2, name) == Some(v2);
    assert d2 == [(name, v2)];
    assert PutAll(d1, [(name, v2)]) == PutAll(d2, []);
    assert [(name, v1), (name, v2)][1..] == [(name, v2)];
  }

  /** Two dicts that share an inner dict name collide at depth three: only
      the later value survives, and the outer keys appear nowhere. */
  lemma DeepCollisionOverwrites()
    ensures FlattenItem(CollidingItem) == [("price_value", Scalar("2"))]
  {
    CollidingItemWrites();
    WriteTwice("price_value", Scalar("1"), Scalar("2"));
  }
}
