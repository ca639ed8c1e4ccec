/**
 A Python `dict` with string keys, as the flattener uses it: the sequence of
 its key/value pairs in insertion order (the order `dict.items()` yields and
 the order a DataFrame takes its columns from). Assigning `d[k] = v` replaces
 the value of an existing key in place and appends a new key at the end.
 */
module Dicts {
  import opened Py

  type Entry<V> = (string, V)

  /** No key occurs twice; every real Python dict satisfies this. */
  predicate UniqueKeys<V>(d: seq<Entry<V>>)
  {
    forall i, j :: 0 <= i < j < |d| ==> d[i].0 != d[j].0
  }

  /** Some pair of `d` has key `k`. */
  predicate HasKey<V>(d: seq<Entry<V>>, k: string)
  {
    exists i :: 0 <= i < |d| && d[i].0 == k
  }

  /** `d.get(k)`: the value of the first pair whose key is `k`. */
  function Lookup<V>(d: seq<Entry<V>>, k: string): (r: Option<V>)
    ensures r.Some? <==> HasKey(d, k)
    ensures r.Some? ==> (k, r.value) in d
    ensures UniqueKeys(d) ==> forall i :: 0 <= i < |d| && d[i].0 == k ==> r == Some(d[i].1)
  {
    if d == [] then None
    else if d[0].0 == k then Some(d[0].1)
    else
      var r := Lookup(d[1..], k);
      assert HasKey(d[1..], k) ==> HasKey(d, k) by {
        if HasKey(d[1..], k) {
          var i :| 0 <= i < |d[1..]| && d[1..][i].0 == k;
          assert d[i + 1].0 == k;
        }
      }
      assert HasKey(d, k) ==> HasKey(d[1..], k) by {
        if HasKey(d, k) {
          var i :| 0 <= i < |d| && d[i].0 == k;
          assert i != 0;
          assert d[1..][i - 1].0 == k;
        }
      }
      assert UniqueKeys(d) ==> UniqueKeys(d[1..]) by {
        if UniqueKeys(d) {
          forall i, j | 0 <= i < j < |d[1..]| ensures d[1..][i].0 != d[1..][j].0 {
            assert d[1..][i] == d[i + 1] && d[1..][j] == d[j + 1];
          }
        }
      }
      assert UniqueKeys(d) ==> forall i :: 0 <= i < |d| && d[i].0 == k ==> r == Some(d[i].1) by {
        if UniqueKeys(d) {
          forall i | 0 <= i < |d| && d[i].0 == k ensures r == Some(d[i].1) {
            assert i != 0;
            assert d[1..][i - 1] == d[i];
          }
        }
      }
      r
  }

  /** Two dicts with the same keys in the same places, agreeing on the pairs
      with key `k`, give the same answer for `k`. */
  lemma {:induction false} LookupAgree<V>(d1: seq<Entry<V>>, d2: seq<Entry<V>>, k: string)
    requires |d1| == |d2|
    requires forall i :: 0 <= i < |d1| ==> d1[i].0 == d2[i].0
    requires forall i :: 0 <= i < |d1| && d1[i].0 == k ==> d1[i] == d2[i]
    ensures Lookup(d1, k) == Lookup(d2, k)
    decreases |d1|
  {
    if d1 != [] && d1[0].0 != k {
      LookupAgree(d1[1..], d2[1..], k);
    }
  }

  /** A pair appended at the end is invisible to lookups of other keys. */
  lemma {:induction false} LookupAppendOther<V>(d: seq<Entry<V>>, e: Entry<V>, k: string)
    requires e.0 != k
    ensures Lookup(d + [e], k) == Lookup(d, k)
    decreases |d|
  {
    if d != [] && d[0].0 != k {
      assert (d + [e])[1..] == d[1..] + [e];
      LookupAppendOther(d[1..], e, k);
    } else if d == [] {
      assert (d + [e])[1..] == [];
    }
  }

  /** `d[k] = v`. */
  function Put<V>(d: seq<Entry<V>>, k: string, v: V): (r: seq<Entry<V>>)
    ensures Lookup(r, k) == Some(v)
    ensures forall k' :: k' != k ==> Lookup(r, k') == Lookup(d, k')
    ensures HasKey(d, k) ==> |r| == |d|
    ensures !HasKey(d, k) ==> r == d + [(k, v)]
    ensures forall i :: 0 <= i < |d| ==> r[i].0 == d[i].0
    ensures forall e :: e in r ==> e in d || e == (k, v)
  {
    var r :=
      if HasKey(d, k) then seq(|d|, i requires 0 <= i < |d| => if d[i].0 == k then (k, v) else d[i])
      else d + [(k, v)];
    assert HasKey(r, k) by {
      if HasKey(d, k) {
        var i :| 0 <= i < |d| && d[i].0 == k;
        assert r[i].0 == k;
      } else {
        assert r[|d|].0 == k;
      }
    }
    assert forall k' :: k' != k ==> Lookup(r, k') == Lookup(d, k') by {
      forall k' | k' != k ensures Lookup(r, k') == Lookup(d, k') {
        if HasKey(d, k) {
          LookupAgree(r, d, k');
        } else {
          LookupAppendOther(d, (k, v), k');
        }
      }
    }
    r
  }

  /** Assignment keeps a real dict real: no key ends up twice. */
  lemma PutUnique<V>(d: seq<Entry<V>>, k: string, v: V)
    requires UniqueKeys(d)
    ensures UniqueKeys(Put(d, k, v))
  {
  }

  /** The writes `ws` performed one after another on `d`, as a `for` loop
      assigning `d[key] = val` for each pair in turn. */
  function PutAll<V>(d: seq<Entry<V>>, ws: seq<Entry<V>>): seq<Entry<V>>
    decreases |ws|
  {
    if ws == [] then d else PutAll(Put(d, ws[0].0, ws[0].1), ws[1..])
  }

  /** Writing `a` and then `b` is writing `a + b`. */
  lemma {:induction false} PutAllAppend<V>(d: seq<Entry<V>>, a: seq<Entry<V>>, b: seq<Entry<V>>)
    ensures PutAll(d, a + b) == PutAll(PutAll(d, a), b)
    decreases |a|
  {
    if a != [] {
      assert (a + b)[0] == a[0];
      assert (a + b)[1..] == a[1..] + b;
      PutAllAppend(Put(d, a[0].0, a[0].1), a[1..], b);
    } else {
      assert a + b == b;
    }
  }

  /** Writes to other keys leave the value under `k` alone. */
  lemma {:induction false} PutAllUntouched<V>(d: seq<Entry<V>>, ws: seq<Entry<V>>, k: string)
    requires forall i :: 0 <= i < |ws| ==> ws[i].0 != k
    ensures Lookup(PutAll(d, ws), k) == Lookup(d, k)
    decreases |ws|
  {
    if ws != [] {
      PutAllUntouched(Put(d, ws[0].0, ws[0].1), ws[1..], k);
    }
  }

  /** The last write to a key decides its value: after `a`, then `k := v`,
      then writes `b` none of which targets `k`, the dict maps `k` to `v`. */
  lemma LaterWriteWins<V>(d: seq<Entry<V>>, a: seq<Entry<V>>, k: string, v: V, b: seq<Entry<V>>)
    requires forall i :: 0 <= i < |b| ==> b[i].0 != k
    ensures Lookup(PutAll(d, a + [(k, v)] + b), k) == Some(v)
  {
    PutAllAppend(d, a + [(k, v)], b);
    PutAllAppend(d, a, [(k, v)]);
    PutAllUntouched(PutAll(d, a + [(k, v)]), b, k);
  }

  /** A key is present after the writes exactly when it was present before
      or one of the writes targeted it. */
  lemma {:induction false} PutAllKeys<V>(d: seq<Entry<V>>, ws: seq<Entry<V>>, k: string)
    ensures HasKey(PutAll(d, ws), k) <==> HasKey(d, k) || exists i :: 0 <= i < |ws| && ws[i].0 == k
    decreases |ws|
  {
    if ws != [] {
      var d' := Put(d, ws[0].0, ws[0].1);
      PutAllKeys(d', ws[1..], k);
      assert HasKey(d', k) <==> HasKey(d, k) || ws[0].0 == k by {
        assert Lookup(d', k).Some? <==> HasKey(d', k);
        if k != ws[0].0 {
          assert Lookup(d', k) == Lookup(d, k);
        }
      }
      if exists i :: 0 <= i < |ws| && ws[i].0 == k {
        var i :| 0 <= i < |ws| && ws[i].0 == k;
        if i > 0 {
          assert ws[1..][i - 1].0 == k;
        }
      }
      if exists i :: 0 <= i < |ws[1..]| && ws[1..][i].0 == k {
        var i :| 0 <= i < |ws[1..]| && ws[1..][i].0 == k;
        assert ws[i + 1].0 == k;
      }
    }
  }

  /** The result of any writes on an empty or real dict is a real dict. */
  lemma {:induction false} PutAllUnique<V>(d: seq<Entry<V>>, ws: seq<Entry<V>>)
    requires UniqueKeys(d)
    ensures UniqueKeys(PutAll(d, ws))
    decreases |ws|
  {
    if ws != [] {
      PutUnique(d, ws[0].0, ws[0].1);
      PutAllUnique(Put(d, ws[0].0, ws[0].1), ws[1..]);
    }
  }

  /** Every pair in the result was already in `d` or is one of the writes:
      assignment never invents a value. */
  lemma {:induction false} PutAllFrom<V>(d: seq<Entry<V>>, ws: seq<Entry<V>>)
    ensures forall e :: e in PutAll(d, ws) ==> e in d || e in ws
    decreases |ws|
  {
    if ws != [] {
      var d' := Put(d, ws[0].0, ws[0].1);
      PutAllFrom(d', ws[1..]);
      forall e | e in PutAll(d, ws) ensures e in d || e in ws {
        assert e in d' || e in ws[1..];
        if e in ws[1..] {
          var i :| 0 <= i < |ws[1..]| && ws[1..][i] == e;
          assert ws[i + 1] == e;
        }
      }
    }
  }

  /** When no two pairs of `d + ws` share a key, the writes simply append:
      nothing is overwritten. */
  lemma {:induction false} PutAllDistinct<V>(d: seq<Entry<V>>, ws: seq<Entry<V>>)
    requires UniqueKeys(d + ws)
    ensures PutAll(d, ws) == d + ws
    decreases |ws|
  {
    if ws != [] {
      assert !HasKey(d, ws[0].0) by {
        forall i | 0 <= i < |d| ensures d[i].0 != ws[0].0 {
          assert (d + ws)[i] == d[i] && (d + ws)[|d|] == ws[0];
        }
      }
      var d' := Put(d, ws[0].0, ws[0].1);
      assert d' == d + [ws[0]];
      assert d' + ws[1..] == d + ws;
      PutAllDistinct(d', ws[1..]);
    }
  }
}
