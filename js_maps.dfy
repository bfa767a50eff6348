/** JavaScript's `Map<string, V>`: iteration follows first insertion, `set` on
    a present key overwrites the value and keeps the key's position, `delete`
    takes the key out of the order. The value `OMap` is the specification;
    the class `JsMap` is the object the command mutates in place. */
module JsMaps {
  import opened Wrappers
  import opened JsText

  ghost predicate Distinct(s: seq<string>)
  {
    forall i, j :: 0 <= i < j < |s| ==> s[i] != s[j]
  }

  /** The elements of `s` other than `x`, in their order. */
  function Without(s: seq<string>, x: string): seq<string>
  {
    if s == [] then [] else (if s[0] == x then [] else [s[0]]) + Without(s[1..], x)
  }

  /** Taking out `x` keeps exactly the other elements, and keeps them
      without repetitions. */
  lemma {:induction false} WithoutFacts(s: seq<string>, x: string)
    ensures forall y :: y in Without(s, x) <==> y in s && y != x
    ensures Distinct(s) ==> Distinct(Without(s, x))
  {
    if s != [] {
      WithoutFacts(s[1..], x);
      if Distinct(s) {
        forall i, j | 0 <= i < j < |s[1..]| ensures s[1..][i] != s[1..][j] {
          assert s[1..][i] == s[i + 1] && s[1..][j] == s[j + 1];
        }
        assert s[0] !in s[1..];
      }
    }
  }

  lemma {:induction false} WithoutAbsent(s: seq<string>, x: string)
    requires x !in s
    ensures Without(s, x) == s
  {
    if s != [] {
      WithoutAbsent(s[1..], x);
    }
  }

  lemma {:induction false} WithoutAppend(a: seq<string>, b: seq<string>, x: string)
    ensures Without(a + b, x) == Without(a, x) + Without(b, x)
  {
    if a == [] {
      assert a + b == b;
    } else {
      assert (a + b)[1..] == a[1..] + b;
      WithoutAppend(a[1..], b, x);
    }
  }

  /** The first position of `x` in `s`. */
  function FirstIndex(s: seq<string>, x: string): (n: nat)
    requires x in s
    ensures n < |s| && s[n] == x && x !in s[..n]
  {
    if s[0] == x then 0 else 1 + FirstIndex(s[1..], x)
  }

  lemma {:induction false} FirstIndexSnoc(s: seq<string>, y: string, x: string)
    requires x in s
    ensures FirstIndex(s + [y], x) == FirstIndex(s, x)
  {
    if s[0] != x {
      assert (s + [y])[1..] == s[1..] + [y];
      FirstIndexSnoc(s[1..], y, x);
    }
  }

  /** An ordered map: `keys` is the iteration order, `vals` the contents. */
  datatype OMap<V> = OMap(keys: seq<string>, vals: map<string, V>)
  {
    /** Every key once in the order, and the order holds exactly the keys. */
    ghost predicate Valid()
    {
      Distinct(keys) && forall k :: k in vals <==> k in keys
    }

    /** `m.set(k, v)`. */
    function Put(k: string, v: V): (r: OMap<V>)
      ensures Valid() ==> r.Valid()
    {
      OMap(if k in vals then keys else keys + [k], vals[k := v])
    }

    /** `m.delete(k)`. */
    function Remove(k: string): (r: OMap<V>)
      ensures Valid() ==> r.Valid()
    {
      WithoutFacts(keys, k);
      OMap(Without(keys, k), vals - {k})
    }

    /** `m.values()`, in iteration order. */
    function Values(): (vs: seq<V>)
      requires Valid()
      ensures |vs| == |keys|
    {
      seq(|keys|, i requires 0 <= i < |keys| => vals[keys[i]])
    }
  }

  /** `new Map()`. */
  function Empty<V>(): (t: OMap<V>)
    ensures t.Valid() && t.keys == []
  {
    OMap([], map[])
  }

  /** `set` of every entry of `es`, first to last; `new Map(es)` is
      `PutAll(Empty(), es)`. */
  function PutAll<V>(t: OMap<V>, es: seq<(string, V)>): (r: OMap<V>)
    ensures t.Valid() ==> r.Valid()
    decreases |es|
  {
    if es == [] then t else PutAll(t, es[..|es| - 1]).Put(Last(es).0, Last(es).1)
  }

  /** The keys of the entries, with repetitions, in entry order. */
  function KeysOf<V>(es: seq<(string, V)>): (ks: seq<string>)
    ensures |ks| == |es|
  {
    seq(|es|, i requires 0 <= i < |es| => es[i].0)
  }

  lemma KeysOfPrefix<V>(es: seq<(string, V)>)
    requires |es| > 0
    ensures KeysOf(es) == KeysOf(es[..|es| - 1]) + [Last(es).0]
  {
  }

  /** After setting every entry, the keys are exactly the entry keys. */
  lemma {:induction false} PutAllKeys<V>(es: seq<(string, V)>)
    ensures forall k :: k in PutAll(Empty(), es).vals <==> k in KeysOf(es)
    decreases |es|
  {
    if es != [] {
      PutAllKeys(es[..|es| - 1]);
      KeysOfPrefix(es);
    }
  }

  /** The last entry with a given key decides that key's value (last write wins). */
  lemma {:induction false} PutAllLastWins<V>(es: seq<(string, V)>, i: nat)
    requires i < |es|
    requires forall j :: i < j < |es| ==> es[j].0 != es[i].0
    ensures es[i].0 in PutAll(Empty(), es).vals
    ensures PutAll(Empty(), es).vals[es[i].0] == es[i].1
    decreases |es|
  {
    if i < |es| - 1 {
      PutAllLastWins(es[..|es| - 1], i);
    }
  }

  /** Every stored value is the value of some entry with that key. */
  lemma {:induction false} PutAllValueFrom<V>(es: seq<(string, V)>, k: string)
    requires k in PutAll(Empty(), es).vals
    ensures exists i :: 0 <= i < |es| && es[i] == (k, PutAll(Empty(), es).vals[k])
    decreases |es|
  {
    var n := |es| - 1;
    if k == es[n].0 {
      assert es[n] == (k, PutAll(Empty(), es).vals[k]);
    } else {
      PutAllValueFrom(es[..n], k);
      var i :| 0 <= i < n && es[..n][i] == (k, PutAll(Empty(), es[..n]).vals[k]);
      assert es[i] == (k, PutAll(Empty(), es).vals[k]);
    }
  }

  /** Entries whose keys are all different are stored in entry order, each
      with its own value. */
  lemma PutAllDistinct<V>(es: seq<(string, V)>)
    requires Distinct(KeysOf(es))
    ensures PutAll(Empty(), es).keys == KeysOf(es)
    ensures forall i :: 0 <= i < |es| ==> es[i].0 in PutAll(Empty(), es).vals && PutAll(Empty(), es).vals[es[i].0] == es[i].1
  {
    PutAllDistinctKeys(es);
    var r := PutAll(Empty(), es);
    forall i | 0 <= i < |es|
      ensures es[i].0 in r.vals && r.vals[es[i].0] == es[i].1
    {
      DistinctLast(es, i);
      PutAllLastWins(es, i);
    }
  }

  lemma DistinctLast<V>(es: seq<(string, V)>, i: nat)
    requires Distinct(KeysOf(es)) && i < |es|
    ensures forall j :: i < j < |es| ==> es[j].0 != es[i].0
  {
    var ks := KeysOf(es);
    forall j | i < j < |es| ensures es[j].0 != es[i].0 {
      assert ks[i] != ks[j];
    }
  }

  lemma {:induction false} PutAllDistinctKeys<V>(es: seq<(string, V)>)
    requires Distinct(KeysOf(es))
    ensures PutAll(Empty(), es).keys == KeysOf(es)
    decreases |es|
  {
    if es != [] {
      var n := |es| - 1;
      KeysOfPrefix(es);
      var all := KeysOf(es);
      var ks := KeysOf(es[..n]);
      assert all == ks + [es[n].0];
      assert Distinct(ks) by {
        forall i, j | 0 <= i < j < |ks| ensures ks[i] != ks[j] {
          assert ks[i] == all[i] && ks[j] == all[j];
        }
      }
      PutAllDistinctKeys(es[..n]);
      PutAllKeys(es[..n]);
      assert es[n].0 !in ks by {
        forall i | 0 <= i < n ensures ks[i] != es[n].0 {
          assert ks[i] == all[i] && es[n].0 == all[n];
        }
      }
    }
  }

  /** Of two keys in `keys`, the one first found earlier in `ks` comes first. */
  ghost predicate InsertionOrdered(keys: seq<string>, ks: seq<string>)
  {
    forall a, b :: 0 <= a < b < |keys| ==> Before(ks, keys[a], keys[b])
  }

  /** Both occur in `ks`, and `x` occurs first. */
  ghost predicate Before(ks: seq<string>, x: string, y: string)
  {
    x in ks && y in ks && FirstIndex(ks, x) < FirstIndex(ks, y)
  }

  lemma OrderedSnoc(keys: seq<string>, ks: seq<string>, y: string)
    requires InsertionOrdered(keys, ks)
    requires forall k :: k in keys <==> k in ks
    ensures InsertionOrdered(if y in ks then keys else keys + [y], ks + [y])
  {
    forall x | x in ks
      ensures FirstIndex(ks + [y], x) == FirstIndex(ks, x)
    {
      FirstIndexSnoc(ks, y, x);
    }
    if y !in ks {
      var ks' := ks + [y];
      var keys' := keys + [y];
      assert FirstIndex(ks', y) == |ks|;
      forall a, b | 0 <= a < b < |keys'|
        ensures Before(ks', keys'[a], keys'[b])
      {
        assert keys'[a] == keys[a] && keys[a] in ks;
        if b < |keys| {
          assert keys'[b] == keys[b] && keys[b] in ks;
        }
      }
    }
  }

  /** Iteration order is the order of first insertion: of two keys, the one
      whose first entry comes earlier comes earlier. */
  lemma {:induction false} PutAllOrder<V>(es: seq<(string, V)>)
    ensures InsertionOrdered(PutAll(Empty(), es).keys, KeysOf(es))
    decreases |es|
  {
    if es != [] {
      var n := |es| - 1;
      var p := PutAll(Empty(), es[..n]);
      PutAllOrder(es[..n]);
      PutAllKeys(es[..n]);
      KeysOfPrefix(es);
      OrderedSnoc(p.keys, KeysOf(es[..n]), es[n].0);
    }
  }

  /** In a sequence without repetitions, removing the element at `i` removes
      exactly that position. */
  lemma WithoutAt(s: seq<string>, i: nat)
    requires Distinct(s) && i < |s|
    ensures Without(s, s[i]) == s[..i] + s[i + 1..]
  {
    var k := s[i];
    var pre, post := s[..i], s[i + 1..];
    assert s == (pre + [k]) + post;
    assert k !in pre && k !in post;
    WithoutAppend(pre + [k], post, k);
    WithoutAppend(pre, [k], k);
    WithoutAbsent(pre, k);
    WithoutAbsent(post, k);
    assert Without([k], k) == [];
  }

  /** Deleting a present key takes exactly its position out of the order and
      out of the values; the other entries keep their values. */
  lemma RemovePresent<V>(t: OMap<V>, i: nat)
    requires t.Valid() && i < |t.keys|
    ensures var r := t.Remove(t.keys[i]);
            && r.Valid()
            && t.keys[i] !in r.vals
            && r.keys == t.keys[..i] + t.keys[i + 1..]
            && r.Values() == t.Values()[..i] + t.Values()[i + 1..]
            && forall k :: k != t.keys[i] ==> (k in r.vals <==> k in t.vals) && (k in r.vals ==> r.vals[k] == t.vals[k])
  {
    var r := t.Remove(t.keys[i]);
    WithoutAt(t.keys, i);
    var vs, rs := t.Values(), r.Values();
    assert |rs| == |vs| - 1;
    forall j | 0 <= j < |rs|
      ensures rs[j] == (vs[..i] + vs[i + 1..])[j]
    {
      if j < i {
        assert r.keys[j] == t.keys[j];
      } else {
        assert r.keys[j] == t.keys[j + 1];
      }
    }
  }

  /** Deleting an absent key changes nothing. */
  lemma RemoveAbsent<V>(t: OMap<V>, k: string)
    requires t.Valid() && k !in t.vals
    ensures t.Remove(k) == t
  {
    WithoutAbsent(t.keys, k);
  }

  lemma DropIndex(keys: seq<string>, i: nat, j: nat)
    requires i < |keys| && j < |keys| - 1
    ensures (keys[..i] + keys[i + 1..])[j] == keys[if j < i then j else j + 1]
  {
    if j < i {
      assert (keys[..i] + keys[i + 1..])[j] == keys[..i][j];
    } else {
      assert (keys[..i] + keys[i + 1..])[j] == keys[i + 1..][j - i];
    }
  }

  lemma OrderedDrop(keys: seq<string>, ks: seq<string>, i: nat)
    requires InsertionOrdered(keys, ks) && i < |keys|
    ensures InsertionOrdered(keys[..i] + keys[i + 1..], ks)
  {
    var rest := keys[..i] + keys[i + 1..];
    assert |rest| == |keys| - 1;
    forall a, b | 0 <= a < b < |rest|
      ensures Before(ks, rest[a], rest[b])
    {
      var a' := if a < i then a else a + 1;
      var b' := if b < i then b else b + 1;
      DropIndex(keys, i, a);
      DropIndex(keys, i, b);
      OrderedPair(keys, ks, a', b');
    }
  }

  lemma OrderedPair(keys: seq<string>, ks: seq<string>, a: nat, b: nat)
    requires InsertionOrdered(keys, ks) && a < b < |keys|
    ensures Before(ks, keys[a], keys[b])
  {
  }

  /** Deleting a key keeps the remaining keys in insertion order. */
  lemma RemoveOrdered<V>(t: OMap<V>, k: string, ks: seq<string>)
    requires t.Valid() && InsertionOrdered(t.keys, ks)
    ensures InsertionOrdered(t.Remove(k).keys, ks)
  {
    if k in t.vals {
      var i := FirstIndex(t.keys, k);
      WithoutAt(t.keys, i);
      OrderedDrop(t.keys, ks, i);
    } else {
      RemoveAbsent(t, k);
    }
  }

  /** The JavaScript `Map` object as the command uses it: mutated in place. */
  class JsMap<V> {
    var keys: seq<string>
    var vals: map<string, V>

    function View(): OMap<V>
      reads this
    {
      OMap(keys, vals)
    }

    ghost predicate Valid()
      reads this
    {
      View().Valid()
    }

    /** `new Map()`. */
    constructor ()
      ensures View() == Empty()
    {
      keys := [];
      vals := map[];
    }

    /** `new Map(entries)`. */
    constructor FromEntries(es: seq<(string, V)>)
      ensures View() == PutAll(Empty(), es)
    {
      var t := PutAll(Empty(), es);
      keys := t.keys;
      vals := t.vals;
    }

    /** `m.has(k)`. */
    function Has(k: string): (b: bool)
      reads this
      ensures Valid() ==> (b <==> k in View().keys)
    {
      k in vals
    }

    /** `m.get(k)`: `undefined` for a missing key. */
    function Get(k: string): (r: Option<V>)
      reads this
      ensures r.Some? <==> k in vals
      ensures r.Some? ==> r.value == vals[k]
    {
      if k in vals then Some(vals[k]) else None
    }

    /** `m.set(k, v)`. */
    method Set(k: string, v: V)
      requires Valid()
      modifies this
      ensures Valid()
      ensures View() == old(View()).Put(k, v)
    {
      if k !in vals {
        keys := keys + [k];
      }
      vals := vals[k := v];
    }

    /** `m.delete(k)`. */
    method Delete(k: string)
      requires Valid()
      modifies this
      ensures Valid()
      ensures View() == old(View()).Remove(k)
    {
      ghost var after := View().Remove(k);
      assert after.Valid();
      keys := Without(keys, k);
      vals := vals - {k};
    }
  }
}
