/**
 * The part of a JSON object that the record store relies on: string keys,
 * kept in ascending byte order (the order of the std::map behind the JSON
 * library's objects), each key at most once. Iterating an object visits its
 * entries in key order.
 */
module JsonObject {
  import opened Words

  type Key = seq<byte>

  datatype Option<T> = None | Some(value: T)

  /** std::string's operator<: lexicographic on unsigned bytes, a proper prefix first. */
  predicate LexLess(a: Key, b: Key)
  {
    if a == [] then b != []
    else if b == [] then false
    else if a[0] != b[0] then a[0] < b[0]
    else LexLess(a[1..], b[1..])
  }

  lemma {:induction false} LexLessIrreflexive(a: Key)
    ensures !LexLess(a, a)
  {
    if a != [] {
      LexLessIrreflexive(a[1..]);
    }
  }

  lemma {:induction false} LexLessAsymmetric(a: Key, b: Key)
    ensures LexLess(a, b) ==> !LexLess(b, a)
  {
    if a != [] && b != [] && a[0] == b[0] {
      LexLessAsymmetric(a[1..], b[1..]);
    }
  }

  lemma {:induction false} LexLessTransitive(a: Key, b: Key, c: Key)
    requires LexLess(a, b) && LexLess(b, c)
    ensures LexLess(a, c)
  {
    if a != [] && b != [] && c != [] && a[0] == b[0] && b[0] == c[0] {
      LexLessTransitive(a[1..], b[1..], c[1..]);
    }
  }

  /** Two different strings are always ordered one way or the other. */
  lemma {:induction false} LexLessTotal(a: Key, b: Key)
    requires a != b
    ensures LexLess(a, b) || LexLess(b, a)
  {
    if a != [] && b != [] && a[0] == b[0] {
      assert a == [a[0]] + a[1..] && b == [b[0]] + b[1..];
      LexLessTotal(a[1..], b[1..]);
    }
  }

  datatype Entry<V> = Entry(key: Key, value: V)

  /** A JSON object: entries with strictly ascending keys. */
  predicate Sorted<V>(o: seq<Entry<V>>)
  {
    forall i, j :: 0 <= i < j < |o| ==> LexLess(o[i].key, o[j].key)
  }

  function KeySet<V>(o: seq<Entry<V>>): set<Key>
  {
    set i | 0 <= i < |o| :: o[i].key
  }

  lemma KeySetCons<V>(e: Entry<V>, o: seq<Entry<V>>)
    ensures KeySet([e] + o) == {e.key} + KeySet(o)
  {
    var eo := [e] + o;
    forall x | x in KeySet(eo)
      ensures x in {e.key} + KeySet(o)
    {
      var i :| 0 <= i < |eo| && eo[i].key == x;
      if i > 0 { assert o[i - 1].key == x; }
    }
    forall x | x in KeySet(o)
      ensures x in KeySet(eo)
    {
      var i :| 0 <= i < |o| && o[i].key == x;
      assert eo[i + 1].key == x;
    }
    assert eo[0].key == e.key;
  }

  /** The value stored under `k`, if any (JSON `find`). */
  function Get<V>(o: seq<Entry<V>>, k: Key): (r: Option<V>)
    ensures r.Some? <==> k in KeySet(o)
  {
    if o == [] then None
    else if o[0].key == k then Some(o[0].value)
    else
      assert o == [o[0]] + o[1..];
      KeySetCons(o[0], o[1..]);
      Get(o[1..], k)
  }

  /** The value stored under `k`, or `default` when the key is absent. */
  function GetOr<V>(o: seq<Entry<V>>, k: Key, default: V): V
  {
    match Get(o, k)
    case Some(v) => v
    case None => default
  }

  /** Assigning `o[k] = v`: replaces the value of an existing key, or inserts the key at its place in key order. */
  function Put<V>(o: seq<Entry<V>>, k: Key, v: V): (r: seq<Entry<V>>)
    ensures KeySet(r) == KeySet(o) + {k}
  {
    if o == [] then
      KeySetCons(Entry(k, v), o);
      [Entry(k, v)] + o
    else
      assert o == [o[0]] + o[1..];
      KeySetCons(o[0], o[1..]);
      if o[0].key == k then
        KeySetCons(Entry(k, v), o[1..]);
        [Entry(k, v)] + o[1..]
      else if LexLess(k, o[0].key) then
        KeySetCons(Entry(k, v), o);
        [Entry(k, v)] + o
      else
        KeySetCons(o[0], Put(o[1..], k, v));
        [o[0]] + Put(o[1..], k, v)
  }

  /** A key below the first key of a well-formed object can go in front of it. */
  lemma SortedPrepend<V>(e: Entry<V>, o: seq<Entry<V>>)
    requires Sorted(o) && (o != [] ==> LexLess(e.key, o[0].key))
    ensures Sorted([e] + o)
  {
    var p := [e] + o;
    forall j | 0 < j < |p|
      ensures LexLess(e.key, p[j].key)
    {
      if j > 1 {
        LexLessTransitive(e.key, o[0].key, o[j - 1].key);
      }
    }
  }

  /** A key below every key of a well-formed object can go in front of it. */
  lemma SortedPrependBelowAll<V>(e: Entry<V>, o: seq<Entry<V>>)
    requires Sorted(o) && forall x :: x in KeySet(o) ==> LexLess(e.key, x)
    ensures Sorted([e] + o)
  {
    if o != [] {
      assert o[0].key in KeySet(o);
    }
    SortedPrepend(e, o);
  }

  /** Assignment keeps the object well formed and adds exactly `k` to its keys. */
  lemma {:induction false} PutSorted<V>(o: seq<Entry<V>>, k: Key, v: V)
    requires Sorted(o)
    ensures Sorted(Put(o, k, v))
    ensures KeySet(Put(o, k, v)) == KeySet(o) + {k}
  {
    assert o != [] ==> o == [o[0]] + o[1..];
    if o == [] {
      KeySetCons(Entry(k, v), o);
    } else if o[0].key == k {
      KeySetCons(o[0], o[1..]);
      KeySetCons(Entry(k, v), o[1..]);
      SortedPrepend(Entry(k, v), o[1..]);
    } else if LexLess(k, o[0].key) {
      SortedPrepend(Entry(k, v), o);
      KeySetCons(Entry(k, v), o);
    } else {
      LexLessTotal(k, o[0].key);
      var rest := Put(o[1..], k, v);
      PutSorted(o[1..], k, v);
      forall x | x in KeySet(o[1..])
        ensures LexLess(o[0].key, x)
      {
        var i :| 0 <= i < |o[1..]| && o[1..][i].key == x;
        assert o[i + 1].key == x;
      }
      SortedPrependBelowAll(o[0], rest);
      KeySetCons(o[0], o[1..]);
      KeySetCons(o[0], rest);
    }
  }

  /** After `o[k] = v`, looking up `k` finds `v`. */
  lemma {:induction false} GetPutSame<V>(o: seq<Entry<V>>, k: Key, v: V)
    ensures Get(Put(o, k, v), k) == Some(v)
  {
    if o != [] && o[0].key != k && !LexLess(k, o[0].key) {
      GetPutSame(o[1..], k, v);
    }
  }

  /** After `o[k] = v`, every other key still finds what it found before. */
  lemma {:induction false} GetPutOther<V>(o: seq<Entry<V>>, k: Key, v: V, k': Key)
    requires k' != k
    ensures Get(Put(o, k, v), k') == Get(o, k')
  {
    if o != [] && o[0].key != k && !LexLess(k, o[0].key) {
      GetPutOther(o[1..], k, v, k');
    }
  }

  /** Replacing the value of a key already present keeps every entry where it was. */
  lemma {:induction false} PutExistingInPlace<V>(o: seq<Entry<V>>, k: Key, v: V, i: nat)
    requires Sorted(o)
    requires i < |o| && o[i].key == k
    ensures Put(o, k, v) == o[i := Entry(k, v)]
  {
    if i > 0 {
      assert o[0].key != k by { LexLessIrreflexive(k); }
      assert LexLess(o[0].key, k);
      LexLessAsymmetric(o[0].key, k);
      PutExistingInPlace(o[1..], k, v, i - 1);
    }
  }
}
