/** A JavaScript `Map` as its entries in iteration order: a new key goes last, an overwrite stays in place. */
module InsertionMap {
  import opened Wrappers
  import opened Recency
  import opened Sequences

  datatype Slot<V> = Slot(key: string, value: V)

  function Keys<V>(m: seq<Slot<V>>): (r: seq<string>)
    ensures |r| == |m| && forall i :: 0 <= i < |m| ==> r[i] == m[i].key
  {
    Map((x: Slot<V>) => x.key, m)
  }

  function Get<V>(m: seq<Slot<V>>, key: string): Option<V> {
    if m == [] then None
    else if m[0].key == key then Some(m[0].value)
    else Get(m[1..], key)
  }

  function Delete<V>(m: seq<Slot<V>>, key: string): seq<Slot<V>> {
    if m == [] then []
    else if m[0].key == key then Delete(m[1..], key)
    else [m[0]] + Delete(m[1..], key)
  }

  function Put<V>(m: seq<Slot<V>>, key: string, value: V): (r: seq<Slot<V>>)
    ensures r != [] && |m| <= |r| <= |m| + 1
  {
    if m == [] then [Slot(key, value)]
    else if m[0].key == key then [Slot(key, value)] + m[1..]
    else [m[0]] + Put(m[1..], key, value)
  }

  lemma {:induction false} GetMeaning<V(!new)>(m: seq<Slot<V>>, key: string)
    ensures Get(m, key).Some? <==> key in Keys(m)
    ensures Get(m, key).Some? ==> Slot(key, Get(m, key).value) in m
  {
    if m == [] {
    } else {
      GetMeaning(m[1..], key);
    }
  }

  lemma KeysCons<V(!new)>(x: Slot<V>, m: seq<Slot<V>>)
    ensures Keys([x] + m) == [x.key] + Keys(m)
    ensures ([x.key] + Keys(m))[1..] == Keys(m)
  {
  }

  lemma {:induction false} DeleteMeaning<V(!new)>(m: seq<Slot<V>>, key: string)
    ensures Keys(Delete(m, key)) == Remove(Keys(m), key)
    ensures forall x :: x in Delete(m, key) <==> x in m && x.key != key
  {
    if m == [] {
    } else {
      DeleteMeaning(m[1..], key);
      KeysCons(m[0], m[1..]);
      KeysCons(m[0], Delete(m[1..], key));
      assert m == [m[0]] + m[1..];
    }
  }

  /** Deleting the first key of a map without repeated keys drops the first entry. */
  lemma DeleteFirst<V(!new)>(m: seq<Slot<V>>)
    requires m != [] && Distinct(Keys(m))
    ensures Keys(Delete(m, m[0].key)) == Keys(m)[1..]
  {
    var key, rest := m[0].key, Keys(m)[1..];
    DeleteMeaning(m, key);
    assert Keys(m) == [key] + rest;
    forall i | 0 <= i < |rest| ensures rest[i] != key {
      assert Keys(m)[i + 1] == rest[i];
    }
    RemoveAbsent(rest, key);
  }

  lemma {:induction false} PutMeaning<V(!new)>(m: seq<Slot<V>>, key: string, value: V)
    ensures Keys(Put(m, key, value)) == if key in Keys(m) then Keys(m) else Keys(m) + [key]
    ensures forall x :: x in Put(m, key, value) ==> x == Slot(key, value) || x in m
    ensures Get(Put(m, key, value), key) == Some(value)
  {
    if m == [] {
    } else {
      var rest := Put(m[1..], key, value);
      PutMeaning(m[1..], key, value);
      assert m == [m[0]] + m[1..];
      KeysCons(m[0], m[1..]);
      if m[0].key == key {
        KeysCons(Slot(key, value), m[1..]);
      } else {
        assert ([m[0]] + rest)[1..] == rest;
        KeysCons(m[0], rest);
        assert [m[0].key] + (Keys(m[1..]) + [key]) == Keys(m) + [key];
      }
    }
  }

  /** After a `set` the key has the new value and no other. */
  lemma {:induction false} PutReplaces<V(!new)>(m: seq<Slot<V>>, key: string, value: V)
    requires Distinct(Keys(m))
    ensures forall x :: x in Put(m, key, value) && x.key == key ==> x.value == value
  {
    if m == [] {
    } else {
      assert Keys(m)[1..] == Keys(m[1..]);
      if m[0].key == key {
        forall x | x in m[1..] ensures x.key != key {
          var i :| 0 <= i < |m| - 1 && m[1..][i] == x;
          assert Keys(m)[0] != Keys(m)[i + 1];
        }
      } else {
        PutReplaces(m[1..], key, value);
      }
    }
  }
}
