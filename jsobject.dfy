/**
 * JavaScript objects with string keys, as the source uses them for headers, variable
 * sets, the environment table and collection items: a list of (key, value) entries in
 * insertion order, which is the order `Object.entries`, `Object.keys` and
 * `JSON.stringify` report.
 */
module JsObject {
  import opened Wrappers

  type Object<V> = seq<(string, V)>

  /** `Object.keys(o)`. */
  function Keys<V>(o: Object<V>): seq<string>
  {
    seq(|o|, i requires 0 <= i < |o| => o[i].0)
  }

  /** A well-formed object: no key occurs twice. */
  predicate UniqueKeys<V>(o: Object<V>)
  {
    forall i, j :: 0 <= i < j < |o| ==> o[i].0 != o[j].0
  }

  /** `o[k]`, with None for a key that is not present. */
  function Get<V>(o: Object<V>, k: string): (r: Option<V>)
    ensures r.Some? <==> k in Keys(o)
    ensures r.Some? ==> (k, r.value) in o
  {
    if o == [] then None
    else
      KeysCons(o);
      if o[0].0 == k then Some(o[0].1) else Get(o[1..], k)
  }

  lemma KeysCons<V>(o: Object<V>)
    requires o != []
    ensures Keys(o) == [o[0].0] + Keys(o[1..])
  {
  }

  /** In a well-formed object every entry is what a lookup of its key finds. */
  lemma {:induction false} GetEntry<V>(o: Object<V>, i: nat)
    requires UniqueKeys(o) && i < |o|
    ensures Get(o, o[i].0) == Some(o[i].1)
  {
    if i > 0 {
      GetEntry(o[1..], i - 1);
    }
  }

  /** `o[k] = v`: overwrite in place when `k` is present, otherwise append at the end. */
  function Put<V>(o: Object<V>, k: string, v: V): (r: Object<V>)
    ensures Get(r, k) == Some(v)
    ensures forall k' :: k' != k ==> Get(r, k') == Get(o, k')
    ensures Keys(r) == if k in Keys(o) then Keys(o) else Keys(o) + [k]
    ensures UniqueKeys(o) ==> UniqueKeys(r)
  {
    if o == [] then [(k, v)]
    else if o[0].0 == k then
      PutHere(o, k, v);
      [(k, v)] + o[1..]
    else
      var rest := Put(o[1..], k, v);
      PutLater(o, k, v, rest);
      [o[0]] + rest
  }

  /** The key is the first entry's: its value is replaced where it stands. */
  lemma PutHere<V>(o: Object<V>, k: string, v: V)
    requires o != [] && o[0].0 == k
    ensures var r := [(k, v)] + o[1..];
      && Get(r, k) == Some(v)
      && (forall k' :: k' != k ==> Get(r, k') == Get(o, k'))
      && Keys(r) == Keys(o) && k in Keys(o)
      && (UniqueKeys(o) ==> UniqueKeys(r))
  {
    Cons((k, v), o[1..]);
    Cons(o[0], o[1..]);
    assert o == [o[0]] + o[1..];
  }

  /** The key is further on: the first entry stays in front of the rest's update. */
  lemma PutLater<V>(o: Object<V>, k: string, v: V, rest: Object<V>)
    requires o != [] && o[0].0 != k
    requires Get(rest, k) == Some(v)
    requires forall k' :: k' != k ==> Get(rest, k') == Get(o[1..], k')
    requires Keys(rest) == if k in Keys(o[1..]) then Keys(o[1..]) else Keys(o[1..]) + [k]
    requires UniqueKeys(o[1..]) ==> UniqueKeys(rest)
    ensures var r := [o[0]] + rest;
      && Get(r, k) == Some(v)
      && (forall k' :: k' != k ==> Get(r, k') == Get(o, k'))
      && Keys(r) == (if k in Keys(o) then Keys(o) else Keys(o) + [k])
      && (UniqueKeys(o) ==> UniqueKeys(r))
  {
    PutLaterGet(o, k, v, rest);
    PutLaterKeys(o, k, rest);
    PutLaterUnique(o, k, rest);
  }

  lemma PutLaterGet<V>(o: Object<V>, k: string, v: V, rest: Object<V>)
    requires o != [] && o[0].0 != k
    requires Get(rest, k) == Some(v)
    requires forall k' :: k' != k ==> Get(rest, k') == Get(o[1..], k')
    ensures Get([o[0]] + rest, k) == Some(v)
    ensures forall k' :: k' != k ==> Get([o[0]] + rest, k') == Get(o, k')
  {
    Cons(o[0], rest);
    Cons(o[0], o[1..]);
    assert o == [o[0]] + o[1..];
  }

  lemma PutLaterUnique<V>(o: Object<V>, k: string, rest: Object<V>)
    requires o != [] && o[0].0 != k
    requires Keys(rest) == if k in Keys(o[1..]) then Keys(o[1..]) else Keys(o[1..]) + [k]
    requires UniqueKeys(o[1..]) ==> UniqueKeys(rest)
    ensures UniqueKeys(o) ==> UniqueKeys([o[0]] + rest)
  {
    Cons(o[0], rest);
    Cons(o[0], o[1..]);
    assert o == [o[0]] + o[1..];
  }

  lemma PutLaterKeys<V>(o: Object<V>, k: string, rest: Object<V>)
    requires o != [] && o[0].0 != k
    requires Keys(rest) == if k in Keys(o[1..]) then Keys(o[1..]) else Keys(o[1..]) + [k]
    ensures Keys([o[0]] + rest) == (if k in Keys(o) then Keys(o) else Keys(o) + [k])
  {
    Cons(o[0], rest);
    KeysCons(o);
    assert k in Keys(o) <==> k in Keys(o[1..]);
    if k !in Keys(o[1..]) {
      assert [o[0].0] + (Keys(o[1..]) + [k]) == ([o[0].0] + Keys(o[1..])) + [k];
    }
  }

  /** What an object with one more entry in front looks like. */
  lemma Cons<V>(e: (string, V), rest: Object<V>)
    ensures Keys([e] + rest) == [e.0] + Keys(rest)
    ensures forall k :: Get([e] + rest, k) == if e.0 == k then Some(e.1) else Get(rest, k)
    ensures UniqueKeys([e] + rest) <==> UniqueKeys(rest) && e.0 !in Keys(rest)
  {
    var o := [e] + rest;
    assert o[1..] == rest;
    KeysCons(o);
    if UniqueKeys(rest) && e.0 !in Keys(rest) {
      forall i, j | 0 <= i < j < |o| ensures o[i].0 != o[j].0 {
        if i == 0 {
          assert Keys(rest)[j - 1] == o[j].0;
        } else {
          assert o[i] == rest[i - 1] && o[j] == rest[j - 1];
        }
      }
    }
    if UniqueKeys(o) {
      forall j | 0 <= j < |rest| ensures Keys(rest)[j] != e.0 {
        assert o[j + 1] == rest[j];
      }
    }
  }

  /** `delete o[k]`: every entry with key `k` goes, the others keep their order. */
  function Remove<V>(o: Object<V>, k: string): (r: Object<V>)
    ensures Get(r, k) == None
    ensures forall k' :: k' != k ==> Get(r, k') == Get(o, k')
    ensures k !in Keys(o) ==> r == o
    ensures UniqueKeys(o) ==> UniqueKeys(r)
  {
    if o == [] then []
    else
      KeysCons(o);
      var rest := Remove(o[1..], k);
      if o[0].0 == k then rest
      else
        var r := [o[0]] + rest;
        KeysCons(r);
        assert r[1..] == rest;
        assert UniqueKeys(o) ==> forall j :: 0 <= j < |rest| ==> rest[j].0 != o[0].0 by {
          if UniqueKeys(o) {
            assert o[0].0 !in Keys(o[1..]);
            assert Get(rest, o[0].0) == None;
            forall j | 0 <= j < |rest| ensures rest[j].0 != o[0].0 {
              assert Keys(rest)[j] == rest[j].0;
            }
          }
        }
        r
  }

  /** In a well-formed object, deleting a present key removes exactly its one entry. */
  lemma {:induction false} RemoveEntry<V>(o: Object<V>, i: nat)
    requires UniqueKeys(o) && i < |o|
    ensures Remove(o, o[i].0) == o[..i] + o[i + 1..]
  {
    UniqueTail(o);
    if i == 0 {
      RemoveFirst(o);
    } else {
      assert o[1..][i - 1] == o[i];
      RemoveEntry(o[1..], i - 1);
      RemoveLater(o, i);
    }
  }

  lemma UniqueTail<V>(o: Object<V>)
    requires UniqueKeys(o) && o != []
    ensures UniqueKeys(o[1..]) && o[0].0 !in Keys(o[1..])
  {
    var tail := o[1..];
    forall a, b | 0 <= a < b < |tail| ensures tail[a].0 != tail[b].0 {
      assert tail[a] == o[a + 1] && tail[b] == o[b + 1];
    }
    forall j | 0 <= j < |tail| ensures Keys(tail)[j] != o[0].0 {
      assert tail[j] == o[j + 1];
    }
  }

  lemma RemoveFirst<V>(o: Object<V>)
    requires o != [] && o[0].0 !in Keys(o[1..])
    ensures Remove(o, o[0].0) == o[1..]
  {
  }

  lemma RemoveLater<V>(o: Object<V>, i: nat)
    requires 0 < i < |o| && o[0].0 != o[i].0
    requires Remove(o[1..], o[i].0) == o[1..][..i - 1] + o[1..][i..]
    ensures Remove(o, o[i].0) == o[..i] + o[i + 1..]
  {
    var k := o[i].0;
    assert Remove(o, k) == [o[0]] + Remove(o[1..], k);
    DropOne(o, i);
  }

  /** Dropping entry `i > 0` is keeping the first and dropping entry `i - 1` of the rest. */
  lemma DropOne<T>(o: seq<T>, i: nat)
    requires 0 < i < |o|
    ensures [o[0]] + (o[1..][..i - 1] + o[1..][i..]) == o[..i] + o[i + 1..]
  {
    assert o[1..][..i - 1] == o[1..i];
    assert o[1..][i..] == o[i + 1..];
    assert o[..i] == [o[0]] + o[1..i];
  }

  /** The value of the last entry with key `k`: the one that wins when entries are assigned in order. */
  function LastGet<V>(u: Object<V>, k: string): Option<V>
  {
    if u == [] then None
    else if u[|u| - 1].0 == k then Some(u[|u| - 1].1)
    else LastGet(u[..|u| - 1], k)
  }

  /**
   * `{...o, ...u}`, and also the effect of `o[k] = v` for each entry of `u` in turn:
   * a key of `u` that `o` already has keeps its position and takes the last value `u`
   * gives it; a new key is appended where it first occurs.
   */
  function Spread<V>(o: Object<V>, u: Object<V>): (r: Object<V>)
    ensures forall k :: Get(r, k) == if LastGet(u, k).Some? then LastGet(u, k) else Get(o, k)
    ensures forall k :: k in Keys(r) <==> k in Keys(o) || k in Keys(u)
    ensures Keys(o) <= Keys(r)
    ensures UniqueKeys(o) ==> UniqueKeys(r)
  {
    if u == [] then o
    else
      var init := u[..|u| - 1];
      var last := u[|u| - 1];
      assert Keys(u) == Keys(init) + [last.0];
      Put(Spread(o, init), last.0, last.1)
  }

  /** Entries assigned later never move the keys already placed: each key stays where it first appeared. */
  lemma {:induction false} SpreadKeysGrow<V>(o: Object<V>, u: Object<V>, i: nat)
    requires i <= |u|
    ensures Keys(Spread(o, u[..i])) <= Keys(Spread(o, u))
    decreases |u|
  {
    if i < |u| {
      var init := u[..|u| - 1];
      assert u[..i] == init[..i];
      SpreadKeysGrow(o, init, i);
    } else {
      assert u[..i] == u;
    }
  }

  /** For a well-formed object the last entry with a key is its only one. */
  lemma {:induction false} LastGetUnique<V>(u: Object<V>, k: string)
    requires UniqueKeys(u)
    ensures LastGet(u, k) == Get(u, k)
  {
    if u != [] {
      var init := u[..|u| - 1];
      var last := u[|u| - 1];
      LastGetUnique(init, k);
      if last.0 == k {
        assert k !in Keys(init) by {
          forall j | 0 <= j < |init| ensures init[j].0 != k {
            assert init[j] == u[j];
          }
        }
        GetEntry(u, |u| - 1);
      } else {
        GetAppend(init, last, k);
        assert init + [last] == u;
      }
    }
  }

  lemma {:induction false} GetAppend<V>(o: Object<V>, e: (string, V), k: string)
    requires e.0 != k
    ensures Get(o + [e], k) == Get(o, k)
  {
    if o == [] {
      assert Get([e], k) == Get([e][1..], k);
    } else {
      assert (o + [e])[1..] == o[1..] + [e];
      GetAppend(o[1..], e, k);
    }
  }
}
