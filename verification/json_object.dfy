/**
 * A JSON object as its ordered list of (key, value) entries.
 *
 * Keys keep insertion order: assigning to an existing key updates it in place,
 * assigning to a new key appends it, and `delete` removes it. This is
 * JavaScript's order for keys that are not integer-like; JavaScript lists
 * integer-like keys first, in ascending numeric order, which this model does
 * not. Every operation here keeps keys unique when they were.
 */
module JsonObject {
  import opened Options

  type Obj<V> = seq<(string, V)>

  /** `Object.keys(o)`. */
  function Keys<V>(o: Obj<V>): seq<string> {
    if |o| == 0 then [] else [o[0].0] + Keys(o[1..])
  }

  predicate Has<V>(o: Obj<V>, k: string) {
    k in Keys(o)
  }

  predicate UniqueKeys<V>(o: Obj<V>) {
    |o| == 0 || (!Has(o[1..], o[0].0) && UniqueKeys(o[1..]))
  }

  /** `o[k]`, or `None` for `undefined`. */
  function Get<V>(o: Obj<V>, k: string): (r: Option<V>)
    ensures r.Some? <==> Has(o, k)
    ensures r.Some? ==> (k, r.value) in o
  {
    if |o| == 0 then None
    else if o[0].0 == k then Some(o[0].1)
    else Get(o[1..], k)
  }

  /** `o[k] = v`: updates the entry in place, or appends a new one. */
  function Put<V>(o: Obj<V>, k: string, v: V): (r: Obj<V>)
    ensures Get(r, k) == Some(v)
    ensures forall k' {:trigger Get(r, k')} :: k' != k ==> Get(r, k') == Get(o, k')
    ensures !Has(o, k) ==> r == o + [(k, v)]
  {
    if |o| == 0 then [(k, v)]
    else if o[0].0 == k then [(k, v)] + o[1..]
    else
      var rest := Put(o[1..], k, v);
      assert ([o[0]] + rest)[1..] == rest;
      assert (o + [(k, v)])[1..] == o[1..] + [(k, v)];
      [o[0]] + rest
  }

  /** Updating a key that is present keeps the key list. */
  lemma {:induction false} PutKeepsKeys<V>(o: Obj<V>, k: string, v: V)
    ensures Has(o, k) ==> Keys(Put(o, k, v)) == Keys(o)
  {
    if |o| > 0 && o[0].0 != k {
      PutKeepsKeys(o[1..], k, v);
      assert Put(o, k, v)[1..] == Put(o[1..], k, v);
    }
  }

  /** Every entry after a write is an old entry or the written one. */
  lemma {:induction false} PutEntries<V>(o: Obj<V>, k: string, v: V)
    ensures forall e :: e in Put(o, k, v) ==> e in o || e == (k, v)
  {
    if |o| > 0 && o[0].0 != k {
      PutEntries(o[1..], k, v);
      assert Put(o, k, v) == [o[0]] + Put(o[1..], k, v);
    }
  }

  lemma {:induction false} PutKeepsUniqueKeys<V>(o: Obj<V>, k: string, v: V)
    ensures UniqueKeys(o) ==> UniqueKeys(Put(o, k, v))
  {
    if UniqueKeys(o) && |o| > 0 && o[0].0 != k {
      PutKeepsUniqueKeys(o[1..], k, v);
      var rest := Put(o[1..], k, v);
      assert Put(o, k, v)[1..] == rest;
      assert Get(rest, o[0].0) == Get(o[1..], o[0].0);
    }
  }

  /** `delete o[k]`: removes the entry, leaving every other entry in order. */
  function Delete<V>(o: Obj<V>, k: string): (r: Obj<V>)
    ensures Get(r, k) == None
    ensures forall k' {:trigger Get(r, k')} :: k' != k ==> Get(r, k') == Get(o, k')
    ensures !Has(o, k) ==> r == o
    ensures |r| <= |o|
    ensures UniqueKeys(o) ==> UniqueKeys(r)
    ensures forall e :: e in r ==> e in o
  {
    if |o| == 0 then []
    else if o[0].0 == k then Delete(o[1..], k)
    else
      var rest := Delete(o[1..], k);
      assert ([o[0]] + rest)[1..] == rest;
      assert Get(rest, o[0].0) == Get(o[1..], o[0].0);
      [o[0]] + rest
  }

  /** Writing back the value a key already holds leaves the object as it was. */
  lemma {:induction false} PutExisting<V>(o: Obj<V>, k: string)
    requires Has(o, k)
    ensures Put(o, k, Get(o, k).value) == o
  {
    if o[0].0 != k {
      PutExisting(o[1..], k);
    }
  }

  /** A second write to the same key overrides the first, in place. */
  lemma {:induction false} PutPut<V>(o: Obj<V>, k: string, a: V, b: V)
    ensures Put(Put(o, k, a), k, b) == Put(o, k, b)
  {
    if |o| > 0 && o[0].0 != k {
      PutPut(o[1..], k, a, b);
    }
  }

  /** Deleting a key that was just appended restores the object. */
  lemma {:induction false} DeleteAppended<V>(o: Obj<V>, k: string, v: V)
    requires !Has(o, k)
    ensures Delete(o + [(k, v)], k) == o
  {
    if |o| == 0 {
      assert Delete([(k, v)], k) == Delete([(k, v)][1..], k);
    } else {
      assert (o + [(k, v)])[1..] == o[1..] + [(k, v)];
      DeleteAppended(o[1..], k, v);
    }
  }
}
