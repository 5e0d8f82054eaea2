/** Plain JavaScript objects used as string-keyed dictionaries whose key order
    matters (`Object.keys`, `for … in`): an association list in insertion order.
    `SetProperty` and `DeleteProperty` are the store's copy-on-write helpers. */
module JsObject {
  import opened Wrappers
  import opened Seqs

  type Obj<V> = seq<(string, V)>

  /** `Object.keys(o)`. */
  function Keys<V>(o: Obj<V>): seq<string> {
    Firsts(o)
  }

  /** Keys are distinct, as in any JavaScript object. */
  predicate Wf<V>(o: Obj<V>) {
    NoDup(Keys(o))
  }

  predicate Has<V>(o: Obj<V>, k: string) {
    k in Keys(o)
  }

  /** `o[k]`, `None` for a missing key. */
  function Get<V>(o: Obj<V>, k: string): (r: Option<V>)
    ensures r.Some? <==> Has(o, k)
    ensures r.Some? ==> exists i :: 0 <= i < |o| && o[i] == (k, r.value)
  {
    if |o| == 0 then None
    else if o[0].0 == k then Some(o[0].1)
    else Get(o[1..], k)
  }

  /** In an object with distinct keys, the value at a position is the one
      `Get` finds for its key. */
  lemma {:induction false} GetAt<V>(o: Obj<V>, i: int)
    requires Wf(o) && 0 <= i < |o|
    ensures Get(o, o[i].0) == Some(o[i].1)
  {
    if i > 0 {
      var ks := Keys(o);
      assert ks[0] == o[0].0 && ks[i] == o[i].0;
      assert Keys(o[1..]) == ks[1..];
      GetAt(o[1..], i - 1);
    }
  }

  /** Replaces the value of an existing key in place. */
  function Replace<V>(o: Obj<V>, k: string, v: V): (r: Obj<V>)
    ensures Keys(r) == Keys(o)
  {
    if |o| == 0 then []
    else if o[0].0 == k then [(k, v)] + Replace(o[1..], k, v)
    else [o[0]] + Replace(o[1..], k, v)
  }

  /** Drops every entry for `k`. */
  function Without<V>(o: Obj<V>, k: string): (r: Obj<V>)
    ensures Keys(r) == Remove(Keys(o), k)
  {
    if |o| == 0 then []
    else if o[0].0 == k then Without(o[1..], k)
    else [o[0]] + Without(o[1..], k)
  }

  lemma GetReplace<V>(o: Obj<V>, k: string, v: V, q: string)
    requires Has(o, k)
    ensures Get(Replace(o, k, v), q) == if q == k then Some(v) else Get(o, q)
  {
    if |o| > 0 && o[0].0 != k {
      GetReplace(o[1..], k, v, q);
    } else if |o| > 0 && q != k && Has(o[1..], k) {
      GetReplace(o[1..], k, v, q);
    } else if |o| > 0 && q != k {
      ReplaceAbsent(o[1..], k, v);
    }
  }

  lemma ReplaceAbsent<V>(o: Obj<V>, k: string, v: V)
    requires !Has(o, k)
    ensures Replace(o, k, v) == o
  {
    if |o| > 0 {
      ReplaceAbsent(o[1..], k, v);
    }
  }

  lemma GetAppend<V>(o: Obj<V>, k: string, v: V, q: string)
    requires !Has(o, k)
    ensures Get(o + [(k, v)], q) == if q == k then Some(v) else Get(o, q)
  {
    if |o| > 0 {
      assert (o + [(k, v)])[1..] == o[1..] + [(k, v)];
      GetAppend(o[1..], k, v, q);
    }
  }

  lemma GetWithout<V>(o: Obj<V>, k: string, q: string)
    ensures Get(Without(o, k), q) == if q == k then None else Get(o, q)
  {
    if |o| > 0 {
      GetWithout(o[1..], k, q);
    }
  }

  /** `setProperty(object, key, value)`: the same object when the key already
      holds the value; otherwise a copy where only `key` differs, an existing
      key keeping its position and a new key going last. */
  function SetProperty<V(==)>(o: Obj<V>, k: string, v: V): (r: Obj<V>)
    ensures Get(o, k) == Some(v) ==> r == o
    ensures Get(r, k) == Some(v)
    ensures forall q :: q != k ==> Get(r, q) == Get(o, q)
    ensures Keys(r) == Add(Keys(o), k)
    ensures Wf(o) ==> Wf(r)
  {
    if Get(o, k) == Some(v) then o
    else if Has(o, k) then
      var r := Replace(o, k, v);
      assert forall q :: Get(r, q) == if q == k then Some(v) else Get(o, q) by {
        forall q ensures Get(r, q) == if q == k then Some(v) else Get(o, q) {
          GetReplace(o, k, v, q);
        }
      }
      r
    else
      var r := o + [(k, v)];
      assert Keys(r) == Keys(o) + [k];
      assert forall q :: Get(r, q) == if q == k then Some(v) else Get(o, q) by {
        forall q ensures Get(r, q) == if q == k then Some(v) else Get(o, q) {
          GetAppend(o, k, v, q);
        }
      }
      r
  }

  /** `deleteProperty(object, key)`: the same object when the key is absent;
      otherwise a copy without `key` in which every other key is unchanged. */
  function DeleteProperty<V>(o: Obj<V>, k: string): (r: Obj<V>)
    ensures !Has(o, k) ==> r == o
    ensures !Has(r, k)
    ensures forall q :: q != k ==> Get(r, q) == Get(o, q)
    ensures Keys(r) == Remove(Keys(o), k)
    ensures Wf(o) ==> Wf(r)
  {
    if !Has(o, k) then
      assert Remove(Keys(o), k) == Keys(o);
      o
    else
      var r := Without(o, k);
      assert forall q :: q != k ==> Get(r, q) == Get(o, q) by {
        forall q | q != k ensures Get(r, q) == Get(o, q) {
          GetWithout(o, k, q);
        }
      }
      r
  }

  /** `mapValues(object, fn)`: same keys in the same order, each value mapped. */
  function MapValues<V, W>(o: Obj<V>, f: V -> W): (r: Obj<W>)
    ensures Keys(r) == Keys(o)
    ensures forall i :: 0 <= i < |o| ==> r[i] == (o[i].0, f(o[i].1))
  {
    if |o| == 0 then [] else [(o[0].0, f(o[0].1))] + MapValues(o[1..], f)
  }

  lemma GetMapValues<V, W>(o: Obj<V>, f: V -> W, q: string)
    ensures Get(MapValues(o, f), q) == match Get(o, q) case None => None case Some(v) => Some(f(v))
  {
    if |o| > 0 {
      GetMapValues(o[1..], f, q);
    }
  }

  /** Mapping and mapping back with an inverse gives the object back. */
  lemma MapValuesInverse<V, W>(o: Obj<V>, f: V -> W, g: W -> V)
    requires forall i :: 0 <= i < |o| ==> g(f(o[i].1)) == o[i].1
    ensures MapValues(MapValues(o, f), g) == o
  {
  }
}
