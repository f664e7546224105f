/**
 * A Python `dict[str, list[T]]` as the merge uses it: keys kept in first-insertion order, and
 * `d.setdefault(k, []).extend(vs)` as the only update.
 */
module Ordered {

  /** Keys in insertion order, and the list stored under each key. */
  datatype ListDict<T> = ListDict(keys: seq<string>, lists: map<string, seq<T>>) {

    /** Exactly the listed keys are stored. */
    ghost predicate Listed() {
      forall k :: k in lists <==> k in keys
    }

    /** Each key is listed once, and exactly the listed keys are stored. */
    ghost predicate Valid() {
      && (forall i, j :: 0 <= i < j < |keys| ==> keys[i] != keys[j])
      && Listed()
    }

    /** The list under `k`, or the empty list when `k` was never inserted. */
    function Get(k: string): seq<T> {
      if k in lists then lists[k] else []
    }

    /**
     * `setdefault(k, []).extend(vs)`: a key not yet in the dictionary goes to the end of the key
     * order, and the list under `k` grows by `vs`.
     */
    function Extend(k: string, vs: seq<T>): ListDict<T>
    {
      ListDict(if k in lists then keys else keys + [k], lists[k := Get(k) + vs])
    }
  }

  /** The list under `k` grows by `vs` and every other list is unchanged. */
  lemma ExtendSpec<T>(d: ListDict<T>, k: string, vs: seq<T>)
    ensures d.Extend(k, vs).Get(k) == d.Get(k) + vs
    ensures forall k' :: k' != k ==> d.Extend(k, vs).Get(k') == d.Get(k')
  {
  }

  /**
   * On a well-formed dictionary a new key goes to the end of the key order and an existing key
   * keeps its place; each key stays listed once and exactly the listed keys stay stored.
   */
  lemma ExtendValid<T>(d: ListDict<T>, k: string, vs: seq<T>)
    requires d.Valid()
    ensures d.Extend(k, vs).keys == if k in d.keys then d.keys else d.keys + [k]
    ensures d.Extend(k, vs).Valid()
  {
  }

  /** When exactly the listed keys are stored, extending lists `k` besides the keys listed before. */
  lemma ExtendListed<T>(d: ListDict<T>, k: string, vs: seq<T>)
    requires d.Listed()
    ensures forall t :: t in d.Extend(k, vs).keys <==> t in d.keys || t == k
    ensures d.Extend(k, vs).Listed()
  {
  }

  /** The empty dictionary `{}`. */
  function Empty<T>(): (d: ListDict<T>)
    ensures d.Valid() && d.keys == [] && forall k :: d.Get(k) == []
  {
    ListDict([], map[])
  }
}
