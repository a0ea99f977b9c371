/**
 * The browser's `window.localStorage`: a string-to-string map whose keys can
 * also be enumerated by index with `key(i)`.  The enumeration order is up to
 * the browser; this model fixes it as insertion order, with a removed key
 * dropping out and the remaining keys keeping their order.
 */
module Storage {
  import opened Options

  /** No key is listed twice. */
  predicate DistinctKeys(keys: seq<string>)
  {
    forall i, j :: 0 <= i < j < |keys| ==> keys[i] != keys[j]
  }

  /** `keys` without `k`; the other keys keep their order. */
  function RemoveKey(keys: seq<string>, k: string): (r: seq<string>)
    ensures forall x :: x in r <==> x in keys && x != k
    ensures |r| <= |keys|
  {
    if keys == [] then []
    else if keys[0] == k then RemoveKey(keys[1..], k)
    else [keys[0]] + RemoveKey(keys[1..], k)
  }

  lemma {:induction false} RemoveKeyDistinct(keys: seq<string>, k: string)
    requires DistinctKeys(keys)
    ensures DistinctKeys(RemoveKey(keys, k))
  {
    if keys != [] {
      RemoveKeyDistinct(keys[1..], k);
      assert keys[0] !in keys[1..] by {
        forall j | 0 <= j < |keys[1..]| ensures keys[1..][j] != keys[0] {
          assert keys[1..][j] == keys[j + 1];
        }
      }
    }
  }

  /** Removing a key that is absent changes nothing. */
  lemma {:induction false} RemoveAbsentKey(keys: seq<string>, k: string)
    requires k !in keys
    ensures RemoveKey(keys, k) == keys
  {
    if keys != [] {
      RemoveAbsentKey(keys[1..], k);
    }
  }

  /** With distinct keys, removing the key at index `i` closes the gap at `i`. */
  lemma {:induction false} RemoveKeyAt(keys: seq<string>, i: nat)
    requires DistinctKeys(keys) && i < |keys|
    ensures RemoveKey(keys, keys[i]) == keys[..i] + keys[i + 1..]
  {
    if i == 0 {
      RemoveAbsentKey(keys[1..], keys[0]);
    } else {
      RemoveKeyAt(keys[1..], i - 1);
      assert keys[1..][i - 1] == keys[i];
      assert keys[..i] == [keys[0]] + keys[1..][..i - 1];
      assert keys[i + 1..] == keys[1..][i..];
    }
  }

  class LocalStorage {
    /** The keys in the order `key(i)` returns them. */
    var keys: seq<string>
    var items: map<string, string>

    ghost predicate Valid()
      reads this
    {
      DistinctKeys(keys) && (forall k :: k in items <==> k in keys)
    }

    constructor ()
      ensures Valid() && keys == [] && items == map[]
    {
      keys := [];
      items := map[];
    }

    /** `getItem(key)`: `None` is `null`. */
    function GetItem(key: string): (r: Option<string>)
      reads this
      ensures r.Some? <==> key in items
      ensures r.Some? ==> r.value == items[key]
    {
      if key in items then Some(items[key]) else None
    }

    /** `length`. */
    function Length(): (n: nat)
      reads this
      ensures n == |keys|
    {
      |keys|
    }

    /** `setItem(key, value)`: a new key goes to the end of the enumeration order. */
    method SetItem(key: string, value: string)
      requires Valid()
      modifies this
      ensures Valid()
      ensures items == old(items)[key := value]
      ensures keys == if key in old(items) then old(keys) else old(keys) + [key]
    {
      if key !in items {
        keys := keys + [key];
      }
      items := items[key := value];
    }

    /** `removeItem(key)`: nothing happens when the key is absent. */
    method RemoveItem(key: string)
      requires Valid()
      modifies this
      ensures Valid()
      ensures items == old(items) - {key}
      ensures keys == RemoveKey(old(keys), key)
    {
      RemoveKeyDistinct(keys, key);
      keys := RemoveKey(keys, key);
      items := items - {key};
    }
  }
}
