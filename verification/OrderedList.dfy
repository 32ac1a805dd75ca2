/** The binary search and the insertion of an ordered list, over any comparison with a key. */
module OrderedList {
  import opened Lists

  /** How a key compares with an element: negative for before, zero for equal. */
  type Comparison<!K, !D> = (K, D) -> int

  /** The comparison never increases along the list, and is zero at most once. */
  ghost predicate Consistent<K, D>(cf: Comparison<K, D>, key: K, items: seq<D>) {
    forall i, j :: 0 <= i < j < |items| ==> Descends(cf(key, items[i]), cf(key, items[j]))
  }

  predicate Descends(a: int, b: int) {
    a > 0 || b < 0
  }

  /** How many elements come before the key. */
  function Place<K, D>(cf: Comparison<K, D>, key: K, items: seq<D>): (p: nat)
    ensures p <= |items|
    ensures forall i :: 0 <= i < p ==> cf(key, items[i]) > 0
    ensures p < |items| ==> cf(key, items[p]) <= 0
  {
    if items == [] || cf(key, items[0]) <= 0 then 0 else 1 + Place(cf, key, items[1..])
  }

  predicate Has<K, D>(cf: Comparison<K, D>, key: K, items: seq<D>) {
    Place(cf, key, items) < |items| && cf(key, items[Place(cf, key, items)]) == 0
  }

  /** The key is there exactly when some element compares equal. */
  lemma HasIffEqual<K, D>(cf: Comparison<K, D>, key: K, items: seq<D>)
    requires Consistent(cf, key, items)
    ensures Has(cf, key, items) <==> exists i :: 0 <= i < |items| && cf(key, items[i]) == 0
  {
    var p := Place(cf, key, items);
    if i :| 0 <= i < |items| && cf(key, items[i]) == 0 {
      assert p < i ==> Descends(cf(key, items[p]), cf(key, items[i]));
    }
  }

  lemma PlaceIs<K, D>(cf: Comparison<K, D>, key: K, items: seq<D>, p: nat)
    requires p <= |items|
    requires forall i :: 0 <= i < p ==> cf(key, items[i]) > 0
    requires p < |items| ==> cf(key, items[p]) <= 0
    ensures Place(cf, key, items) == p
  {
  }

  /** GetIndexFromKey: halving from the middle of the whole list. */
  method GetIndexFromKey<K, D>(cf: Comparison<K, D>, key: K, items: seq<D>) returns (index: nat, objectExists: bool)
    requires Consistent(cf, key, items)
    ensures index == Place(cf, key, items) && objectExists == Has(cf, key, items)
  {
    if |items| == 0 {
      return 0, false;
    }
    var upperBound, lowerBound := |items| - 1, 0;
    index := |items| / 2;
    while true
      invariant 0 <= lowerBound <= index <= upperBound < |items|
      invariant forall i :: 0 <= i < lowerBound ==> cf(key, items[i]) > 0
      invariant forall i :: upperBound < i < |items| ==> cf(key, items[i]) < 0
      decreases upperBound - lowerBound
    {
      var res := cf(key, items[index]);
      if res == 0 {
        forall i | 0 <= i < index
          ensures cf(key, items[i]) > 0
        {
          assert Descends(cf(key, items[i]), cf(key, items[index]));
        }
        PlaceIs(cf, key, items, index);
        return index, true;
      } else if res < 0 {
        forall i | index < i < |items|
          ensures cf(key, items[i]) < 0
        {
          assert Descends(cf(key, items[index]), cf(key, items[i]));
        }
        upperBound := index - 1;
      } else {
        forall i | 0 <= i < index
          ensures cf(key, items[i]) > 0
        {
          assert Descends(cf(key, items[i]), cf(key, items[index]));
        }
        lowerBound := index + 1;
      }
      if lowerBound > upperBound {
        PlaceIs(cf, key, items, lowerBound);
        return lowerBound, false;
      }
      index := lowerBound + (upperBound - lowerBound) / 2;
    }
  }

  /** An equal element stays alone; otherwise the new one goes to its place. */
  function Inserted<K, D>(cf: Comparison<K, D>, key: K, data: D, items: seq<D>): seq<D> {
    if Has(cf, key, items) then items
    else InsertedAt(items, Place(cf, key, items), data)
  }

  method Insert<K, D>(cf: Comparison<K, D>, key: K, data: D, items: seq<D>) returns (r: seq<D>)
    requires Consistent(cf, key, items)
    ensures r == Inserted(cf, key, data, items)
  {
    var index, objectExists := GetIndexFromKey(cf, key, items);
    if objectExists {
      return items;
    }
    if index >= |items| {
      r := items + [data];
    } else {
      r := InsertedAt(items, index, data);
    }
  }
}
