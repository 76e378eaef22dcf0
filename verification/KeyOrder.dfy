/** Python's `sorted` on sets of distinct keys: the strictly increasing sequence of their elements. */
module KeyOrder {

  /** A strict total order. */
  ghost predicate IsStrictOrder<T(!new)>(less: (T, T) -> bool) {
    && (forall a :: !less(a, a))
    && (forall a, b :: a == b || less(a, b) || less(b, a))
    && (forall a, b, c :: less(a, b) && less(b, c) ==> less(a, c))
  }

  predicate IsLeast<T(==)>(less: (T, T) -> bool, keys: set<T>, k: T) {
    k in keys && forall j | j in keys :: j == k || less(k, j)
  }

  lemma {:induction false} LeastExists<T(!new)>(less: (T, T) -> bool, keys: set<T>) returns (k: T)
    requires IsStrictOrder(less) && keys != {}
    ensures IsLeast(less, keys, k)
    decreases |keys|
  {
    k :| k in keys;
    var rest := keys - {k};
    if rest != {} {
      var least := LeastExists(less, rest);
      if less(least, k) {
        assert keys == rest + {k};
        k := least;
      } else {
        assert forall j | j in keys && j != k :: j in rest;
      }
    } else {
      assert keys == {k};
    }
  }

  function Least<T(!new, ==)>(less: (T, T) -> bool, keys: set<T>): (k: T)
    requires IsStrictOrder(less) && keys != {}
    ensures IsLeast(less, keys, k)
  {
    assert exists j :: IsLeast(less, keys, j) by {
      var j := LeastExists(less, keys);
    }
    var j :| j in keys && IsLeast(less, keys, j);
    j
  }

  function SortedKeys<T(!new, ==)>(less: (T, T) -> bool, keys: set<T>): (sorted: seq<T>)
    requires IsStrictOrder(less)
    ensures |sorted| == |keys|
    ensures forall k :: k in sorted <==> k in keys
    decreases |keys|
  {
    if keys == {} then []
    else
      var k := Least(less, keys);
      [k] + SortedKeys(less, keys - {k})
  }

  predicate IsIncreasing<T>(less: (T, T) -> bool, s: seq<T>) {
    forall i, j | 0 <= i < j < |s| :: less(s[i], s[j])
  }

  lemma {:induction false} SortedIsIncreasing<T(!new)>(less: (T, T) -> bool, keys: set<T>)
    requires IsStrictOrder(less)
    ensures IsIncreasing(less, SortedKeys(less, keys))
    decreases |keys|
  {
    if keys == {} {
    } else {
      var k := Least(less, keys);
      var rest := SortedKeys(less, keys - {k});
      SortedIsIncreasing(less, keys - {k});
      assert forall j | 0 <= j < |rest| :: rest[j] in rest;
    }
  }

  /** Only one increasing sequence has these elements. */
  lemma {:induction false} IncreasingIsUnique<T(!new)>(less: (T, T) -> bool, a: seq<T>, b: seq<T>)
    requires IsStrictOrder(less) && IsIncreasing(less, a) && IsIncreasing(less, b)
    requires forall k :: k in a <==> k in b
    ensures a == b
    decreases |a|
  {
    if a == [] {
      assert forall i | 0 <= i < |b| :: b[i] in b;
    } else {
      assert a[0] in b && b != [];
      assert b[0] in a;
      var i :| 0 <= i < |a| && a[i] == b[0];
      var j :| 0 <= j < |b| && b[j] == a[0];
      assert a[0] == b[0];
      TailElements(less, a);
      TailElements(less, b);
      IncreasingIsUnique(less, a[1..], b[1..]);
      assert a == [a[0]] + a[1..] && b == [b[0]] + b[1..];
    }
  }

  lemma TailElements<T(!new)>(less: (T, T) -> bool, a: seq<T>)
    requires IsStrictOrder(less) && IsIncreasing(less, a) && a != []
    ensures IsIncreasing(less, a[1..])
    ensures forall k :: k in a[1..] <==> k in a && k != a[0]
  {
    var tail := a[1..];
    forall k ensures k in tail <==> k in a && k != a[0] {
      if k in tail {
        var i :| 0 <= i < |tail| && tail[i] == k;
        assert less(a[0], a[i + 1]);
      }
      if k in a && k != a[0] {
        var i :| 0 <= i < |a| && a[i] == k;
        assert tail[i - 1] == k;
      }
    }
  }

  // ---------------------------------------------------------------- text

  /** Lexicographic order by code point. */
  predicate StringLess(a: string, b: string) {
    b != "" && (a == "" || a[0] < b[0] || (a[0] == b[0] && StringLess(a[1..], b[1..])))
  }

  lemma {:induction false} StringIrreflexive(a: string)
    ensures !StringLess(a, a)
  {
    if a != "" {
      StringIrreflexive(a[1..]);
    }
  }

  lemma {:induction false} StringTotal(a: string, b: string)
    ensures a == b || StringLess(a, b) || StringLess(b, a)
  {
    if a != "" && b != "" {
      StringTotal(a[1..], b[1..]);
      assert a == [a[0]] + a[1..] && b == [b[0]] + b[1..];
    }
  }

  lemma {:induction false} StringTransitive(a: string, b: string, c: string)
    ensures StringLess(a, b) && StringLess(b, c) ==> StringLess(a, c)
  {
    if a != "" && b != "" && c != "" {
      StringTransitive(a[1..], b[1..], c[1..]);
    }
  }

  lemma StringsAreOrdered()
    ensures IsStrictOrder(StringLess)
  {
    hide StringLess;
    forall a { StringIrreflexive(a); }
    forall a, b { StringTotal(a, b); }
    forall a, b, c { StringTransitive(a, b, c); }
  }

  /** Pairs of strings, first component first. */
  predicate PairLess(a: (string, string), b: (string, string)) {
    StringLess(a.0, b.0) || (a.0 == b.0 && StringLess(a.1, b.1))
  }

  lemma PairsAreOrdered()
    ensures IsStrictOrder(PairLess)
  {
    hide StringLess;
    forall a: (string, string) ensures !PairLess(a, a) {
      StringIrreflexive(a.0);
      StringIrreflexive(a.1);
    }
    forall a: (string, string), b: (string, string) ensures a == b || PairLess(a, b) || PairLess(b, a) {
      StringTotal(a.0, b.0);
      StringTotal(a.1, b.1);
    }
    forall a: (string, string), b: (string, string), c: (string, string)
      ensures PairLess(a, b) && PairLess(b, c) ==> PairLess(a, c)
    {
      StringTransitive(a.0, b.0, c.0);
      StringTransitive(a.1, b.1, c.1);
    }
  }

  // ---------------------------------------------------------------- dictionaries filled by key

  /** The dictionary of items by key: a later item with the same key replaces an earlier one. */
  function ByKey<T>(key: T -> string, items: seq<T>): map<string, T> {
    if items == [] then map[] else ByKey(key, items[..|items| - 1])[key(items[|items| - 1]) := items[|items| - 1]]
  }

  lemma ByKeySteps<T>(key: T -> string, items: seq<T>, item: T)
    ensures ByKey(key, items + [item]) == ByKey(key, items)[key(item) := item]
  {
    assert (items + [item])[..|items|] == items;
  }

  /** Every item's key is in the dictionary, which holds one of the items under each key. */
  lemma {:induction false} ByKeyHolds<T>(key: T -> string, items: seq<T>)
    ensures forall k | k in ByKey(key, items) :: key(ByKey(key, items)[k]) == k && ByKey(key, items)[k] in items
    ensures forall x | x in items :: key(x) in ByKey(key, items)
  {
    if items != [] {
      var before := items[..|items| - 1];
      ByKeyHolds(key, before);
      assert items == before + [items[|items| - 1]];
    }
  }

  /** `tuple(m[key] for key in sorted(m))` */
  function InKeyOrder<V>(m: map<string, V>): (values: seq<V>)
    ensures |values| == |m|
  {
    StringsAreOrdered();
    var keys := SortedKeys(StringLess, m.Keys);
    seq(|keys|, i requires 0 <= i < |keys| => (assert keys[i] in keys; m[keys[i]]))
  }

  /** Exactly the dictionary's values are listed. */
  lemma ListsValues<V>(m: map<string, V>)
    ensures forall k | k in m :: m[k] in InKeyOrder(m)
    ensures forall v | v in InKeyOrder(m) :: exists k | k in m :: m[k] == v
  {
    hide StringLess;
    StringsAreOrdered();
    var keys, values := SortedKeys(StringLess, m.Keys), InKeyOrder(m);
    forall k | k in m ensures m[k] in values {
      assert k in keys;
      var i :| 0 <= i < |keys| && keys[i] == k;
      assert values[i] == m[k];
    }
    forall v | v in values ensures exists k | k in m :: m[k] == v {
      var i :| 0 <= i < |values| && values[i] == v;
      assert keys[i] in keys && m[keys[i]] == v;
    }
  }

  function KeysOf<T>(key: T -> string, items: seq<T>): (keys: seq<string>)
    ensures |keys| == |items| && forall i | 0 <= i < |items| :: keys[i] == key(items[i])
  {
    seq(|items|, i requires 0 <= i < |items| => key(items[i]))
  }

  /** A dictionary that holds every value under its own key is listed in strictly increasing key order, each key
    * once.
    */
  lemma KeyedListIncreases<T>(key: T -> string, keyed: map<string, T>)
    requires forall k | k in keyed :: key(keyed[k]) == k
    ensures IsIncreasing(StringLess, KeysOf(key, InKeyOrder(keyed)))
    ensures forall k :: k in KeysOf(key, InKeyOrder(keyed)) <==> k in keyed
  {
    hide StringLess;
    StringsAreOrdered();
    SortedIsIncreasing(StringLess, keyed.Keys);
    var keys, listed := SortedKeys(StringLess, keyed.Keys), InKeyOrder(keyed);
    forall i | 0 <= i < |listed| ensures key(listed[i]) == keys[i] {
      assert keys[i] in keys && listed[i] == keyed[keys[i]];
    }
    assert KeysOf(key, listed) == keys;
  }

  /** Dictionaries filled from items are listed in strictly increasing key order. */
  lemma ListedKeysIncrease<T>(key: T -> string, items: seq<T>)
    ensures IsIncreasing(StringLess, KeysOf(key, InKeyOrder(ByKey(key, items))))
  {
    ByKeyHolds(key, items);
    KeyedListIncreases(key, ByKey(key, items));
  }
}
