/** The ordered map from group addresses as its elements in key order, with find, emplace and erase. */
module OrderedMap {
  import opened GroupAddress
  import opened Outcomes

  datatype Entry<V> = Entry(key: Address, value: V)

  predicate Sorted<V>(es: seq<Entry<V>>)
  {
    forall i, j :: 0 <= i < j < |es| ==> Less(es[i].key, es[j].key)
  }

  predicate HasKey<V>(es: seq<Entry<V>>, key: Address)
  {
    exists i :: 0 <= i < |es| && es[i].key == key
  }

  /** The first position whose key is not less. */
  function LowerBound<V>(es: seq<Entry<V>>, key: Address): (n: nat)
    ensures n <= |es|
    ensures forall i :: 0 <= i < n ==> Less(es[i].key, key)
    ensures n < |es| ==> !Less(es[n].key, key)
  {
    if es == [] || !Less(es[0].key, key) then 0 else 1 + LowerBound(es[1..], key)
  }

  predicate FoundAt<V>(es: seq<Entry<V>>, key: Address, n: nat)
  {
    n < |es| && !Less(key, es[n].key)
  }

  function Find<V>(es: seq<Entry<V>>, key: Address): (found: Option<nat>)
    ensures found.Some? ==> found.value < |es|
  {
    var n := LowerBound(es, key);
    if FoundAt(es, key, n) then Some(n) else None
  }

  /** The elements after emplace; an existing key keeps its value. */
  function Emplace<V>(es: seq<Entry<V>>, key: Address, value: V): seq<Entry<V>>
  {
    var n := LowerBound(es, key);
    if FoundAt(es, key, n) then es else es[..n] + [Entry(key, value)] + es[n..]
  }

  function Erase<V>(es: seq<Entry<V>>, key: Address): seq<Entry<V>>
  {
    var n := LowerBound(es, key);
    if FoundAt(es, key, n) then es[..n] + es[n + 1..] else es
  }

  /** Find, by order alone, finds exactly the element with that key. */
  lemma FindExactly<V>(es: seq<Entry<V>>, key: Address)
    requires Sorted(es)
    ensures Find(es, key).Some? <==> HasKey(es, key)
    ensures Find(es, key).Some? ==> Find(es, key).value < |es| && es[Find(es, key).value].key == key
  {
    var n := LowerBound(es, key);
    if n < |es| {
      OrderAgreesWithEquality(es[n].key, key);
    }
    if HasKey(es, key) {
      var i :| 0 <= i < |es| && es[i].key == key;
      assert i >= n;
    }
  }

  lemma LowerBoundUnique<V>(es: seq<Entry<V>>, key: Address, n: nat)
    requires Sorted(es) && n <= |es|
    requires forall i :: 0 <= i < n ==> Less(es[i].key, key)
    requires n < |es| ==> !Less(es[n].key, key)
    ensures LowerBound(es, key) == n
  {
  }

  lemma AboveLowerBound<V>(es: seq<Entry<V>>, key: Address)
    requires Sorted(es) && !HasKey(es, key)
    ensures forall i :: LowerBound(es, key) <= i < |es| ==> Less(key, es[i].key)
  {
    var n := LowerBound(es, key);
    forall i | n <= i < |es|
      ensures Less(key, es[i].key)
    {
      OrderAgreesWithEquality(es[n].key, key);
      assert i == n || Less(es[n].key, es[i].key);
    }
  }

  lemma Irreflexive(key: Address)
    ensures !Less(key, key)
  {
  }

  lemma EmplaceNew<V>(es: seq<Entry<V>>, key: Address, value: V)
    requires Sorted(es) && !HasKey(es, key)
    ensures Sorted(Emplace(es, key, value))
    ensures var n := LowerBound(es, key); Emplace(es, key, value) == es[..n] + [Entry(key, value)] + es[n..]
    ensures Erase(Emplace(es, key, value), key) == es
  {
    hide Less;
    var n := LowerBound(es, key);
    Irreflexive(key);
    FindExactly(es, key);
    AboveLowerBound(es, key);
    var after := es[..n] + [Entry(key, value)] + es[n..];
    assert Sorted(after);
    LowerBoundUnique(after, key, n);
    assert after[..n] + after[n + 1..] == es;
  }

  lemma EraseSorted<V>(es: seq<Entry<V>>, key: Address)
    requires Sorted(es)
    ensures Sorted(Erase(es, key)) && !HasKey(Erase(es, key), key)
  {
    FindExactly(es, key);
    var n := LowerBound(es, key);
    if FoundAt(es, key, n) {
      forall i | 0 <= i < |Erase(es, key)|
        ensures Erase(es, key)[i].key != key
      {
        assert i < n ==> Less(es[i].key, es[n].key);
        assert i >= n ==> Less(es[n].key, es[i + 1].key);
      }
    }
  }

  /** Every element of the result comes from the map, and only the key's own is gone. */
  lemma EraseMembers<V>(es: seq<Entry<V>>, key: Address, e: Entry<V>)
    requires Sorted(es)
    ensures e in Erase(es, key) <==> e in es && e.key != key
  {
    FindExactly(es, key);
    EraseSorted(es, key);
    var n := LowerBound(es, key);
    if FoundAt(es, key, n) {
      assert es == es[..n] + [es[n]] + es[n + 1..];
    }
  }

  lemma EmplaceMembers<V>(es: seq<Entry<V>>, key: Address, value: V, e: Entry<V>)
    requires Sorted(es) && !HasKey(es, key)
    ensures e in Emplace(es, key, value) <==> e in es || e == Entry(key, value)
  {
    EmplaceNew(es, key, value);
    var n := LowerBound(es, key);
    assert es == es[..n] + es[n..];
  }

  /** In a sorted map a key has one value. */
  lemma KeyDetermines<V>(es: seq<Entry<V>>, i: nat, j: nat)
    requires Sorted(es) && i < |es| && j < |es| && es[i].key == es[j].key
    ensures i == j
  {
  }
}
