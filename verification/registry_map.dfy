/** A JavaScript `Map` built from an entry list, held as its entries in
    insertion order: `new Map(entries)` calls `map.set` once per listed
    entry, so a repeated key keeps its first position and takes its last value. */
module RegistryMap {
  import opened Addresses

  /** One table row: the key text, the address it denotes, the prefix length
      and the range's name. */
  datatype Entry = Entry(key: string, base: Address, prefix: int, name: string)

  function Keys(es: seq<Entry>): set<string>
  {
    set e | e in es :: e.key
  }

  predicate DistinctKeys(es: seq<Entry>)
  {
    forall i, j :: 0 <= i < j < |es| ==> es[i].key != es[j].key
  }

  /** Position of the first entry with key k. */
  function FirstIndex(es: seq<Entry>, k: string): (r: nat)
    requires k in Keys(es)
    ensures r < |es| && es[r].key == k
    ensures forall t :: 0 <= t < r ==> es[t].key != k
  {
    if es[0].key == k then 0 else 1 + FirstIndex(es[1..], k)
  }

  /** The last entry with key k. */
  function LastWith(es: seq<Entry>, k: string): (r: Entry)
    requires k in Keys(es)
    ensures r in es && r.key == k
  {
    var init, e := es[..|es| - 1], es[|es| - 1];
    assert es == init + [e];
    if e.key == k then e else LastWith(init, k)
  }

  /** `map.set(e.key, e)` on a Map held as its entries in insertion order:
      a present key keeps its position and takes the new value, a new key
      goes last. */
  function Insert(m: seq<Entry>, e: Entry): (r: seq<Entry>)
    requires DistinctKeys(m)
    ensures DistinctKeys(r)
    ensures Keys(r) == Keys(m) + {e.key}
    ensures e.key in Keys(m) ==>
      |r| == |m| && forall i :: 0 <= i < |m| ==> r[i] == (if m[i].key == e.key then e else m[i])
    ensures e.key !in Keys(m) ==> r == m + [e]
  {
    if e.key in Keys(m) then
      var at := FirstIndex(m, e.key);
      KeysUpdate(m, at, e);
      m[at := e]
    else
      KeysAppend(m, e);
      m + [e]
  }

  /** Replacing an entry by one with the same key keeps the key set. */
  lemma KeysUpdate(m: seq<Entry>, at: nat, e: Entry)
    requires at < |m| && m[at].key == e.key
    ensures Keys(m[at := e]) == Keys(m)
  {
    var r := m[at := e];
    forall k | k in Keys(r)
      ensures k in Keys(m)
    {
      var x :| x in r && x.key == k;
      var i :| 0 <= i < |r| && r[i] == x;
      assert m[i] in m;
    }
    forall k | k in Keys(m)
      ensures k in Keys(r)
    {
      var x :| x in m && x.key == k;
      var i :| 0 <= i < |m| && m[i] == x;
      assert r[i] in r;
    }
  }

  /** `new Map(entries)`: the listed entries inserted in order, so every
      key appears once (see `FromEntriesLastValues` and `FromEntriesFirstOrder`
      for which value it holds and where it sits). */
  function FromEntries(es: seq<Entry>): (r: seq<Entry>)
    ensures DistinctKeys(r)
    ensures Keys(r) == Keys(es)
  {
    if es == [] then []
    else
      var init, e := es[..|es| - 1], es[|es| - 1];
      assert init + [e] == es;
      KeysAppend(init, e);
      Insert(FromEntries(init), e)
  }

  /** Every entry of m is the last listing of its key in es. */
  predicate LastValues(m: seq<Entry>, es: seq<Entry>)
  {
    forall i :: 0 <= i < |m| ==> m[i].key in Keys(es) && m[i] == LastWith(es, m[i].key)
  }

  /** The keys of m are in the order of their first listing in es. */
  predicate FirstOrder(m: seq<Entry>, es: seq<Entry>)
  {
    forall i, j :: 0 <= i < j < |m| ==>
      m[i].key in Keys(es) && m[j].key in Keys(es) &&
      FirstIndex(es, m[i].key) < FirstIndex(es, m[j].key)
  }

  /** Each key of the Map holds the value of its last listing. */
  lemma {:induction false} FromEntriesLastValues(es: seq<Entry>)
    ensures LastValues(FromEntries(es), es)
  {
    if es != [] {
      var init, e := es[..|es| - 1], es[|es| - 1];
      assert init + [e] == es;
      var m := FromEntries(init);
      FromEntriesLastValues(init);
      assert LastValues(m, init);
      InsertKeepsLastValues(init, e, m);
      assert FromEntries(es) == Insert(m, e);
    }
  }

  /** The Map's keys are in the order of their first listing. */
  lemma {:induction false} FromEntriesFirstOrder(es: seq<Entry>)
    ensures FirstOrder(FromEntries(es), es)
  {
    if es != [] {
      var init, e := es[..|es| - 1], es[|es| - 1];
      assert init + [e] == es;
      var m := FromEntries(init);
      FromEntriesFirstOrder(init);
      assert FirstOrder(m, init);
      InsertKeepsFirstOrder(init, e, m);
      assert FromEntries(es) == Insert(m, e);
    }
  }

  lemma KeysAppend(init: seq<Entry>, e: Entry)
    ensures Keys(init + [e]) == Keys(init) + {e.key}
  {
    forall k | k in Keys(init + [e])
      ensures k in Keys(init) + {e.key}
    {
      var x :| x in init + [e] && x.key == k;
      if x != e {
        assert x in init;
      }
    }
    forall k | k in Keys(init)
      ensures k in Keys(init + [e])
    {
      var x :| x in init && x.key == k;
      assert x in init + [e];
    }
    assert e in init + [e];
  }

  lemma FirstIndexAppend(init: seq<Entry>, e: Entry, k: string)
    requires k in Keys(init)
    ensures k in Keys(init + [e]) && FirstIndex(init + [e], k) == FirstIndex(init, k)
  {
    KeysAppend(init, e);
    var b := FirstIndex(init, k);
    assert (init + [e])[b] == init[b];
  }

  lemma FirstIndexNewKey(init: seq<Entry>, e: Entry)
    requires e.key !in Keys(init)
    ensures e.key in Keys(init + [e]) && FirstIndex(init + [e], e.key) == |init|
  {
    KeysAppend(init, e);
  }

  lemma LastWithAppend(init: seq<Entry>, e: Entry, k: string)
    requires k in Keys(init) || k == e.key
    ensures k in Keys(init + [e])
    ensures LastWith(init + [e], k) == if k == e.key then e else LastWith(init, k)
  {
    KeysAppend(init, e);
    assert (init + [e])[..|init|] == init;
  }

  lemma InsertKeepsLastValues(init: seq<Entry>, e: Entry, m: seq<Entry>)
    requires DistinctKeys(m) && Keys(m) == Keys(init)
    requires LastValues(m, init)
    ensures LastValues(Insert(m, e), init + [e])
  {
    var es, r := init + [e], Insert(m, e);
    forall i | 0 <= i < |r|
      ensures r[i].key in Keys(es) && r[i] == LastWith(es, r[i].key)
    {
      if i < |m| && m[i].key != e.key {
        LastWithAppend(init, e, m[i].key);
      } else {
        LastWithAppend(init, e, e.key);
      }
    }
  }

  lemma InsertKeepsFirstOrder(init: seq<Entry>, e: Entry, m: seq<Entry>)
    requires DistinctKeys(m) && Keys(m) == Keys(init)
    requires FirstOrder(m, init)
    ensures FirstOrder(Insert(m, e), init + [e])
  {
    var es, r := init + [e], Insert(m, e);
    KeysAppend(init, e);
    forall i, j | 0 <= i < j < |r|
      ensures r[i].key in Keys(es) && r[j].key in Keys(es)
      ensures FirstIndex(es, r[i].key) < FirstIndex(es, r[j].key)
    {
      assert r[i] in r && r[j] in r;
      if e.key in Keys(m) {
        assert r[i].key == m[i].key && r[j].key == m[j].key;
        FirstIndexAppend(init, e, m[i].key);
        FirstIndexAppend(init, e, m[j].key);
      } else {
        FirstIndexAppend(init, e, m[i].key);
        if j < |m| {
          FirstIndexAppend(init, e, m[j].key);
        } else {
          FirstIndexNewKey(init, e);
        }
      }
    }
  }

  /** Every entry of a built Map is one of the listed entries. */
  lemma MapEntriesFromList(es: seq<Entry>)
    ensures forall e | e in FromEntries(es) :: e in es
  {
    FromEntriesLastValues(es);
    var r := FromEntries(es);
    forall e | e in r
      ensures e in es
    {
      var i :| 0 <= i < |r| && r[i] == e;
    }
  }

  /** The entry at j is the last one with key k. */
  lemma {:induction false} LastWithAt(es: seq<Entry>, j: nat, k: string)
    requires j < |es| && es[j].key == k
    requires forall t :: j < t < |es| ==> es[t].key != k
    ensures k in Keys(es) && LastWith(es, k) == es[j]
    decreases |es|
  {
    assert es[j] in es;
    var init := es[..|es| - 1];
    if j < |es| - 1 {
      assert init[j] == es[j] && init[j] in init;
      LastWithAt(init, j, k);
    }
  }

  /** The entry at j is the first one with key k. */
  lemma FirstIndexAt(es: seq<Entry>, j: nat, k: string)
    requires j < |es| && es[j].key == k
    requires forall t :: 0 <= t < j ==> es[t].key != k
    ensures k in Keys(es) && FirstIndex(es, k) == j
  {
    assert es[j] in es;
  }

  /** In a built Map, the entry for key k is the last listed entry with key k. */
  lemma MapValueOfKey(es: seq<Entry>, k: string)
    requires k in Keys(es)
    ensures forall e | e in FromEntries(es) && e.key == k :: e == LastWith(es, k)
  {
    FromEntriesLastValues(es);
    var r := FromEntries(es);
    forall e | e in r && e.key == k
      ensures e == LastWith(es, k)
    {
      var i :| 0 <= i < |r| && r[i] == e;
    }
  }
}
