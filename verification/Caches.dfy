/**
The two byte-bounded caches: `ResourceCache` keeps the newest entry first and
evicts from the end; `LayerCache` keeps the newest last and evicts the smallest
timestamp.
*/
module Caches {
  import opened Wrappers
  import opened Seqs

  /** A URL, or a layer id. */
  type Key = string

  datatype Entry = Entry(key: Key, data: seq<int>, stamp: nat)

  function Size(e: Entry): nat { |e.data| }

  ghost function Total(es: seq<Entry>): nat {
    if es == [] then 0 else Size(es[0]) + Total(es[1..])
  }

  ghost predicate DistinctKeys(es: seq<Entry>) {
    forall i, j :: 0 <= i < j < |es| ==> es[i].key != es[j].key
  }

  ghost predicate HasKey(es: seq<Entry>, k: Key) {
    exists i :: 0 <= i < |es| && es[i].key == k
  }

  /** Remove the first entry with the key, if there is one. */
  ghost function RemoveKey(es: seq<Entry>, k: Key): seq<Entry> {
    if es == [] then []
    else if es[0].key == k then es[1..]
    else [es[0]] + RemoveKey(es[1..], k)
  }

  lemma {:induction false} TotalConcat(a: seq<Entry>, b: seq<Entry>)
    ensures Total(a + b) == Total(a) + Total(b)
  {
    if a == [] {
      assert a + b == b;
    } else {
      assert (a + b)[1..] == a[1..] + b;
      TotalConcat(a[1..], b);
    }
  }

  lemma {:induction false} TotalDropAt(es: seq<Entry>, i: nat)
    requires i < |es|
    ensures Total(DropAt(es, i)) == Total(es) - Size(es[i])
  {
    var r := DropAt(es, i);
    if i == 0 {
      assert r == es[1..];
    } else {
      TotalDropAt(es[1..], i - 1);
      assert r[0] == es[0] && r[1..] == DropAt(es[1..], i - 1);
    }
  }

  lemma {:induction false} RemoveKeyAt(es: seq<Entry>, k: Key, i: nat)
    requires i < |es| && es[i].key == k && forall j :: 0 <= j < i ==> es[j].key != k
    ensures RemoveKey(es, k) == DropAt(es, i)
  {
    if i > 0 {
      RemoveKeyAt(es[1..], k, i - 1);
      assert [es[0]] + (es[1..][..i - 1] + es[1..][i..]) == es[..i] + es[i + 1..];
    } else {
      assert es[..0] + es[1..] == es[1..];
    }
  }

  lemma {:induction false} RemoveMissing(es: seq<Entry>, k: Key)
    requires forall j :: 0 <= j < |es| ==> es[j].key != k
    ensures RemoveKey(es, k) == es
  {
    if es != [] { RemoveMissing(es[1..], k); }
  }

  lemma {:induction false} RemoveKeyShrinks(es: seq<Entry>, k: Key)
    ensures Total(RemoveKey(es, k)) <= Total(es) && |RemoveKey(es, k)| <= |es|
  {
    if es != [] && es[0].key != k {
      RemoveKeyShrinks(es[1..], k);
      assert ([es[0]] + RemoveKey(es[1..], k))[1..] == RemoveKey(es[1..], k);
    }
  }

  lemma {:induction false} RemoveKeyContents(es: seq<Entry>, k: Key)
    requires DistinctKeys(es)
    ensures DistinctKeys(RemoveKey(es, k))
    ensures forall e :: e in RemoveKey(es, k) <==> e in es && e.key != k
  {
    if i :| 0 <= i < |es| && es[i].key == k {
      RemoveKeyAt(es, k, i);
      DropAtContents(es, i);
    } else {
      RemoveMissing(es, k);
    }
  }

  lemma DropAtContents(es: seq<Entry>, i: nat)
    requires DistinctKeys(es) && i < |es|
    ensures DistinctKeys(DropAt(es, i))
    ensures forall e :: e in DropAt(es, i) <==> e in es && e.key != es[i].key
  {
    var r := DropAt(es, i);
    assert forall j :: 0 <= j < |r| ==> r[j] == if j < i then es[j] else es[j + 1];
    forall e | e in es && e.key != es[i].key ensures e in r {
      var j :| 0 <= j < |es| && es[j] == e;
      assert r[if j < i then j else j - 1] == e;
    }
  }

  // ----- ResourceCache -----

  /** Pop entries from the end until the new one fits or nothing is left. */
  ghost function EvictLast(es: seq<Entry>, size: nat, max: nat): seq<Entry> {
    if es != [] && Total(es) + size > max then EvictLast(es[..|es| - 1], size, max) else es
  }

  ghost function Store(es: seq<Entry>, e: Entry, max: nat): seq<Entry> {
    [e] + RemoveKey(EvictLast(es, Size(e), max), e.key)
  }

  /** Eviction keeps the longest prefix that leaves room. */
  lemma {:induction false} EvictLastIs(es: seq<Entry>, size: nat, max: nat)
    ensures var r := EvictLast(es, size, max);
      r <= es && (r == [] || Total(r) + size <= max) &&
      forall n :: |r| < n <= |es| ==> Total(es[..n]) + size > max
  {
    if es != [] && Total(es) + size > max {
      var init := es[..|es| - 1];
      EvictLastIs(init, size, max);
      var r := EvictLast(es, size, max);
      forall n | |r| < n <= |es| ensures Total(es[..n]) + size > max {
        if n < |es| { assert es[..n] == init[..n]; } else { assert es[..n] == es; }
      }
    }
  }

  ghost predicate Sound(es: seq<Entry>, max: nat) {
    DistinctKeys(es) && (Total(es) <= max || |es| == 1)
  }

  /** The log of stores gives every cached entry: a hit is the latest data stored for its key. */
  ghost predicate Current(es: seq<Entry>, latest: map<Key, Entry>) {
    forall e :: e in es ==> e.key in latest && latest[e.key] == e
  }

  lemma StoreKeeps(es: seq<Entry>, e: Entry, max: nat, latest: map<Key, Entry>)
    requires Sound(es, max) && Current(es, latest)
    ensures Sound(Store(es, e, max), max) && Current(Store(es, e, max), latest[e.key := e])
  {
    hide DistinctKeys, Total, RemoveKey;
    var kept := EvictLast(es, Size(e), max);
    EvictLastIs(es, Size(e), max);
    PrefixKeeps(kept, es);
    StoreTail(kept, e, max);
    RemoveKeyContents(kept, e.key);
    CurrentAfter(kept, RemoveKey(kept, e.key), e, latest);
  }

  lemma PrefixKeeps(kept: seq<Entry>, es: seq<Entry>)
    requires kept <= es
    ensures DistinctKeys(es) ==> DistinctKeys(kept)
    ensures forall x :: x in kept ==> x in es
  {
    forall x | x in kept ensures x in es {
      var i :| 0 <= i < |kept| && kept[i] == x;
      assert es[i] == x;
    }
  }

  lemma CurrentAfter(kept: seq<Entry>, rest: seq<Entry>, e: Entry, latest: map<Key, Entry>)
    requires Current(kept, latest) && forall x :: x in rest <==> x in kept && x.key != e.key
    ensures Current([e] + rest, latest[e.key := e]) && Current(rest + [e], latest[e.key := e])
  {
  }

  /** What both caches do after evicting: drop the key's old entry, add the new one. */
  lemma StoreTail(kept: seq<Entry>, e: Entry, max: nat)
    requires DistinctKeys(kept) && (kept == [] || Total(kept) + Size(e) <= max)
    ensures Sound([e] + RemoveKey(kept, e.key), max) && Sound(RemoveKey(kept, e.key) + [e], max)
  {
    var rest := RemoveKey(kept, e.key);
    RemoveKeyContents(kept, e.key);
    RemoveKeyShrinks(kept, e.key);
    AddedDistinct(rest, e);
    AddedTotal(rest, e);
    if kept == [] {
      assert rest == [];
      assert |[e] + rest| == 1 && |rest + [e]| == 1;
    }
  }

  lemma AddedDistinct(rest: seq<Entry>, e: Entry)
    requires DistinctKeys(rest) && forall x :: x in rest ==> x.key != e.key
    ensures DistinctKeys([e] + rest) && DistinctKeys(rest + [e])
  {
    assert forall i :: 0 <= i < |rest| ==> rest[i] in rest;
  }

  lemma AddedTotal(rest: seq<Entry>, e: Entry)
    ensures Total([e] + rest) == Total(rest) + Size(e) && Total(rest + [e]) == Total(rest) + Size(e)
  {
    TotalConcat([e], rest);
    TotalConcat(rest, [e]);
    assert Total([e]) == Size(e) + Total([]);
  }

  lemma RemoveKeeps(es: seq<Entry>, k: Key, max: nat, latest: map<Key, Entry>)
    requires Sound(es, max) && Current(es, latest)
    ensures Sound(RemoveKey(es, k), max) && Current(RemoveKey(es, k), latest)
  {
    hide DistinctKeys;
    RemoveKeyContents(es, k);
    RemoveKeyShrinks(es, k);
  }

  function SaturatingSub(a: nat, b: nat): nat {
    if a < b then 0 else a - b
  }

  /** `iter().position(..)`. */
  method Position(es: seq<Entry>, k: Key) returns (pos: Option<nat>)
    ensures pos.Some? ==> pos.value < |es| && es[pos.value].key == k
    ensures pos.Some? ==> forall j :: 0 <= j < pos.value ==> es[j].key != k
    ensures pos.None? ==> forall j :: 0 <= j < |es| ==> es[j].key != k
  {
    for i := 0 to |es|
      invariant forall j :: 0 <= j < i ==> es[j].key != k
    {
      if es[i].key == k {
        return Some(i);
      }
    }
    return None;
  }

  class ResourceCache {
    var entries: seq<Entry>
    const maxSize: nat
    var currentSize: nat
    ghost var latest: map<Key, Entry>

    ghost predicate Valid()
      reads this
    {
      currentSize == Total(entries) && Sound(entries, maxSize) && Current(entries, latest)
    }

    constructor (max: nat)
      ensures Valid() && entries == [] && maxSize == max && latest == map[]
    {
      entries, maxSize, currentSize, latest := [], max, 0, map[];
    }

    method Get(k: Key) returns (r: Option<Entry>)
      requires Valid()
      ensures r.None? <==> !HasKey(entries, k)
      ensures r.Some? ==> k in latest && r.value == latest[k] && r.value in entries
    {
      var pos := Position(entries, k);
      r := if pos.Some? then Some(entries[pos.value]) else None;
      if pos.Some? { assert entries[pos.value] in entries; }
    }

    method Put(e: Entry)
      requires Valid()
      modifies this
      ensures Valid() && entries == Store(old(entries), e, maxSize) && latest == old(latest)[e.key := e]
    {
      StoreKeeps(entries, e, maxSize, latest);
      var size := Size(e);
      while currentSize + size > maxSize && entries != []
        invariant currentSize == Total(entries)
        invariant EvictLast(entries, size, maxSize) == EvictLast(old(entries), size, maxSize)
        invariant latest == old(latest)
        decreases |entries|
      {
        var removed := entries[|entries| - 1];
        TotalDropAt(entries, |entries| - 1);
        assert DropAt(entries, |entries| - 1) == entries[..|entries| - 1];
        entries := entries[..|entries| - 1];
        currentSize := SaturatingSub(currentSize, Size(removed));
      }
      RemoveByKey(e.key);
      currentSize := currentSize + size;
      entries := [e] + entries;
      latest := latest[e.key := e];
    }

    method RemoveByKey(k: Key)
      requires currentSize == Total(entries)
      modifies this
      ensures entries == RemoveKey(old(entries), k) && currentSize == Total(entries) && latest == old(latest)
    {
      var pos := Position(entries, k);
      if pos.Some? {
        var removed := entries[pos.value];
        RemoveKeyAt(entries, k, pos.value);
        TotalDropAt(entries, pos.value);
        entries := entries[..pos.value] + entries[pos.value + 1..];
        currentSize := SaturatingSub(currentSize, Size(removed));
      } else {
        RemoveMissing(entries, k);
      }
    }

    method Remove(k: Key)
      requires Valid()
      modifies this
      ensures Valid() && entries == RemoveKey(old(entries), k) && latest == old(latest)
    {
      RemoveKeeps(entries, k, maxSize, latest);
      RemoveByKey(k);
    }

    method Clear()
      requires Valid()
      modifies this
      ensures Valid() && entries == [] && latest == old(latest)
    {
      entries, currentSize := [], 0;
    }
  }

  // ----- LayerCache -----

  /** The first position of the smallest timestamp, as `min_by_key` returns. */
  ghost function Oldest(ls: seq<Entry>): (p: nat)
    requires ls != []
    ensures p < |ls|
    ensures forall j :: 0 <= j < |ls| ==> ls[p].stamp <= ls[j].stamp
    ensures forall j :: 0 <= j < p ==> ls[p].stamp < ls[j].stamp
  {
    if |ls| == 1 then 0 else
    var p := Oldest(ls[..|ls| - 1]);
    if ls[|ls| - 1].stamp < ls[p].stamp then |ls| - 1 else p
  }

  ghost function EvictOldest(ls: seq<Entry>, size: nat, max: nat): seq<Entry>
    decreases |ls|
  {
    if ls != [] && Total(ls) + size > max then EvictOldest(DropAt(ls, Oldest(ls)), size, max) else ls
  }

  ghost function Insert(ls: seq<Entry>, e: Entry, max: nat): seq<Entry> {
    RemoveKey(EvictOldest(ls, Size(e), max), e.key) + [e]
  }

  lemma {:induction false} EvictOldestKeeps(ls: seq<Entry>, size: nat, max: nat, latest: map<Key, Entry>)
    requires DistinctKeys(ls) && Current(ls, latest)
    ensures var r := EvictOldest(ls, size, max);
      DistinctKeys(r) && Current(r, latest) && (r == [] || Total(r) + size <= max)
    decreases |ls|
  {
    if ls != [] && Total(ls) + size > max {
      DropAtContents(ls, Oldest(ls));
      EvictOldestKeeps(DropAt(ls, Oldest(ls)), size, max, latest);
    }
  }

  lemma InsertKeeps(ls: seq<Entry>, e: Entry, max: nat, latest: map<Key, Entry>)
    requires Sound(ls, max) && Current(ls, latest)
    ensures Sound(Insert(ls, e, max), max) && Current(Insert(ls, e, max), latest[e.key := e])
  {
    hide DistinctKeys, Total, RemoveKey, EvictOldest;
    var kept := EvictOldest(ls, Size(e), max);
    EvictOldestKeeps(ls, Size(e), max, latest);
    StoreTail(kept, e, max);
    RemoveKeyContents(kept, e.key);
    CurrentAfter(kept, RemoveKey(kept, e.key), e, latest);
  }

  class LayerCache {
    var layers: seq<Entry>
    const maxSize: nat
    var currentSize: nat
    ghost var latest: map<Key, Entry>

    ghost predicate Valid()
      reads this
    {
      currentSize == Total(layers) && Sound(layers, maxSize) && Current(layers, latest)
    }

    constructor (max: nat)
      ensures Valid() && layers == [] && maxSize == max && latest == map[]
    {
      layers, maxSize, currentSize, latest := [], max, 0, map[];
    }

    method Get(k: Key) returns (r: Option<seq<int>>)
      requires Valid()
      ensures r.None? <==> !HasKey(layers, k)
      ensures r.Some? ==> k in latest && r.value == latest[k].data
    {
      var pos := Position(layers, k);
      r := if pos.Some? then Some(layers[pos.value].data) else None;
      if pos.Some? { assert layers[pos.value] in layers; }
    }

    method Put(e: Entry)
      requires Valid()
      modifies this
      ensures Valid() && layers == Insert(old(layers), e, maxSize) && latest == old(latest)[e.key := e]
    {
      InsertKeeps(layers, e, maxSize, latest);
      var size := Size(e);
      while currentSize + size > maxSize && layers != []
        invariant currentSize == Total(layers)
        invariant EvictOldest(layers, size, maxSize) == EvictOldest(old(layers), size, maxSize)
        invariant latest == old(latest)
        decreases |layers|
      {
        EvictOne();
      }
      Invalidate(e.key);
      layers := layers + [e];
      TotalConcat(layers[..|layers| - 1], [e]);
      assert layers[..|layers| - 1] + [e] == layers && Total([e]) == size + Total([]);
      currentSize := currentSize + size;
      latest := latest[e.key := e];
    }

    method EvictOne()
      requires currentSize == Total(layers)
      modifies this
      ensures layers == if old(layers) == [] then [] else DropAt(old(layers), Oldest(old(layers)))
      ensures currentSize == Total(layers) && latest == old(latest)
    {
      if layers == [] {
        return;
      }
      var pos := 0;
      for i := 1 to |layers|
        invariant pos < i
        invariant forall j :: 0 <= j < i ==> layers[pos].stamp <= layers[j].stamp
        invariant forall j :: 0 <= j < pos ==> layers[pos].stamp < layers[j].stamp
      {
        if layers[i].stamp < layers[pos].stamp {
          pos := i;
        }
      }
      assert pos == Oldest(layers);
      TotalDropAt(layers, pos);
      currentSize := currentSize - Size(layers[pos]);
      layers := DropAt(layers, pos);
    }

    method Invalidate(k: Key)
      requires currentSize == Total(layers)
      modifies this
      ensures layers == RemoveKey(old(layers), k) && currentSize == Total(layers) && latest == old(latest)
      ensures old(Valid()) ==> Valid()
    {
      if Sound(layers, maxSize) && Current(layers, latest) { RemoveKeeps(layers, k, maxSize, latest); }
      var pos := Position(layers, k);
      if pos.Some? {
        RemoveKeyAt(layers, k, pos.value);
        TotalDropAt(layers, pos.value);
        currentSize := currentSize - Size(layers[pos.value]);
        layers := DropAt(layers, pos.value);
      } else {
        RemoveMissing(layers, k);
      }
    }

    method Clear()
      requires Valid()
      modifies this
      ensures Valid() && layers == [] && latest == old(latest)
    {
      layers, currentSize := [], 0;
    }
  }

  // ----- what a store leaves in the cache -----

  /** The entries under other keys, in order. */
  ghost function OtherKeys(es: seq<Entry>, k: Key): seq<Entry> {
    if es == [] then [] else (if es[0].key == k then [] else [es[0]]) + OtherKeys(es[1..], k)
  }

  lemma {:induction false} NoKeyToDrop(es: seq<Entry>, k: Key)
    requires forall i :: 0 <= i < |es| ==> es[i].key != k
    ensures OtherKeys(es, k) == es
  {
    if es != [] { NoKeyToDrop(es[1..], k); }
  }

  lemma {:induction false} RemoveKeyIs(es: seq<Entry>, k: Key)
    requires DistinctKeys(es)
    ensures RemoveKey(es, k) == OtherKeys(es, k)
  {
    if es != [] {
      if es[0].key == k {
        forall i | 0 <= i < |es[1..]| ensures es[1..][i].key != k { assert es[1..][i] == es[i + 1]; }
        NoKeyToDrop(es[1..], k);
        assert [] + es[1..] == es[1..];
      } else {
        RemoveKeyIs(es[1..], k);
      }
    }
  }

  /**
  After a store the resource cache holds the new entry, then the entries under
  other keys among the first `n`, the most that leave room for the new one
  beside the old entry of its key.
  */
  lemma StoreIs(es: seq<Entry>, e: Entry, max: nat) returns (n: nat)
    requires DistinctKeys(es)
    ensures n <= |es| && (n == 0 || Total(es[..n]) + |e.data| <= max)
    ensures forall k :: n < k <= |es| ==> Total(es[..k]) + |e.data| > max
    ensures Store(es, e, max) == [e] + OtherKeys(es[..n], e.key)
  {
    hide Total, DistinctKeys, OtherKeys;
    var kept := EvictLast(es, Size(e), max);
    EvictLastIs(es, Size(e), max);
    n := |kept|;
    assert es[..n] == kept;
    PrefixKeeps(kept, es);
    RemoveKeyIs(kept, e.key);
  }

  /** The layers left when the `n` oldest are gone. */
  ghost function DropOldest(ls: seq<Entry>, n: nat): seq<Entry>
    requires n <= |ls|
  {
    if n == 0 then ls else DropOldest(DropAt(ls, Oldest(ls)), n - 1)
  }

  lemma {:induction false} EvictOldestIs(ls: seq<Entry>, size: nat, max: nat) returns (n: nat)
    ensures n <= |ls| && EvictOldest(ls, size, max) == DropOldest(ls, n)
    ensures n == |ls| || Total(DropOldest(ls, n)) + size <= max
    ensures forall k :: 0 <= k < n ==> Total(DropOldest(ls, k)) + size > max
    decreases |ls|
  {
    hide Total, Oldest;
    n := 0;
    if ls != [] && Total(ls) + size > max {
      var rest := DropAt(ls, Oldest(ls));
      n := EvictOldestIs(rest, size, max);
      n := n + 1;
      forall k | 0 <= k < n ensures Total(DropOldest(ls, k)) + size > max {
        if k > 0 { assert DropOldest(ls, k) == DropOldest(rest, k - 1); }
      }
    }
  }

  /** After an insertion the layer cache holds what is left, under other ids, of the layers without the `n` oldest. */
  lemma InsertIs(ls: seq<Entry>, e: Entry, max: nat) returns (n: nat)
    requires DistinctKeys(ls)
    ensures n <= |ls| && (n == |ls| || Total(DropOldest(ls, n)) + |e.data| <= max)
    ensures forall k :: 0 <= k < n ==> Total(DropOldest(ls, k)) + |e.data| > max
    ensures Insert(ls, e, max) == OtherKeys(DropOldest(ls, n), e.key) + [e]
  {
    hide Total, DropOldest, OtherKeys, EvictOldest;
    n := EvictOldestIs(ls, Size(e), max);
    EvictDistinct(ls, Size(e), max);
    RemoveKeyIs(EvictOldest(ls, Size(e), max), e.key);
  }

  lemma {:induction false} EvictDistinct(ls: seq<Entry>, size: nat, max: nat)
    requires DistinctKeys(ls)
    ensures DistinctKeys(EvictOldest(ls, size, max))
    decreases |ls|
  {
    hide DistinctKeys;
    if ls != [] && Total(ls) + size > max {
      DropAtContents(ls, Oldest(ls));
      EvictDistinct(DropAt(ls, Oldest(ls)), size, max);
    }
  }

  // ----- the two caches mirror each other -----

  ghost function Reverse(s: seq<Entry>): (r: seq<Entry>)
    ensures |r| == |s| && forall i :: 0 <= i < |s| ==> r[i] == s[|s| - 1 - i]
  {
    seq(|s|, i requires 0 <= i < |s| => s[|s| - 1 - i])
  }

  ghost predicate Ordered(ls: seq<Entry>) {
    forall i, j :: 0 <= i < j < |ls| ==> ls[i].stamp <= ls[j].stamp
  }

  lemma {:induction false} TotalReverse(es: seq<Entry>)
    ensures Total(Reverse(es)) == Total(es)
  {
    if es != [] {
      TotalReverse(es[1..]);
      assert Reverse(es) == Reverse(es[1..]) + [es[0]];
      TotalConcat(Reverse(es[1..]), [es[0]]);
      assert Total([es[0]]) == Size(es[0]) + Total([]);
    }
  }

  lemma OldestIsFirst(ls: seq<Entry>)
    requires ls != [] && Ordered(ls)
    ensures Oldest(ls) == 0 && DropAt(ls, 0) == ls[1..]
  {
  }

  lemma ReverseInit(s: seq<Entry>)
    requires s != []
    ensures Reverse(s[..|s| - 1]) == Reverse(s)[1..]
  {
    var a, b := Reverse(s[..|s| - 1]), Reverse(s)[1..];
    forall i | 0 <= i < |a| ensures a[i] == b[i] { assert b[i] == Reverse(s)[i + 1]; }
  }

  lemma {:induction false} EvictionMirrors(es: seq<Entry>, size: nat, max: nat)
    requires Ordered(Reverse(es))
    ensures EvictOldest(Reverse(es), size, max) == Reverse(EvictLast(es, size, max))
    ensures Ordered(Reverse(EvictLast(es, size, max)))
  {
    TotalReverse(es);
    if es != [] && Total(es) + size > max {
      var ls := Reverse(es);
      OldestIsFirst(ls);
      ReverseInit(es);
      EvictionMirrors(es[..|es| - 1], size, max);
    }
  }

  lemma RemovalMirrors(es: seq<Entry>, k: Key)
    requires DistinctKeys(es)
    ensures RemoveKey(Reverse(es), k) == Reverse(RemoveKey(es, k))
  {
    var ls, n := Reverse(es), |es|;
    if i :| 0 <= i < n && es[i].key == k {
      RemoveKeyAt(es, k, i);
      RemoveKeyAt(ls, k, n - 1 - i);
      assert DropAt(ls, n - 1 - i) == Reverse(DropAt(es, i));
    } else {
      RemoveMissing(es, k);
      RemoveMissing(ls, k);
    }
  }

  datatype Op = PutOp(entry: Entry) | RemoveOp(key: Key) | ClearOp

  ghost function ResourceStep(es: seq<Entry>, op: Op, max: nat): seq<Entry> {
    match op
    case PutOp(e) => Store(es, e, max)
    case RemoveOp(k) => RemoveKey(es, k)
    case ClearOp => []
  }

  ghost function LayerStep(ls: seq<Entry>, op: Op, max: nat): seq<Entry> {
    match op
    case PutOp(e) => Insert(ls, e, max)
    case RemoveOp(k) => RemoveKey(ls, k)
    case ClearOp => []
  }

  ghost function ResourceRun(ops: seq<Op>, max: nat): seq<Entry> {
    if ops == [] then [] else ResourceStep(ResourceRun(ops[..|ops| - 1], max), ops[|ops| - 1], max)
  }

  ghost function LayerRun(ops: seq<Op>, max: nat): seq<Entry> {
    if ops == [] then [] else LayerStep(LayerRun(ops[..|ops| - 1], max), ops[|ops| - 1], max)
  }

  /** The clock does not run backwards. */
  ghost predicate ClockForward(ops: seq<Op>) {
    forall i, j :: 0 <= i < j < |ops| && ops[i].PutOp? && ops[j].PutOp? ==> ops[i].entry.stamp <= ops[j].entry.stamp
  }

  lemma RemoveKeepsOrder(ls: seq<Entry>, k: Key)
    requires Ordered(ls)
    ensures Ordered(RemoveKey(ls, k)) && forall e :: e in RemoveKey(ls, k) ==> e in ls
  {
    if exists i :: 0 <= i < |ls| && ls[i].key == k {
      var i := FirstWith(ls, k);
      RemoveKeyAt(ls, k, i);
      DropKeepsOrder(ls, i);
    } else {
      RemoveMissing(ls, k);
    }
  }

  lemma DropKeepsOrder(ls: seq<Entry>, i: nat)
    requires Ordered(ls) && i < |ls|
    ensures Ordered(DropAt(ls, i)) && forall e :: e in DropAt(ls, i) ==> e in ls
  {
    var r := DropAt(ls, i);
    assert forall j :: 0 <= j < |r| ==> r[j] == if j < i then ls[j] else ls[j + 1];
  }

  lemma {:induction false} FirstWith(ls: seq<Entry>, k: Key) returns (i: nat)
    requires exists i :: 0 <= i < |ls| && ls[i].key == k
    ensures i < |ls| && ls[i].key == k && forall j :: 0 <= j < i ==> ls[j].key != k
  {
    if ls[0].key == k { i := 0; } else {
      var j :| 0 <= j < |ls| && ls[j].key == k;
      assert ls[1..][j - 1].key == k;
      i := FirstWith(ls[1..], k);
      i := i + 1;
    }
  }

  /** One step: reversed before, reversed after. */
  lemma StepMirrors(es: seq<Entry>, op: Op, max: nat)
    requires DistinctKeys(es) && Ordered(Reverse(es))
    requires op.PutOp? ==> forall e :: e in es ==> e.stamp <= op.entry.stamp
    ensures LayerStep(Reverse(es), op, max) == Reverse(ResourceStep(es, op, max))
    ensures Ordered(Reverse(ResourceStep(es, op, max)))
    ensures forall e :: e in ResourceStep(es, op, max) ==> e in es || (op.PutOp? && e == op.entry)
  {
    match op
    case PutOp(e) => PutMirrors(es, e, max);
    case RemoveOp(k) => RemoveMirrors(es, k);
    case ClearOp =>
  }

  lemma PutMirrors(es: seq<Entry>, e: Entry, max: nat)
    requires DistinctKeys(es) && Ordered(Reverse(es)) && forall x :: x in es ==> x.stamp <= e.stamp
    ensures Insert(Reverse(es), e, max) == Reverse(Store(es, e, max)) && Ordered(Reverse(Store(es, e, max)))
    ensures forall x :: x in Store(es, e, max) ==> x in es || x == e
  {
    hide DistinctKeys, Ordered, Total;
    var kept := EvictLast(es, Size(e), max);
    EvictLastIs(es, Size(e), max);
    PrefixKeeps(kept, es);
    EvictionMirrors(es, Size(e), max);
    RemovalMirrors(kept, e.key);
    RemoveKeepsOrder(Reverse(kept), e.key);
    RemoveKeyContents(kept, e.key);
    PushMirrors(RemoveKey(kept, e.key), e);
  }

  lemma RemoveMirrors(es: seq<Entry>, k: Key)
    requires DistinctKeys(es) && Ordered(Reverse(es))
    ensures RemoveKey(Reverse(es), k) == Reverse(RemoveKey(es, k)) && Ordered(Reverse(RemoveKey(es, k)))
    ensures forall x :: x in RemoveKey(es, k) ==> x in es
  {
    hide DistinctKeys, Ordered;
    RemovalMirrors(es, k);
    RemoveKeepsOrder(Reverse(es), k);
    RemoveKeyContents(es, k);
  }

  lemma PushMirrors(rest: seq<Entry>, e: Entry)
    requires Ordered(Reverse(rest)) && forall x :: x in rest ==> x.stamp <= e.stamp
    ensures Reverse([e] + rest) == Reverse(rest) + [e] && Ordered(Reverse(rest) + [e])
  {
    assert Reverse([e] + rest) == Reverse(rest) + [e];
    var ls := Reverse(rest);
    forall i | 0 <= i < |ls| ensures ls[i].stamp <= e.stamp { assert ls[i] == rest[|rest| - 1 - i] && ls[i] in rest; }
  }

  lemma {:induction false} RunInvariant(ops: seq<Op>, max: nat)
    requires ClockForward(ops)
    ensures LayerRun(ops, max) == Reverse(ResourceRun(ops, max)) && Ordered(LayerRun(ops, max))
    ensures Sound(ResourceRun(ops, max), max)
    ensures forall e :: e in ResourceRun(ops, max) ==> exists i :: 0 <= i < |ops| && ops[i] == PutOp(e)
  {
    if ops != [] {
      hide ResourceStep, LayerStep, Sound;
      var init, op := ops[..|ops| - 1], ops[|ops| - 1];
      RunInvariant(init, max);
      var es := ResourceRun(init, max);
      SoundIsDistinct(es, max);
      forall e | op.PutOp? && e in es ensures e.stamp <= op.entry.stamp {
        var i :| 0 <= i < |init| && init[i] == PutOp(e);
        assert ops[i] == PutOp(e);
      }
      StepMirrors(es, op, max);
      StepSound(es, op, max);
      forall e | e in ResourceStep(es, op, max) ensures exists i :: 0 <= i < |ops| && ops[i] == PutOp(e) {
        if e in es {
          var i :| 0 <= i < |init| && init[i] == PutOp(e);
          assert ops[i] == PutOp(e);
        } else {
          assert ops[|ops| - 1] == PutOp(e);
        }
      }
    }
  }

  lemma SoundIsDistinct(es: seq<Entry>, max: nat)
    requires Sound(es, max)
    ensures DistinctKeys(es)
  {
  }

  lemma StepSound(es: seq<Entry>, op: Op, max: nat)
    requires Sound(es, max)
    ensures Sound(ResourceStep(es, op, max), max)
  {
    match op
    case PutOp(e) => {
      EvictLastIs(es, Size(e), max);
      PrefixKeeps(EvictLast(es, Size(e), max), es);
      StoreTail(EvictLast(es, Size(e), max), e, max);
    }
    case RemoveOp(k) => {
      RemoveKeyContents(es, k);
      RemoveKeyShrinks(es, k);
    }
    case ClearOp =>
  }

  /** With a forward clock the layer list is the reverse of the resource list after every run. */
  lemma CachesMirror(ops: seq<Op>, max: nat)
    requires ClockForward(ops)
    ensures LayerRun(ops, max) == Reverse(ResourceRun(ops, max))
  {
    RunInvariant(ops, max);
  }

  // ----- exactly when they mirror each other -----

  /** Entry `i`, entry `j` or one between them holds data. */
  ghost predicate Weighs(ls: seq<Entry>, i: nat, j: nat) {
    exists k :: i <= k <= j && k < |ls| && Size(ls[k]) > 0
  }

  /** Timestamps never fall from one entry to a later one, except within a stretch of entries without data. */
  ghost predicate InOrder(ls: seq<Entry>) {
    forall i, j :: 0 <= i < j < |ls| && Weighs(ls, i, j) ==> ls[i].stamp <= ls[j].stamp
  }

  /** Drop entries from the front until the new one fits: what `EvictLast` does to the reversed list. */
  ghost function EvictFirst(ls: seq<Entry>, size: nat, max: nat): seq<Entry> {
    if ls != [] && Total(ls) + size > max then EvictFirst(ls[1..], size, max) else ls
  }

  lemma {:induction false} EvictLastReversed(es: seq<Entry>, size: nat, max: nat)
    ensures Reverse(EvictLast(es, size, max)) == EvictFirst(Reverse(es), size, max)
  {
    TotalReverse(es);
    if es != [] && Total(es) + size > max {
      ReverseInit(es);
      EvictLastReversed(es[..|es| - 1], size, max);
    }
  }

  /** `n` is the first entry that holds data. */
  ghost predicate FirstData(ls: seq<Entry>, n: nat) {
    n < |ls| && Size(ls[n]) > 0 && forall k :: 0 <= k < n ==> Size(ls[k]) == 0
  }

  lemma {:induction false} FindData(ls: seq<Entry>) returns (n: nat)
    requires Total(ls) > 0
    ensures FirstData(ls, n)
  {
    if Size(ls[0]) > 0 { n := 0; } else {
      n := FindData(ls[1..]);
      n := n + 1;
    }
  }

  lemma {:induction false} TotalAfter(ls: seq<Entry>, n: nat)
    requires FirstData(ls, n)
    ensures Total(ls) == Size(ls[n]) + Total(ls[n + 1..])
  {
    if n > 0 {
      TotalAfter(ls[1..], n - 1);
      assert ls[1..][n..] == ls[n + 1..];
    }
  }

  /** Both evict everything up to the first data, and that data, before they stop. */
  lemma {:induction false} FirstGroup(ls: seq<Entry>, n: nat, size: nat, max: nat)
    requires FirstData(ls, n) && Total(ls) + size > max
    ensures EvictFirst(ls, size, max) == EvictFirst(ls[n + 1..], size, max)
  {
    if n > 0 {
      FirstGroup(ls[1..], n - 1, size, max);
      assert ls[1..][n..] == ls[n + 1..];
    }
  }

  /** Everything up to `n` is no younger than `n` and what follows it. */
  ghost predicate GroupFirst(ls: seq<Entry>, n: nat) {
    forall i, j :: 0 <= i <= n && n <= j < |ls| && i < j ==> ls[i].stamp <= ls[j].stamp
  }

  lemma GroupDrop(ls: seq<Entry>, n: nat, o: nat)
    requires FirstData(ls, n) && o < n
    ensures var ms := DropAt(ls, o);
      FirstData(ms, n - 1) && Total(ms) == Total(ls) && ms[n..] == ls[n + 1..] && ms[n - 1] == ls[n]
  {
    TotalDropAt(ls, o);
  }

  lemma GroupKept(ls: seq<Entry>, n: nat, o: nat)
    requires n < |ls| && o < n && GroupFirst(ls, n)
    ensures GroupFirst(DropAt(ls, o), n - 1)
  {
  }

  lemma GroupRestored(ls: seq<Entry>, n: nat, o: nat)
    requires o < n < |ls| && GroupFirst(DropAt(ls, o), n - 1) && IsOldest(ls, o)
    ensures GroupFirst(ls, n)
  {
    var ms := DropAt(ls, o);
    forall i, j | 0 <= i <= n && n <= j < |ls| && i < j ensures ls[i].stamp <= ls[j].stamp {
      if i < o {
        assert ms[i].stamp <= ms[j - 1].stamp;
      } else if i > o {
        assert ms[i - 1].stamp <= ms[j - 1].stamp;
      }
    }
  }

  ghost predicate IsOldest(ls: seq<Entry>, o: nat) {
    o < |ls| && forall j :: 0 <= j < |ls| ==> ls[o].stamp <= ls[j].stamp
  }

  lemma OldestIs(ls: seq<Entry>)
    requires ls != []
    ensures IsOldest(ls, Oldest(ls))
  {
  }

  lemma OldestInGroup(ls: seq<Entry>, n: nat)
    requires n < |ls| && GroupFirst(ls, n)
    ensures if n == 0 then Oldest(ls) == 0 else Oldest(ls) < n
  {
    assert forall j :: n <= j < |ls| && 0 < j ==> ls[0].stamp <= ls[j].stamp;
  }

  lemma {:induction false} OldestGroup(ls: seq<Entry>, n: nat, size: nat, max: nat)
    requires FirstData(ls, n) && GroupFirst(ls, n) && Total(ls) + size > max
    ensures EvictOldest(ls, size, max) == EvictOldest(ls[n + 1..], size, max)
    decreases n
  {
    hide Oldest, Total, GroupFirst;
    var o := Oldest(ls);
    OldestInGroup(ls, n);
    if n == 0 {
      assert DropAt(ls, 0) == ls[1..];
    } else {
      GroupDrop(ls, n, o);
      GroupKept(ls, n, o);
      OldestGroup(DropAt(ls, o), n - 1, size, max);
    }
  }

  lemma {:induction false} AllEvicted(ls: seq<Entry>, size: nat, max: nat)
    requires size > max
    ensures EvictFirst(ls, size, max) == [] && EvictOldest(ls, size, max) == []
    decreases |ls|
  {
    if ls != [] {
      AllEvicted(ls[1..], size, max);
      AllEvicted(DropAt(ls, Oldest(ls)), size, max);
    }
  }

  lemma InOrderParts(ls: seq<Entry>, n: nat)
    requires FirstData(ls, n)
    ensures InOrder(ls) <==> GroupFirst(ls, n) && InOrder(ls[n + 1..])
  {
    var rest := ls[n + 1..];
    forall i, j | 0 <= i < j < |rest| ensures Weighs(rest, i, j) <==> Weighs(ls, i + n + 1, j + n + 1) {
      if Weighs(rest, i, j) {
        var k :| i <= k <= j && k < |rest| && Size(rest[k]) > 0;
        assert Size(ls[k + n + 1]) > 0;
      }
      if Weighs(ls, i + n + 1, j + n + 1) {
        var k :| i + n + 1 <= k <= j + n + 1 && k < |ls| && Size(ls[k]) > 0;
        assert Size(rest[k - n - 1]) > 0;
      }
    }
    if InOrder(ls) {
      forall i, j | 0 <= i <= n && n <= j < |ls| && i < j ensures ls[i].stamp <= ls[j].stamp {
        assert Size(ls[n]) > 0 && Weighs(ls, i, j);
      }
      forall i, j | 0 <= i < j < |rest| && Weighs(rest, i, j) ensures rest[i].stamp <= rest[j].stamp {
        assert Weighs(ls, i + n + 1, j + n + 1);
      }
    }
    if GroupFirst(ls, n) && InOrder(rest) {
      forall i, j | 0 <= i < j < |ls| && Weighs(ls, i, j) ensures ls[i].stamp <= ls[j].stamp {
        if i > n {
          assert Weighs(rest, i - n - 1, j - n - 1);
          assert rest[i - n - 1].stamp <= rest[j - n - 1].stamp;
        } else {
          var k :| i <= k <= j && k < |ls| && Size(ls[k]) > 0;
          assert n <= j;
        }
      }
    }
  }

  lemma {:induction false} InOrderEvicts(ls: seq<Entry>, size: nat, max: nat)
    requires InOrder(ls)
    ensures EvictOldest(ls, size, max) == EvictFirst(ls, size, max)
    decreases |ls|
  {
    if size > max {
      AllEvicted(ls, size, max);
    } else if ls != [] && Total(ls) + size > max {
      var n := FindData(ls);
      InOrderParts(ls, n);
      FirstGroup(ls, n, size, max);
      OldestGroup(ls, n, size, max);
      InOrderEvicts(ls[n + 1..], size, max);
    }
  }

  lemma {:induction false} EvictedFrom(ls: seq<Entry>, size: nat, max: nat)
    requires DistinctKeys(ls)
    ensures forall e :: e in EvictOldest(ls, size, max) ==> e in ls
    decreases |ls|
  {
    if ls != [] && Total(ls) + size > max {
      DropAtContents(ls, Oldest(ls));
      EvictedFrom(DropAt(ls, Oldest(ls)), size, max);
    }
  }

  /** If evicting the oldest removes just the first group, that group was the oldest. */
  lemma {:induction false} GroupIsOldest(ls: seq<Entry>, n: nat, max: nat)
    requires DistinctKeys(ls) && FirstData(ls, n) && max == Total(ls) - 1
    requires EvictOldest(ls, 0, max) == ls[n + 1..]
    ensures GroupFirst(ls, n)
    decreases n
  {
    assert n < |ls| && Size(ls[n]) > 0;
    OldestNotBehind(ls, n, max);
    hide Oldest, Total, GroupFirst, EvictOldest, DistinctKeys, FirstData, Younger;
    if Oldest(ls) < n {
      YoungerIs(ls, n, max);
      GroupIsOldest(Younger(ls), n - 1, max);
      GroupComesBack(ls, n);
    } else {
      StopsAtOnce(ls, n, max);
    }
  }

  ghost function Younger(ls: seq<Entry>): seq<Entry>
    requires ls != []
  {
    DropAt(ls, Oldest(ls))
  }

  lemma YoungerIs(ls: seq<Entry>, n: nat, max: nat)
    requires DistinctKeys(ls) && FirstData(ls, n) && max == Total(ls) - 1 && Oldest(ls) < n
    requires EvictOldest(ls, 0, max) == ls[n + 1..]
    ensures var ms := Younger(ls);
      && DistinctKeys(ms) && FirstData(ms, n - 1) && max == Total(ms) - 1 && EvictOldest(ms, 0, max) == ms[n - 1 + 1..]
  {
    hide DistinctKeys, EvictOldest, Total;
    DropAtContents(ls, Oldest(ls));
    GroupDrop(ls, n, Oldest(ls));
    EvictsOne(ls, 0, max);
  }

  lemma GroupComesBack(ls: seq<Entry>, n: nat)
    requires n < |ls| && Oldest(ls) < n && GroupFirst(Younger(ls), n - 1)
    ensures GroupFirst(ls, n)
  {
    hide GroupFirst;
    OldestIs(ls);
    GroupRestored(ls, n, Oldest(ls));
  }

  lemma StopsAtOnce(ls: seq<Entry>, n: nat, max: nat)
    requires n < |ls| && Size(ls[n]) > 0 && max == Total(ls) - 1 && Oldest(ls) == n
    requires EvictOldest(ls, 0, max) == ls[n + 1..]
    ensures GroupFirst(ls, n)
  {
    hide GroupFirst, EvictOldest, Total;
    EvictsOne(ls, 0, max);
    DropStops(ls, n, max);
    OldestIsGroup(ls);
  }

  /** Evicting the entry with data makes room; if it was the only one evicted, it was the first. */
  lemma DropStops(ls: seq<Entry>, n: nat, max: nat)
    requires n < |ls| && Size(ls[n]) > 0 && max == Total(ls) - 1
    requires EvictOldest(DropAt(ls, n), 0, max) == ls[n + 1..]
    ensures n == 0
  {
    hide Total, EvictOldest;
    TotalDropAt(ls, n);
    EvictsNone(DropAt(ls, n), 0, max);
    assert |DropAt(ls, n)| == |ls| - 1 && |ls[n + 1..]| == |ls| - 1 - n;
  }

  /** The oldest entry is evicted, so it is not among what is left. */
  lemma OldestNotBehind(ls: seq<Entry>, n: nat, max: nat)
    requires DistinctKeys(ls) && n < |ls| && Total(ls) > max && EvictOldest(ls, 0, max) == ls[n + 1..]
    ensures Oldest(ls) <= n
  {
    hide Total, EvictOldest, DistinctKeys;
    var o := Oldest(ls);
    EvictsOne(ls, 0, max);
    DropAtContents(ls, o);
    EvictedFrom(DropAt(ls, o), 0, max);
    assert ls[o] !in ls[n + 1..];
    if n < o { RestHas(ls, n, o); }
  }

  lemma EvictsOne(ls: seq<Entry>, size: nat, max: nat)
    requires ls != [] && Total(ls) + size > max
    ensures EvictOldest(ls, size, max) == EvictOldest(DropAt(ls, Oldest(ls)), size, max)
  {
  }

  lemma EvictsNone(ls: seq<Entry>, size: nat, max: nat)
    requires Total(ls) + size <= max
    ensures EvictOldest(ls, size, max) == ls
  {
  }

  lemma OldestIsGroup(ls: seq<Entry>)
    requires ls != []
    ensures Oldest(ls) == 0 ==> GroupFirst(ls, 0)
  {
  }

  lemma RestHas(ls: seq<Entry>, n: nat, o: nat)
    requires n < o < |ls|
    ensures ls[o] in ls[n + 1..]
  {
    assert ls[n + 1..][o - n - 1] == ls[o];
  }

  lemma {:induction false} OutOfOrderDiffers(ls: seq<Entry>) returns (max: nat)
    requires DistinctKeys(ls) && !InOrder(ls)
    ensures EvictOldest(ls, 0, max) != EvictFirst(ls, 0, max)
    decreases |ls|
  {
    var n := FindInOutOfOrder(ls);
    var rest := ls[n + 1..];
    InOrderParts(ls, n);
    TotalAfter(ls, n);
    if GroupFirst(ls, n) {
      max := OutOfOrderDiffers(rest);
      assert max < Total(rest);
      FirstGroup(ls, n, 0, max);
      OldestGroup(ls, n, 0, max);
    } else {
      max := Total(ls) - 1;
      FirstGroup(ls, n, 0, max);
      if EvictOldest(ls, 0, max) == rest { GroupIsOldest(ls, n, max); }
    }
  }

  lemma FindInOutOfOrder(ls: seq<Entry>) returns (n: nat)
    requires !InOrder(ls)
    ensures FirstData(ls, n)
  {
    var i, j :| 0 <= i < j < |ls| && Weighs(ls, i, j) && ls[i].stamp > ls[j].stamp;
    var k :| i <= k <= j && k < |ls| && Size(ls[k]) > 0;
    TotalDropAt(ls, k);
    n := FindData(ls);
  }

  /** The two eviction orders leave mirror images for every need for room exactly when the timestamps are in order. */
  lemma EvictionMirrorsIff(es: seq<Entry>)
    requires DistinctKeys(es)
    ensures (forall size, max :: EvictOldest(Reverse(es), size, max) == Reverse(EvictLast(es, size, max)))
       <==> InOrder(Reverse(es))
  {
    var ls := Reverse(es);
    if InOrder(ls) {
      forall size, max ensures EvictOldest(ls, size, max) == Reverse(EvictLast(es, size, max)) {
        EvictLastReversed(es, size, max);
        InOrderEvicts(ls, size, max);
      }
    } else {
      var max := OutOfOrderDiffers(ls);
      EvictLastReversed(es, 0, max);
    }
  }

  // ----- the same for the next store, in a cache of fixed size -----

  lemma {:induction false} EvictByRoom(ls: seq<Entry>, size: nat, max: nat, size': nat, max': nat)
    requires max - size == max' - size'
    ensures EvictOldest(ls, size, max) == EvictOldest(ls, size', max')
    ensures EvictFirst(ls, size, max) == EvictFirst(ls, size', max')
    decreases |ls|
  {
    if ls != [] && Total(ls) + size > max {
      EvictByRoom(DropAt(ls, Oldest(ls)), size, max, size', max');
      EvictByRoom(ls[1..], size, max, size', max');
    }
  }

  lemma {:induction false} FreshKey(es: seq<Entry>) returns (k: Key)
    ensures forall e :: e in es ==> |e.key| < |k|
  {
    if es == [] { k := ""; } else {
      var j := FreshKey(es[1..]);
      k := j + es[0].key + "k";
      forall e | e in es ensures |e.key| < |k| { assert e == es[0] || e in es[1..]; }
    }
  }

  /** An entry of the given size with a key not in the cache. */
  lemma FreshEntry(es: seq<Entry>, size: nat) returns (e: Entry)
    ensures Size(e) == size && forall x :: x in es ==> x.key != e.key
  {
    var k := FreshKey(es);
    e := Entry(k, seq(size, _ => 0), 0);
  }

  /** Storing an entry with a new key shows the two evictions side by side. */
  lemma StoresShowEviction(es: seq<Entry>, e: Entry, max: nat)
    requires DistinctKeys(es) && forall x :: x in es ==> x.key != e.key
    ensures Insert(Reverse(es), e, max) == Reverse(Store(es, e, max))
       <==> EvictOldest(Reverse(es), Size(e), max) == Reverse(EvictLast(es, Size(e), max))
  {
    var ls := Reverse(es);
    var kept, left := EvictLast(es, Size(e), max), EvictOldest(ls, Size(e), max);
    EvictLastIs(es, Size(e), max);
    PrefixKeeps(kept, es);
    ReverseDistinct(es);
    EvictedFrom(ls, Size(e), max);
    ReverseHas(es);
    hide EvictLast, EvictOldest, DistinctKeys, Total, RemoveKey, Reverse;
    NotRemoved(kept, e.key);
    NotRemoved(left, e.key);
    ReversePush(e, kept);
    SnocInjective(left, Reverse(kept), e);
  }

  lemma ReverseHas(es: seq<Entry>)
    ensures forall x :: x in Reverse(es) ==> x in es
  {
    var ls := Reverse(es);
    forall x | x in ls ensures x in es { var i :| 0 <= i < |ls| && ls[i] == x; assert es[|es| - 1 - i] == x; }
  }

  lemma NotRemoved(es: seq<Entry>, k: Key)
    requires forall x :: x in es ==> x.key != k
    ensures RemoveKey(es, k) == es
  {
    forall j | 0 <= j < |es| ensures es[j].key != k { assert es[j] in es; }
    RemoveMissing(es, k);
  }

  lemma ReversePush(e: Entry, es: seq<Entry>)
    ensures Reverse([e] + es) == Reverse(es) + [e]
  {
    assert Reverse([e] + es) == Reverse(es) + [e];
  }

  lemma SnocInjective(a: seq<Entry>, b: seq<Entry>, e: Entry)
    ensures a + [e] == b + [e] <==> a == b
  {
    if a + [e] == b + [e] { assert a == (a + [e])[..|a|] && b == (b + [e])[..|b|] && |a| == |b|; }
  }

  lemma ReverseDistinct(es: seq<Entry>)
    requires DistinctKeys(es)
    ensures DistinctKeys(Reverse(es))
  {
  }

  /** Removing a key mirrors whatever the timestamps, so a store mirrors when its eviction does. */
  lemma StoreMirrors(es: seq<Entry>, e: Entry, max: nat)
    requires DistinctKeys(es) && EvictOldest(Reverse(es), Size(e), max) == Reverse(EvictLast(es, Size(e), max))
    ensures Insert(Reverse(es), e, max) == Reverse(Store(es, e, max))
  {
    var kept := EvictLast(es, Size(e), max);
    EvictLastIs(es, Size(e), max);
    PrefixKeeps(kept, es);
    RemovalMirrors(kept, e.key);
    ReversePush(e, RemoveKey(kept, e.key));
  }

  /**
  For mirrored caches of one size limit, the next store, whatever it is, leaves
  them mirrored exactly when the timestamps are in order.
  */
  lemma NextStoreMirrorsIff(es: seq<Entry>, max: nat)
    requires Sound(es, max)
    ensures (forall e :: Insert(Reverse(es), e, max) == Reverse(Store(es, e, max))) <==> InOrder(Reverse(es))
  {
    EvictionMirrorsIff(es);
    hide Total, EvictOldest, EvictFirst, EvictLast, Insert, Store, InOrder, DistinctKeys;
    if InOrder(Reverse(es)) {
      forall e ensures Insert(Reverse(es), e, max) == Reverse(Store(es, e, max)) { StoreMirrors(es, e, max); }
    } else {
      var room := OutOfOrderDiffersHere(es, max);
      var e := FreshEntry(es, max - room);
      EvictByRoom(Reverse(es), max - room, max, 0, room);
      EvictLastReversed(es, max - room, max);
      StoresShowEviction(es, e, max);
      assert Insert(Reverse(es), e, max) != Reverse(Store(es, e, max));
    }
  }

  lemma OutOfOrderDiffersHere(es: seq<Entry>, max: nat) returns (room: nat)
    requires Sound(es, max) && !InOrder(Reverse(es))
    ensures room <= max && EvictOldest(Reverse(es), 0, room) != EvictFirst(Reverse(es), 0, room)
  {
    ReverseDistinct(es);
    TotalReverse(es);
    room := OutOfOrderDiffers(Reverse(es));
  }

  lemma {:induction false} RunSound(ops: seq<Op>, max: nat)
    ensures Sound(ResourceRun(ops, max), max)
  {
    if ops != [] {
      RunSound(ops[..|ops| - 1], max);
      StepSound(ResourceRun(ops[..|ops| - 1], max), ops[|ops| - 1], max);
    }
  }

  /**
  After any run that left the caches mirrored, with any clock, the next
  operation, whatever it is, leaves them mirrored exactly when the layers'
  timestamps are in order.
  */
  lemma RunStaysMirroredIff(ops: seq<Op>, max: nat)
    requires LayerRun(ops, max) == Reverse(ResourceRun(ops, max))
    ensures (forall op :: LayerRun(ops + [op], max) == Reverse(ResourceRun(ops + [op], max)))
       <==> InOrder(LayerRun(ops, max))
  {
    hide ResourceRun, LayerRun, Store, Insert, InOrder, Total, DistinctKeys;
    var es := ResourceRun(ops, max);
    RunSound(ops, max);
    SoundIsDistinct(es, max);
    NextStoreMirrorsIff(es, max);
    forall op ensures LayerRun(ops + [op], max) == Reverse(ResourceRun(ops + [op], max))
      <==> LayerStep(Reverse(es), op, max) == Reverse(ResourceStep(es, op, max))
    {
      RunSnoc(ops, op, max);
    }
    if InOrder(Reverse(es)) {
      forall op ensures LayerStep(Reverse(es), op, max) == Reverse(ResourceStep(es, op, max)) {
        if op.RemoveOp? { RemovalMirrors(es, op.key); }
      }
    } else {
      var e :| Insert(Reverse(es), e, max) != Reverse(Store(es, e, max));
      assert LayerStep(Reverse(es), PutOp(e), max) != Reverse(ResourceStep(es, PutOp(e), max));
    }
  }

  /**
  Three byte-sized entries stored in caches of two bytes, the second with an
  earlier timestamp than the first: the caches end up holding different entries.
  */
  lemma BackwardClockDiffers()
    ensures var a, b, c := Entry("a", [0], 5), Entry("b", [0], 1), Entry("c", [0], 6);
      var ops := [PutOp(a), PutOp(b), PutOp(c)];
      ResourceRun(ops, 2) == [c, b] && LayerRun(ops, 2) == [a, c]
  {
    var a, b, c := Entry("a", [0], 5), Entry("b", [0], 1), Entry("c", [0], 6);
    hide Store, Insert, ResourceRun, LayerRun;
    FirstTwoPuts();
    ThirdPut();
    RunSnoc([], PutOp(a), 2);
    RunSnoc([PutOp(a)], PutOp(b), 2);
    RunSnoc([PutOp(a), PutOp(b)], PutOp(c), 2);
    assert [PutOp(a), PutOp(b)] + [PutOp(c)] == [PutOp(a), PutOp(b), PutOp(c)];
  }

  lemma RunSnoc(ops: seq<Op>, op: Op, max: nat)
    ensures ResourceRun(ops + [op], max) == ResourceStep(ResourceRun(ops, max), op, max)
    ensures LayerRun(ops + [op], max) == LayerStep(LayerRun(ops, max), op, max)
    ensures ResourceRun([], max) == [] == LayerRun([], max)
  {
    assert (ops + [op])[..|ops|] == ops;
  }

  lemma FirstTwoPuts()
    ensures var a, b := Entry("a", [0], 5), Entry("b", [0], 1);
      Store([], a, 2) == [a] == Insert([], a, 2) && Store([a], b, 2) == [b, a] && Insert([a], b, 2) == [a, b]
  {
    var a, b := Entry("a", [0], 5), Entry("b", [0], 1);
    assert Total([a]) == 1;
    assert "a" != "b" by { assert "a"[0] != "b"[0]; }
    RemoveMissing([a], "b");
  }

  lemma ThirdPut()
    ensures var a, b, c := Entry("a", [0], 5), Entry("b", [0], 1), Entry("c", [0], 6);
      Store([b, a], c, 2) == [c, b] && Insert([a, b], c, 2) == [a, c]
  {
    var a, b, c := Entry("a", [0], 5), Entry("b", [0], 1), Entry("c", [0], 6);
    assert Total([a]) == 1 && Total([b]) == 1;
    TotalConcat([b], [a]);
    TotalConcat([a], [b]);
    assert [b] + [a] == [b, a] && [a] + [b] == [a, b];
    assert EvictLast([b, a], 1, 2) == EvictLast([b], 1, 2) == [b] by { assert [b, a][..1] == [b]; }
    assert Oldest([a, b]) == 1;
    assert DropAt([a, b], 1) == [a];
    assert EvictOldest([a, b], 1, 2) == EvictOldest([a], 1, 2) == [a];
    assert "b" != "c" && "a" != "c" by { assert "b"[0] != "c"[0] && "a"[0] != "c"[0]; }
    RemoveMissing([b], "c");
    RemoveMissing([a], "c");
  }
}
