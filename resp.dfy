/** The RESP value model: the `RespFrame` union, its payload wrappers and
    their constructors and accessors, `RespMap` as a key-sorted map, and the
    derived structural equality. */
module Resp {
  import opened Wire
  import opened ByteOrder

  /** `SimpleString(String)`: single-line status text. */
  datatype SimpleString = SimpleString(text: Bytes) {
    /** `SimpleString::new`: wraps its argument unchanged. */
    static function New(s: Bytes): (r: SimpleString)
      ensures r.Deref() == s
    {
      SimpleString.SimpleString(s)
    }

    /** `Deref for SimpleString`: the wrapped text. */
    function Deref(): Bytes {
      text
    }
  }

  /** `SimpleError(String)`: single-line error text. */
  datatype SimpleError = SimpleError(text: Bytes) {
    /** `SimpleError::new`: wraps its argument unchanged. */
    static function New(s: Bytes): (r: SimpleError)
      ensures r.Deref() == s
    {
      SimpleError(s)
    }

    /** `Deref for SimpleError`: the wrapped text. */
    function Deref(): Bytes {
      text
    }
  }

  /** `BulkString(Vec<u8>)`: binary-safe bytes. */
  datatype BulkString = BulkString(data: Bytes) {
    /** `BulkString::new`: wraps its argument unchanged. */
    static function New(s: Bytes): (r: BulkString)
      ensures r.Deref() == s && r.Len() == |s|
    {
      BulkString.BulkString(s)
    }

    /** `Deref for BulkString`: the wrapped bytes. */
    function Deref(): Bytes {
      data
    }

    /** `len()` through the deref to `Vec<u8>`. */
    function Len(): nat {
      |data|
    }
  }

  datatype RespNull = RespNull
  datatype RespNullArray = RespNullArray
  datatype RespNullBulkString = RespNullBulkString

  /** `RespArray(Vec<RespFrame>)`. */
  datatype RespArray = RespArray(items: seq<RespFrame>) {
    /** `RespArray::new`: keeps the frames, their order and their number. */
    static function New(s: seq<RespFrame>): (r: RespArray)
      ensures r.Deref() == s && r.Len() == |s|
    {
      RespArray(s)
    }

    /** `Deref for RespArray`: the wrapped vector. */
    function Deref(): seq<RespFrame> {
      items
    }

    function Len(): nat {
      |items|
    }
  }

  /** `RespSet(Vec<RespFrame>)`: despite the name, an ordered vector that may
      hold equal frames. */
  datatype RespSet = RespSet(items: seq<RespFrame>) {
    /** `RespSet::new`: keeps the frames, their order and their number. */
    static function New(s: seq<RespFrame>): (r: RespSet)
      ensures r.Deref() == s && r.Len() == |s|
    {
      RespSet(s)
    }

    /** `Deref for RespSet`: the wrapped vector. */
    function Deref(): seq<RespFrame> {
      items
    }

    function Len(): nat {
      |items|
    }
  }

  /** `RespMap(BTreeMap<String, RespFrame>)`, held as its entries in
      iteration order. `Valid` is the B-tree's invariant: keys strictly
      ascending, hence unique. */
  datatype RespMap = RespMap(entries: seq<(Bytes, RespFrame)>) {
    predicate Valid() {
      Sorted(entries)
    }

    /** `RespMap::new`: the empty map. */
    static function New(): (m: RespMap)
      ensures m.Valid() && m.Len() == 0
      ensures forall k :: m.Get(k) == None
    {
      RespMap([])
    }

    /** `Default for RespMap`, which delegates to `new`. */
    static function Default(): (m: RespMap)
      ensures m == New()
      ensures m.Valid() && m.Len() == 0
    {
      New()
    }

    function Len(): nat {
      |entries|
    }

    /** `BTreeMap::get` through the deref. */
    function Get(k: Bytes): Option<RespFrame> {
      Lookup(entries, k)
    }

    /** The keys in iteration order: strictly ascending and without
        repetition. */
    function Keys(): (ks: seq<Bytes>)
      requires Valid()
      ensures |ks| == Len()
      ensures forall i :: 0 <= i < |ks| ==> Get(ks[i]).Some?
      ensures forall i, j :: 0 <= i < j < |ks| ==> Less(ks[i], ks[j])
      ensures forall i, j :: 0 <= i < j < |ks| ==> ks[i] != ks[j]
    {
      var ks := seq(|entries|, i requires 0 <= i < |entries| => entries[i].0);
      forall i | 0 <= i < |ks| ensures Get(ks[i]).Some? {
        LookupAt(entries, i);
      }
      forall i, j | 0 <= i < j < |ks| ensures ks[i] != ks[j] {
        LessIrreflexive(ks[i]);
      }
      ks
    }

    /** `BTreeMap::insert` through `DerefMut`: an existing key keeps its place
        and gets the new value; a new key is placed in key order. */
    function Insert(k: Bytes, v: RespFrame): (r: RespMap)
      requires Valid()
      ensures r.Valid()
      ensures r.Get(k) == Some(v)
      ensures forall k' :: k' != k ==> r.Get(k') == Get(k')
      ensures Get(k).Some? ==>
        r.Len() == Len() &&
        exists i :: 0 <= i < Len() && entries[i].0 == k && r.entries == entries[i := (k, v)]
      ensures Get(k).None? ==>
        r.Len() == Len() + 1 &&
        exists p :: 0 <= p <= Len() && r.entries == entries[..p] + [(k, v)] + entries[p..]
    {
      var p := Position(entries, k);
      var r := RespMap(InsertEntries(entries, k, v));
      InsertEntriesShape(entries, k, v);
      InsertEntriesLookup(entries, k, v);
      InsertEntriesSorted(entries, k, v);
      PositionFindsKey(entries, k);
      assert Get(k).Some? ==> entries[p].0 == k && r.entries == entries[p := (k, v)];
      assert Get(k).None? ==> r.entries == entries[..p] + [(k, v)] + entries[p..];
      r
    }
  }

  /** `RespFrame`: exactly these twelve variants. `BigNumber` is not one of
      them in this version. */
  datatype RespFrame =
    | SimpleString(simple: SimpleString)
    | Error(error: SimpleError)
    | Integer(value: i64)
    | BulkString(bulk: BulkString)
    | NullBulkString(nullBulk: RespNullBulkString)
    | Array(arr: RespArray)
    | Null(nil: RespNull)
    | NullArray(nullArr: RespNullArray)
    | Boolean(flag: bool)
    | Double(bits: bv64)
    | Map(dict: RespMap)
    | Set(members: RespSet)

  // ---------------------------------------------------------------------------
  // Entries of a map

  predicate Sorted(es: seq<(Bytes, RespFrame)>) {
    forall i, j :: 0 <= i < j < |es| ==> Less(es[i].0, es[j].0)
  }

  function Lookup(es: seq<(Bytes, RespFrame)>, k: Bytes): Option<RespFrame> {
    if es == [] then None
    else if es[0].0 == k then Some(es[0].1)
    else Lookup(es[1..], k)
  }

  /** Where `k` is or would go: the first entry whose key is not below `k`. */
  function Position(es: seq<(Bytes, RespFrame)>, k: Bytes): (p: nat)
    ensures p <= |es|
  {
    if es == [] || !Less(es[0].0, k) then 0 else 1 + Position(es[1..], k)
  }

  function InsertEntries(es: seq<(Bytes, RespFrame)>, k: Bytes, v: RespFrame): seq<(Bytes, RespFrame)> {
    if es == [] then [(k, v)]
    else if es[0].0 == k then [(k, v)] + es[1..]
    else if Less(k, es[0].0) then [(k, v)] + es
    else [es[0]] + InsertEntries(es[1..], k, v)
  }

  /** Insertion replaces the entry at the key's position or opens a new one
      there. */
  lemma {:induction false} InsertEntriesShape(es: seq<(Bytes, RespFrame)>, k: Bytes, v: RespFrame)
    ensures var r, p := InsertEntries(es, k, v), Position(es, k);
      if p < |es| && es[p].0 == k then r == es[p := (k, v)]
      else r == es[..p] + [(k, v)] + es[p..]
  {
    if es != [] {
      if es[0].0 == k {
        LessIrreflexive(k);
      } else if Less(k, es[0].0) {
        LessAsymmetric(k, es[0].0);
      } else {
        LessTotal(k, es[0].0);
        InsertEntriesShape(es[1..], k, v);
        assert es == [es[0]] + es[1..];
      }
    }
  }

  /** After insertion the key maps to the new value and every other key to
      what it mapped to before. */
  lemma {:induction false} InsertEntriesLookup(es: seq<(Bytes, RespFrame)>, k: Bytes, v: RespFrame)
    ensures Lookup(InsertEntries(es, k, v), k) == Some(v)
    ensures forall k' :: k' != k ==> Lookup(InsertEntries(es, k, v), k') == Lookup(es, k')
  {
    if es != [] && es[0].0 != k && !Less(k, es[0].0) {
      InsertEntriesLookup(es[1..], k, v);
    }
  }

  /** Insertion keeps the keys strictly ascending. */
  lemma {:induction false} InsertEntriesSorted(es: seq<(Bytes, RespFrame)>, k: Bytes, v: RespFrame)
    requires Sorted(es)
    ensures Sorted(InsertEntries(es, k, v))
  {
    if es == [] || es[0].0 == k {
    } else if Less(k, es[0].0) {
      forall j | 0 < j < |es| ensures Less(k, es[j].0) {
        LessTransitive(k, es[0].0, es[j].0);
      }
    } else {
      LessTotal(k, es[0].0);
      var tail := InsertEntries(es[1..], k, v);
      var r := [es[0]] + tail;
      assert Sorted(es[1..]);
      InsertEntriesSorted(es[1..], k, v);
      InsertEntriesLookup(es[1..], k, v);
      forall j | 0 < j < |r| ensures Less(r[0].0, r[j].0) {
        if r[j].0 != k {
          LookupInSorted(es, r[j].0, tail, j - 1);
        }
      }
    }
  }

  /** An entry of a sorted tail is an entry of the whole; what this needs:
      every key of `tail` other than `k`, looked up in `es[1..]`, sits after `es[0]`. */
  lemma LookupInSorted(es: seq<(Bytes, RespFrame)>, key: Bytes, tail: seq<(Bytes, RespFrame)>, j: nat)
    requires Sorted(es) && |es| > 0
    requires j < |tail| && tail[j].0 == key
    requires Lookup(tail, key) == Lookup(es[1..], key)
    ensures Less(es[0].0, key)
  {
    LookupAt(tail, j);
    var i := LookupIndex(es[1..], key);
    assert es[1..][i] == es[i + 1];
  }

  /** Every key stored in the entries is found by `Lookup`. */
  lemma {:induction false} LookupAt(es: seq<(Bytes, RespFrame)>, i: nat)
    requires i < |es|
    ensures Lookup(es, es[i].0).Some?
  {
    if i > 0 && es[0].0 != es[i].0 {
      LookupAt(es[1..], i - 1);
    }
  }

  /** A key that `Lookup` finds is the key of some entry. */
  lemma {:induction false} LookupIndex(es: seq<(Bytes, RespFrame)>, k: Bytes) returns (i: nat)
    requires Lookup(es, k).Some?
    ensures i < |es| && es[i].0 == k && Lookup(es, k) == Some(es[i].1)
  {
    if es[0].0 == k {
      i := 0;
    } else {
      var t := LookupIndex(es[1..], k);
      i := t + 1;
    }
  }

  /** In sorted entries the key is present exactly when it sits at its
      position. */
  lemma {:induction false} PositionFindsKey(es: seq<(Bytes, RespFrame)>, k: Bytes)
    requires Sorted(es)
    ensures var p := Position(es, k);
      Lookup(es, k).Some? <==> p < |es| && es[p].0 == k
  {
    if es != [] {
      if Less(es[0].0, k) {
        LessIrreflexive(k);
        assert Sorted(es[1..]);
        PositionFindsKey(es[1..], k);
      } else if es[0].0 != k {
        if Lookup(es, k).Some? {
          var i := LookupIndex(es, k);
        }
      }
    }
  }

  /** A key below the first key of sorted entries is absent. */
  lemma BelowFirstAbsent(es: seq<(Bytes, RespFrame)>, k: Bytes)
    requires Sorted(es) && es != [] && Less(k, es[0].0)
    ensures Lookup(es, k) == None
  {
    if Lookup(es, k).Some? {
      var i := LookupIndex(es, k);
      if i == 0 {
        LessIrreflexive(k);
      } else {
        LessAsymmetric(k, es[0].0);
      }
      assert false;
    }
  }

  /** The first key of sorted entries does not occur again. */
  lemma HeadAbsentFromTail(es: seq<(Bytes, RespFrame)>)
    requires Sorted(es) && es != []
    ensures Lookup(es[1..], es[0].0) == None
  {
    if Lookup(es[1..], es[0].0).Some? {
      var i := LookupIndex(es[1..], es[0].0);
      assert es[1..][i] == es[i + 1];
      LessIrreflexive(es[0].0);
      assert false;
    }
  }

  /** Sorted entries are determined by what they map each key to. */
  lemma {:induction false} SortedExtensional(a: seq<(Bytes, RespFrame)>, b: seq<(Bytes, RespFrame)>)
    requires Sorted(a) && Sorted(b)
    requires forall k :: Lookup(a, k) == Lookup(b, k)
    ensures a == b
    decreases |a|
  {
    if a == [] || b == [] {
      if a != [] {
        assert Lookup(a, a[0].0).Some?;
        assert false;
      }
      if b != [] {
        assert Lookup(b, b[0].0).Some?;
        assert false;
      }
    } else {
      if a[0].0 != b[0].0 {
        LessTotal(a[0].0, b[0].0);
        if Less(a[0].0, b[0].0) {
          BelowFirstAbsent(b, a[0].0);
        } else {
          BelowFirstAbsent(a, b[0].0);
        }
        assert false;
      }
      assert Lookup(a, a[0].0) == Some(a[0].1) && Lookup(b, b[0].0) == Some(b[0].1);
      forall k ensures Lookup(a[1..], k) == Lookup(b[1..], k) {
        if k == a[0].0 {
          HeadAbsentFromTail(a);
          HeadAbsentFromTail(b);
        } else {
          assert Lookup(a, k) == Lookup(a[1..], k) && Lookup(b, k) == Lookup(b[1..], k);
        }
      }
      assert Sorted(a[1..]) && Sorted(b[1..]);
      SortedExtensional(a[1..], b[1..]);
      assert a == [a[0]] + a[1..] && b == [b[0]] + b[1..];
    }
  }

  /** Two maps with the same contents are the same map, whatever insertions
      built them. */
  lemma SameContentsSameMap(a: RespMap, b: RespMap)
    requires a.Valid() && b.Valid()
    requires forall k :: a.Get(k) == b.Get(k)
    ensures a == b
  {
    forall k ensures Lookup(a.entries, k) == Lookup(b.entries, k) {
      assert a.Get(k) == b.Get(k);
    }
    SortedExtensional(a.entries, b.entries);
  }

  /** Insertion order does not matter for distinct keys. */
  lemma InsertCommutes(m: RespMap, k1: Bytes, v1: RespFrame, k2: Bytes, v2: RespFrame)
    requires m.Valid() && k1 != k2
    ensures m.Insert(k1, v1).Insert(k2, v2) == m.Insert(k2, v2).Insert(k1, v1)
  {
    var a := m.Insert(k1, v1).Insert(k2, v2);
    var b := m.Insert(k2, v2).Insert(k1, v1);
    forall k ensures a.Get(k) == b.Get(k) {
    }
    SameContentsSameMap(a, b);
  }

  /** Inserting a key twice keeps only the last value. */
  lemma InsertLastWriteWins(m: RespMap, k: Bytes, v1: RespFrame, v2: RespFrame)
    requires m.Valid()
    ensures m.Insert(k, v1).Insert(k, v2) == m.Insert(k, v2)
  {
    var a := m.Insert(k, v1).Insert(k, v2);
    var b := m.Insert(k, v2);
    forall k' ensures a.Get(k') == b.Get(k') {
    }
    SameContentsSameMap(a, b);
  }

  function KeySet(es: seq<(Bytes, RespFrame)>): set<Bytes> {
    set i | 0 <= i < |es| :: es[i].0
  }

  /** A map holds as many entries as distinct keys: no key is stored twice. */
  lemma {:induction false} LenIsKeyCount(es: seq<(Bytes, RespFrame)>)
    requires Sorted(es)
    ensures |KeySet(es)| == |es|
  {
    if es != [] {
      assert Sorted(es[1..]);
      LenIsKeyCount(es[1..]);
      KeySetCons(es);
      HeadKeyNotInTail(es);
    }
  }

  lemma KeySetCons(es: seq<(Bytes, RespFrame)>)
    requires es != []
    ensures KeySet(es) == {es[0].0} + KeySet(es[1..])
  {
    forall key | key in KeySet(es) ensures key in {es[0].0} + KeySet(es[1..]) {
      var i :| 0 <= i < |es| && es[i].0 == key;
      if i > 0 {
        assert es[1..][i - 1] == es[i];
      }
    }
    forall key | key in KeySet(es[1..]) ensures key in KeySet(es) {
      var i :| 0 <= i < |es[1..]| && es[1..][i].0 == key;
      assert es[i + 1].0 == key;
    }
  }

  lemma HeadKeyNotInTail(es: seq<(Bytes, RespFrame)>)
    requires Sorted(es) && es != []
    ensures es[0].0 !in KeySet(es[1..])
  {
    if es[0].0 in KeySet(es[1..]) {
      var i :| 0 <= i < |es[1..]| && es[1..][i].0 == es[0].0;
      assert es[i + 1].0 == es[0].0;
      LessIrreflexive(es[0].0);
      assert false;
    }
  }

  /** Keys inserted as "b" then "a" iterate as "a", "b". */
  lemma InsertOrderExample(x: RespFrame, y: RespFrame)
    ensures RespMap.New().Insert([98], x).Insert([97], y).Keys() == [[97], [98]]
  {
    var m := RespMap.New().Insert([98], x);
    assert m.entries == [([98], x)];
    assert Less([97], [98]);
    assert m.Insert([97], y).entries == [([97], y), ([98], x)];
  }

  /** In a valid map, the i-th key in iteration order maps to the i-th value. */
  lemma GetAtIndex(m: RespMap, i: nat)
    requires m.Valid() && i < m.Len()
    ensures m.Get(m.entries[i].0) == Some(m.entries[i].1)
  {
    var k := m.entries[i].0;
    LookupAt(m.entries, i);
    var j := LookupIndex(m.entries, k);
    if j != i {
      LessIrreflexive(k);
      assert false;
    }
  }
}
