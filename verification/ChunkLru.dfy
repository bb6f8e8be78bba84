/** The byte-bounded LRU of decompressed chunks (internal/chunkcache.go). */
module ChunkLru {
  import opened Bytes

  datatype Key = Key(si: int, ci: int)

  datatype Entry = Entry(key: Key, data: bytes)

  // ------------------------------------------------------------ specification
  // The cache as a list of entries, most recently used first.

  function Size(es: seq<Entry>): nat {
    if es == [] then 0 else |es[0].data| + Size(es[1..])
  }

  ghost predicate Distinct(es: seq<Entry>) {
    forall i, j :: 0 <= i < j < |es| ==> es[i].key != es[j].key
  }

  function Find(es: seq<Entry>, k: Key): (r: Option<bytes>)
    ensures r.Some? <==> exists i :: 0 <= i < |es| && es[i].key == k
    ensures r.Some? ==> Entry(k, r.value) in es
  {
    if es == [] then None
    else if es[0].key == k then Some(es[0].data)
    else
      var r := Find(es[1..], k);
      assert r.Some? ==> exists i :: 0 <= i < |es[1..]| && es[1..][i].key == k;
      assert forall i :: 1 <= i < |es| ==> es[i] == es[1..][i - 1];
      r
  }

  function Without(es: seq<Entry>, k: Key): (r: seq<Entry>)
    ensures forall e :: e in r <==> e in es && e.key != k
  {
    if es == [] then []
    else if es[0].key == k then Without(es[1..], k)
    else [es[0]] + Without(es[1..], k)
  }

  /** A hit makes its entry the most recently used one. */
  function Touch(es: seq<Entry>, k: Key): seq<Entry> {
    match Find(es, k)
    case None => es
    case Some(d) => [Entry(k, d)] + Without(es, k)
  }

  /** Drop least recently used entries while the stored bytes exceed the capacity. */
  function Evict(es: seq<Entry>, cap: nat): seq<Entry> {
    if es != [] && Size(es) > cap then Evict(es[..|es| - 1], cap) else es
  }

  function PutSpec(es: seq<Entry>, cap: nat, k: Key, d: bytes): seq<Entry> {
    Evict([Entry(k, d)] + Without(es, k), cap)
  }

  lemma {:induction false} SizeSplit(a: seq<Entry>, b: seq<Entry>)
    ensures Size(a + b) == Size(a) + Size(b)
  {
    if a == [] {
      assert a + b == b;
    } else {
      assert (a + b)[1..] == a[1..] + b;
      SizeSplit(a[1..], b);
    }
  }

  lemma SizePrefix(es: seq<Entry>, m: nat, n: nat)
    requires m <= n <= |es|
    ensures Size(es[..m]) <= Size(es[..n])
  {
    assert es[..n] == es[..m] + es[m..n];
    SizeSplit(es[..m], es[m..n]);
  }

  /** What survives an eviction is the longest prefix of the recency order that fits. */
  lemma {:induction false} EvictIsLongestPrefix(es: seq<Entry>, cap: nat, m: nat)
    requires m <= |es|
    ensures |Evict(es, cap)| <= |es| && Evict(es, cap) == es[..|Evict(es, cap)|]
    ensures Size(es[..m]) <= cap <==> m <= |Evict(es, cap)|
    decreases |es|
  {
    if es != [] && Size(es) > cap {
      var init := es[..|es| - 1];
      if m == |es| {
        EvictIsLongestPrefix(init, cap, m - 1);
        assert es[..m] == es;
      } else {
        EvictIsLongestPrefix(init, cap, m);
        assert init[..m] == es[..m];
      }
      assert init[..|Evict(init, cap)|] == es[..|Evict(init, cap)|];
    } else {
      SizePrefix(es, m, |es|);
      assert es[..|es|] == es;
    }
  }

  lemma {:induction false} WithoutDistinct(es: seq<Entry>, k: Key)
    requires Distinct(es)
    ensures Distinct(Without(es, k))
  {
    if es != [] {
      WithoutDistinct(es[1..], k);
      var rest := Without(es[1..], k);
      forall j | 0 <= j < |rest| ensures es[0].key != rest[j].key {
        assert rest[j] in es[1..];
      }
    }
  }

  /** A put keeps keys distinct, stays within capacity, and holds nothing but the entry put and old ones. */
  lemma PutKeeps(es: seq<Entry>, cap: nat, k: Key, d: bytes)
    requires Distinct(es)
    ensures Distinct(PutSpec(es, cap, k, d))
    ensures Size(PutSpec(es, cap, k, d)) <= cap
    ensures forall e :: e in PutSpec(es, cap, k, d) ==> e == Entry(k, d) || (e in es && e.key != k)
  {
    WithoutDistinct(es, k);
    var full := [Entry(k, d)] + Without(es, k);
    var n := |Evict(full, cap)|;
    EvictIsLongestPrefix(full, cap, 0);
    EvictIsLongestPrefix(full, cap, n);
    assert Distinct(full);
    forall e | e in full[..n] ensures e == Entry(k, d) || (e in es && e.key != k) {}
  }

  lemma {:induction false} WithoutOthers(es: seq<Entry>, k: Key, k': Key)
    ensures Find(Without(es, k), k') == if k' == k then None else Find(es, k')
  {
    if es != [] {
      WithoutOthers(es[1..], k, k');
      if es[0].key != k {
        assert ([es[0]] + Without(es[1..], k))[1..] == Without(es[1..], k);
      }
    }
  }

  lemma {:induction false} WithoutMissing(es: seq<Entry>, k: Key)
    requires Find(es, k) == None
    ensures Without(es, k) == es
  {
    if es != [] { WithoutMissing(es[1..], k); }
  }

  lemma {:induction false} WithoutSize(es: seq<Entry>, k: Key)
    requires Distinct(es)
    ensures Size(Without(es, k)) + (match Find(es, k) case None => 0 case Some(d) => |d|) == Size(es)
  {
    if es != [] {
      WithoutSize(es[1..], k);
      if es[0].key != k {
        assert ([es[0]] + Without(es[1..], k))[1..] == Without(es[1..], k);
      }
    }
  }

  /** A lookup changes what is most recent, never what is stored. */
  lemma TouchKeeps(es: seq<Entry>, k: Key, k': Key)
    requires Distinct(es)
    ensures Distinct(Touch(es, k)) && Size(Touch(es, k)) == Size(es)
    ensures Find(Touch(es, k), k') == Find(es, k')
  {
    WithoutDistinct(es, k);
    WithoutSize(es, k);
    WithoutOthers(es, k, k');
    match Find(es, k)
    case None =>
    case Some(d) => assert ([Entry(k, d)] + Without(es, k))[1..] == Without(es, k);
  }

  /** A value is found right after it is put exactly when it fits; one that does not empties the cache. */
  lemma PutThenGet(es: seq<Entry>, cap: nat, k: Key, d: bytes)
    requires Distinct(es)
    ensures Find(PutSpec(es, cap, k, d), k) == if |d| <= cap then Some(d) else None
    ensures |d| > cap ==> PutSpec(es, cap, k, d) == []
  {
    var full := [Entry(k, d)] + Without(es, k);
    EvictIsLongestPrefix(full, cap, 1);
    assert full[..1] == [Entry(k, d)];
  }

  // ------------------------------------------------------------ whole runs

  datatype Op = Get(key: Key) | Put(key: Key, data: bytes)

  function Step(es: seq<Entry>, cap: nat, op: Op): seq<Entry> {
    match op
    case Get(k) => Touch(es, k)
    case Put(k, d) => PutSpec(es, cap, k, d)
  }

  /** The contents after a history of operations on an empty cache. */
  function Run(ops: seq<Op>, cap: nat): seq<Entry> {
    if ops == [] then [] else Step(Run(ops[..|ops| - 1], cap), cap, ops[|ops| - 1])
  }

  /** The value most recently put under k. */
  function LastPut(ops: seq<Op>, k: Key): Option<bytes> {
    if ops == [] then None
    else
      var last := ops[|ops| - 1];
      if last.Put? && last.key == k then Some(last.data) else LastPut(ops[..|ops| - 1], k)
  }

  lemma {:induction false} FindPrefix(es: seq<Entry>, n: nat, k: Key)
    requires n <= |es|
    ensures Find(es[..n], k) == None || Find(es[..n], k) == Find(es, k)
  {
    if n > 0 {
      assert es[..n][0] == es[0] && es[..n][1..] == es[1..][..n - 1];
      FindPrefix(es[1..], n - 1, k);
    }
  }

  /** Over every history: keys stay distinct, the bound holds, and a hit is the last value put. */
  lemma {:induction false} RunInvariant(ops: seq<Op>, cap: nat, k: Key)
    ensures Distinct(Run(ops, cap)) && Size(Run(ops, cap)) <= cap
    ensures Find(Run(ops, cap), k) == None || Find(Run(ops, cap), k) == LastPut(ops, k)
    decreases |ops|
  {
    if ops != [] {
      var front, last := ops[..|ops| - 1], ops[|ops| - 1];
      var es := Run(front, cap);
      RunInvariant(front, cap, k);
      match last {
        case Get(key) => TouchKeeps(es, key, k);
        case Put(key, d) =>
          PutKeeps(es, cap, key, d);
          var full := [Entry(key, d)] + Without(es, key);
          EvictIsLongestPrefix(full, cap, 0);
          FindPrefix(full, |Evict(full, cap)|, k);
          WithoutOthers(es, key, k);
          assert full[1..] == Without(es, key);
      }
    }
  }

  // ------------------------------------------------------------ the cache object

  /** One list element: its key never changes, its data is replaced in place by a later put. */
  class Element {
    const key: Key
    var data: bytes

    constructor (key: Key, data: bytes)
      ensures this.key == key && this.data == data
    {
      this.key, this.data := key, data;
    }
  }

  function RemoveElement(s: seq<Element>, e: Element): seq<Element> {
    if s == [] then []
    else if s[0] == e then RemoveElement(s[1..], e)
    else [s[0]] + RemoveElement(s[1..], e)
  }

  ghost predicate NoDuplicates(s: seq<Element>) {
    forall i, j :: 0 <= i < j < |s| ==> s[i] != s[j]
  }

  lemma {:induction false} RemovedMembers(s: seq<Element>, e: Element)
    ensures forall i :: 0 <= i < |RemoveElement(s, e)| ==> RemoveElement(s, e)[i] in s && RemoveElement(s, e)[i] != e
    ensures forall x :: x in s && x != e ==> x in RemoveElement(s, e)
  {
    if s != [] {
      RemovedMembers(s[1..], e);
      var rest := RemoveElement(s[1..], e);
      forall i | 0 <= i < |rest| ensures rest[i] in s {
        assert rest[i] in s[1..];
      }
    }
  }

  lemma {:induction false} RemovedDistinct(s: seq<Element>, e: Element)
    requires NoDuplicates(s)
    ensures NoDuplicates(RemoveElement(s, e))
  {
    if s != [] {
      RemovedDistinct(s[1..], e);
      RemovedMembers(s[1..], e);
      var rest := RemoveElement(s[1..], e);
      forall j | 0 <= j < |rest| ensures s[0] != rest[j] {
        assert rest[j] in s[1..];
      }
    }
  }

  ghost function Entries(s: seq<Element>): (r: seq<Entry>)
    reads s
    ensures |r| == |s|
    ensures forall i :: 0 <= i < |s| ==> r[i] == Entry(s[i].key, s[i].data)
  {
    if s == [] then [] else [Entry(s[0].key, s[0].data)] + Entries(s[1..])
  }

  lemma {:induction false} EntriesOfRemoved(s: seq<Element>, e: Element)
    requires forall x :: x in s && x.key == e.key ==> x == e
    ensures Entries(RemoveElement(s, e)) == Without(Entries(s), e.key)
  {
    if s != [] {
      EntriesOfRemoved(s[1..], e);
      assert Entries(s)[1..] == Entries(s[1..]);
    }
  }

  /** The map and the recency list hold the same elements, each under its own key. */
  ghost predicate Keyed(items: map<Key, Element>, lru: seq<Element>) {
    && (forall e :: e in lru ==> e.key in items && items[e.key] == e)
    && (forall k :: k in items ==> items[k] in lru && items[k].key == k)
    && NoDuplicates(lru)
  }

  lemma KeyedTouch(items: map<Key, Element>, lru: seq<Element>, el: Element)
    requires Keyed(items, lru) && el in lru
    ensures Keyed(items, [el] + RemoveElement(lru, el))
    ensures forall e :: e in [el] + RemoveElement(lru, el) <==> e in lru
  {
    RemovedMembers(lru, el);
    RemovedDistinct(lru, el);
    var moved := [el] + RemoveElement(lru, el);
    forall i | 0 <= i < |moved| ensures moved[i] in lru {
      assert i > 0 ==> moved[i] == RemoveElement(lru, el)[i - 1];
    }
    forall e: Element | e in lru ensures e in moved {
      assert e == moved[0] || e in RemoveElement(lru, el);
    }
    forall k | k in items ensures items[k] in moved && items[k].key == k {
      assert items[k] in lru;
    }
  }

  /** Moving a hit's element to the front is the specification's touch. */
  lemma HitIsTouch(items: map<Key, Element>, lru: seq<Element>, k: Key, repr: set<object>)
    requires Keyed(items, lru) && k in items && Within(lru, repr)
    ensures var moved := [items[k]] + RemoveElement(lru, items[k]);
            && Keyed(items, moved) && Within(moved, repr)
            && Entries(moved) == Touch(Entries(lru), k) && Size(Entries(moved)) == Size(Entries(lru))
    ensures Find(Entries(lru), k) == Some(items[k].data)
    ensures Touch(Entries(lru), k) == [Entry(k, items[k].data)] + Without(Entries(lru), k)
  {
    var el := items[k];
    KeyedFind(items, lru, k);
    KeyedTouch(items, lru, el);
    EntriesOfRemoved(lru, el);
    KeyedDistinct(items, lru);
    TouchKeeps(Entries(lru), k, k);
    assert ([el] + RemoveElement(lru, el))[1..] == RemoveElement(lru, el);
  }

  lemma KeyedAt(items: map<Key, Element>, lru: seq<Element>, k: Key)
    requires Keyed(items, lru) && k in items
    ensures items[k].key == k
  {
  }

  lemma KeyedPush(items: map<Key, Element>, lru: seq<Element>, el: Element)
    requires Keyed(items, lru) && el.key !in items
    ensures Keyed(items[el.key := el], [el] + lru)
  {
    assert el !in lru;
  }

  lemma KeyedPop(items: map<Key, Element>, lru: seq<Element>)
    requires Keyed(items, lru) && lru != []
    ensures Keyed(items - {lru[|lru| - 1].key}, lru[..|lru| - 1])
  {
    var last := lru[|lru| - 1];
    forall e | e in lru[..|lru| - 1] ensures e.key != last.key {
      assert e in lru;
    }
  }

  lemma KeyedDistinct(items: map<Key, Element>, lru: seq<Element>)
    requires Keyed(items, lru)
    ensures Distinct(Entries(lru))
  {
    forall i, j | 0 <= i < j < |lru| ensures lru[i].key != lru[j].key {
      assert lru[i] in lru && lru[j] in lru;
    }
  }

  lemma KeyedFind(items: map<Key, Element>, lru: seq<Element>, k: Key)
    requires Keyed(items, lru)
    ensures Find(Entries(lru), k) == if k in items then Some(items[k].data) else None
  {
    var es := Entries(lru);
    if Find(es, k).Some? {
      var j :| 0 <= j < |lru| && es[j] == Entry(k, Find(es, k).value);
      assert lru[j] in lru;
    }
  }

  ghost predicate Within(lru: seq<Element>, repr: set<object>) {
    forall e :: e in lru ==> e in repr
  }

  /** Pushing an element under a new key is the specification's insertion, before any eviction. */
  lemma PushIsInsert(items: map<Key, Element>, lru: seq<Element>, el: Element, repr: set<object>)
    requires Keyed(items, lru) && el.key !in items && Within(lru, repr)
    ensures Within([el] + lru, repr + {el})
    ensures Keyed(items[el.key := el], [el] + lru)
    ensures Entries([el] + lru) == [Entry(el.key, el.data)] + Without(Entries(lru), el.key)
    ensures Size(Entries([el] + lru)) == |el.data| + Size(Entries(lru))
  {
    KeyedPush(items, lru, el);
    KeyedFind(items, lru, el.key);
    WithoutMissing(Entries(lru), el.key);
    assert ([el] + lru)[1..] == lru;
    assert ([Entry(el.key, el.data)] + Entries(lru))[1..] == Entries(lru);
  }

  class ChunkCache {
    const cap: nat
    var size: int
    var items: map<Key, Element>
    var lru: seq<Element>   // front = most recently used

    ghost var Contents: seq<Entry>   // the stored chunks, most recently used first
    ghost var Repr: set<object>

    /** The list and the map agree; the recorded size counts the stored bytes and is within capacity. */
    ghost predicate Valid()
      reads this, Repr
      ensures Valid() ==> this in Repr
    {
      Consistent() && size <= cap
    }

    /** Valid but for the capacity: what holds in the middle of a put. */
    ghost predicate Consistent()
      reads this, Repr
      ensures Consistent() ==> this in Repr
    {
      && this in Repr && Within(lru, Repr)
      && Keyed(items, lru) && Contents == Entries(lru) && size == Size(Contents)
    }

    constructor (cap: nat)
      ensures Valid() && fresh(Repr) && Contents == [] && this.cap == cap
    {
      this.cap := cap;
      size, items, lru := 0, map[], [];
      Contents, Repr := [], {this};
    }

    method Get(k: Key) returns (r: Option<bytes>)
      requires Valid()
      modifies this
      ensures Valid() && Repr == old(Repr)
      ensures r == Find(old(Contents), k)
      ensures Contents == Touch(old(Contents), k)
    {
      KeyedFind(items, lru, k);
      if k in items {
        MoveToFront(items[k]);
        r := Some(items[k].data);
      } else {
        r := None;
      }
    }

    /** container/list's MoveToFront. */
    method MoveToFront(el: Element)
      requires Consistent() && el.key in items && items[el.key] == el
      modifies this
      ensures Consistent() && Repr == old(Repr) && items == old(items) && size == old(size)
      ensures lru != [] && lru[0] == el
      ensures Contents == Touch(old(Contents), el.key)
      ensures Contents == [Entry(el.key, el.data)] + Without(old(Contents), el.key)
    {
      hide Keyed, Within, RemoveElement, Touch, Without, Size, Entries, Find;
      assert el.key == items[el.key].key by { KeyedAt(items, lru, el.key); }
      HitIsTouch(items, lru, el.key, Repr);
      lru := [el] + RemoveElement(lru, el);
      Contents := Touch(Contents, el.key);
    }

    /**
     * Stores d under k as the most recently used entry, replacing the old value in place if there
     * is one, then evicts from the back until the bytes fit.
     */
    method Put(k: Key, d: bytes)
      requires Valid()
      modifies Repr
      ensures Valid() && fresh(Repr - old(Repr))
      ensures Contents == PutSpec(old(Contents), cap, k, d)
    {
      if k in items {
        Replace(items[k], d);
      } else {
        Insert(k, d);
      }
      EvictToFit();
    }

    method Replace(el: Element, d: bytes)
      requires Consistent() && el.key in items && items[el.key] == el
      modifies this, el
      ensures Consistent() && Repr == old(Repr)
      ensures Contents == [Entry(el.key, d)] + Without(old(Contents), el.key)
    {
      MoveToFront(el);
      SetFront(d);
    }

    /** Replaces the most recently used element's data in place. */
    method SetFront(d: bytes)
      requires Consistent() && lru != []
      modifies this`size, this`Contents, lru[0]
      ensures Consistent()
      ensures Contents == [Entry(lru[0].key, d)] + old(Contents)[1..]
    {
      var el := lru[0];
      ghost var rest := lru[1..];
      assert el !in rest;
      size := size + |d| - |el.data|;
      el.data := d;
      UnchangedEntries(rest);
      Contents := [Entry(el.key, d)] + Contents[1..];
      assert Contents[1..] == old(Contents)[1..];
    }

    twostate lemma UnchangedEntries(s: seq<Element>)
      requires unchanged(s)
      ensures Entries(s) == old(Entries(s))
    {
    }

    method Insert(k: Key, d: bytes)
      requires Consistent() && k !in items
      modifies this
      ensures Consistent() && fresh(Repr - old(Repr))
      ensures Contents == [Entry(k, d)] + Without(old(Contents), k)
    {
      var el := new Element(k, d);
      PushFront(el);
    }

    method PushFront(el: Element)
      requires Consistent() && el.key !in items
      modifies this
      ensures Consistent() && Repr == old(Repr) + {el}
      ensures Contents == [Entry(el.key, el.data)] + Without(old(Contents), el.key)
    {
      hide Keyed, Within, Without, Size;
      PushIsInsert(items, lru, el, Repr);
      items := items[el.key := el];
      lru := [el] + lru;
      size := size + |el.data|;
      Contents, Repr := [Entry(el.key, el.data)] + Without(Contents, el.key), Repr + {el};
    }

    /** Evict from the back (least recently used) until under the byte cap. */
    method EvictToFit()
      requires Consistent()
      modifies this
      ensures Valid() && Repr == old(Repr)
      ensures Contents == Evict(old(Contents), cap)
    {
      while size > cap && |lru| > 0
        invariant Consistent() && Repr == old(Repr)
        invariant Evict(Contents, cap) == Evict(old(Contents), cap)
        decreases |lru|
      {
        PopBack();
      }
    }

    method PopBack()
      requires Consistent() && lru != []
      modifies this
      ensures Consistent() && Repr == old(Repr) && |lru| == |old(lru)| - 1
      ensures Contents == old(Contents)[..|old(Contents)| - 1]
    {
      hide Keyed;
      var back := lru[|lru| - 1];
      ghost var es := Contents;
      assert es == es[..|lru| - 1] + [Entry(back.key, back.data)];
      SizeSplit(es[..|lru| - 1], [Entry(back.key, back.data)]);
      KeyedPop(items, lru);
      lru := lru[..|lru| - 1];
      items := items - {back.key};
      size := size - |back.data|;
      Contents := es[..|es| - 1];
      assert Entries(lru) == Contents;
      assert lru == old(lru)[..|old(lru)| - 1] && items == old(items) - {back.key};
      assert Keyed(items, lru);
    }
  }
}
