/** The cache of $cacheFactory: a hash of values, a hash of list entries, and a doubly linked list by recency. */
module Lru {
  datatype Option<T> = None | Some(value: T)

  // ---------------------------------------------------------------- the plain list

  /** A key and its value; an entry whose value was undefined has none. */
  datatype Item<K, V> = Item(key: K, value: Option<V>)

  /** Items from the stalest to the freshest, and the count that the cache keeps. */
  datatype State<K, V> = State(items: seq<Item<K, V>>, size: int)

  function Without<K(==), V>(items: seq<Item<K, V>>, key: K): (r: seq<Item<K, V>>)
    ensures |r| <= |items|
  {
    if items == [] then []
    else (if items[0].key == key then [] else [items[0]]) + Without(items[1..], key)
  }

  function Lookup<K(==), V>(items: seq<Item<K, V>>, key: K): Option<V> {
    if items == [] then None
    else if items[0].key == key then items[0].value
    else Lookup(items[1..], key)
  }

  predicate Has<K(==), V>(items: seq<Item<K, V>>, key: K) {
    exists i :: 0 <= i < |items| && items[i].key == key
  }

  datatype Op<K, V> = Put(key: K, value: Option<V>) | Get(key: K) | Remove(key: K) | RemoveAll

  function Removed<K(==), V>(s: State<K, V>, key: K): State<K, V> {
    if Has(s.items, key) then State(Without(s.items, key), s.size - 1) else s
  }

  /** The freshest place for a key, with its value if it has one. */
  function Touched<K(==), V>(s: State<K, V>, key: K): State<K, V> {
    State(Without(s.items, key) + [Item(key, Lookup(s.items, key))], s.size)
  }

  function Stored<K(==), V>(s: State<K, V>, key: K, value: V): State<K, V> {
    State(Without(s.items, key) + [Item(key, Some(value))], if Lookup(s.items, key).Some? then s.size else s.size + 1)
  }

  /** One operation on the list. */
  function Step<K(==), V>(s: State<K, V>, capacity: nat, op: Op<K, V>): State<K, V> {
    match op
    case Put(key, None) => Touched(s, key)
    case Put(key, Some(value)) =>
      var t := Stored(s, key, value);
      if t.size > capacity then Removed(t, t.items[0].key) else t
    case Get(key) => if Has(s.items, key) then Touched(s, key) else s
    case Remove(key) => Removed(s, key)
    case RemoveAll => State([], 0)
  }

  function Run<K(==), V>(capacity: nat, ops: seq<Op<K, V>>): State<K, V> {
    if ops == [] then State([], 0) else Step(Run(capacity, ops[..|ops| - 1]), capacity, ops[|ops| - 1])
  }

  // ---------------------------------------------------------------- entries and links

  class Entry<K> {
    const key: K
    var n: Entry?<K>
    var p: Entry?<K>

    constructor (key: K)
      ensures this.key == key && n == null && p == null
    {
      this.key, n, p := key, null, null;
    }
  }

  /** Neighbours in the list agree in both directions. */
  ghost predicate Linked<K>(list: seq<Entry<K>>)
    reads list
  {
    forall i :: 0 <= i < |list| ==> LinkedAt(list, i)
  }

  /** The entry at a place in the list, null beyond its ends. */
  function At<K>(list: seq<Entry<K>>, i: int): Entry?<K> {
    if 0 <= i < |list| then list[i] else null
  }

  ghost predicate LinkedAt<K>(list: seq<Entry<K>>, i: nat)
    requires i < |list|
    reads list
  {
    list[i].n == At(list, i + 1) && list[i].p == At(list, i - 1)
  }

  ghost predicate Distinct<T>(s: seq<T>) {
    forall i, j :: 0 <= i < j < |s| ==> s[i] != s[j]
  }

  function Cut<T>(s: seq<T>, j: nat): (r: seq<T>)
    requires j < |s|
    ensures |r| == |s| - 1
    ensures forall i :: 0 <= i < j ==> r[i] == s[i]
    ensures forall i :: j <= i < |r| ==> r[i] == s[i + 1]
  {
    s[..j] + s[j + 1..]
  }

  lemma NextOf<K>(list: seq<Entry<K>>, j: int)
    requires Linked(list) && j < |list|
    ensures j >= 0 ==> list[j].n == At(list, j + 1) && list[j].p == At(list, j - 1)
  {
    assert j >= 0 ==> LinkedAt(list, j);
  }

  /** link(next, prev) */
  method Link<K>(t: Entry?<K>, e: Entry?<K>)
    modifies if t == null then {} else {t}, if e == null then {} else {e}
    ensures t != e ==> (t != null ==> t.p == e) && (e != null ==> e.n == t)
    ensures t == e ==> (t != null ==> t.p == old(t.p) && t.n == old(t.n))
    ensures t != null && t != e ==> t.n == old(t.n)
    ensures e != null && t != e ==> e.p == old(e.p)
  {
    if t != e {
      if t != null {
        t.p := e;
      }
      if e != null {
        e.n := t;
      }
    }
  }

  /** Place j of an entry; -1 for one that is not in the list and has no neighbours. */
  ghost predicate Placed<K>(list: seq<Entry<K>>, t: Entry<K>, j: int)
    reads t
  {
    if j < 0 then t !in list && t.n == null && t.p == null else j < |list| && list[j] == t
  }

  function Rest<T>(s: seq<T>, j: int): (r: seq<T>)
    requires j < |s|
    ensures |r| == if j < 0 then |s| else |s| - 1
    ensures forall i :: 0 <= i < |r| ==> r[i] == s[Skip(i, j)]
  {
    if j < 0 then s else Cut(s, j)
  }

  /** Index in the whole list of place i in the list without place j. */
  function Skip(i: int, j: int): int {
    if j < 0 || i < j then i else i + 1
  }

  lemma RestOf<K>(list: seq<Entry<K>>, t: Entry<K>, j: int)
    requires Distinct(list) && j < |list| && Placed(list, t, j)
    ensures Distinct(Rest(list, j)) && t !in Rest(list, j)
    ensures At(list, 0) == t ==> j == 0
    ensures At(list, |list| - 1) == t ==> list == Rest(list, j) + [t]
    ensures At(list, |list| - 1) != t ==> At(Rest(list, j), |Rest(list, j)| - 1) == At(list, |list| - 1)
    ensures At(list, 0) != t ==> At(Rest(list, j), 0) == At(list, 0)
    ensures j == 0 ==> At(Rest(list, j), 0) == At(list, 1)
  {
    var rest := Rest(list, j);
    forall i, k | 0 <= i < k < |rest|
      ensures rest[i] != rest[k]
    {
      assert rest[i] == list[Skip(i, j)] && rest[k] == list[Skip(k, j)];
    }
  }

  /** Linking its neighbours takes an entry out of the chain. */
  method Splice<K>(t: Entry<K>, ghost list: seq<Entry<K>>, ghost j: int)
    requires Linked(list) && Distinct(list) && j < |list| && Placed(list, t, j)
    modifies list
    ensures Linked(Rest(list, j)) && t.n == old(t.n) && t.p == old(t.p)
  {
    ghost var next, prev, rest := At(list, j + 1), At(list, j - 1), Rest(list, j);
    assert j >= 0 ==> LinkedAt(list, j);
    assert j >= 0 && next == prev ==> |list| == 1;
    label before: Link(t.n, t.p);
    forall i | 0 <= i < |rest|
      ensures LinkedAt(rest, i)
    {
      assert old@before(LinkedAt(list, if j < 0 || i < j then i else i + 1));
    }
  }

  /** The new fresh end. */
  method Append<K>(t: Entry<K>, h: Entry?<K>, ghost list: seq<Entry<K>>)
    requires Linked(list) && Distinct(list) && t !in list && h == At(list, |list| - 1)
    modifies list, t
    ensures Linked(list + [t])
  {
    label before: Link(t, h);
    t.n := null;
    ghost var longer := list + [t];
    forall i | 0 <= i < |longer|
      ensures LinkedAt(longer, i)
    {
      assert i < |list| ==> old@before(LinkedAt(list, i));
    }
  }

  // ---------------------------------------------------------------- keys in order of use

  predicate KeysDistinct<K(==), V>(items: seq<Item<K, V>>) {
    forall i, j :: 0 <= i < j < |items| ==> items[i].key != items[j].key
  }

  lemma {:induction false} WithoutNone<K, V>(items: seq<Item<K, V>>, key: K)
    requires !Has(items, key)
    ensures Without(items, key) == items && Lookup(items, key) == None
  {
    if items != [] {
      assert items[0].key != key;
      assert forall i :: 0 <= i < |items[1..]| ==> items[1..][i] == items[i + 1];
      WithoutNone(items[1..], key);
    }
  }

  lemma {:induction false} WithoutAt<K, V>(items: seq<Item<K, V>>, j: nat)
    requires KeysDistinct(items) && j < |items|
    ensures Without(items, items[j].key) == Cut(items, j) && Lookup(items, items[j].key) == items[j].value
  {
    if j == 0 {
      assert forall i :: 0 <= i < |items[1..]| ==> items[1..][i] == items[i + 1];
      WithoutNone(items[1..], items[0].key);
      assert [] + items[1..] == Cut(items, 0);
    } else {
      assert items[0].key != items[j].key;
      WithoutAt(items[1..], j - 1);
      assert Cut(items, j) == [items[0]] + Cut(items[1..], j - 1);
    }
  }

  // ---------------------------------------------------------------- the cache

  class Cache<K(==), V> {
    /** The capacity that was asked for, or the largest number when there was none, or 0. */
    const c: nat
    var a: map<K, V>
    var u: map<K, Entry<K>>
    var h: Entry?<K>
    var p: Entry?<K>
    var o: int
    ghost var list: seq<Entry<K>>

    /** The hash of entries and the chain hold the same entries; every stored value has an entry. */
    ghost predicate Valid()
      reads this, list
    {
      && Linked(list) && Ends() && Indexed(list, u) && a.Keys <= u.Keys
    }

    ghost predicate Ends()
      reads this
    {
      h == At(list, |list| - 1) && p == At(list, 0)
    }

    /** The cache as a list. */
    ghost function Model(): State<K, V>
      reads this
    {
      State(Items(list, a), o)
    }

    constructor (capacity: nat)
      ensures Valid() && Model() == State([], 0) && c == capacity && fresh(list)
    {
      c, a, u, h, p, o, list := capacity, map[], map[], null, null, 0, [];
    }

    /** refresh(entry): to the fresh end, from place j or from outside. */
    method Refresh(t: Entry<K>, ghost j: int)
      requires Linked(list) && Distinct(list) && Ends() && j < |list| && Placed(list, t, j)
      modifies this`h, this`p, this`list, list, t
      ensures list == Rest(old(list), j) + [t] && Linked(list) && Ends()
    {
      hide Linked, Distinct, Rest;
      RestOf(list, t, j);
      if t != h {
        NextOf(list, j);
        if p == null {
          p := t;
        } else if p == t {
          p := t.n;
        }
        ghost var rest := Rest(list, j);
        Splice(t, list, j);
        Append(t, h, rest);
        h := t;
        list := rest + [t];
      }
    }

    /** The place of a key's entry. */
    ghost function Place(key: K): (j: int)
      requires Indexed(list, u)
      reads this
      ensures if key in u then 0 <= j < |list| && list[j] == u[key] else j == -1
    {
      if key in u then PlaceOf(list, u[key]) else -1
    }

    /** The first half of put: the entry of a key, made if there is none, goes to the fresh end. */
    method Touch(key: K)
      requires Valid()
      modifies this`u, this`h, this`p, this`list, list
      ensures Valid() && Kept(old(list), list) && key in u && list != [] && list[|list| - 1] == u[key]
      ensures Model() == Touched(old(Model()), key)
    {
      hide Linked, Without, Lookup, Has, Items, Indexed, Cut;
      ghost var j, was := Place(key), list;
      IndexedDistinct(list, u);
      var n: Entry<K>;
      if key in u {
        n := u[key];
        KeyOf(list, u, key);
      } else {
        n := new Entry(key);
        assert key !in a;
        u := u[key := n];
      }
      Refresh(n, j);
      ItemsTouched(was, old(u), a, j, n);
      IndexedMore(was, old(u), j, n);
    }

    /** put; an undefined value refreshes or creates the entry and stores nothing. */
    method Put(key: K, value: Option<V>)
      requires Valid()
      modifies this, list
      ensures Valid() && Kept(old(list), list)
      ensures Model() == Step(old(Model()), c, Op.Put(key, value))
    {
      hide Linked, Indexed, Without, Lookup, Has;
      Touch(key);
      ghost var touched := list;
      if value.Some? {
        ItemsStored(list, u, a, key, value.value);
        if key !in a {
          o := o + 1;
        }
        a := a[key := value.value];
        assert Model() == Stored(old(Model()), key, value.value);
        if o > c {
          Remove(p.key);
        }
      }
    }

    /** get */
    method Get(key: K) returns (value: Option<V>)
      requires Valid()
      modifies this`h, this`p, this`list, list
      ensures Valid() && Kept(old(list), list) && value == Lookup(old(Model()).items, key)
      ensures Model() == Step(old(Model()), c, Op.Get(key))
    {
      hide Linked, Without, Lookup, Has, Items, Indexed, Cut;
      ghost var j, was := Place(key), list;
      IndexedDistinct(list, u);
      HasKey(list, u, a, key);
      if key in u {
        var e := u[key];
        assert e.key == key by { KeyOf(list, u, key); }
        Refresh(e, j);
        ItemsTouched(was, u, a, j, e);
        IndexedMore(was, old(u), j, e);
        value := if key in a then Some(a[key]) else None;
      } else {
        WithoutNone(Items(list, a), key);
        value := None;
      }
    }

    /** Taking an entry out of the chain, at the ends or between them. */
    method Unlink(e: Entry<K>, ghost j: nat)
      requires Linked(list) && Distinct(list) && Ends() && j < |list| && list[j] == e
      modifies this`h, this`p, this`list, list
      ensures list == Cut(old(list), j) && Linked(list) && Ends()
    {
      hide Linked;
      NextOf(list, j);
      if e == h {
        h := e.p;
      }
      if e == p {
        p := e.n;
      }
      Splice(e, list, j);
      list := Cut(list, j);
    }

    /** remove */
    method Remove(key: K)
      requires Valid()
      modifies this, list
      ensures Valid() && Kept(old(list), list)
      ensures Model() == Removed(old(Model()), key)
    {
      hide Without, Lookup, Has, Items, Indexed, Linked, Cut, Distinct;
      ghost var j, was := Place(key), list;
      IndexedDistinct(list, u);
      HasKey(list, u, a, key);
      if key in u {
        var e := u[key];
        assert e.key == key by { KeyOf(list, u, key); }
        Unlink(e, j);
        u := u - {key};
        a := a - {key};
        o := o - 1;
        ItemsCut(was, old(u), old(a), j);
        IndexedLess(was, old(u), j);
      }
    }

    /** removeAll */
    method RemoveAll()
      modifies this
      ensures Valid() && list == []
      ensures Model() == State([], 0)
    {
      a, o, u, h, p, list := map[], 0, map[], null, null, [];
    }
  }

  /** Entries of the list were there before or are new. */
  twostate predicate Kept<K>(before: seq<Entry<K>>, new now: seq<Entry<K>>) {
    forall i :: 0 <= i < |now| ==> now[i] in before || fresh(now[i])
  }

  /** Every entry is found by its key, and every key leads to an entry of the list. */
  ghost predicate Indexed<K>(list: seq<Entry<K>>, u: map<K, Entry<K>>) {
    && (forall i :: 0 <= i < |list| ==> list[i].key in u && u[list[i].key] == list[i])
    && (forall i, j :: 0 <= i < j < |list| ==> list[i].key != list[j].key)
    && (forall k :: k in u ==> u[k].key == k && u[k] in list)
  }

  function Items<K(==), V>(list: seq<Entry<K>>, a: map<K, V>): (r: seq<Item<K, V>>)
    ensures |r| == |list|
  {
    seq(|list|, i requires 0 <= i < |list| => Item(list[i].key,
        if list[i].key in a then Some(a[list[i].key]) else None))
  }

  ghost function PlaceOf<T>(s: seq<T>, x: T): (j: nat)
    requires x in s
    ensures j < |s| && s[j] == x
  {
    if s[0] == x then 0 else 1 + PlaceOf(s[1..], x)
  }

  lemma ItemsTouched<K, V>(list: seq<Entry<K>>, u: map<K, Entry<K>>, a: map<K, V>, j: int, t: Entry<K>)
    requires Indexed(list, u) && j < |list| && if j < 0 then t.key !in u else list[j] == t
    ensures Items(Rest(list, j) + [t], a)
         == Without(Items(list, a), t.key) + [Item(t.key, if t.key in a then Some(a[t.key]) else None)]
    ensures j >= 0 ==> Lookup(Items(list, a), t.key) == if t.key in a then Some(a[t.key]) else None
    ensures j < 0 ==> Lookup(Items(list, a), t.key) == None && Without(Items(list, a), t.key) == Items(list, a)
  {
    hide Without, Lookup, Has;
    var items, moved := Items(list, a), Item(t.key, if t.key in a then Some(a[t.key]) else None);
    HasKey(list, u, a, t.key);
    ItemsDistinct(list, u, a);
    if j < 0 {
      WithoutNone(items, t.key);
      assert Items(list + [t], a) == items + [moved];
    } else {
      assert t.key in u by { hide Items; }
      WithoutAt(items, j);
      assert Items(Cut(list, j) + [t], a) == Cut(items, j) + [moved];
    }
  }

  lemma ItemsDistinct<K, V>(list: seq<Entry<K>>, u: map<K, Entry<K>>, a: map<K, V>)
    requires Indexed(list, u)
    ensures KeysDistinct(Items(list, a))
  {
  }

  lemma IndexedDistinct<K>(list: seq<Entry<K>>, u: map<K, Entry<K>>)
    requires Indexed(list, u)
    ensures Distinct(list)
  {
  }

  lemma KeyOf<K>(list: seq<Entry<K>>, u: map<K, Entry<K>>, key: K)
    requires Indexed(list, u) && key in u
    ensures u[key].key == key
  {
  }

  lemma ItemsCut<K, V>(list: seq<Entry<K>>, u: map<K, Entry<K>>, a: map<K, V>, j: nat)
    requires Indexed(list, u) && j < |list|
    ensures Items(Cut(list, j), a - {list[j].key}) == Without(Items(list, a), list[j].key)
  {
    hide Without, Lookup;
    ItemsDistinct(list, u, a);
    WithoutAt(Items(list, a), j);
  }

  lemma IndexedMore<K>(list: seq<Entry<K>>, u: map<K, Entry<K>>, j: int, t: Entry<K>)
    requires Indexed(list, u) && j < |list|
    requires if j < 0 then t.key !in u else list[j] == t
    ensures Indexed(Rest(list, j) + [t], u[t.key := t])
    ensures j >= 0 ==> u[t.key := t] == u
  {
    hide Rest;
    var rest, v := Rest(list, j), u[t.key := t];
    forall i | 0 <= i < |rest|
      ensures rest[i].key in v && v[rest[i].key] == rest[i] && rest[i].key != t.key
    {
      assert rest[i] == list[Skip(i, j)];
    }
    forall i, k | 0 <= i < k < |rest|
      ensures rest[i].key != rest[k].key
    {
      assert rest[i] == list[Skip(i, j)] && rest[k] == list[Skip(k, j)];
    }
    forall k | k in v
      ensures v[k].key == k && v[k] in rest + [t]
    {
      EntryStays(list, u, j, t, k);
    }
  }

  lemma EntryStays<K>(list: seq<Entry<K>>, u: map<K, Entry<K>>, j: int, t: Entry<K>, k: K)
    requires Indexed(list, u) && j < |list| && k in u[t.key := t]
    requires if j < 0 then t.key !in u else list[j] == t
    ensures u[t.key := t][k].key == k && u[t.key := t][k] in Rest(list, j) + [t]
  {
    hide Rest;
    var rest := Rest(list, j);
    if k != t.key {
      var i := PlaceOf(list, u[k]);
      var r := if j < 0 || i < j then i else i - 1;
      assert rest[r] == list[Skip(r, j)] == u[k];
      assert (rest + [t])[r] == u[k];
    } else {
      assert (rest + [t])[|rest|] == t;
    }
  }

  lemma IndexedLess<K>(list: seq<Entry<K>>, u: map<K, Entry<K>>, j: nat)
    requires Indexed(list, u) && j < |list|
    ensures Indexed(Cut(list, j), u - {list[j].key})
  {
    var less := Cut(list, j);
    forall k | k in u - {list[j].key}
      ensures u[k].key == k && u[k] in less
    {
      var i := PlaceOf(list, u[k]);
      CutKeeps(list, i, j);
    }
  }

  lemma CutKeeps<T>(s: seq<T>, i: nat, j: nat)
    requires i < |s| && j < |s| && i != j
    ensures s[i] in Cut(s, j)
  {
    assert Cut(s, j)[if i < j then i else i - 1] == s[i];
  }

  lemma HasKey<K, V>(list: seq<Entry<K>>, u: map<K, Entry<K>>, a: map<K, V>, key: K)
    requires Indexed(list, u)
    ensures Has(Items(list, a), key) <==> key in u
  {
    if key in u {
      assert Items(list, a)[PlaceOf(list, u[key])].key == key;
    }
  }

  /** Storing a value under the freshest key. */
  lemma ItemsStored<K, V>(list: seq<Entry<K>>, u: map<K, Entry<K>>, a: map<K, V>, key: K, value: V)
    requires Indexed(list, u) && list != [] && key in u && u[key] == list[|list| - 1]
    ensures Items(list, a[key := value]) == Items(list, a)[|list| - 1 := Item(key, Some(value))]
    ensures Items(list, a)[|list| - 1] == Item(key, if key in a then Some(a[key]) else None)
    ensures forall i :: 0 <= i < |list| ==> Items(list, a)[i].key == list[i].key
  {
    KeyOf(list, u, key);
  }

  // ---------------------------------------------------------------- every run

  /** Taking a key away leaves the list as it is or drops one place. */
  lemma WithoutCut<K, V>(items: seq<Item<K, V>>, key: K) returns (j: int)
    requires KeysDistinct(items)
    ensures if Has(items, key) then 0 <= j < |items| && items[j].key == key && Without(items, key) == Cut(items, j)
                                    && Lookup(items, key) == items[j].value
            else j == -1 && Without(items, key) == items && Lookup(items, key) == None
  {
    if Has(items, key) {
      j :| 0 <= j < |items| && items[j].key == key;
      WithoutAt(items, j);
    } else {
      j := -1;
      WithoutNone(items, key);
    }
  }

  lemma WithoutDistinct<K, V>(items: seq<Item<K, V>>, key: K)
    requires KeysDistinct(items)
    ensures KeysDistinct(Without(items, key)) && !Has(Without(items, key), key)
    ensures forall i :: 0 <= i < |Without(items, key)| ==> Without(items, key)[i] in items
  {
    var j := WithoutCut(items, key);
    hide Without;
  }

  /** How many keys have a value. */
  function Count<K, V>(items: seq<Item<K, V>>): nat {
    if items == [] then 0 else (if items[0].value.Some? then 1 else 0) + Count(items[1..])
  }

  lemma {:induction false} CountAppend<K, V>(a: seq<Item<K, V>>, b: seq<Item<K, V>>)
    ensures Count(a + b) == Count(a) + Count(b)
  {
    if a == [] {
      assert a + b == b;
    } else {
      assert (a + b)[1..] == a[1..] + b;
      CountAppend(a[1..], b);
    }
  }

  lemma CountWithout<K, V>(items: seq<Item<K, V>>, key: K)
    requires KeysDistinct(items)
    ensures Count(items) == Count(Without(items, key)) + if Lookup(items, key).Some? then 1 else 0
  {
    var j := WithoutCut(items, key);
    hide Without, Lookup, Has;
    if j >= 0 {
      assert items == items[..j] + ([items[j]] + items[j + 1..]);
      CountAppend(items[..j], [items[j]] + items[j + 1..]);
      CountAppend([items[j]], items[j + 1..]);
      CountAppend(items[..j], items[j + 1..]);
      CountOne(items[j]);
    }
  }

  lemma CountOne<K, V>(item: Item<K, V>)
    ensures Count([item]) == if item.value.Some? then 1 else 0
  {
    assert [item][1..] == [];
  }

  /** An operation that takes an entry without a value away: the cache's count then loses one that it never had. */
  predicate Loses<K(==), V>(s: State<K, V>, capacity: nat, op: Op<K, V>) {
    match op
    case Put(key, Some(value)) =>
      var t := Stored(s, key, value);
      t.size > capacity && t.items[0].value.None?
    case Remove(key) => Has(s.items, key) && Lookup(s.items, key).None?
    case _ => false
  }

  /** How often that has happened since the cache was last emptied. */
  function Losses<K(==), V>(capacity: nat, ops: seq<Op<K, V>>): nat {
    if ops == [] then 0
    else
      var last := ops[|ops| - 1];
      if last.RemoveAll? then 0
      else Losses(capacity, ops[..|ops| - 1]) + if Loses(Run(capacity, ops[..|ops| - 1]), capacity, last) then 1 else 0
  }

  lemma RemovedCount<K, V>(s: State<K, V>, key: K)
    requires KeysDistinct(s.items)
    ensures var r := Removed(s, key);
      && KeysDistinct(r.items)
      && Count(r.items) - r.size == Count(s.items) - s.size + if Has(s.items, key) &&
          Lookup(s.items, key).None? then 1 else 0
  {
    WithoutDistinct(s.items, key);
    CountWithout(s.items, key);
    var j := WithoutCut(s.items, key);
    hide Without, Lookup;
  }

  lemma TouchedCount<K, V>(s: State<K, V>, key: K)
    requires KeysDistinct(s.items)
    ensures KeysDistinct(Touched(s, key).items) && Count(Touched(s, key).items) == Count(s.items)
  {
    WithoutDistinct(s.items, key);
    CountWithout(s.items, key);
    hide Without, Lookup;
    CountAppend(Without(s.items, key), [Item(key, Lookup(s.items, key))]);
    CountOne(Item(key, Lookup(s.items, key)));
  }

  lemma StoredCount<K, V>(s: State<K, V>, key: K, value: V)
    requires KeysDistinct(s.items)
    ensures var t := Stored(s, key, value);
      KeysDistinct(t.items) && Count(t.items) - t.size == Count(s.items) - s.size
  {
    WithoutDistinct(s.items, key);
    CountWithout(s.items, key);
    hide Without, Lookup;
    CountAppend(Without(s.items, key), [Item(key, Some(value))]);
    CountOne<K, V>(Item(key, Some(value)));
  }

  lemma FirstKey<K, V>(items: seq<Item<K, V>>)
    requires items != [] && KeysDistinct(items)
    ensures Has(items, items[0].key) && Lookup(items, items[0].key) == items[0].value
    ensures Without(items, items[0].key) == items[1..]
  {
    WithoutAt(items, 0);
    assert Cut(items, 0) == items[1..];
  }

  lemma StepCount<K, V>(s: State<K, V>, capacity: nat, op: Op<K, V>)
    requires KeysDistinct(s.items) && s.size <= capacity
    ensures var r := Step(s, capacity, op);
      && KeysDistinct(r.items) && r.size <= capacity
      && (op.RemoveAll? ==> Count(r.items) == r.size)
      && (!op.RemoveAll? ==> Count(r.items) - r.size == Count(s.items) - s.size + if Loses(s, capacity,
          op) then 1 else 0)
  {
    hide Has, KeysDistinct, Without, Lookup, Count;
    match op {
      case Put(key, None) => TouchedCount(s, key);
      case Put(key, Some(value)) =>
        StoredCount(s, key, value);
        var t := Stored(s, key, value);
        if t.size > capacity {
          FirstKey(t.items);
          RemovedCount(t, t.items[0].key);
        }
      case Get(key) => TouchedCount(s, key);
      case Remove(key) => RemovedCount(s, key);
      case RemoveAll => NothingCounted<K, V>();
    }
  }

  lemma NothingCounted<K, V>()
    ensures KeysDistinct<K, V>([]) && Count<K, V>([]) == 0
  {
  }

  /** The count is right exactly when no entry without a value has been taken away; the keys that have a value are
      never more than the capacity and those losses. */
  lemma {:induction false} SizeExact<K, V>(capacity: nat, ops: seq<Op<K, V>>)
    ensures KeysDistinct(Run(capacity, ops).items)
    ensures Count(Run(capacity, ops).items) == Run(capacity, ops).size + Losses(capacity, ops)
    ensures Run(capacity, ops).size <= capacity
    ensures Run(capacity, ops).size == Count(Run(capacity, ops).items) <==> Losses(capacity, ops) == 0
    ensures Count(Run(capacity, ops).items) <= capacity + Losses(capacity, ops)
  {
    hide Step, Loses, KeysDistinct, Count;
    if ops == [] {
      NothingCounted<K, V>();
    } else {
      SizeExact(capacity, ops[..|ops| - 1]);
      StepCount(Run(capacity, ops[..|ops| - 1]), capacity, ops[|ops| - 1]);
    }
  }

  /** The entry that an overfull cache would give up has no value. */
  predicate OldestIsEmpty<K(==), V>(s: State<K, V>) {
    s.items != [] && s.items[0].value.None?
  }

  /** When a put takes the keys with a value over the capacity: it is a key without one, the capacity is used up, and
      the cache does not notice, because losses made its count too low, or gives up an entry without a value. */
  lemma GoesOver<K, V>(capacity: nat, ops: seq<Op<K, V>>, key: K, value: V)
    requires Count(Run(capacity, ops).items) <= capacity
    ensures var s, r := Run(capacity, ops), Run(capacity, ops + [Op.Put(key, Some(value))]);
            Count(r.items) > capacity <==>
              && Lookup(s.items, key).None? && Count(s.items) == capacity
              && (Losses(capacity, ops) > 0 || OldestIsEmpty(Stored(s, key, value)))
  {
    var s, op := Run(capacity, ops), Op.Put(key, Some(value));
    SizeExact(capacity, ops);
    StepCount(s, capacity, op);
    RunStep(capacity, ops, op);
    StoredSize(s, key, value);
    StoredCount(s, key, value);
    hide Count, KeysDistinct, Lookup, Without, Has;
    var t := Stored(s, key, value);
    if t.size > capacity {
      FirstKey(t.items);
      RemovedCount(t, t.items[0].key);
    }
  }

  lemma StoredSize<K, V>(s: State<K, V>, key: K, value: V)
    ensures var t := Stored(s, key, value);
            t.items != [] && t.size == s.size + if Lookup(s.items, key).None? then 1 else 0
  {
    hide Lookup, Without;
  }

  /** No undefined value is ever put. */
  predicate AllDefined<K, V>(ops: seq<Op<K, V>>) {
    forall i :: 0 <= i < |ops| ==> ops[i].Put? ==> ops[i].value.Some?
  }

  predicate AllValued<K, V>(items: seq<Item<K, V>>) {
    forall i :: 0 <= i < |items| ==> items[i].value.Some?
  }

  lemma StepValued<K, V>(s: State<K, V>, capacity: nat, op: Op<K, V>)
    requires KeysDistinct(s.items) && AllValued(s.items) && (op.Put? ==> op.value.Some?)
    ensures AllValued(Step(s, capacity, op).items) && !Loses(s, capacity, op)
  {
    match op {
      case Put(key, Some(value)) => StoredValued(s, capacity, key, value);
      case Get(key) => RestValued(s.items, key);
      case Remove(key) => RestValued(s.items, key);
      case RemoveAll =>
    }
  }

  lemma RestValued<K, V>(items: seq<Item<K, V>>, key: K)
    requires KeysDistinct(items) && AllValued(items)
    ensures AllValued(Without(items, key)) && (Has(items, key) ==> Lookup(items, key).Some?)
  {
    WithoutDistinct(items, key);
    var j := WithoutCut(items, key);
    hide Without, Lookup;
  }

  lemma StoredValued<K, V>(s: State<K, V>, capacity: nat, key: K, value: V)
    requires KeysDistinct(s.items) && AllValued(s.items)
    ensures AllValued(Step(s, capacity, Op.Put(key, Some(value))).items) &&
        !Loses(s, capacity, Op.Put(key, Some(value)))
  {
    hide Without, Lookup, KeysDistinct;
    RestValued(s.items, key);
    StoredCount(s, key, value);
    FirstKey(Stored(s, key, value).items);
  }

  lemma {:induction false} ValuedCount<K, V>(items: seq<Item<K, V>>)
    requires AllValued(items)
    ensures Count(items) == |items|
  {
    if items != [] {
      ValuedCount(items[1..]);
    }
  }

  /** With defined values only, the size is the number of keys, and within the capacity. */
  lemma {:induction false} DefinedRun<K, V>(capacity: nat, ops: seq<Op<K, V>>)
    requires AllDefined(ops)
    ensures AllValued(Run(capacity, ops).items) && Losses(capacity, ops) == 0
    ensures Run(capacity, ops).size == |Run(capacity, ops).items| <= capacity
  {
    hide Step, Loses, KeysDistinct, Count;
    if ops != [] {
      DefinedRun(capacity, ops[..|ops| - 1]);
      SizeExact(capacity, ops[..|ops| - 1]);
      StepValued(Run(capacity, ops[..|ops| - 1]), capacity, ops[|ops| - 1]);
    }
    SizeExact(capacity, ops);
    ValuedCount(Run(capacity, ops).items);
  }

  /** An undefined value can make the cache hold more keys than its capacity of 1: two steps of the run. */
  lemma OverflowStart() returns (ops: seq<Op<int, int>>)
    ensures ops == [Op.Put(1, None), Op.Put(2, Some(20)), Op.Remove(1)]
    ensures Run(1, ops) == State([Item(2, Some(20))], 0)
  {
    var a: Op<int, int>, b: Op<int, int>, c: Op<int, int> := Op.Put(1, None), Op.Put(2, Some(20)), Op.Remove(1);
    ops := [a, b, c];
    assert [a][..0] == [] && [a, b][..1] == [a] && ops[..2] == [a, b];
    assert Run(1, [a]) == State([Item(1, None)], 0);
    assert Run(1, [a, b]) == State([Item(1, None), Item(2, Some(20))], 1);
    assert Run(1, [a, b]).items[0].key == 1;
  }

  lemma UndefinedOverflow() returns (ops: seq<Op<int, int>>)
    ensures ops == [Op.Put(1, None), Op.Put(2, Some(20)), Op.Remove(1), Op.Put(3, Some(30))]
    ensures Run(1, ops) == State([Item(2, Some(20)), Item(3, Some(30))], 1)
  {
    ops := OverflowStart();
    RunStep(1, ops, Op.Put(3, Some(30)));
    ops := ops + [Op.Put(3, Some(30))];
  }

  // ---------------------------------------------------------------- least recently used

  predicate Uses<K(==), V>(op: Op<K, V>, key: K) {
    (op.Put? || op.Get?) && op.key == key
  }

  /** When a key was last used, counting from 1; 0 for never. */
  function LastUse<K(==), V>(ops: seq<Op<K, V>>, key: K): (n: nat)
    ensures n <= |ops|
  {
    if ops == [] then 0
    else if Uses(ops[|ops| - 1], key) then |ops|
    else LastUse(ops[..|ops| - 1], key)
  }

  /** The list is ordered by last use. */
  predicate ByUse<K(==), V>(items: seq<Item<K, V>>, ops: seq<Op<K, V>>) {
    forall i, j :: 0 <= i < j < |items| ==> LastUse(ops, items[i].key) < LastUse(ops, items[j].key)
  }

  lemma ByUseCut<K, V>(items: seq<Item<K, V>>, ops: seq<Op<K, V>>, key: K)
    requires ByUse(items, ops) && KeysDistinct(items)
    ensures ByUse(Without(items, key), ops)
  {
    var j := WithoutCut(items, key);
    hide LastUse, Without, Lookup;
  }

  /** Keys that an operation does not use keep their order. */
  lemma ByUseMore<K, V>(items: seq<Item<K, V>>, ops: seq<Op<K, V>>, op: Op<K, V>)
    requires ByUse(items, ops) && forall i :: 0 <= i < |items| ==> !Uses(op, items[i].key)
    ensures ByUse(items, ops + [op])
  {
    assert (ops + [op])[..|ops|] == ops;
    forall i | 0 <= i < |items|
      ensures LastUse(ops + [op], items[i].key) == LastUse(ops, items[i].key)
    {
    }
  }

  /** The key just used is the freshest. */
  lemma ByUseFresh<K, V>(items: seq<Item<K, V>>, ops: seq<Op<K, V>>, op: Op<K, V>, key: K, item: Item<K, V>)
    requires ByUse(items, ops) && KeysDistinct(items) && Uses(op, key) && item.key == key
    ensures ByUse(Without(items, key) + [item], ops + [op])
  {
    WithoutDistinct(items, key);
    ByUseCut(items, ops, key);
    var rest := Without(items, key);
    hide Without;
    ByUseMore(rest, ops, op);
    assert (ops + [op])[..|ops|] == ops;
    forall i | 0 <= i < |rest|
      ensures LastUse(ops + [op], rest[i].key) <= |ops|
    {
      assert !Uses(op, rest[i].key);
    }
  }

  lemma StepByUse<K, V>(s: State<K, V>, capacity: nat, ops: seq<Op<K, V>>, op: Op<K, V>)
    requires ByUse(s.items, ops) && KeysDistinct(s.items)
    ensures ByUse(Step(s, capacity, op).items, ops + [op])
  {
    hide Without, Lookup, LastUse, ByUse, KeysDistinct;
    match op {
      case Put(key, None) => ByUseFresh(s.items, ops, op, key, Item(key, Lookup(s.items, key)));
      case Put(key, Some(value)) =>
        ByUseFresh(s.items, ops, op, key, Item(key, Some(value)));
        StoredCount(s, key, value);
        var t := Stored(s, key, value);
        ByUseCut(t.items, ops + [op], t.items[0].key);
      case Get(key) =>
        if Has(s.items, key) {
          ByUseFresh(s.items, ops, op, key, Item(key, Lookup(s.items, key)));
        } else {
          ByUseMore(s.items, ops, op);
        }
      case Remove(key) =>
        ByUseCut(s.items, ops, key);
        ByUseMore(Without(s.items, key), ops, op);
        ByUseMore(s.items, ops, op);
      case RemoveAll => NothingUsed<K, V>(ops + [op]);
    }
  }

  lemma NothingUsed<K, V>(ops: seq<Op<K, V>>)
    ensures ByUse([], ops)
  {
  }

  /** In every run the list is ordered by the last put or get of each key. */
  lemma {:induction false} OrderedByUse<K, V>(capacity: nat, ops: seq<Op<K, V>>)
    ensures ByUse(Run(capacity, ops).items, ops)
  {
    hide Step, ByUse, Run, LastUse, KeysDistinct, Count, Losses;
    if ops == [] {
      NothingUsed(ops);
      RunNone<K, V>(capacity);
    } else {
      var before, op := ops[..|ops| - 1], ops[|ops| - 1];
      assert before + [op] == ops;
      OrderedByUse(capacity, before);
      SizeExact(capacity, before);
      StepByUse(Run(capacity, before), capacity, before, op);
      RunStep(capacity, before, op);
    }
  }

  lemma RunNone<K, V>(capacity: nat)
    ensures Run<K, V>(capacity, []) == State([], 0)
  {
  }

  /** A put over the capacity evicts one key, and it is the one that has gone longest without use. */
  lemma EvictsLeastRecentlyUsed<K, V>(capacity: nat, ops: seq<Op<K, V>>, key: K, value: V)
    requires Stored(Run(capacity, ops), key, value).size > capacity
    ensures var op, t := Op.Put(key, Some(value)), Stored(Run(capacity, ops), key, value);
      && Run(capacity, ops + [op]).items == t.items[1..]
      && forall i :: 1 <= i < |t.items| ==> LastUse(ops + [op], t.items[0].key) < LastUse(ops + [op], t.items[i].key)
  {
    var s, op := Run(capacity, ops), Op.Put(key, Some(value));
    var t := Stored(s, key, value);
    assert (ops + [op])[..|ops|] == ops;
    hide Without, Lookup, LastUse, Run, KeysDistinct;
    SizeExact(capacity, ops);
    StoredCount(s, key, value);
    FirstKey(t.items);
    RunStep(capacity, ops, op);
    OrderedByUse(capacity, ops);
    ByUseFresh(s.items, ops, op, key, Item(key, Some(value)));
  }

  lemma RunStep<K, V>(capacity: nat, ops: seq<Op<K, V>>, op: Op<K, V>)
    ensures Run(capacity, ops + [op]) == Step(Run(capacity, ops), capacity, op)
  {
    assert (ops + [op])[..|ops|] == ops;
  }

  // ---------------------------------------------------------------- the value last put

  /** The value that was last put under a key, unless the key was removed since. */
  function LastPut<K(==), V>(ops: seq<Op<K, V>>, key: K): Option<V> {
    if ops == [] then None
    else
      match ops[|ops| - 1]
      case Put(k, Some(value)) => if k == key then Some(value) else LastPut(ops[..|ops| - 1], key)
      case Remove(k) => if k == key then None else LastPut(ops[..|ops| - 1], key)
      case RemoveAll => None
      case _ => LastPut(ops[..|ops| - 1], key)
  }

  ghost predicate UpToDate<K, V>(item: Item<K, V>, ops: seq<Op<K, V>>) {
    item.value.Some? ==> item.value == LastPut(ops, item.key)
  }

  ghost predicate AllUpToDate<K, V>(items: seq<Item<K, V>>, ops: seq<Op<K, V>>) {
    forall i :: 0 <= i < |items| ==> UpToDate(items[i], ops)
  }

  lemma LastPutSnoc<K, V>(ops: seq<Op<K, V>>, op: Op<K, V>, key: K)
    ensures LastPut(ops + [op], key)
         == match op
            case Put(k, Some(value)) => if k == key then Some(value) else LastPut(ops, key)
            case Remove(k) => if k == key then None else LastPut(ops, key)
            case RemoveAll => None
            case _ => LastPut(ops, key)
  {
    assert (ops + [op])[..|ops|] == ops;
  }

  /** Items under other keys than the one that an operation is about. */
  lemma OthersUpToDate<K, V>(items: seq<Item<K, V>>, ops: seq<Op<K, V>>, op: Op<K, V>)
    requires AllUpToDate(items, ops) && !op.RemoveAll?
    requires forall i :: 0 <= i < |items| ==> (op.Put? && op.value.Some?) || op.Remove? ==> items[i].key != op.key
    ensures AllUpToDate(items, ops + [op])
  {
    hide LastPut;
    forall i | 0 <= i < |items|
      ensures UpToDate(items[i], ops + [op])
    {
      assert UpToDate(items[i], ops);
      LastPutSnoc(ops, op, items[i].key);
    }
  }

  lemma RestUpToDate<K, V>(items: seq<Item<K, V>>, ops: seq<Op<K, V>>, key: K)
    requires AllUpToDate(items, ops) && KeysDistinct(items)
    ensures AllUpToDate(Without(items, key), ops)
    ensures forall i :: 0 <= i < |Without(items, key)| ==> Without(items, key)[i].key != key
    ensures UpToDate(Item(key, Lookup(items, key)), ops)
  {
    hide Without, Lookup, UpToDate;
    WithoutDistinct(items, key);
    var j := WithoutCut(items, key);
    if j < 0 {
      hide *;
      NothingUpToDate(ops, key);
    }
  }

  lemma NothingUpToDate<K, V>(ops: seq<Op<K, V>>, key: K)
    ensures UpToDate(Item(key, None), ops) && AllUpToDate([], ops)
  {
  }

  lemma AppendUpToDate<K, V>(items: seq<Item<K, V>>, item: Item<K, V>, ops: seq<Op<K, V>>)
    requires AllUpToDate(items, ops) && UpToDate(item, ops)
    ensures AllUpToDate(items + [item], ops)
  {
    hide UpToDate;
  }

  lemma TouchedUpToDate<K, V>(s: State<K, V>, ops: seq<Op<K, V>>, op: Op<K, V>)
    requires AllUpToDate(s.items, ops) && KeysDistinct(s.items) && (op.Get? || (op.Put? && op.value.None?))
    ensures AllUpToDate(Touched(s, op.key).items, ops + [op])
  {
    hide Without, Lookup, AllUpToDate, UpToDate, KeysDistinct;
    RestUpToDate(s.items, ops, op.key);
    AppendUpToDate(Without(s.items, op.key), Item(op.key, Lookup(s.items, op.key)), ops);
    OthersUpToDate(Touched(s, op.key).items, ops, op);
  }

  lemma StoredUpToDate<K, V>(s: State<K, V>, ops: seq<Op<K, V>>, key: K, value: V)
    requires AllUpToDate(s.items, ops) && KeysDistinct(s.items)
    ensures AllUpToDate(Stored(s, key, value).items, ops + [Op.Put(key, Some(value))])
  {
    hide Without, Lookup, AllUpToDate, LastPut, KeysDistinct;
    var op := Op.Put(key, Some(value));
    RestUpToDate(s.items, ops, key);
    OthersUpToDate(Without(s.items, key), ops, op);
    LastPutSnoc(ops, op, key);
    AppendUpToDate(Without(s.items, key), Item(key, Some(value)), ops + [op]);
  }

  lemma StepUpToDate<K, V>(s: State<K, V>, capacity: nat, ops: seq<Op<K, V>>, op: Op<K, V>)
    requires AllUpToDate(s.items, ops) && KeysDistinct(s.items)
    ensures AllUpToDate(Step(s, capacity, op).items, ops + [op])
  {
    hide Without, Lookup, AllUpToDate, LastPut, KeysDistinct, Has, Touched, UpToDate;
    match op {
      case Put(key, None) => TouchedUpToDate(s, ops, op);
      case Put(key, Some(value)) =>
        StoredUpToDate(s, ops, key, value);
        StoredCount(s, key, value);
        var t := Stored(s, key, value);
        RestUpToDate(t.items, ops + [op], t.items[0].key);
      case Get(key) =>
        TouchedUpToDate(s, ops, op);
        OthersUpToDate(s.items, ops, op);
      case Remove(key) =>
        RestUpToDate(s.items, ops, key);
        OthersUpToDate(Without(s.items, key), ops, op);
        NotThere(s.items, key);
        WithoutNothing(s.items, key);
      case RemoveAll =>
        hide *;
        RemovedAll(s, capacity, ops);
    }
  }

  lemma RemovedAll<K, V>(s: State<K, V>, capacity: nat, ops: seq<Op<K, V>>)
    ensures AllUpToDate(Step(s, capacity, RemoveAll).items, ops + [RemoveAll])
  {
  }

  lemma WithoutNothing<K, V>(items: seq<Item<K, V>>, key: K)
    ensures !Has(items, key) ==> Without(items, key) == items
  {
    hide Without;
    if !Has(items, key) {
      WithoutNone(items, key);
    }
  }

  lemma NotThere<K, V>(items: seq<Item<K, V>>, key: K)
    ensures !Has(items, key) ==> forall i :: 0 <= i < |items| ==> items[i].key != key
  {
  }

  /** In every run what the cache holds under a key is the value last put there, with no removal since. */
  lemma {:induction false} HoldsLastPut<K, V>(capacity: nat, ops: seq<Op<K, V>>, key: K)
    ensures AllUpToDate(Run(capacity, ops).items, ops)
    ensures Lookup(Run(capacity, ops).items, key).Some? ==>
              Lookup(Run(capacity, ops).items, key) == LastPut(ops, key)
  {
    hide Step, Run, LastPut, KeysDistinct, Count, Losses, AllUpToDate, UpToDate, Lookup;
    if ops == [] {
      RunNone<K, V>(capacity);
      NothingUpToDate(ops, key);
    } else {
      var before, op := ops[..|ops| - 1], ops[|ops| - 1];
      assert before + [op] == ops;
      HoldsLastPut(capacity, before, key);
      SizeExact(capacity, before);
      StepUpToDate(Run(capacity, before), capacity, before, op);
      RunStep(capacity, before, op);
    }
    SizeExact(capacity, ops);
    RestUpToDate(Run(capacity, ops).items, ops, key);
    ItemUpToDate(ops, key, Lookup(Run(capacity, ops).items, key));
  }

  lemma ItemUpToDate<K, V>(ops: seq<Op<K, V>>, key: K, value: Option<V>)
    requires UpToDate(Item(key, value), ops)
    ensures value.Some? ==> value == LastPut(ops, key)
  {
  }

  /** A get right after a put gives the value put, unless the put was of a new key into a used-up capacity with no other
      key to give up. */
  lemma PutThenGet<K, V>(capacity: nat, ops: seq<Op<K, V>>, key: K, value: V)
    ensures var s := Run(capacity, ops);
      var alone := Lookup(s.items, key).None? && s.size == capacity
                   && forall i :: 0 <= i < |s.items| ==> s.items[i].key == key;
      Lookup(Run(capacity, ops + [Op.Put(key, Some(value))]).items, key) == if alone then None else Some(value)
  {
    var s := Run(capacity, ops);
    var t, rest := Stored(s, key, value), Without(s.items, key);
    hide Without, Lookup, Run, KeysDistinct, Count;
    RunStep(capacity, ops, Op.Put(key, Some(value)));
    SizeExact(capacity, ops);
    StoredSize(s, key, value);
    StoredCount(s, key, value);
    WithoutDistinct(s.items, key);
    FreshLookup(rest, Item(key, Some(value)));
    FirstKey(t.items);
    RestEmpty(s.items, key);
    if t.size > capacity {
      if rest == [] {
        hide *;
        EmptyLookup<K, V>(key);
        assert t.items[1..] == [];
      } else {
        TailLookup(rest, Item(key, Some(value)));
      }
    }
  }

  lemma EmptyLookup<K, V>(key: K)
    ensures Lookup<K, V>([], key) == None
  {
  }

  lemma {:induction false} FreshLookup<K, V>(rest: seq<Item<K, V>>, item: Item<K, V>)
    requires !Has(rest, item.key)
    ensures Lookup(rest + [item], item.key) == item.value
  {
    if rest != [] {
      assert rest[0].key != item.key;
      assert (rest + [item])[1..] == rest[1..] + [item];
      assert forall i :: 0 <= i < |rest[1..]| ==> rest[1..][i] == rest[i + 1];
      FreshLookup(rest[1..], item);
    }
  }

  lemma TailLookup<K, V>(rest: seq<Item<K, V>>, item: Item<K, V>)
    requires rest != [] && !Has(rest, item.key)
    ensures Lookup((rest + [item])[1..], item.key) == item.value
  {
    hide Lookup;
    assert (rest + [item])[1..] == rest[1..] + [item];
    assert forall i :: 0 <= i < |rest[1..]| ==> rest[1..][i] == rest[i + 1];
    FreshLookup(rest[1..], item);
  }

  lemma {:induction false} RestEmpty<K, V>(items: seq<Item<K, V>>, key: K)
    ensures Without(items, key) == [] <==> forall i :: 0 <= i < |items| ==> items[i].key == key
  {
    if items != [] {
      RestEmpty(items[1..], key);
      assert forall i :: 1 <= i < |items| ==> items[i] == items[1..][i - 1];
    }
  }

  // ---------------------------------------------------------------- what an operation leaves alone

  lemma {:induction false} LookupWithout<K, V>(items: seq<Item<K, V>>, k: K, key: K)
    ensures Lookup(Without(items, k), key) == if k == key then None else Lookup(items, key)
  {
    if items != [] {
      LookupWithout(items[1..], k, key);
      var first: seq<Item<K, V>> := if items[0].key == k then [] else [items[0]];
      assert Without(items, k) == first + Without(items[1..], k);
      if items[0].key != k {
        assert (first + Without(items[1..], k))[1..] == Without(items[1..], k);
      } else {
        assert first + Without(items[1..], k) == Without(items[1..], k);
      }
    }
  }

  lemma {:induction false} LookupAppend<K, V>(items: seq<Item<K, V>>, item: Item<K, V>, key: K)
    ensures item.key != key ==> Lookup(items + [item], key) == Lookup(items, key)
  {
    if items != [] {
      LookupAppend(items[1..], item, key);
      assert (items + [item])[1..] == items[1..] + [item];
    } else {
      assert (items + [item])[1..] == items;
    }
  }

  /** One item put at the fresh end. */
  lemma LookupFresh<K, V>(items: seq<Item<K, V>>, item: Item<K, V>, key: K)
    requires KeysDistinct(items)
    ensures Lookup(Without(items, item.key) + [item], key)
         == if key == item.key then item.value else Lookup(items, key)
  {
    hide Lookup, Without;
    LookupWithout(items, item.key, key);
    LookupAppend(Without(items, item.key), item, key);
    WithoutDistinct(items, item.key);
    FreshLookup(Without(items, item.key), item);
  }

  /** The capacity is used up and the key has no value yet. */
  predicate Full<K(==), V>(s: State<K, V>, capacity: nat, k: K) {
    Lookup(s.items, k).None? && s.size == capacity
  }

  /** The value under a key after an operation. */
  function ValueAfter<K(==), V>(s: State<K, V>, capacity: nat, op: Op<K, V>, key: K): Option<V> {
    match op
    case Put(k, Some(value)) =>
      if Full(s, capacity, k) && Stored(s, k, value).items[0].key == key then None
      else if k == key then Some(value) else Lookup(s.items, key)
    case Remove(k) => if k == key then None else Lookup(s.items, key)
    case RemoveAll => None
    case _ => Lookup(s.items, key)
  }

  /** Only a put of the key with a value, a removal and an eviction change the value under it. */
  lemma OnlyOwnValue<K, V>(capacity: nat, ops: seq<Op<K, V>>, op: Op<K, V>, key: K)
    ensures Lookup(Run(capacity, ops + [op]).items, key) == ValueAfter(Run(capacity, ops), capacity, op, key)
  {
    var s := Run(capacity, ops);
    RunStep(capacity, ops, op);
    SizeExact(capacity, ops);
    hide Lookup, Without, Run, KeysDistinct, Count;
    match op {
      case Put(k, None) => LookupFresh(s.items, Item(k, Lookup(s.items, k)), key);
      case Put(k, Some(value)) =>
        var t := Stored(s, k, value);
        LookupFresh(s.items, Item(k, Some(value)), key);
        StoredSize(s, k, value);
        StoredCount(s, k, value);
        FirstKey(t.items);
        LookupWithout(t.items, t.items[0].key, key);
      case Get(k) => LookupFresh(s.items, Item(k, Lookup(s.items, k)), key);
      case Remove(k) =>
        LookupWithout(s.items, k, key);
        WithoutNothing(s.items, k);
      case RemoveAll => EmptyLookup<K, V>(key);
    }
  }
}
