/** The hashtable store of items_ht.js: `lookup`, `update`, `remove`,
    `reset` and `range` over one mutable JavaScript object.

    Every store operation reports through a callback: once per item, then a
    terminal `cb(null)`. Here an operation returns the sequence of those calls,
    `Entry` notes followed by one `Done`. A callback that answers `false`
    stops `lookup` and `range` early; the caller's callback is modelled as
    `keepGoing`, which sees the notes delivered so far, the current one last,
    and answers whether to go on.

    A JavaScript object enumerates its keys (`for (var k in ht)`) in the order
    they were first added, so the table records that order next to the bindings. */
module ItemsHt {
  import opened Base
  import opened KeyOrder

  /** One call of a store callback: `cb(key, binding)` or the terminal `cb(null)`. */
  datatype Note<V> = Entry(key: Key, binding: Option<V>) | Done

  /** The `keys` argument of `lookup`: one string, or a list of strings. */
  datatype KeyArg = Single(key: Key) | List(keys: seq<Key>)

  /** A bound of `range`. A missing or empty key is falsy and lets every key pass. */
  datatype Bound = Bound(key: Option<Key>, inclusive: bool)

  /** The contents of the JavaScript object `ht`: each property's binding, which
      may be null or undefined (`None`), and the enumeration order of the properties. */
  datatype Table<V> = Table(ht: map<Key, Option<V>>, order: seq<Key>)

  // ------------------------------------------------------------ tables

  /** The enumeration order lists every property once. */
  ghost predicate WellFormed<V>(t: Table<V>) {
    && (forall i, j :: 0 <= i < j < |t.order| ==> t.order[i] != t.order[j])
    && (forall k :: k in t.ht <==> k in t.order)
  }

  /** `ht[k]` over own properties: undefined for a missing property. The
      members `ht` inherits from `Object.prototype` are left to `GetAsWritten`. */
  function Get<V>(t: Table<V>, k: Key): Option<V> {
    if k in t.ht then t.ht[k] else None
  }

  // ------------------------------------------------------------ the prototype chain

  /** Property names that every plain object inherits from `Object.prototype`. */
  const ObjectPrototypeNames: set<Key> := {
    "constructor", "toString", "toLocaleString", "valueOf", "hasOwnProperty",
    "isPrototypeOf", "propertyIsEnumerable", "__proto__", "__defineGetter__",
    "__defineSetter__", "__lookupGetter__", "__lookupSetter__"}

  /** What reading `ht[k]` finds on the plain object `ht = {}`: an own property,
      a member inherited from `Object.prototype` (a function, so never null), or
      nothing (undefined). */
  datatype PropertyRead<V> = Own(binding: Option<V>) | Inherited | Undefined

  /** `ht[k]` with the prototype chain, as the source reads it. `Get` sees own
      properties only; the two differ exactly on the inherited names the table
      does not hold, where the source finds a non-null value and `Get` none. */
  function GetAsWritten<V>(t: Table<V>, k: Key): (r: PropertyRead<V>)
    ensures r.Own? <==> k in t.ht
    ensures r.Own? ==> r.binding == Get(t, k)
    ensures r.Inherited? <==> k !in t.ht && k in ObjectPrototypeNames
    ensures k !in ObjectPrototypeNames ==> (r.Own? && r.binding.Some? <==> Get(t, k).Some?)
  {
    if k in t.ht then Own(t.ht[k])
    else if k in ObjectPrototypeNames then Inherited
    else Undefined
  }

  /** `ht[k] != null` for what the source reads. */
  predicate NonNull<V>(r: PropertyRead<V>) {
    r.Inherited? || (r.Own? && r.binding.Some?)
  }

  /** `ht[k] = v`: a new property goes to the end of the enumeration order. */
  function Assign<V>(t: Table<V>, k: Key, v: Option<V>): (r: Table<V>)
    ensures Get(r, k) == v
    ensures forall j :: j != k ==> Get(r, j) == Get(t, j)
    ensures WellFormed(t) ==> WellFormed(r)
  {
    Table(t.ht[k := v], if k in t.ht then t.order else t.order + [k])
  }

  /** The order with `k` taken out. */
  function Without(order: seq<Key>, k: Key): (r: seq<Key>)
    ensures forall j :: j in r <==> j in order && j != k
    ensures forall i :: 0 <= i < |r| ==> r[i] in order
    ensures (forall i, j :: 0 <= i < j < |order| ==> order[i] != order[j]) ==>
            (forall i, j :: 0 <= i < j < |r| ==> r[i] != r[j])
  {
    if order == [] then []
    else if order[0] == k then Without(order[1..], k)
    else [order[0]] + Without(order[1..], k)
  }

  /** `delete ht[k]`. */
  function Delete<V>(t: Table<V>, k: Key): (r: Table<V>)
    ensures Get(r, k) == None && k !in r.ht
    ensures forall j :: j != k ==> Get(r, j) == Get(t, j) && (j in r.ht <==> j in t.ht)
    ensures WellFormed(t) ==> WellFormed(r)
  {
    Table(t.ht - {k}, Without(t.order, k))
  }

  /** The keys bound to a value (not to `null` or `undefined`). */
  ghost function Present<V>(t: Table<V>): (p: set<Key>)
    ensures forall k :: k in p <==> Get(t, k).Some?
  {
    set k | k in t.ht && t.ht[k].Some?
  }

  lemma AssignPresent<V>(t: Table<V>, k: Key, v: Option<V>)
    ensures Present(Assign(t, k, v)) == if v.Some? then Present(t) + {k} else Present(t) - {k}
  {
  }

  lemma DeletePresent<V>(t: Table<V>, k: Key)
    ensures Present(Delete(t, k)) == Present(t) - {k}
  {
  }

  // ------------------------------------------------------------ notification streams

  /** The notes a callback receives from the pending entries `es` when it has
      already received `acc`: entries are delivered in order until one is
      answered with `false` or none is left. */
  function Deliver<V>(acc: seq<Note<V>>, es: seq<Note<V>>, keepGoing: seq<Note<V>> -> bool): seq<Note<V>>
    decreases |es|
  {
    if es == [] then acc
    else if keepGoing(acc + [es[0]]) then Deliver(acc + [es[0]], es[1..], keepGoing)
    else acc + [es[0]]
  }

  /** One entry per requested key, in the caller's order, with its current binding. */
  function Entries<V>(t: Table<V>, keys: seq<Key>): (es: seq<Note<V>>)
    ensures |es| == |keys|
    ensures forall i :: 0 <= i < |keys| ==> es[i] == Entry(keys[i], Get(t, keys[i]))
  {
    if keys == [] then [] else [Entry(keys[0], Get(t, keys[0]))] + Entries(t, keys[1..])
  }

  function KeyList(keys: KeyArg): seq<Key> {
    match keys
    case Single(k) => [k]  // typeof(keys) == 'string'
    case List(ks) => ks
  }

  /** What `lookup(keys, cb)` calls its callback with. */
  function LookupNotes<V>(t: Table<V>, keys: KeyArg, keepGoing: seq<Note<V>> -> bool): seq<Note<V>> {
    Deliver([], Entries(t, KeyList(keys)), keepGoing) + [Done]
  }

  predicate StartPasses(b: Bound, k: Key) {
    match b.key
    case None => true
    case Some(s) => s == "" || (if b.inclusive then !Less(k, s) else Less(s, k))
  }

  predicate EndPasses(b: Bound, k: Key) {
    match b.key
    case None => true
    case Some(e) => e == "" || (if b.inclusive then !Less(e, k) else Less(k, e))
  }

  /** An entry for every key of `keys`, in that order, that passes both bounds. */
  function RangeEntries<V>(t: Table<V>, keys: seq<Key>, start: Bound, end: Bound): (es: seq<Note<V>>)
    ensures forall i :: 0 <= i < |es| ==>
      && es[i].Entry? && es[i].key in keys && es[i].binding == Get(t, es[i].key)
      && StartPasses(start, es[i].key) && EndPasses(end, es[i].key)
  {
    if keys == [] then []
    else
      var k := keys[0];
      var rest := RangeEntries(t, keys[1..], start, end);
      if StartPasses(start, k) && EndPasses(end, k) then [Entry(k, Get(t, k))] + rest else rest
  }

  /** What `range(startKey, startInclusion, endKey, endInclusion, cb)` calls its callback with. */
  function RangeNotes<V>(t: Table<V>, start: Bound, end: Bound, keepGoing: seq<Note<V>> -> bool): seq<Note<V>> {
    Deliver([], RangeEntries(t, t.order, start, end), keepGoing) + [Done]
  }

  // ------------------------------------------------------------ properties

  /** A callback sees a prefix of the pending entries, in order; it was told to
      go on after each of them but the last, and if entries were left
      undelivered it answered `false` to the last one. */
  lemma {:induction false} DeliverStopsAtFirstFalse<V>(acc: seq<Note<V>>, es: seq<Note<V>>, keepGoing: seq<Note<V>> -> bool)
    ensures var d := Deliver(acc, es, keepGoing);
      && |acc| <= |d| <= |acc| + |es|
      && d == acc + es[..|d| - |acc|]
      && (forall j :: |acc| < j < |d| ==> keepGoing(d[..j]))
      && (|d| < |acc| + |es| ==> |d| > |acc| && !keepGoing(d))
    decreases |es|
  {
    if es != [] {
      var acc' := acc + [es[0]];
      if keepGoing(acc') {
        DeliverStopsAtFirstFalse(acc', es[1..], keepGoing);
        var d := Deliver(acc', es[1..], keepGoing);
        assert acc' + es[1..][..|d| - |acc'|] == acc + es[..|d| - |acc|];
        forall j | |acc| < j < |d|
          ensures keepGoing(d[..j])
        {
          if j == |acc'| { assert d[..j] == acc'; }
        }
      } else {
        assert es[..1] == [es[0]];
      }
    }
  }

  /** `lookup` calls back once per requested key, in the caller's order, with
      that key's binding, until a callback answers `false`; then exactly one
      terminal call follows. */
  lemma LookupReportsInOrder<V>(t: Table<V>, keys: KeyArg, keepGoing: seq<Note<V>> -> bool)
    ensures var n := LookupNotes(t, keys, keepGoing); var ks := KeyList(keys);
      && 1 <= |n| <= |ks| + 1 && n[|n| - 1] == Done
      && (forall i :: 0 <= i < |n| - 1 ==> n[i] == Entry(ks[i], Get(t, ks[i])))
      && (forall j :: 0 < j < |n| - 1 ==> keepGoing(n[..j]))
      && (|n| - 1 < |ks| ==> |n| > 1 && !keepGoing(n[..|n| - 1]))
  {
    var es := Entries(t, KeyList(keys));
    DeliverStopsAtFirstFalse([], es, keepGoing);
    var d := Deliver([], es, keepGoing);
    var n := d + [Done];
    assert n[..|n| - 1] == d;
    forall j | 0 < j < |n| - 1
      ensures keepGoing(n[..j])
    {
      assert n[..j] == d[..j];
    }
  }

  /** The entries `range` may report: each key of the table that passes both
      bounds, each exactly once, with its binding, and nothing else. */
  lemma RangeEntriesExact<V>(t: Table<V>, start: Bound, end: Bound)
    requires WellFormed(t)
    ensures var es := RangeEntries(t, t.order, start, end);
      && (forall i :: 0 <= i < |es| ==> es[i].Entry? && es[i].key in t.ht && es[i].binding == Get(t, es[i].key))
      && (forall k :: k in t.ht && StartPasses(start, k) && EndPasses(end, k) ==> Entry(k, Get(t, k)) in es)
      && (forall i, j :: 0 <= i < j < |es| ==> es[i].key != es[j].key)
  {
    RangeEntriesOfDistinct(t, t.order, start, end);
  }

  lemma {:induction false} RangeEntriesOfDistinct<V>(t: Table<V>, keys: seq<Key>, start: Bound, end: Bound)
    requires forall i, j :: 0 <= i < j < |keys| ==> keys[i] != keys[j]
    ensures var es := RangeEntries(t, keys, start, end);
      && (forall k :: k in keys && StartPasses(start, k) && EndPasses(end, k) ==> Entry(k, Get(t, k)) in es)
      && (forall i, j :: 0 <= i < j < |es| ==> es[i].key != es[j].key)
    decreases |keys|
  {
    if keys != [] {
      RangeEntriesOfDistinct(t, keys[1..], start, end);
      var rest := RangeEntries(t, keys[1..], start, end);
      forall i | 0 <= i < |rest|
        ensures rest[i].key != keys[0]
      {
        assert rest[i].key in keys[1..];
      }
    }
  }

  /** `range` reports only keys of the table between the bounds, none twice,
      with their bindings, stops once a callback answers `false`, and otherwise
      reports every such key; then exactly one terminal call follows. */
  lemma RangeReportsBetweenBounds<V>(t: Table<V>, start: Bound, end: Bound, keepGoing: seq<Note<V>> -> bool)
    requires WellFormed(t)
    ensures var n := RangeNotes(t, start, end, keepGoing);
      && |n| >= 1 && n[|n| - 1] == Done
      && (forall i :: 0 <= i < |n| - 1 ==>
            && n[i].Entry? && n[i].key in t.ht && n[i].binding == Get(t, n[i].key)
            && StartPasses(start, n[i].key) && EndPasses(end, n[i].key))
      && (forall i, j :: 0 <= i < j < |n| - 1 ==> n[i].key != n[j].key)
      && (forall j :: 0 < j < |n| - 1 ==> keepGoing(n[..j]))
      && ((forall k :: k in t.ht && StartPasses(start, k) && EndPasses(end, k) ==> Entry(k, Get(t, k)) in n)
          || (|n| > 1 && !keepGoing(n[..|n| - 1])))
  {
    var es := RangeEntries(t, t.order, start, end);
    RangeEntriesExact(t, start, end);
    DeliverStopsAtFirstFalse([], es, keepGoing);
    var d := Deliver([], es, keepGoing);
    var n := d + [Done];
    assert d == es[..|d|];
    DeliveredRange(t, start, end, es, d, n);
    DeliveredAnswers(d, n, keepGoing);
  }

  /** The callback's answers, seen from the notes with the terminal call appended. */
  lemma DeliveredAnswers<V>(d: seq<Note<V>>, n: seq<Note<V>>, keepGoing: seq<Note<V>> -> bool)
    requires forall j :: 0 < j < |d| ==> keepGoing(d[..j])
    requires n == d + [Done]
    ensures forall j :: 0 < j < |n| - 1 ==> keepGoing(n[..j])
    ensures n[..|n| - 1] == d
  {
    assert n[..|n| - 1] == d;
    forall j | 0 < j < |n| - 1
      ensures keepGoing(n[..j])
    {
      assert n[..j] == d[..j];
    }
  }

  /** A prefix of the entries `range` may report, followed by the terminal call. */
  lemma DeliveredRange<V>(t: Table<V>, start: Bound, end: Bound, es: seq<Note<V>>, d: seq<Note<V>>, n: seq<Note<V>>)
    requires forall i :: 0 <= i < |es| ==>
      && es[i].Entry? && es[i].key in t.ht && es[i].binding == Get(t, es[i].key)
      && StartPasses(start, es[i].key) && EndPasses(end, es[i].key)
    requires forall k :: k in t.ht && StartPasses(start, k) && EndPasses(end, k) ==> Entry(k, Get(t, k)) in es
    requires forall i, j :: 0 <= i < j < |es| ==> es[i].key != es[j].key
    requires |d| <= |es| && d == es[..|d|] && n == d + [Done]
    ensures |n| >= 1 && n[|n| - 1] == Done
    ensures forall i :: 0 <= i < |n| - 1 ==>
      && n[i].Entry? && n[i].key in t.ht && n[i].binding == Get(t, n[i].key)
      && StartPasses(start, n[i].key) && EndPasses(end, n[i].key)
    ensures forall i, j :: 0 <= i < j < |n| - 1 ==> n[i].key != n[j].key
    ensures |d| == |es| ==> forall k :: k in t.ht && StartPasses(start, k) && EndPasses(end, k) ==> Entry(k, Get(t, k)) in n
  {
    assert forall i :: 0 <= i < |d| ==> n[i] == d[i] == es[i];
    if |d| == |es| {
      assert d == es;
      forall k | k in t.ht && StartPasses(start, k) && EndPasses(end, k)
        ensures Entry(k, Get(t, k)) in n
      {
        assert Entry(k, Get(t, k)) in d;
      }
    }
  }

  // ------------------------------------------------------------ the store object

  /** The object `mkItems()` returns, with its hidden `ht`. */
  class Items<V> {
    var ht: map<Key, Option<V>>
    var order: seq<Key>

    function Contents(): Table<V>
      reads this
    {
      Table(ht, order)
    }

    ghost predicate Valid()
      reads this
    {
      WellFormed(Contents())
    }

    constructor ()
      ensures Valid() && Contents() == Table(map[], [])
    {
      ht := map[];
      order := [];
    }

    /** `lookup(keys, cb)`: read-only. */
    method Lookup(keys: KeyArg, keepGoing: seq<Note<V>> -> bool) returns (notes: seq<Note<V>>)
      ensures notes == LookupNotes(Contents(), keys, keepGoing)
    {
      var ks := KeyList(keys);
      notes := [];
      var i := 0;
      while i < |ks|
        invariant 0 <= i <= |ks|
        invariant Deliver(notes, Entries(Contents(), ks[i..]), keepGoing)
               == Deliver([], Entries(Contents(), ks), keepGoing)
      {
        var key := ks[i];
        assert Entries(Contents(), ks[i..]) == [Entry(key, Get(Contents(), key))] + Entries(Contents(), ks[i + 1..]);
        notes := notes + [Entry(key, Get(Contents(), key))];
        if !keepGoing(notes) {
          break;
        }
        i := i + 1;
      }
      notes := notes + [Done];
    }

    /** `update(k, cb)`: `ht[k] = cb(k, ht[k])`, then the terminal call. */
    method Update(k: Key, mutate: (Key, Option<V>) -> Option<V>) returns (notes: seq<Note<V>>)
      requires Valid()
      modifies this
      ensures Valid()
      ensures notes == [Entry(k, Get(old(Contents()), k)), Done]
      ensures Contents() == Assign(old(Contents()), k, mutate(k, Get(old(Contents()), k)))
    {
      var prev := Get(Contents(), k);
      notes := [Entry(k, prev), Done];
      var next := mutate(k, prev);
      if k !in ht {
        order := order + [k];
      }
      ht := ht[k := next];
    }

    /** `remove(k, cb)`: hand the previous binding to the callback, unbind `k`. */
    method Remove(k: Key) returns (notes: seq<Note<V>>)
      requires Valid()
      modifies this
      ensures Valid()
      ensures notes == [Entry(k, Get(old(Contents()), k)), Done]
      ensures Contents() == Delete(old(Contents()), k)
    {
      var prev := Get(Contents(), k);
      ht := ht - {k};
      order := Without(order, k);
      notes := [Entry(k, prev), Done];
    }

    /** `reset(cb)`: a fresh, empty table. */
    method Reset() returns (notes: seq<Note<V>>)
      modifies this
      ensures Valid()
      ensures Contents() == Table(map[], [])
      ensures notes == [Done]
    {
      ht := map[];
      order := [];
      notes := [Done];
    }

    /** `range(...)`: a scan of every property in enumeration order; read-only. */
    method Range(startKey: Option<Key>, startInclusion: bool, endKey: Option<Key>, endInclusion: bool,
                 keepGoing: seq<Note<V>> -> bool)
      returns (notes: seq<Note<V>>)
      ensures notes == RangeNotes(Contents(), Bound(startKey, startInclusion), Bound(endKey, endInclusion), keepGoing)
    {
      var start, end := Bound(startKey, startInclusion), Bound(endKey, endInclusion);
      notes := [];
      var i := 0;
      while i < |order|
        invariant 0 <= i <= |order|
        invariant Deliver(notes, RangeEntries(Contents(), order[i..], start, end), keepGoing)
               == Deliver([], RangeEntries(Contents(), order, start, end), keepGoing)
      {
        var k := order[i];
        assert order[i..][1..] == order[i + 1..];
        if StartPasses(start, k) && EndPasses(end, k) {
          notes := notes + [Entry(k, Get(Contents(), k))];
          if !keepGoing(notes) {
            break;
          }
        }
        i := i + 1;
      }
      notes := notes + [Done];
    }
  }
}
