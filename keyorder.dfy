/** Keys and their order.

    Keys are strings. They are compared character by character, which is the
    order JavaScript's `<`, `<=`, `>` and `>=` give strings and the order the
    treap's comparison function imposes. */
module KeyOrder {

  type Key = string

  /** `a` sorts strictly before `b`: lexicographic order, a proper prefix first. */
  predicate Less(a: Key, b: Key)
    decreases |a|
  {
    if |a| == 0 then |b| > 0
    else if |b| == 0 then false
    else if a[0] != b[0] then a[0] < b[0]
    else Less(a[1..], b[1..])
  }

  /** Three-way comparison, negative, zero or positive, as the treap's `compare`. */
  function Compare(a: Key, b: Key): (c: int)
    ensures -1 <= c <= 1
    ensures c == 0 <==> a == b
    ensures c < 0 <==> Less(a, b)
    ensures c > 0 <==> Less(b, a)
    decreases |a|
  {
    if |a| == 0 then (if |b| == 0 then 0 else -1)
    else if |b| == 0 then 1
    else if a[0] < b[0] then -1
    else if a[0] > b[0] then 1
    else
      assert a == [a[0]] + a[1..] && b == [b[0]] + b[1..];
      Compare(a[1..], b[1..])
  }

  /** `Less` is a strict total order: irreflexive, ... */
  lemma LessIrreflexive(a: Key)
    ensures !Less(a, a)
  {
    var c := Compare(a, a);
  }

  /** ... asymmetric, ... */
  lemma LessAsymmetric(a: Key, b: Key)
    ensures !(Less(a, b) && Less(b, a))
  {
    var c := Compare(a, b);
  }

  /** ... total, ... */
  lemma LessTotal(a: Key, b: Key)
    ensures Less(a, b) || a == b || Less(b, a)
  {
    var c := Compare(a, b);
  }

  /** ... and transitive. */
  lemma {:induction false} LessTransitive(a: Key, b: Key, c: Key)
    requires Less(a, b) && Less(b, c)
    ensures Less(a, c)
    decreases |a|
  {
    if |a| > 0 && a[0] == b[0] && b[0] == c[0] {
      LessTransitive(a[1..], b[1..], c[1..]);
    }
  }
}
