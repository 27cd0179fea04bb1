/** The value model the codec decodes into and encodes from, the error
    kinds of both directions, and the ordered text-keyed map that `Map`
    values carry.

    A `Map` holds its bindings as an association list kept in strictly
    ascending key order, the order of Rust's `BTreeMap<String, Value>`:
    `Insert` is `BTreeMap::insert`, `ToMap` is the mathematical map the list
    stands for, and `SortedUnique` says a sorted list is determined by that
    map, so equality of `Map` values is equality of their bindings. */
module Values {
  import opened BytesUtil

  /** Rust's `u32`. */
  type Uint32 = n: int | 0 <= n < 0x1_0000_0000

  datatype Value =
    | Null
    | Int(n: Uint32)
    | Bytes(bytes: seq<byte>)
    /** The UTF-8 bytes of the text. */
    | String(text: seq<byte>)
    | Array(items: seq<Value>)
    | Map(entries: seq<Entry>)

  /** One binding of a map: a text key (its UTF-8 bytes) and its value. */
  datatype Entry = Entry(key: seq<byte>, val: Value)

  /** Every condition under which the source aborts a decode or an encode. */
  datatype Error =
    | Truncated
    | UnsupportedMajorType(mt: nat)
    | UnsupportedAdditionalType(ai: nat)
    | UnsupportedSimpleValue(code: nat)
    | InvalidMapKey
    | InvalidUtf8
    | Unrepresentable(n: nat)

  // ---------------------------------------------------------------------
  // Key order: byte-wise lexicographic, a proper prefix first (the order
  // of Rust's `String`).

  predicate Less(a: seq<byte>, b: seq<byte>)
    decreases |a|
  {
    if a == [] then b != []
    else if b == [] then false
    else if a[0] != b[0] then a[0] < b[0]
    else Less(a[1..], b[1..])
  }

  lemma {:induction false} LessIrreflexive(a: seq<byte>)
    ensures !Less(a, a)
    decreases |a|
  {
    if a != [] {
      LessIrreflexive(a[1..]);
    }
  }

  lemma {:induction false} LessTransitive(a: seq<byte>, b: seq<byte>, c: seq<byte>)
    requires Less(a, b) && Less(b, c)
    ensures Less(a, c)
    decreases |a|
  {
    if a != [] && a[0] == b[0] && b[0] == c[0] {
      LessTransitive(a[1..], b[1..], c[1..]);
    }
  }

  /** Keys that agree before position `i` are ordered by their bytes at `i`. */
  lemma {:induction false} LessAt(a: seq<byte>, b: seq<byte>, i: nat)
    requires i < |a| && i < |b| && a[..i] == b[..i] && a[i] < b[i]
    ensures Less(a, b)
    decreases i
  {
    if i > 0 {
      assert a[0] == a[..i][0] && b[0] == b[..i][0];
      assert a[1..][..i - 1] == a[..i][1..] && b[1..][..i - 1] == b[..i][1..];
      LessAt(a[1..], b[1..], i - 1);
    }
  }

  /** Any two distinct keys are ordered one way and not the other. */
  lemma {:induction false} LessTotal(a: seq<byte>, b: seq<byte>)
    ensures a != b <==> (Less(a, b) || Less(b, a))
    ensures !(Less(a, b) && Less(b, a))
    decreases |a|
  {
    if a == [] || b == [] {
    } else if a[0] == b[0] {
      LessTotal(a[1..], b[1..]);
      assert a == [a[0]] + a[1..] && b == [b[0]] + b[1..];
    }
  }

  // ---------------------------------------------------------------------
  // The ordered map.

  /** Keys strictly ascending: sorted and without repetition. */
  predicate Sorted(es: seq<Entry>) {
    forall i, j :: 0 <= i < j < |es| ==> Less(es[i].key, es[j].key)
  }

  /** The set of keys the list binds. */
  function KeysOf(es: seq<Entry>): set<seq<byte>> {
    set x | x in es :: x.key
  }

  /** The bindings the list stands for (the first entry for a key wins;
      a sorted list has one entry per key). */
  function ToMap(es: seq<Entry>): (m: map<seq<byte>, Value>)
    decreases |es|
  {
    if es == [] then map[] else ToMap(es[1..])[es[0].key := es[0].val]
  }

  /** The list binds exactly the keys it holds. */
  lemma {:induction false} ToMapKeys(es: seq<Entry>)
    ensures ToMap(es).Keys == KeysOf(es)
    decreases |es|
  {
    if es != [] {
      ToMapKeys(es[1..]);
      assert forall x :: x in es <==> x == es[0] || x in es[1..];
      assert KeysOf(es) == KeysOf(es[1..]) + {es[0].key};
    }
  }

  lemma UpdateCommutes<K, V>(m: map<K, V>, k1: K, v1: V, k2: K, v2: V)
    requires k1 != k2
    ensures m[k1 := v1][k2 := v2] == m[k2 := v2][k1 := v1]
  {
  }

  lemma UpdateRemoves<K, V>(m: map<K, V>, k: K, v: V)
    requires k !in m
    ensures m[k := v] - {k} == m
  {
  }

  /** `BTreeMap::insert`: bind `k` to `v`, replacing an existing binding of
      `k` and otherwise placing the new entry at its place in key order. */
  function Insert(es: seq<Entry>, k: seq<byte>, v: Value): (r: seq<Entry>)
    ensures Entry(k, v) in r
    ensures forall x :: x in r ==> x == Entry(k, v) || x in es
    decreases |es|
  {
    if es == [] then [Entry(k, v)]
    else if es[0].key == k then [Entry(k, v)] + es[1..]
    else if Less(k, es[0].key) then [Entry(k, v)] + es
    else [es[0]] + Insert(es[1..], k, v)
  }

  /** Inserting updates the bindings at `k` and nowhere else. */
  lemma {:induction false} InsertUpdates(es: seq<Entry>, k: seq<byte>, v: Value)
    ensures ToMap(Insert(es, k, v)) == ToMap(es)[k := v]
    decreases |es|
  {
    if es == [] {
    } else if es[0].key == k {
      var r := [Entry(k, v)] + es[1..];
      assert r[1..] == es[1..];
      assert ToMap(r) == ToMap(es[1..])[k := v];
      assert ToMap(es) == ToMap(es[1..])[k := es[0].val];
    } else if Less(k, es[0].key) {
      assert ([Entry(k, v)] + es)[1..] == es;
    } else {
      InsertUpdates(es[1..], k, v);
      UpdateBehindHead(es, k, v);
    }
  }

  lemma UpdateBehindHead(es: seq<Entry>, k: seq<byte>, v: Value)
    requires es != [] && es[0].key != k
    requires ToMap(Insert(es[1..], k, v)) == ToMap(es[1..])[k := v]
    ensures ToMap([es[0]] + Insert(es[1..], k, v)) == ToMap(es)[k := v]
  {
    var tail := Insert(es[1..], k, v);
    var r := [es[0]] + tail;
    assert r[1..] == tail;
    var m := ToMap(es[1..]);
    assert ToMap(r) == m[k := v][es[0].key := es[0].val];
    assert ToMap(es) == m[es[0].key := es[0].val];
    UpdateCommutes(m, k, v, es[0].key, es[0].val);
  }

  /** Inserting keeps the keys strictly ascending. */
  lemma {:induction false} InsertKeepsSorted(es: seq<Entry>, k: seq<byte>, v: Value)
    requires Sorted(es)
    ensures Sorted(Insert(es, k, v))
    decreases |es|
  {
    if es == [] {
    } else if es[0].key == k {
      var r := Insert(es, k, v);
      assert forall i :: 0 <= i < |r| ==> r[i].key == es[i].key;
    } else if Less(k, es[0].key) {
      InsertBelowSorted(es, k, v);
    } else {
      InsertKeepsSorted(es[1..], k, v);
      InsertAfterHeadSorted(es, k, v);
    }
  }

  lemma InsertBelowSorted(es: seq<Entry>, k: seq<byte>, v: Value)
    requires Sorted(es) && es != [] && Less(k, es[0].key)
    ensures Sorted([Entry(k, v)] + es)
  {
    var r := [Entry(k, v)] + es;
    forall i, j | 0 <= i < j < |r| ensures Less(r[i].key, r[j].key) {
      if i == 0 {
        if j > 1 {
          LessTransitive(k, es[0].key, es[j - 1].key);
        }
      } else {
        assert r[i] == es[i - 1] && r[j] == es[j - 1];
      }
    }
  }

  lemma InsertAfterHeadSorted(es: seq<Entry>, k: seq<byte>, v: Value)
    requires Sorted(es) && es != [] && es[0].key != k && !Less(k, es[0].key)
    requires Sorted(Insert(es[1..], k, v))
    ensures Sorted([es[0]] + Insert(es[1..], k, v))
  {
    LessTotal(k, es[0].key);
    var tail := Insert(es[1..], k, v);
    var r := [es[0]] + tail;
    forall j | 0 < j < |r| ensures Less(r[0].key, r[j].key) {
      assert r[j] in tail;
      if r[j] != Entry(k, v) {
        var n :| 0 <= n < |es[1..]| && es[1..][n] == r[j];
        assert es[n + 1] == r[j];
      }
    }
    forall i, j | 0 < i < j < |r| ensures Less(r[i].key, r[j].key) {
      assert r[i] == tail[i - 1] && r[j] == tail[j - 1];
    }
  }

  /** An entry with a key above every key of the list is appended. */
  lemma {:induction false} InsertAbove(es: seq<Entry>, k: seq<byte>, v: Value)
    requires forall x :: x in es ==> Less(x.key, k)
    ensures Insert(es, k, v) == es + [Entry(k, v)]
    decreases |es|
  {
    if es != [] {
      assert es[0] in es;
      LessTotal(es[0].key, k);
      InsertAbove(es[1..], k, v);
      assert es == [es[0]] + es[1..];
    }
  }

  /** In a sorted list each entry is the binding of its key. */
  lemma {:induction false} SortedLookup(es: seq<Entry>, i: nat)
    requires Sorted(es) && i < |es|
    ensures es[i].key in ToMap(es) && ToMap(es)[es[i].key] == es[i].val
    decreases |es|
  {
    if i > 0 {
      assert es[1..][i - 1] == es[i];
      assert Less(es[0].key, es[i].key);
      LessIrreflexive(es[i].key);
      SortedLookup(es[1..], i - 1);
    }
  }

  /** The first key of a sorted list is below every other key it binds. */
  lemma SortedHeadLeast(es: seq<Entry>, k: seq<byte>)
    requires Sorted(es) && es != [] && k in KeysOf(es) && k != es[0].key
    ensures Less(es[0].key, k)
  {
    var x :| x in es && x.key == k;
    var j :| 0 <= j < |es| && es[j] == x;
  }

  /** The tail of a sorted list binds everything but the first key. */
  lemma SortedTail(es: seq<Entry>)
    requires Sorted(es) && es != []
    ensures ToMap(es[1..]) == ToMap(es) - {es[0].key}
  {
    forall x | x in es[1..] ensures x.key != es[0].key {
      var n :| 0 <= n < |es[1..]| && es[1..][n] == x;
      assert es[n + 1] == x;
      LessIrreflexive(es[0].key);
    }
    ToMapKeys(es[1..]);
    var rest := ToMap(es[1..]);
    assert es[0].key !in rest;
    assert ToMap(es) == rest[es[0].key := es[0].val];
    UpdateRemoves(rest, es[0].key, es[0].val);
  }

  /** Two sorted lists with the same bindings start with the same entry. */
  lemma SortedSameHead(a: seq<Entry>, b: seq<Entry>)
    requires Sorted(a) && Sorted(b) && ToMap(a) == ToMap(b) && a != [] && b != []
    ensures a[0] == b[0]
  {
    assert a[0] in a && b[0] in b;
    ToMapKeys(a);
    ToMapKeys(b);
    if a[0].key != b[0].key {
      SortedHeadLeast(a, b[0].key);
      SortedHeadLeast(b, a[0].key);
      LessTotal(a[0].key, b[0].key);
    }
    SortedLookup(a, 0);
    SortedLookup(b, 0);
  }

  /** A sorted list is determined by the bindings it stands for. */
  lemma {:induction false} SortedUnique(a: seq<Entry>, b: seq<Entry>)
    requires Sorted(a) && Sorted(b) && ToMap(a) == ToMap(b)
    ensures a == b
    decreases |a|
  {
    ToMapKeys(a);
    ToMapKeys(b);
    assert a != [] ==> a[0].key in KeysOf(a);
    assert b != [] ==> b[0].key in KeysOf(b);
    if a != [] && b != [] {
      SortedSameHead(a, b);
      SortedTail(a);
      SortedTail(b);
      SortedUnique(a[1..], b[1..]);
      assert a == [a[0]] + a[1..] && b == [b[0]] + b[1..];
    }
  }

  // ---------------------------------------------------------------------
  // Building a map from key/value pairs in the order they arrive.

  /** The map built by inserting `pairs` one after the other into an empty
      `BTreeMap`, as the decoder does with the pairs it reads off the wire. */
  function FromPairs(pairs: seq<Entry>): (r: seq<Entry>)
    ensures Sorted(r)
    ensures forall x :: x in r ==> x in pairs
    decreases |pairs|
  {
    if pairs == [] then []
    else
      var init, last := pairs[..|pairs| - 1], pairs[|pairs| - 1];
      var prior := FromPairs(init);
      InsertKeepsSorted(prior, last.key, last.val);
      assert forall x :: x in init ==> x in pairs;
      Insert(prior, last.key, last.val)
  }

  /** One more pair is one more insertion. */
  lemma FromPairsAppend(pairs: seq<Entry>, e: Entry)
    ensures FromPairs(pairs + [e]) == Insert(FromPairs(pairs), e.key, e.val)
  {
    assert (pairs + [e])[..|pairs|] == pairs;
  }

  /** The bindings that result when the pairs are applied in order, a later
      pair overriding an earlier one with the same key. */
  function Updates(pairs: seq<Entry>): map<seq<byte>, Value>
    decreases |pairs|
  {
    if pairs == [] then map[]
    else
      var last := pairs[|pairs| - 1];
      Updates(pairs[..|pairs| - 1])[last.key := last.val]
  }

  /** The map built from the pairs holds exactly the bindings they apply. */
  lemma {:induction false} FromPairsBindings(pairs: seq<Entry>)
    ensures ToMap(FromPairs(pairs)) == Updates(pairs)
    decreases |pairs|
  {
    if pairs != [] {
      var init, last := pairs[..|pairs| - 1], pairs[|pairs| - 1];
      FromPairsBindings(init);
      InsertUpdates(FromPairs(init), last.key, last.val);
    }
  }

  /** Every key that occurs among the pairs is bound, and no other. */
  lemma {:induction false} UpdatesKeys(pairs: seq<Entry>)
    ensures Updates(pairs).Keys == KeysOf(pairs)
    decreases |pairs|
  {
    if pairs != [] {
      var init, last := pairs[..|pairs| - 1], pairs[|pairs| - 1];
      UpdatesKeys(init);
      assert pairs == init + [last];
      assert forall x :: x in pairs <==> x in init || x == last;
    }
  }

  /** A repeated key keeps the value of its last pair. */
  lemma {:induction false} LastWins(pairs: seq<Entry>, i: nat)
    requires i < |pairs|
    requires forall j :: i < j < |pairs| ==> pairs[j].key != pairs[i].key
    ensures pairs[i].key in ToMap(FromPairs(pairs))
    ensures ToMap(FromPairs(pairs))[pairs[i].key] == pairs[i].val
  {
    FromPairsBindings(pairs);
    UpdatesLast(pairs, i);
  }

  lemma {:induction false} UpdatesLast(pairs: seq<Entry>, i: nat)
    requires i < |pairs|
    requires forall j :: i < j < |pairs| ==> pairs[j].key != pairs[i].key
    ensures pairs[i].key in Updates(pairs) && Updates(pairs)[pairs[i].key] == pairs[i].val
    decreases |pairs|
  {
    if i < |pairs| - 1 {
      var init := pairs[..|pairs| - 1];
      assert init[i] == pairs[i];
      UpdatesLast(init, i);
    }
  }

  /** No two pairs share a key. */
  predicate DistinctKeys(pairs: seq<Entry>) {
    forall i, j :: 0 <= i < j < |pairs| ==> pairs[i].key != pairs[j].key
  }

  /** An element occurring twice in a multiset occurs at two positions. */
  lemma {:induction false} TwoPositions(s: seq<Entry>, x: Entry)
    requires multiset(s)[x] >= 2
    ensures exists i, j :: 0 <= i < j < |s| && s[i] == x && s[j] == x
    decreases |s|
  {
    assert s == [s[0]] + s[1..];
    if s[0] == x {
      assert x in multiset(s[1..]);
      var j :| 0 <= j < |s[1..]| && s[1..][j] == x;
      assert s[0] == x && s[j + 1] == x;
    } else {
      TwoPositions(s[1..], x);
      var i, j :| 0 <= i < j < |s[1..]| && s[1..][i] == x && s[1..][j] == x;
      assert s[i + 1] == x && s[j + 1] == x;
    }
  }

  /** Reordering pairs keeps their keys distinct. */
  lemma DistinctKeysPermuted(p: seq<Entry>, q: seq<Entry>)
    requires DistinctKeys(p) && multiset(p) == multiset(q)
    ensures DistinctKeys(q)
  {
    forall i, j | 0 <= i < j < |q| ensures q[i].key != q[j].key {
      var a, b := PositionsIn(p, q, i, j);
      if a < b {
        assert p[a].key != p[b].key;
      } else {
        assert p[b].key != p[a].key;
      }
    }
  }

  /** Two positions of `q` have two distinct positions in `p` holding the
      same pairs. */
  lemma PositionsIn(p: seq<Entry>, q: seq<Entry>, i: nat, j: nat) returns (a: nat, b: nat)
    requires multiset(p) == multiset(q) && i < j < |q|
    ensures a < |p| && b < |p| && a != b && p[a] == q[i] && p[b] == q[j]
  {
    if q[i] == q[j] {
      assert q == q[..i] + [q[i]] + q[i + 1..j] + [q[j]] + q[j + 1..];
      assert multiset(q)[q[i]] >= 2;
      TwoPositions(p, q[i]);
      a, b :| 0 <= a < b < |p| && p[a] == q[i] && p[b] == q[i];
    } else {
      assert q[i] in multiset(p) && q[j] in multiset(p);
      a :| 0 <= a < |p| && p[a] == q[i];
      b :| 0 <= b < |p| && p[b] == q[j];
    }
  }

  /** The wire order of pairs with distinct keys does not matter: the same
      pairs in any order build the same map. */
  lemma FromPairsOrderIndependent(p: seq<Entry>, q: seq<Entry>)
    requires DistinctKeys(p) && multiset(p) == multiset(q)
    ensures FromPairs(p) == FromPairs(q)
  {
    DistinctKeysPermuted(p, q);
    assert forall x :: x in p <==> x in q by {
      forall x ensures x in p <==> x in q {
        assert x in p <==> x in multiset(p);
        assert x in q <==> x in multiset(q);
      }
    }
    UpdatesKeys(p);
    UpdatesKeys(q);
    assert KeysOf(p) == KeysOf(q);
    forall k | k in Updates(p) ensures Updates(p)[k] == Updates(q)[k] {
      var x :| x in p && x.key == k;
      var i :| 0 <= i < |p| && p[i] == x;
      var j :| 0 <= j < |q| && q[j] == x;
      UpdatesLast(p, i);
      UpdatesLast(q, j);
    }
    assert Updates(p) == Updates(q);
    FromPairsBindings(p);
    FromPairsBindings(q);
    SortedUnique(FromPairs(p), FromPairs(q));
  }

  /** Pairs already in ascending key order build a map holding exactly them,
      in the same order. */
  lemma {:induction false} FromSortedPairs(pairs: seq<Entry>)
    requires Sorted(pairs)
    ensures FromPairs(pairs) == pairs
    decreases |pairs|
  {
    if pairs != [] {
      var init, last := pairs[..|pairs| - 1], pairs[|pairs| - 1];
      assert init + [last] == pairs;
      SortedLastAbove(pairs);
      FromSortedPairs(init);
      FromPairsAppend(init, last);
      InsertAbove(init, last.key, last.val);
    }
  }

  lemma SortedLastAbove(pairs: seq<Entry>)
    requires Sorted(pairs) && pairs != []
    ensures Sorted(pairs[..|pairs| - 1])
    ensures forall x :: x in pairs[..|pairs| - 1] ==> Less(x.key, pairs[|pairs| - 1].key)
  {
    var init := pairs[..|pairs| - 1];
    forall x | x in init ensures Less(x.key, pairs[|pairs| - 1].key) {
      var n :| 0 <= n < |init| && init[n] == x;
      assert pairs[n] == x;
    }
  }

  // ---------------------------------------------------------------------
  // Values a Rust program can hold.

  /** Text is well-formed UTF-8 (Rust's `String` invariant) and every map
      is in ascending key order (the `BTreeMap` invariant), at every depth. */
  predicate WellFormed(v: Value)
    decreases v
  {
    match v
    case String(text) => ValidUtf8(text)
    case Array(items) => forall i :: 0 <= i < |items| ==> WellFormed(items[i])
    case Map(entries) => Sorted(entries) && forall i :: 0 <= i < |entries| ==> EntryWellFormed(entries[i])
    case _ => true
  }

  predicate EntryWellFormed(e: Entry)
    decreases e
  {
    ValidUtf8(e.key) && WellFormed(e.val)
  }
}
