/** An ordered key-value store, the persistence layer both keepers write to.

    A store is a sequence of entries with strictly ascending keys, so it
    holds at most one value per key and iterating it visits keys in
    ascending order, as a prefix iterator over the underlying store does.
    `View` gives the map a store stands for; every operation is specified
    against that map. */
module KvStore {
  import opened Wrappers
  import opened KeyOrder

  datatype Entry<V> = Entry(key: Key, value: V)

  /** Keys strictly ascend along the sequence. */
  predicate Sorted<V>(s: seq<Entry<V>>) {
    forall i, j | 0 <= i < j < |s| :: KeyLess(s[i].key, s[j].key)
  }

  type Store<V> = s: seq<Entry<V>> | Sorted(s) witness []

  function KeySet<V>(s: seq<Entry<V>>): set<Key> {
    set i | 0 <= i < |s| :: s[i].key
  }

  /** The map a sequence of entries stands for; the first entry for a key wins. */
  function View<V>(s: seq<Entry<V>>): (m: map<Key, V>)
    ensures m.Keys == KeySet(s)
    decreases |s|
  {
    if s == [] then map[]
    else
      assert KeySet(s) == KeySet(s[1..]) + {s[0].key} by {
        assert s == [s[0]] + s[1..];
      }
      View(s[1..])[s[0].key := s[0].value]
  }

  /** Every key after the head of a sorted sequence is above the head's key. */
  lemma HeadIsLeast<V>(s: seq<Entry<V>>)
    requires Sorted(s) && s != []
    ensures forall k | k in KeySet(s[1..]) :: KeyLess(s[0].key, k)
    ensures s[0].key !in KeySet(s[1..])
  {
    forall k | k in KeySet(s[1..])
      ensures KeyLess(s[0].key, k)
    {
      var j :| 0 <= j < |s[1..]| && s[1..][j].key == k;
      assert s[j + 1].key == k;
    }
    KeyLessIrreflexive(s[0].key);
  }

  /** Store lookup: the value under `k`, if any. */
  function Get<V>(s: Store<V>, k: Key): (r: Option<V>)
    ensures r.Some? <==> k in View(s)
    ensures r.Some? ==> r.value == View(s)[k]
    decreases |s|
  {
    if s == [] then None
    else if s[0].key == k then Some(s[0].value)
    else Get(s[1..], k)
  }

  /** Putting an entry in front of a sorted sequence whose keys are all above
      its own keeps the sequence sorted, and adds that entry to the view. */
  lemma Cons<V>(e: Entry<V>, t: seq<Entry<V>>)
    requires Sorted(t)
    requires forall k | k in KeySet(t) :: KeyLess(e.key, k)
    ensures Sorted([e] + t)
    ensures View([e] + t) == View(t)[e.key := e.value]
  {
    var r := [e] + t;
    assert r[1..] == t;
    forall j | 0 < j < |r|
      ensures KeyLess(r[0].key, r[j].key)
    {
      assert r[j] == t[j - 1];
    }
  }

  /** Store write: afterwards `k` maps to `v` and every other key is untouched. */
  function Set<V>(s: Store<V>, k: Key, v: V): (r: Store<V>)
    ensures View(r) == View(s)[k := v]
    decreases |s|
  {
    if s == [] then [Entry(k, v)]
    else if s[0].key == k then
      HeadIsLeast(s);
      Cons(Entry(k, v), s[1..]);
      UpdateTwice(View(s[1..]), k, s[0].value, v);
      [Entry(k, v)] + s[1..]
    else if KeyLess(k, s[0].key) then
      AllAboveHead(s, k);
      Cons(Entry(k, v), s);
      [Entry(k, v)] + s
    else
      KeyLessTotal(k, s[0].key);
      HeadIsLeast(s);
      var tail := Set(s[1..], k, v);
      Cons(s[0], tail);
      UpdateCommutes(View(s[1..]), k, v, s[0].key, s[0].value);
      [s[0]] + tail
  }

  lemma UpdateTwice<V>(m: map<Key, V>, k: Key, a: V, b: V)
    ensures m[k := a][k := b] == m[k := b]
  {
  }

  lemma UpdateCommutes<V>(m: map<Key, V>, k: Key, a: V, k': Key, b: V)
    requires k != k'
    ensures m[k := a][k' := b] == m[k' := b][k := a]
  {
  }

  /** A key below the head of a sorted sequence is below all of its keys. */
  lemma AllAboveHead<V>(s: seq<Entry<V>>, k: Key)
    requires Sorted(s) && s != [] && KeyLess(k, s[0].key)
    ensures forall k' | k' in KeySet(s) :: KeyLess(k, k')
  {
    forall k' | k' in KeySet(s)
      ensures KeyLess(k, k')
    {
      var j :| 0 <= j < |s| && s[j].key == k';
      if j > 0 {
        KeyLessTransitive(k, s[0].key, k');
      }
    }
  }

  /** Store delete: afterwards `k` is absent and every other key is untouched. */
  function Delete<V>(s: Store<V>, k: Key): (r: Store<V>)
    ensures View(r) == View(s) - {k}
    decreases |s|
  {
    if s == [] then []
    else if s[0].key == k then
      HeadIsLeast(s);
      UpdateThenRemove(View(s[1..]), k, s[0].value);
      Delete(s[1..], k)
    else
      HeadIsLeast(s);
      var tail := Delete(s[1..], k);
      Cons(s[0], tail);
      RemoveCommutes(View(s[1..]), k, s[0].key, s[0].value);
      [s[0]] + tail
  }

  lemma UpdateThenRemove<V>(m: map<Key, V>, k: Key, a: V)
    ensures m[k := a] - {k} == m - {k}
  {
  }

  lemma RemoveCommutes<V>(m: map<Key, V>, k: Key, k': Key, b: V)
    requires k != k'
    ensures (m - {k})[k' := b] == m[k' := b] - {k}
  {
  }

  /** The values of a store, in ascending key order. */
  function Values<V>(s: seq<Entry<V>>): (r: seq<V>)
    ensures |r| == |s|
    ensures forall i | 0 <= i < |s| :: r[i] == s[i].value
  {
    seq(|s|, i requires 0 <= i < |s| => s[i].value)
  }

  /** Records stored under their own key are stored as themselves. */
  function Id<T>(x: T): T {
    x
  }

  /** The entries written when each element of `xs` is stored under
      `key(x)` with value `value(x)`. */
  function Entries<T, V>(xs: seq<T>, key: T -> Key, value: T -> V): (r: seq<Entry<V>>)
    ensures |r| == |xs|
    ensures forall i | 0 <= i < |xs| :: r[i] == Entry(key(xs[i]), value(xs[i]))
  {
    seq(|xs|, i requires 0 <= i < |xs| => Entry(key(xs[i]), value(xs[i])))
  }

  /** The value the last entry for `k` in `es` carries: the one that survives
      when the entries are written in order. */
  function Latest<V>(es: seq<Entry<V>>, k: Key): (r: Option<V>)
    ensures r.Some? <==> k in KeySet(es)
    decreases |es|
  {
    if es == [] then None
    else
      assert KeySet(es) == KeySet(es[1..]) + {es[0].key} by {
        assert es == [es[0]] + es[1..];
      }
      match Latest(es[1..], k)
      case Some(v) => Some(v)
      case None => if es[0].key == k then Some(es[0].value) else None
  }

  /** Writes every entry of `es`, first to last, as a loop of `Set` calls does. */
  function SetAll<V>(s: Store<V>, es: seq<Entry<V>>): (r: Store<V>)
    ensures forall k :: Get(r, k) == if Latest(es, k).Some? then Latest(es, k) else Get(s, k)
    decreases |es|
  {
    if es == [] then s
    else SetAll(Set(s, es[0].key, es[0].value), es[1..])
  }

  /** The part of `m` whose keys start with the components `p`. */
  function Restrict<V>(m: map<Key, V>, p: Key): map<Key, V> {
    map k | k in m && p <= k :: m[k]
  }

  lemma RestrictUpdate<V>(m: map<Key, V>, p: Key, k: Key, v: V)
    ensures p <= k ==> Restrict(m[k := v], p) == Restrict(m, p)[k := v]
    ensures !(p <= k) ==> Restrict(m[k := v], p) == Restrict(m, p)
  {
  }

  /** The entries of `s` whose key starts with the components `p`, in order. */
  function WithPrefix<V>(s: Store<V>, p: Key): (r: Store<V>)
    ensures View(r) == Restrict(View(s), p)
    decreases |s|
  {
    if s == [] then []
    else
      HeadIsLeast(s);
      RestrictUpdate(View(s[1..]), p, s[0].key, s[0].value);
      var tail := WithPrefix(s[1..], p);
      if p <= s[0].key then
        assert KeySet(tail) <= KeySet(s[1..]);
        Cons(s[0], tail);
        [s[0]] + tail
      else tail
  }

  /** Visits `xs` in order until `stop` returns true for an element, which is
      still visited: the iteration contract of the keeper's `Iterate*`
      callbacks.  The result is the visited prefix. */
  function Visit<T>(xs: seq<T>, stop: T -> bool): (r: seq<T>)
    ensures r <= xs
    ensures forall i | 0 <= i < |r| - 1 :: !stop(r[i])
    ensures |r| < |xs| ==> |r| > 0 && stop(r[|r| - 1])
    decreases |xs|
  {
    if xs == [] then []
    else if stop(xs[0]) then [xs[0]]
    else [xs[0]] + Visit(xs[1..], stop)
  }

  lemma KeySetUnfold<V>(s: seq<Entry<V>>)
    requires s != []
    ensures KeySet(s) == KeySet(s[1..]) + {s[0].key}
  {
    assert s == [s[0]] + s[1..];
  }

  /** Dropping the head of a sorted sequence drops exactly its key from the view. */
  lemma TailView<V>(s: seq<Entry<V>>)
    requires Sorted(s) && s != []
    ensures View(s[1..]) == View(s) - {s[0].key}
  {
    HeadIsLeast(s);
    var m := View(s[1..]);
    UpdateThenRemove(m, s[0].key, s[0].value);
    assert m - {s[0].key} == m;
  }

  /** Two sorted sequences with the same view start with the same entry, and
      what follows again has a common view. */
  lemma SameHead<V>(a: seq<Entry<V>>, b: seq<Entry<V>>)
    requires Sorted(a) && Sorted(b) && View(a) == View(b)
    requires a != [] && b != []
    ensures a[0] == b[0]
    ensures Sorted(a[1..]) && Sorted(b[1..]) && View(a[1..]) == View(b[1..])
  {
    HeadIsLeast(a);
    HeadIsLeast(b);
    KeySetUnfold(a);
    KeySetUnfold(b);
    if a[0].key != b[0].key {
      assert a[0].key in KeySet(b[1..]);
      assert b[0].key in KeySet(a[1..]);
      KeyLessAsymmetric(a[0].key, b[0].key);
    }
    TailView(a);
    TailView(b);
  }

  /** Sorted sequences with the same view have the same length. */
  lemma SameLength<V>(a: seq<Entry<V>>, b: seq<Entry<V>>)
    requires Sorted(a) && Sorted(b) && View(a) == View(b)
    ensures |a| == |b|
  {
    SizeIsKeyCount(a);
    SizeIsKeyCount(b);
    assert KeySet(a) == View(a).Keys == View(b).Keys == KeySet(b);
  }

  /** A sorted store is determined by the map it stands for: two stores with
      the same view are the same sequence, so they iterate identically. */
  lemma {:induction false} Extensionality<V>(a: seq<Entry<V>>, b: seq<Entry<V>>)
    requires Sorted(a) && Sorted(b) && View(a) == View(b)
    ensures a == b
    decreases |a|
  {
    SameLength(a, b);
    if a != [] {
      SameHead(a, b);
      Extensionality(a[1..], b[1..]);
      assert a == [a[0]] + a[1..];
      assert b == [b[0]] + b[1..];
    }
  }

  /** A sorted store holds exactly one entry per key. */
  lemma {:induction false} SizeIsKeyCount<V>(s: seq<Entry<V>>)
    requires Sorted(s)
    ensures |s| == |KeySet(s)|
    decreases |s|
  {
    if s != [] {
      HeadIsLeast(s);
      KeySetUnfold(s);
      SizeIsKeyCount(s[1..]);
    }
  }

  /** In a sorted sequence no key repeats, so the last entry for a key is
      also the first. */
  lemma {:induction false} LatestOfSorted<V>(es: seq<Entry<V>>, k: Key)
    requires Sorted(es)
    ensures Latest(es, k) == Get(es, k)
    decreases |es|
  {
    if es != [] {
      HeadIsLeast(es);
      LatestOfSorted(es[1..], k);
    }
  }

  /** Writing the entries of a sorted sequence, in order, into an empty store
      rebuilds exactly that sequence. */
  lemma SetAllSorted<V>(es: Store<V>)
    ensures SetAll([], es) == es
  {
    var r := SetAll([], es);
    forall k | true
      ensures Get(r, k) == Get(es, k)
    {
      LatestOfSorted(es, k);
    }
    assert View(r) == View(es) by {
      forall k | k in View(r)
        ensures k in View(es) && View(r)[k] == View(es)[k]
      {
        assert Get(r, k).Some?;
      }
      forall k | k in View(es)
        ensures k in View(r)
      {
        assert Get(es, k).Some?;
      }
    }
    Extensionality(r, es);
  }

  /** When every entry for `k` carries `v`, the surviving value for `k` is `v`. */
  lemma {:induction false} LatestConstant<V>(es: seq<Entry<V>>, k: Key, v: V)
    requires k in KeySet(es)
    requires forall j | 0 <= j < |es| && es[j].key == k :: es[j].value == v
    ensures Latest(es, k) == Some(v)
    decreases |es|
  {
    KeySetUnfold(es);
    if k in KeySet(es[1..]) {
      LatestConstant(es[1..], k, v);
    }
  }

  /** When no later entry repeats the key of entry `i`, that entry's value
      survives. */
  lemma {:induction false} LatestOfLast<V>(es: seq<Entry<V>>, i: nat)
    requires i < |es|
    requires forall j | i < j < |es| :: es[j].key != es[i].key
    ensures Latest(es, es[i].key) == Some(es[i].value)
    decreases |es|
  {
    var k := es[i].key;
    var later := es[i + 1..];
    forall j | 0 <= j < |later|
      ensures later[j].key != k
    {
      assert later[j] == es[i + 1 + j];
    }
    assert k !in KeySet(later);
    if i > 0 {
      assert es[1..][i - 1] == es[i];
      LatestOfLast(es[1..], i - 1);
    } else {
      assert es[1..] == es[i + 1..];
    }
  }

  /** The keys the elements of `xs` are stored under. */
  function KeysOf<T>(xs: seq<T>, key: T -> Key): set<Key> {
    set i | 0 <= i < |xs| :: key(xs[i])
  }

  /** No later element of `xs` shares the key of element `i`: its write is
      the one a sequence of writes leaves in the store. */
  predicate LastWithKey<T>(xs: seq<T>, key: T -> Key, i: nat)
    requires i < |xs|
  {
    forall j | i < j < |xs| :: key(xs[j]) != key(xs[i])
  }

  /** Every element of `xs` has a key of its own. */
  predicate DistinctKeys<T>(xs: seq<T>, key: T -> Key) {
    forall i, j | 0 <= i < j < |xs| :: key(xs[i]) != key(xs[j])
  }

  /** The keys of `xs` strictly ascend: the order the store iterates them in. */
  predicate SortedByKey<T>(xs: seq<T>, key: T -> Key) {
    forall i, j | 0 <= i < j < |xs| :: KeyLess(key(xs[i]), key(xs[j]))
  }

  /** Storing each element of `xs` in turn leaves, under the key of an
      element no later element overwrites, that element's value. */
  lemma SetAllLast<T, V>(s: Store<V>, xs: seq<T>, key: T -> Key, value: T -> V, i: nat)
    requires i < |xs| && LastWithKey(xs, key, i)
    ensures Get(SetAll(s, Entries(xs, key, value)), key(xs[i])) == Some(value(xs[i]))
  {
    LatestOfLast(Entries(xs, key, value), i);
  }

  /** Storing each element of `xs` in turn leaves keys outside `xs` alone. */
  lemma SetAllOutside<T, V>(s: Store<V>, xs: seq<T>, key: T -> Key, value: T -> V, k: Key)
    requires k !in KeysOf(xs, key)
    ensures Get(SetAll(s, Entries(xs, key, value)), k) == Get(s, k)
  {
    assert k !in KeySet(Entries(xs, key, value));
  }

  /** A callback that never asks to stop visits everything. */
  lemma VisitAll<T>(xs: seq<T>, stop: T -> bool)
    requires forall i | 0 <= i < |xs| :: !stop(xs[i])
    ensures Visit(xs, stop) == xs
  {
    var r := Visit(xs, stop);
    assert r <= xs;
  }

  /** Writing a key the store lacks and deleting it again restores the store. */
  lemma SetThenDelete<V>(s: Store<V>, k: Key, v: V)
    requires Get(s, k) == None
    ensures Delete(Set(s, k, v), k) == s
  {
    UpdateThenRemove(View(s), k, v);
    assert View(s) - {k} == View(s);
    Extensionality(Delete(Set(s, k, v), k), s);
  }

  /** A write adds an entry exactly when the key was absent. */
  lemma SetSize<V>(s: Store<V>, k: Key, v: V)
    ensures |Set(s, k, v)| == if Get(s, k).Some? then |s| else |s| + 1
  {
    SizeIsKeyCount(s);
    SizeIsKeyCount(Set(s, k, v));
    assert KeySet(Set(s, k, v)) == KeySet(s) + {k};
  }

  /** The keys present after writing `es` are those present before and
      those `es` writes. */
  lemma SetAllKeys<V>(s: Store<V>, es: seq<Entry<V>>)
    ensures KeySet(SetAll(s, es)) == KeySet(s) + KeySet(es)
  {
    var r := SetAll(s, es);
    forall k | k in KeySet(r)
      ensures k in KeySet(s) + KeySet(es)
    {
      assert Get(r, k).Some?;
    }
    forall k | k in KeySet(s) + KeySet(es)
      ensures k in KeySet(r)
    {
      if k in KeySet(es) {
        assert Latest(es, k).Some?;
      } else {
        assert Get(s, k).Some?;
      }
      assert Get(r, k).Some?;
    }
  }

  /** Each entry of a sorted store is what the store's view holds for its key. */
  lemma {:induction false} EntryInView<V>(s: seq<Entry<V>>, j: nat)
    requires Sorted(s) && j < |s|
    ensures s[j].key in View(s) && View(s)[s[j].key] == s[j].value
    decreases |s|
  {
    if j > 0 {
      HeadIsLeast(s);
      EntryInView(s[1..], j - 1);
      KeyLessIrreflexive(s[0].key);
    }
  }

  /** Each key of the view is held by some entry, with the view's value. */
  lemma {:induction false} ViewHasEntry<V>(s: seq<Entry<V>>, k: Key) returns (j: nat)
    requires k in View(s)
    ensures j < |s| && s[j].key == k && s[j].value == View(s)[k]
    decreases |s|
  {
    if s[0].key == k {
      j := 0;
    } else {
      var j' := ViewHasEntry(s[1..], k);
      j := j' + 1;
    }
  }

  lemma EntriesKeys<T, V>(xs: seq<T>, key: T -> Key, value: T -> V)
    ensures KeySet(Entries(xs, key, value)) == KeysOf(xs, key)
  {
    var es := Entries(xs, key, value);
    assert forall i | 0 <= i < |xs| :: es[i].key == key(xs[i]);
  }

  /** Elements with keys of their own contribute one key each. */
  lemma {:induction false} DistinctKeysCount<T>(xs: seq<T>, key: T -> Key)
    requires DistinctKeys(xs, key)
    ensures |KeysOf(xs, key)| == |xs|
    decreases |xs|
  {
    if xs != [] {
      var rest := xs[1..];
      assert DistinctKeys(rest, key) by {
        forall i, j | 0 <= i < j < |rest|
          ensures key(rest[i]) != key(rest[j])
        {
          assert rest[i] == xs[i + 1] && rest[j] == xs[j + 1];
        }
      }
      DistinctKeysCount(rest, key);
      assert KeysOf(xs, key) == {key(xs[0])} + KeysOf(rest, key) by {
        forall k | k in KeysOf(xs, key)
          ensures k in {key(xs[0])} + KeysOf(rest, key)
        {
          var i :| 0 <= i < |xs| && key(xs[i]) == k;
          if i > 0 {
            assert rest[i - 1] == xs[i];
          }
        }
        forall k | k in KeysOf(rest, key)
          ensures k in KeysOf(xs, key)
        {
          var i :| 0 <= i < |rest| && key(rest[i]) == k;
          assert xs[i + 1] == rest[i];
        }
      }
      assert key(xs[0]) !in KeysOf(rest, key) by {
        forall i | 0 <= i < |rest|
          ensures key(rest[i]) != key(xs[0])
        {
          assert rest[i] == xs[i + 1];
        }
      }
    }
  }

  /** Every entry of `s` satisfies `ok`: an invariant a store keeps as long
      as every write does. */
  predicate EveryEntry<V>(s: seq<Entry<V>>, ok: (Key, V) -> bool) {
    forall i | 0 <= i < |s| :: ok(s[i].key, s[i].value)
  }

  lemma ViewSatisfies<V>(s: Store<V>, ok: (Key, V) -> bool)
    requires EveryEntry(s, ok)
    ensures forall k | k in View(s) :: ok(k, View(s)[k])
  {
    forall k | k in View(s)
      ensures ok(k, View(s)[k])
    {
      var j := ViewHasEntry(s, k);
    }
  }

  lemma SatisfiedByView<V>(s: Store<V>, ok: (Key, V) -> bool)
    requires forall k | k in View(s) :: ok(k, View(s)[k])
    ensures EveryEntry(s, ok)
  {
    forall i | 0 <= i < |s|
      ensures ok(s[i].key, s[i].value)
    {
      EntryInView(s, i);
    }
  }

  /** A write of an entry satisfying `ok` keeps every entry satisfying it. */
  lemma SetKeeps<V>(s: Store<V>, k: Key, v: V, ok: (Key, V) -> bool)
    requires EveryEntry(s, ok) && ok(k, v)
    ensures EveryEntry(Set(s, k, v), ok)
  {
    ViewSatisfies(s, ok);
    SatisfiedByView(Set(s, k, v), ok);
  }

  /** A delete keeps every entry satisfying `ok`. */
  lemma DeleteKeeps<V>(s: Store<V>, k: Key, ok: (Key, V) -> bool)
    requires EveryEntry(s, ok)
    ensures EveryEntry(Delete(s, k), ok)
  {
    ViewSatisfies(s, ok);
    SatisfiedByView(Delete(s, k), ok);
  }

  /** A batch of entries satisfying `ok` keeps every entry satisfying it. */
  lemma {:induction false} SetAllKeeps<V>(s: Store<V>, es: seq<Entry<V>>, ok: (Key, V) -> bool)
    requires EveryEntry(s, ok) && EveryEntry(es, ok)
    ensures EveryEntry(SetAll(s, es), ok)
    decreases |es|
  {
    if es != [] {
      SetKeeps(s, es[0].key, es[0].value, ok);
      var rest := es[1..];
      assert EveryEntry(rest, ok) by {
        forall i | 0 <= i < |rest|
          ensures ok(rest[i].key, rest[i].value)
        {
          assert rest[i] == es[i + 1];
        }
      }
      SetAllKeeps(Set(s, es[0].key, es[0].value), rest, ok);
    }
  }
}
